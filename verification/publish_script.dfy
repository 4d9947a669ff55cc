/** scripts/publish-update.mjs: the command-line client that uploads an
    update archive to the admin publish endpoint. Reading the file and the
    HTTP exchange are parameters. */
module PublishScript {
  import opened Wrappers
  import opened Text
  import opened Http
  import opened Foreign
  import opened UpdatesPublish
  import opened PublishRoute

  /** The position of the first occurrence of `flag` (`indexOf`). */
  function IndexOf(argv: seq<string>, flag: string): (r: Option<nat>)
    ensures r.None? <==> flag !in argv
    ensures r.Some? ==> r.value < |argv| && argv[r.value] == flag && forall i :: 0 <= i < r.value ==> argv[i] != flag
  {
    if |argv| == 0 then None
    else if argv[0] == flag then Some(0)
    else
      var rest := IndexOf(argv[1..], flag);
      assert argv == [argv[0]] + argv[1..];
      if rest.None? then None else Some(rest.value + 1)
  }

  /** `getArg`: the argument after the first occurrence of the flag, or the
      fallback when the flag is absent or its argument missing or empty. */
  function GetArg(argv: seq<string>, flag: string, fallback: string): (r: string)
    ensures flag !in argv ==> r == fallback
    ensures flag in argv ==>
              var i := IndexOf(argv, flag).value;
              r == if i + 1 < |argv| && argv[i + 1] != "" then argv[i + 1] else fallback
  {
    match IndexOf(argv, flag)
    case None => fallback
    case Some(i) => if i + 1 < |argv| && argv[i + 1] != "" then argv[i + 1] else fallback
  }

  /** A flag given once with a non-empty argument yields that argument. */
  lemma GetArgGiven(before: seq<string>, flag: string, value: string, after: seq<string>, fallback: string)
    requires flag !in before && value != ""
    ensures GetArg(before + [flag, value] + after, flag, fallback) == value
  {
    var argv := before + [flag, value] + after;
    assert argv[|before|] == flag;
    assert forall k :: 0 <= k < |before| ==> argv[k] == before[k] && argv[k] != flag;
    var i := IndexOf(argv, flag).value;
    assert i == |before|;
    assert argv[i + 1] == value;
  }

  datatype ScriptArgs = ScriptArgs(server: string, token: string, archive: string, runtimeVersion: string,
                                   channel: string, appVersion: string, message: string)

  /** The seven options; a missing channel is `production`, a missing app
      version or message empty, and the four required ones empty when
      missing. */
  function ReadArgs(argv: seq<string>): (a: ScriptArgs)
    ensures a.channel != ""
    ensures "--channel" !in argv ==> a.channel == "production"
    ensures "--app-version" !in argv ==> a.appVersion == ""
    ensures "--message" !in argv ==> a.message == ""
    ensures "--server" !in argv ==> a.server == ""
    ensures "--token" !in argv ==> a.token == ""
    ensures "--archive" !in argv ==> a.archive == ""
    ensures "--runtime" !in argv ==> a.runtimeVersion == ""
  {
    ScriptArgs(GetArg(argv, "--server", ""), GetArg(argv, "--token", ""), GetArg(argv, "--archive", ""),
               GetArg(argv, "--runtime", ""), GetArg(argv, "--channel", "production"),
               GetArg(argv, "--app-version", ""), GetArg(argv, "--message", ""))
  }

  predicate Complete(a: ScriptArgs) {
    a.server != "" && a.token != "" && a.archive != "" && a.runtimeVersion != ""
  }

  /** `server.replace(/\/$/, '')`: one trailing slash removed. */
  function StripTrailingSlash(server: string): (r: string)
    ensures EndsWith(server, "/") ==> r + "/" == server
    ensures !EndsWith(server, "/") ==> r == server
  {
    if |server| > 0 && server[|server| - 1] == '/' then server[..|server| - 1] else server
  }

  /** The endpoint URL. */
  function PublishUrl(server: string): (u: string)
    ensures EndsWith(u, "/api/admin/publish")
    ensures u == StripTrailingSlash(server) + "/api/admin/publish"
  {
    var u := StripTrailingSlash(server) + "/api/admin/publish";
    assert u[|u| - |"/api/admin/publish"|..] == "/api/admin/publish";
    u
  }

  /** The request the script sends. */
  datatype PublishRequest = PublishRequest(url: string, headers: Headers, form: PublishForm)

  function BuildRequest(a: ScriptArgs, bytes: Bytes): (r: PublishRequest)
    ensures r.url == PublishUrl(a.server) && r.headers == map["x-admin-token" := a.token]
    ensures r.form == PublishForm(Some(FormText(a.channel)), Some(FormText(a.runtimeVersion)), Some(FormText(a.appVersion)),
                                  Some(FormText(a.message)), Some(FormFile(bytes)))
  {
    PublishRequest(PublishUrl(a.server), map["x-admin-token" := a.token],
                   PublishForm(Some(FormText(a.channel)), Some(FormText(a.runtimeVersion)), Some(FormText(a.appVersion)),
                               Some(FormText(a.message)), Some(FormFile(bytes))))
  }

  /** What the script does: the request it sends, if any, and its exit
      code. `readFile` is `None` when the archive cannot be read (the
      script then dies with code 1); `send` says whether the response was
      `ok`. */
  datatype ScriptOutcome = ScriptOutcome(request: Option<PublishRequest>, exitCode: int)

  function RunScript(argv: seq<string>, readFile: string -> Option<Bytes>, send: PublishRequest -> bool): (r: ScriptOutcome)
    ensures !Complete(ReadArgs(argv)) ==> r == ScriptOutcome(None, 1)
    ensures r.request.Some? ==> Complete(ReadArgs(argv)) && readFile(ReadArgs(argv).archive).Some?
                                && r.request.value == BuildRequest(ReadArgs(argv), readFile(ReadArgs(argv).archive).value)
    ensures Complete(ReadArgs(argv)) && readFile(ReadArgs(argv).archive).Some? ==> r.request.Some?
    ensures r.exitCode == 0 <==> r.request.Some? && send(r.request.value)
    ensures r.exitCode == 0 || r.exitCode == 1
  {
    var a := ReadArgs(argv);
    if !Complete(a) then ScriptOutcome(None, 1)
    else
      match readFile(a.archive)
      case None => ScriptOutcome(None, 1)
      case Some(bytes) =>
        var request := BuildRequest(a, bytes);
        ScriptOutcome(Some(request), if send(request) then 0 else 1)
  }

  /** The endpoint reads the script's form back as the script's values,
      trimmed, with empty app version and message as absent. */
  lemma ScriptFormAccepted(a: ScriptArgs, bytes: Bytes)
    requires Trim(a.runtimeVersion) != "" && a.channel != ""
    ensures ReadPublishForm(BuildRequest(a, bytes).form)
         == Success((PublishInput(Trim(a.channel), Trim(a.runtimeVersion), Optional(Trim(a.appVersion)), Optional(Trim(a.message))), bytes))
  {
    assert Trim("") == "";
  }
}
