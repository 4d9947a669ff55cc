/** lib/bsdiff.ts: how `generateBsdiffPatch` classifies the outcome of
    running the bsdiff binary. Running the subprocess is not part of this
    model; its outcome is the input. */
module Bsdiff {
  import opened Wrappers
  import opened Text

  /** The `code` of a Node subprocess error: a string such as `ENOENT`, or
      the process's exit status. */
  datatype ErrorCode = StringCode(name: string) | ExitStatus(status: int)

  /** The fields of the rejected `execFile` error the classifier reads;
      `text` is `String(error)`. */
  datatype SubprocessError = SubprocessError(
    code: Option<ErrorCode>,
    killed: bool,
    signal: Option<string>,
    stderr: Option<string>,
    stdout: Option<string>,
    message: Option<string>,
    text: string)

  datatype RunOutcome = Completed | Errored(error: SubprocessError)

  datatype FailureReason = NotInstalled | TimedOut | Failed

  /** `GenerateBsdiffResult`. */
  datatype BsdiffResult = BsdiffOk | BsdiffFailure(reason: FailureReason, message: string)

  function ReasonName(r: FailureReason): string {
    match r
    case NotInstalled => "bsdiff_not_installed"
    case TimedOut => "bsdiff_timeout"
    case Failed => "bsdiff_failed"
  }

  const NotInstalledMessage := "bsdiff binary is not available on server"
  const TimedOutMessage := "bsdiff execution timed out"

  /** JavaScript truthiness of an error code: a non-empty string or a
      non-zero number. */
  predicate CodeTruthy(c: Option<ErrorCode>) {
    match c
    case None => false
    case Some(StringCode(s)) => s != ""
    case Some(ExitStatus(n)) => n != 0
  }

  /** `String(n)` for an integer: its decimal digits, with `-` in front of a
      negative number. */
  function DecimalText(n: int): (s: string)
    ensures |s| > 0
    ensures n >= 0 ==> forall i :: 0 <= i < |s| ==> '0' <= s[i] <= '9'
    ensures n < 0 ==> s[0] == '-'
    decreases if n < 0 then 1 - n else n
  {
    if n < 0 then "-" + DecimalText(-n)
    else if n < 10 then [('0' as int + n) as char]
    else DecimalText(n / 10) + [('0' as int + n % 10) as char]
  }

  /** The value of a decimal digit string. */
  function DigitsValue(s: string): int
    requires forall i :: 0 <= i < |s| ==> '0' <= s[i] <= '9'
  {
    if |s| == 0 then 0 else DigitsValue(s[..|s| - 1]) * 10 + (s[|s| - 1] as int - '0' as int)
  }

  /** Reading back the digits of a non-negative number gives the number. */
  lemma {:induction false} DecimalTextValue(n: nat)
    ensures DigitsValue(DecimalText(n)) == n
    decreases n
  {
    if n >= 10 {
      var s := DecimalText(n);
      DecimalTextValue(n / 10);
      assert s[..|s| - 1] == DecimalText(n / 10);
    }
  }

  function CodeText(c: ErrorCode): string {
    match c
    case StringCode(s) => s
    case ExitStatus(n) => DecimalText(n)
  }

  /** `[stderr, stdout].filter(Boolean).join(' | ')` of the trimmed outputs:
      the join of the non-empty ones, at most two. */
  function OutputSummary(stderr: string, stdout: string): (m: string)
    ensures m == "" <==> stderr == "" && stdout == ""
    ensures stderr != "" && stdout != "" ==> m == stderr + " | " + stdout
    ensures stderr == "" || stdout == "" ==> m == stderr + stdout
  {
    var kept := (if stderr != "" then [stderr] else []) + (if stdout != "" then [stdout] else []);
    if |kept| == 2 then kept[0] + " | " + kept[1] else if |kept| == 1 then kept[0] else ""
  }

  /** The message of a failed run: the trimmed outputs, or else the code,
      the error message or the error itself. */
  function FailureMessage(e: SubprocessError): (m: string)
    ensures var summary := OutputSummary(Trim(OrDefault(e.stderr, "")), Trim(OrDefault(e.stdout, "")));
      && (summary != "" ==> m == summary)
      && (summary == "" && CodeTruthy(e.code) ==> m == CodeText(e.code.value))
      && (summary == "" && !CodeTruthy(e.code) && Truthy(e.message) ==> m == e.message.value)
      && (summary == "" && !CodeTruthy(e.code) && !Truthy(e.message) ==> m == e.text)
  {
    var summary := OutputSummary(Trim(OrDefault(e.stderr, "")), Trim(OrDefault(e.stdout, "")));
    if summary != "" then summary
    else if CodeTruthy(e.code) then CodeText(e.code.value)
    else if Truthy(e.message) then e.message.value
    else e.text
  }

  /** `generateBsdiffPatch`'s result for an outcome: every error is
      classified, never rethrown. A missing binary takes precedence over a
      kill, and a kill or `SIGTERM` over any other failure. */
  function Classify(outcome: RunOutcome): (r: BsdiffResult)
    ensures r.BsdiffOk? <==> outcome.Completed?
    ensures outcome.Errored? && outcome.error.code == Some(StringCode("ENOENT")) ==>
              r == BsdiffFailure(NotInstalled, NotInstalledMessage)
    ensures outcome.Errored? && outcome.error.code != Some(StringCode("ENOENT"))
            && (outcome.error.killed || outcome.error.signal == Some("SIGTERM")) ==>
              r == BsdiffFailure(TimedOut, TimedOutMessage)
    ensures outcome.Errored? && outcome.error.code != Some(StringCode("ENOENT"))
            && !outcome.error.killed && outcome.error.signal != Some("SIGTERM") ==>
              r == BsdiffFailure(Failed, FailureMessage(outcome.error))
    ensures r.BsdiffFailure? && r.reason == Failed ==>
              && outcome.Errored? && outcome.error.code != Some(StringCode("ENOENT"))
              && !outcome.error.killed && outcome.error.signal != Some("SIGTERM")
              && r.message == FailureMessage(outcome.error)
  {
    match outcome
    case Completed => BsdiffOk
    case Errored(e) =>
      if e.code == Some(StringCode("ENOENT")) then BsdiffFailure(NotInstalled, NotInstalledMessage)
      else if e.killed || e.signal == Some("SIGTERM") then BsdiffFailure(TimedOut, TimedOutMessage)
      else BsdiffFailure(Failed, FailureMessage(e))
  }

  /** Output on both streams is reported in full, stderr first, whatever
      the exit code. */
  lemma FailedRunReportsOutput(e: SubprocessError, err: string, out: string)
    requires e.code != Some(StringCode("ENOENT")) && !e.killed && e.signal != Some("SIGTERM")
    requires e.stderr == Some(err) && e.stdout == Some(out)
    requires err != "" && out != "" && Trim(err) == err && Trim(out) == out
    ensures Classify(Errored(e)) == BsdiffFailure(Failed, err + " | " + out)
  {
  }

  /** With no output, a numeric exit status is reported as its decimal
      text. */
  lemma SilentFailureReportsStatus(e: SubprocessError, n: int)
    requires e.code == Some(ExitStatus(n)) && n != 0 && !e.killed && e.signal != Some("SIGTERM")
    requires e.stderr.None? && e.stdout.None?
    ensures Classify(Errored(e)) == BsdiffFailure(Failed, DecimalText(n))
  {
    assert Trim("") == "";
  }
}
