/** app/api/admin/publish/route.ts: the admin endpoint that lists,
    publishes and deletes updates. Every handler checks the caller with
    `assertAdmin` before anything else. */
module PublishRoute {
  import opened Wrappers
  import opened Text
  import opened Http
  import opened Foreign
  import opened Env
  import opened Auth
  import opened Updates
  import opened UpdatesList
  import opened UpdatesPublish
  import opened UpdatesDelete
  import opened Storage

  /** `toView`: an update row as the admin UI shows it. */
  datatype UpdateView = UpdateView(id: string, platform: Platform, channel: string, runtimeVersion: string,
                                   appVersion: string, message: string, createdAt: int, assetsCount: nat)

  /** The JSON bodies of the endpoint. */
  datatype AdminBody =
    | ErrorJson(error: string)
    | UpdatesJson(updates: seq<UpdateView>)
    | PublishedJson(count: nat, published: seq<UpdateView>)
    | DeletedJson(result: DeleteResult)

  /** The response, or the message of an exception the handler does not
      catch. */
  type AdminResponse = Result<Response<AdminBody>, string>

  /** A multipart form field: text, or an uploaded file. */
  datatype FormValue = FormText(text: string) | FormFile(bytes: Bytes)

  /** The form fields POST reads. */
  datatype PublishForm = PublishForm(channel: Option<FormValue>, runtimeVersion: Option<FormValue>,
                                     appVersion: Option<FormValue>, message: Option<FormValue>,
                                     archive: Option<FormValue>)

  const ListLimit: nat := 150

  function Json(status: int, body: AdminBody): Response<AdminBody> {
    Response(status, map[], body)
  }

  const Unauthorized := Json(401, ErrorJson("Unauthorized"))

  function ToView(u: UpdateRow): (v: UpdateView)
    ensures v.appVersion == (if Truthy(u.appVersion) then u.appVersion.value else "N/A")
    ensures v.message == (if Truthy(u.message) then u.message.value else "")
    ensures v.assetsCount == (if u.manifest.Some? then |u.manifest.value.assets| else 0)
    ensures v.id == u.id && v.platform == u.platform && v.channel == u.channel
    ensures v.runtimeVersion == u.runtimeVersion && v.createdAt == u.createdAt
  {
    UpdateView(u.id, u.platform, u.channel, u.runtimeVersion,
               if Truthy(u.appVersion) then u.appVersion.value else "N/A",
               if Truthy(u.message) then u.message.value else "",
               u.createdAt,
               if u.manifest.Some? then |u.manifest.value.assets| else 0)
  }

  function Views(rows: seq<UpdateRow>): (vs: seq<UpdateView>)
    ensures |vs| == |rows|
    ensures forall i :: 0 <= i < |rows| ==> vs[i] == ToView(rows[i])
  {
    seq(|rows|, i requires 0 <= i < |rows| => ToView(rows[i]))
  }

  /** The admin check: `None` when the caller is an administrator, else the
      401 response or the check's exception. */
  function Guard(h: Headers, sessionCookie: Option<string>, env: AppEnv, x: Externals): (r: Option<AdminResponse>)
    ensures r.None? <==> AssertAdmin(h, sessionCookie, env, x) == Success(true)
    ensures AssertAdmin(h, sessionCookie, env, x) == Success(false) ==> r == Some(Success(Unauthorized))
    ensures AssertAdmin(h, sessionCookie, env, x).Failure? ==> r == Some(Failure(AssertAdmin(h, sessionCookie, env, x).error))
  {
    match AssertAdmin(h, sessionCookie, env, x)
    case Failure(e) => Some(Failure(e))
    case Success(false) => Some(Success(Unauthorized))
    case Success(true) => None
  }

  // ---------------------------------------------------------------------
  // GET

  /** `GET`: the newest 150 updates. */
  function AdminGet(h: Headers, sessionCookie: Option<string>, env: AppEnv, rows: seq<UpdateRow>,
                    queryError: Option<string>, x: Externals): (r: AdminResponse)
    ensures Guard(h, sessionCookie, env, x).Some? ==> r == Guard(h, sessionCookie, env, x).value
    ensures Guard(h, sessionCookie, env, x).None? ==>
              match ListPublishedUpdates(rows, ListLimit, queryError)
              case Failure(e) => r == Failure(e)
              case Success(listed) => r == Success(Json(200, UpdatesJson(Views(listed))))
  {
    match Guard(h, sessionCookie, env, x)
    case Some(denied) => denied
    case None =>
      match ListPublishedUpdates(rows, ListLimit, queryError)
      case Failure(e) => Failure(e)
      case Success(listed) => Success(Json(200, UpdatesJson(Views(listed))))
  }

  // ---------------------------------------------------------------------
  // POST

  /** `String(formData.get(name) || fallback)`: an absent or empty field is
      the fallback; a file reads as `[object File]`. */
  function FieldText(v: Option<FormValue>, fallback: string): (s: string)
    ensures v.None? || v == Some(FormText("")) ==> s == fallback
    ensures v.Some? && v.value.FormText? && v.value.text != "" ==> s == v.value.text
  {
    match v
    case None => fallback
    case Some(FormText(t)) => if t == "" then fallback else t
    case Some(FormFile(_)) => "[object File]"
  }

  /** `value || undefined`. */
  function Optional(s: string): (r: Option<string>)
    ensures r.None? <==> s == ""
    ensures r.Some? ==> r.value == s
  {
    if s == "" then None else Some(s)
  }

  /** The POST input checks: the trimmed fields, a required runtime
      version, then a required archive file. */
  function ReadPublishForm(f: PublishForm): (r: Result<(PublishInput, Bytes), string>)
    ensures r.Success? <==> Trim(FieldText(f.runtimeVersion, "")) != "" && f.archive.Some? && f.archive.value.FormFile?
    ensures Trim(FieldText(f.runtimeVersion, "")) == "" ==> r == Failure("runtimeVersion is required.")
    ensures Trim(FieldText(f.runtimeVersion, "")) != "" && !(f.archive.Some? && f.archive.value.FormFile?) ==>
              r == Failure("archive file is required.")
    ensures r.Success? ==>
              && r.value.0.channel == Trim(FieldText(f.channel, "production"))
              && r.value.0.runtimeVersion == Trim(FieldText(f.runtimeVersion, ""))
              && r.value.0.appVersion == Optional(Trim(FieldText(f.appVersion, "")))
              && r.value.0.message == Optional(Trim(FieldText(f.message, "")))
              && r.value.1 == f.archive.value.bytes
  {
    var channel := Trim(FieldText(f.channel, "production"));
    var runtimeVersion := Trim(FieldText(f.runtimeVersion, ""));
    var appVersion := Trim(FieldText(f.appVersion, ""));
    var message := Trim(FieldText(f.message, ""));
    if runtimeVersion == "" then Failure("runtimeVersion is required.")
    else match f.archive
      case Some(FormFile(bytes)) => Success((PublishInput(channel, runtimeVersion, Optional(appVersion), Optional(message)), bytes))
      case _ => Failure("archive file is required.")
  }

  /** The channel defaults to `production` only when the field is missing
      or empty; a blank one is trimmed to the empty channel. */
  lemma BlankChannelStaysBlank(f: PublishForm)
    requires f.channel == Some(FormText(" "))
    requires ReadPublishForm(f).Success?
    ensures ReadPublishForm(f).value.0.channel == ""
  {
    SpaceIsSpace();
    TrimLeadingSpace(' ', "");
  }

  /** `POST`: publishes the archive; `publish` is `publishUpdateArchive`
      applied to the input and the archive's bytes, `Failure` for the error
      it throws. The count is the number of rows published. */
  function AdminPost(h: Headers, sessionCookie: Option<string>, env: AppEnv, form: PublishForm,
                     publish: (PublishInput, Bytes) -> Result<seq<UpdateRow>, string>, x: Externals): (r: AdminResponse)
    ensures Guard(h, sessionCookie, env, x).Some? ==> r == Guard(h, sessionCookie, env, x).value
    ensures Guard(h, sessionCookie, env, x).None? && ReadPublishForm(form).Failure? ==>
              r == Success(Json(400, ErrorJson(ReadPublishForm(form).error)))
    ensures r.Success? && r.value.status == 200 ==>
              && Guard(h, sessionCookie, env, x).None? && ReadPublishForm(form).Success?
              && var (input, bytes) := ReadPublishForm(form).value;
                 && publish(input, bytes).Success?
                 && r.value.body == PublishedJson(|publish(input, bytes).value|, Views(publish(input, bytes).value))
    ensures Guard(h, sessionCookie, env, x).None? && ReadPublishForm(form).Success? ==>
              var (input, bytes) := ReadPublishForm(form).value;
              && (publish(input, bytes).Failure? ==> r == Failure(publish(input, bytes).error))
              && (publish(input, bytes).Success? ==>
                    r == Success(Json(200, PublishedJson(|publish(input, bytes).value|, Views(publish(input, bytes).value)))))
  {
    match Guard(h, sessionCookie, env, x)
    case Some(denied) => denied
    case None =>
      match ReadPublishForm(form)
      case Failure(e) => Success(Json(400, ErrorJson(e)))
      case Success((input, bytes)) =>
        match publish(input, bytes)
        case Failure(e) => Failure(e)
        case Success(published) => Success(Json(200, PublishedJson(|published|, Views(published))))
  }

  /** `publishUpdateArchive` as the route calls it: `loadZip` is
      `JSZip.loadAsync`, `message` the text of each error it throws. */
  function ServicePublish(loadZip: Bytes -> Zip, parseJson: string -> MetadataJson, createdAt: int, ids: nat -> string,
                          failInsertAt: Option<nat>, rows: seq<UpdateRow>, store: BlobStore, x: Externals,
                          message: PublishError -> string): (PublishInput, Bytes) -> Result<seq<UpdateRow>, string>
  {
    (input: PublishInput, bytes: Bytes) =>
      match PublishUpdateArchive(input, loadZip(bytes), parseJson, createdAt, ids, failInsertAt, rows, store, x).result
      case Success(published) => Success(published)
      case Failure(e) => Failure(message(e))
  }

  /** With the real service behind it, a successful `POST` reports one
      published row per platform section of the archive, each with the
      section's platform and its fresh id; a service error is thrown with
      its message. */
  lemma AdminPostPublishesSections(h: Headers, sessionCookie: Option<string>, env: AppEnv, form: PublishForm,
                                   loadZip: Bytes -> Zip, parseJson: string -> MetadataJson, createdAt: int, ids: nat -> string,
                                   failInsertAt: Option<nat>, rows: seq<UpdateRow>, store: BlobStore, x: Externals,
                                   message: PublishError -> string)
    ensures Guard(h, sessionCookie, env, x).None? && ReadPublishForm(form).Success? ==>
      var (input, bytes) := ReadPublishForm(form).value;
      var r := AdminPost(h, sessionCookie, env, form, ServicePublish(loadZip, parseJson, createdAt, ids, failInsertAt, rows, store, x, message), x);
      var out := PublishUpdateArchive(input, loadZip(bytes), parseJson, createdAt, ids, failInsertAt, rows, store, x);
      var added := out.rows[|rows|..];
      && (out.result.Failure? ==> r == Failure(message(out.result.error)))
      && (out.result.Success? ==>
            && ArchiveSections(loadZip(bytes), parseJson, x).Success?
            && |added| == |ArchiveSections(loadZip(bytes), parseJson, x).value|
            && (forall i :: 0 <= i < |added| ==>
                  added[i].platform == ArchiveSections(loadZip(bytes), parseJson, x).value[i].platform && added[i].id == ids(i))
            && r == Success(Json(200, PublishedJson(|added|, Views(added)))))
  {
    if Guard(h, sessionCookie, env, x).None? && ReadPublishForm(form).Success? {
      var (input, bytes) := ReadPublishForm(form).value;
      PublishRowsPerSection(input, loadZip(bytes), parseJson, createdAt, ids, failInsertAt, rows, store, x);
    }
  }

  // ---------------------------------------------------------------------
  // DELETE

  /** `DELETE`: `id` is the request URL's `id` query parameter; `remove` is
      `deletePublishedUpdate`. A blank id is a 400, an unknown one a 404. */
  function AdminDelete(h: Headers, sessionCookie: Option<string>, env: AppEnv, id: Option<string>,
                       remove: string -> Result<DeleteResult, string>, x: Externals): (r: AdminResponse)
    ensures Guard(h, sessionCookie, env, x).Some? ==> r == Guard(h, sessionCookie, env, x).value
    ensures Guard(h, sessionCookie, env, x).None? && (id.None? || Trim(id.value) == "") ==>
              r == Success(Json(400, ErrorJson("id is required.")))
    ensures Guard(h, sessionCookie, env, x).None? && id.Some? && Trim(id.value) != "" ==>
              match remove(Trim(id.value))
              case Failure(e) => r == Failure(e)
              case Success(result) =>
                r == Success(if result.deleted then Json(200, DeletedJson(result)) else Json(404, ErrorJson("Update not found.")))
  {
    match Guard(h, sessionCookie, env, x)
    case Some(denied) => denied
    case None =>
      var updateId := if id.Some? then Trim(id.value) else "";
      if updateId == "" then Success(Json(400, ErrorJson("id is required.")))
      else
        match remove(updateId)
        case Failure(e) => Failure(e)
        case Success(result) =>
          Success(if result.deleted then Json(200, DeletedJson(result)) else Json(404, ErrorJson("Update not found.")))
  }

  /** Deleting through the endpoint with the service: an id that names no
      update is a 404 and changes nothing. */
  lemma DeleteUnknownIs404(h: Headers, sessionCookie: Option<string>, env: AppEnv, id: string,
                           faults: DeleteFaults, s: StoreState, x: Externals)
    requires AssertAdmin(h, sessionCookie, env, x) == Success(true)
    requires Trim(id) != "" && faults.find.None?
    requires forall row :: row in s.rows ==> row.id != Trim(id)
    ensures var remove := (u: string) => DeletePublishedUpdate(u, faults, s, x).result;
      AdminDelete(h, sessionCookie, env, Some(id), remove, x) == Success(Json(404, ErrorJson("Update not found.")))
  {
    TrimIdempotent(id);
    DeleteUnknownId(Trim(id), faults, s, x);
  }
}
