/** The media upload endpoint (internal/api/client/media/mediacreate.go):
    `mediaRequestHandler.Create`, which bootstraps a fresh state and calls
    the processor, `validateCreateMedia`, and `MediaCreatePOSTHandler`,
    which checks the request, calls `Create` and answers with the
    attachment. */
module MediaCreate {
  import opened GoStd
  import opened Bootstrap
  import opened ApiModel
  import opened Utf8

  /** The storage lock `Create` always uses. */
  const HelloLock: string := "hello.lock"

  /** `mediaRequestHandler.Create`: the shared bootstrap under
      `"hello.lock"`, then the processor's `Media().Create`, whose error is
      discarded. `created` is what that call would produce. */
  function Create(failing: set<Stage>, created: Outcome<Attachment>): (r: Reply<Attachment>)
    ensures TornDown(r.trace) && LocksWith(r.trace, HelloLock)
    ensures r.err.None? <==> failing == {}
    ensures FirstFailure(failing) < |Stages| ==>
      && r.err == Some(StageFailed(Stages[FirstFailure(failing)]))
      && r.value.None?
      && r.trace == [CachesInit, CachesStart] + Attempted(failing, HelloLock) + [CachesStop]
    ensures failing == {} ==>
      && r.value == Kept(created)
      && r.trace == Booted(HelloLock) + [CallMedia(CreateMedia), WorkersStop, CachesStop]
  {
    var started := StartStorage(HelloLock, failing);
    if started.failed.Some? then
      AbortTrace(HelloLock, failing);
      Abort(started.run, started.failed.value)
    else
      NoFailure(failing);
      var run := StartWorkers(started.run);
      var run := run.(trace := run.trace + [BuildProcessor]);
      assert run.trace == Booted(HelloLock);
      Reply(MediaCalled(run, HelloLock, CreateMedia), Kept(created), None)
  }

  /** `Create` with the processor's error passed back to the caller instead
      of discarded. */
  function CreateFixed(failing: set<Stage>, created: Outcome<Attachment>): (r: Reply<Attachment>)
    ensures TornDown(r.trace) && LocksWith(r.trace, HelloLock)
    ensures r.err.None? <==> failing == {} && created.Produced?
    ensures r.value.Some? <==> r.err.None?
    ensures r.value.Some? ==> r.value.value == created.value
    ensures r.trace == Create(failing, created).trace
  {
    var reply := Create(failing, created);
    if reply.err.None? && created.Rejected? then reply.(err := Some(ProcessorFailed))
    else reply
  }

  /** As written, a successful bootstrap followed by a processor error
      returns neither an attachment nor an error. */
  lemma CreateLosesProcessorError()
    ensures Create({}, Rejected).value.None? && Create({}, Rejected).err.None?
  {
    NoFailure({});
  }

  // ---------------------------------------------------------------------------
  // Validation

  /** The instance limits `validateCreateMedia` reads from configuration. */
  datatype MediaConfig = MediaConfig(
    videoMaxSize: int,
    imageMaxSize: int,
    descriptionMinChars: int,
    descriptionMaxChars: int)

  datatype ValidationError =
    | NoAttachment
    | FileSizeLimitExceeded(limit: int, size: int)
    | DescriptionLength(min: int, max: int, length: int)

  /** The larger of the two size limits. */
  function SizeLimit(config: MediaConfig): (m: int)
    ensures m >= config.videoMaxSize && m >= config.imageMaxSize
    ensures m == config.videoMaxSize || m == config.imageMaxSize
  {
    var maxSize := config.videoMaxSize;
    if config.imageMaxSize > maxSize then config.imageMaxSize else maxSize
  }

  /** `validateCreateMedia`: a file must be attached, no larger than the
      larger size limit, with a description of at most the maximum number
      of runes. The minimum description length is only quoted in the
      message. */
  function ValidateCreateMedia(form: AttachmentRequest, config: MediaConfig): (r: Option<ValidationError>)
    ensures r.None? <==>
      && form.file.Some?
      && form.file.value.size <= SizeLimit(config)
      && RuneCount(form.description) <= config.descriptionMaxChars
    ensures form.file.None? ==> r == Some(NoAttachment)
    ensures form.file.Some? && form.file.value.size > SizeLimit(config) ==>
      r == Some(FileSizeLimitExceeded(SizeLimit(config), form.file.value.size))
    ensures (form.file.Some? && form.file.value.size <= SizeLimit(config)
             && RuneCount(form.description) > config.descriptionMaxChars) ==>
      r == Some(DescriptionLength(config.descriptionMinChars, config.descriptionMaxChars, RuneCount(form.description)))
  {
    if form.file.None? then Some(NoAttachment)
    else
      var maxSize := SizeLimit(config);
      if form.file.value.size > maxSize then Some(FileSizeLimitExceeded(maxSize, form.file.value.size))
      else
        var length := RuneCount(form.description);
        if length > config.descriptionMaxChars then
          Some(DescriptionLength(config.descriptionMinChars, config.descriptionMaxChars, length))
        else None
  }

  /** A description shorter than the configured minimum is accepted. */
  lemma MinimumNotEnforced(form: AttachmentRequest, config: MediaConfig)
    requires form.file.Some? && form.file.value.size <= SizeLimit(config)
    requires RuneCount(form.description) < config.descriptionMinChars <= config.descriptionMaxChars
    ensures ValidateCreateMedia(form, config) == None
  {
  }

  /** An ASCII description is measured in bytes, one rune each. */
  lemma AsciiDescription(form: AttachmentRequest, config: MediaConfig)
    requires form.file.Some? && form.file.value.size <= SizeLimit(config)
    requires forall i :: 0 <= i < |form.description| ==> form.description[i] < 0x80
    ensures ValidateCreateMedia(form, config).None? <==> |form.description| <= config.descriptionMaxChars
  {
    AsciiRuneCount(form.description);
  }

  /** The description limit is on runes, not bytes: a description made of
      encoded runes passes exactly when there are few enough of them, however
      many bytes each takes. */
  lemma DescriptionRuneLimit(form: AttachmentRequest, config: MediaConfig, runes: seq<seq<Byte>>)
    requires form.file.Some? && form.file.value.size <= SizeLimit(config)
    requires forall i :: 0 <= i < |runes| ==> Rune(runes[i])
    requires form.description == Concat(runes)
    ensures ValidateCreateMedia(form, config).None? <==> |runes| <= config.descriptionMaxChars
  {
    RuneCountConcat(runes);
  }

  // ---------------------------------------------------------------------------
  // The POST handler

  datatype ApiVersion = V1 | V2

  /** What the handler learns from the request before validating it: the
      API version (None when it is not v1 or v2), whether the caller is
      authorised and accepts JSON, and the bound form (None when binding
      fails). */
  datatype Request = Request(
    version: Option<ApiVersion>,
    authorized: bool,
    acceptable: bool,
    form: Option<AttachmentRequest>)

  datatype Rejection = BadVersion | Unauthorized | NotAcceptable | BadRequest

  /** A JSON answer (a nil attachment is written as `null`), an error
      answer, or the panic of dereferencing a nil attachment. */
  datatype Response = Json(status: int, body: Option<Attachment>) | ErrorReply(rejection: Rejection) | NilDereference

  const StatusOK: int := 200

  /** Every check before the call to `Create` passes. */
  predicate Admitted(req: Request, config: MediaConfig) {
    && req.version.Some? && req.authorized && req.acceptable && req.form.Some?
    && ValidateCreateMedia(req.form.value, config).None?
  }

  /** The answer to an admitted request, given what `Create` returned: an
      error is a bad request; otherwise the attachment is written, with its
      URL cleared under API v2, which needs a non-nil attachment. */
  function Respond(version: ApiVersion, reply: Reply<Attachment>): (r: Response)
    ensures r.NilDereference? <==> reply.err.None? && reply.value.None? && version == V2
    ensures reply.err.Some? ==> r == ErrorReply(BadRequest)
    ensures r.Json? ==> r.status == StatusOK && (r.body.Some? <==> reply.value.Some?)
    ensures r.Json? && r.body.Some? ==>
      && r.body.value.id == reply.value.value.id
      && r.body.value.url == (if version == V2 then None else reply.value.value.url)
    ensures reply.err.None? && reply.value.Some? ==>
      r == Json(StatusOK, Some(if version == V2 then reply.value.value.(url := None) else reply.value.value))
    ensures reply.err.None? && reply.value.None? && version == V1 ==> r == Json(StatusOK, None)
  {
    if reply.err.Some? then ErrorReply(BadRequest)
    else if version == V2 then
      match reply.value
      case None => NilDereference
      case Some(a) => Json(StatusOK, Some(a.(url := None)))
    else Json(StatusOK, reply.value)
  }

  /** `MediaCreatePOSTHandler` over either `Create`: version, authorisation,
      content negotiation, binding and validation, in that order, then the
      call and the answer. */
  function PostMediaWith(fixed: bool, req: Request, config: MediaConfig, failing: set<Stage>, created: Outcome<Attachment>)
    : (r: Response)
    ensures !Admitted(req, config) ==> r.ErrorReply?
    ensures req.version.None? ==> r == ErrorReply(BadVersion)
    ensures Admitted(req, config) && failing != {} ==> r == ErrorReply(BadRequest)
    ensures r.NilDereference? <==>
      !fixed && Admitted(req, config) && req.version == Some(V2) && failing == {} && created.Rejected?
    ensures r.Json? ==> r.status == StatusOK
    ensures Admitted(req, config) && failing == {} && created.Produced? ==>
      r == Json(StatusOK, Some(if req.version == Some(V2) then created.value.(url := None) else created.value))
  {
    NoFailure(failing);
    match req.version
    case None => ErrorReply(BadVersion)
    case Some(version) =>
      if !req.authorized then ErrorReply(Unauthorized)
      else if !req.acceptable then ErrorReply(NotAcceptable)
      else
        match req.form
        case None => ErrorReply(BadRequest)
        case Some(form) =>
          if ValidateCreateMedia(form, config).Some? then ErrorReply(BadRequest)
          else Respond(version, if fixed then CreateFixed(failing, created) else Create(failing, created))
  }

  /** `MediaCreatePOSTHandler` as written. */
  function PostMedia(req: Request, config: MediaConfig, failing: set<Stage>, created: Outcome<Attachment>): (r: Response)
    ensures r.NilDereference? <==>
      Admitted(req, config) && req.version == Some(V2) && failing == {} && created.Rejected?
    ensures Admitted(req, config) && failing == {} && created.Produced? ==>
      r == Json(StatusOK, Some(if req.version == Some(V2) then created.value.(url := None) else created.value))
    ensures Admitted(req, config) && req.version == Some(V1) && failing == {} && created.Rejected? ==>
      r == Json(StatusOK, None)
  {
    PostMediaWith(false, req, config, failing, created)
  }

  /** `MediaCreatePOSTHandler` calling `CreateFixed`. */
  function PostMediaFixed(req: Request, config: MediaConfig, failing: set<Stage>, created: Outcome<Attachment>): (r: Response)
    ensures !r.NilDereference?
  {
    PostMediaWith(true, req, config, failing, created)
  }

  /** As written, an admitted upload whose processing fails dereferences a
      nil attachment under API v2, and answers 200 with `null` under v1. */
  lemma PostMediaNilAttachment(req: Request, config: MediaConfig)
    requires Admitted(req, config)
    ensures req.version == Some(V2) ==> PostMedia(req, config, {}, Rejected) == NilDereference
    ensures req.version == Some(V1) ==> PostMedia(req, config, {}, Rejected) == Json(StatusOK, None)
  {
    NoFailure({});
  }

  /** With the processor's error passed back, the handler never
      dereferences nil: a failed upload is a bad request, a successful one
      is the attachment, its URL cleared under API v2. */
  lemma PostMediaFixedAnswers(req: Request, config: MediaConfig, failing: set<Stage>, created: Outcome<Attachment>)
    requires Admitted(req, config)
    ensures var r := PostMediaFixed(req, config, failing, created);
      && !r.NilDereference?
      && (failing == {} && created.Produced? <==> r.Json?)
      && (r.Json? ==> r == Json(StatusOK, Some(
            if req.version == Some(V2) then created.value.(url := None) else created.value)))
  {
    NoFailure(failing);
  }
}
