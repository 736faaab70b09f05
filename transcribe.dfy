/**
 * The transcription endpoint: the upload filter that admits audio by
 * MIME type or by file-name extension, the 20 MiB size limit, and the
 * mapping from what went wrong to an HTTP status.
 *
 * `Serve` is the endpoint as the middleware chain runs it: an upload
 * error is handed to the framework's default error handler and never
 * reaches the route's own catch block. `ServeIntended` is the endpoint
 * with upload errors mapped by that catch block, as its branches for
 * `unsupported_media_type` and `LIMIT_FILE_SIZE` show was meant.
 */
module Transcribe {
  import opened Wrappers
  import opened Text
  import opened Json
  import Asr

  const MaxFileSize: nat := 20 * 1024 * 1024

  /** The MIME types admitted as they are (compared exactly, case included). */
  const OkTypes: set<string> := {
    "audio/wav", "audio/x-wav", "audio/mpeg", "audio/mp3", "audio/webm",
    "audio/ogg", "audio/mp4", "video/mp4", "application/octet-stream"
  }

  /** The file-name extensions admitted whatever the MIME type. */
  const OkExtensions: seq<string> := ["mp3", "wav", "m4a", "aac", "ogg", "webm", "mp4"]

  datatype UploadedFile = UploadedFile(originalName: string, mimetype: string, size: nat)

  /** `/\.(mp3|wav|m4a|aac|ogg|webm|mp4)$/i`: the name ends, in any case, with a dot and one of the extensions. */
  predicate HasAudioExtension(name: string) {
    exists e :: e in OkExtensions && EndsWith(AsciiLower(name), "." + e)
  }

  datatype FilterDecision = Accept | Reject(message: string)

  /** The upload filter. */
  function FileFilter(f: UploadedFile): (r: FilterDecision)
    ensures r.Reject? ==> r.message == "unsupported_media_type"
  {
    if f.mimetype in OkTypes || HasAudioExtension(f.originalName) then Accept
    else Reject("unsupported_media_type")
  }

  /** Every listed MIME type is admitted, whatever the file is called. */
  lemma OkTypesAccepted(name: string, size: nat)
    ensures forall t :: t in OkTypes ==> FileFilter(UploadedFile(name, t, size)) == Accept
  {
  }

  /** Any file named with a listed extension is admitted, whatever its MIME type. */
  lemma ExtensionAccepted(stem: string, e: string, mime: string, size: nat)
    requires e in OkExtensions
    ensures FileFilter(UploadedFile(stem + "." + e, mime, size)) == Accept
  {
    var name := stem + "." + e;
    assert AsciiLower(name)[|name| - |"." + e|..] == "." + e by {
      assert name[|stem|..] == "." + e;
      forall i | 0 <= i < |e| ensures LowerChar(e[i]) == e[i] {
        assert !IsAsciiUpper(e[i]);
      }
    }
  }

  /** The extension test ignores case; the MIME-type test does not. */
  lemma NameCaseIgnoredTypeCaseNot(name: string, size: nat)
    ensures FileFilter(UploadedFile(AsciiUpper(name), "application/octet-stream", size))
         == FileFilter(UploadedFile(name, "application/octet-stream", size))
    ensures HasAudioExtension(AsciiUpper(name)) == HasAudioExtension(name)
    ensures FileFilter(UploadedFile("clip", "Audio/WAV", size)) == Reject("unsupported_media_type")
  {
    LowerOfUpper(name);
    var clip := "clip";
    assert AsciiLower(clip) == clip;
    forall e | e in OkExtensions ensures !EndsWith(clip, "." + e) {
      if |"." + e| <= |clip| {
        assert ("." + e)[0] == '.';
        assert clip[|clip| - |"." + e|..][0] != '.';
      }
    }
  }

  // =====================================================================
  // Receiving the upload

  /** What a thrown value or an error passed along carries: `err?.message` and `err?.code`. */
  datatype Thrown = Thrown(message: Option<string>, code: Option<string>)

  /** The error the filter rejects a file with. */
  const Unsupported := Thrown(Some("unsupported_media_type"), None)

  /** The error the upload middleware raises for a file over the size limit. */
  const TooLarge := Thrown(Some("File too large"), Some("LIMIT_FILE_SIZE"))

  datatype Received = NoFile | Stored(file: UploadedFile) | UploadError(err: Thrown)

  /**
   * The upload middleware for the single field `file`: the filter is
   * consulted first, then the size limit applies to the admitted file.
   */
  function Receive(file: Option<UploadedFile>): (r: Received)
    ensures r.UploadError? <==> file.Some? && (FileFilter(file.value).Reject? || file.value.size > MaxFileSize)
    ensures r.Stored? ==> file == Some(r.file)
    ensures file.None? ==> r == NoFile
    ensures file.Some? && FileFilter(file.value) == Accept && file.value.size <= MaxFileSize ==> r == Stored(file.value)
    ensures r.UploadError? && FileFilter(file.value).Reject? ==> r.err == Unsupported
    ensures r.UploadError? && FileFilter(file.value) == Accept ==> r.err == TooLarge
  {
    match file
    case None => NoFile
    case Some(f) =>
      if FileFilter(f).Reject? then UploadError(Unsupported)
      else if f.size > MaxFileSize then UploadError(TooLarge)
      else Stored(f)
  }

  // =====================================================================
  // Responses

  datatype Body = JsonBody(json: Json) | DefaultErrorPage

  datatype Response = Response(status: int, body: Body)

  function ErrorBody(error: string): Body {
    JsonBody(JObj([("error", JStr(error))]))
  }

  /** The catch block: the message is looked at first, then the code. */
  function CatchResponse(err: Thrown): (r: Response)
    ensures r.status in {413, 415, 500}
    ensures r.status == 415 <==> err.message == Some("unsupported_media_type")
    ensures r.status == 413 <==> err.message != Some("unsupported_media_type") && err.code == Some("LIMIT_FILE_SIZE")
    ensures r.status == 500 <==> err.message != Some("unsupported_media_type") && err.code != Some("LIMIT_FILE_SIZE")
    ensures r.status == 415 ==> r.body == ErrorBody("unsupported_media_type")
    ensures r.status == 413 ==> r.body == ErrorBody("file_too_large")
    ensures r.status == 500 ==> r.body == ErrorBody("transcription_failed")
  {
    if err.message == Some("unsupported_media_type") then Response(415, ErrorBody("unsupported_media_type"))
    else if err.code == Some("LIMIT_FILE_SIZE") then Response(413, ErrorBody("file_too_large"))
    else Response(500, ErrorBody("transcription_failed"))
  }

  /**
   * The route handler, given what the middleware stored and the
   * recogniser's reply for it (its text and language, or what it threw).
   */
  function Handle(file: Option<UploadedFile>, reply: Result<(Option<string>, Option<string>), Thrown>): (r: Response)
    ensures file.None? ==> r == Response(400, ErrorBody("missing_file"))
    ensures file.Some? && reply.Success? ==>
      r == Response(200, JsonBody(Asr.ResultJson(Asr.ResultOf(reply.value.0, reply.value.1))))
    ensures file.Some? && reply.Failure? ==> r == CatchResponse(reply.error)
  {
    if file.None? then Response(400, ErrorBody("missing_file"))
    else
      match reply
      case Success((text, language)) => Response(200, JsonBody(Asr.ResultJson(Asr.ResultOf(text, language))))
      case Failure(err) => CatchResponse(err)
  }

  /** The endpoint as wired: an upload error goes past the handler to the default error handler. */
  function Serve(file: Option<UploadedFile>, reply: Result<(Option<string>, Option<string>), Thrown>): Response {
    match Receive(file)
    case UploadError(_) => Response(500, DefaultErrorPage)
    case NoFile => Handle(None, reply)
    case Stored(f) => Handle(Some(f), reply)
  }

  /** The endpoint with upload errors mapped by the handler's catch block. */
  function ServeIntended(file: Option<UploadedFile>, reply: Result<(Option<string>, Option<string>), Thrown>): Response {
    match Receive(file)
    case UploadError(err) => CatchResponse(err)
    case NoFile => Handle(None, reply)
    case Stored(f) => Handle(Some(f), reply)
  }

  /**
   * As wired, a rejected or oversized upload gets the default 500 page,
   * so the 415 and 413 responses can only come from the recogniser.
   */
  lemma UploadErrorsMissCatch(file: Option<UploadedFile>, reply: Result<(Option<string>, Option<string>), Thrown>)
    ensures file.Some? && FileFilter(file.value).Reject? ==> Serve(file, reply) == Response(500, DefaultErrorPage)
    ensures file.Some? && file.value.size > MaxFileSize ==> Serve(file, reply) == Response(500, DefaultErrorPage)
    ensures Serve(file, reply).status in {413, 415} ==> file.Some? && reply.Failure? && Receive(file).Stored?
  {
  }

  /** A plain-text upload: as wired it gets the default 500 page, where 415 was meant. */
  lemma UploadErrorWitness()
    ensures Serve(Some(UploadedFile("notes.txt", "text/plain", 10)), Failure(Thrown(None, None))).status == 500
    ensures ServeIntended(Some(UploadedFile("notes.txt", "text/plain", 10)), Failure(Thrown(None, None))).status == 415
  {
    var f := UploadedFile("notes.txt", "text/plain", 10);
    assert AsciiLower("notes.txt") == "notes.txt";
    assert "notes.txt"[5..] == ".txt" && "notes.txt"[4..] == "s.txt";
    forall e | e in OkExtensions ensures !EndsWith("notes.txt", "." + e) {
      assert |e| == 3 || |e| == 4;
      assert ("." + e)[1..] == e;
    }
  }

  /** The intended endpoint: every outcome and its status. */
  lemma ServeIntendedStatuses(file: Option<UploadedFile>, reply: Result<(Option<string>, Option<string>), Thrown>)
    ensures file.None? ==> ServeIntended(file, reply) == Response(400, ErrorBody("missing_file"))
    ensures file.Some? && FileFilter(file.value).Reject? ==>
      ServeIntended(file, reply) == Response(415, ErrorBody("unsupported_media_type"))
    ensures file.Some? && FileFilter(file.value) == Accept && file.value.size > MaxFileSize ==>
      ServeIntended(file, reply) == Response(413, ErrorBody("file_too_large"))
    ensures file.Some? && FileFilter(file.value) == Accept && file.value.size <= MaxFileSize ==>
      ServeIntended(file, reply) == Handle(file, reply)
    ensures ServeIntended(file, reply).status == 200 <==> file.Some? && Receive(file).Stored? && reply.Success?
  {
  }
}
