/**
 * Speech recognition glue: the file extension chosen from an upload's
 * MIME type, and the result built from the recogniser's reply. The
 * recogniser itself (a remote service) is not modelled: its reply is a
 * parameter.
 */
module Asr {
  import opened Wrappers
  import opened Text
  import opened Json

  /**
   * A case-insensitive regular-expression test for a fixed lower-case
   * ASCII pattern (`/p/i.test(s)`): p occurs in s once ASCII letters are
   * lower-cased.
   */
  predicate MatchesIgnoringCase(s: string, p: string) {
    Contains(AsciiLower(s), p)
  }

  /** The extension an upload is named with: the first rule that matches wins. */
  function ExtFromMime(mime: string): (r: string)
    ensures r in {"webm", "mp3", "wav", "bin"}
  {
    if MatchesIgnoringCase(mime, "webm") then "webm"
    else if MatchesIgnoringCase(mime, "mp3") || MatchesIgnoringCase(mime, "mpeg") then "mp3"
    else if MatchesIgnoringCase(mime, "wav") || MatchesIgnoringCase(mime, "x-wav") then "wav"
    else "bin"
  }

  /** The name the audio is uploaded under. */
  function UploadName(mime: string): string {
    "audio." + ExtFromMime(mime)
  }

  /** The extension does not depend on the case of the MIME type. */
  lemma ExtIgnoresCase(mime: string)
    ensures ExtFromMime(AsciiUpper(mime)) == ExtFromMime(mime)
    ensures ExtFromMime(AsciiLower(mime)) == ExtFromMime(mime)
  {
    LowerOfUpper(mime);
    LowerIdempotent(mime);
  }

  /** The `x-wav` alternative adds nothing: every text containing it contains `wav`. */
  lemma XWavContainsWav(s: string)
    ensures MatchesIgnoringCase(s, "x-wav") ==> MatchesIgnoringCase(s, "wav")
  {
    var t := AsciiLower(s);
    if Contains(t, "x-wav") {
      var i := ContainsIndex(t, "x-wav");
      assert t[i + 2..i + 5] == t[i..i + 5][2..] == "wav";
      ContainsAt(t, "wav", i + 2);
    }
  }

  /**
   * The rules are tried in order, each applying exactly when the earlier
   * ones do not: a MIME type naming both webm and mpeg is named webm, and
   * one naming mp3 and wav is named mp3.
   */
  lemma RuleOrder(mime: string)
    ensures ExtFromMime(mime) == "webm" <==> MatchesIgnoringCase(mime, "webm")
    ensures ExtFromMime(mime) == "mp3" <==>
      !MatchesIgnoringCase(mime, "webm") && (MatchesIgnoringCase(mime, "mp3") || MatchesIgnoringCase(mime, "mpeg"))
    ensures ExtFromMime(mime) == "wav" <==>
      !MatchesIgnoringCase(mime, "webm") && !MatchesIgnoringCase(mime, "mp3") && !MatchesIgnoringCase(mime, "mpeg")
      && MatchesIgnoringCase(mime, "wav")
    ensures ExtFromMime(mime) == "bin" <==>
      !MatchesIgnoringCase(mime, "webm") && !MatchesIgnoringCase(mime, "mp3") && !MatchesIgnoringCase(mime, "mpeg")
      && !MatchesIgnoringCase(mime, "wav")
  {
    XWavContainsWav(mime);
  }

  /** WebM audio is sent as `.webm`. */
  lemma WebmName()
    ensures ExtFromMime("audio/webm") == "webm"
  {
    assert AsciiLower("audio/webm") == "audio/webm";
    assert "audio/webm"[6..10] == "webm";
    ContainsAt("audio/webm", "webm", 6);
  }

  /** Ogg audio, although admitted by the upload filter, is sent as `.bin`. */
  lemma OggName()
    ensures ExtFromMime("audio/ogg") == "bin"
  {
    var ogg := "audio/ogg";
    assert AsciiLower(ogg) == ogg;
    assert 'w' !in ogg && 'm' !in ogg;
    FirstCharAbsent(ogg, "webm");
    FirstCharAbsent(ogg, "mp3");
    FirstCharAbsent(ogg, "mpeg");
    FirstCharAbsent(ogg, "wav");
    assert !MatchesIgnoringCase(ogg, "webm") && !MatchesIgnoringCase(ogg, "mp3");
    assert !MatchesIgnoringCase(ogg, "mpeg") && !MatchesIgnoringCase(ogg, "wav");
    RuleOrder(ogg);
  }

  // =====================================================================
  // The result

  datatype Segment = Segment(start: int, end: int, text: string)

  datatype AsrResult = AsrResult(transcript: string, lang: string, segments: seq<Segment>)

  /**
   * The result for a recogniser reply whose text and language may be
   * missing (`??` replaces only null and undefined, so an empty string
   * is kept).
   */
  function ResultOf(text: Option<string>, language: Option<string>): (r: AsrResult)
    ensures |r.segments| == 1
    ensures r.segments[0].start == 0 && r.segments[0].end == 0
    ensures r.transcript == r.segments[0].text
    ensures text.Some? ==> r.transcript == text.value
    ensures text.None? ==> r.transcript == ""
    ensures language.None? ==> r.lang == "en"
    ensures language.Some? ==> r.lang == language.value
  {
    var t := text.GetOr("");
    AsrResult(t, language.GetOr("en"), [Segment(0, 0, t)])
  }

  /** The JSON body the result is sent as. */
  function ResultJson(r: AsrResult): Json {
    JObj([("transcript", JStr(r.transcript)), ("lang", JStr(r.lang)),
          ("segments", JArr(seq(|r.segments|, i requires 0 <= i < |r.segments| => SegmentJson(r.segments[i]))))])
  }

  function SegmentJson(s: Segment): Json {
    JObj([("start", JInt(s.start)), ("end", JInt(s.end)), ("text", JStr(s.text))])
  }
}
