/**
 * The command-line client of the gene-guess checker: the phenotype
 * summary it builds from a packet, the slicing and filtering of the
 * model's reply into a list of guesses, and the clean-up of guesses given
 * on the command line.
 */
module GeneCheckerClient {
  import opened Wrappers
  import opened Text
  import opened Json
  import PyValues
  import GeneChecker

  type Raised = GeneChecker.Raised

  const NoFeatures: string := "No phenotypic features provided."

  /** What `for x in (v or [])` visits: a list's items, a dict's keys, a string's characters; a truthy number or boolean cannot be iterated. */
  function Iterate(v: Option<Json>): (r: Result<seq<Json>, Raised>)
    ensures !PyValues.Truthy(v) ==> r == Success([])
    ensures v.Some? && v.value.JArr? ==> r == Success(v.value.items)
  {
    if !PyValues.Truthy(v) then Success([])
    else
      match v.value
      case JArr(xs) => Success(xs)
      case JObj(ms) => Success(KeysOf(ms))
      case JStr(s) => Success(CharsOf(s))
      case _ => Failure(GeneChecker.Raised)
  }

  function KeysOf(ms: seq<(string, Json)>): (r: seq<Json>)
    ensures |r| == |ms| && forall i :: 0 <= i < |ms| ==> r[i] == JStr(ms[i].0)
  {
    seq(|ms|, i requires 0 <= i < |ms| => JStr(ms[i].0))
  }

  function CharsOf(s: string): (r: seq<Json>)
    ensures |r| == |s| && forall i :: 0 <= i < |s| ==> r[i] == JStr([s[i]])
  {
    seq(|s|, i requires 0 <= i < |s| => JStr([s[i]]))
  }

  /** The label one feature contributes: its type's label if truthy, else its type's id if truthy. */
  function FeatureLabel(feat: Json): Result<Option<string>, Raised> {
    var f := GeneChecker.DictOr(Some(feat));
    if f.Failure? then Failure(GeneChecker.Raised)
    else
      var t := GeneChecker.DictOr(Lookup(f.value, "type"));
      if t.Failure? then Failure(GeneChecker.Raised)
      else
        var lbl := Lookup(t.value, "label");
        var pick := if PyValues.Truthy(lbl) then lbl else Lookup(t.value, "id");
        if PyValues.Truthy(pick) then Success(Some(PyValues.Str(pick.value))) else Success(None)
  }

  /** The labels of the features, in order; the first feature that raises makes it raise. */
  function LabelsOf(feats: seq<Json>): Result<seq<string>, Raised> {
    if feats == [] then Success([])
    else
      var front := LabelsOf(feats[..|feats| - 1]);
      var last := FeatureLabel(feats[|feats| - 1]);
      if front.Failure? || last.Failure? then Failure(GeneChecker.Raised)
      else Success(front.value + (if last.value.Some? then [last.value.value] else []))
  }

  /** extract_phenotype_summary, as a value. */
  function PhenotypeSummary(packet: Json): Result<string, Raised> {
    if !packet.JObj? then Failure(GeneChecker.Raised)
    else
      var feats := Iterate(Lookup(packet.members, "phenotypicFeatures"));
      if feats.Failure? then Failure(GeneChecker.Raised)
      else
        var labels := LabelsOf(feats.value);
        if labels.Failure? then Failure(GeneChecker.Raised)
        else if labels.value == [] then Success(NoFeatures)
        else Success(Join(labels.value, ", "))
  }

  lemma {:induction false} LabelsFailurePersists(feats: seq<Json>, k: nat)
    requires k <= |feats| && LabelsOf(feats[..k]).Failure?
    ensures LabelsOf(feats).Failure?
    decreases |feats| - k
  {
    if k < |feats| {
      assert feats[..k + 1][..k] == feats[..k];
      LabelsFailurePersists(feats, k + 1);
    } else {
      assert feats[..k] == feats;
    }
  }

  lemma LabelsStep(feats: seq<Json>, i: nat)
    requires i < |feats|
    ensures var front := LabelsOf(feats[..i]);
      var last := FeatureLabel(feats[i]);
      LabelsOf(feats[..i + 1]) ==
        if front.Failure? || last.Failure? then Failure(GeneChecker.Raised)
        else Success(front.value + (if last.value.Some? then [last.value.value] else []))
  {
    assert feats[..i + 1][..i] == feats[..i];
  }

  /** The summary loop: collects the labels feature by feature and joins them with ", ". */
  method ExtractPhenotypeSummary(packet: Json) returns (r: Result<string, Raised>)
    ensures r == PhenotypeSummary(packet)
  {
    if !packet.JObj? {
      return Failure(GeneChecker.Raised);
    }
    var features := Iterate(Lookup(packet.members, "phenotypicFeatures"));
    if features.Failure? {
      return Failure(GeneChecker.Raised);
    }
    var feats := features.value;
    var labels: seq<string> := [];
    var i := 0;
    while i < |feats|
      invariant 0 <= i <= |feats|
      invariant LabelsOf(feats[..i]) == Success(labels)
    {
      var one := FeatureLabel(feats[i]);
      LabelsStep(feats, i);
      if one.Failure? {
        LabelsFailurePersists(feats, i + 1);
        return Failure(GeneChecker.Raised);
      }
      if one.value.Some? {
        labels := labels + [one.value.value];
      } else {
        assert labels + [] == labels;
      }
      i := i + 1;
    }
    assert feats[..i] == feats;
    if labels == [] {
      return Success(NoFeatures);
    }
    return Success(Join(labels, ", "));
  }

  // =====================================================================
  // What the summary holds

  /**
   * A feature contributes str() of its type's truthy label, else of its
   * truthy id, else nothing; a missing or falsy feature or type counts as
   * empty, and a truthy one that is not a dict raises.
   */
  lemma FeatureLabelSpec(feat: Json)
    ensures !PyValues.Truthy(Some(feat)) ==> FeatureLabel(feat) == Success(None)
    ensures PyValues.Truthy(Some(feat)) && !feat.JObj? ==> FeatureLabel(feat).Failure?
    ensures feat.JObj? ==>
      var t := Lookup(feat.members, "type");
      && (!PyValues.Truthy(t) ==> FeatureLabel(feat) == Success(None))
      && (PyValues.Truthy(t) && !t.value.JObj? ==> FeatureLabel(feat).Failure?)
      && (t.Some? && t.value.JObj? ==>
            var lbl := Lookup(t.value.members, "label");
            var id := Lookup(t.value.members, "id");
            && (PyValues.Truthy(lbl) ==> FeatureLabel(feat) == Success(Some(PyValues.Str(lbl.value))))
            && (!PyValues.Truthy(lbl) && PyValues.Truthy(id) ==> FeatureLabel(feat) == Success(Some(PyValues.Str(id.value))))
            && (!PyValues.Truthy(lbl) && !PyValues.Truthy(id) ==> FeatureLabel(feat) == Success(None)))
  {
  }

  /** A label, once collected, is never empty. */
  lemma FeatureLabelNonEmpty(feat: Json)
    ensures FeatureLabel(feat).Success? && FeatureLabel(feat).value.Some? ==> FeatureLabel(feat).value.value != ""
  {
    var f := GeneChecker.DictOr(Some(feat));
    if f.Success? {
      var t := GeneChecker.DictOr(Lookup(f.value, "type"));
      if t.Success? {
        var lbl := Lookup(t.value, "label");
        var pick := if PyValues.Truthy(lbl) then lbl else Lookup(t.value, "id");
        if PyValues.Truthy(pick) {
          PyValues.StrOfTruthyNonEmpty(pick.value);
        }
      }
    }
  }

  /**
   * The labels are collected exactly when no feature raises; each comes
   * from a feature and each feature with a label gives one, and none is
   * empty.
   */
  lemma {:induction false} LabelsOfSpec(feats: seq<Json>)
    ensures LabelsOf(feats).Success? <==> forall i :: 0 <= i < |feats| ==> FeatureLabel(feats[i]).Success?
    ensures LabelsOf(feats).Success? ==>
      && (forall l :: l in LabelsOf(feats).value <==> exists i :: 0 <= i < |feats| && FeatureLabel(feats[i]) == Success(Some(l)))
      && (forall l :: l in LabelsOf(feats).value ==> l != "")
      && |LabelsOf(feats).value| <= |feats|
  {
    if feats != [] {
      var front := feats[..|feats| - 1];
      LabelsOfSpec(front);
      assert forall i :: 0 <= i < |front| ==> front[i] == feats[i];
      FeatureLabelNonEmpty(feats[|feats| - 1]);
    }
  }

  /** Joining non-empty pieces with a separator gives a non-empty string. */
  lemma JoinNonEmpty(xs: seq<string>, sep: string)
    requires xs != [] && xs[0] != ""
    ensures Join(xs, sep) != ""
  {
  }

  /** The summary is never empty: it is the joined labels or the fixed sentence. */
  lemma SummaryNonEmpty(packet: Json)
    requires PhenotypeSummary(packet).Success?
    ensures PhenotypeSummary(packet).value != ""
    ensures LabelsOf(Iterate(Lookup(packet.members, "phenotypicFeatures")).value).value == [] ==>
      PhenotypeSummary(packet).value == NoFeatures
  {
    var labels := LabelsOf(Iterate(Lookup(packet.members, "phenotypicFeatures")).value).value;
    LabelsOfSpec(Iterate(Lookup(packet.members, "phenotypicFeatures")).value);
    if labels != [] {
      assert labels[0] in labels;
      JoinNonEmpty(labels, ", ");
    }
  }

  /** A packet without features, or with none that has a label or id, gets the fixed sentence. */
  lemma NoFeaturesSentence(members: seq<(string, Json)>)
    requires !PyValues.Truthy(Lookup(members, "phenotypicFeatures"))
    ensures PhenotypeSummary(JObj(members)) == Success(NoFeatures)
  {
  }

  // =====================================================================
  // The model's reply

  /** The reply needs slicing when, stripped, it is not empty and does not start with `[`. */
  predicate NeedsSlice(text: string) {
    PyStrip(text) != "" && PyStrip(text)[0] != '['
  }

  /** The text from the first `[` through the last `]`, if both exist in that order; otherwise the text itself. */
  function BracketSpan(text: string): string {
    var start := FindFirst(text, '[');
    var end := FindLast(text, ']');
    if start != -1 && end != -1 && end > start then text[start..end + 1] else text
  }

  /** The slicing of the reply before it is parsed. */
  function SliceJsonArray(text: string): string {
    if NeedsSlice(text) then BracketSpan(text) else text
  }

  /**
   * The span is the text itself or its part from the first `[` to the
   * last `]`: it starts with `[`, ends with `]`, and nothing of the text
   * before it is a `[` nor after it a `]`.
   */
  lemma BracketSpanSpec(text: string)
    ensures var r := BracketSpan(text);
      r == text || (
        && |r| >= 2 && r[0] == '[' && r[|r| - 1] == ']'
        && exists start :: 0 <= start && start + |r| <= |text| && r == text[start..start + |r|]
             && '[' !in text[..start] && ']' !in text[start + |r|..])
  {
    var start := FindFirst(text, '[');
    var end := FindLast(text, ']');
    if start != -1 && end != -1 && end > start {
      var r := text[start..end + 1];
      assert r[0] == text[start] && r[|r| - 1] == text[end];
      assert start + |r| == end + 1;
    }
  }

  /** A reply that, stripped, is empty or starts with `[` is left as it is. */
  lemma SliceKeepsArrays(text: string)
    ensures !NeedsSlice(text) ==> SliceJsonArray(text) == text
    ensures NeedsSlice(text) ==> SliceJsonArray(text) == BracketSpan(text)
  {
  }

  /** Slicing an already sliced reply changes nothing. */
  lemma SliceJsonArrayIdempotent(text: string)
    ensures SliceJsonArray(SliceJsonArray(text)) == SliceJsonArray(text)
  {
    if NeedsSlice(text) {
      var r := BracketSpan(text);
      if r != text {
        SpanEnds(text);
        SpanStripped(r);
      }
    }
  }

  /** A text that starts with `[` and ends with `]` needs no slicing. */
  lemma SpanStripped(r: string)
    requires |r| >= 2 && r[0] == '[' && r[|r| - 1] == ']'
    ensures !NeedsSlice(r)
  {
    assert !IsPyWhitespace('[') && !IsPyWhitespace(']');
    StripFixed(r, IsPyWhitespace);
  }

  /** A span other than the whole text starts with `[` and ends with `]`. */
  lemma SpanEnds(text: string)
    ensures var r := BracketSpan(text);
      r != text ==> |r| >= 2 && r[0] == '[' && r[|r| - 1] == ']'
  {
    var start := FindFirst(text, '[');
    var end := FindLast(text, ']');
    if start != -1 && end != -1 && end > start {
      var r := text[start..end + 1];
      assert r[0] == text[start] && r[|r| - 1] == text[end];
    }
  }

  /** The guesses a parsed reply yields: its non-blank strings, stripped; anything but a list yields none. */
  function ParsedGuesses(data: Option<Json>): (r: seq<string>)
    ensures !(data.Some? && data.value.JArr?) ==> r == []
  {
    if data.Some? && data.value.JArr? then KeepGuesses(data.value.items) else []
  }

  /** The guess one item gives: a string that is not blank, stripped. */
  function KeptGuess(x: Json): Option<string> {
    if x.JStr? && PyStrip(x.s) != "" then Some(PyStrip(x.s)) else None
  }

  /** `[str(g).strip() for g in guesses if isinstance(g, str) and g.strip()]`. */
  function KeepGuesses(xs: seq<Json>): (r: seq<string>)
    ensures |r| <= |xs|
  {
    if xs == [] then []
    else
      var g := KeptGuess(xs[0]);
      (if g.Some? then [g.value] else []) + KeepGuesses(xs[1..])
  }

  /** A kept guess is a stripped string that is not blank. */
  lemma KeptGuessStripped(x: Json)
    ensures KeptGuess(x).Some? ==> KeptGuess(x).value != "" && PyStrip(KeptGuess(x).value) == KeptGuess(x).value
  {
    if x.JStr? {
      StripIdempotent(x.s, IsPyWhitespace);
    }
  }

  /** The guesses kept are exactly the guesses the items give. */
  lemma {:induction false} KeepGuessesMembers(xs: seq<Json>)
    ensures forall g :: g in KeepGuesses(xs) <==> exists i :: 0 <= i < |xs| && KeptGuess(xs[i]) == Some(g)
  {
    if xs != [] {
      var head := if KeptGuess(xs[0]).Some? then [KeptGuess(xs[0]).value] else [];
      var rest := KeepGuesses(xs[1..]);
      assert KeepGuesses(xs) == head + rest;
      KeepGuessesMembers(xs[1..]);
      forall g ensures g in KeepGuesses(xs) <==> exists i :: 0 <= i < |xs| && KeptGuess(xs[i]) == Some(g) {
        if g in rest {
          var i :| 0 <= i < |xs[1..]| && KeptGuess(xs[1..][i]) == Some(g);
          assert xs[i + 1] == xs[1..][i];
        }
        if exists i :: 0 <= i < |xs| && KeptGuess(xs[i]) == Some(g) {
          var i :| 0 <= i < |xs| && KeptGuess(xs[i]) == Some(g);
          if i > 0 {
            assert xs[1..][i - 1] == xs[i];
          }
        }
      }
    }
  }

  /** The guesses kept are exactly the guesses the items give, and each is stripped and not blank. */
  lemma KeepGuessesSpec(xs: seq<Json>)
    ensures forall g :: g in KeepGuesses(xs) <==> exists i :: 0 <= i < |xs| && KeptGuess(xs[i]) == Some(g)
    ensures forall g :: g in KeepGuesses(xs) ==> g != "" && PyStrip(g) == g
  {
    KeepGuessesMembers(xs);
    forall g | g in KeepGuesses(xs) ensures g != "" && PyStrip(g) == g {
      var i :| 0 <= i < |xs| && KeptGuess(xs[i]) == Some(g);
      KeptGuessStripped(xs[i]);
    }
  }

  /** The guesses given on the command line: stripped, with blank ones dropped. */
  function CleanManualGuesses(args: seq<string>): (r: seq<string>)
    ensures |r| <= |args|
  {
    if args == [] then []
    else (if PyStrip(args[0]) != "" then [PyStrip(args[0])] else []) + CleanManualGuesses(args[1..])
  }

  function AsJson(args: seq<string>): (r: seq<Json>)
    ensures |r| == |args| && forall i :: 0 <= i < |args| ==> r[i] == JStr(args[i])
  {
    seq(|args|, i requires 0 <= i < |args| => JStr(args[i]))
  }

  /** Command-line guesses are cleaned exactly as the strings of a parsed reply are. */
  lemma {:induction false} ManualLikeParsed(args: seq<string>)
    ensures CleanManualGuesses(args) == KeepGuesses(AsJson(args))
  {
    if args != [] {
      ManualLikeParsed(args[1..]);
      assert AsJson(args)[1..] == AsJson(args[1..]);
    }
  }

  /** Guesses that are already stripped and not blank are kept as they are. */
  lemma {:induction false} CleanFixesStripped(args: seq<string>)
    requires forall i :: 0 <= i < |args| ==> args[i] != "" && PyStrip(args[i]) == args[i]
    ensures CleanManualGuesses(args) == args
  {
    if args != [] {
      CleanFixesStripped(args[1..]);
      assert args == [args[0]] + args[1..];
    }
  }

  /** Cleaning twice is cleaning once. */
  lemma CleanManualIdempotent(args: seq<string>)
    ensures CleanManualGuesses(CleanManualGuesses(args)) == CleanManualGuesses(args)
  {
    var clean := CleanManualGuesses(args);
    ManualLikeParsed(args);
    KeepGuessesSpec(AsJson(args));
    forall i | 0 <= i < |clean| ensures clean[i] != "" && PyStrip(clean[i]) == clean[i] {
      assert clean[i] in KeepGuesses(AsJson(args));
    }
    CleanFixesStripped(clean);
  }

  /** Normalising a kept guess is normalising the item it came from. */
  lemma NormalizeKept(s: string)
    ensures GeneChecker.Normalize(PyStrip(s)) == GeneChecker.Normalize(s)
  {
    StripIdempotent(s, IsPyWhitespace);
  }

  lemma GuessedFromClean(args: seq<string>, x: string)
    requires x in GeneChecker.GuessedSet(AsJson(CleanManualGuesses(args)))
    ensures x in GeneChecker.GuessedSet(AsJson(args))
  {
    var raw := AsJson(args);
    var clean := AsJson(CleanManualGuesses(args));
    var kept := CleanManualGuesses(args);
    ManualLikeParsed(args);
    KeepGuessesSpec(raw);
    GeneChecker.GuessedSetMembership(clean, x);
    var i :| 0 <= i < |clean| && clean[i].JStr? && PyStrip(clean[i].s) != "" && GeneChecker.Normalize(clean[i].s) == x;
    assert kept[i] in KeepGuesses(raw);
    var j :| 0 <= j < |raw| && KeptGuess(raw[j]) == Some(kept[i]);
    assert raw[j] == JStr(args[j]);
    assert kept[i] == PyStrip(args[j]) && PyStrip(args[j]) != "";
    assert clean[i].s == kept[i];
    NormalizeKept(args[j]);
    assert GeneChecker.Normalize(args[j]) == x;
    GeneChecker.GuessedSetMembership(raw, x);
  }

  lemma GuessedFromRaw(args: seq<string>, x: string)
    requires x in GeneChecker.GuessedSet(AsJson(args))
    ensures x in GeneChecker.GuessedSet(AsJson(CleanManualGuesses(args)))
  {
    var raw := AsJson(args);
    var clean := AsJson(CleanManualGuesses(args));
    var kept := CleanManualGuesses(args);
    ManualLikeParsed(args);
    KeepGuessesSpec(raw);
    GeneChecker.GuessedSetMembership(raw, x);
    var j :| 0 <= j < |raw| && raw[j].JStr? && PyStrip(raw[j].s) != "" && GeneChecker.Normalize(raw[j].s) == x;
    assert KeptGuess(raw[j]) == Some(PyStrip(args[j]));
    assert PyStrip(args[j]) in kept;
    var i :| 0 <= i < |kept| && kept[i] == PyStrip(args[j]);
    NormalizeKept(args[j]);
    assert clean[i] == JStr(kept[i]) && PyStrip(kept[i]) != "";
    GeneChecker.GuessedSetMembership(clean, x);
  }

  /** Cleaning the guesses first does not change the set the checker compares with the truth. */
  lemma CleaningKeepsGuessedSet(args: seq<string>)
    ensures GeneChecker.GuessedSet(AsJson(CleanManualGuesses(args))) == GeneChecker.GuessedSet(AsJson(args))
  {
    forall x | x in GeneChecker.GuessedSet(AsJson(CleanManualGuesses(args))) ensures x in GeneChecker.GuessedSet(AsJson(args)) {
      GuessedFromClean(args, x);
    }
    forall x | x in GeneChecker.GuessedSet(AsJson(args)) ensures x in GeneChecker.GuessedSet(AsJson(CleanManualGuesses(args))) {
      GuessedFromRaw(args, x);
    }
  }
}
