/**
 * The rank_genes tool: validates its arguments against the parameter
 * schema (hpo_ids: a non-empty array of strings; top_k: an optional
 * integer between 1 and 100), ranks genes with the index, and renders the
 * candidates with scores rounded to six decimal places.
 */
module RankGenesTool {
  import opened Wrappers
  import opened Json
  import opened HpoGeneIndex

  // =====================================================================
  // The parameter schema

  datatype PathSegment = Key(name: string) | Position(index: nat)

  datatype IssueCode = InvalidType | TooSmall | TooBig | NotInteger

  /** One validation issue, at a path into the arguments. */
  datatype Issue = Issue(path: seq<PathSegment>, code: IssueCode)

  datatype Params = Params(hpoIds: seq<string>, topK: Option<int>)

  const DefaultTopK := 25
  const MinTopK := 1
  const MaxTopK := 100

  /** One issue per element of xs (from position `from` on) that is not a string. */
  function ItemIssues(xs: seq<Json>, from: nat): (r: seq<Issue>)
    ensures r == [] <==> forall i :: 0 <= i < |xs| ==> xs[i].JStr?
    ensures forall k :: 0 <= k < |r| ==> r[k].code == InvalidType
    decreases |xs|
  {
    if xs == [] then []
    else
      var rest := ItemIssues(xs[1..], from + 1);
      assert forall i :: 1 <= i < |xs| ==> xs[i] == xs[1..][i - 1];
      (if xs[0].JStr? then [] else [Issue([Key("hpo_ids"), Position(from)], InvalidType)]) + rest
  }

  function Strings(xs: seq<Json>): (r: seq<string>)
    requires forall i :: 0 <= i < |xs| ==> xs[i].JStr?
    ensures |r| == |xs| && forall i :: 0 <= i < |xs| ==> r[i] == xs[i].s
  {
    seq(|xs|, i requires 0 <= i < |xs| => xs[i].s)
  }

  /** `z.array(z.string()).min(1)` on a required member: the length check comes before the items. */
  function ParseHpoIds(v: Option<Json>): Result<seq<string>, seq<Issue>> {
    match v
    case None => Failure([Issue([Key("hpo_ids")], InvalidType)])
    case Some(JArr(xs)) =>
      var issues := (if |xs| < 1 then [Issue([Key("hpo_ids")], TooSmall)] else []) + ItemIssues(xs, 0);
      if issues == [] then Success(Strings(xs)) else Failure(issues)
    case Some(_) => Failure([Issue([Key("hpo_ids")], InvalidType)])
  }

  predicate IsIntegral(r: real) {
    r == r.Floor as real
  }

  /** The checks of `z.number().int().min(1).max(100)`, each reported, in that order. */
  function NumberIssues(r: real): seq<Issue> {
    (if IsIntegral(r) then [] else [Issue([Key("top_k")], NotInteger)])
    + (if r < MinTopK as real then [Issue([Key("top_k")], TooSmall)] else [])
    + (if r > MaxTopK as real then [Issue([Key("top_k")], TooBig)] else [])
  }

  /** `.optional()`: an absent member is accepted; anything but a number is not (null included). */
  function ParseTopK(v: Option<Json>): Result<Option<int>, seq<Issue>> {
    match v
    case None => Success(None)
    case Some(JInt(i)) =>
      var issues := NumberIssues(i as real);
      if issues == [] then Success(Some(i)) else Failure(issues)
    case Some(JFloat(r)) =>
      var issues := NumberIssues(r);
      if issues == [] then Success(Some(r.Floor)) else Failure(issues)
    case Some(_) => Failure([Issue([Key("top_k")], InvalidType)])
  }

  function IssuesOf<T>(r: Result<T, seq<Issue>>): seq<Issue> {
    if r.Failure? then r.error else []
  }

  /** `RankGenesParams.parse(args)`: the parameters, or every issue found (the ZodError). */
  function ParseParams(args: Json): Result<Params, seq<Issue>> {
    if !args.JObj? then Failure([Issue([], InvalidType)])
    else
      var ids := ParseHpoIds(Lookup(args.members, "hpo_ids"));
      var topK := ParseTopK(Lookup(args.members, "top_k"));
      if ids.Success? && topK.Success? then Success(Params(ids.value, topK.value))
      else Failure(IssuesOf(ids) + IssuesOf(topK))
  }

  /** A number that top_k accepts: an integer from 1 to 100, written with or without a fraction. */
  predicate AcceptedTopK(v: Json) {
    (v.JInt? && MinTopK <= v.i <= MaxTopK) || (v.JFloat? && IsIntegral(v.r) && MinTopK as real <= v.r <= MaxTopK as real)
  }

  /** The schema, stated declaratively. */
  predicate ValidArgs(args: Json) {
    && args.JObj?
    && Lookup(args.members, "hpo_ids").Some?
    && var ids := Lookup(args.members, "hpo_ids").value;
    && ids.JArr? && |ids.items| >= 1
    && (forall i :: 0 <= i < |ids.items| ==> ids.items[i].JStr?)
    && (Lookup(args.members, "top_k").None? || AcceptedTopK(Lookup(args.members, "top_k").value))
  }

  lemma NumberIssuesEmpty(r: real)
    ensures NumberIssues(r) == [] <==> IsIntegral(r) && MinTopK as real <= r <= MaxTopK as real
  {
  }

  /**
   * The parser accepts exactly the arguments the schema describes, and
   * then yields the strings of hpo_ids and the value of top_k; a rejection
   * always carries at least one issue.
   */
  lemma ParseParamsSpec(args: Json)
    ensures ParseParams(args).Success? <==> ValidArgs(args)
    ensures ParseParams(args).Failure? ==> ParseParams(args).error != []
    ensures ParseParams(args).Success? ==>
      var p := ParseParams(args).value;
      var ids := Lookup(args.members, "hpo_ids").value.items;
      && |p.hpoIds| == |ids| && (forall i :: 0 <= i < |ids| ==> p.hpoIds[i] == ids[i].s)
      && (Lookup(args.members, "top_k").None? ==> p.topK.None?)
      && (Lookup(args.members, "top_k").Some? ==> p.topK.Some? && p.topK.value as real == NumberValue(Lookup(args.members, "top_k").value))
  {
    if args.JObj? {
      ParseHpoIdsSpec(Lookup(args.members, "hpo_ids"));
      ParseTopKSpec(Lookup(args.members, "top_k"));
    }
  }

  /** hpo_ids is accepted exactly when it is a non-empty array of strings, and then yields those strings. */
  lemma ParseHpoIdsSpec(v: Option<Json>)
    ensures ParseHpoIds(v).Success? <==>
      v.Some? && v.value.JArr? && |v.value.items| >= 1 && forall i :: 0 <= i < |v.value.items| ==> v.value.items[i].JStr?
    ensures ParseHpoIds(v).Failure? ==> ParseHpoIds(v).error != []
    ensures ParseHpoIds(v).Success? ==>
      |ParseHpoIds(v).value| == |v.value.items| &&
      forall i :: 0 <= i < |v.value.items| ==> ParseHpoIds(v).value[i] == v.value.items[i].s
  {
  }

  /** top_k is accepted exactly when absent or an accepted number, and then yields that number. */
  lemma ParseTopKSpec(v: Option<Json>)
    ensures ParseTopK(v).Success? <==> v.None? || AcceptedTopK(v.value)
    ensures ParseTopK(v).Failure? ==> ParseTopK(v).error != []
    ensures ParseTopK(v).Success? ==>
      (v.None? ==> ParseTopK(v).value.None?) &&
      (v.Some? ==> ParseTopK(v).value.Some? && ParseTopK(v).value.value as real == NumberValue(v.value))
  {
    if v.Some? && v.value.JInt? {
      NumberIssuesEmpty(v.value.i as real);
    } else if v.Some? && v.value.JFloat? {
      NumberIssuesEmpty(v.value.r);
    }
  }

  function NumberValue(v: Json): real {
    match v
    case JInt(i) => i as real
    case JFloat(r) => r
    case _ => 0.0
  }

  /** The number of genes asked for: top_k, or 25 when it is absent. */
  function TopK(p: Params): int {
    p.topK.GetOr(DefaultTopK)
  }

  /** An empty hpo_ids array is rejected with a too-small issue on hpo_ids. */
  lemma EmptyIdsRejected(rest: seq<(string, Json)>)
    ensures ParseParams(JObj([("hpo_ids", JArr([]))] + rest)).Failure?
    ensures Issue([Key("hpo_ids")], TooSmall) in ParseParams(JObj([("hpo_ids", JArr([]))] + rest)).error
  {
    var ms := [("hpo_ids", JArr([]))] + rest;
    assert Lookup(ms, "hpo_ids") == Some(JArr([]));
  }

  /** With string ids, an integer top_k is accepted exactly from 1 to 100, and absent it defaults to 25. */
  lemma TopKRange(ids: seq<string>, k: int)
    requires |ids| >= 1
    ensures var args := JObj([("hpo_ids", JArr(seq(|ids|, i requires 0 <= i < |ids| => JStr(ids[i])))), ("top_k", JInt(k))]);
      ParseParams(args).Success? <==> 1 <= k <= 100
    ensures var args := JObj([("hpo_ids", JArr(seq(|ids|, i requires 0 <= i < |ids| => JStr(ids[i]))))]);
      ParseParams(args).Success? && TopK(ParseParams(args).value) == 25
  {
    var items := seq(|ids|, i requires 0 <= i < |ids| => JStr(ids[i]));
    var ms := [("hpo_ids", JArr(items)), ("top_k", JInt(k))];
    assert Lookup(ms, "hpo_ids") == Some(JArr(items));
    assert Lookup(ms, "top_k") == Some(JInt(k));
    NumberIssuesEmpty(k as real);
    var ms1 := [("hpo_ids", JArr(items))];
    assert Lookup(ms1, "hpo_ids") == Some(JArr(items));
    assert Lookup(ms1, "top_k") == None;
  }

  // =====================================================================
  // Rendering

  /**
   * `Number(x.toFixed(6))`: the nearest multiple of 10^-6, halves rounded
   * away from zero; magnitudes of 10^21 and more are left as they are.
   */
  function Round6(x: real): (r: real)
    ensures -1000000000000000000000.0 < x < 1000000000000000000000.0 ==>
      (x - r <= 0.0000005 && r - x <= 0.0000005 && IsIntegral(r * 1000000.0))
  {
    if x <= -1000000000000000000000.0 || x >= 1000000000000000000000.0 then x
    else if x < 0.0 then
      var up := RoundUp6(-x);
      NegatedIntegral(up * 1000000.0);
      assert (-up) * 1000000.0 == -(up * 1000000.0);
      -up
    else RoundUp6(x)
  }

  function RoundUp6(x: real): (r: real)
    requires x >= 0.0
    ensures x - r < 0.0000005 && r - x <= 0.0000005 && IsIntegral(r * 1000000.0)
    ensures r >= 0.0
  {
    var n := (x * 1000000.0 + 0.5).Floor;
    Millionths(x, n);
    n as real / 1000000.0
  }

  /** n millionths, for n the floor of x * 10^6 + 1/2, lie within half a millionth of x and scale back to n. */
  lemma Millionths(x: real, n: int)
    requires x >= 0.0 && n == (x * 1000000.0 + 0.5).Floor
    ensures x - n as real / 1000000.0 < 0.0000005 && n as real / 1000000.0 - x <= 0.0000005
    ensures IsIntegral((n as real / 1000000.0) * 1000000.0) && n >= 0
  {
    assert n as real <= x * 1000000.0 + 0.5 < n as real + 1.0;
    assert (n as real / 1000000.0) * 1000000.0 == n as real;
    FloorOfInt(n);
  }

  lemma FloorOfInt(n: int)
    ensures (n as real).Floor == n
  {
  }

  lemma NegatedIntegral(y: real)
    requires IsIntegral(y)
    ensures IsIntegral(-y)
  {
    var n := y.Floor;
    assert -y == (-n) as real;
    FloorOfInt(-n);
  }

  /** Rounding keeps the order of scores: a ranking stays in descending order once rounded. */
  lemma Round6Monotone(x: real, y: real)
    requires x <= y
    ensures Round6(x) <= Round6(y)
  {
    var lo, hi := -1000000000000000000000.0, 1000000000000000000000.0;
    if lo < x && y < hi {
      if 0.0 <= x {
        RoundUp6Monotone(x, y);
      } else if y < 0.0 {
        RoundUp6Monotone(-y, -x);
      }
    } else if x <= lo && lo < y < hi && y < 0.0 {
      RoundUp6Monotone(-y, hi);
      RoundUp6Limit();
    } else if lo < x < hi && hi <= y && 0.0 <= x {
      RoundUp6Monotone(x, hi);
      RoundUp6Limit();
    }
  }

  lemma RoundUp6Monotone(a: real, b: real)
    requires 0.0 <= a <= b
    ensures RoundUp6(a) <= RoundUp6(b)
  {
    FloorMonotone(a * 1000000.0 + 0.5, b * 1000000.0 + 0.5);
  }

  /** 10^21 is a whole number of millionths, so rounding leaves it as it is. */
  lemma RoundUp6Limit()
    ensures RoundUp6(1000000000000000000000.0) == 1000000000000000000000.0
  {
    var n := (1000000000000000000000.0 * 1000000.0 + 0.5).Floor;
    assert n as real <= 1000000000000000000000000000.0 + 0.5 < n as real + 1.0;
    assert n == 1000000000000000000000000000;
  }

  lemma FloorMonotone(a: real, b: real)
    requires a <= b
    ensures a.Floor <= b.Floor
  {
  }

  /** Rounding a rounded score changes nothing. */
  lemma Round6Idempotent(x: real)
    ensures Round6(Round6(x)) == Round6(x)
  {
    if -1000000000000000000000.0 < x < 1000000000000000000000.0 {
      var r := Round6(x);
      var n := (r * 1000000.0).Floor;
      assert n as real == r * 1000000.0;
      if r >= 0.0 {
        assert r * 1000000.0 + 0.5 == n as real + 0.5;
        assert (r * 1000000.0 + 0.5).Floor == n;
      } else {
        assert -r * 1000000.0 + 0.5 == -n as real + 0.5;
        assert (-r * 1000000.0 + 0.5).Floor == -n;
      }
    }
  }

  /** `Object.values(h.links)`: the Ensembl, UCSC and NCBI links, in that order. */
  function LinkValues(l: Links): seq<Json> {
    [JStr(l.ensembl), JStr(l.ucsc), JStr(l.ncbi)]
  }

  function StringArray(xs: seq<string>): (r: seq<Json>)
    ensures |r| == |xs| && forall i :: 0 <= i < |xs| ==> r[i] == JStr(xs[i])
  {
    seq(|xs|, i requires 0 <= i < |xs| => JStr(xs[i]))
  }

  /** One candidate of the tool's result. */
  function Candidate(h: GeneHit): Json {
    JObj([
      ("gene", JStr(h.gene)),
      ("score", JFloat(Round6(h.score))),
      ("matches", JArr(StringArray(h.matches))),
      ("links", JArr(LinkValues(h.links)))
    ])
  }

  /** The object the tool serialises: `{ candidates: [...] }`, one candidate per hit, in order. */
  function Render(hits: seq<GeneHit>): (r: Json)
    ensures r.JObj? && |r.members| == 1 && r.members[0].0 == "candidates"
    ensures r.members[0].1.JArr? && |r.members[0].1.items| == |hits|
    ensures forall i :: 0 <= i < |hits| ==> r.members[0].1.items[i] == Candidate(hits[i])
  {
    JObj([("candidates", JArr(seq(|hits|, i requires 0 <= i < |hits| => Candidate(hits[i]))))])
  }

  /** The rendered scores of a ranking are in non-increasing order. */
  lemma RenderedScoresDescend(idx: Index, counts: Counts, ids: seq<string>, topK: int, hits: seq<GeneHit>)
    requires IsRanking(idx, counts, ids, topK, hits)
    ensures forall i, j :: 0 <= i < j < |hits| ==> Round6(hits[i].score) >= Round6(hits[j].score)
  {
    RankingOrder(idx, counts, ids, topK, hits);
    forall i, j | 0 <= i < j < |hits| ensures Round6(hits[i].score) >= Round6(hits[j].score) {
      Round6Monotone(hits[j].score, hits[i].score);
    }
  }

  /**
   * rankGenesTool: a rejection reports the schema issues; otherwise the
   * result renders the ranking of the ids against the index, cut at top_k
   * (25 by default).
   */
  method RankGenes(index: GeneIndex, args: Json) returns (r: Result<Json, seq<Issue>>)
    ensures r.Failure? <==> ParseParams(args).Failure?
    ensures r.Failure? ==> r.error == ParseParams(args).error
    ensures r.Success? ==>
      var p := ParseParams(args).value;
      exists hits :: IsRanking(index.hpoToGenes, index.termCounts, p.hpoIds, TopK(p), hits) && r.value == Render(hits)
  {
    var parsed := ParseParams(args);
    if parsed.Failure? {
      return Failure(parsed.error);
    }
    var p := parsed.value;
    var hits := index.Rank(p.hpoIds, TopK(p));
    r := Success(Render(hits));
  }

  /** The tool's output is a function of the index and the arguments alone. */
  lemma ToolDeterministic(idx: Index, counts: Counts, ids: seq<string>, topK: int, h1: seq<GeneHit>, h2: seq<GeneHit>)
    requires IsRanking(idx, counts, ids, topK, h1) && IsRanking(idx, counts, ids, topK, h2)
    ensures Render(h1) == Render(h2)
  {
    RankingUnique(idx, counts, ids, topK, h1, h2);
  }
}
