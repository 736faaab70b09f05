/**
 * The phenotype-to-gene ranking engine: an index from HPO terms to the
 * sets of genes associated with them, loaded from a tab-separated
 * association table, and a scorer that weighs each matched query term by
 * the inverse of (one plus) the number of genes it maps to, sums the
 * weights per gene, and returns the best genes first.
 *
 * Scores are exact reals where the source uses doubles, and gene symbols
 * are ordered by code point where the source uses localeCompare.
 */
module HpoGeneIndex {
  import opened Wrappers
  import opened Text

  /** Term -> the set of gene symbols associated with it. */
  type Index = map<string, set<string>>

  /** Term -> number of genes associated with it. */
  type Counts = map<string, nat>

  // =====================================================================
  // Terms

  /** `/^HP:\d+$/.test(s)`: "HP:" followed by one or more ASCII digits. */
  predicate IsHpoTerm(s: string) {
    |s| > 3 && s[..3] == "HP:" && AllDigits(s[3..])
  }

  /** The normalisation a query term gets: `h.toUpperCase().trim()`. */
  function NormalizeQueryTerm(h: string): string {
    JsTrim(AsciiUpper(h))
  }

  /** A well-formed term is left unchanged by query normalisation. */
  lemma NormalizeFixesTerm(s: string)
    requires IsHpoTerm(s)
    ensures NormalizeQueryTerm(s) == s
  {
    assert forall i :: 0 <= i < |s| ==> !IsAsciiLower(s[i]) by {
      forall i | 0 <= i < |s| ensures !IsAsciiLower(s[i]) {
        if i >= 3 {
          assert s[i] == s[3..][i - 3];
        } else {
          assert s[i] == "HP:"[i];
        }
      }
    }
    assert AsciiUpper(s) == s;
    assert s[|s| - 1] == s[3..][|s| - 4];
    StripFixed(s, IsJsWhitespace);
  }

  // =====================================================================
  // Loading the association table

  function DropCR(s: string): string {
    if s != [] && s[|s| - 1] == '\r' then s[..|s| - 1] else s
  }

  /**
   * `text.split(/\r?\n/)`: the pieces between line feeds, each piece that
   * a line feed ends losing one carriage return before it.
   */
  function SplitLines(text: string): (r: seq<string>)
    ensures |r| >= 1
    ensures forall i :: 0 <= i < |r| ==> '\n' !in r[i]
  {
    var parts := Split(text, '\n');
    seq(|parts|, i requires 0 <= i < |parts| => if i < |parts| - 1 then DropCR(parts[i]) else parts[i])
  }

  /** `lines.filter((l) => l.trim().length > 0)`. */
  function NonBlank(lines: seq<string>): (r: seq<string>)
    ensures |r| <= |lines|
    ensures forall l :: l in r <==> l in lines && JsTrim(l) != ""
  {
    if lines == [] then []
    else
      var head := if JsTrim(lines[0]) != "" then [lines[0]] else [];
      var rest := NonBlank(lines[1..]);
      assert forall l :: l in lines <==> l == lines[0] || l in lines[1..] by {
        assert lines == [lines[0]] + lines[1..];
      }
      head + rest
  }

  /** The filter keeps order: it starts with the first non-blank line, followed by the non-blank lines after it. */
  lemma {:induction false} NonBlankFirst(lines: seq<string>, i: int)
    requires 0 <= i < |lines| && JsTrim(lines[i]) != ""
    requires forall j :: 0 <= j < i ==> JsTrim(lines[j]) == ""
    ensures NonBlank(lines) == [lines[i]] + NonBlank(lines[i + 1..])
  {
    if i > 0 {
      NonBlankFirst(lines[1..], i - 1);
      assert lines[1..][i..] == lines[i + 1..];
      assert NonBlank(lines) == NonBlank(lines[1..]);
    } else {
      assert NonBlank(lines) == [lines[0]] + NonBlank(lines[1..]);
    }
  }

  /** The header test of the loader: the first non-blank line, lower-cased, starts with "hpo_id". */
  predicate IsHeader(line: string) {
    StartsWith(AsciiLower(line), "hpo_id")
  }

  /** The data lines: all non-blank lines, without the first one when it is a header. */
  function DataLines(lines: seq<string>): (r: seq<string>)
    requires lines != []
    ensures IsHeader(lines[0]) ==> r == lines[1..]
    ensures !IsHeader(lines[0]) ==> r == lines
  {
    if IsHeader(lines[0]) then lines[1..] else lines
  }

  /**
   * One data line: at least five tab-separated columns, column 0 trimmed
   * and upper-cased is a term, column 3 trimmed and upper-cased is a
   * non-empty gene symbol.
   */
  function ParseLine(line: string): (r: Option<(string, string)>)
    ensures r.Some? ==> IsHpoTerm(r.value.0) && r.value.1 != ""
  {
    var cols := Split(line, '\t');
    if |cols| < 5 then None
    else
      var hpo := AsciiUpper(JsTrim(cols[0]));
      var geneSymbol := AsciiUpper(JsTrim(cols[3]));
      if !IsHpoTerm(hpo) || geneSymbol == "" then None else Some((hpo, geneSymbol))
  }

  /** The index after one more parsed line. */
  function AddPair(m: Index, p: Option<(string, string)>): Index {
    match p
    case None => m
    case Some((t, g)) => m[t := (if t in m then m[t] else {}) + {g}]
  }

  lemma AddPairMembership(m: Index, p: Option<(string, string)>)
    ensures forall t, g :: (t in AddPair(m, p) && g in AddPair(m, p)[t]) <==> (t in m && g in m[t]) || p == Some((t, g))
    ensures forall t :: t in AddPair(m, p) <==> t in m || (p.Some? && p.value.0 == t)
  {
  }

  /** The parse of every data line, in order. */
  function Parsed(lines: seq<string>): (r: seq<Option<(string, string)>>)
    ensures |r| == |lines|
  {
    seq(|lines|, i requires 0 <= i < |lines| => ParseLine(lines[i]))
  }

  /** Folds the parsed lines into an index, one line at a time. */
  function Fold(ps: seq<Option<(string, string)>>): Index
    decreases |ps|
  {
    if ps == [] then map[] else AddPair(Fold(ps[..|ps| - 1]), ps[|ps| - 1])
  }

  /** The index the loader builds from the data lines. */
  function BuildIndex(lines: seq<string>): Index {
    Fold(Parsed(lines))
  }

  lemma BuildIndexStep(lines: seq<string>, line: string)
    ensures BuildIndex(lines + [line]) == AddPair(BuildIndex(lines), ParseLine(line))
  {
    var ps := Parsed(lines + [line]);
    assert ps[..|lines|] == Parsed(lines);
  }

  lemma BuildIndexSlice(lines: seq<string>, start: nat, i: nat)
    requires start <= i < |lines|
    ensures BuildIndex(lines[start..i + 1]) == AddPair(BuildIndex(lines[start..i]), ParseLine(lines[i]))
  {
    assert lines[start..i + 1] == lines[start..i] + [lines[i]];
    BuildIndexStep(lines[start..i], lines[i]);
  }

  lemma {:induction false} FoldMembership(ps: seq<Option<(string, string)>>, t: string, g: string)
    ensures (t in Fold(ps) && g in Fold(ps)[t]) <==> Some((t, g)) in ps
    ensures t in Fold(ps) <==> exists p :: p in ps && p.Some? && p.value.0 == t
    decreases |ps|
  {
    if ps != [] {
      var prefix := ps[..|ps| - 1];
      FoldMembership(prefix, t, g);
      AddPairMembership(Fold(prefix), ps[|ps| - 1]);
      assert ps == prefix + [ps[|ps| - 1]];
    }
  }

  /**
   * Set semantics of the index: gene g is indexed under term t exactly
   * when some data line parses to the pair (t, g), however many do, and
   * t is a key exactly when some data line parses to a pair with term t.
   */
  lemma BuildIndexMembership(lines: seq<string>, t: string, g: string)
    ensures (t in BuildIndex(lines) && g in BuildIndex(lines)[t])
        <==> exists i :: 0 <= i < |lines| && ParseLine(lines[i]) == Some((t, g))
    ensures t in BuildIndex(lines)
        <==> exists i :: 0 <= i < |lines| && ParseLine(lines[i]).Some? && ParseLine(lines[i]).value.0 == t
  {
    var ps := Parsed(lines);
    FoldMembership(ps, t, g);
    assert forall i :: 0 <= i < |lines| ==> ps[i] == ParseLine(lines[i]);
  }

  /** Every key is a term, every gene set is non-empty and holds no empty symbol. */
  ghost predicate WellFormed(idx: Index) {
    forall t :: t in idx ==> IsHpoTerm(t) && idx[t] != {} && "" !in idx[t]
  }

  lemma {:induction false} FoldWellFormed(ps: seq<Option<(string, string)>>)
    requires forall p :: p in ps && p.Some? ==> IsHpoTerm(p.value.0) && p.value.1 != ""
    ensures WellFormed(Fold(ps))
    decreases |ps|
  {
    if ps != [] {
      FoldWellFormed(ps[..|ps| - 1]);
      AddPairMembership(Fold(ps[..|ps| - 1]), ps[|ps| - 1]);
    }
  }

  lemma BuildIndexWellFormed(lines: seq<string>)
    ensures WellFormed(BuildIndex(lines))
  {
    FoldWellFormed(Parsed(lines));
  }

  /** `for (const [hpo, genes] of map) counts.set(hpo, genes.size)`. */
  function CountsOf(idx: Index): (c: Counts)
    ensures c.Keys == idx.Keys
  {
    map t | t in idx :: |idx[t]|
  }

  /** Every indexed term has a count of at least one: the number of distinct genes it maps to. */
  lemma CountsPositive(idx: Index, t: string)
    requires WellFormed(idx) && t in idx
    ensures t in CountsOf(idx) && CountsOf(idx)[t] == |idx[t]| >= 1
  {
    var g :| g in idx[t];
    assert {g} <= idx[t];
  }

  /** How a call of the loader ended. */
  datatype LoadStatus =
    | Loaded
    | MissingFile      // the table is absent: a warning and an empty index
    | ThrewTypeError   // no non-blank line: `lines[0].toLowerCase()` throws

  // =====================================================================
  // Scoring

  /** `idf(hpo) = 1 / (1 + (TERM_COUNTS.get(hpo) ?? 0))`. */
  function Weight(counts: Counts, t: string): (w: real)
    ensures 0.0 < w <= 1.0
  {
    1.0 / (1.0 + (if t in counts then counts[t] as real else 0.0))
  }

  lemma ReciprocalDecreasing(x: real, y: real)
    requires 0.0 < x <= y
    ensures 1.0 / y <= 1.0 / x
    ensures x < y ==> 1.0 / y < 1.0 / x
  {
    var rx, ry := 1.0 / x, 1.0 / y;
    assert rx * x == 1.0 && ry * y == 1.0;
    assert ry * x <= ry * y;
    assert ry * x <= rx * x;
    if x < y {
      assert ry * x < ry * y;
      assert ry * x < rx * x;
    }
  }

  /** A term with fewer genes weighs strictly more, and every indexed term weighs at most 1/2. */
  lemma WeightOrder(idx: Index, a: string, b: string)
    requires WellFormed(idx) && a in idx && b in idx
    ensures Weight(CountsOf(idx), a) <= 0.5
    ensures |idx[a]| < |idx[b]| ==> Weight(CountsOf(idx), a) > Weight(CountsOf(idx), b)
  {
    CountsPositive(idx, a);
    CountsPositive(idx, b);
    var ca, cb := |idx[a]| as real, |idx[b]| as real;
    assert Weight(CountsOf(idx), a) == 1.0 / (1.0 + ca);
    assert Weight(CountsOf(idx), b) == 1.0 / (1.0 + cb);
    ReciprocalDecreasing(2.0, 1.0 + ca);
    if ca < cb {
      ReciprocalDecreasing(1.0 + ca, 1.0 + cb);
    }
  }

  predicate Supports(idx: Index, t: string, g: string) {
    t in idx && g in idx[t]
  }

  function Contribution(idx: Index, counts: Counts, t: string, g: string): real {
    if Supports(idx, t, g) then Weight(counts, t) else 0.0
  }

  /** A gene's score: the weights of every query occurrence whose term maps to the gene. */
  function Score(idx: Index, counts: Counts, wanted: seq<string>, g: string): real
    decreases |wanted|
  {
    if wanted == [] then 0.0
    else Score(idx, counts, wanted[..|wanted| - 1], g) + Contribution(idx, counts, wanted[|wanted| - 1], g)
  }

  /** The terms that matched a gene, each once, in order of first occurrence. */
  function Matches(idx: Index, wanted: seq<string>, g: string): seq<string>
    decreases |wanted|
  {
    if wanted == [] then []
    else
      var m := Matches(idx, wanted[..|wanted| - 1], g);
      var t := wanted[|wanted| - 1];
      if Supports(idx, t, g) && t !in m then m + [t] else m
  }

  /** The genes that at least one query term maps to. */
  function MatchedGenes(idx: Index, wanted: seq<string>): set<string>
    decreases |wanted|
  {
    if wanted == [] then {}
    else
      var t := wanted[|wanted| - 1];
      MatchedGenes(idx, wanted[..|wanted| - 1]) + (if t in idx then idx[t] else {})
  }

  lemma StepFacts(idx: Index, counts: Counts, p: seq<string>, t: string, g: string)
    ensures Score(idx, counts, p + [t], g) == Score(idx, counts, p, g) + Contribution(idx, counts, t, g)
    ensures Matches(idx, p + [t], g)
         == if Supports(idx, t, g) && t !in Matches(idx, p, g) then Matches(idx, p, g) + [t] else Matches(idx, p, g)
    ensures MatchedGenes(idx, p + [t]) == MatchedGenes(idx, p) + (if t in idx then idx[t] else {})
  {
    assert (p + [t])[..|p|] == p;
  }

  lemma {:induction false} UnmatchedHasNothing(idx: Index, counts: Counts, w: seq<string>, g: string)
    requires g !in MatchedGenes(idx, w)
    ensures Score(idx, counts, w, g) == 0.0 && Matches(idx, w, g) == []
    decreases |w|
  {
    if w != [] {
      UnmatchedHasNothing(idx, counts, w[..|w| - 1], g);
    }
  }

  /**
   * The terms listed for a gene are exactly the query terms that map to
   * it, without repetition, in order of their first occurrence in the query.
   */
  lemma {:induction false} MatchesSpec(idx: Index, w: seq<string>, g: string)
    ensures forall t :: t in Matches(idx, w, g) <==> t in w && Supports(idx, t, g)
    ensures forall i, j :: 0 <= i < j < |Matches(idx, w, g)| ==> Matches(idx, w, g)[i] != Matches(idx, w, g)[j]
    ensures forall i, j :: 0 <= i < j < |Matches(idx, w, g)| ==>
      FirstIndex(w, Matches(idx, w, g)[i]) < FirstIndex(w, Matches(idx, w, g)[j])
    decreases |w|
  {
    if w != [] {
      var p, t := w[..|w| - 1], w[|w| - 1];
      MatchesSpec(idx, p, g);
      assert w == p + [t];
      var m := Matches(idx, p, g);
      forall u | u in p ensures FirstIndex(w, u) == FirstIndex(p, u) {
        FirstIndexPrefix(p, t, u);
      }
      if t !in p {
        FirstIndexLast(p, t);
        forall u | u in p ensures FirstIndex(w, u) < FirstIndex(w, t) {
          FirstIndexBound(p, u);
        }
      }
    }
  }

  /** The position of the first occurrence of x in s. */
  function FirstIndex(s: seq<string>, x: string): (r: nat)
    requires x in s
    ensures r < |s| && s[r] == x && x !in s[..r]
  {
    if s[0] == x then 0
    else
      var k := FirstIndex(s[1..], x);
      assert s[..k + 1] == [s[0]] + s[1..][..k];
      k + 1
  }

  lemma {:induction false} FirstIndexPrefix(p: seq<string>, t: string, u: string)
    requires u in p
    ensures FirstIndex(p + [t], u) == FirstIndex(p, u)
  {
    var j := FirstIndex(p, u);
    assert (p + [t])[j] == u;
  }

  lemma FirstIndexLast(p: seq<string>, t: string)
    requires t !in p
    ensures FirstIndex(p + [t], t) == |p|
  {
  }

  lemma FirstIndexBound(p: seq<string>, u: string)
    requires u in p
    ensures FirstIndex(p + [""], u) < |p|
  {
    FirstIndexPrefix(p, "", u);
  }

  /** A gene is matched exactly when it has a matching term, and then its score is positive. */
  lemma {:induction false} MatchedIffMatches(idx: Index, counts: Counts, w: seq<string>, g: string)
    ensures g in MatchedGenes(idx, w) <==> Matches(idx, w, g) != []
    ensures g in MatchedGenes(idx, w) <==> Score(idx, counts, w, g) > 0.0
    ensures Score(idx, counts, w, g) >= 0.0
    decreases |w|
  {
    if w != [] {
      MatchedIffMatches(idx, counts, w[..|w| - 1], g);
    }
  }

  /** A repeated query term adds its weight again, and its term is listed once. */
  lemma RepeatedTermAddsWeight(idx: Index, counts: Counts, w: seq<string>, t: string, g: string)
    requires Supports(idx, t, g) && t in w
    ensures Score(idx, counts, w + [t], g) == Score(idx, counts, w, g) + Weight(counts, t)
    ensures Matches(idx, w + [t], g) == Matches(idx, w, g)
  {
    StepFacts(idx, counts, w, t, g);
    MatchesSpec(idx, w, g);
  }

  /** A term that is not in the index changes no score, no match list and no matched gene. */
  lemma AbsentTermContributesNothing(idx: Index, counts: Counts, w: seq<string>, t: string, g: string)
    requires t !in idx
    ensures Score(idx, counts, w + [t], g) == Score(idx, counts, w, g)
    ensures Matches(idx, w + [t], g) == Matches(idx, w, g)
    ensures MatchedGenes(idx, w + [t]) == MatchedGenes(idx, w)
  {
    StepFacts(idx, counts, w, t, g);
  }

  /**
   * Weight monotonicity: of two genes each matched by a single query
   * term, the one matched by the term with fewer genes scores higher.
   */
  lemma SpecificTermScoresHigher(idx: Index, a: string, b: string, ga: string, gb: string)
    requires WellFormed(idx)
    requires Supports(idx, a, ga) && Supports(idx, b, gb)
    requires |idx[a]| < |idx[b]|
    ensures Score(idx, CountsOf(idx), [a], ga) > Score(idx, CountsOf(idx), [b], gb)
  {
    WeightOrder(idx, a, b);
    StepFacts(idx, CountsOf(idx), [], a, ga);
    StepFacts(idx, CountsOf(idx), [], b, gb);
  }

  // =====================================================================
  // Query terms

  /** `hpoIds.map((h) => h.toUpperCase().trim()).filter((h) => /^HP:\d+$/.test(h))`. */
  function Wanted(ids: seq<string>): (r: seq<string>)
    ensures |r| <= |ids|
    ensures forall x :: x in r ==> IsHpoTerm(x)
  {
    if ids == [] then []
    else
      var n := NormalizeQueryTerm(ids[0]);
      (if IsHpoTerm(n) then [n] else []) + Wanted(ids[1..])
  }

  /** The kept terms are exactly the normalised inputs that are well-formed terms. */
  lemma {:induction false} WantedMembership(ids: seq<string>, x: string)
    ensures x in Wanted(ids) <==> IsHpoTerm(x) && exists i :: 0 <= i < |ids| && NormalizeQueryTerm(ids[i]) == x
  {
    if ids != [] {
      WantedMembership(ids[1..], x);
      assert forall i :: 1 <= i < |ids| ==> ids[1..][i - 1] == ids[i];
      if IsHpoTerm(x) && exists i :: 0 <= i < |ids| && NormalizeQueryTerm(ids[i]) == x {
        var i :| 0 <= i < |ids| && NormalizeQueryTerm(ids[i]) == x;
        if i > 0 {
          assert NormalizeQueryTerm(ids[1..][i - 1]) == x;
        }
      }
    }
  }

  /** Normalising and filtering a second time keeps every term: the query filter is idempotent. */
  lemma WantedCons(x: string, ys: seq<string>)
    ensures Wanted([x] + ys) == (if IsHpoTerm(NormalizeQueryTerm(x)) then [NormalizeQueryTerm(x)] else []) + Wanted(ys)
  {
    assert ([x] + ys)[1..] == ys;
  }

  lemma {:induction false} WantedIdempotent(ids: seq<string>)
    ensures Wanted(Wanted(ids)) == Wanted(ids)
  {
    if ids != [] {
      var rest := Wanted(ids[1..]);
      WantedIdempotent(ids[1..]);
      var n := NormalizeQueryTerm(ids[0]);
      if IsHpoTerm(n) {
        assert Wanted(ids) == [n] + rest;
        NormalizeFixesTerm(n);
        WantedCons(n, rest);
      } else {
        assert Wanted(ids) == rest;
      }
    }
  }

  /** A query made only of well-formed upper-case terms passes the filter unchanged and in order. */
  lemma {:induction false} WantedKeepsTerms(ids: seq<string>)
    requires forall i :: 0 <= i < |ids| ==> IsHpoTerm(ids[i])
    ensures Wanted(ids) == ids
  {
    if ids != [] {
      var x, rest := ids[0], ids[1..];
      assert ids == [x] + rest;
      WantedKeepsTerms(rest);
      WantedConsTerm(x, rest);
    }
  }

  lemma WantedConsTerm(x: string, ys: seq<string>)
    requires IsHpoTerm(x)
    ensures Wanted([x] + ys) == [x] + Wanted(ys)
  {
    NormalizeFixesTerm(x);
    WantedCons(x, ys);
  }

  // =====================================================================
  // Hits and their order

  datatype Links = Links(ensembl: string, ucsc: string, ncbi: string)

  datatype GeneHit = GeneHit(gene: string, score: real, matches: seq<string>, links: Links)

  const EnsemblPrefix := "https://www.ensembl.org/Homo_sapiens/Gene/Summary?g="
  const UcscPrefix := "https://genome.ucsc.edu/cgi-bin/hgTracks?db=hg38&position="
  const NcbiPrefix := "https://www.ncbi.nlm.nih.gov/gene/?term="
  const NcbiSuffix := "[sym] AND human[orgn]"

  /** The three cross-reference URLs of a gene, templated from its symbol alone. */
  function LinksFor(gene: string): Links {
    Links(EnsemblPrefix + gene, UcscPrefix + gene, NcbiPrefix + gene + NcbiSuffix)
  }

  /** Each link gives the gene symbol back, so different genes get different links. */
  lemma LinksRecoverGene(gene: string)
    ensures LinksFor(gene).ensembl[|EnsemblPrefix|..] == gene
    ensures LinksFor(gene).ucsc[|UcscPrefix|..] == gene
    ensures LinksFor(gene).ncbi[|NcbiPrefix|..|LinksFor(gene).ncbi| - |NcbiSuffix|] == gene
  {
    var n := LinksFor(gene).ncbi;
    assert n == NcbiPrefix + (gene + NcbiSuffix);
    assert n[|NcbiPrefix|..] == gene + NcbiSuffix;
  }

  /** The hit the engine reports for gene g. */
  function HitFor(idx: Index, counts: Counts, wanted: seq<string>, g: string): GeneHit {
    GeneHit(g, Score(idx, counts, wanted, g), Matches(idx, wanted, g), LinksFor(g))
  }

  /**
   * The comparator `b.score === a.score ? a.gene.localeCompare(b.gene)
   * : b.score - a.score` read as "a sorts strictly before b".
   */
  predicate Precedes(a: GeneHit, b: GeneHit) {
    a.score > b.score || (a.score == b.score && StrLt(a.gene, b.gene))
  }

  lemma PrecedesTransitive(a: GeneHit, b: GeneHit, c: GeneHit)
    requires Precedes(a, b) && Precedes(b, c)
    ensures Precedes(a, c)
  {
    if a.score == b.score == c.score {
      StrLtTransitive(a.gene, b.gene, c.gene);
    }
  }

  lemma PrecedesAsymmetric(a: GeneHit, b: GeneHit)
    requires Precedes(a, b)
    ensures !Precedes(b, a)
  {
    if a.score == b.score {
      StrLtAsymmetric(a.gene, b.gene);
    }
  }

  lemma PrecedesTotal(a: GeneHit, b: GeneHit)
    requires a.gene != b.gene
    ensures Precedes(a, b) || Precedes(b, a)
  {
    StrLtTotal(a.gene, b.gene);
  }

  ghost predicate StrictlySorted(s: seq<GeneHit>) {
    forall i, j :: 0 <= i < j < |s| ==> Precedes(s[i], s[j])
  }

  ghost predicate DistinctGenes(s: seq<GeneHit>) {
    forall i, j :: 0 <= i < j < |s| ==> s[i].gene != s[j].gene
  }

  function InsertHit(h: GeneHit, s: seq<GeneHit>): (r: seq<GeneHit>)
    requires StrictlySorted(s)
    requires forall k :: 0 <= k < |s| ==> s[k].gene != h.gene
    ensures StrictlySorted(r)
    ensures multiset(r) == multiset(s) + multiset{h}
    ensures forall x :: x in r <==> x in s || x == h
  {
    if s == [] then [h]
    else if Precedes(h, s[0]) then
      BeforeHeadBeforeAll(h, s);
      ConsSorted(h, s);
      [h] + s
    else
      PrecedesTotal(h, s[0]);
      var t := InsertHit(h, s[1..]);
      HeadBeforeInserted(h, s, t);
      ConsSorted(s[0], t);
      assert s == [s[0]] + s[1..];
      [s[0]] + t
  }

  /** A hit that sorts before the head of a sorted list sorts before all of it. */
  lemma BeforeHeadBeforeAll(h: GeneHit, s: seq<GeneHit>)
    requires StrictlySorted(s) && |s| > 0 && Precedes(h, s[0])
    ensures forall x :: x in s ==> Precedes(h, x)
  {
    forall x | x in s ensures Precedes(h, x) {
      var k :| 0 <= k < |s| && s[k] == x;
      if k > 0 {
        PrecedesTransitive(h, s[0], s[k]);
      }
    }
  }

  /** When h sorts after the head of s, the head sorts before everything of s's tail with h inserted. */
  lemma HeadBeforeInserted(h: GeneHit, s: seq<GeneHit>, t: seq<GeneHit>)
    requires StrictlySorted(s) && |s| > 0 && Precedes(s[0], h)
    requires forall x :: x in t <==> x in s[1..] || x == h
    ensures forall x :: x in t ==> Precedes(s[0], x)
  {
    forall x | x in t ensures Precedes(s[0], x) {
      if x != h {
        var k :| 0 <= k < |s[1..]| && s[1..][k] == x;
        assert s[k + 1] == x;
      }
    }
  }

  /** A hit that sorts before every hit of a sorted list can be put in front of it. */
  lemma ConsSorted(a: GeneHit, t: seq<GeneHit>)
    requires StrictlySorted(t)
    requires forall x :: x in t ==> Precedes(a, x)
    ensures StrictlySorted([a] + t)
  {
    forall i, j | 0 <= i < j < |[a] + t| ensures Precedes(([a] + t)[i], ([a] + t)[j]) {
      assert ([a] + t)[j] == t[j - 1];
      if i > 0 {
        assert ([a] + t)[i] == t[i - 1];
      }
    }
  }

  /** The source's `hits.sort(...)` for hits with distinct genes. */
  function SortHits(s: seq<GeneHit>): (r: seq<GeneHit>)
    requires DistinctGenes(s)
    ensures StrictlySorted(r)
    ensures multiset(r) == multiset(s)
    ensures |r| == |s|
    ensures forall x :: x in r <==> x in s
  {
    if s == [] then []
    else
      DistinctTail(s);
      var rest := SortHits(s[1..]);
      HeadNotInTail(s, rest);
      assert s == [s[0]] + s[1..];
      InsertHit(s[0], rest)
  }

  lemma DistinctTail(s: seq<GeneHit>)
    requires DistinctGenes(s) && |s| > 0
    ensures DistinctGenes(s[1..])
  {
    forall i, j | 0 <= i < j < |s[1..]| ensures s[1..][i].gene != s[1..][j].gene {
      assert s[1..][i] == s[i + 1] && s[1..][j] == s[j + 1];
    }
  }

  /** The head's gene is not the gene of anything drawn from the tail. */
  lemma HeadNotInTail(s: seq<GeneHit>, rest: seq<GeneHit>)
    requires DistinctGenes(s) && |s| > 0
    requires forall x :: x in rest <==> x in s[1..]
    ensures forall k :: 0 <= k < |rest| ==> rest[k].gene != s[0].gene
  {
    forall k | 0 <= k < |rest| ensures rest[k].gene != s[0].gene {
      assert rest[k] in s[1..];
      var j :| 0 <= j < |s[1..]| && s[1..][j] == rest[k];
      assert s[j + 1] == rest[k];
    }
  }

  /** The end of `s.slice(0, k)` for an array of length n. */
  function SliceEnd(n: nat, k: int): (e: nat)
    ensures e <= n
    ensures k >= 0 ==> e == if k < n then k else n
  {
    if k < 0 then (if n + k < 0 then 0 else n + k)
    else if k < n then k else n
  }

  // =====================================================================
  // The specification of a ranking

  /** The genes of a list of hits. */
  function GenesOf(s: seq<GeneHit>): set<string>
    decreases |s|
  {
    if s == [] then {} else GenesOf(s[..|s| - 1]) + {s[|s| - 1].gene}
  }

  lemma {:induction false} GenesOfMembership(s: seq<GeneHit>, g: string)
    ensures g in GenesOf(s) <==> exists i :: 0 <= i < |s| && s[i].gene == g
    ensures g !in GenesOf(s) ==> forall i :: 0 <= i < |s| ==> s[i].gene != g
    decreases |s|
  {
    if s != [] {
      var p := s[..|s| - 1];
      GenesOfMembership(p, g);
      assert forall i :: 0 <= i < |p| ==> p[i] == s[i];
    }
  }

  lemma PrecedesIrreflexive(a: GeneHit)
    ensures !Precedes(a, a)
  {
    StrLtIrreflexive(a.gene);
  }

  /** The hit of every matched gene, by gene. */
  function HitTable(idx: Index, counts: Counts, wanted: seq<string>): (table: map<string, GeneHit>)
    ensures table.Keys == MatchedGenes(idx, wanted)
  {
    map g | g in MatchedGenes(idx, wanted) :: HitFor(idx, counts, wanted, g)
  }

  /**
   * hits ranks the entries of table cut at topK: as many hits as
   * `slice(0, topK)` keeps, each an entry of the table, in strictly
   * descending order (score, then symbol), and no entry left out
   * precedes any entry kept.
   */
  ghost predicate RankingOf(table: map<string, GeneHit>, topK: int, hits: seq<GeneHit>) {
    && |hits| == SliceEnd(|table.Keys|, topK)
    && (forall i :: 0 <= i < |hits| ==> hits[i].gene in table && hits[i] == table[hits[i].gene])
    && StrictlySorted(hits)
    && (forall g, i :: g in table && g !in GenesOf(hits) && 0 <= i < |hits| ==> Precedes(hits[i], table[g]))
  }

  /** hits is the ranking of query ids against (idx, counts), cut at topK. */
  ghost predicate IsRanking(idx: Index, counts: Counts, ids: seq<string>, topK: int, hits: seq<GeneHit>) {
    RankingOf(HitTable(idx, counts, Wanted(ids)), topK, hits)
  }

  /**
   * Equal scores are ordered by gene symbol, every kept gene scores at
   * least as high as every dropped one, and each hit carries its gene's
   * score, matched terms and links.
   */
  lemma RankingOrder(idx: Index, counts: Counts, ids: seq<string>, topK: int, hits: seq<GeneHit>)
    requires IsRanking(idx, counts, ids, topK, hits)
    ensures forall i, j :: 0 <= i < j < |hits| ==> hits[i].score >= hits[j].score
    ensures forall i, j :: 0 <= i < j < |hits| && hits[i].score == hits[j].score ==> StrLt(hits[i].gene, hits[j].gene)
    ensures forall i :: 0 <= i < |hits| ==> hits[i] == HitFor(idx, counts, Wanted(ids), hits[i].gene)
    ensures forall g, i :: g in MatchedGenes(idx, Wanted(ids)) && g !in GenesOf(hits) && 0 <= i < |hits|
              ==> hits[i].score >= Score(idx, counts, Wanted(ids), g)
  {
    var table := HitTable(idx, counts, Wanted(ids));
    forall i, j | 0 <= i < j < |hits| ensures hits[i].score >= hits[j].score {
      assert Precedes(hits[i], hits[j]);
    }
    forall g, i | g in MatchedGenes(idx, Wanted(ids)) && g !in GenesOf(hits) && 0 <= i < |hits|
      ensures hits[i].score >= Score(idx, counts, Wanted(ids), g)
    {
      assert Precedes(hits[i], table[g]);
    }
  }

  /** Determinism: the ranking of a query against an index is unique. */
  lemma RankingUnique(idx: Index, counts: Counts, ids: seq<string>, topK: int, h1: seq<GeneHit>, h2: seq<GeneHit>)
    requires IsRanking(idx, counts, ids, topK, h1)
    requires IsRanking(idx, counts, ids, topK, h2)
    ensures h1 == h2
  {
    TableRankingUnique(HitTable(idx, counts, Wanted(ids)), topK, h1, h2, |h1|);
  }

  lemma {:induction false} TableRankingUnique(table: map<string, GeneHit>, topK: int, h1: seq<GeneHit>, h2: seq<GeneHit>, k: nat)
    requires RankingOf(table, topK, h1) && RankingOf(table, topK, h2)
    requires k <= |h1|
    ensures |h1| == |h2|
    ensures forall m :: 0 <= m < k ==> h1[m] == h2[m]
    ensures k == |h1| ==> h1 == h2
    decreases k
  {
    if k > 0 {
      TableRankingUnique(table, topK, h1, h2, k - 1);
      var i := k - 1;
      NotOutranked(table, topK, h1, h2, i);
      NotOutranked(table, topK, h2, h1, i);
      if h1[i].gene != h2[i].gene {
        PrecedesTotal(h1[i], h2[i]);
      }
    }
  }

  /** Of two rankings that agree before position i, the second's hit at i does not precede the first's. */
  lemma NotOutranked(table: map<string, GeneHit>, topK: int, x: seq<GeneHit>, y: seq<GeneHit>, i: nat)
    requires RankingOf(table, topK, x) && RankingOf(table, topK, y)
    requires i < |x| && |x| == |y|
    requires forall m :: 0 <= m < i ==> x[m] == y[m]
    ensures !Precedes(y[i], x[i])
  {
    var g := y[i].gene;
    var h := table[g];
    assert y[i] == h;
    GenesOfMembership(x, g);
    if g in GenesOf(x) {
      var j :| 0 <= j < |x| && x[j].gene == g;
      assert x[j] == h;
      if j < i {
        assert y[j] == h;
        PrecedesIrreflexive(h);
      } else if j == i {
        PrecedesIrreflexive(h);
      } else {
        PrecedesAsymmetric(x[i], x[j]);
      }
    } else {
      PrecedesAsymmetric(x[i], h);
    }
  }

  /** An empty index (the association table was absent) ranks nothing, whatever the query. */
  lemma EmptyIndexRanksNothing(ids: seq<string>, topK: int, hits: seq<GeneHit>)
    requires IsRanking(map[], map[], ids, topK, hits)
    ensures hits == []
  {
    NothingMatchedInEmptyIndex(Wanted(ids));
  }

  lemma {:induction false} NothingMatchedInEmptyIndex(w: seq<string>)
    ensures MatchedGenes(map[], w) == {}
    decreases |w|
  {
    if w != [] {
      NothingMatchedInEmptyIndex(w[..|w| - 1]);
    }
  }

  /** A query with no well-formed term, or a topK of 0, ranks nothing. */
  lemma NoTermRanksNothing(idx: Index, counts: Counts, ids: seq<string>, topK: int, hits: seq<GeneHit>)
    requires IsRanking(idx, counts, ids, topK, hits)
    requires Wanted(ids) == [] || topK == 0
    ensures hits == []
  {
  }

  /** With topK at least the number of matched genes, every matched gene is ranked. */
  lemma LargeTopKRanksAll(idx: Index, counts: Counts, ids: seq<string>, topK: int, hits: seq<GeneHit>)
    requires IsRanking(idx, counts, ids, topK, hits)
    requires topK >= |MatchedGenes(idx, Wanted(ids))|
    ensures GenesOf(hits) == MatchedGenes(idx, Wanted(ids))
  {
    RankingKeepsAll(HitTable(idx, counts, Wanted(ids)), topK, hits);
  }

  /** A ranking cut no shorter than its table holds every entry of the table. */
  lemma RankingKeepsAll(table: map<string, GeneHit>, topK: int, hits: seq<GeneHit>)
    requires RankingOf(table, topK, hits)
    requires topK >= |table.Keys|
    ensures GenesOf(hits) == table.Keys
  {
    var genes := table.Keys;
    var kept := GenesOf(hits);
    forall g | g in kept ensures g in genes {
      GenesOfMembership(hits, g);
    }
    DistinctCardinality(table, hits);
    if exists g :: g in genes && g !in kept {
      var g :| g in genes && g !in kept;
      assert kept <= genes - {g};
      SubsetCardinality(kept, genes - {g});
    }
  }

  lemma SubsetCardinality(a: set<string>, b: set<string>)
    requires a <= b
    ensures |a| <= |b|
  {
    assert b == a + (b - a);
  }

  /** A strictly sorted list of table entries holds each gene once. */
  lemma {:induction false} DistinctCardinality(table: map<string, GeneHit>, hits: seq<GeneHit>)
    requires StrictlySorted(hits)
    requires forall i :: 0 <= i < |hits| ==> hits[i].gene in table && hits[i] == table[hits[i].gene]
    ensures |GenesOf(hits)| == |hits|
    decreases |hits|
  {
    if hits != [] {
      var n := |hits| - 1;
      var p := hits[..n];
      forall i, j | 0 <= i < j < |p| ensures Precedes(p[i], p[j]) {
        assert p[i] == hits[i] && p[j] == hits[j];
      }
      forall i | 0 <= i < |p| ensures p[i].gene in table && p[i] == table[p[i].gene] {
        assert p[i] == hits[i];
      }
      DistinctCardinality(table, p);
      forall i | 0 <= i < |p| ensures p[i].gene != hits[n].gene {
        assert p[i] == hits[i];
        assert Precedes(hits[i], hits[n]);
        if hits[i].gene == hits[n].gene {
          PrecedesIrreflexive(hits[n]);
        }
      }
      GenesOfMembership(p, hits[n].gene);
    }
  }

  // =====================================================================
  // The engine

  /** The record kept per gene while scoring. */
  datatype Acc = Acc(score: real, matches: seq<string>)

  function AccFor(idx: Index, counts: Counts, w: seq<string>, g: string): Acc {
    Acc(Score(idx, counts, w, g), Matches(idx, w, g))
  }

  ghost predicate Accumulated(idx: Index, counts: Counts, w: seq<string>, scores: map<string, Acc>) {
    && scores.Keys == MatchedGenes(idx, w)
    && forall g :: g in scores ==> scores[g] == AccFor(idx, counts, w, g)
  }

  /** The inner loop of the scorer: adds the weight of term hpo to every gene it maps to. */
  method AddTerm(idx: Index, counts: Counts, p: seq<string>, hpo: string, scores0: map<string, Acc>)
    returns (scores: map<string, Acc>)
    requires Accumulated(idx, counts, p, scores0)
    ensures Accumulated(idx, counts, p + [hpo], scores)
  {
    scores := scores0;
    if hpo !in idx {
      UnknownTermAddsNothing(idx, counts, p, hpo, scores);
      return;
    }
    var genes := idx[hpo];
    var w := Weight(counts, hpo);
    var rest := genes;
    while rest != {}
      invariant PartlyAdded(idx, counts, p, hpo, rest, scores)
      decreases rest
    {
      var g :| g in rest;
      var rec := if g in scores then scores[g] else Acc(0.0, []);
      AddOneGene(idx, counts, p, hpo, rest, scores, g);
      scores := scores[g := Bump(rec, w, hpo)];
      rest := rest - {g};
    }
    AllGenesAdded(idx, counts, p, hpo, scores);
  }

  /** A gene's record after one more occurrence of term hpo, of weight w, maps to it. */
  function Bump(rec: Acc, w: real, hpo: string): Acc {
    Acc(rec.score + w, if hpo in rec.matches then rec.matches else rec.matches + [hpo])
  }

  /** The genes of term hpo outside rest have their records for p + [hpo]; every other record is still the one for p. */
  ghost predicate PartlyAdded(idx: Index, counts: Counts, p: seq<string>, hpo: string, rest: set<string>,
                              scores: map<string, Acc>)
    requires hpo in idx
  {
    && rest <= idx[hpo]
    && scores.Keys == MatchedGenes(idx, p) + (idx[hpo] - rest)
    && forall g :: g in scores ==>
         scores[g] == if g in idx[hpo] - rest then AccFor(idx, counts, p + [hpo], g) else AccFor(idx, counts, p, g)
  }

  /** A term the index does not hold leaves every record as it is. */
  lemma UnknownTermAddsNothing(idx: Index, counts: Counts, p: seq<string>, hpo: string, scores: map<string, Acc>)
    requires hpo !in idx && Accumulated(idx, counts, p, scores)
    ensures Accumulated(idx, counts, p + [hpo], scores)
  {
    forall g | g in scores ensures scores[g] == AccFor(idx, counts, p + [hpo], g) {
      StepFacts(idx, counts, p, hpo, g);
    }
    StepFacts(idx, counts, p, hpo, "");
  }

  /** Bumping the record of one more gene of term hpo keeps the loop invariant. */
  lemma AddOneGene(idx: Index, counts: Counts, p: seq<string>, hpo: string, rest: set<string>,
                   scores: map<string, Acc>, g: string)
    requires hpo in idx && PartlyAdded(idx, counts, p, hpo, rest, scores) && g in rest
    ensures PartlyAdded(idx, counts, p, hpo, rest - {g},
                        scores[g := Bump(if g in scores then scores[g] else Acc(0.0, []), Weight(counts, hpo), hpo)])
  {
    if g !in scores {
      UnmatchedHasNothing(idx, counts, p, g);
    }
    StepFacts(idx, counts, p, hpo, g);
  }

  /** Once every gene of term hpo is bumped, the records are those for p + [hpo]. */
  lemma AllGenesAdded(idx: Index, counts: Counts, p: seq<string>, hpo: string, scores: map<string, Acc>)
    requires hpo in idx && PartlyAdded(idx, counts, p, hpo, {}, scores)
    ensures Accumulated(idx, counts, p + [hpo], scores)
  {
    forall g | g in scores ensures scores[g] == AccFor(idx, counts, p + [hpo], g) {
      StepFacts(idx, counts, p, hpo, g);
    }
    StepFacts(idx, counts, p, hpo, "");
  }

  /** The scoring loop over the query terms. */
  method ScoreAll(idx: Index, counts: Counts, wanted: seq<string>) returns (scores: map<string, Acc>)
    ensures Accumulated(idx, counts, wanted, scores)
  {
    scores := map[];
    for i := 0 to |wanted|
      invariant Accumulated(idx, counts, wanted[..i], scores)
    {
      assert wanted[..i + 1] == wanted[..i] + [wanted[i]];
      scores := AddTerm(idx, counts, wanted[..i], wanted[i], scores);
    }
    assert wanted[..|wanted|] == wanted;
  }

  /** The hit reported for gene g from its scoring record. */
  function HitOf(g: string, rec: Acc): GeneHit {
    GeneHit(g, rec.score, rec.matches, LinksFor(g))
  }

  /** The records of a completed scoring pass give exactly the hits of the hit table. */
  lemma TableOfScores(idx: Index, counts: Counts, wanted: seq<string>, scores: map<string, Acc>)
    requires Accumulated(idx, counts, wanted, scores)
    ensures scores.Keys == HitTable(idx, counts, wanted).Keys
    ensures forall g :: g in scores ==> HitOf(g, scores[g]) == HitTable(idx, counts, wanted)[g]
    ensures forall g :: g in scores ==> HitTable(idx, counts, wanted)[g].gene == g
  {
  }

  /** `Array.from(scores.entries()).map(...)`: one hit per scored gene, in no particular order. */
  method CollectHits(scores: map<string, Acc>) returns (all: seq<GeneHit>)
    ensures |all| == |scores.Keys| && DistinctGenes(all)
    ensures forall k :: 0 <= k < |all| ==> all[k].gene in scores && all[k] == HitOf(all[k].gene, scores[all[k].gene])
    ensures forall g :: g in scores ==> HitOf(g, scores[g]) in all
  {
    all := [];
    ghost var done: set<string> := {};
    var left := scores.Keys;
    while left != {}
      invariant left <= scores.Keys && done == scores.Keys - left
      invariant Collected(scores, all, done)
      decreases left
    {
      var g :| g in left;
      var rec := scores[g];
      var hit := GeneHit(g, rec.score, rec.matches, LinksFor(g));
      CollectStep(scores, all, done, g);
      all := all + [hit];
      done := done + {g};
      left := left - {g};
    }
    forall g | g in scores ensures HitOf(g, scores[g]) in all {
      GenesOfMembership(all, g);
    }
  }

  /** The hits gathered so far: one per gene of done, each the hit of its gene's record. */
  ghost predicate Collected(scores: map<string, Acc>, all: seq<GeneHit>, done: set<string>) {
    && |all| == |done| && GenesOf(all) == done
    && (forall k :: 0 <= k < |all| ==> all[k].gene in scores && all[k] == HitOf(all[k].gene, scores[all[k].gene]))
    && DistinctGenes(all)
  }

  /** Gathering the hit of one more gene keeps the loop invariant. */
  lemma CollectStep(scores: map<string, Acc>, all: seq<GeneHit>, done: set<string>, g: string)
    requires Collected(scores, all, done) && g in scores && g !in done
    ensures Collected(scores, all + [HitOf(g, scores[g])], done + {g})
  {
    GenesOfMembership(all, g);
    assert (all + [HitOf(g, scores[g])])[..|all|] == all;
  }

  lemma ParseLineByColumns(line: string, cols: seq<string>)
    requires cols == Split(line, '\t')
    ensures |cols| < 5 ==> ParseLine(line) == None
    ensures |cols| >= 5 ==>
      var hpo := AsciiUpper(JsTrim(cols[0]));
      var geneSymbol := AsciiUpper(JsTrim(cols[3]));
      ParseLine(line) == if IsHpoTerm(hpo) && geneSymbol != "" then Some((hpo, geneSymbol)) else None
  {
  }

  /** The body of the table-parsing loop: one data line into the index. */
  method IndexLine(m0: Index, line: string) returns (m: Index)
    ensures m == AddPair(m0, ParseLine(line))
  {
    m := m0;
    var cols := Split(line, '\t');
    ParseLineByColumns(line, cols);
    if |cols| < 5 {
      return;
    }
    var hpo := AsciiUpper(JsTrim(cols[0]));
    var geneSymbol := AsciiUpper(JsTrim(cols[3]));
    if !IsHpoTerm(hpo) || geneSymbol == "" {
      return;
    }
    m := AddGene(m, hpo, geneSymbol);
  }

  /** `if (!map.has(hpo)) map.set(hpo, new Set()); map.get(hpo)!.add(gene)`. */
  method AddGene(m0: Index, hpo: string, gene: string) returns (m: Index)
    ensures m == AddPair(m0, Some((hpo, gene)))
  {
    m := m0;
    if hpo !in m {
      m := m[hpo := {}];
    }
    m := m[hpo := m[hpo] + {gene}];
  }

  /** The table-parsing loop of the loader, over the data lines. */
  method ParseAll(lines: seq<string>, start: nat) returns (m: Index)
    requires start <= |lines|
    ensures m == BuildIndex(lines[start..])
  {
    m := map[];
    for i := start to |lines|
      invariant m == BuildIndex(lines[start..i])
    {
      m := IndexLine(m, lines[i]);
      BuildIndexSlice(lines, start, i);
    }
    assert lines[start..|lines|] == lines[start..];
  }

  /** The counting loop of the loader. */
  method CountGenes(m: Index) returns (counts: Counts)
    ensures counts == CountsOf(m)
  {
    counts := map[];
    var rest := m.Keys;
    while rest != {}
      invariant rest <= m.Keys
      invariant counts.Keys == m.Keys - rest
      invariant forall t :: t in counts ==> counts[t] == |m[t]|
      decreases rest
    {
      var hpo :| hpo in rest;
      counts := counts[hpo := |m[hpo]|];
      rest := rest - {hpo};
    }
  }

  /** The two module-level maps of the source, replaced as a whole on every load. */
  class GeneIndex {
    var hpoToGenes: Index
    var termCounts: Counts

    ghost predicate Valid()
      reads this
    {
      WellFormed(hpoToGenes) && termCounts == CountsOf(hpoToGenes)
    }

    /** The index before the first load: both maps empty. */
    constructor ()
      ensures Valid() && hpoToGenes == map[] && termCounts == map[]
    {
      hpoToGenes := map[];
      termCounts := map[];
    }

    /**
     * loadHpoGeneIndex: file is the association table's text, or None
     * when the file does not exist.
     */
    method Load(file: Option<string>) returns (status: LoadStatus)
      requires Valid()
      modifies this
      ensures Valid()
      ensures file.None? ==> status == MissingFile && hpoToGenes == map[] && termCounts == map[]
      ensures file.Some? && NonBlank(SplitLines(file.value)) == [] ==>
                status == ThrewTypeError && hpoToGenes == old(hpoToGenes) && termCounts == old(termCounts)
      ensures file.Some? && NonBlank(SplitLines(file.value)) != [] ==>
                && status == Loaded
                && hpoToGenes == BuildIndex(DataLines(NonBlank(SplitLines(file.value))))
                && termCounts == CountsOf(hpoToGenes)
    {
      if file.None? {
        hpoToGenes := map[];
        termCounts := map[];
        return MissingFile;
      }
      var lines := NonBlank(SplitLines(file.value));
      if |lines| == 0 {
        return ThrewTypeError;
      }
      var start := if IsHeader(lines[0]) then 1 else 0;
      assert DataLines(lines) == lines[start..];
      var m := ParseAll(lines, start);
      BuildIndexWellFormed(lines[start..]);
      var counts := CountGenes(m);
      hpoToGenes := m;
      termCounts := counts;
      status := Loaded;
    }

    /** rankGenesForHpo: reads the index and changes nothing. */
    method Rank(hpoIds: seq<string>, topK: int) returns (hits: seq<GeneHit>)
      ensures IsRanking(hpoToGenes, termCounts, hpoIds, topK, hits)
    {
      var wanted := Wanted(hpoIds);
      if |wanted| == 0 {
        return [];
      }
      var idx, counts := hpoToGenes, termCounts;
      var scores := ScoreAll(idx, counts, wanted);
      var all := CollectHits(scores);
      TableOfScores(idx, counts, wanted, scores);
      var sorted := SortHits(all);
      RankingOfSorted(HitTable(idx, counts, wanted), topK, all, sorted);
      hits := sorted[..SliceEnd(|sorted|, topK)];
    }
  }

  /** Sorting the collected hits and cutting the list at topK yields the ranking. */
  lemma RankingOfSorted(table: map<string, GeneHit>, topK: int, all: seq<GeneHit>, sorted: seq<GeneHit>)
    requires |all| == |table.Keys|
    requires forall g :: g in table ==> table[g].gene == g
    requires forall k :: 0 <= k < |all| ==> all[k].gene in table && all[k] == table[all[k].gene]
    requires forall g :: g in table ==> table[g] in all
    requires StrictlySorted(sorted) && (forall x :: x in sorted <==> x in all) && |sorted| == |all|
    ensures RankingOf(table, topK, sorted[..SliceEnd(|sorted|, topK)])
  {
    var hits := sorted[..SliceEnd(|sorted|, topK)];
    forall i | 0 <= i < |hits|
      ensures hits[i].gene in table && hits[i] == table[hits[i].gene]
    {
      assert hits[i] == sorted[i];
      assert sorted[i] in all;
    }
    assert StrictlySorted(hits) by {
      forall i, j | 0 <= i < j < |hits| ensures Precedes(hits[i], hits[j]) {
        assert hits[i] == sorted[i] && hits[j] == sorted[j];
      }
    }
    forall g, i | g in table && g !in GenesOf(hits) && 0 <= i < |hits|
      ensures Precedes(hits[i], table[g])
    {
      var x := table[g];
      assert x in sorted;
      var j :| 0 <= j < |sorted| && sorted[j] == x;
      GenesOfMembership(hits, g);
      assert j >= |hits|;
      assert hits[i] == sorted[i];
    }
  }
}
