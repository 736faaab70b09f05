/**
 * The gene-guess checker: the ground-truth gene symbols of a phenopacket
 * (every truthy interpretations[*].diagnosis.genomicInterpretations[*]
 * .variantInterpretation.variationDescriptor.geneContext.symbol, stripped
 * and upper-cased) and the verdict "Yes" when a guessed symbol is among
 * them.
 *
 * Python's `x.get(k) or {}` and `x.get(k, []) or []` make a missing or
 * falsy value read as an empty dict or list. A value of any other shape
 * makes the extraction raise (a string or number has no `.get`, a number
 * cannot be iterated, a dict or string iterates into strings); the raise
 * is `Failure(Raised)`.
 */
module GeneChecker {
  import opened Wrappers
  import opened Text
  import opened Json
  import PyValues

  /** An AttributeError or TypeError escaping the extraction. */
  datatype Raised = Raised

  type Members = seq<(string, Json)>

  /** `v or {}`, about to be read with `.get`. */
  function DictOr(v: Option<Json>): (r: Result<Members, Raised>)
    ensures !PyValues.Truthy(v) ==> r == Success([])
  {
    if !PyValues.Truthy(v) then Success([])
    else if v.value.JObj? then Success(v.value.members)
    else Failure(Raised)
  }

  /** `v or []`, about to be iterated with `.get` called on each element. */
  function ListOr(v: Option<Json>): (r: Result<seq<Json>, Raised>)
    ensures !PyValues.Truthy(v) ==> r == Success([])
  {
    if !PyValues.Truthy(v) then Success([])
    else if v.value.JArr? then Success(v.value.items)
    else Failure(Raised)
  }

  /** `str(x).strip().upper()`. */
  function Normalize(s: string): string {
    AsciiUpper(PyStrip(s))
  }

  /** The symbol one genomic interpretation contributes, if any. */
  function SymbolOf(g: Json): Result<Option<string>, Raised> {
    if !g.JObj? then Failure(Raised)
    else
      var vi := DictOr(Lookup(g.members, "variantInterpretation"));
      if vi.Failure? then Failure(Raised)
      else
        var vd := DictOr(Lookup(vi.value, "variationDescriptor"));
        if vd.Failure? then Failure(Raised)
        else
          var gc := DictOr(Lookup(vd.value, "geneContext"));
          if gc.Failure? then Failure(Raised)
          else
            var symbol := Lookup(gc.value, "symbol");
            if PyValues.Truthy(symbol) then Success(Some(Normalize(PyValues.Str(symbol.value))))
            else Success(None)
  }

  /** The genomic interpretations of one interpretation. */
  function GenomicsOf(interpretation: Json): Result<seq<Json>, Raised> {
    if !interpretation.JObj? then Failure(Raised)
    else
      var diagnosis := DictOr(Lookup(interpretation.members, "diagnosis"));
      if diagnosis.Failure? then Failure(Raised)
      else ListOr(Lookup(diagnosis.value, "genomicInterpretations"))
  }

  /** The interpretations of a packet. */
  function InterpretationsOf(packet: Json): Result<seq<Json>, Raised> {
    if !packet.JObj? then Failure(Raised)
    else ListOr(Lookup(packet.members, "interpretations"))
  }

  /** The symbols one genomic interpretation adds to the set. */
  function Lift(r: Result<Option<string>, Raised>): Result<set<string>, Raised> {
    match r
    case Failure(e) => Failure(e)
    case Success(s) => Success(if s.Some? then {s.value} else {})
  }

  /**
   * The union of the sets the visited entries add, in visiting order;
   * the first entry that raises makes it raise.
   */
  function Gather(rs: seq<Result<set<string>, Raised>>): Result<set<string>, Raised> {
    if rs == [] then Success({})
    else
      var front := Gather(rs[..|rs| - 1]);
      var last := rs[|rs| - 1];
      if front.Failure? || last.Failure? then Failure(Raised)
      else Success(front.value + last.value)
  }

  function SymbolSets(gs: seq<Json>): (r: seq<Result<set<string>, Raised>>)
    ensures |r| == |gs| && forall j :: 0 <= j < |gs| ==> r[j] == Lift(SymbolOf(gs[j]))
  {
    seq(|gs|, j requires 0 <= j < |gs| => Lift(SymbolOf(gs[j])))
  }

  function InterpretationSymbols(interpretation: Json): Result<set<string>, Raised> {
    var gs := GenomicsOf(interpretation);
    if gs.Failure? then Failure(Raised) else Gather(SymbolSets(gs.value))
  }

  function InterpretationSets(xs: seq<Json>): (r: seq<Result<set<string>, Raised>>)
    ensures |r| == |xs| && forall i :: 0 <= i < |xs| ==> r[i] == InterpretationSymbols(xs[i])
  {
    seq(|xs|, i requires 0 <= i < |xs| => InterpretationSymbols(xs[i]))
  }

  /** The ground-truth symbols of a packet. */
  function TruthSymbols(packet: Json): Result<set<string>, Raised> {
    var xs := InterpretationsOf(packet);
    if xs.Failure? then Failure(Raised) else Gather(InterpretationSets(xs.value))
  }

  // =====================================================================
  // What the extraction yields

  /** Gathering raises exactly when one of the entries does; otherwise it is the union of their sets. */
  lemma {:induction false} GatherSpec(rs: seq<Result<set<string>, Raised>>)
    ensures Gather(rs).Success? <==> forall i :: 0 <= i < |rs| ==> rs[i].Success?
    ensures Gather(rs).Success? ==>
      forall x :: x in Gather(rs).value <==> exists i :: 0 <= i < |rs| && x in rs[i].value
  {
    if rs != [] {
      var front := rs[..|rs| - 1];
      GatherSpec(front);
      assert forall i :: 0 <= i < |front| ==> front[i] == rs[i];
    }
  }

  /**
   * The extraction succeeds exactly when the interpretations, each one's
   * genomic interpretations and each of those are of a shape it can read;
   * it then yields the normalised symbol of every genomic interpretation
   * of every interpretation that has a truthy one, and nothing else.
   */
  lemma TruthSymbolsSpec(packet: Json, x: string)
    ensures TruthSymbols(packet).Success? <==>
      && InterpretationsOf(packet).Success?
      && var xs := InterpretationsOf(packet).value;
      && forall i :: 0 <= i < |xs| ==>
           && GenomicsOf(xs[i]).Success?
           && forall j :: 0 <= j < |GenomicsOf(xs[i]).value| ==> SymbolOf(GenomicsOf(xs[i]).value[j]).Success?
    ensures TruthSymbols(packet).Success? ==>
      var xs := InterpretationsOf(packet).value;
      (x in TruthSymbols(packet).value <==>
        exists i, j :: 0 <= i < |xs| && 0 <= j < |GenomicsOf(xs[i]).value|
          && SymbolOf(GenomicsOf(xs[i]).value[j]) == Success(Some(x)))
  {
    if InterpretationsOf(packet).Success? {
      var xs := InterpretationsOf(packet).value;
      GatherSpec(InterpretationSets(xs));
      forall i | 0 <= i < |xs| && GenomicsOf(xs[i]).Success? {
        GatherSpec(SymbolSets(GenomicsOf(xs[i]).value));
      }
    }
  }

  /** A packet without interpretations, or where they are null, has no truth symbols and does not raise. */
  lemma NoInterpretationsNoSymbols(members: Members)
    requires Lookup(members, "interpretations").None? || Lookup(members, "interpretations") == Some(JNull)
    ensures TruthSymbols(JObj(members)) == Success({})
  {
  }

  /** An interpretation with no diagnosis, or a null one, contributes nothing and does not raise. */
  lemma NoDiagnosisNoSymbols(members: Members)
    requires Lookup(members, "diagnosis").None? || Lookup(members, "diagnosis") == Some(JNull)
    ensures InterpretationSymbols(JObj(members)) == Success({})
  {
  }

  /** A genomic interpretation without a variantInterpretation, or with a null one, contributes nothing and does not raise. */
  lemma MissingLevelNoSymbol(members: Members)
    requires Lookup(members, "variantInterpretation").None? || Lookup(members, "variantInterpretation") == Some(JNull)
    ensures SymbolOf(JObj(members)) == Success(None)
  {
  }

  // =====================================================================
  // The extraction as the loops compute it

  /** Once a prefix of the entries raises, gathering all of them does. */
  lemma {:induction false} GatherFailurePersists(rs: seq<Result<set<string>, Raised>>, k: nat)
    requires k <= |rs| && Gather(rs[..k]).Failure?
    ensures Gather(rs).Failure?
    decreases |rs| - k
  {
    if k < |rs| {
      assert rs[..k + 1][..k] == rs[..k];
      GatherFailurePersists(rs, k + 1);
    } else {
      assert rs[..k] == rs;
    }
  }

  /** One more entry that does not raise adds its set. */
  lemma GatherStep(rs: seq<Result<set<string>, Raised>>, k: nat)
    requires k < |rs| && Gather(rs[..k]).Success? && rs[k].Success?
    ensures Gather(rs[..k + 1]) == Success(Gather(rs[..k]).value + rs[k].value)
  {
    assert rs[..k + 1][..k] == rs[..k];
  }

  /** One more entry that raises makes the whole list raise. */
  lemma GatherStepFails(rs: seq<Result<set<string>, Raised>>, k: nat)
    requires k < |rs| && rs[k].Failure?
    ensures Gather(rs).Failure?
  {
    assert rs[..k + 1][..k] == rs[..k];
    GatherFailurePersists(rs, k + 1);
  }

  /** The nested loops of the extraction, adding each symbol to one set as it is found. */
  method ExtractTruthGeneSymbols(packet: Json) returns (r: Result<set<string>, Raised>)
    ensures r == TruthSymbols(packet)
  {
    var interpretations := InterpretationsOf(packet);
    if interpretations.Failure? {
      return Failure(Raised);
    }
    var xs := interpretations.value;
    ghost var outer := InterpretationSets(xs);
    var symbols: set<string> := {};
    var i := 0;
    while i < |xs|
      invariant 0 <= i <= |xs|
      invariant Gather(outer[..i]) == Success(symbols)
    {
      var genomics := GenomicsOf(xs[i]);
      if genomics.Failure? {
        GatherStepFails(outer, i);
        return Failure(Raised);
      }
      var gs := genomics.value;
      ghost var inner := SymbolSets(gs);
      ghost var before := symbols;
      var j := 0;
      while j < |gs|
        invariant 0 <= j <= |gs|
        invariant Gather(inner[..j]).Success?
        invariant symbols == before + Gather(inner[..j]).value
      {
        var symbol := SymbolOf(gs[j]);
        if symbol.Failure? {
          GatherStepFails(inner, j);
          GatherStepFails(outer, i);
          return Failure(Raised);
        }
        GatherStep(inner, j);
        if symbol.value.Some? {
          symbols := symbols + {symbol.value.value};
        }
        j := j + 1;
      }
      assert inner[..j] == inner;
      GatherStep(outer, i);
      i := i + 1;
    }
    assert outer[..i] == outer;
    return Success(symbols);
  }

  // =====================================================================
  // The verdict

  /** What reading the packet file gave. */
  datatype PacketFile = Missing | Unparsable | Parsed(data: Json)

  /** The guesses kept: the non-blank strings, normalised. */
  function GuessedSet(guesses: seq<Json>): set<string> {
    set g | g in guesses && g.JStr? && PyStrip(g.s) != "" :: Normalize(g.s)
  }

  /** `check_gene_guess`: "Yes" or "No", or what the extraction raised. */
  function CheckGeneGuess(file: PacketFile, guesses: seq<Json>): Result<string, Raised> {
    match file
    case Missing => Success("No")
    case Unparsable => Success("No")
    case Parsed(data) =>
      var truth := TruthSymbols(data);
      if truth.Failure? then Failure(Raised)
      else
        var guessed := GuessedSet(guesses);
        if truth.value == {} || guessed == {} then Success("No")
        else if truth.value * guessed != {} then Success("Yes")
        else Success("No")
  }

  /**
   * The verdict is "No" for a missing or unreadable file and otherwise
   * "Yes" exactly when some truth symbol is among the normalised guesses
   * (so "No" whenever either side is empty).
   */
  lemma VerdictSpec(file: PacketFile, guesses: seq<Json>)
    ensures !file.Parsed? ==> CheckGeneGuess(file, guesses) == Success("No")
    ensures file.Parsed? ==> (CheckGeneGuess(file, guesses).Failure? <==> TruthSymbols(file.data).Failure?)
    ensures CheckGeneGuess(file, guesses).Success? ==> CheckGeneGuess(file, guesses).value in {"Yes", "No"}
    ensures CheckGeneGuess(file, guesses) == Success("Yes") <==>
      file.Parsed? && TruthSymbols(file.data).Success?
      && exists x :: x in TruthSymbols(file.data).value && x in GuessedSet(guesses)
  {
    if file.Parsed? {
      var t := TruthSymbols(file.data);
      if t.Success? {
        SharedMember(t.value, GuessedSet(guesses));
      }
    }
  }

  /** Two sets share a member exactly when neither is empty and their intersection is not. */
  lemma SharedMember(a: set<string>, b: set<string>)
    ensures (a != {} && b != {} && a * b != {}) <==> exists x :: x in a && x in b
  {
    if exists x :: x in a && x in b {
      var x :| x in a && x in b;
      assert x in a * b;
    }
  }

  /** A guess is kept exactly when it is a string that is not blank, and is kept normalised. */
  lemma GuessedSetMembership(guesses: seq<Json>, x: string)
    ensures x in GuessedSet(guesses) <==>
      exists i :: 0 <= i < |guesses| && guesses[i].JStr? && PyStrip(guesses[i].s) != "" && Normalize(guesses[i].s) == x
  {
    if x in GuessedSet(guesses) {
      var g :| g in guesses && g.JStr? && PyStrip(g.s) != "" && Normalize(g.s) == x;
      var i :| 0 <= i < |guesses| && guesses[i] == g;
    }
  }

  /** The verdict depends on which guesses are made, not on their order or repetition. */
  lemma GuessOrderIrrelevant(file: PacketFile, g1: seq<Json>, g2: seq<Json>)
    requires forall g :: g in g1 <==> g in g2
    ensures CheckGeneGuess(file, g1) == CheckGeneGuess(file, g2)
  {
    assert GuessedSet(g1) == GuessedSet(g2);
  }

  /** Normalisation ignores ASCII case. */
  lemma NormalizeIgnoresCase(s: string)
    ensures Normalize(AsciiLower(s)) == Normalize(s)
    ensures Normalize(AsciiUpper(s)) == Normalize(s)
    ensures PyStrip(AsciiLower(s)) == "" <==> PyStrip(s) == ""
  {
    PyStripCommutesWithCase(s);
    UpperOfLower(PyStrip(s));
    UpperIdempotent(PyStrip(s));
  }

  /** Every string guess lower-cased. */
  function LowerGuesses(guesses: seq<Json>): (r: seq<Json>)
    ensures |r| == |guesses|
    ensures forall i :: 0 <= i < |guesses| ==> r[i] == (if guesses[i].JStr? then JStr(AsciiLower(guesses[i].s)) else guesses[i])
  {
    seq(|guesses|, i requires 0 <= i < |guesses| => if guesses[i].JStr? then JStr(AsciiLower(guesses[i].s)) else guesses[i])
  }

  /** Lower-casing the guesses keeps the same normalised set. */
  lemma GuessedSetLower(guesses: seq<Json>)
    ensures GuessedSet(LowerGuesses(guesses)) == GuessedSet(guesses)
  {
    var lower := LowerGuesses(guesses);
    forall x | x in GuessedSet(guesses) ensures x in GuessedSet(lower) {
      GuessedSetMembership(guesses, x);
      var i :| 0 <= i < |guesses| && guesses[i].JStr? && PyStrip(guesses[i].s) != "" && Normalize(guesses[i].s) == x;
      NormalizeIgnoresCase(guesses[i].s);
      assert lower[i] == JStr(AsciiLower(guesses[i].s));
      assert lower[i].JStr? && PyStrip(lower[i].s) != "" && Normalize(lower[i].s) == x;
      GuessedSetMembership(lower, x);
    }
    forall x | x in GuessedSet(lower) ensures x in GuessedSet(guesses) {
      GuessedSetMembership(lower, x);
      var i :| 0 <= i < |lower| && lower[i].JStr? && PyStrip(lower[i].s) != "" && Normalize(lower[i].s) == x;
      assert guesses[i].JStr? && lower[i].s == AsciiLower(guesses[i].s);
      NormalizeIgnoresCase(guesses[i].s);
      assert PyStrip(guesses[i].s) != "" && Normalize(guesses[i].s) == x;
      GuessedSetMembership(guesses, x);
    }
  }

  /** The verdict does not depend on the case the guesses are written in. */
  lemma GuessCaseIrrelevant(file: PacketFile, guesses: seq<Json>)
    ensures CheckGeneGuess(file, LowerGuesses(guesses)) == CheckGeneGuess(file, guesses)
  {
    GuessedSetLower(guesses);
  }
}
