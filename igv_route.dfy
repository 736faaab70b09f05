/**
 * The phenopacket listing route: it picks the first ten `.json` files of
 * the packet directory in sorted order and reports, for each, its packet
 * id and the variant of its first interpretation.
 *
 * The directory listing and each file's read are inputs: a listing is the
 * names or the message of the error raised, a read is the parse of the
 * file's text (None when JSON.parse throws) or the message of the error.
 */
module IgvRoute {
  import opened Wrappers
  import opened Text
  import opened Json
  import opened JsValues
  import opened Sorting

  /** The variant shown for a packet. gene, hgvs and assembly are None where the route sends null. */
  datatype Variant = Variant(chrom: string, pos: Num, ref: string, alt: string,
                             gene: Option<Json>, hgvs: Option<Json>, assembly: Option<Json>)

  /** `e?.syntax === "hgvs.c"`. */
  predicate IsHgvsC(e: Json) {
    Prop(Some(e), "syntax") == Some(JStr("hgvs.c"))
  }

  /** `xs.find(e => e?.syntax === "hgvs.c")`: the first expression with that syntax. */
  function FindHgvsC(xs: seq<Json>): (r: Option<Json>)
    ensures r.None? <==> forall i :: 0 <= i < |xs| ==> !IsHgvsC(xs[i])
    ensures r.Some? ==> exists i :: 0 <= i < |xs| && xs[i] == r.value && IsHgvsC(xs[i]) &&
                          forall j :: 0 <= j < i ==> !IsHgvsC(xs[j])
  {
    if xs == [] then None
    else if IsHgvsC(xs[0]) then Some(xs[0])
    else
      var r := FindHgvsC(xs[1..]);
      assert forall i :: 1 <= i < |xs| ==> xs[i] == xs[1..][i - 1];
      assert r.Some? ==> exists i :: 0 <= i < |xs| && xs[i] == r.value && IsHgvsC(xs[i]) &&
                            forall j :: 0 <= j < i ==> !IsHgvsC(xs[j]) by {
        if r.Some? {
          var i :| 0 <= i < |xs[1..]| && xs[1..][i] == r.value && IsHgvsC(xs[1..][i]) &&
                   forall j :: 0 <= j < i ==> !IsHgvsC(xs[1..][j]);
          assert xs[i + 1] == r.value;
          forall j | 0 <= j < i + 1 ensures !IsHgvsC(xs[j]) {
            if j > 0 { assert xs[j] == xs[1..][j - 1]; }
          }
        }
      }
      r
  }

  /** The variation descriptor of the first genomic interpretation of the first interpretation. */
  function Descriptor(ppk: Json): Option<Json> {
    var interp := Index0(Prop(Some(ppk), "interpretations"));
    var genomic := Index0(Prop(Prop(interp, "diagnosis"), "genomicInterpretations"));
    Prop(Prop(genomic, "variantInterpretation"), "variationDescriptor")
  }

  /** The hgvs.c value: null unless expressions is an array holding such an expression with a non-null value. */
  function HgvsOf(v: Option<Json>): (r: Option<Json>)
    ensures r.Some? ==> !r.value.JNull?
  {
    var exprs := Prop(v, "expressions");
    if exprs.Some? && exprs.value.JArr? then OrNull(Prop(FindHgvsC(exprs.value.items), "value")) else None
  }

  /**
   * extractVariant. When chrom, pos, ref and alt of the VCF record are
   * all truthy they are converted with String() and Number(); a
   * conversion that raises a TypeError is caught and the packet shows no
   * variant. Reading members of parsed JSON never raises.
   */
  function ExtractVariant(ppk: Json): Option<Variant> {
    var v := Descriptor(ppk);
    var vcf := Prop(v, "vcfRecord");
    match RecordFields(vcf)
    case None => None
    case Some((chrom, pos, ref, alt)) =>
      Some(Variant(chrom, pos, ref, alt,
        OrNull(Prop(Prop(v, "geneContext"), "symbol")),
        HgvsOf(v),
        OrNull(Prop(vcf, "genomeAssembly"))))
  }

  /** String(chrom), Number(pos), String(ref) and String(alt) of a record whose four members are truthy. */
  function RecordFields(vcf: Option<Json>): Option<(string, Num, string, string)> {
    if Truthy(Prop(vcf, "chrom")) && Truthy(Prop(vcf, "pos")) && Truthy(Prop(vcf, "ref")) && Truthy(Prop(vcf, "alt")) then
      var chrom := TryToString(Prop(vcf, "chrom"));
      var pos := TryToNumber(Prop(vcf, "pos"));
      var ref := TryToString(Prop(vcf, "ref"));
      var alt := TryToString(Prop(vcf, "alt"));
      if chrom.Failure? || pos.Failure? || ref.Failure? || alt.Failure? then None
      else Some((chrom.value, pos.value, ref.value, alt.value))
    else None
  }

  /** None of chrom, pos, ref and alt raises when converted. */
  predicate FieldsConvert(vcf: Option<Json>) {
    && !ConversionThrows(Prop(vcf, "chrom")) && !ConversionThrows(Prop(vcf, "pos"))
    && !ConversionThrows(Prop(vcf, "ref")) && !ConversionThrows(Prop(vcf, "alt"))
  }

  /**
   * A variant is reported exactly when chrom, pos, ref and alt of the
   * first descriptor's VCF record are all truthy and none of them raises
   * when converted; its fields are those members' String() and Number(),
   * and gene and assembly are copied unless null.
   */
  lemma ExtractVariantSpec(ppk: Json)
    ensures var vcf := Prop(Descriptor(ppk), "vcfRecord");
      ExtractVariant(ppk).Some? <==>
        && Truthy(Prop(vcf, "chrom")) && Truthy(Prop(vcf, "pos")) && Truthy(Prop(vcf, "ref")) && Truthy(Prop(vcf, "alt"))
        && FieldsConvert(vcf)
    ensures ExtractVariant(ppk).Some? ==>
      var v := Descriptor(ppk);
      var vcf := Prop(v, "vcfRecord");
      var x := ExtractVariant(ppk).value;
      && x.chrom == ToString(Prop(vcf, "chrom")) && x.pos == ToNumber(Prop(vcf, "pos"))
      && x.ref == ToString(Prop(vcf, "ref")) && x.alt == ToString(Prop(vcf, "alt"))
      && (x.gene.Some? <==> Prop(Prop(v, "geneContext"), "symbol").Some? && !Prop(Prop(v, "geneContext"), "symbol").value.JNull?)
      && (x.gene.Some? ==> x.gene == Prop(Prop(v, "geneContext"), "symbol"))
      && (x.assembly.Some? <==> Prop(vcf, "genomeAssembly").Some? && !Prop(vcf, "genomeAssembly").value.JNull?)
      && (x.assembly.Some? ==> x.assembly == Prop(vcf, "genomeAssembly"))
      && x.hgvs == HgvsOf(v)
  {
  }

  /** The catch branch: when converting any of the four fields raises, the packet shows no variant. */
  lemma CaughtConversionGivesNull(ppk: Json)
    requires !FieldsConvert(Prop(Descriptor(ppk), "vcfRecord"))
    ensures ExtractVariant(ppk).None?
  {
    ExtractVariantSpec(ppk);
  }

  /**
   * A record whose chrom, ref and alt are non-empty strings and whose pos
   * is a non-zero integer yields exactly those values.
   */
  lemma PlainFieldsShown(vcf: Option<Json>, chrom: string, pos: int, ref: string, alt: string)
    requires && Prop(vcf, "chrom") == Some(JStr(chrom)) && Prop(vcf, "pos") == Some(JInt(pos))
             && Prop(vcf, "ref") == Some(JStr(ref)) && Prop(vcf, "alt") == Some(JStr(alt))
    requires chrom != "" && pos != 0 && ref != "" && alt != ""
    ensures RecordFields(vcf) == Some((chrom, Finite(pos as real), ref, alt))
  {
    assert TryToString(Some(JStr(chrom))) == Success(chrom);
    assert TryToNumber(Some(JInt(pos))) == Success(Finite(pos as real));
    assert TryToString(Some(JStr(ref))) == Success(ref);
    assert TryToString(Some(JStr(alt))) == Success(alt);
  }

  /** A record with chrom {"toString": 1} yields nothing: String() raises and the error is caught. */
  lemma OwnToStringWitness()
    ensures RecordFields(Some(JObj([("chrom", JObj([("toString", JInt(1))])), ("pos", JInt(43045711)),
                                    ("ref", JStr("G")), ("alt", JStr("A"))]))) == None
  {
    var record := [("chrom", JObj([("toString", JInt(1))])), ("pos", JInt(43045711)), ("ref", JStr("G")), ("alt", JStr("A"))];
    assert Prop(Some(JObj(record)), "chrom") == Some(JObj([("toString", JInt(1))]));
    assert Lookup([("toString", JInt(1))], "toString").Some?;
  }

  /**
   * The hgvs field is the value of the first expression whose syntax is
   * hgvs.c; it is null when expressions is not an array or holds no such
   * expression.
   */
  lemma HgvsSpec(v: Option<Json>)
    ensures !(Prop(v, "expressions").Some? && Prop(v, "expressions").value.JArr?) ==> HgvsOf(v).None?
    ensures Prop(v, "expressions").Some? && Prop(v, "expressions").value.JArr? ==>
      var xs := Prop(v, "expressions").value.items;
      && ((forall i :: 0 <= i < |xs| ==> !IsHgvsC(xs[i])) ==> HgvsOf(v).None?)
      && (forall i :: 0 <= i < |xs| && IsHgvsC(xs[i]) && (forall j :: 0 <= j < i ==> !IsHgvsC(xs[j])) ==>
            HgvsOf(v) == OrNull(Prop(Some(xs[i]), "value")))
  {
    var exprs := Prop(v, "expressions");
    if exprs.Some? && exprs.value.JArr? {
      var xs := exprs.value.items;
      forall i | 0 <= i < |xs| && IsHgvsC(xs[i]) && (forall j :: 0 <= j < i ==> !IsHgvsC(xs[j]))
        ensures HgvsOf(v) == OrNull(Prop(Some(xs[i]), "value"))
      {
        var f := FindHgvsC(xs);
        var k :| 0 <= k < |xs| && xs[k] == f.value && IsHgvsC(xs[k]) && forall j :: 0 <= j < k ==> !IsHgvsC(xs[j]);
        assert !(k < i) && !(i < k);
      }
    }
  }

  /** A packet whose VCF record has position 0 shows no variant, nor does one with an empty chromosome. */
  lemma FalsyFieldsGiveNull(ppk: Json)
    ensures Prop(Prop(Descriptor(ppk), "vcfRecord"), "pos") == Some(JInt(0)) ==> ExtractVariant(ppk).None?
    ensures Prop(Prop(Descriptor(ppk), "vcfRecord"), "chrom") == Some(JStr("")) ==> ExtractVariant(ppk).None?
  {
    ExtractVariantSpec(ppk);
    assert !Truthy(Some(JInt(0))) && !Truthy(Some(JStr("")));
  }

  // =====================================================================
  // The listing

  const MaxListed: nat := 10

  /** `all.filter(f => f.endsWith(".json"))`. */
  function JsonNames(names: seq<string>): (r: seq<string>)
    ensures forall x :: x in r <==> x in names && EndsWith(x, ".json")
  {
    if names == [] then []
    else (if EndsWith(names[0], ".json") then [names[0]] else []) + JsonNames(names[1..])
  }

  lemma {:induction false} JsonNamesDistinct(names: seq<string>)
    requires Distinct(names)
    ensures Distinct(JsonNames(names))
  {
    if names != [] {
      JsonNamesDistinct(names[1..]);
      assert names[0] !in names[1..];
    }
  }

  /** The files listed: the `.json` names, sorted, at most the first ten. */
  function Selected(names: seq<string>): (r: seq<string>)
    requires Distinct(names)
  {
    JsonNamesDistinct(names);
    var sorted := SortStrings(JsonNames(names));
    if |sorted| <= MaxListed then sorted else sorted[..MaxListed]
  }

  /**
   * The selection is ascending, holds only `.json` names of the
   * directory, as many of them as there are up to ten, and every `.json`
   * name left out sorts after every one kept.
   */
  lemma SelectedSpec(names: seq<string>)
    requires Distinct(names)
    ensures var r := Selected(names);
      && Ascending(r)
      && |r| == (if |JsonNames(names)| <= MaxListed then |JsonNames(names)| else MaxListed)
      && (forall x :: x in r ==> x in names && EndsWith(x, ".json"))
      && (forall x, y :: x in r && y in names && EndsWith(y, ".json") && y !in r ==> StrLt(x, y))
  {
    JsonNamesDistinct(names);
    var sorted := SortStrings(JsonNames(names));
    var r := Selected(names);
    forall x, y | x in r && y in names && EndsWith(y, ".json") && y !in r ensures StrLt(x, y) {
      var i :| 0 <= i < |r| && r[i] == x;
      assert sorted[i] == x;
      var rest := sorted[|r|..];
      assert sorted == r + rest;
      assert y in rest;
      var j :| 0 <= j < |rest| && rest[j] == y;
      assert sorted[|r| + j] == y;
    }
    forall x | x in r ensures x in names && EndsWith(x, ".json") {
      var i :| 0 <= i < |r| && r[i] == x;
      assert sorted[i] == x;
    }
  }

  /** One listed file: its name, `data?.id ?? null` and its variant. */
  datatype ListEntry = ListEntry(file: string, id: Option<Json>, variant: Option<Variant>)

  /** The entry for a file whose text parsed to `data` (None when JSON.parse threw). */
  function EntryOf(file: string, data: Option<Json>): (r: ListEntry)
    ensures r.file == file
    ensures r.id.Some? <==> data.Some? && data.value.JObj? && Member(data.value, "id").Some? && !Member(data.value, "id").value.JNull?
    ensures r.id.Some? ==> r.id == Member(data.value, "id")
    ensures data.None? ==> r.id.None? && r.variant.None?
    ensures r.variant.Some? ==> Truthy(data) && r.variant == ExtractVariant(data.value)
    ensures Truthy(data) ==> r.variant == ExtractVariant(data.value)
    ensures !Truthy(data) ==> r.variant.None?
  {
    ListEntry(file, OrNull(Prop(data, "id")), if Truthy(data) then ExtractVariant(data.value) else None)
  }

  /** `err?.message ?? "Failed to read phenopackets"`. */
  function ErrorMessage(message: Option<string>): string {
    message.GetOr("Failed to read phenopackets")
  }

  /**
   * The route: lists the directory, then reads the selected files in
   * order; the first error, from the listing or any read, ends the route
   * with that error's message.
   */
  method Phenopackets(listing: Result<seq<string>, Option<string>>, read: string -> Result<Option<Json>, Option<string>>)
    returns (r: Result<seq<ListEntry>, string>)
    requires listing.Success? ==> Distinct(listing.value)
    ensures listing.Failure? ==> r == Failure(ErrorMessage(listing.error))
    ensures listing.Success? ==>
      var files := Selected(listing.value);
      && (r.Success? <==> forall k :: 0 <= k < |files| ==> read(files[k]).Success?)
      && (r.Success? ==>
            && |r.value| == |files|
            && forall k :: 0 <= k < |files| ==> r.value[k] == EntryOf(files[k], read(files[k]).value))
      && (r.Failure? ==>
            exists k ::
              && 0 <= k < |files| && read(files[k]).Failure?
              && r.error == ErrorMessage(read(files[k]).error)
              && forall j :: 0 <= j < k ==> read(files[j]).Success?)
  {
    if listing.Failure? {
      return Failure(ErrorMessage(listing.error));
    }
    var files := Selected(listing.value);
    var results: seq<ListEntry> := [];
    var i := 0;
    while i < |files|
      invariant 0 <= i <= |files|
      invariant |results| == i
      invariant forall k :: 0 <= k < i ==> read(files[k]).Success? && results[k] == EntryOf(files[k], read(files[k]).value)
    {
      var text := read(files[i]);
      if text.Failure? {
        return Failure(ErrorMessage(text.error));
      }
      results := results + [EntryOf(files[i], text.value)];
      i := i + 1;
    }
    return Success(results);
  }

  // =====================================================================
  // The response body

  /** JSON.stringify of a number: NaN is written as null. */
  function NumJson(n: Num): Json {
    match n
    case Finite(x) => if x.Floor as real == x then JInt(x.Floor) else JFloat(x)
    case NaN => JNull
  }

  function NullOr(v: Option<Json>): Json {
    v.GetOr(JNull)
  }

  function VariantJson(v: Option<Variant>): Json {
    match v
    case None => JNull
    case Some(x) => JObj([("chrom", JStr(x.chrom)), ("pos", NumJson(x.pos)), ("ref", JStr(x.ref)), ("alt", JStr(x.alt)),
                          ("gene", NullOr(x.gene)), ("hgvs", NullOr(x.hgvs)), ("assembly", NullOr(x.assembly))])
  }

  function EntryJson(e: ListEntry): (r: Json)
    ensures Member(r, "file") == Some(JStr(e.file))
    ensures Member(r, "id") == Some(NullOr(e.id))
    ensures Member(r, "variant") == Some(VariantJson(e.variant))
  {
    var members := [("file", JStr(e.file)), ("id", NullOr(e.id)), ("variant", VariantJson(e.variant))];
    assert Lookup(members[1..], "id") == Some(NullOr(e.id));
    assert Lookup(members[1..][1..], "variant") == Some(VariantJson(e.variant));
    JObj(members)
  }

  /** The reply: 200 with `{files: [...]}`, or 500 with `{error: message}`. */
  function ResponseOf(r: Result<seq<ListEntry>, string>): (out: (int, Json))
    ensures out.0 == 200 <==> r.Success?
    ensures out.0 == 500 <==> r.Failure?
    ensures r.Success? ==>
      && Member(out.1, "files").Some? && Member(out.1, "files").value.JArr?
      && |Member(out.1, "files").value.items| == |r.value|
      && forall k :: 0 <= k < |r.value| ==>
           && Member(Member(out.1, "files").value.items[k], "file") == Some(JStr(r.value[k].file))
           && Member(Member(out.1, "files").value.items[k], "id") == Some(NullOr(r.value[k].id))
           && Member(Member(out.1, "files").value.items[k], "variant") == Some(VariantJson(r.value[k].variant))
    ensures r.Failure? ==> Member(out.1, "error") == Some(JStr(r.error))
  {
    match r
    case Success(entries) =>
      (200, JObj([("files", JArr(seq(|entries|, k requires 0 <= k < |entries| => EntryJson(entries[k]))))]))
    case Failure(message) => (500, JObj([("error", JStr(message))]))
  }
}
