/**
 * The phenotype extraction schema: an HPO item is an object with an id
 * of the form `HP:` and seven digits, a string label and a confidence
 * between 0 and 1; a phenotype document is an object with a non-empty
 * phenotype_text and an array of HPO items. Parsing keeps the three (or
 * two) declared members and drops any other.
 */
module PhenotypeSchema {
  import opened Wrappers
  import opened Text
  import opened Json
  import HpoGeneIndex

  datatype HpoItem = HpoItem(id: string, labelText: string, confidence: real)

  datatype Phenotype = Phenotype(phenotypeText: string, hpo: seq<HpoItem>)

  /** `/^HP:\d{7}$/`: the prefix `HP:` followed by exactly seven ASCII digits. */
  predicate IsHpoItemId(s: string) {
    |s| == 10 && s[..3] == "HP:" && AllDigits(s[3..])
  }

  /** `z.number()`: a JSON number, written with or without a fraction. */
  function NumberOf(v: Option<Json>): (r: Option<real>)
    ensures r.Some? <==> v.Some? && (v.value.JInt? || v.value.JFloat?)
  {
    match v
    case Some(JInt(i)) => Some(i as real)
    case Some(JFloat(x)) => Some(x)
    case _ => None
  }

  /** `HPOItem.safeParse(j)`: the item, or None when any member fails its check. */
  function ParseHpoItem(j: Json): Option<HpoItem> {
    if !j.JObj? then None
    else
      var id := Lookup(j.members, "id");
      var lbl := Lookup(j.members, "label");
      var c := NumberOf(Lookup(j.members, "confidence"));
      if id.Some? && id.value.JStr? && IsHpoItemId(id.value.s) && lbl.Some? && lbl.value.JStr?
         && c.Some? && 0.0 <= c.value <= 1.0
      then Some(HpoItem(id.value.s, lbl.value.s, c.value))
      else None
  }

  /** An array of items parses when every element does, into the items in array order. */
  function ParseItems(xs: seq<Json>): (r: Option<seq<HpoItem>>)
    ensures r.Some? <==> forall i :: 0 <= i < |xs| ==> ParseHpoItem(xs[i]).Some?
    ensures r.Some? ==> |r.value| == |xs| && forall i :: 0 <= i < |xs| ==> r.value[i] == ParseHpoItem(xs[i]).value
  {
    if xs == [] then Some([])
    else
      var item := ParseHpoItem(xs[0]);
      var rest := ParseItems(xs[1..]);
      assert forall i :: 1 <= i < |xs| ==> xs[i] == xs[1..][i - 1];
      if item.Some? && rest.Some? then Some([item.value] + rest.value) else None
  }

  /** `PhenotypeJSON.safeParse(j)`. */
  function ParsePhenotype(j: Json): Option<Phenotype> {
    if !j.JObj? then None
    else
      var text := Lookup(j.members, "phenotype_text");
      var hpo := Lookup(j.members, "hpo");
      if text.Some? && text.value.JStr? && |text.value.s| >= 1 && hpo.Some? && hpo.value.JArr? then
        var items := ParseItems(hpo.value.items);
        if items.Some? then Some(Phenotype(text.value.s, items.value)) else None
      else None
  }

  // =====================================================================
  // The schema stated declaratively, and what the parsers return

  predicate IsNumber(v: Option<Json>) {
    v.Some? && (v.value.JInt? || v.value.JFloat?)
  }

  function NumberValue(v: Option<Json>): real
    requires IsNumber(v)
  {
    if v.value.JInt? then v.value.i as real else v.value.r
  }

  predicate ValidItem(j: Json) {
    && j.JObj?
    && var id := Member(j, "id");
    && var lbl := Member(j, "label");
    && var c := Member(j, "confidence");
    && id.Some? && id.value.JStr? && IsHpoItemId(id.value.s)
    && lbl.Some? && lbl.value.JStr?
    && IsNumber(c) && 0.0 <= NumberValue(c) <= 1.0
  }

  predicate ValidPhenotype(j: Json) {
    && j.JObj?
    && var text := Member(j, "phenotype_text");
    && var hpo := Member(j, "hpo");
    && text.Some? && text.value.JStr? && text.value.s != ""
    && hpo.Some? && hpo.value.JArr?
    && forall i :: 0 <= i < |hpo.value.items| ==> ValidItem(hpo.value.items[i])
  }

  /**
   * An item is accepted exactly when it is valid, and then carries the
   * id, label and confidence of the object unchanged.
   */
  lemma ParseHpoItemSpec(j: Json)
    ensures ParseHpoItem(j).Some? <==> ValidItem(j)
    ensures ParseHpoItem(j).Some? ==>
      var item := ParseHpoItem(j).value;
      && Member(j, "id") == Some(JStr(item.id))
      && Member(j, "label") == Some(JStr(item.labelText))
      && item.confidence == NumberValue(Member(j, "confidence"))
  {
  }

  /**
   * A document is accepted exactly when it is valid; an empty hpo array is
   * valid, and the items come out in array order.
   */
  lemma ParsePhenotypeSpec(j: Json)
    ensures ParsePhenotype(j).Some? <==> ValidPhenotype(j)
    ensures ParsePhenotype(j).Some? ==>
      var p := ParsePhenotype(j).value;
      var xs := Member(j, "hpo").value.items;
      && Member(j, "phenotype_text") == Some(JStr(p.phenotypeText))
      && |p.hpo| == |xs|
      && forall i :: 0 <= i < |xs| ==> ParseHpoItem(xs[i]) == Some(p.hpo[i])
  {
    if j.JObj? && Member(j, "hpo").Some? && Member(j, "hpo").value.JArr? {
      var xs := Member(j, "hpo").value.items;
      forall i | 0 <= i < |xs| ensures ParseHpoItem(xs[i]).Some? <==> ValidItem(xs[i]) {
        ParseHpoItemSpec(xs[i]);
      }
    }
  }

  /** The confidence bound is the closed interval: 0 and 1 are accepted, anything outside is not. */
  lemma ConfidenceInterval(id: string, labelText: string, c: real)
    requires IsHpoItemId(id)
    ensures var j := JObj([("id", JStr(id)), ("label", JStr(labelText)), ("confidence", JFloat(c))]);
      ParseHpoItem(j).Some? <==> 0.0 <= c <= 1.0
  {
    var ms := [("id", JStr(id)), ("label", JStr(labelText)), ("confidence", JFloat(c))];
    assert Lookup(ms, "id") == Some(JStr(id));
    assert Lookup(ms, "label") == Some(JStr(labelText));
    assert ms[1..][1..] == [("confidence", JFloat(c))];
    assert Lookup(ms[1..][1..], "confidence") == Some(JFloat(c));
  }

  // =====================================================================
  // Item ids and the ranking engine's term filter

  /** Every item id is a term the gene index accepts, and query normalisation leaves it unchanged. */
  lemma ItemIdIsTerm(s: string)
    requires IsHpoItemId(s)
    ensures HpoGeneIndex.IsHpoTerm(s)
    ensures HpoGeneIndex.NormalizeQueryTerm(s) == s
  {
    HpoGeneIndex.NormalizeFixesTerm(s);
  }

  /** The item id is stricter than the index's `^HP:\d+$`: a term with fewer digits is not an item id. */
  lemma ItemIdStricterThanTerm()
    ensures HpoGeneIndex.IsHpoTerm("HP:1") && !IsHpoItemId("HP:1")
    ensures HpoGeneIndex.IsHpoTerm("HP:00000001") && !IsHpoItemId("HP:00000001")
  {
    assert "HP:1"[3..] == "1";
    assert "HP:00000001"[3..] == "00000001";
  }

  /** Item ids pass the query filter of the ranking engine unchanged and in order. */
  lemma ItemIdsQueryUnchanged(ids: seq<string>)
    requires forall i :: 0 <= i < |ids| ==> IsHpoItemId(ids[i])
    ensures HpoGeneIndex.Wanted(ids) == ids
  {
    forall i | 0 <= i < |ids| ensures HpoGeneIndex.IsHpoTerm(ids[i]) {
      ItemIdIsTerm(ids[i]);
    }
    HpoGeneIndex.WantedKeepsTerms(ids);
  }

  function IdsOf(items: seq<HpoItem>): (r: seq<string>)
    ensures |r| == |items| && forall i :: 0 <= i < |items| ==> r[i] == items[i].id
  {
    seq(|items|, i requires 0 <= i < |items| => items[i].id)
  }

  /** Every id in a parsed document is an item id, so all of them reach the ranking unchanged. */
  lemma ParsedIdsQueryUnchanged(j: Json)
    requires ParsePhenotype(j).Some?
    ensures HpoGeneIndex.Wanted(IdsOf(ParsePhenotype(j).value.hpo)) == IdsOf(ParsePhenotype(j).value.hpo)
  {
    ParsePhenotypeSpec(j);
    var p := ParsePhenotype(j).value;
    var xs := Member(j, "hpo").value.items;
    forall i | 0 <= i < |p.hpo| ensures IsHpoItemId(p.hpo[i].id) {
      assert ParseHpoItem(xs[i]) == Some(p.hpo[i]);
    }
    ItemIdsQueryUnchanged(IdsOf(p.hpo));
  }
}
