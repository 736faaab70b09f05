/**
 * The pure parts of the genome browser component: the one-record VCF
 * document (VCF v4.2, sections 1.3 and 1.4) a selected variant becomes,
 * the base-64 data URI that carries it, the INFO column built from the
 * variant's gene and HGVS string, the selection toggle and the colour a
 * track gets from its file's position in the listing.
 */
module IgvBrowser {
  import opened Wrappers
  import opened Text
  import opened Json
  import opened JsValues
  import opened Base64

  // ---------------------------------------------------------------------
  // The VCF document

  const FileFormatLine := "##fileformat=VCFv4.2"
  const ColumnsLine := "#CHROM\tPOS\tID\tREF\tALT\tQUAL\tFILTER\tINFO"
  const VcfHeader := FileFormatLine + "\n" + ColumnsLine + "\n"

  /** The eight columns of the record: ID and QUAL are ".", FILTER is "PASS", a missing INFO is "". */
  function RowFields(chrom: string, pos: string, ref: string, alt: string, info: Option<string>): seq<string> {
    [chrom, pos, ".", ref, alt, ".", "PASS", info.GetOr("")]
  }

  function Row(chrom: string, pos: string, ref: string, alt: string, info: Option<string>): string {
    Join(RowFields(chrom, pos, ref, alt, info), "\t")
  }

  /** The header, the record and a final newline. */
  function VcfText(chrom: string, pos: string, ref: string, alt: string, info: Option<string>): string {
    VcfHeader + Row(chrom, pos, ref, alt, info) + "\n"
  }

  predicate Plain(s: string) {
    '\t' !in s && '\n' !in s
  }

  /** When no value holds a tab, the record splits back into exactly its eight columns. */
  lemma RowSplits(chrom: string, pos: string, ref: string, alt: string, info: Option<string>)
    requires '\t' !in chrom && '\t' !in pos && '\t' !in ref && '\t' !in alt
    requires '\t' !in info.GetOr("")
    ensures Split(Row(chrom, pos, ref, alt, info), '\t') == [chrom, pos, ".", ref, alt, ".", "PASS", info.GetOr("")]
    ensures |Split(Row(chrom, pos, ref, alt, info), '\t')| == 8
  {
    var fs := RowFields(chrom, pos, ref, alt, info);
    assert forall i :: 0 <= i < |fs| ==> '\t' !in fs[i];
    SplitJoin(fs, '\t');
  }

  /** With no newline in any value, the document is the two header lines, the record and an empty last piece. */
  lemma VcfLines(chrom: string, pos: string, ref: string, alt: string, info: Option<string>)
    requires Plain(chrom) && Plain(pos) && Plain(ref) && Plain(alt) && Plain(info.GetOr(""))
    ensures Split(VcfText(chrom, pos, ref, alt, info), '\n')
         == [FileFormatLine, ColumnsLine, Row(chrom, pos, ref, alt, info), ""]
  {
    var row := Row(chrom, pos, ref, alt, info);
    var fs := RowFields(chrom, pos, ref, alt, info);
    NoNewlineInJoin(fs);
    var lines := [FileFormatLine, ColumnsLine, row, ""];
    JoinLines(FileFormatLine, ColumnsLine, row);
    HeaderLinesPlain();
    assert forall i :: 0 <= i < |lines| ==> '\n' !in lines[i];
    SplitJoin(lines, '\n');
  }

  lemma HeaderLinesPlain()
    ensures '\n' !in FileFormatLine && '\n' !in ColumnsLine
  {
    assert forall i :: 0 <= i < |FileFormatLine| ==> FileFormatLine[i] != '\n';
    assert forall i :: 0 <= i < |ColumnsLine| ==> ColumnsLine[i] != '\n';
  }

  lemma JoinLines(a: string, b: string, c: string)
    ensures Join([a, b, c, ""], "\n") == a + "\n" + b + "\n" + c + "\n"
  {
    var lines := [a, b, c, ""];
    assert lines[1..] == [b, c, ""] && lines[1..][1..] == [c, ""] && lines[1..][1..][1..] == [""];
    assert Join([c, ""], "\n") == c + "\n";
  }

  lemma NoNewlineInJoin(fs: seq<string>)
    requires forall i :: 0 <= i < |fs| ==> '\n' !in fs[i]
    ensures '\n' !in Join(fs, "\t")
  {
    if |fs| > 1 {
      NoNewlineInJoin(fs[1..]);
    }
  }

  /** An absent INFO leaves the last column empty. */
  lemma MissingInfoEmpty(chrom: string, pos: string, ref: string, alt: string)
    requires Plain(chrom) && Plain(pos) && Plain(ref) && Plain(alt)
    ensures |Split(Row(chrom, pos, ref, alt, None), '\t')| == 8 && Split(Row(chrom, pos, ref, alt, None), '\t')[7] == ""
    ensures Row(chrom, pos, ref, alt, None) == Row(chrom, pos, ref, alt, Some(""))
  {
    RowSplits(chrom, pos, ref, alt, None);
  }

  // ---------------------------------------------------------------------
  // The data URI

  const DataUriPrefix := "data:text/plain;base64,"

  /** The data URI of the document; btoa() raises when a character is above U+00FF. */
  function CreateVcfDataUri(chrom: string, pos: string, ref: string, alt: string, info: Option<string>): (r: Result<string, string>)
    ensures r.Failure? <==> !IsLatin1(VcfText(chrom, pos, ref, alt, info))
    ensures r.Success? ==> StartsWith(r.value, DataUriPrefix)
    ensures r.Success? ==>
      Decode(r.value[|DataUriPrefix|..]) == Some(Latin1Bytes(VcfText(chrom, pos, ref, alt, info)))
  {
    var text := VcfText(chrom, pos, ref, alt, info);
    match Btoa(text)
    case Failure(e) => Failure(e)
    case Success(b) =>
      BtoaDecodes(text);
      var uri := DataUriPrefix + b;
      assert uri[..|DataUriPrefix|] == DataUriPrefix && uri[|DataUriPrefix|..] == b;
      Success(uri)
  }

  // ---------------------------------------------------------------------
  // The INFO column

  /** Array.prototype.filter(Boolean) on strings and nulls: keeps the non-empty strings. */
  function KeepTruthy(xs: seq<Option<string>>): (r: seq<string>)
    ensures forall i :: 0 <= i < |r| ==> r[i] != ""
    ensures |r| <= |xs|
  {
    if xs == [] then []
    else
      var rest := KeepTruthy(xs[1..]);
      if xs[0].Some? && xs[0].value != "" then [xs[0].value] + rest else rest
  }

  function GenePart(gene: Option<Json>): Option<string> {
    if Truthy(gene) then Some("GENE=" + ToString(gene)) else None
  }

  function HgvsPart(hgvs: Option<Json>): Option<string> {
    if Truthy(hgvs) then Some("HGVS=" + ToString(hgvs)) else None
  }

  /** The INFO string of a variant: its truthy gene and HGVS annotations, in that order, joined by ";". */
  function Info(gene: Option<Json>, hgvs: Option<Json>): string {
    Join(KeepTruthy([GenePart(gene), HgvsPart(hgvs)]), ";")
  }

  /** Joining two optional non-empty parts: the parts present, in order, separated by ";". */
  lemma JoinTwoParts(a: Option<string>, b: Option<string>)
    requires (a.Some? ==> a.value != "") && (b.Some? ==> b.value != "")
    ensures a.None? && b.None? ==> Join(KeepTruthy([a, b]), ";") == ""
    ensures a.Some? && b.None? ==> Join(KeepTruthy([a, b]), ";") == a.value
    ensures a.None? && b.Some? ==> Join(KeepTruthy([a, b]), ";") == b.value
    ensures a.Some? && b.Some? ==> Join(KeepTruthy([a, b]), ";") == a.value + ";" + b.value
  {
    var xs := [a, b];
    assert xs[1..] == [b];
    assert xs[1..][1..] == [];
    if b.Some? {
      assert KeepTruthy(xs[1..]) == [b.value];
    } else {
      assert KeepTruthy(xs[1..]) == [];
    }
    if a.Some? && b.Some? {
      assert KeepTruthy(xs) == [a.value, b.value];
      assert Join([a.value, b.value], ";") == a.value + ";" + b.value;
    }
  }

  /** The four cases of the INFO string. */
  lemma InfoSpec(gene: Option<Json>, hgvs: Option<Json>)
    ensures !Truthy(gene) && !Truthy(hgvs) ==> Info(gene, hgvs) == ""
    ensures Truthy(gene) && !Truthy(hgvs) ==> Info(gene, hgvs) == "GENE=" + ToString(gene)
    ensures !Truthy(gene) && Truthy(hgvs) ==> Info(gene, hgvs) == "HGVS=" + ToString(hgvs)
    ensures Truthy(gene) && Truthy(hgvs) ==>
      Info(gene, hgvs) == "GENE=" + ToString(gene) + ";HGVS=" + ToString(hgvs)
  {
    JoinTwoParts(GenePart(gene), HgvsPart(hgvs));
    assert ("GENE=" + ToString(gene)) + ";" + ("HGVS=" + ToString(hgvs))
        == "GENE=" + ToString(gene) + ";HGVS=" + ToString(hgvs);
  }

  /** With both annotations present and free of ";", the INFO string splits back into the two key=value pairs. */
  lemma InfoSplits(gene: Option<Json>, hgvs: Option<Json>)
    requires Truthy(gene) && Truthy(hgvs)
    requires ';' !in ToString(gene) && ';' !in ToString(hgvs)
    ensures Split(Info(gene, hgvs), ';') == ["GENE=" + ToString(gene), "HGVS=" + ToString(hgvs)]
  {
    InfoSpec(gene, hgvs);
    var parts := ["GENE=" + ToString(gene), "HGVS=" + ToString(hgvs)];
    assert Join(parts, ";") == Info(gene, hgvs);
    assert forall i :: 0 <= i < |parts| ==> ';' !in parts[i];
    SplitJoin(parts, ';');
  }

  /** String(v?.key) for a member of the variant object. */
  function Column(v: Option<Json>, key: string): string {
    ToString(Prop(v, key))
  }

  function VariantInfo(v: Option<Json>): string {
    Info(Prop(v, "gene"), Prop(v, "hgvs"))
  }

  function VariantRow(v: Option<Json>): string {
    Row(Column(v, "chrom"), Column(v, "pos"), Column(v, "ref"), Column(v, "alt"), Some(VariantInfo(v)))
  }

  function VariantText(v: Option<Json>): string {
    VcfText(Column(v, "chrom"), Column(v, "pos"), Column(v, "ref"), Column(v, "alt"), Some(VariantInfo(v)))
  }

  /** The data URI of the track for a variant object as the listing returns it. */
  function VariantTrackUri(v: Option<Json>): (r: Result<string, string>)
    ensures r.Failure? <==> !IsLatin1(VariantText(v))
    ensures r.Success? ==> StartsWith(r.value, DataUriPrefix)
  {
    CreateVcfDataUri(Column(v, "chrom"), Column(v, "pos"), Column(v, "ref"), Column(v, "alt"), Some(VariantInfo(v)))
  }

  /** The track's record has eight columns, the last being the variant's INFO string. */
  lemma VariantTrackColumns(v: Option<Json>)
    requires Plain(Column(v, "chrom")) && Plain(Column(v, "pos"))
    requires Plain(Column(v, "ref")) && Plain(Column(v, "alt"))
    requires Plain(VariantInfo(v))
    ensures |Split(VariantRow(v), '\t')| == 8 && Split(VariantRow(v), '\t')[7] == VariantInfo(v)
  {
    RowSplits(Column(v, "chrom"), Column(v, "pos"), Column(v, "ref"), Column(v, "alt"), Some(VariantInfo(v)));
  }

  // ---------------------------------------------------------------------
  // Selection

  /** The selection with the membership of one file flipped. */
  function Toggled(selected: set<string>, file: string): (r: set<string>)
    ensures file in r <==> file !in selected
    ensures forall f :: f != file ==> (f in r <==> f in selected)
  {
    if file in selected then selected - {file} else selected + {file}
  }

  /** handleFileToggle: copies the selection, deletes or adds the file, and hands the copy back. */
  method HandleFileToggle(selected: set<string>, file: string) returns (newSelected: set<string>)
    ensures newSelected == Toggled(selected, file)
  {
    newSelected := selected;
    if file in newSelected {
      newSelected := newSelected - {file};
    } else {
      newSelected := newSelected + {file};
    }
  }

  /** Toggling the same file twice restores the selection. */
  lemma ToggleTwice(selected: set<string>, file: string)
    ensures Toggled(Toggled(selected, file), file) == selected
  {
    var r := Toggled(Toggled(selected, file), file);
    forall f ensures f in r <==> f in selected {
    }
  }

  /** A toggle changes the number of selected files by exactly one. */
  lemma ToggleSize(selected: set<string>, file: string)
    ensures file in selected ==> |Toggled(selected, file)| == |selected| - 1
    ensures file !in selected ==> |Toggled(selected, file)| == |selected| + 1
  {
  }

  // ---------------------------------------------------------------------
  // Track colours

  const Palette: seq<string> := ["#1f77b4", "#ff7f0e", "#2ca02c", "#d62728", "#9467bd",
                                 "#8c564b", "#e377c2", "#7f7f7f", "#bcbd22", "#17becf"]

  /** Array.prototype.findIndex on the file names: the first position of file, or -1. */
  function FindIndex(files: seq<string>, file: string): (r: int)
    ensures -1 <= r < |files|
    ensures r == -1 <==> file !in files
    ensures r >= 0 ==> files[r] == file && file !in files[..r]
  {
    if files == [] then -1
    else if files[0] == file then 0
    else
      var k := FindIndex(files[1..], file);
      assert files[1..][..if k < 0 then 0 else k] == files[1..if k < 0 then 1 else k + 1];
      if k == -1 then -1 else k + 1
  }

  /** JavaScript's %, whose result takes the sign of the dividend. */
  function JsRemainder(a: int, n: int): (r: int)
    requires n > 0
    ensures a >= 0 ==> 0 <= r < n && r == a % n
    ensures a < 0 ==> -n < r <= 0 && r == -((-a) % n)
  {
    if a >= 0 then a % n else -((-a) % n)
  }

  /** colors[index]: a palette entry, or undefined (None) for an index outside it. */
  function TrackColor(files: seq<string>, file: string): Option<string> {
    var index := JsRemainder(FindIndex(files, file), |Palette|);
    if 0 <= index < |Palette| then Some(Palette[index]) else None
  }

  /** A listed file gets the palette entry of its first position modulo 10; an unlisted one gets undefined. */
  lemma TrackColorSpec(files: seq<string>, file: string)
    ensures file !in files ==> TrackColor(files, file) == None
    ensures forall i :: 0 <= i < |files| && files[i] == file && file !in files[..i] ==>
      TrackColor(files, file) == Some(Palette[i % 10])
  {
    forall i | 0 <= i < |files| && files[i] == file && file !in files[..i]
      ensures TrackColor(files, file) == Some(Palette[i % 10])
    {
      FindIndexAt(files, file, i);
    }
  }

  /** findIndex returns the first position holding the file. */
  lemma {:induction false} FindIndexAt(files: seq<string>, file: string, i: nat)
    requires i < |files| && files[i] == file && file !in files[..i]
    ensures FindIndex(files, file) == i
  {
    if i > 0 {
      assert files[..i][0] == files[0];
      assert files[1..][..i - 1] == files[1..i];
      assert forall y :: y in files[1..i] ==> y in files[..i];
      FindIndexAt(files[1..], file, i - 1);
    }
  }

  /** Among the first ten positions of a listing of distinct files, no two tracks share a colour. */
  lemma FirstTenColorsDistinct(files: seq<string>, i: nat, j: nat)
    requires i < j < |files| && j < 10
    requires forall a, b :: 0 <= a < b < |files| ==> files[a] != files[b]
    ensures TrackColor(files, files[i]) != TrackColor(files, files[j])
  {
    ColorAt(files, i);
    ColorAt(files, j);
    ModTen(i, 0);
    ModTen(j, 0);
    assert TrackColor(files, files[i]) == Some(Palette[i]);
    assert TrackColor(files, files[j]) == Some(Palette[j]);
    PaletteDistinct(i, j);
  }

  /** Positions ten apart share a colour. */
  lemma ColorsRepeatEveryTen(files: seq<string>, i: nat)
    requires i + 10 < |files|
    requires forall a, b :: 0 <= a < b < |files| ==> files[a] != files[b]
    ensures TrackColor(files, files[i]) == TrackColor(files, files[i + 10])
  {
    ColorAt(files, i);
    ColorAt(files, i + 10);
    ModTen(i % 10, i / 10);
    ModTen(i % 10, i / 10 + 1);
  }

  lemma ModTen(r: nat, q: nat)
    requires r < 10
    ensures (q * 10 + r) % 10 == r
  {
  }

  /** In a listing of distinct files, the file at position i gets the palette entry i mod 10. */
  lemma ColorAt(files: seq<string>, i: nat)
    requires i < |files|
    requires forall a, b :: 0 <= a < b < |files| ==> files[a] != files[b]
    ensures TrackColor(files, files[i]) == Some(Palette[i % 10])
  {
    assert files[i] !in files[..i];
    FindIndexAt(files, files[i], i);
  }

  lemma PaletteDistinct(i: nat, j: nat)
    requires i < j < 10
    ensures Palette[i] != Palette[j]
  {
    var firsts := "1f2d98e7b1";
    assert forall k :: 0 <= k < 10 ==> Palette[k][1] == firsts[k];
    if firsts[i] == firsts[j] {
      assert i == 0 && j == 9;
      assert Palette[0][2] != Palette[9][2];
    }
  }
}
