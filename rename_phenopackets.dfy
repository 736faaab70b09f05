/**
 * Copying a phenopacket store under content-derived ids. Each packet gets
 * the id `<prefix>-<12 hex digits of its content hash>`; when another
 * source file already holds that id, the id is made unique with a short
 * hash of the file's path and, if need be, a numeric suffix. The packet's
 * subject.id is rewritten to the new id.
 *
 * The two hashes (SHA-256 prefixes) are inputs: `contentHash` of a packet
 * and `pathHash` of a path. File contents are given already parsed, and
 * the written files and mapping rows are returned rather than written.
 */
module RenamePhenopackets {
  import opened Wrappers
  import opened Text
  import opened Json
  import opened Sorting

  function BaseId(prefix: string, contentHash: string): string {
    prefix + "-" + contentHash
  }

  function AltId(base: string, pathHash: string): string {
    base + "-" + pathHash
  }

  /** The k-th id tried after a collision: the alternative id, then it followed by -2, -3, and so on. */
  function Candidate(alt: string, k: nat): string
    requires k >= 1
  {
    if k == 1 then alt else alt + "-" + NatToDecimal(k)
  }

  /** The candidates are pairwise distinct. */
  lemma CandidateDistinct(alt: string, j: nat, k: nat)
    requires j >= 1 && k >= 1 && j != k
    ensures Candidate(alt, j) != Candidate(alt, k)
  {
    if j >= 2 && k >= 2 && Candidate(alt, j) == Candidate(alt, k) {
      assert Candidate(alt, j)[|alt| + 1..] == NatToDecimal(j);
      assert Candidate(alt, k)[|alt| + 1..] == NatToDecimal(k);
      NatToDecimalInjective(j, k);
    }
  }

  /**
   * What one id assignment may do, for a packet with content hash h from
   * `source`, taking the registry from t0 to t1 and returning (id, collided).
   */
  ghost predicate IsAssignment(t0: map<string, string>, t1: map<string, string>, prefix: string,
                               h: string, pathHash: string, source: string, id: string, collided: bool) {
    var base := BaseId(prefix, h);
    var alt := AltId(base, pathHash);
    && t1 == t0[id := source]
    && (id in t0 ==> t0[id] == source)
    && (base !in t0 ==> id == base && !collided)
    && (base in t0 && t0[base] == source ==> id == base && !collided)
    && (base in t0 && t0[base] != source ==>
          collided && exists k: nat :: k >= 1 && FirstUsable(t0, alt, source, id, k))
  }

  /** id is the k-th candidate, and every earlier candidate is held by another source. */
  ghost predicate FirstUsable(t0: map<string, string>, alt: string, source: string, id: string, k: nat)
    requires k >= 1
  {
    && id == Candidate(alt, k)
    && forall j: nat :: 1 <= j < k ==> Candidate(alt, j) in t0 && t0[Candidate(alt, j)] != source
  }

  /** An assignment records its id for its source and leaves every other source's entry in place. */
  lemma AssignmentKeepsOthers(t0: map<string, string>, t1: map<string, string>, prefix: string,
                              h: string, pathHash: string, source: string, id: string, collided: bool)
    requires IsAssignment(t0, t1, prefix, h, pathHash, source, id, collided)
    ensures id in t1 && t1[id] == source
    ensures t1.Keys == t0.Keys + {id}
    ensures forall k :: k in t0 && t0[k] != source ==> k in t1 && t1[k] == t0[k]
    ensures (BaseId(prefix, h) in t0 && t0[BaseId(prefix, h)] == source) ==> t1 == t0
  {
  }

  /**
   * The id rule: without a collision the id is the base id of the content
   * hash; after one it is a candidate that follows the path-hash
   * alternative of that base id.
   */
  ghost predicate IdRule(prefix: string, h: string, pathHash: string, id: string, collided: bool) {
    && (!collided ==> id == BaseId(prefix, h))
    && (collided ==> exists k: nat :: k >= 1 && id == Candidate(AltId(BaseId(prefix, h), pathHash), k))
  }

  /** Every assignment follows the id rule. */
  lemma AssignmentFollowsIdRule(t0: map<string, string>, t1: map<string, string>, prefix: string,
                                h: string, pathHash: string, source: string, id: string, collided: bool)
    requires IsAssignment(t0, t1, prefix, h, pathHash, source, id, collided)
    ensures IdRule(prefix, h, pathHash, id, collided)
  {
    var base := BaseId(prefix, h);
    if base in t0 && t0[base] != source {
      var k: nat :| k >= 1 && FirstUsable(t0, AltId(base, pathHash), source, id, k);
      assert id == Candidate(AltId(base, pathHash), k);
    }
  }

  /** The ids taken so far, each with the source file it was given to. */
  class IdRegistry {
    var taken: map<string, string>

    constructor()
      ensures taken == map[]
    {
      taken := map[];
    }

    /**
     * Gives the packet with content hash h from `source` an id not held by
     * any other source: the base id when it is free or already this
     * source's, otherwise the first candidate that is free or this source's.
     */
    method AssignUniqueId(h: string, pathHash: string, source: string, prefix: string) returns (id: string, collided: bool)
      modifies this
      ensures IsAssignment(old(taken), taken, prefix, h, pathHash, source, id, collided)
    {
      var base := BaseId(prefix, h);
      if base !in taken {
        taken := taken[base := source];
        return base, false;
      }
      if taken[base] == source {
        assert taken[base := source] == taken;
        return base, false;
      }
      var alt := AltId(base, pathHash);
      var t := taken;
      var suffix := 2;
      var candidate := alt;
      ghost var tried: set<string> := {};
      while candidate in t && t[candidate] != source
        invariant suffix >= 2
        invariant candidate == Candidate(alt, suffix - 1)
        invariant tried <= t.Keys
        invariant forall k: nat :: k >= suffix - 1 ==> Candidate(alt, k) !in tried
        invariant forall j: nat :: 1 <= j < suffix - 1 ==> Candidate(alt, j) in t && t[Candidate(alt, j)] != source
        decreases |t.Keys - tried|
      {
        forall k: nat | k >= suffix ensures Candidate(alt, k) != candidate {
          CandidateDistinct(alt, k, suffix - 1);
        }
        assert t.Keys - (tried + {candidate}) == (t.Keys - tried) - {candidate};
        tried := tried + {candidate};
        candidate := alt + "-" + NatToDecimal(suffix);
        suffix := suffix + 1;
      }
      assert FirstUsable(t, alt, source, candidate, suffix - 1);
      taken := t[candidate := source];
      return candidate, true;
    }
  }

  // =====================================================================
  // One file

  /** `Path.suffix`: the final name from its last dot on, when that dot is neither first nor last. */
  function Suffix(name: string): (r: string)
    ensures r == "" || (r[0] == '.' && '.' !in r[1..] && |r| < |name|)
  {
    var i := FindLast(name, '.');
    if 0 < i < |name| - 1 then name[i..] else ""
  }

  /** The files that are copied: those whose suffix is `.json` in any case. */
  predicate IsJsonFile(name: string) {
    AsciiLower(Suffix(name)) == ".json"
  }

  /** A name is copied exactly when it ends in `.json`, in any case, after at least one character. */
  lemma IsJsonFileSpec(name: string)
    ensures IsJsonFile(name) <==> |name| >= 6 && AsciiLower(name[|name| - 5..]) == ".json"
  {
    var i := FindLast(name, '.');
    if |name| >= 6 && AsciiLower(name[|name| - 5..]) == ".json" {
      var tail := name[|name| - 5..];
      assert tail[0] == '.' by {
        assert AsciiLower(tail)[0] == '.';
      }
      assert forall k :: 1 <= k < 5 ==> tail[k] != '.' by {
        forall k | 1 <= k < 5 ensures tail[k] != '.' {
          assert AsciiLower(tail)[k] != '.';
        }
      }
      assert name[|name| - 5] == '.';
      assert name[|name| - 4..] == tail[1..];
      assert i == |name| - 5;
    }
    if IsJsonFile(name) {
      assert |Suffix(name)| == 5;
    }
  }

  /** A bare `.json` has no suffix, so it is skipped. */
  lemma BareJsonSkipped()
    ensures !IsJsonFile(".json")
  {
    IsJsonFileSpec(".json");
  }

  /** The suffix test ignores case. */
  lemma UpperJsonCopied()
    ensures IsJsonFile("a.JSON")
  {
    var tail := "a.JSON"[1..];
    assert tail == ".JSON";
    assert LowerChar('.') == '.' && LowerChar('J') == 'j' && LowerChar('S') == 's'
        && LowerChar('O') == 'o' && LowerChar('N') == 'n';
    assert AsciiLower(tail) == ".json";
    IsJsonFileSpec("a.JSON");
  }

  /** Only the last suffix counts. */
  lemma LastSuffixCounts()
    ensures !IsJsonFile("a.json.bak")
  {
    IsJsonFileSpec("a.json.bak");
    var tail := "a.json.bak"[5..];
    assert tail[0] == 'n';
    assert AsciiLower(tail)[0] == LowerChar('n');
  }

  /** The packet after its subject id is set: an existing subject object keeps its other members; anything else is replaced. */
  function UpdateSubject(packet: Json, newId: string): Json {
    if !packet.JObj? then packet
    else
      var subject := Lookup(packet.members, "subject");
      if subject.Some? && subject.value.JObj? then
        JObj(SetMember(packet.members, "subject", JObj(SetMember(subject.value.members, "id", JStr(newId)))))
      else
        JObj(SetMember(packet.members, "subject", JObj([("id", JStr(newId))])))
  }

  /**
   * An object packet ends up with subject.id the new id and every other
   * member as it was; so does an object subject; anything that is not an
   * object packet is left as it is.
   */
  lemma UpdateSubjectSpec(packet: Json, newId: string)
    ensures !packet.JObj? ==> UpdateSubject(packet, newId) == packet
    ensures packet.JObj? ==>
      var r := UpdateSubject(packet, newId);
      && r.JObj?
      && Member(r, "subject").Some?
      && Member(Member(r, "subject").value, "id") == Some(JStr(newId))
      && (forall k :: k != "subject" ==> Lookup(r.members, k) == Lookup(packet.members, k))
    ensures packet.JObj? && Member(packet, "subject").Some? && Member(packet, "subject").value.JObj? ==>
      var before := Member(packet, "subject").value;
      var after := Member(UpdateSubject(packet, newId), "subject").value;
      forall k :: k != "id" ==> Member(after, k) == Member(before, k)
    ensures packet.JObj? && !(Member(packet, "subject").Some? && Member(packet, "subject").value.JObj?) ==>
      Member(UpdateSubject(packet, newId), "subject") == Some(JObj([("id", JStr(newId))]))
  {
    if packet.JObj? {
      assert Lookup([("id", JStr(newId))], "id") == Some(JStr(newId));
    }
  }

  /** What a file held: a JSON document, or text that does not parse. */
  datatype Loaded = InvalidJson | Packet(value: Json)

  /** One copied file: its mapping row (source, destination, id, whether a collision was resolved) and its content. */
  datatype Written = Written(source: string, dest: string, id: string, collided: bool, packet: Json)

  /** The columns of the mapping file. */
  const MappingHeader: seq<string> := ["source_path", "dest_path", "assigned_id", "status"]

  /** The mapping row of one copy: its status says whether a collision was resolved. */
  function MappingRow(w: Written): (r: seq<string>)
    ensures |r| == |MappingHeader| && r[0] == w.source && r[1] == w.dest && r[2] == w.id
    ensures r[3] == "collision" <==> w.collided
    ensures r[3] == "ok" <==> !w.collided
  {
    [w.source, w.dest, w.id, if w.collided then "collision" else "ok"]
  }

  /** A file met on the walk: its path, its final name, the directory it is copied to and what it holds. */
  datatype Visit = Visit(path: string, name: string, target: string, file: Loaded)

  /** `dir / name`, for a directory written without a trailing '/'. */
  function JoinPath(dir: string, name: string): string {
    dir + "/" + name
  }

  /** The visits that produce a copy. */
  predicate Copied(v: Visit) {
    IsJsonFile(v.name) && v.file.Packet?
  }

  /** One copy is the one its visit calls for. */
  predicate Corresponds(w: Written, v: Visit) {
    && w.source == v.path
    && v.file.Packet?
    && w.dest == JoinPath(v.target, w.id + ".json")
    && w.packet == UpdateSubject(v.file.value, w.id)
  }

  /** Copies one file: non-JSON names and unparsable files are skipped without touching the registry. */
  method ProcessFile(reg: IdRegistry, v: Visit, contentHash: Json -> string, pathHash: string -> string, prefix: string)
    returns (out: Option<Written>)
    modifies reg
    ensures !Copied(v) ==> out.None? && reg.taken == old(reg.taken)
    ensures Copied(v) ==>
      && out.Some?
      && Corresponds(out.value, v)
      && IsAssignment(old(reg.taken), reg.taken, prefix, contentHash(v.file.value), pathHash(v.path),
                      v.path, out.value.id, out.value.collided)
  {
    if !IsJsonFile(v.name) || v.file.InvalidJson? {
      return None;
    }
    var packet := v.file.value;
    var newId, collided := reg.AssignUniqueId(contentHash(packet), pathHash(v.path), v.path, prefix);
    var updated := UpdateSubject(packet, newId);
    return Some(Written(v.path, JoinPath(v.target, newId + ".json"), newId, collided, updated));
  }

  // =====================================================================
  // The walk over the store

  /** A directory entry: a file with what it holds, or a sub-directory with its entries. */
  datatype Entry = File(content: Loaded) | Directory(children: seq<(string, Entry)>)

  function NamesOf(es: seq<(string, Entry)>): (r: seq<string>)
    ensures |r| == |es| && forall i :: 0 <= i < |es| ==> r[i] == es[i].0
  {
    seq(|es|, i requires 0 <= i < |es| => es[i].0)
  }

  /** The names in one directory are distinct. */
  predicate DistinctNames(es: seq<(string, Entry)>) {
    Distinct(NamesOf(es))
  }

  /**
   * The store and each of its gene directories list distinct names
   * (deeper levels are never read), and no name in the store contains the
   * path separator.
   */
  predicate WellFormedStore(top: seq<(string, Entry)>) {
    && DistinctNames(top)
    && (forall i :: 0 <= i < |top| ==> '/' !in top[i].0)
    && forall i :: 0 <= i < |top| && top[i].1.Directory? ==> DistinctNames(top[i].1.children)
  }

  function EntryNamed(es: seq<(string, Entry)>, name: string): (r: Option<Entry>)
    ensures r.Some? ==> exists i :: 0 <= i < |es| && es[i] == (name, r.value)
  {
    if es == [] then None
    else if es[0].0 == name then Some(es[0].1)
    else
      var r := EntryNamed(es[1..], name);
      assert r.Some? ==> exists i :: 1 <= i < |es| && es[i] == (name, r.value) by {
        if r.Some? {
          var i :| 0 <= i < |es[1..]| && es[1..][i] == (name, r.value);
          assert es[i + 1] == (name, r.value);
        }
      }
      r
  }

  /** The names, in the given order, whose entry is a directory (wantDirs) or a file (otherwise). */
  function FilterNames(names: seq<string>, es: seq<(string, Entry)>, wantDirs: bool): (r: seq<string>)
    ensures forall n :: n in r <==> (n in names && EntryNamed(es, n).Some? &&
      (if wantDirs then EntryNamed(es, n).value.Directory? else EntryNamed(es, n).value.File?))
  {
    if names == [] then []
    else
      var e := EntryNamed(es, names[0]);
      var keep := e.Some? && (if wantDirs then e.value.Directory? else e.value.File?);
      (if keep then [names[0]] else []) + FilterNames(names[1..], es, wantDirs)
  }

  lemma {:induction false} FilterNamesDistinct(names: seq<string>, es: seq<(string, Entry)>, wantDirs: bool)
    requires Distinct(names)
    ensures Distinct(FilterNames(names, es, wantDirs))
  {
    if names != [] {
      FilterNamesDistinct(names[1..], es, wantDirs);
      assert names[0] !in names[1..];
    }
  }

  /** `sorted(p for p in d.iterdir() if p.is_dir())`: the gene directories in ascending order. */
  function GeneDirs(top: seq<(string, Entry)>): (r: seq<string>)
    requires DistinctNames(top)
    ensures Ascending(r)
  {
    FilterNamesDistinct(NamesOf(top), top, true);
    SortStrings(FilterNames(NamesOf(top), top, true))
  }

  /** In a directory with distinct names, the entry found by a name is the one listed under it. */
  lemma {:induction false} EntryNamedDistinct(es: seq<(string, Entry)>, i: int)
    requires DistinctNames(es) && 0 <= i < |es|
    ensures EntryNamed(es, es[i].0) == Some(es[i].1)
  {
    if i > 0 {
      assert NamesOf(es)[0] != NamesOf(es)[i];
      assert NamesOf(es[1..]) == NamesOf(es)[1..];
      assert es[1..][i - 1] == es[i];
      EntryNamedDistinct(es[1..], i - 1);
    }
  }

  /** The genes walked are exactly the sub-directories of the store. */
  lemma GeneDirsSpec(top: seq<(string, Entry)>, g: string)
    requires DistinctNames(top)
    ensures g in GeneDirs(top) <==> exists i :: 0 <= i < |top| && top[i].0 == g && top[i].1.Directory?
  {
    FilterNamesDistinct(NamesOf(top), top, true);
    if g in GeneDirs(top) {
      var i :| 0 <= i < |top| && top[i] == (g, EntryNamed(top, g).value);
    }
    if exists i :: 0 <= i < |top| && top[i].0 == g && top[i].1.Directory? {
      var i :| 0 <= i < |top| && top[i].0 == g && top[i].1.Directory?;
      EntryNamedDistinct(top, i);
      assert g == NamesOf(top)[i];
    }
  }

  /** `[e for e in sorted(d.iterdir()) if e.is_file()]`: the files of a directory in ascending order. */
  function FilesIn(es: seq<(string, Entry)>): (r: seq<string>)
    requires DistinctNames(es)
    ensures Ascending(r)
  {
    var sorted := SortStrings(NamesOf(es));
    FilterAscending(sorted, es, false);
    FilterNames(sorted, es, false)
  }

  lemma {:induction false} FilterAscending(names: seq<string>, es: seq<(string, Entry)>, wantDirs: bool)
    requires Ascending(names)
    ensures Ascending(FilterNames(names, es, wantDirs))
  {
    if names != [] {
      assert Ascending(names[1..]);
      FilterAscending(names[1..], es, wantDirs);
      var rest := FilterNames(names[1..], es, wantDirs);
      forall y | y in rest ensures StrLt(names[0], y) {
        var j :| 0 <= j < |names[1..]| && names[1..][j] == y;
        assert names[j + 1] == y;
      }
    }
  }

  /** The visits of the files of one directory, in the order given. */
  function FileVisits(dirPath: string, target: string, es: seq<(string, Entry)>, files: seq<string>): (r: seq<Visit>)
    ensures |r| == |files|
    ensures forall k :: 0 <= k < |files| ==>
      r[k].path == JoinPath(dirPath, files[k]) && r[k].name == files[k] && r[k].target == target
  {
    if files == [] then []
    else
      var last := files[|files| - 1];
      FileVisits(dirPath, target, es, files[..|files| - 1]) + [FileVisit(dirPath, target, es, last)]
  }

  lemma FileVisitsSnoc(dirPath: string, target: string, es: seq<(string, Entry)>, files: seq<string>, j: int)
    requires 0 <= j < |files|
    ensures FileVisits(dirPath, target, es, files[..j + 1])
         == FileVisits(dirPath, target, es, files[..j]) + [FileVisit(dirPath, target, es, files[j])]
  {
    assert files[..j + 1][..j] == files[..j];
  }

  lemma DoneFileVisitsSnoc(done: seq<Visit>, dirPath: string, target: string, es: seq<(string, Entry)>,
                           files: seq<string>, j: int)
    requires 0 <= j < |files|
    ensures done + FileVisits(dirPath, target, es, files[..j + 1])
         == (done + FileVisits(dirPath, target, es, files[..j])) + [FileVisit(dirPath, target, es, files[j])]
  {
    FileVisitsSnoc(dirPath, target, es, files, j);
  }

  function FileVisit(dirPath: string, target: string, es: seq<(string, Entry)>, name: string): Visit {
    var e := EntryNamed(es, name);
    var content := if e.Some? && e.value.File? then e.value.content else InvalidJson;
    Visit(JoinPath(dirPath, name), name, target, content)
  }

  /** A flat copy puts every gene's files in the destination itself; otherwise each gene gets its own directory. */
  function TargetDir(destDir: string, gene: string, flat: bool): string {
    if flat then destDir else JoinPath(destDir, gene)
  }

  function ChildrenOf(top: seq<(string, Entry)>, gene: string): (r: seq<(string, Entry)>)
    requires WellFormedStore(top)
    ensures DistinctNames(r)
  {
    var e := EntryNamed(top, gene);
    if e.Some? && e.value.Directory? then
      var i :| 0 <= i < |top| && top[i] == (gene, e.value);
      e.value.children
    else []
  }

  function GeneVisits(sourceDir: string, destDir: string, flat: bool, top: seq<(string, Entry)>, gene: string): seq<Visit>
    requires WellFormedStore(top)
  {
    var children := ChildrenOf(top, gene);
    FileVisits(JoinPath(sourceDir, gene), TargetDir(destDir, gene, flat), children, FilesIn(children))
  }

  /** The visits of the gene directories in the order given. */
  function GenesVisits(sourceDir: string, destDir: string, flat: bool, top: seq<(string, Entry)>, genes: seq<string>): seq<Visit>
    requires WellFormedStore(top)
  {
    if genes == [] then []
    else GenesVisits(sourceDir, destDir, flat, top, genes[..|genes| - 1])
         + GeneVisits(sourceDir, destDir, flat, top, genes[|genes| - 1])
  }

  lemma GenesVisitsSnoc(sourceDir: string, destDir: string, flat: bool, top: seq<(string, Entry)>, genes: seq<string>, i: int)
    requires WellFormedStore(top) && 0 <= i < |genes|
    ensures GenesVisits(sourceDir, destDir, flat, top, genes[..i + 1])
         == GenesVisits(sourceDir, destDir, flat, top, genes[..i]) + GeneVisits(sourceDir, destDir, flat, top, genes[i])
  {
    assert genes[..i + 1][..i] == genes[..i];
  }

  /** Every file of the store in walk order: gene directories sorted, and the files of each sorted. */
  function Walk(sourceDir: string, destDir: string, flat: bool, top: seq<(string, Entry)>): seq<Visit>
    requires WellFormedStore(top)
  {
    GenesVisits(sourceDir, destDir, flat, top, GeneDirs(top))
  }

  /** The visits that produce a copy, in order. */
  function CopiedVisits(vs: seq<Visit>): (r: seq<Visit>)
    ensures forall v :: v in r ==> Copied(v) && v in vs
  {
    if vs == [] then []
    else CopiedVisits(vs[..|vs| - 1]) + (if Copied(vs[|vs| - 1]) then [vs[|vs| - 1]] else [])
  }

  lemma CopiedVisitsSnoc(vs: seq<Visit>, v: Visit)
    ensures CopiedVisits(vs + [v]) == CopiedVisits(vs) + (if Copied(v) then [v] else [])
  {
    assert (vs + [v])[..|vs|] == vs;
  }

  /** A copy's id follows the id rule for its visit's content hash and path hash. */
  ghost predicate FollowsIdRule(w: Written, v: Visit, prefix: string, contentHash: Json -> string, pathHash: string -> string) {
    v.file.Packet? && IdRule(prefix, contentHash(v.file.value), pathHash(v.path), w.id, w.collided)
  }

  /** The registry after recording the given copies in order: each id held by the source of the last copy that took it. */
  function Held(outputs: seq<Written>): map<string, string>
    decreases |outputs|
  {
    if outputs == [] then map[]
    else Held(outputs[..|outputs| - 1])[outputs[|outputs| - 1].id := outputs[|outputs| - 1].source]
  }

  /** Copies that share an id share a source. */
  ghost predicate IdsConsistent(o: seq<Written>) {
    forall k, l :: 0 <= k < |o| && 0 <= l < |o| && o[k].id == o[l].id ==> o[k].source == o[l].source
  }

  /** The registry holds exactly the copies' ids, each for the source of a copy that took it. */
  lemma {:induction false} HeldSpec(o: seq<Written>)
    requires IdsConsistent(o)
    ensures forall id :: id in Held(o) <==> exists l :: 0 <= l < |o| && o[l].id == id
    ensures forall l :: 0 <= l < |o| ==> o[l].id in Held(o) && Held(o)[o[l].id] == o[l].source
  {
    if o != [] {
      var p := o[..|o| - 1];
      var w := o[|o| - 1];
      assert forall l :: 0 <= l < |p| ==> p[l] == o[l];
      HeldSpec(p);
      forall id | id in Held(o) ensures exists l :: 0 <= l < |o| && o[l].id == id {
        if id != w.id {
          var l :| 0 <= l < |p| && p[l].id == id;
          assert o[l].id == id;
        } else {
          assert o[|o| - 1].id == id;
        }
      }
      forall l | 0 <= l < |o| ensures o[l].id in Held(o) && Held(o)[o[l].id] == o[l].source {
        if o[l].id == w.id {
          assert o[l].source == w.source;
        } else {
          assert p[l] == o[l];
        }
      }
    }
  }

  /** Recording the copies of a prefix gives the registry of that prefix. */
  lemma HeldPrefix(o: seq<Written>, w: Written)
    ensures Held(o + [w]) == Held(o)[w.id := w.source]
  {
    assert (o + [w])[..|o|] == o;
  }

  /**
   * Copy k's id and collision flag are what assign_unique_id gives for its
   * visit, against the registry left by the copies before it.
   */
  ghost predicate AssignedInTurn(outputs: seq<Written>, vs: seq<Visit>, k: int,
                                 prefix: string, contentHash: Json -> string, pathHash: string -> string) {
    && 0 <= k < |outputs| && k < |vs| && vs[k].file.Packet?
    && IsAssignment(Held(outputs[..k]), Held(outputs[..k + 1]), prefix, contentHash(vs[k].file.value),
                    pathHash(vs[k].path), vs[k].path, outputs[k].id, outputs[k].collided)
  }

  /**
   * The copies written so far match the copied visits so far; each was
   * assigned its id in turn, so its id follows the id rule; the registry is
   * the one these copies leave, and every id is still held by its source.
   */
  ghost predicate Matches(outputs: seq<Written>, vs: seq<Visit>, taken: map<string, string>,
                          prefix: string, contentHash: Json -> string, pathHash: string -> string) {
    && |outputs| == |vs|
    && taken == Held(outputs)
    && (forall k :: 0 <= k < |outputs| ==> Corresponds(outputs[k], vs[k]))
    && (forall k :: 0 <= k < |outputs| ==> AssignedInTurn(outputs, vs, k, prefix, contentHash, pathHash))
    && (forall k :: 0 <= k < |outputs| ==> FollowsIdRule(outputs[k], vs[k], prefix, contentHash, pathHash))
    && (forall k :: 0 <= k < |outputs| ==> outputs[k].id in taken && taken[outputs[k].id] == outputs[k].source)
  }

  /**
   * A copy is flagged collided exactly when an earlier copy from another
   * source holds its base id; a copy that is not flagged has the base id.
   */
  lemma CollidedIffBaseHeld(outputs: seq<Written>, vs: seq<Visit>, taken: map<string, string>,
                            prefix: string, contentHash: Json -> string, pathHash: string -> string)
    requires Matches(outputs, vs, taken, prefix, contentHash, pathHash)
    ensures forall k :: 0 <= k < |outputs| ==>
      (outputs[k].collided <==>
         exists l :: 0 <= l < k && outputs[l].id == BaseId(prefix, contentHash(vs[k].file.value)) && outputs[l].source != vs[k].path)
    ensures forall k :: 0 <= k < |outputs| && !outputs[k].collided ==> outputs[k].id == BaseId(prefix, contentHash(vs[k].file.value))
  {
    forall k | 0 <= k < |outputs|
      ensures outputs[k].collided <==>
        exists l :: 0 <= l < k && outputs[l].id == BaseId(prefix, contentHash(vs[k].file.value)) && outputs[l].source != vs[k].path
    {
      var p := outputs[..k];
      assert forall l :: 0 <= l < k ==> p[l] == outputs[l];
      HeldSpec(p);
      assert AssignedInTurn(outputs, vs, k, prefix, contentHash, pathHash);
      var base := BaseId(prefix, contentHash(vs[k].file.value));
      if outputs[k].collided {
        var l :| 0 <= l < |p| && p[l].id == base;
        assert outputs[l].id == base && outputs[l].source != vs[k].path;
      }
    }
    forall k | 0 <= k < |outputs| && !outputs[k].collided
      ensures outputs[k].id == BaseId(prefix, contentHash(vs[k].file.value))
    {
      assert FollowsIdRule(outputs[k], vs[k], prefix, contentHash, pathHash);
    }
  }

  /**
   * When every id is held by its copy's source, two copies with one id
   * come from one source; so copies of visits with distinct paths have
   * distinct ids.
   */
  lemma MatchesIdsHeld(outputs: seq<Written>, vs: seq<Visit>, taken: map<string, string>,
                       prefix: string, contentHash: Json -> string, pathHash: string -> string)
    requires Matches(outputs, vs, taken, prefix, contentHash, pathHash)
    ensures forall k, l :: 0 <= k < |outputs| && 0 <= l < |outputs| && outputs[k].id == outputs[l].id ==>
      outputs[k].source == outputs[l].source
    ensures DistinctPaths(vs) ==> forall k, l :: 0 <= k < l < |outputs| ==> outputs[k].id != outputs[l].id
  {
  }

  /** Recording one more copy keeps the match. */
  lemma MatchesAppend(outputs: seq<Written>, vs: seq<Visit>, t0: map<string, string>, t1: map<string, string>,
                      w: Written, v: Visit, prefix: string, contentHash: Json -> string, pathHash: string -> string)
    requires Matches(outputs, vs, t0, prefix, contentHash, pathHash)
    requires Corresponds(w, v) && FollowsIdRule(w, v, prefix, contentHash, pathHash)
    requires IsAssignment(t0, t1, prefix, contentHash(v.file.value), pathHash(v.path), v.path, w.id, w.collided)
    ensures Matches(outputs + [w], vs + [v], t1, prefix, contentHash, pathHash)
  {
    var o := outputs + [w];
    HeldPrefix(outputs, w);
    assert o[..|outputs|] == outputs && o[..|outputs| + 1] == o;
    forall k | 0 <= k < |o|
      ensures o[k].id in t1 && t1[o[k].id] == o[k].source
      ensures AssignedInTurn(o, vs + [v], k, prefix, contentHash, pathHash)
    {
      if k < |outputs| {
        assert o[k] == outputs[k] && (vs + [v])[k] == vs[k];
        assert o[..k] == outputs[..k] && o[..k + 1] == outputs[..k + 1];
        assert AssignedInTurn(outputs, vs, k, prefix, contentHash, pathHash);
      }
    }
  }

  /** Processing one more visit keeps the match. */
  lemma ProcessStep(result: seq<Written>, before: seq<Visit>, t0: map<string, string>, t1: map<string, string>,
                    v: Visit, out: Option<Written>, prefix: string, contentHash: Json -> string, pathHash: string -> string)
    requires Matches(result, CopiedVisits(before), t0, prefix, contentHash, pathHash)
    requires !Copied(v) ==> out.None? && t1 == t0
    requires Copied(v) ==>
      && out.Some? && Corresponds(out.value, v)
      && IsAssignment(t0, t1, prefix, contentHash(v.file.value), pathHash(v.path), v.path, out.value.id, out.value.collided)
    ensures Matches(result + (if out.Some? then [out.value] else []), CopiedVisits(before + [v]), t1,
                    prefix, contentHash, pathHash)
  {
    CopiedVisitsSnoc(before, v);
    if Copied(v) {
      var h := contentHash(v.file.value);
      AssignmentFollowsIdRule(t0, t1, prefix, h, pathHash(v.path), v.path, out.value.id, out.value.collided);
      MatchesAppend(result, CopiedVisits(before), t0, t1, out.value, v, prefix, contentHash, pathHash);
      assert CopiedVisits(before + [v]) == CopiedVisits(before) + [v];
    } else {
      assert result + [] == result;
      assert CopiedVisits(before + [v]) == CopiedVisits(before);
    }
  }

  // ---------------------------------------------------------------------
  // Distinct paths

  /** No two visits share a path. */
  ghost predicate DistinctPaths(vs: seq<Visit>) {
    forall k, l :: 0 <= k < l < |vs| ==> vs[k].path != vs[l].path
  }

  /** path lies in the directory dir. */
  predicate InDir(path: string, dir: string) {
    |dir| + 1 <= |path| && path[..|dir| + 1] == dir + "/"
  }

  /** A path inside one gene directory is inside no other. */
  lemma GeneDirsDisjoint(sourceDir: string, g1: string, g2: string, path: string)
    requires '/' !in g1 && '/' !in g2 && g1 != g2
    requires InDir(path, JoinPath(sourceDir, g1))
    ensures !InDir(path, JoinPath(sourceDir, g2))
  {
    var p := |sourceDir| + 1;
    assert path[..p + |g1| + 1] == JoinPath(sourceDir, g1) + "/";
    assert path[p + |g1|] == '/';
    if |g1| < |g2| {
      assert (JoinPath(sourceDir, g2) + "/")[p + |g1|] == g2[|g1|];
    } else if |g2| < |g1| {
      assert path[p + |g2|] == g1[|g2|];
    } else {
      assert path[p..p + |g1|] == g1;
    }
  }

  /** The files of one directory have distinct paths, all inside that directory. */
  lemma FileVisitsDistinct(dirPath: string, target: string, es: seq<(string, Entry)>, files: seq<string>)
    requires Distinct(files)
    ensures DistinctPaths(FileVisits(dirPath, target, es, files))
    ensures forall k :: 0 <= k < |files| ==> InDir(FileVisits(dirPath, target, es, files)[k].path, dirPath)
  {
    var vs := FileVisits(dirPath, target, es, files);
    forall k, l | 0 <= k < l < |vs| ensures vs[k].path != vs[l].path {
      assert vs[k].path[|dirPath| + 1..] == files[k];
      assert vs[l].path[|dirPath| + 1..] == files[l];
    }
    forall k | 0 <= k < |files| ensures InDir(vs[k].path, dirPath) {
      assert vs[k].path[..|dirPath| + 1] == dirPath + "/";
    }
  }

  /** No visit lies in the directory dir. */
  ghost predicate OutsideDir(vs: seq<Visit>, dir: string) {
    forall k :: 0 <= k < |vs| ==> !InDir(vs[k].path, dir)
  }

  lemma DistinctPathsConcat(a: seq<Visit>, b: seq<Visit>)
    requires DistinctPaths(a) && DistinctPaths(b)
    requires forall k, l :: 0 <= k < |a| && 0 <= l < |b| ==> a[k].path != b[l].path
    ensures DistinctPaths(a + b)
  {
    var ab := a + b;
    forall k, l | 0 <= k < l < |ab| ensures ab[k].path != ab[l].path {
      if l < |a| {
        assert ab[k] == a[k] && ab[l] == a[l];
      } else if k < |a| {
        assert ab[k] == a[k] && ab[l] == b[l - |a|];
      } else {
        assert ab[k] == b[k - |a|] && ab[l] == b[l - |a|];
      }
    }
  }

  lemma OutsideDirConcat(a: seq<Visit>, b: seq<Visit>, dir: string)
    requires OutsideDir(a, dir) && OutsideDir(b, dir)
    ensures OutsideDir(a + b, dir)
  {
    forall k | 0 <= k < |a + b| ensures !InDir((a + b)[k].path, dir) {
      if k < |a| {
        assert (a + b)[k] == a[k];
      } else {
        assert (a + b)[k] == b[k - |a|];
      }
    }
  }

  /** The files of one gene directory have distinct paths, none inside the directory of another gene. */
  lemma GeneVisitsDistinct(sourceDir: string, destDir: string, flat: bool, top: seq<(string, Entry)>, gene: string)
    requires WellFormedStore(top) && '/' !in gene
    ensures DistinctPaths(GeneVisits(sourceDir, destDir, flat, top, gene))
    ensures forall k :: 0 <= k < |GeneVisits(sourceDir, destDir, flat, top, gene)| ==>
      InDir(GeneVisits(sourceDir, destDir, flat, top, gene)[k].path, JoinPath(sourceDir, gene))
    ensures forall g :: '/' !in g && g != gene ==>
      OutsideDir(GeneVisits(sourceDir, destDir, flat, top, gene), JoinPath(sourceDir, g))
  {
    var children := ChildrenOf(top, gene);
    var files := FilesIn(children);
    AscendingDistinct(files);
    FileVisitsDistinct(JoinPath(sourceDir, gene), TargetDir(destDir, gene, flat), children, files);
    var vs := GeneVisits(sourceDir, destDir, flat, top, gene);
    forall g | '/' !in g && g != gene ensures OutsideDir(vs, JoinPath(sourceDir, g)) {
      forall k | 0 <= k < |vs| ensures !InDir(vs[k].path, JoinPath(sourceDir, g)) {
        GeneDirsDisjoint(sourceDir, gene, g, vs[k].path);
      }
    }
  }

  /**
   * The walk over distinct gene directories with separator-free names
   * visits distinct paths, none inside the directory of a gene not walked.
   */
  lemma {:induction false} GenesVisitsDistinct(sourceDir: string, destDir: string, flat: bool,
                                               top: seq<(string, Entry)>, genes: seq<string>)
    requires WellFormedStore(top) && Distinct(genes) && forall i :: 0 <= i < |genes| ==> '/' !in genes[i]
    ensures DistinctPaths(GenesVisits(sourceDir, destDir, flat, top, genes))
    ensures forall g :: '/' !in g && g !in genes ==>
      OutsideDir(GenesVisits(sourceDir, destDir, flat, top, genes), JoinPath(sourceDir, g))
  {
    if genes != [] {
      var init := genes[..|genes| - 1];
      var last := genes[|genes| - 1];
      assert forall i :: 0 <= i < |init| ==> init[i] == genes[i];
      GenesVisitsDistinct(sourceDir, destDir, flat, top, init);
      GeneVisitsDistinct(sourceDir, destDir, flat, top, last);
      var earlier := GenesVisits(sourceDir, destDir, flat, top, init);
      var latest := GeneVisits(sourceDir, destDir, flat, top, last);
      assert last !in init;
      assert OutsideDir(earlier, JoinPath(sourceDir, last));
      DistinctPathsConcat(earlier, latest);
      forall g | '/' !in g && g !in genes ensures OutsideDir(earlier + latest, JoinPath(sourceDir, g)) {
        OutsideDirConcat(earlier, latest, JoinPath(sourceDir, g));
      }
    }
  }

  /** Keeping only the copied visits keeps the paths distinct. */
  lemma {:induction false} CopiedVisitsDistinct(vs: seq<Visit>)
    requires DistinctPaths(vs)
    ensures DistinctPaths(CopiedVisits(vs))
  {
    if vs != [] {
      var init := vs[..|vs| - 1];
      var last := vs[|vs| - 1];
      assert DistinctPaths(init);
      CopiedVisitsDistinct(init);
      var c := CopiedVisits(init);
      forall x | x in c ensures x.path != last.path {
        var j :| 0 <= j < |init| && init[j] == x;
        assert vs[j] == x;
      }
    }
  }

  /** The walk of a well-formed store visits distinct paths. */
  lemma WalkDistinct(sourceDir: string, destDir: string, flat: bool, top: seq<(string, Entry)>)
    requires WellFormedStore(top)
    ensures DistinctPaths(CopiedVisits(Walk(sourceDir, destDir, flat, top)))
  {
    var genes := GeneDirs(top);
    AscendingDistinct(genes);
    forall i | 0 <= i < |genes| ensures '/' !in genes[i] {
      GeneDirsSpec(top, genes[i]);
    }
    GenesVisitsDistinct(sourceDir, destDir, flat, top, genes);
    CopiedVisitsDistinct(Walk(sourceDir, destDir, flat, top));
  }

  /**
   * What a finished walk over visits with distinct paths promises: one
   * copy per visit, in order, each assigned its id in turn and so
   * following the id rule, distinct copies with distinct ids, and a copy
   * flagged collided exactly when an earlier copy from another source
   * holds its base id.
   */
  lemma WalkOutcome(outputs: seq<Written>, copied: seq<Visit>, taken: map<string, string>,
                    prefix: string, contentHash: Json -> string, pathHash: string -> string)
    requires Matches(outputs, copied, taken, prefix, contentHash, pathHash) && DistinctPaths(copied)
    ensures |outputs| == |copied|
    ensures forall k :: 0 <= k < |copied| ==> Corresponds(outputs[k], copied[k])
    ensures forall k :: 0 <= k < |copied| ==>
      IdRule(prefix, contentHash(copied[k].file.value), pathHash(copied[k].path), outputs[k].id, outputs[k].collided)
    ensures forall k, l :: 0 <= k < |outputs| && 0 <= l < |outputs| && outputs[k].id == outputs[l].id ==>
      outputs[k].source == outputs[l].source
    ensures forall k, l :: 0 <= k < l < |outputs| ==> outputs[k].id != outputs[l].id
    ensures forall k :: 0 <= k < |copied| ==> AssignedInTurn(outputs, copied, k, prefix, contentHash, pathHash)
    ensures forall k :: 0 <= k < |copied| ==>
      (outputs[k].collided <==>
         exists l :: 0 <= l < k && outputs[l].id == BaseId(prefix, contentHash(copied[k].file.value))
                     && outputs[l].source != copied[k].path)
  {
    MatchesIdsHeld(outputs, copied, taken, prefix, contentHash, pathHash);
    CollidedIffBaseHeld(outputs, copied, taken, prefix, contentHash, pathHash);
    assert forall k :: 0 <= k < |copied| ==> FollowsIdRule(outputs[k], copied[k], prefix, contentHash, pathHash);
  }

  /**
   * Copies the files of one gene directory in sorted order, appending the
   * copies to `outputs`.
   */
  method CopyGeneDir(reg: IdRegistry, sourceDir: string, destDir: string, prefix: string, flat: bool,
                     top: seq<(string, Entry)>, gene: string, contentHash: Json -> string, pathHash: string -> string,
                     outputs: seq<Written>, ghost done: seq<Visit>)
    returns (result: seq<Written>)
    requires WellFormedStore(top)
    requires Matches(outputs, CopiedVisits(done), reg.taken, prefix, contentHash, pathHash)
    modifies reg
    ensures Matches(result, CopiedVisits(done + GeneVisits(sourceDir, destDir, flat, top, gene)), reg.taken,
                    prefix, contentHash, pathHash)
  {
    var children := ChildrenOf(top, gene);
    var dirPath := JoinPath(sourceDir, gene);
    var target := TargetDir(destDir, gene, flat);
    var files := FilesIn(children);
    result := outputs;
    assert done + FileVisits(dirPath, target, children, files[..0]) == done;
    var j := 0;
    while j < |files|
      invariant 0 <= j <= |files|
      invariant Matches(result, CopiedVisits(done + FileVisits(dirPath, target, children, files[..j])), reg.taken,
                        prefix, contentHash, pathHash)
    {
      var v := FileVisit(dirPath, target, children, files[j]);
      ghost var before := done + FileVisits(dirPath, target, children, files[..j]);
      DoneFileVisitsSnoc(done, dirPath, target, children, files, j);
      ghost var t0 := reg.taken;
      var out := ProcessFile(reg, v, contentHash, pathHash, prefix);
      ProcessStep(result, before, t0, reg.taken, v, out, prefix, contentHash, pathHash);
      result := result + (if out.Some? then [out.value] else []);
      j := j + 1;
    }
    assert files[..j] == files;
  }

  /**
   * rename_store: walks the gene directories in sorted order and the files
   * of each in sorted order, copying each JSON packet under a fresh id into
   * the destination (flat, or per gene). A missing source directory stops
   * the run.
   */
  method RenameStore(sourceDir: string, destDir: string, prefix: string, flat: bool,
                     source: Option<seq<(string, Entry)>>, contentHash: Json -> string, pathHash: string -> string)
    returns (r: Result<seq<Written>, string>)
    requires source.Some? ==> WellFormedStore(source.value)
    ensures source.None? <==> r.Failure?
    ensures r.Success? ==>
      var copied := CopiedVisits(Walk(sourceDir, destDir, flat, source.value));
      && |r.value| == |copied|
      && (forall k :: 0 <= k < |copied| ==> Corresponds(r.value[k], copied[k]))
      && (forall k :: 0 <= k < |copied| ==>
            IdRule(prefix, contentHash(copied[k].file.value), pathHash(copied[k].path), r.value[k].id, r.value[k].collided))
      && (forall k, l :: 0 <= k < |r.value| && 0 <= l < |r.value| && r.value[k].id == r.value[l].id ==>
            r.value[k].source == r.value[l].source)
      && (forall k, l :: 0 <= k < l < |r.value| ==> r.value[k].id != r.value[l].id)
      && (forall k :: 0 <= k < |copied| ==> AssignedInTurn(r.value, copied, k, prefix, contentHash, pathHash))
      && (forall k :: 0 <= k < |copied| ==>
            (r.value[k].collided <==>
               exists l :: 0 <= l < k && r.value[l].id == BaseId(prefix, contentHash(copied[k].file.value))
                           && r.value[l].source != copied[k].path))
  {
    if source.None? {
      return Failure("Source directory does not exist or is not a directory: " + sourceDir);
    }
    var top := source.value;
    var reg := new IdRegistry();
    var outputs: seq<Written> := [];
    var genes := GeneDirs(top);
    var i := 0;
    assert GenesVisits(sourceDir, destDir, flat, top, genes[..0]) == [];
    while i < |genes|
      invariant 0 <= i <= |genes|
      invariant Matches(outputs, CopiedVisits(GenesVisits(sourceDir, destDir, flat, top, genes[..i])), reg.taken,
                        prefix, contentHash, pathHash)
    {
      GenesVisitsSnoc(sourceDir, destDir, flat, top, genes, i);
      outputs := CopyGeneDir(reg, sourceDir, destDir, prefix, flat, top, genes[i], contentHash, pathHash,
                             outputs, GenesVisits(sourceDir, destDir, flat, top, genes[..i]));
      i := i + 1;
    }
    assert genes[..i] == genes;
    WalkDistinct(sourceDir, destDir, flat, top);
    WalkOutcome(outputs, CopiedVisits(Walk(sourceDir, destDir, flat, top)), reg.taken, prefix, contentHash, pathHash);
    return Success(outputs);
  }
}
