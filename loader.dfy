/**
  The compound parser (`parse_file`) and the index loader (`parse`): folds of
  `parse_definition` over every definition node of the run, in document order.
 */
module Loader {
  import opened Wrappers
  import opened DoxygenXml
  import opened Host
  import opened Classifier

  // ---------------------------------------------------------------------------
  // Specification of the folds

  /** The nodes `parse_file` visits: each `compounddef`, then its `memberdef` elements. */
  function Flatten(doc: Document): seq<Node> {
    if doc == [] then []
    else Flatten(doc[..|doc| - 1]) + [doc[|doc| - 1].def] + doc[|doc| - 1].members
  }

  /** `files = parse_definition(files, n)` for every `n` of `nodes` in turn. */
  function FoldNodes(files: CoverageIndex, nodes: seq<Node>, fs: FileSystem): CoverageIndex {
    if nodes == [] then files
    else ParseDefinition(FoldNodes(files, nodes[..|nodes| - 1], fs), nodes[|nodes| - 1], fs)
  }

  /** `entry.get('kind') in ('dir', 'group')`: a real tuple here, so an equality test. */
  predicate SkippedKind(entry: IndexEntry) {
    entry.kind == Some("dir") || entry.kind == Some("group")
  }

  /** `os.path.join(path, "%s.xml" % refid)`. */
  function CompoundPath(dir: string, entry: IndexEntry): string {
    Join(dir, Format(entry.refid) + ".xml")
  }

  /** Whether `parse` reads the compound file of `entry`. */
  predicate Loads(dir: string, entry: IndexEntry, fs: FileSystem) {
    !SkippedKind(entry) && fs.isfile(CompoundPath(dir, entry))
  }

  /** The index `parse` returns for the `compound` entries of `index.xml`. */
  function ParseIndex(index: seq<IndexEntry>, dir: string, fs: FileSystem): CoverageIndex {
    if index == [] then map[]
    else
      var files := ParseIndex(index[..|index| - 1], dir, fs);
      var entry := index[|index| - 1];
      if Loads(dir, entry, fs) then FoldNodes(files, Flatten(fs.load(CompoundPath(dir, entry))), fs)
      else files
  }

  /** Every definition node of the run, in the order `parse` hands them to `parse_definition`. */
  function LoadedNodes(index: seq<IndexEntry>, dir: string, fs: FileSystem): seq<Node> {
    if index == [] then []
    else
      var entry := index[|index| - 1];
      LoadedNodes(index[..|index| - 1], dir, fs)
      + (if Loads(dir, entry, fs) then Flatten(fs.load(CompoundPath(dir, entry))) else [])
  }

  /** The entry the last accepted node for `(file, id)` wrote, if any did. */
  function LastWrite(nodes: seq<Node>, fs: FileSystem, file: string, id: DefId): Option<Entry> {
    if nodes == [] then None
    else
      var w := Classify(nodes[|nodes| - 1], fs);
      if w.Some? && w.value.file == file && w.value.id == id then Some(w.value.entry)
      else LastWrite(nodes[..|nodes| - 1], fs, file, id)
  }

  /** The files that the accepted nodes of `nodes` write into. */
  function WrittenFiles(nodes: seq<Node>, fs: FileSystem): set<string> {
    if nodes == [] then {}
    else
      var w := Classify(nodes[|nodes| - 1], fs);
      WrittenFiles(nodes[..|nodes| - 1], fs) + (if w.Some? then {w.value.file} else {})
  }

  // ---------------------------------------------------------------------------
  // The loops

  /** `parse_file`: fold the compounds of one XML document into `files`. */
  method ParseFile(files: CoverageIndex, doc: Document, fs: FileSystem) returns (r: CoverageIndex)
    ensures r == FoldNodes(files, Flatten(doc), fs)
  {
    r := files;
    var c := 0;
    while c < |doc|
      invariant 0 <= c <= |doc|
      invariant r == FoldNodes(files, Flatten(doc[..c]), fs)
    {
      var compound := doc[c];
      FoldStep(files, Flatten(doc[..c]), compound.def, fs);
      r := ParseDefinition(r, compound.def, fs);
      r := ParseMembers(r, files, Flatten(doc[..c]) + [compound.def], compound.members, fs);
      FlattenStep(doc, c);
      c := c + 1;
    }
    assert doc[..c] == doc;
  }

  /** The inner loop of `parse_file`: the `memberdef` elements of one compound, after `visited`. */
  method ParseMembers(r0: CoverageIndex, files: CoverageIndex, visited: seq<Node>, members: seq<Node>, fs: FileSystem)
    returns (r: CoverageIndex)
    requires r0 == FoldNodes(files, visited, fs)
    ensures r == FoldNodes(files, visited + members, fs)
  {
    r := r0;
    var m := 0;
    assert visited + members[..m] == visited;
    while m < |members|
      invariant 0 <= m <= |members|
      invariant r == FoldNodes(files, visited + members[..m], fs)
    {
      FoldStep(files, visited + members[..m], members[m], fs);
      assert visited + members[..m + 1] == visited + members[..m] + [members[m]];
      r := ParseDefinition(r, members[m], fs);
      m := m + 1;
    }
    assert members[..m] == members;
  }

  /** One more node is one more `parse_definition`. */
  lemma FoldStep(files: CoverageIndex, visited: seq<Node>, n: Node, fs: FileSystem)
    ensures FoldNodes(files, visited + [n], fs) == ParseDefinition(FoldNodes(files, visited, fs), n, fs)
  {
    assert (visited + [n])[..|visited|] == visited;
  }

  /** One more compound adds its `compounddef`, then its `memberdef` elements. */
  lemma FlattenStep(doc: Document, c: nat)
    requires c < |doc|
    ensures Flatten(doc[..c + 1]) == Flatten(doc[..c]) + [doc[c].def] + doc[c].members
  {
    assert doc[..c + 1][..c] == doc[..c];
  }

  /** `parse`: every `compound` of the index that is not a directory or group and whose file exists. */
  method Parse(index: seq<IndexEntry>, dir: string, fs: FileSystem) returns (files: CoverageIndex)
    ensures files == ParseIndex(index, dir, fs)
  {
    files := map[];
    var i := 0;
    while i < |index|
      invariant 0 <= i <= |index|
      invariant files == ParseIndex(index[..i], dir, fs)
    {
      var entry := index[i];
      ParseIndexStep(index, i, dir, fs);
      if entry.kind == Some("dir") || entry.kind == Some("group") {
        i := i + 1;
        continue;
      }
      var path := Join(dir, Format(entry.refid) + ".xml");
      if fs.isfile(path) {
        files := ParseFile(files, fs.load(path), fs);
      }
      i := i + 1;
    }
    assert index[..i] == index;
  }

  /** One more index entry either folds in its compound file or leaves the index as it is. */
  lemma ParseIndexStep(index: seq<IndexEntry>, i: nat, dir: string, fs: FileSystem)
    requires i < |index|
    ensures Loads(dir, index[i], fs) ==>
      ParseIndex(index[..i + 1], dir, fs) == FoldNodes(ParseIndex(index[..i], dir, fs), Flatten(fs.load(CompoundPath(dir, index[i]))), fs)
    ensures !Loads(dir, index[i], fs) ==> ParseIndex(index[..i + 1], dir, fs) == ParseIndex(index[..i], dir, fs)
  {
    var prefix := index[..i + 1];
    assert prefix[..|prefix| - 1] == index[..i];
    assert prefix[|prefix| - 1] == index[i];
  }

  // ---------------------------------------------------------------------------
  // Properties of the folds

  /** Folding a concatenation is folding its parts in turn. */
  lemma {:induction false} FoldAppend(files: CoverageIndex, a: seq<Node>, b: seq<Node>, fs: FileSystem)
    ensures FoldNodes(files, a + b, fs) == FoldNodes(FoldNodes(files, a, fs), b, fs)
    decreases |b|
  {
    if b == [] {
      assert a + b == a;
    } else {
      var b' := b[..|b| - 1];
      assert (a + b)[..|a + b| - 1] == a + b';
      FoldAppend(files, a, b', fs);
    }
  }

  /** A node that does not count (a namespace, a static function, no location, no file) may be dropped. */
  lemma SkippedNodeIsInvisible(files: CoverageIndex, a: seq<Node>, n: Node, b: seq<Node>, fs: FileSystem)
    requires Classify(n, fs).None?
    ensures FoldNodes(files, a + [n] + b, fs) == FoldNodes(files, a + b, fs)
  {
    FoldAppend(files, a + [n], b, fs);
    FoldAppend(files, a, b, fs);
    assert (a + [n])[..|a|] == a;
  }

  /** Last write wins: each entry is the one the last accepted node for it wrote, else the one already there. */
  lemma {:induction false} LastWriteWins(files: CoverageIndex, nodes: seq<Node>, fs: FileSystem, file: string, id: DefId)
    ensures Lookup(FoldNodes(files, nodes, fs), file, id)
      == if LastWrite(nodes, fs, file, id).Some? then LastWrite(nodes, fs, file, id) else Lookup(files, file, id)
  {
    if nodes != [] {
      LastWriteWins(files, nodes[..|nodes| - 1], fs, file, id);
    }
  }

  /** The files of the folded index are those already there and those some accepted node wrote to. */
  lemma {:induction false} FoldFiles(files: CoverageIndex, nodes: seq<Node>, fs: FileSystem)
    ensures FoldNodes(files, nodes, fs).Keys == files.Keys + WrittenFiles(nodes, fs)
  {
    if nodes != [] {
      FoldFiles(files, nodes[..|nodes| - 1], fs);
    }
  }

  /** Nothing is ever removed: every file and every identity already present stays present. */
  lemma NothingRemoved(files: CoverageIndex, nodes: seq<Node>, fs: FileSystem)
    ensures forall f :: f in files ==> f in FoldNodes(files, nodes, fs) && files[f].Keys <= FoldNodes(files, nodes, fs)[f].Keys
  {
    forall f | f in files
      ensures f in FoldNodes(files, nodes, fs) && files[f].Keys <= FoldNodes(files, nodes, fs)[f].Keys
    {
      FoldFiles(files, nodes, fs);
      forall id | id in files[f] ensures id in FoldNodes(files, nodes, fs)[f] {
        LastWriteWins(files, nodes, fs, f, id);
      }
    }
  }

  /** A last write comes from an accepted node of the sequence. */
  lemma {:induction false} LastWriteHasSource(nodes: seq<Node>, fs: FileSystem, file: string, id: DefId)
    requires LastWrite(nodes, fs, file, id).Some?
    ensures exists i :: 0 <= i < |nodes| && Classify(nodes[i], fs) == Some(Write(file, id, LastWrite(nodes, fs, file, id).value))
  {
    var prefix := nodes[..|nodes| - 1];
    var w := Classify(nodes[|nodes| - 1], fs);
    if !(w.Some? && w.value.file == file && w.value.id == id) {
      LastWriteHasSource(prefix, fs, file, id);
      var i :| 0 <= i < |prefix| && Classify(prefix[i], fs) == Some(Write(file, id, LastWrite(prefix, fs, file, id).value));
      assert nodes[i] == prefix[i];
    }
  }

  /** `parse` is one fold of `parse_definition` over every node it loads. */
  lemma {:induction false} ParseIsOneFold(index: seq<IndexEntry>, dir: string, fs: FileSystem)
    ensures ParseIndex(index, dir, fs) == FoldNodes(map[], LoadedNodes(index, dir, fs), fs)
  {
    if index != [] {
      var prefix := index[..|index| - 1];
      var entry := index[|index| - 1];
      ParseIsOneFold(prefix, dir, fs);
      if Loads(dir, entry, fs) {
        FoldAppend(map[], LoadedNodes(prefix, dir, fs), Flatten(fs.load(CompoundPath(dir, entry))), fs);
      } else {
        assert LoadedNodes(index, dir, fs) == LoadedNodes(prefix, dir, fs) + [] == LoadedNodes(prefix, dir, fs);
      }
    }
  }

  /**
    Every entry of the final index was written by a node that counts: never by a namespace-like
    kind, never by a static function, and always by one whose file exists; the entry is the one
    the last such node for that file and identity wrote.
   */
  lemma RecordedEntriesHaveCountedSource(index: seq<IndexEntry>, dir: string, fs: FileSystem, file: string, id: DefId)
    requires file in ParseIndex(index, dir, fs) && id in ParseIndex(index, dir, fs)[file]
    ensures LastWrite(LoadedNodes(index, dir, fs), fs, file, id) == Some(ParseIndex(index, dir, fs)[file][id])
    ensures exists n :: (n in LoadedNodes(index, dir, fs)
      && Classify(n, fs) == Some(Write(file, id, ParseIndex(index, dir, fs)[file][id]))
      && !NamespaceLike(n.kind) && !StaticFunction(n)
      && n.location.Some? && n.location.value.file.Some? && fs.isfile(n.location.value.file.value))
  {
    var nodes := LoadedNodes(index, dir, fs);
    ParseIsOneFold(index, dir, fs);
    LastWriteWins(map[], nodes, fs, file, id);
    LastWriteHasSource(nodes, fs, file, id);
    var i :| 0 <= i < |nodes| && Classify(nodes[i], fs) == Some(Write(file, id, LastWrite(nodes, fs, file, id).value));
    assert nodes[i] in nodes;
  }

  /** Every record of the index `parse` builds holds at least one definition. */
  lemma {:induction false} ParsedRecordsAreNonEmpty(files: CoverageIndex, nodes: seq<Node>, fs: FileSystem)
    requires forall f :: f in files ==> files[f] != map[]
    ensures forall f :: f in FoldNodes(files, nodes, fs) ==> FoldNodes(files, nodes, fs)[f] != map[]
  {
    if nodes != [] {
      ParsedRecordsAreNonEmpty(files, nodes[..|nodes| - 1], fs);
    }
  }

}
