/**
  The definition classifier (`parse_definition`): decide whether a node counts,
  whether it is documented, under which file and identity it is recorded, and
  merge it into the coverage index with last-write-wins.
 */
module Classifier {
  import opened Wrappers
  import opened DoxygenXml
  import opened Host

  /** A definition's identity inside one file. None when the chosen name is Python's None and there is no argsstring. */
  type DefId = Option<string>

  /** The value stored for a definition: `(int(line), documented)`. */
  datatype Entry = Entry(line: int, documented: bool)

  /** Definitions of one source file, by identity. */
  type FileRecord = map<DefId, Entry>

  /** The coverage index: resolved source path to that file's record. */
  type CoverageIndex = map<string, FileRecord>

  /** What an accepted node adds to the index. */
  datatype Write = Write(file: string, id: DefId, entry: Entry)

  /** The description children inspected, in the order the source tries them. */
  const DescriptionTags: seq<string> := ["briefdescription", "detaileddescription", "inbodydescription"]

  // ---------------------------------------------------------------------------
  // Exclusion rules

  /** `k` occurs in `s` starting at index `i`. */
  predicate OccursAt(k: string, s: string, i: nat) {
    i + |k| <= |s| && s[i..i + |k|] == k
  }

  /** Python's `k in s` for two strings: `k` is a contiguous substring of `s`. */
  predicate IsSubstring(k: string, s: string)
    decreases |s|
  {
    k <= s || (|s| > 0 && IsSubstring(k, s[1..]))
  }

  lemma {:induction false} IsSubstringIff(k: string, s: string)
    ensures IsSubstring(k, s) <==> exists i: nat :: OccursAt(k, s, i)
    decreases |s|
  {
    if IsSubstring(k, s) {
      if k <= s {
        assert OccursAt(k, s, 0);
      } else {
        IsSubstringIff(k, s[1..]);
        var i: nat :| OccursAt(k, s[1..], i);
        assert s[1..][i..i + |k|] == s[i + 1..i + 1 + |k|];
        assert OccursAt(k, s, i + 1);
      }
    } else {
      forall i: nat ensures !OccursAt(k, s, i) {
        if i == 0 {
          assert !(k <= s);
        } else if OccursAt(k, s, i) {
          assert s[1..][i - 1..i - 1 + |k|] == s[i..i + |k|];
          IsSubstringIff(k, s[1..]);
          assert OccursAt(k, s[1..], i - 1);
          assert false;
        }
      }
    }
  }

  /** `kind in ('namespace')`: the parenthesised literal is a string, so this is a substring test. */
  predicate NamespaceLike(kind: string) {
    IsSubstring(kind, "namespace")
  }

  /** A `function` whose `static` attribute is "yes". */
  predicate StaticFunction(node: Node) {
    node.kind == "function" && node.staticAttr == Some("yes")
  }

  /** Every substring of "namespace" is excluded, not just "namespace" itself. */
  lemma SubstringsOfNamespaceAreExcluded()
    ensures NamespaceLike("namespace") && NamespaceLike("name") && NamespaceLike("")
    ensures NamespaceLike("space") && NamespaceLike("e")
  {
    assert OccursAt("space", "namespace", 4);
    IsSubstringIff("space", "namespace");
    assert OccursAt("e", "namespace", 3);
    IsSubstringIff("e", "namespace");
  }

  /** A kind holding a character that "namespace" lacks is not excluded by the test. */
  lemma KindWithForeignCharacterIsKept(kind: string, c: char)
    requires c in kind && c !in "namespace"
    ensures !NamespaceLike(kind)
  {
    IsSubstringIff(kind, "namespace");
  }

  /** The kinds that Doxygen gives to functions, classes and files are not excluded. */
  lemma OtherKindsAreNotExcluded()
    ensures !NamespaceLike("function") && !NamespaceLike("class") && !NamespaceLike("file")
  {
    KindWithForeignCharacterIsKept("function", 'f');
    KindWithForeignCharacterIsKept("class", 'l');
    KindWithForeignCharacterIsKept("file", 'f');
  }

  // ---------------------------------------------------------------------------
  // Documentation and identity

  /** The loop over the three description tags: some description holds a child element. */
  predicate Documented(node: Node) {
    exists tag | tag in DescriptionTags :: node.HasDescriptionChild(tag)
  }

  lemma DocumentedIff(node: Node)
    ensures Documented(node) <==> node.briefHasChild || node.detailedHasChild || node.inbodyHasChild
  {
    forall tag | tag in DescriptionTags && node.HasDescriptionChild(tag)
      ensures node.briefHasChild || node.detailedHasChild || node.inbodyHasChild
    {
      assert tag == "briefdescription" || tag == "detaileddescription" || tag == "inbodydescription";
    }
    if node.briefHasChild {
      assert DescriptionTags[0] == "briefdescription" && node.HasDescriptionChild(DescriptionTags[0]);
    } else if node.detailedHasChild {
      assert DescriptionTags[1] == "detaileddescription" && node.HasDescriptionChild(DescriptionTags[1]);
    } else if node.inbodyHasChild {
      assert DescriptionTags[2] == "inbodydescription" && node.HasDescriptionChild(DescriptionTags[2]);
    }
  }

  /** The name: the `definition` text, else the `name` text, else the `id` attribute. */
  function ChosenName(node: Node): Option<string> {
    if node.definition.Some? then node.definition.value.text
    else if node.name.Some? then node.name.value.text
    else node.id
  }

  /** The identity: the name alone, or `"%s%s" % (name, argsstring text)` when an argsstring element exists. */
  function DefinitionId(node: Node): DefId {
    if node.argsstring.Some? then Some(Format(ChosenName(node)) + Format(node.argsstring.value.text))
    else ChosenName(node)
  }

  /** Overloads: the same name with different argsstrings gives different identities. */
  lemma OverloadsAreDistinct(a: Node, b: Node)
    requires ChosenName(a) == ChosenName(b)
    requires a.argsstring.Some? && b.argsstring.Some?
    requires Format(a.argsstring.value.text) != Format(b.argsstring.value.text)
    ensures DefinitionId(a) != DefinitionId(b)
  {
    var p := Format(ChosenName(a));
    var x, y := Format(a.argsstring.value.text), Format(b.argsstring.value.text);
    assert (p + x)[|p|..] == x;
    assert (p + y)[|p|..] == y;
  }

  /** Without an argsstring element, the same name gives the same identity. */
  lemma SameNameWithoutArgsCollide(a: Node, b: Node)
    requires ChosenName(a) == ChosenName(b)
    requires a.argsstring.None? && b.argsstring.None?
    ensures DefinitionId(a) == DefinitionId(b)
  {
  }

  // ---------------------------------------------------------------------------
  // Classification and merge

  /** Decide whether `node` counts and, if so, what it writes into the index. */
  function Classify(node: Node, fs: FileSystem): (w: Option<Write>)
    ensures NamespaceLike(node.kind) ==> w.None?
    ensures StaticFunction(node) ==> w.None?
    ensures node.location.None? || node.location.value.file.None? || node.location.value.line.None? ==> w.None?
    ensures node.location.Some? && node.location.value.file.Some? && !fs.isfile(node.location.value.file.value) ==> w.None?
    ensures w.None? ==>
      || NamespaceLike(node.kind) || StaticFunction(node)
      || node.location.None? || node.location.value.file.None? || node.location.value.line.None?
      || !fs.isfile(node.location.value.file.value)
    ensures w.Some? ==>
      && w.value.file == fs.realpath(node.location.value.file.value)
      && w.value.id == DefinitionId(node)
      && w.value.entry.line == node.location.value.line.value
      && (w.value.entry.documented <==> node.briefHasChild || node.detailedHasChild || node.inbodyHasChild)
  {
    DocumentedIff(node);
    if NamespaceLike(node.kind) then None
    else if StaticFunction(node) then None
    else match node.location
      case None => None
      case Some(loc) =>
        if loc.line.None? || loc.file.None? then None
        else if !fs.isfile(loc.file.value) then None
        else Some(Write(fs.realpath(loc.file.value), DefinitionId(node), Entry(loc.line.value, Documented(node))))
  }

  /** The record of `file`, or an empty one (`definitions = {}` unless `filename in files`). */
  function RecordOf(files: CoverageIndex, file: string): FileRecord {
    if file in files then files[file] else map[]
  }

  /** The entry stored for `id` in `file`, if any. */
  function Lookup(files: CoverageIndex, file: string, id: DefId): Option<Entry> {
    if file in files && id in files[file] then Some(files[file][id]) else None
  }

  /** `parse_definition`: the index after classifying `node` and merging what it writes. */
  function ParseDefinition(files: CoverageIndex, node: Node, fs: FileSystem): (r: CoverageIndex)
    ensures Classify(node, fs).None? ==> r == files
    ensures Classify(node, fs).Some? ==>
      var w := Classify(node, fs).value;
      && r.Keys == files.Keys + {w.file}
      && r[w.file].Keys == RecordOf(files, w.file).Keys + {w.id}
      && r[w.file][w.id] == w.entry
      && (forall id :: id in RecordOf(files, w.file) && id != w.id ==> r[w.file][id] == files[w.file][id])
      && (forall f :: f in files && f != w.file ==> r[f] == files[f])
    ensures forall f, id :: Lookup(files, f, id).Some? ==> Lookup(r, f, id).Some?
  {
    match Classify(node, fs)
    case None => files
    case Some(w) => files[w.file := RecordOf(files, w.file)[w.id := w.entry]]
  }

}
