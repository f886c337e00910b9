/**
  A worked run: one compound file holding two functions, one with a brief
  description and one with empty descriptions.
 */
module Scenarios {
  import opened Wrappers
  import opened DoxygenXml
  import opened Host
  import opened Classifier
  import opened Loader
  import opened Reporter

  /** A filesystem where only `src/a.c` exists, reached through a symlinked directory. */
  function Disk(): FileSystem {
    FileSystem(p => p == "src/a.c", p => "/home/a.c", p => [])
  }

  function Function(definition: string, name: string, line: int, brief: bool): Node {
    Node("function", Some("no"), Some(name), Some(Child(Some(definition))), Some(Child(Some(name))),
      Some(Child(Some("()"))), Some(Location(Some("src/a.c"), Some(line))), brief, false, false)
  }

  /** The `compounddef` of the file: Doxygen gives its location a file but no line. */
  function FileCompound(): Node {
    Node("file", None, Some("a_8c"), None, None, None, Some(Location(Some("src/a.c"), None)), false, false, false)
  }

  /** How each of the three nodes is classified. */
  lemma ClassifiedNodes()
    ensures Classify(FileCompound(), Disk()) == None
    ensures Classify(Function("int f", "f", 3, true), Disk()) == Some(Write("/home/a.c", Some("int f()"), Entry(3, true)))
    ensures Classify(Function("int g", "g", 7, false), Disk()) == Some(Write("/home/a.c", Some("int g()"), Entry(7, false)))
  {
    OtherKindsAreNotExcluded();
    assert "int f" + "()" == "int f()" && "int g" + "()" == "int g()";
  }

  /** The compound's XML file. */
  function Doc(): Document {
    [Compound(FileCompound(), [Function("int f", "f", 3, true), Function("int g", "g", 7, false)])]
  }
  /** The index after the first function. */
  function AfterF(): CoverageIndex {
    map["/home/a.c" := map[Some("int f()") := Entry(3, true)]]
  }
  /** The index after both functions. */
  function AfterG(): CoverageIndex {
    map["/home/a.c" := map[Some("int f()") := Entry(3, true), Some("int g()") := Entry(7, false)]]
  }
  /** The three calls of `parse_definition`, one at a time. */
  lemma Steps()
    ensures ParseDefinition(map[], FileCompound(), Disk()) == map[]
    ensures ParseDefinition(map[], Function("int f", "f", 3, true), Disk()) == AfterF()
    ensures ParseDefinition(AfterF(), Function("int g", "g", 7, false), Disk()) == AfterG()
  {
    ClassifiedNodes();
  }
  /** The index: the file compound has no line and is skipped; each function is recorded under its signature. */
  lemma TwoFunctionsIndex()
    ensures FoldNodes(map[], Flatten(Doc()), Disk()) == AfterG()
  {
    var fs := Disk();
    var c, f, g := FileCompound(), Function("int f", "f", 3, true), Function("int g", "g", 7, false);
    Steps();
    assert Flatten(Doc()) == [c, f, g];
    FoldStep(map[], [], c, fs);
    FoldStep(map[], [c], f, fs);
    FoldStep(map[], [c, f], g, fs);
    assert [c] == [] + [c] && [c, f] == [c] + [f] && [c, f, g] == [c, f] + [g];
  }
  /** The report of that index: one documented, one undocumented, 50 percent, and `int g()` listed at line 7. */
  lemma TwoFunctionsReport()
    ensures CountDocumented(AfterG()["/home/a.c"]) == 1
    ensures CountUndocumented(AfterG()["/home/a.c"]) == 1
    ensures FilePercent(1, 2) == 50
    ensures ListsUndocumented(AfterG()["/home/a.c"], [Undocumented(7, Some("int g()"))])
  {
    var record := AfterG()["/home/a.c"];
    assert DocumentedIds(record) == {Some("int f()")};
    assert UndocumentedIds(record) == {Some("int g()")};
    var listing := [Undocumented(7, Some("int g()"))];
    forall id | id in record && !record[id].documented
      ensures exists k :: 0 <= k < |listing| && listing[k].id == id
    {
      assert id == Some("int g()");
      assert listing[0].id == id;
    }
  }

}
