/**
  The parts of Doxygen's XML output that the coverage tool reads.

  A definition node is a `compounddef` or a `memberdef` element. Only the
  attributes and children that the tool looks at are kept; everything else
  in the element is irrelevant to the result.
 */
module DoxygenXml {
  import opened Wrappers

  /** A child element that is present. `text` is None for an element without text (`<argsstring/>`). */
  datatype Child = Child(text: Option<string>)

  /** The `location` child: its `file` and `line` attributes (the line already read as an integer). */
  datatype Location = Location(file: Option<string>, line: Option<int>)

  /**
    One definition node. `kind`, `staticAttr` and `id` are attributes; `definition`, `name`,
    `argsstring` and `location` are the first child of that tag, if any; the three flags say
    whether some `briefdescription`, `detaileddescription` or `inbodydescription` child
    holds a child element of its own.
   */
  datatype Node = Node(
    kind: string,
    staticAttr: Option<string>,
    id: Option<string>,
    definition: Option<Child>,
    name: Option<Child>,
    argsstring: Option<Child>,
    location: Option<Location>,
    briefHasChild: bool,
    detailedHasChild: bool,
    inbodyHasChild: bool)
  {
    /** Whether `findall("./<tag>/")` finds anything: the named description has a child element. */
    predicate HasDescriptionChild(tag: string) {
      if tag == "briefdescription" then briefHasChild
      else if tag == "detaileddescription" then detailedHasChild
      else if tag == "inbodydescription" then inbodyHasChild
      else false
    }
  }

  /** A `compounddef` together with the `memberdef` elements nested in it, in document order. */
  datatype Compound = Compound(def: Node, members: seq<Node>)

  /** A compound's XML file: its `compounddef` elements in document order. */
  type Document = seq<Compound>

  /** A `compound` entry of `index.xml`: its `kind` and `refid` attributes. */
  datatype IndexEntry = IndexEntry(kind: Option<string>, refid: Option<string>)

  /** Python's `"%s" % t` for an optional text: None is written as "None". */
  function Format(t: Option<string>): string {
    match t
    case None => "None"
    case Some(s) => s
  }

}
