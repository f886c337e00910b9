/**
  What the tool asks of its surroundings. The filesystem and the XML parser are
  not modelled: they are passed in as total functions fixed for one run.
 */
module Host {
  import opened DoxygenXml

  /**
    `isfile` is `os.path.isfile`, `realpath` is `os.path.realpath`, and `load`
    gives the compounds of the XML file at a path (`ET.parse` then `iter`).
   */
  datatype FileSystem = FileSystem(
    isfile: string -> bool,
    realpath: string -> string,
    load: string -> Document)

  /** `os.path.join(a, b)` on POSIX: an absolute `b` replaces `a`; otherwise one '/' separates them. */
  function Join(a: string, b: string): (r: string)
    ensures |b| <= |r| && r[|r| - |b|..] == b
    ensures |b| > 0 && b[0] == '/' ==> r == b
    ensures (|b| == 0 || b[0] != '/') ==> a <= r
    ensures (|b| == 0 || b[0] != '/') ==> |r| == |a| + |b| + (if a != "" && a[|a| - 1] != '/' then 1 else 0)
    ensures (|b| == 0 || b[0] != '/') && a != "" ==> |r| > |b| && r[|r| - |b| - 1] == '/'
  {
    if |b| > 0 && b[0] == '/' then b
    else if a == "" || a[|a| - 1] == '/' then a + b
    else a + "/" + b
  }

}
