/** crates/peerline-transfer/src/scan.rs: which entries an archive holds, and in which order. */
module Scanning {
  import opened Bytes
  import opened Paths
  import opened FileTree

  /** A path given to the sender: its base name and what is there. */
  datatype Source = SourceFile(name: Bytes, content: Bytes) | SourceFolder(name: Bytes, children: seq<Source>)

  predicate NamesDiffer(sources: seq<Source>) {
    forall i, j :: 0 <= i < j < |sources| ==> sources[i].name != sources[j].name
  }

  /** What a file system can hold: proper names, no two alike in one folder, sizes of 64 bits. */
  predicate Exists(s: Source) {
    && IsName(s.name)
    && match s
       case SourceFile(_, content) => |content| < U64_LIMIT
       case SourceFolder(_, children) => NamesDiffer(children) && AllExist(children)
  }

  predicate AllExist(sources: seq<Source>) {
    forall s :: s in sources ==> Exists(s)
  }

  /** An entry of the scan: the names of its relative path and what its source path holds. */
  datatype SourceEntry = SourceEntry(names: seq<Bytes>, node: Node)

  predicate IsEntry(e: SourceEntry) {
    && |e.names| > 0 && AreNames(e.names)
    && (e.node.Content? ==> |e.node.bytes| < U64_LIMIT)
  }

  predicate AreEntries(entries: seq<SourceEntry>) {
    forall i :: 0 <= i < |entries| ==> IsEntry(entries[i])
  }

  /** One source: the file, or the folder and everything below it. */
  function ScanSource(prefix: seq<Bytes>, s: Source): seq<SourceEntry>
    decreases s, 0
  {
    match s
    case SourceFile(name, content) => [SourceEntry(prefix + [name], Content(content))]
    case SourceFolder(name, children) => [SourceEntry(prefix + [name], Folder)] + ScanAll(prefix + [name], children)
  }

  function ScanAll(prefix: seq<Bytes>, sources: seq<Source>): seq<SourceEntry>
    decreases sources, 1
  {
    if sources == [] then [] else ScanSource(prefix, sources[0]) + ScanAll(prefix, sources[1..])
  }


  // ---------------------------------------------------------------------------------------------
  // The order of the entries.

  /** Byte strings in lexicographic order. */
  predicate BytesLe(a: Bytes, b: Bytes) {
    a == [] || (b != [] && (a[0] < b[0] || (a[0] == b[0] && BytesLe(a[1..], b[1..]))))
  }

  /** Paths component by component. */
  predicate NamesLe(a: seq<Bytes>, b: seq<Bytes>) {
    a == [] || (b != [] && (if a[0] == b[0] then NamesLe(a[1..], b[1..]) else BytesLe(a[0], b[0])))
  }

  /** Behind every entry that is not greater, so that equal ones keep their order. */
  function Insert(e: SourceEntry, sorted: seq<SourceEntry>): seq<SourceEntry> {
    if sorted == [] then [e]
    else if NamesLe(sorted[|sorted| - 1].names, e.names) then sorted + [e]
    else Insert(e, sorted[..|sorted| - 1]) + [sorted[|sorted| - 1]]
  }

  function SortByPath(entries: seq<SourceEntry>): seq<SourceEntry> {
    if entries == [] then [] else Insert(entries[|entries| - 1], SortByPath(entries[..|entries| - 1]))
  }

  function ScanSources(sources: seq<Source>): seq<SourceEntry> {
    SortByPath(ScanAll([], sources))
  }

  method Scan(sources: seq<Source>) returns (entries: seq<SourceEntry>)
    ensures entries == ScanSources(sources)
  {
    entries := [];
    for i := 0 to |sources|
      invariant entries + ScanAll([], sources[i..]) == ScanAll([], sources)
    {
      assert sources[i..][1..] == sources[i + 1..];
      assert entries + (ScanSource([], sources[i]) + ScanAll([], sources[i + 1..]))
          == entries + ScanSource([], sources[i]) + ScanAll([], sources[i + 1..]);
      entries := entries + ScanSource([], sources[i]);
    }
    assert entries + [] == entries;
    entries := SortByPath(entries);
  }
}
