/** Unpacking what was packed: from the scanned sources, through frames and chunks, into an empty destination. */
module ArchiveRoundTrip {
  import opened Bytes
  import opened ArchiveTypes
  import opened Paths
  import opened FileTree
  import opened Framing
  import opened Scanning
  import opened ScanLaws
  import opened Packing
  import opened Unpacking
  import UnpackLaws

  function At(destination: Location, e: SourceEntry): Location {
    destination + e.names
  }

  /** No path twice and nothing below a file. */
  predicate Compatible(entries: seq<SourceEntry>) {
    && EntriesDiffer(entries)
    && forall i, j :: 0 <= i < |entries| && 0 <= j < |entries| && i != j && entries[i].node.Content?
         ==> !(entries[i].names <= entries[j].names)
  }

  predicate NoFileOn(tree: Tree, loc: Location) {
    forall p :: p in tree && p <= loc ==> tree[p].Folder?
  }

  /** There is room for an entry: no file on the way to it, and for a file nothing in its place. */
  predicate RoomFor(tree: Tree, destination: Location, e: SourceEntry) {
    NoFileOn(tree, At(destination, e)) && (e.node.Content? ==> At(destination, e) !in tree)
  }

  predicate RoomForAll(tree: Tree, destination: Location, entries: seq<SourceEntry>) {
    && IsTree(tree)
    && NoFileOn(tree, destination)
    && forall e :: e in entries ==> RoomFor(tree, destination, e)
  }

  ghost predicate OnTheWay(destination: Location, e: SourceEntry, loc: Location, node: Node) {
    loc <= At(destination, e) && node == (if loc == At(destination, e) then e.node else Folder)
  }

  /** The destination, an entry, or a folder on the way to one of these. */
  ghost predicate Reached(destination: Location, done: seq<SourceEntry>, loc: Location, node: Node) {
    || (loc <= destination && node.Folder?)
    || exists e :: e in done && OnTheWay(destination, e, loc, node)
  }

  predicate AllKept(before: Tree, tree: Tree) {
    forall loc :: loc in before ==> loc in tree && tree[loc] == before[loc]
  }

  ghost predicate AllReached(destination: Location, before: Tree, done: seq<SourceEntry>, tree: Tree) {
    forall loc :: loc in tree && loc !in before ==> Reached(destination, done, loc, tree[loc])
  }

  predicate AllThere(destination: Location, done: seq<SourceEntry>, tree: Tree) {
    forall e :: e in done ==> At(destination, e) in tree && tree[At(destination, e)] == e.node
  }

  /** What was there before is still there, and new are exactly these entries and the folders on the way. */
  ghost predicate Landed(destination: Location, before: Tree, done: seq<SourceEntry>, tree: Tree) {
    && IsTree(tree)
    && AllKept(before, tree)
    && AllReached(destination, before, done, tree)
    && AllThere(destination, done, tree)
  }

  // ---------------------------------------------------------------------------------------------
  // One entry on the tree.

  lemma CompatiblePair(done: seq<SourceEntry>, e: SourceEntry, other: SourceEntry)
    requires Compatible(done + [e]) && other in done
    ensures other.names != e.names
    ensures other.node.Content? ==> !(other.names <= e.names)
    ensures e.node.Content? ==> !(e.names <= other.names)
  {
    var all := done + [e];
    var i :| 0 <= i < |done| && done[i] == other;
    assert all[i] == other && all[|done|] == e;
  }

  lemma UnderDestination(destination: Location, a: seq<Bytes>, b: seq<Bytes>)
    ensures destination + a <= destination + b <==> a <= b
    ensures destination + a == destination + b <==> a == b
  {
    if destination + a <= destination + b {
      assert (destination + b)[..|destination + a|] == destination + b[..|a|];
      SplitConcat(destination, a, destination, b[..|a|]);
    }
    if destination + a == destination + b {
      SplitConcat(destination, a, destination, b);
    }
  }

  /** No file is in the way of the next entry. */
  lemma NoFileInTheWay(destination: Location, before: Tree, done: seq<SourceEntry>, tree: Tree, e: SourceEntry, loc: Location)
    requires RoomFor(before, destination, e) && Landed(destination, before, done, tree)
    requires Compatible(done + [e]) && loc <= At(destination, e)
    ensures CreateDirAll(tree, loc).Some?
  {
    hide CreateDirAll, IsTree;
    CreateDirAllFailsExactly(tree, loc);
    if CreateDirAll(tree, loc).None? {
      var n :| 0 <= n <= |loc| && loc[..n] in tree && !IsFolder(tree, loc[..n]);
      var p := loc[..n];
      assert p <= At(destination, e);
      assert p !in before;
      assert Reached(destination, done, p, tree[p]);
      var other :| other in done && OnTheWay(destination, other, p, tree[p]);
      CompatiblePair(done, e, other);
      UnderDestination(destination, other.names, e.names);
    }
  }

  /** New folders on the way to `loc`, which is on the way to `e`. */
  lemma FoldersLand(destination: Location, before: Tree, done: seq<SourceEntry>, tree: Tree, e: SourceEntry,
                    loc: Location, tree': Tree)
    requires Landed(destination, before, done, tree) && WithFolders(tree, loc, tree')
    requires loc <= At(destination, e) && (e.node.Folder? || |loc| < |At(destination, e)|)
    ensures IsTree(tree') && AllKept(before, tree')
    ensures AllReached(destination, before, done + [e], tree') && AllThere(destination, done, tree')
  {
    hide IsTree, Reached;
    assert AllReached(destination, before, done + [e], tree') by {
      hide AllThere;
      forall l | l in tree' && l !in before ensures Reached(destination, done + [e], l, tree'[l]) {
        if l in tree {
          ReachedStays(destination, done, e, l, tree[l]);
        } else {
          ReachedNow(destination, done, e, l, tree'[l]);
        }
      }
    }
  }

  lemma ReachedStays(destination: Location, done: seq<SourceEntry>, e: SourceEntry, loc: Location, node: Node)
    requires Reached(destination, done, loc, node)
    ensures Reached(destination, done + [e], loc, node)
  {
    if !(loc <= destination && node.Folder?) {
      var x :| x in done && OnTheWay(destination, x, loc, node);
      assert x in done + [e];
    }
  }

  lemma ReachedNow(destination: Location, done: seq<SourceEntry>, e: SourceEntry, loc: Location, node: Node)
    requires OnTheWay(destination, e, loc, node)
    ensures Reached(destination, done + [e], loc, node)
  {
    assert e in done + [e];
  }

  /** A folder entry lands. */
  lemma FolderLands(destination: Location, before: Tree, done: seq<SourceEntry>, tree: Tree, e: SourceEntry)
    requires RoomFor(before, destination, e) && Landed(destination, before, done, tree)
    requires Compatible(done + [e]) && e.node.Folder?
    ensures CreateDirAll(tree, At(destination, e)).Some?
    ensures Landed(destination, before, done + [e], CreateDirAll(tree, At(destination, e)).value)
  {
    hide CreateDirAll, Compatible, IsTree, AllReached, AllKept, RoomFor;
    var at := At(destination, e);
    NoFileInTheWay(destination, before, done, tree, e, at);
    var tree' := CreateDirAll(tree, at).value;
    CreateDirAllAdds(tree, at);
    FoldersLand(destination, before, done, tree, e, at, tree');
  }

  lemma MoreFoldersAbove(destination: Location, before: Tree, done: seq<SourceEntry>, tree: Tree, tree': Tree)
    requires Landed(destination, before, done, tree) && WithFolders(tree, destination, tree')
    ensures Landed(destination, before, done, tree')
  {
    hide IsTree;
    assert AllReached(destination, before, done, tree') by {
      hide AllThere, AllKept;
      forall l | l in tree' && l !in before ensures Reached(destination, done, l, tree'[l]) {
        if l in tree {
          assert Reached(destination, done, l, tree[l]);
        }
      }
    }
    assert AllThere(destination, done, tree') by { hide AllReached, AllKept; }
    hide AllThere, AllReached;
  }

  /** Making the destination itself changes nothing that counts. */
  lemma DestinationLands(destination: Location, before: Tree, done: seq<SourceEntry>, tree: Tree, e: SourceEntry)
    requires RoomFor(before, destination, e) && Landed(destination, before, done, tree) && Compatible(done + [e])
    ensures CreateDirAll(tree, destination).Some?
    ensures Landed(destination, before, done, CreateDirAll(tree, destination).value)
  {
    assert IsTree(tree);
    assert destination <= At(destination, e);
    hide *;
    NoFileInTheWay(destination, before, done, tree, e, destination);
    CreateDirAllAdds(tree, destination);
    MoreFoldersAbove(destination, before, done, tree, CreateDirAll(tree, destination).value);
  }

  /** The path of the next file is free. */
  lemma FileIsFree(destination: Location, before: Tree, done: seq<SourceEntry>, tree: Tree, e: SourceEntry)
    requires RoomFor(before, destination, e) && Landed(destination, before, done, tree)
    requires Compatible(done + [e]) && e.node.Content? && e.names != []
    ensures At(destination, e) !in tree
  {
    var at := At(destination, e);
    if at in tree {
      assert Reached(destination, done, at, tree[at]);
      assert !(at <= destination);
      var other :| other in done && OnTheWay(destination, other, at, tree[at]);
      CompatiblePair(done, e, other);
      UnderDestination(destination, e.names, other.names);
    }
  }

  lemma ParentOnTheWay(destination: Location, e: SourceEntry)
    requires e.names != []
    ensures At(destination, e) != [] && destination <= Parent(At(destination, e)) <= At(destination, e)
    ensures |Parent(At(destination, e))| < |At(destination, e)|
  {
  }

  /** A file entry lands. */
  lemma FileLands(destination: Location, before: Tree, done: seq<SourceEntry>, tree: Tree, e: SourceEntry)
    requires RoomFor(before, destination, e) && Landed(destination, before, done, tree)
    requires Compatible(done + [e]) && e.node.Content? && e.names != []
    ensures var at := At(destination, e);
      && at != [] && at !in tree && CreateDirAll(tree, Parent(at)).Some?
      && var tree' := Persist(CreateDirAll(tree, Parent(at)).value, at, e.node.bytes);
      && tree'.Some? && Landed(destination, before, done + [e], tree'.value)
  {
    hide CreateDirAll, Compatible, IsTree, AllReached, AllKept, AllThere, RoomFor;
    ParentOnTheWay(destination, e);
    FileIsFree(destination, before, done, tree, e);
    var at := At(destination, e);
    NoFileInTheWay(destination, before, done, tree, e, Parent(at));
    var withParent := CreateDirAll(tree, Parent(at)).value;
    CreateDirAllAdds(tree, Parent(at));
    FoldersLand(destination, before, done, tree, e, Parent(at), withParent);
    PersistKeepsTree(withParent, at, e.node.bytes);
    NodeLands(destination, before, done, withParent, e, at);
  }

  lemma NodeLands(destination: Location, before: Tree, done: seq<SourceEntry>, tree: Tree, e: SourceEntry, at: Location)
    requires at == At(destination, e) && at !in tree && IsTree(tree[at := e.node])
    requires AllKept(before, tree) && AllReached(destination, before, done + [e], tree) && AllThere(destination, done, tree)
    ensures Landed(destination, before, done + [e], tree[at := e.node])
  {
    hide IsTree, At, AllReached, AllThere, Reached, OnTheWay;
    NodeIsReached(destination, before, done, tree, e, at);
    NodeIsThere(destination, done, tree, e, at);
  }

  lemma NodeIsReached(destination: Location, before: Tree, done: seq<SourceEntry>, tree: Tree, e: SourceEntry, at: Location)
    requires at == At(destination, e) && AllReached(destination, before, done + [e], tree)
    ensures AllReached(destination, before, done + [e], tree[at := e.node])
  {
    ReachedNow(destination, done, e, at, e.node);
    hide Reached, At;
  }

  lemma NodeIsThere(destination: Location, done: seq<SourceEntry>, tree: Tree, e: SourceEntry, at: Location)
    requires at == At(destination, e) && at !in tree && AllThere(destination, done, tree)
    ensures AllThere(destination, done + [e], tree[at := e.node])
  {
    hide At;
    var tree' := tree[at := e.node];
    forall x | x in done + [e] ensures At(destination, x) in tree' && tree'[At(destination, x)] == x.node {
      assert x in done || x == e;
    }
  }

  // ---------------------------------------------------------------------------------------------
  // The bookkeeping of the manifest.

  function EntryKey(e: SourceEntry): seq<Component>
    requires IsEntry(e)
  {
    Components(RelativePath(e))
  }

  lemma KeysByNames(e: SourceEntry, other: SourceEntry)
    requires IsEntry(e) && IsEntry(other)
    ensures EntryKey(e) == EntryKey(other) <==> e.names == other.names
    ensures Split(RelativePath(e)) == e.names && ValidateRelativePath(RelativePath(e)) == None
  {
    NamesMakeAPath(e.names);
    NamesMakeAPath(other.names);
    hide Components, ValidateRelativePath, Split;
    SameComponentsSameText(RelativePath(e), RelativePath(other));
  }

  /** What is still expected after the first `k` entries. */
  ghost predicate Outstanding(hash: Bytes -> Digest, entries: seq<SourceEntry>, k: nat, remaining: Remaining)
    requires AreEntries(entries)
  {
    && (forall j :: k <= j < |entries| ==>
          EntryKey(entries[j]) in remaining && remaining[EntryKey(entries[j])] == ManifestEntryOf(hash, entries[j]))
    && (forall key :: key in remaining ==> exists j :: k <= j < |entries| && key == EntryKey(entries[j]))
  }

  lemma OneLess(hash: Bytes -> Digest, entries: seq<SourceEntry>, k: nat, remaining: Remaining)
    requires AreEntries(entries) && EntriesDiffer(entries) && k < |entries| && Outstanding(hash, entries, k, remaining)
    ensures Outstanding(hash, entries, k + 1, remaining - {EntryKey(entries[k])})
  {
    hide EntryKey, ManifestEntryOf, IsEntry;
    forall j | k < j < |entries| ensures EntryKey(entries[j]) != EntryKey(entries[k]) {
      KeysByNames(entries[j], entries[k]);
    }
  }

  lemma ExpectsEntry(hash: Bytes -> Digest, entries: seq<SourceEntry>, remaining: Remaining, j: nat)
    requires AreEntries(entries) && EntriesDiffer(entries) && j < |entries|
    requires UnpackLaws.Covers(ManifestEntries(hash, entries), remaining)
    ensures EntryKey(entries[j]) in remaining && remaining[EntryKey(entries[j])] == ManifestEntryOf(hash, entries[j])
  {
    hide Components, RelativePath, IsEntry;
    var all := ManifestEntries(hash, entries);
    assert all[j] in all && all[j] == ManifestEntryOf(hash, entries[j]);
    var found := remaining[EntryKey(entries[j])];
    var i :| 0 <= i < |all| && all[i] == found;
    hide EntryKey, EntriesDiffer, UnpackLaws.Covers;
    KeysByNames(entries[i], entries[j]);
    OneIndexPerPath(entries, i, j);
  }

  lemma OneIndexPerPath(entries: seq<SourceEntry>, i: nat, j: nat)
    requires EntriesDiffer(entries) && i < |entries| && j < |entries| && entries[i].names == entries[j].names
    ensures i == j
  {
  }

  lemma AllOutstanding(hash: Bytes -> Digest, entries: seq<SourceEntry>, remaining: Remaining)
    requires AreEntries(entries) && EntriesDiffer(entries)
    requires UnpackLaws.Covers(ManifestEntries(hash, entries), remaining)
    ensures Outstanding(hash, entries, 0, remaining)
  {
    hide Components, RelativePath, IsEntry, EntriesDiffer;
    var all := ManifestEntries(hash, entries);
    forall j | 0 <= j < |entries|
      ensures EntryKey(entries[j]) in remaining && remaining[EntryKey(entries[j])] == ManifestEntryOf(hash, entries[j])
    {
      ExpectsEntry(hash, entries, remaining, j);
    }
    forall key | key in remaining ensures exists j :: 0 <= j < |entries| && key == EntryKey(entries[j]) {
      var j :| 0 <= j < |all| && all[j] == remaining[key];
      assert key == EntryKey(entries[j]);
    }
  }

  lemma NothingOutstanding(hash: Bytes -> Digest, entries: seq<SourceEntry>, remaining: Remaining)
    requires AreEntries(entries) && Outstanding(hash, entries, |entries|, remaining)
    ensures remaining == map[]
  {
    hide EntryKey;
    assert forall key :: key !in remaining;
  }

  /** The entries that are listed are valid, and collide exactly when two paths are the same. */
  lemma ManifestIsValid(hash: Bytes -> Digest, entries: seq<SourceEntry>)
    requires AreEntries(entries)
    ensures UnpackLaws.AllValid(ManifestEntries(hash, entries))
    ensures UnpackLaws.KeysDiffer(ManifestEntries(hash, entries)) <==> EntriesDiffer(entries)
  {
    hide Components, ValidateRelativePath, Split, IsEntry, RelativePath;
    var all := ManifestEntries(hash, entries);
    forall e | e in all ensures EntryError(e) == None {
      var i :| 0 <= i < |all| && all[i] == e;
      KeysByNames(entries[i], entries[i]);
    }
    forall i, j | 0 <= i < j < |entries|
      ensures Components(all[i].path) == Components(all[j].path) <==> entries[i].names == entries[j].names
    {
      KeysByNames(entries[i], entries[j]);
    }
  }

  // ---------------------------------------------------------------------------------------------
  // The frames of one entry.

  lemma ConsumeOne(env: Env, codec: FramesCodec, s: State, frame: ArchiveFrame, tail: Bytes, broken: bool)
    requires DecodesWhatItEncodes(codec) && |codec.encode(frame)| < U32_LIMIT
    requires OnFrame(env, s, frame).Going?
    ensures Consume(env, codec, s, WriteFrame(codec, frame) + tail, broken)
            == Consume(env, codec, OnFrame(env, s, frame).state, tail, broken)
  {
    hide OnFrame, WriteFrame, ReadFrame;
    FrameRoundTripExactly(codec, frame, tail, broken);
  }

  lemma {:induction false} ConsumeChunks(env: Env, codec: FramesCodec, s: State, active: ActiveFile, chunks: seq<Bytes>,
                                         tail: Bytes, broken: bool)
    requires DecodesWhatItEncodes(codec) && AllShort(codec, FileChunks(chunks), U32_LIMIT - 1)
    requires s.current == Some(active) && |active.content| + |Flatten(chunks)| <= active.size
    ensures Consume(env, codec, s, WriteFrames(codec, FileChunks(chunks)) + tail, broken)
            == Consume(env, codec, s.(current := Some(active.(content := active.content + Flatten(chunks)))), tail, broken)
    decreases |chunks|
  {
    hide Consume, WriteFrame;
    if chunks == [] {
      assert WriteFrames(codec, FileChunks(chunks)) + tail == tail;
      assert active.content + [] == active.content;
    } else {
      var frames := FileChunks(chunks);
      var rest := FileChunks(chunks[1..]);
      assert frames[1..] == rest;
      assert WriteFrames(codec, frames) + tail == WriteFrame(codec, frames[0]) + (WriteFrames(codec, rest) + tail);
      hide WriteFrames;
      var active' := active.(content := active.content + chunks[0]);
      ConsumeOne(env, codec, s, frames[0], WriteFrames(codec, rest) + tail, broken);
      ConsumeChunks(env, codec, s.(current := Some(active')), active', chunks[1..], tail, broken);
      assert active.content + (chunks[0] + Flatten(chunks[1..])) == active'.content + Flatten(chunks[1..]);
    }
  }

  predicate Awaits(env: Env, s: State, e: SourceEntry)
    requires IsEntry(e)
  {
    EntryKey(e) in s.remaining && s.remaining[EntryKey(e)] == ManifestEntryOf(env.hash, e)
  }

  function AfterEntry(s: State, tree: Tree, e: SourceEntry, m: Made): State
    requires IsEntry(e)
  {
    State(tree, s.remaining - {EntryKey(e)}, None, s.made + [m])
  }

  lemma ConsumeFolder(env: Env, codec: FramesCodec, before: Tree, done: seq<SourceEntry>, s: State, e: SourceEntry,
                      tail: Bytes, broken: bool) returns (s': State)
    requires DecodesWhatItEncodes(codec) && IsEntry(e) && e.node.Folder?
    requires AllShort(codec, EntryFrames(env.hash, e, []), U32_LIMIT - 1)
    requires RoomFor(before, env.destination, e) && Landed(env.destination, before, done, s.tree) && Compatible(done + [e])
    requires Awaits(env, s, e) && s.current == None
    ensures Consume(env, codec, s, WriteFrames(codec, EntryFrames(env.hash, e, [])) + tail, broken)
            == Consume(env, codec, s', tail, broken)
    ensures Landed(env.destination, before, done + [e], s'.tree)
    ensures s'.remaining == s.remaining - {EntryKey(e)} && s'.current == None
  {
    var frame := DirectoryFrame(RelativePath(e));
    assert EntryFrames(env.hash, e, []) == [frame] && [frame][0] == frame;
    assert WriteFrames(codec, [frame]) + tail == WriteFrame(codec, frame) + tail by {
      assert [frame][1..] == [];
      assert WriteFrame(codec, frame) + [] == WriteFrame(codec, frame);
    }
    hide Consume, WriteFrame, WriteFrames, Landed, RoomFor, Compatible, CreateDirAll, ValidateRelativePath, Components, Split;
    KeysByNames(e, e);
    FolderLands(env.destination, before, done, s.tree, e);
    var at := At(env.destination, e);
    assert SafeJoin(env.destination, RelativePath(e)) == at;
    s' := AfterEntry(s, CreateDirAll(s.tree, at).value, e, Made(ManifestEntryOf(env.hash, e), at, []));
    assert OnFrame(env, s, frame) == Going(s');
    ConsumeOne(env, codec, s, frame, tail, broken);
  }

  /** `FileStart` of an awaited file. */
  lemma StartsFile(env: Env, s: State, e: SourceEntry, tree: Tree)
    requires IsEntry(e) && e.node.Content? && Awaits(env, s, e) && s.current == None
    requires CreateDirAll(s.tree, env.destination) == Some(tree)
    ensures OnFrame(env, s, FileStart(RelativePath(e), |e.node.bytes|, env.hash(e.node.bytes)))
            == Going(State(tree, s.remaining, Some(ActiveFile(RelativePath(e), |e.node.bytes|,
                env.hash(e.node.bytes), [])), s.made))
  {
    hide CreateDirAll, Components;
  }

  /** `FileEnd` of a complete file. */
  lemma EndsFile(env: Env, s: State, e: SourceEntry, at: Location, withParent: Tree, tree: Tree)
    requires IsEntry(e) && e.node.Content? && Awaits(env, s, e)
    requires s.current == Some(ActiveFile(RelativePath(e), |e.node.bytes|, env.hash(e.node.bytes), e.node.bytes))
    requires at == At(env.destination, e) && at !in s.tree && at != []
    requires CreateDirAll(s.tree, Parent(at)) == Some(withParent) && Persist(withParent, at, e.node.bytes) == Some(tree)
    ensures OnFrame(env, s, FileEnd) == Going(AfterEntry(s, tree, e, Made(ManifestEntryOf(env.hash, e), at, e.node.bytes)))
  {
    hide CreateDirAll, Components, ValidateRelativePath, Split;
    KeysByNames(e, e);
    assert SafeJoin(env.destination, RelativePath(e)) == at;
    NonOverwritingIsFree(s.tree, at);
    hide NonOverwritingPath;
    assert ChosenPath(env, s.tree, RelativePath(e)) == at;
  }

  lemma FilePieces(codec: FramesCodec, hash: Bytes -> Digest, e: SourceEntry, chunks: seq<Bytes>, tail: Bytes)
    requires IsEntry(e) && e.node.Content?
    ensures WriteFrames(codec, EntryFrames(hash, e, chunks)) + tail
            == WriteFrame(codec, FileStart(RelativePath(e), |e.node.bytes|, hash(e.node.bytes)))
               + (WriteFrames(codec, FileChunks(chunks)) + (WriteFrame(codec, FileEnd) + tail))
  {
    hide RelativePath, WriteFrame;
    var start := FileStart(RelativePath(e), |e.node.bytes|, hash(e.node.bytes));
    var frames := EntryFrames(hash, e, chunks);
    assert frames == [start] + FileChunks(chunks) + [FileEnd];
    WriteOneMore(codec, [start] + FileChunks(chunks), FileEnd);
    assert ([start] + FileChunks(chunks))[1..] == FileChunks(chunks);
  }

  lemma ShortPieces(codec: FramesCodec, hash: Bytes -> Digest, e: SourceEntry, chunks: seq<Bytes>)
    requires IsEntry(e) && e.node.Content? && AllShort(codec, EntryFrames(hash, e, chunks), U32_LIMIT - 1)
    ensures |codec.encode(FileStart(RelativePath(e), |e.node.bytes|, hash(e.node.bytes)))| < U32_LIMIT
    ensures AllShort(codec, FileChunks(chunks), U32_LIMIT - 1) && |codec.encode(FileEnd)| < U32_LIMIT
  {
    hide RelativePath, FileChunks;
    var frames := EntryFrames(hash, e, chunks);
    assert frames == [FileStart(RelativePath(e), |e.node.bytes|, hash(e.node.bytes))] + FileChunks(chunks) + [FileEnd];
    assert frames[0] == FileStart(RelativePath(e), |e.node.bytes|, hash(e.node.bytes));
    assert frames[|frames| - 1] == FileEnd;
    forall i | 0 <= i < |FileChunks(chunks)| ensures FileChunks(chunks)[i] == frames[i + 1] {
    }
  }

  /** The frames of a file take the state from the file's start to its end. */
  lemma ConsumeFileFrames(env: Env, codec: FramesCodec, s: State, e: SourceEntry, chunks: seq<Bytes>, tree: Tree,
                          s2: State, s3: State, tail: Bytes, broken: bool)
    requires DecodesWhatItEncodes(codec) && IsEntry(e) && e.node.Content? && ChunksOf(e, chunks)
    requires AllShort(codec, EntryFrames(env.hash, e, chunks), U32_LIMIT - 1)
    requires Awaits(env, s, e) && s.current == None && CreateDirAll(s.tree, env.destination) == Some(tree)
    requires s2 == State(tree, s.remaining,
                         Some(ActiveFile(RelativePath(e), |e.node.bytes|, env.hash(e.node.bytes), e.node.bytes)), s.made)
    requires OnFrame(env, s2, FileEnd) == Going(s3)
    ensures Consume(env, codec, s, WriteFrames(codec, EntryFrames(env.hash, e, chunks)) + tail, broken)
            == Consume(env, codec, s3, tail, broken)
  {
    ShortPieces(codec, env.hash, e, chunks);
    FilePieces(codec, env.hash, e, chunks, tail);
    StartsFile(env, s, e, tree);
    hide *;
    var content, digest := e.node.bytes, env.hash(e.node.bytes);
    var active := ActiveFile(RelativePath(e), |content|, digest, []);
    var s1 := State(tree, s.remaining, Some(active), s.made);
    var afterChunks := WriteFrame(codec, FileEnd) + tail;
    ConsumeOne(env, codec, s, FileStart(RelativePath(e), |content|, digest), WriteFrames(codec,
        FileChunks(chunks)) + afterChunks, broken);
    assert Flatten(chunks) == content by { ChunksAreContent(e, chunks); }
    ConsumeChunks(env, codec, s1, active, chunks, afterChunks, broken);
    assert [] + content == content;
    ConsumeOne(env, codec, s2, FileEnd, tail, broken);
  }

  lemma ChunksAreContent(e: SourceEntry, chunks: seq<Bytes>)
    requires e.node.Content? && ChunksOf(e, chunks)
    ensures Flatten(chunks) == e.node.bytes
  {
  }

  lemma ConsumeFile(env: Env, codec: FramesCodec, before: Tree, done: seq<SourceEntry>, s: State, e: SourceEntry,
                    chunks: seq<Bytes>, tail: Bytes, broken: bool) returns (s': State)
    requires DecodesWhatItEncodes(codec) && IsEntry(e) && e.node.Content? && ChunksOf(e, chunks)
    requires AllShort(codec, EntryFrames(env.hash, e, chunks), U32_LIMIT - 1)
    requires RoomFor(before, env.destination, e) && Landed(env.destination, before, done, s.tree) && Compatible(done + [e])
    requires Awaits(env, s, e) && s.current == None
    ensures Consume(env, codec, s, WriteFrames(codec, EntryFrames(env.hash, e, chunks)) + tail, broken)
            == Consume(env, codec, s', tail, broken)
    ensures Landed(env.destination, before, done + [e], s'.tree)
    ensures s'.remaining == s.remaining - {EntryKey(e)} && s'.current == None
  {
    assert e.names != [];
    hide Consume, WriteFrame, WriteFrames, Landed, RoomFor, Compatible, CreateDirAll, Persist, OnFrame, EntryFrames, AllShort,
         IsEntry, EntryKey, ChunksOf, RelativePath, ManifestEntryOf;
    DestinationLands(env.destination, before, done, s.tree, e);
    var tree1 := CreateDirAll(s.tree, env.destination).value;
    FileLands(env.destination, before, done, tree1, e);
    var content := e.node.bytes;
    var s2 := State(tree1, s.remaining, Some(ActiveFile(RelativePath(e), |content|, env.hash(content), content)), s.made);
    var at := At(env.destination, e);
    var withParent := CreateDirAll(tree1, Parent(at)).value;
    var tree := Persist(withParent, at, content).value;
    EndsFile(env, s2, e, at, withParent, tree);
    s' := AfterEntry(s2, tree, e, Made(ManifestEntryOf(env.hash, e), at, content));
    ConsumeFileFrames(env, codec, s, e, chunks, tree1, s2, s', tail, broken);
  }

  // ---------------------------------------------------------------------------------------------
  // The body.

  lemma BodyPieces(codec: FramesCodec, hash: Bytes -> Digest, entries: seq<SourceEntry>, chunkings: seq<seq<Bytes>>,
                   k: nat, tail: Bytes)
    requires AreEntries(entries) && |chunkings| == |entries| && k < |entries|
    ensures WriteFrames(codec, Body(hash, entries[..k + 1], chunkings[..k + 1])) + tail
            == WriteFrames(codec, Body(hash, entries[..k], chunkings[..k]))
               + (WriteFrames(codec, EntryFrames(hash, entries[k], chunkings[k])) + tail)
  {
    assert entries[..k + 1][..k] == entries[..k] && chunkings[..k + 1][..k] == chunkings[..k];
    hide WriteFrames, EntryFrames, IsEntry;
    WriteFramesConcat(codec, Body(hash, entries[..k], chunkings[..k]), EntryFrames(hash, entries[k], chunkings[k]));
  }

  predicate EntriesShort(codec: FramesCodec, hash: Bytes -> Digest, entries: seq<SourceEntry>, chunkings: seq<seq<Bytes>>)
    requires AreEntries(entries) && |chunkings| == |entries|
  {
    forall i :: 0 <= i < |entries| ==> AllShort(codec, EntryFrames(hash, entries[i], chunkings[i]), U32_LIMIT - 1)
  }

  lemma CompatiblePrefix(entries: seq<SourceEntry>, k: nat)
    requires Compatible(entries) && k < |entries|
    ensures Compatible(entries[..k] + [entries[k]])
  {
    var prefix := entries[..k] + [entries[k]];
    assert forall i :: 0 <= i <= k ==> prefix[i] == entries[i];
  }

  lemma NothingConsumed(codec: FramesCodec, hash: Bytes -> Digest, entries: seq<SourceEntry>,
                        chunkings: seq<seq<Bytes>>, tail: Bytes)
    requires AreEntries(entries) && |chunkings| == |entries|
    ensures WriteFrames(codec, Body(hash, entries[..0], chunkings[..0])) + tail == tail
  {
  }

  lemma NothingLanded(destination: Location, before: Tree)
    requires IsTree(before)
    ensures Landed(destination, before, [], before)
  {
    hide IsTree;
  }

  /** The frames of entry `k` on a state in which the earlier entries have landed. */
  lemma ConsumeNext(env: Env, codec: FramesCodec, before: Tree, entries: seq<SourceEntry>, chunkings: seq<seq<Bytes>>,
                    k: nat, s: State, tail: Bytes, broken: bool) returns (s': State)
    requires DecodesWhatItEncodes(codec) && AreEntries(entries) && AllChunked(entries, chunkings)
    requires EntriesShort(codec, env.hash, entries, chunkings) && k < |entries|
    requires RoomForAll(before, env.destination, entries) && Compatible(entries)
    requires Landed(env.destination, before, entries[..k], s.tree)
    requires Outstanding(env.hash, entries, k, s.remaining) && s.current == None
    ensures Consume(env, codec, s, WriteFrames(codec, EntryFrames(env.hash, entries[k], chunkings[k])) + tail, broken)
            == Consume(env, codec, s', tail, broken)
    ensures Landed(env.destination, before, entries[..k + 1], s'.tree)
    ensures Outstanding(env.hash, entries, k + 1, s'.remaining) && s'.current == None
  {
    hide Consume, EntryFrames, IsEntry, ChunksOf, AllShort, EntryKey, Compatible, Landed, WriteFrames, RoomFor;
    CompatiblePrefix(entries, k);
    assert entries[..k] + [entries[k]] == entries[..k + 1];
    s' := ConsumeEntry(env, codec, before, entries[..k], s, entries[k], chunkings[k], tail, broken);
    DifferIfCompatible(entries);
    OneLess(env.hash, entries, k, s.remaining);
  }

  /** After the frames of the first `k` entries, exactly these have landed and the others are awaited. */
  lemma {:induction false} ConsumeBody(env: Env, codec: FramesCodec, before: Tree, entries: seq<SourceEntry>,
                                       chunkings: seq<seq<Bytes>>, k: nat, s0: State, tail: Bytes, broken: bool)
    returns (s: State)
    requires DecodesWhatItEncodes(codec) && AreEntries(entries) && AllChunked(entries, chunkings)
    requires EntriesShort(codec, env.hash, entries, chunkings) && k <= |entries|
    requires RoomForAll(before, env.destination, entries) && Compatible(entries)
    requires s0.tree == before && s0.current == None && Outstanding(env.hash, entries, 0, s0.remaining)
    ensures Consume(env, codec, s0, WriteFrames(codec, Body(env.hash, entries[..k], chunkings[..k])) + tail, broken)
            == Consume(env, codec, s, tail, broken)
    ensures Landed(env.destination, before, entries[..k], s.tree)
    ensures Outstanding(env.hash, entries, k, s.remaining) && s.current == None
    decreases k
  {
    assert |chunkings| == |entries|;
    hide *;
    if k == 0 {
      NothingConsumed(codec, env.hash, entries, chunkings, tail);
      NothingLanded(env.destination, before);
      assert entries[..0] == [];
      s := s0;
    } else {
      BodyPieces(codec, env.hash, entries, chunkings, k - 1, tail);
      var rest := WriteFrames(codec, EntryFrames(env.hash, entries[k - 1], chunkings[k - 1])) + tail;
      var s1 := ConsumeBody(env, codec, before, entries, chunkings, k - 1, s0, rest, broken);
      s := ConsumeNext(env, codec, before, entries, chunkings, k - 1, s1, tail, broken);
    }
  }

  lemma DifferIfCompatible(entries: seq<SourceEntry>)
    requires Compatible(entries)
    ensures EntriesDiffer(entries)
  {
  }

  lemma ConsumeEntry(env: Env, codec: FramesCodec, before: Tree, done: seq<SourceEntry>, s: State, e: SourceEntry,
                     chunks: seq<Bytes>, tail: Bytes, broken: bool) returns (s': State)
    requires DecodesWhatItEncodes(codec) && IsEntry(e) && ChunksOf(e, chunks)
    requires AllShort(codec, EntryFrames(env.hash, e, chunks), U32_LIMIT - 1)
    requires RoomFor(before, env.destination, e) && Landed(env.destination, before, done, s.tree) && Compatible(done + [e])
    requires Awaits(env, s, e) && s.current == None
    ensures Consume(env, codec, s, WriteFrames(codec, EntryFrames(env.hash, e, chunks)) + tail, broken)
            == Consume(env, codec, s', tail, broken)
    ensures Landed(env.destination, before, done + [e], s'.tree)
    ensures s'.remaining == s.remaining - {EntryKey(e)} && s'.current == None
  {
    hide Consume, EntryFrames, AllShort, EntryKey, Landed, RoomFor, Compatible, WriteFrames, IsEntry;
    match e.node
    case Folder => s' := ConsumeFolder(env, codec, before, done, s, e, tail, broken);
    case Content(_) => s' := ConsumeFile(env, codec, before, done, s, e, chunks, tail, broken);
  }
}
