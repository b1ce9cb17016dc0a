/** Exactly which streams unpack: those that were written like an archive of the entries they list. */
module UnpackExactly {
  import opened Bytes
  import opened ArchiveTypes
  import opened Compressing
  import opened Paths
  import opened FileTree
  import opened Framing
  import opened Unpacking
  import opened UnpackLaws
  import SecureChannel

  /** The frames of a stream, when all of them can be read. */
  function FramesIn(codec: FramesCodec, bytes: Bytes, broken: bool): Option<seq<ArchiveFrame>>
    decreases |bytes|
  {
    match ReadFrame(codec, bytes, broken)
    case ReadError => None
    case EndOfStream => Some([])
    case Frame(frame, rest) =>
      match FramesIn(codec, rest, broken)
      case None => None
      case Some(frames) => Some([frame] + frames)
  }

  // ---------------------------------------------------------------------------------------------
  // Streams as they are written.

  /** A file in the stream. */
  datatype Block = Block(path: PathText, size: U64, blake3: Digest, chunks: seq<Bytes>)

  function Chunks(chunks: seq<Bytes>): (frames: seq<ArchiveFrame>)
    ensures |frames| == |chunks|
  {
    seq(|chunks|, i requires 0 <= i < |chunks| => FileChunk(chunks[i]))
  }

  function Printed(blocks: seq<Block>): seq<ArchiveFrame> {
    if blocks == [] then []
    else
      [FileStart(blocks[0].path, blocks[0].size, blocks[0].blake3)] + Chunks(blocks[0].chunks) + [FileEnd]
      + Printed(blocks[1..])
  }

  /** The paths of the directory frames, wherever they stand. */
  function FolderPaths(frames: seq<ArchiveFrame>): seq<PathText> {
    if frames == [] then []
    else (if frames[0].DirectoryFrame? then [frames[0].path] else []) + FolderPaths(frames[1..])
  }

  function OtherFrames(frames: seq<ArchiveFrame>): seq<ArchiveFrame> {
    if frames == [] then []
    else (if frames[0].DirectoryFrame? then [] else [frames[0]]) + OtherFrames(frames[1..])
  }

  function BlockPaths(blocks: seq<Block>): (paths: seq<PathText>)
    ensures |paths| == |blocks|
  {
    seq(|blocks|, i requires 0 <= i < |blocks| => blocks[i].path)
  }

  /** The bytes have the size, counted in 64 bits, and never more than that on the way. */
  predicate Fills(bytes: Bytes, chunks: seq<Bytes>, size: U64) {
    && (forall n :: 0 < n <= |chunks| ==> |bytes + Flatten(chunks[..n])| % U64_LIMIT <= size)
    && |bytes + Flatten(chunks)| % U64_LIMIT == size
  }

  /** Each of the paths is wanted, each of the wanted paths is there, and none is there twice. */
  ghost predicate EachPathOnce(paths: seq<PathText>, wanted: set<PathText>) {
    && (forall i, j :: 0 <= i < j < |paths| ==> paths[i] != paths[j])
    && (forall path :: path in paths <==> path in wanted)
  }

  ghost function PathsOf(entries: seq<ManifestEntry>, kind: EntryKind): set<PathText> {
    set e | e in entries && e.kind == kind :: e.path
  }

  predicate IsBlockOf(hash: Bytes -> Digest, entries: seq<ManifestEntry>, b: Block) {
    && Fills([], b.chunks, b.size) && hash(Flatten(b.chunks)) == b.blake3
    && ManifestEntry(b.path, File, b.size, Some(b.blake3)) in entries
  }

  /** The body names every directory of the manifest once, at any place; what else there is are the files of the manifest,
      each once, one behind the other. */
  ghost predicate IsBodyOf(hash: Bytes -> Digest, entries: seq<ManifestEntry>, frames: seq<ArchiveFrame>, blocks: seq<Block>) {
    && OtherFrames(frames) == Printed(blocks)
    && (forall b :: b in blocks ==> IsBlockOf(hash, entries, b))
    && EachPathOnce(FolderPaths(frames), PathsOf(entries, Directory))
    && EachPathOnce(BlockPaths(blocks), PathsOf(entries, File))
  }

  /** A listed entry: an accepted path; a file with a hash, or a directory without hash and size. */
  predicate IsValid(e: ManifestEntry) {
    && AreNames(Split(e.path))
    && (if e.kind.File? then e.blake3.Some? else e.blake3.None? && e.size == 0)
  }

  /** A manifest with valid entries, none with another one's path, and then their body. */
  ghost predicate IsWritten(hash: Bytes -> Digest, frames: seq<ArchiveFrame>) {
    && frames != [] && frames[0].ManifestFrame?
    && var entries := frames[0].manifest.entries;
    && (forall e :: e in entries ==> IsValid(e))
    && (forall i, j :: 0 <= i < j < |entries| ==> entries[i].path != entries[j].path)
    && exists blocks :: IsBodyOf(hash, entries, frames[1..], blocks)
  }

  // ---------------------------------------------------------------------------------------------
  // The machine on frames.

  function OnFrames(env: Env, s: State, frames: seq<ArchiveFrame>): Progress
    decreases |frames|
  {
    if frames == [] then AtEnd(s)
    else
      match OnFrame(env, s, frames[0])
      case Stopped(tree, made, error) => Stopped(tree, made, error)
      case Going(s') => OnFrames(env, s', frames[1..])
  }

  lemma {:induction false} ConsumesFrames(env: Env, codec: FramesCodec, s: State, bytes: Bytes, broken: bool)
    ensures match FramesIn(codec, bytes, broken)
            case Some(frames) => Consume(env, codec, s, bytes, broken) == OnFrames(env, s, frames)
            case None => Consume(env, codec, s, bytes, broken).Stopped?
    decreases |bytes|
  {
    hide OnFrame, ReadFrame;
    if ReadFrame(codec, bytes, broken).Frame? {
      var Frame(frame, rest) := ReadFrame(codec, bytes, broken);
      if OnFrame(env, s, frame).Going? {
        ConsumesFrames(env, codec, OnFrame(env, s, frame).state, rest, broken);
      }
      assert FramesIn(codec, rest, broken).Some? ==>
          FramesIn(codec, bytes, broken).value[1..] == FramesIn(codec, rest, broken).value;
    }
  }

  // ---------------------------------------------------------------------------------------------
  // The body from a state on.

  /** Every remaining entry is valid and stands under its own path. */
  predicate InOrder(remaining: Remaining) {
    forall key :: key in remaining ==>
      EntryError(remaining[key]) == None && Components(remaining[key].path) == key
  }

  ghost function Awaited(remaining: Remaining, kind: EntryKind): set<PathText> {
    set key | key in remaining && remaining[key].kind == kind :: remaining[key].path
  }

  predicate Awaits(hash: Bytes -> Digest, remaining: Remaining, b: Block, bytes: Bytes) {
    && Fills(bytes, b.chunks, b.size) && hash(bytes + Flatten(b.chunks)) == b.blake3
    && Components(b.path) in remaining
    && remaining[Components(b.path)] == ManifestEntry(b.path, File, b.size, Some(b.blake3))
  }

  /** The file that is being received, with the chunks that are still to come. */
  function Begun(active: ActiveFile, chunks: seq<Bytes>): Block {
    Block(active.path, active.size, active.blake3, chunks)
  }

  function Files(current: Option<ActiveFile>, chunks: seq<Bytes>, blocks: seq<Block>): seq<Block> {
    if current.Some? then [Begun(current.value, chunks)] + blocks else blocks
  }

  ghost predicate IsRestFor(hash: Bytes -> Digest, remaining: Remaining, current: Option<ActiveFile>, frames: seq<ArchiveFrame>,
                            chunks: seq<Bytes>, blocks: seq<Block>)
  {
    && OtherFrames(frames) == (if current.Some? then Chunks(chunks) + [FileEnd] else []) + Printed(blocks)
    && (current.Some? ==> Awaits(hash, remaining, Begun(current.value, chunks), current.value.content))
    && (forall b :: b in blocks ==> Awaits(hash, remaining, b, []))
    && EachPathOnce(FolderPaths(frames), Awaited(remaining, Directory))
    && EachPathOnce(BlockPaths(Files(current, chunks, blocks)), Awaited(remaining, File))
  }

  lemma FirstPathOnce(paths: seq<PathText>, wanted: set<PathText>)
    requires paths != []
    ensures EachPathOnce(paths, wanted) <==> paths[0] in wanted && EachPathOnce(paths[1..], wanted - {paths[0]})
  {
    var first, rest := paths[0], paths[1..];
    assert paths == [first] + rest;
    if EachPathOnce(paths, wanted) {
      forall i, j | 0 <= i < j < |rest| ensures rest[i] != rest[j] {
        assert paths[i + 1] != paths[j + 1];
      }
      forall j | 0 <= j < |rest| ensures rest[j] != first {
        assert paths[0] != paths[j + 1];
      }
    }
    if first in wanted && EachPathOnce(rest, wanted - {first}) {
      forall i, j | 0 <= i < j < |paths| ensures paths[i] != paths[j] {
        assert paths[j] == rest[j - 1] && rest[j - 1] in rest;
        if i > 0 {
          assert paths[i] == rest[i - 1] && rest[i - 1] != rest[j - 1];
        }
      }
    }
  }

  lemma TakeOff(remaining: Remaining, path: PathText)
    requires InOrder(remaining) && Components(path) in remaining && remaining[Components(path)].path == path
    ensures var kind, rest := remaining[Components(path)].kind, remaining - {Components(path)};
      && InOrder(rest)
      && Awaited(rest, kind) == Awaited(remaining, kind) - {path}
      && (forall other :: other != kind ==> Awaited(rest, other) == Awaited(remaining, other))
      && path in Awaited(remaining, kind)
  {
    hide Components, EntryError;
    var rest := remaining - {Components(path)};
    forall kind, p ensures p in Awaited(rest, kind) <==> p in Awaited(remaining, kind) && p != path {
      if p in Awaited(remaining, kind) && p != path {
        var key :| key in remaining && remaining[key].kind == kind && remaining[key].path == p;
        assert key in rest;
      }
    }
    forall other | other != remaining[Components(path)].kind ensures Awaited(rest, other) == Awaited(remaining, other) {
      assert path !in Awaited(remaining, other);
    }
  }

  lemma IsItsPath(remaining: Remaining, path: PathText)
    requires InOrder(remaining) && Components(path) in remaining && ValidateRelativePath(path) == None
    ensures remaining[Components(path)].path == path
  {
    var e := remaining[Components(path)];
    ValidEntryPath(e);
    hide Components, ValidateRelativePath, EntryError;
    SameComponentsSameText(path, e.path);
  }

  // ---------------------------------------------------------------------------------------------
  // Frame by frame.

  lemma FolderStep(hash: Bytes -> Digest, remaining: Remaining, current: Option<ActiveFile>, path: PathText,
                   rest: seq<ArchiveFrame>, chunks: seq<Bytes>, blocks: seq<Block>)
    requires InOrder(remaining) && Components(path) in remaining
    requires remaining[Components(path)].path == path && remaining[Components(path)].kind == Directory
    ensures IsRestFor(hash, remaining, current, [DirectoryFrame(path)] + rest, chunks, blocks)
            <==> IsRestFor(hash, remaining - {Components(path)}, current, rest, chunks, blocks)
  {
    var frames := [DirectoryFrame(path)] + rest;
    assert frames[1..] == rest && OtherFrames(frames) == [] + OtherFrames(rest) == OtherFrames(rest);
    assert FolderPaths(frames)[0] == path && FolderPaths(frames)[1..] == FolderPaths(rest);
    FirstPathOnce(FolderPaths(frames), Awaited(remaining, Directory));
    TakeOff(remaining, path);
    hide Components, EachPathOnce, Fills, InOrder, Awaited, Printed, Chunks;
  }

  lemma StartStep(hash: Bytes -> Digest, remaining: Remaining, b: Block, rest: seq<ArchiveFrame>, blocks: seq<Block>)
    ensures var active := ActiveFile(b.path, b.size, b.blake3, []);
      IsRestFor(hash, remaining, Some(active), rest, b.chunks, blocks)
      <==> IsRestFor(hash, remaining, None, [FileStart(b.path, b.size, b.blake3)] + rest, [], [b] + blocks)
  {
    var active := ActiveFile(b.path, b.size, b.blake3, []);
    var frames := [FileStart(b.path, b.size, b.blake3)] + rest;
    assert frames[1..] == rest && OtherFrames(frames) == [frames[0]] + OtherFrames(rest);
    assert FolderPaths(frames) == [] + FolderPaths(rest) == FolderPaths(rest);
    assert Begun(active, b.chunks) == b;
    assert ([b] + blocks)[1..] == blocks;
    var others := Chunks(b.chunks) + [FileEnd] + Printed(blocks);
    assert [] + Printed([b] + blocks) == [frames[0]] + others;
    assert OtherFrames(rest) == ([frames[0]] + OtherFrames(rest))[1..] && others == ([frames[0]] + others)[1..];
    hide Components, EachPathOnce, Fills, Awaited, Printed, Chunks, OtherFrames, FolderPaths;
    assert forall x :: x in [b] + blocks <==> x == b || x in blocks;
  }

  lemma FillsOneMore(bytes: Bytes, chunk: Bytes, chunks: seq<Bytes>, size: U64)
    ensures Flatten([chunk] + chunks) == chunk + Flatten(chunks)
    ensures Fills(bytes, [chunk] + chunks, size) <==> |bytes + chunk| % U64_LIMIT <= size && Fills(bytes + chunk, chunks, size)
  {
    var all := [chunk] + chunks;
    assert all[1..] == chunks;
    assert bytes + Flatten(all) == bytes + chunk + Flatten(chunks);
    forall n | 0 < n <= |all| ensures bytes + Flatten(all[..n]) == bytes + chunk + Flatten(chunks[..n - 1]) {
      assert all[..n][1..] == chunks[..n - 1];
    }
    assert Flatten(chunks[..0]) == [] && bytes + chunk + [] == bytes + chunk;
    if Fills(bytes, all, size) {
      assert |bytes + Flatten(all[..1])| % U64_LIMIT <= size;
      forall n | 0 < n <= |chunks| ensures |bytes + chunk + Flatten(chunks[..n])| % U64_LIMIT <= size {
        assert |bytes + Flatten(all[..n + 1])| % U64_LIMIT <= size;
      }
    }
  }

  lemma ChunkStep(hash: Bytes -> Digest, remaining: Remaining, active: ActiveFile, bytes: Bytes, rest: seq<ArchiveFrame>,
                  chunks: seq<Bytes>, blocks: seq<Block>)
    requires |active.content + bytes| % U64_LIMIT <= active.size
    ensures IsRestFor(hash, remaining, Some(active.(content := active.content + bytes)), rest, chunks, blocks)
            <==> IsRestFor(hash, remaining, Some(active), [FileChunk(bytes)] + rest, [bytes] + chunks, blocks)
  {
    var frames, active' := [FileChunk(bytes)] + rest, active.(content := active.content + bytes);
    assert frames[1..] == rest && OtherFrames(frames) == [frames[0]] + OtherFrames(rest);
    assert FolderPaths(frames) == [] + FolderPaths(rest) == FolderPaths(rest);
    FillsOneMore(active.content, bytes, chunks, active.size);
    assert active.content + Flatten([bytes] + chunks) == active'.content + Flatten(chunks);
    assert BlockPaths(Files(Some(active), [bytes] + chunks, blocks)) == BlockPaths(Files(Some(active'), chunks, blocks));
    var others := Chunks(chunks) + [FileEnd] + Printed(blocks);
    assert Chunks([bytes] + chunks) + [FileEnd] + Printed(blocks) == [frames[0]] + others;
    assert OtherFrames(rest) == ([frames[0]] + OtherFrames(rest))[1..] && others == ([frames[0]] + others)[1..];
    hide Components, EachPathOnce, Fills, Awaited, Printed, Chunks, OtherFrames, FolderPaths, Files, BlockPaths, Flatten;
  }

  lemma EndFrames(rest: seq<ArchiveFrame>, blocks: seq<Block>)
    ensures FolderPaths([FileEnd] + rest) == FolderPaths(rest)
    ensures OtherFrames([FileEnd] + rest) == Chunks([]) + [FileEnd] + Printed(blocks)
            <==> OtherFrames(rest) == [] + Printed(blocks)
  {
    var frames := [FileEnd] + rest;
    assert frames[1..] == rest && OtherFrames(frames) == [FileEnd] + OtherFrames(rest);
    assert FolderPaths(frames) == [] + FolderPaths(rest) == FolderPaths(rest);
    hide OtherFrames, FolderPaths, Printed;
    assert Chunks([]) + [FileEnd] + Printed(blocks) == [FileEnd] + Printed(blocks);
    assert OtherFrames(rest) == ([FileEnd] + OtherFrames(rest))[1..] && Printed(blocks) == ([FileEnd] + Printed(blocks))[1..];
    assert [] + Printed(blocks) == Printed(blocks);
  }

  lemma EndStep(hash: Bytes -> Digest, remaining: Remaining, active: ActiveFile, rest: seq<ArchiveFrame>, blocks: seq<Block>)
    requires InOrder(remaining) && Awaits(hash, remaining, Begun(active, []), active.content)
    ensures IsRestFor(hash, remaining - {Components(active.path)}, None, rest, [], blocks)
            <==> IsRestFor(hash, remaining, Some(active), [FileEnd] + rest, [], blocks)
  {
    EndFrames(rest, blocks);
    var files := Files(Some(active), [], blocks);
    assert BlockPaths(files)[0] == active.path && BlockPaths(files)[1..] == BlockPaths(blocks);
    FirstPathOnce(BlockPaths(files), Awaited(remaining, File));
    TakeOff(remaining, active.path);
    hide OtherFrames, FolderPaths, Printed, Chunks, Fills, Awaited;
    AwaitsAsBefore(hash, remaining, active.path, blocks);
    PathsOfNone(blocks);
    hide Awaits, EachPathOnce, Components, InOrder, BlockPaths, Files, Begun;
  }

  lemma PathsOfNone(blocks: seq<Block>)
    ensures Files(None, [], blocks) == blocks
  {
  }

  /** Once one file is there, the others are awaited as before. */
  lemma AwaitsAsBefore(hash: Bytes -> Digest, remaining: Remaining, path: PathText, blocks: seq<Block>)
    requires InOrder(remaining) && Components(path) in remaining && remaining[Components(path)].path == path
    ensures (forall b :: b in blocks ==> Awaits(hash, remaining - {Components(path)}, b, [])) ==>
              forall b :: b in blocks ==> Awaits(hash, remaining, b, [])
    ensures (forall b :: b in blocks ==> Awaits(hash, remaining, b, [])) && path !in BlockPaths(blocks) ==>
              forall b :: b in blocks ==> Awaits(hash, remaining - {Components(path)}, b, [])
  {
    hide Fills, Components, EntryError;
    if (forall b :: b in blocks ==> Awaits(hash, remaining, b, [])) && path !in BlockPaths(blocks) {
      forall b | b in blocks ensures Awaits(hash, remaining - {Components(path)}, b, []) {
        var i :| 0 <= i < |blocks| && blocks[i] == b;
        assert BlockPaths(blocks)[i] == b.path;
        assert b.path != path;
      }
    }
  }

  lemma NothingAwaited(remaining: Remaining)
    ensures remaining == map[] <==> Awaited(remaining, Directory) == {} && Awaited(remaining, File) == {}
  {
    forall key | key in remaining ensures remaining[key].path in Awaited(remaining, remaining[key].kind) {
    }
  }

  lemma NothingLeft(hash: Bytes -> Digest, s: State)
    ensures AtEnd(s).Going? ==> IsRestFor(hash, s.remaining, s.current, [], [], [])
    ensures forall chunks, blocks :: IsRestFor(hash, s.remaining, s.current, [], chunks, blocks) ==> AtEnd(s).Going?
  {
    NothingAwaited(s.remaining);
    forall chunks, blocks | IsRestFor(hash, s.remaining, s.current, [], chunks, blocks) ensures AtEnd(s).Going? {
      assert blocks == [];
      assert s.current.None?;
      assert forall p :: p in Awaited(s.remaining, Directory) <==> p in FolderPaths([]);
      assert forall p :: p in Awaited(s.remaining, File) <==> p in BlockPaths(Files(s.current, chunks, blocks));
    }
  }

  // ---------------------------------------------------------------------------------------------
  // When a frame is taken.

  /** The state is one that unpacking can be in. */
  predicate IsReached(s: State) {
    InOrder(s.remaining) && CurrentExpected(s.remaining, s.current)
  }

  predicate IsIoError(p: Progress) {
    p.Stopped? && p.error == IoError
  }

  predicate FolderIsAwaited(remaining: Remaining, path: PathText) {
    && Components(path) in remaining
    && remaining[Components(path)].path == path && remaining[Components(path)].kind == Directory
  }

  lemma FolderTakenExactly(env: Env, s: State, path: PathText)
    requires IsReached(s)
    ensures var p := OnFrame(env, s, DirectoryFrame(path));
      && (FolderIsAwaited(s.remaining, path) ==> p.Going? || IsIoError(p))
      && (p.Going? ==> FolderIsAwaited(s.remaining, path) && IsReached(p.state)
                       && p.state.remaining == s.remaining - {Components(path)} && p.state.current == s.current)
  {
    hide CreateDirAll, Components, ValidateRelativePath, EntryError;
    if Components(path) in s.remaining {
      var e := s.remaining[Components(path)];
      if ValidateRelativePath(path) == None {
        IsItsPath(s.remaining, path);
      }
      ValidEntryPath(e);
      ValidFolder(e);
    }
  }

  lemma ValidFolder(e: ManifestEntry)
    requires EntryError(e) == None
    ensures e.kind.Directory? ==> e.size == 0 && e.blake3 == None
    ensures e.kind.File? ==> e.blake3.Some?
  {
  }

  predicate FileIsAwaited(remaining: Remaining, path: PathText, size: U64, blake3: Digest) {
    && Components(path) in remaining
    && var e := remaining[Components(path)];
       e.kind == File && e.size == size && e.blake3 == Some(blake3)
  }

  lemma StartTakenExactly(env: Env, s: State, path: PathText, size: U64, blake3: Digest)
    requires IsReached(s)
    ensures var p := OnFrame(env, s, FileStart(path, size, blake3));
      && (s.current.None? && FileIsAwaited(s.remaining, path, size, blake3) ==> p.Going? || IsIoError(p))
      && (p.Going? ==>
            && s.current.None? && FileIsAwaited(s.remaining, path, size, blake3) && IsReached(p.state)
            && p.state.remaining == s.remaining && p.state.current == Some(ActiveFile(path, size, blake3, [])))
  {
    hide CreateDirAll, Components, EntryError;
  }

  lemma ChunkTakenExactly(env: Env, s: State, bytes: Bytes)
    requires IsReached(s)
    ensures var p := OnFrame(env, s, FileChunk(bytes));
      && (p.Going? <==> s.current.Some? && |s.current.value.content + bytes| % U64_LIMIT <= s.current.value.size)
      && (p.Going? ==>
            && IsReached(p.state) && p.state.remaining == s.remaining
            && p.state.current == Some(s.current.value.(content := s.current.value.content + bytes)))
  {
    hide Components, EntryError;
  }

  lemma EndTakenExactly(env: Env, s: State)
    requires IsReached(s)
    ensures var p := OnFrame(env, s, FileEnd);
      && (s.current.Some? && Awaits(env.hash, s.remaining, Begun(s.current.value, []), s.current.value.content) ==>
            p.Going? || IsIoError(p))
      && (p.Going? ==>
            && s.current.Some? && Awaits(env.hash, s.remaining, Begun(s.current.value, []), s.current.value.content)
            && IsReached(p.state) && p.state.remaining == s.remaining - {Components(s.current.value.path)}
            && p.state.current == None)
  {
    hide CreateDirAll, Persist, ChosenPath, Components, ValidateRelativePath, EntryError, Fills;
    if s.current.Some? {
      var active := s.current.value;
      FilledNow(env.hash, active, s.remaining);
      var e := s.remaining[Components(active.path)];
      if ValidateRelativePath(active.path) == None {
        IsItsPath(s.remaining, active.path);
      }
      ValidEntryPath(e);
      hide Awaits;
    }
  }

  lemma FilledNow(hash: Bytes -> Digest, active: ActiveFile, remaining: Remaining)
    requires Components(active.path) in remaining
    ensures Awaits(hash, remaining, Begun(active, []), active.content) <==>
            && active.BytesWritten() == active.size && hash(active.content) == active.blake3
            && remaining[Components(active.path)] == ManifestEntry(active.path, File, active.size, Some(active.blake3))
  {
    assert active.content + Flatten([]) == active.content;
  }

  // ---------------------------------------------------------------------------------------------
  // Both directions.

  /** What is unpacked was written like that. */
  lemma {:induction false} RestIfUnpacked(env: Env, s: State, frames: seq<ArchiveFrame>)
    returns (chunks: seq<Bytes>, blocks: seq<Block>)
    requires IsReached(s) && OnFrames(env, s, frames).Going?
    ensures IsRestFor(env.hash, s.remaining, s.current, frames, chunks, blocks)
    decreases |frames|
  {
    hide IsRestFor, IsReached, Awaits;
    if frames == [] {
      NothingLeft(env.hash, s);
      return [], [];
    }
    var frame, rest := frames[0], frames[1..];
    assert frames == [frame] + rest;
    assert !frame.ManifestFrame?;
    var p := OnFrame(env, s, frame);
    hide OnFrame;
    match frame {
      case DirectoryFrame(path) =>
        FolderTakenExactly(env, s, path);
        chunks, blocks := RestIfUnpacked(env, p.state, rest);
        assert InOrder(s.remaining) by { ReachedIsInOrder(s); }
        FolderStep(env.hash, s.remaining, s.current, path, rest, chunks, blocks);
      case FileStart(path, size, blake3) =>
        StartTakenExactly(env, s, path, size, blake3);
        var chunks', blocks' := RestIfUnpacked(env, p.state, rest);
        var b := Block(path, size, blake3, chunks');
        chunks, blocks := [], [b] + blocks';
        StartStep(env.hash, s.remaining, b, rest, blocks');
      case FileChunk(bytes) =>
        ChunkTakenExactly(env, s, bytes);
        var chunks';
        chunks', blocks := RestIfUnpacked(env, p.state, rest);
        chunks := [bytes] + chunks';
        ChunkStep(env.hash, s.remaining, s.current.value, bytes, rest, chunks', blocks);
      case FileEnd =>
        EndTakenExactly(env, s);
        chunks, blocks := RestIfUnpacked(env, p.state, rest);
        NothingToCome(env.hash, p.state.remaining, rest, chunks, blocks);
        chunks := [];
        assert InOrder(s.remaining) by { ReachedIsInOrder(s); }
        EndStep(env.hash, s.remaining, s.current.value, rest, blocks);
    }
  }

  lemma ReachedIsInOrder(s: State)
    requires IsReached(s)
    ensures InOrder(s.remaining)
  {
  }

  lemma NothingToCome(hash: Bytes -> Digest, remaining: Remaining, frames: seq<ArchiveFrame>, chunks: seq<Bytes>,
                      blocks: seq<Block>)
    requires IsRestFor(hash, remaining, None, frames, chunks, blocks)
    ensures IsRestFor(hash, remaining, None, frames, [], blocks)
  {
  }

  /** One frame of the rest is taken, unless a path is in the way, and what comes then is the rest of what is left. */
  ghost predicate IsTaken(env: Env, s: State, frame: ArchiveFrame, rest: seq<ArchiveFrame>) {
    var p := OnFrame(env, s, frame);
    && (p.Going? || IsIoError(p))
    && (p.Going? ==>
          && IsReached(p.state)
          && exists chunks, blocks :: IsRestFor(env.hash, p.state.remaining, p.state.current, rest, chunks, blocks))
  }

  lemma TakenWith(env: Env, s: State, frame: ArchiveFrame, rest: seq<ArchiveFrame>, chunks: seq<Bytes>, blocks: seq<Block>)
    requires var p := OnFrame(env, s, frame);
      && (p.Going? || IsIoError(p))
      && (p.Going? ==> IsReached(p.state) && IsRestFor(env.hash, p.state.remaining, p.state.current, rest, chunks, blocks))
    ensures IsTaken(env, s, frame, rest)
  {
    hide OnFrame, IsReached, IsRestFor;
  }

  lemma FolderIsTaken(env: Env, s: State, frames: seq<ArchiveFrame>, chunks: seq<Bytes>, blocks: seq<Block>)
    requires IsReached(s) && IsRestFor(env.hash, s.remaining, s.current, frames, chunks, blocks)
    requires frames != [] && frames[0].DirectoryFrame?
    ensures IsTaken(env, s, frames[0], frames[1..])
  {
    NextFolder(env.hash, s, frames, chunks, blocks);
    ReachedIsInOrder(s);
    hide OnFrame, IsReached, IsRestFor, InOrder;
    assert frames == [frames[0]] + frames[1..];
    FolderTakenExactly(env, s, frames[0].path);
    FolderStep(env.hash, s.remaining, s.current, frames[0].path, frames[1..], chunks, blocks);
    hide *;
    TakenWith(env, s, frames[0], frames[1..], chunks, blocks);
  }

  lemma StartIsTaken(env: Env, s: State, frames: seq<ArchiveFrame>, chunks: seq<Bytes>, blocks: seq<Block>)
    requires IsReached(s) && IsRestFor(env.hash, s.remaining, s.current, frames, chunks, blocks)
    requires frames != [] && !frames[0].DirectoryFrame? && s.current.None?
    ensures IsTaken(env, s, frames[0], frames[1..])
  {
    NextFile(env.hash, s, frames, chunks, blocks);
    var b := blocks[0];
    hide *;
    assert frames == [frames[0]] + frames[1..] && blocks == [b] + blocks[1..];
    StartTakenExactly(env, s, b.path, b.size, b.blake3);
    NothingToCome(env.hash, s.remaining, frames, chunks, blocks);
    StartStep(env.hash, s.remaining, b, frames[1..], blocks[1..]);
    TakenWith(env, s, frames[0], frames[1..], b.chunks, blocks[1..]);
  }

  lemma ChunkIsTaken(env: Env, s: State, frames: seq<ArchiveFrame>, chunks: seq<Bytes>, blocks: seq<Block>)
    requires IsReached(s) && IsRestFor(env.hash, s.remaining, s.current, frames, chunks, blocks)
    requires frames != [] && !frames[0].DirectoryFrame? && s.current.Some? && chunks != []
    ensures IsTaken(env, s, frames[0], frames[1..])
  {
    NextChunk(env.hash, s, frames, chunks, blocks);
    hide OnFrame, IsReached, IsRestFor;
    assert frames == [frames[0]] + frames[1..] && chunks == [chunks[0]] + chunks[1..];
    ChunkTakenExactly(env, s, chunks[0]);
    ChunkStep(env.hash, s.remaining, s.current.value, chunks[0], frames[1..], chunks[1..], blocks);
    hide *;
    TakenWith(env, s, frames[0], frames[1..], chunks[1..], blocks);
  }

  lemma EndIsTaken(env: Env, s: State, frames: seq<ArchiveFrame>, blocks: seq<Block>)
    requires IsReached(s) && IsRestFor(env.hash, s.remaining, s.current, frames, [], blocks)
    requires frames != [] && !frames[0].DirectoryFrame? && s.current.Some?
    ensures IsTaken(env, s, frames[0], frames[1..])
  {
    NextEnd(env.hash, s, frames, blocks);
    ReachedIsInOrder(s);
    hide OnFrame, IsReached, IsRestFor, Awaits, InOrder;
    assert frames == [frames[0]] + frames[1..];
    EndTakenExactly(env, s);
    EndStep(env.hash, s.remaining, s.current.value, frames[1..], blocks);
    hide *;
    TakenWith(env, s, frames[0], frames[1..], [], blocks);
  }

  /** What was written like that is unpacked, unless a path is in the way. */
  lemma {:induction false} UnpackedIfRest(env: Env, s: State, frames: seq<ArchiveFrame>, chunks: seq<Bytes>, blocks: seq<Block>)
    requires IsReached(s) && IsRestFor(env.hash, s.remaining, s.current, frames, chunks, blocks)
    ensures OnFrames(env, s, frames).Going? || IsIoError(OnFrames(env, s, frames))
    decreases |frames|
  {
    hide OnFrame, IsReached, IsRestFor;
    if frames == [] {
      NothingLeft(env.hash, s);
    } else {
      if frames[0].DirectoryFrame? {
        FolderIsTaken(env, s, frames, chunks, blocks);
      } else if s.current.None? {
        StartIsTaken(env, s, frames, chunks, blocks);
      } else if chunks != [] {
        ChunkIsTaken(env, s, frames, chunks, blocks);
      } else {
        EndIsTaken(env, s, frames, blocks);
      }
      var p := OnFrame(env, s, frames[0]);
      if p.Going? {
        var chunks', blocks' :| IsRestFor(env.hash, p.state.remaining, p.state.current, frames[1..], chunks', blocks');
        UnpackedIfRest(env, p.state, frames[1..], chunks', blocks');
      }
    }
  }

  lemma FirstOther(frames: seq<ArchiveFrame>)
    requires frames != []
    ensures if frames[0].DirectoryFrame? then FolderPaths(frames) != [] && FolderPaths(frames)[0] == frames[0].path
            else OtherFrames(frames) != [] && OtherFrames(frames)[0] == frames[0]
  {
  }

  lemma NextFolder(hash: Bytes -> Digest, s: State, frames: seq<ArchiveFrame>, chunks: seq<Bytes>, blocks: seq<Block>)
    requires IsReached(s) && IsRestFor(hash, s.remaining, s.current, frames, chunks, blocks)
    requires frames != [] && frames[0].DirectoryFrame?
    ensures FolderIsAwaited(s.remaining, frames[0].path)
  {
    FirstOther(frames);
    hide Components, EntryError, OtherFrames, FolderPaths, Awaits;
    assert FolderPaths(frames)[0] in FolderPaths(frames);
    assert frames[0].path in Awaited(s.remaining, Directory);
  }

  lemma NextFile(hash: Bytes -> Digest, s: State, frames: seq<ArchiveFrame>, chunks: seq<Bytes>, blocks: seq<Block>)
    requires IsReached(s) && IsRestFor(hash, s.remaining, s.current, frames, chunks, blocks)
    requires frames != [] && !frames[0].DirectoryFrame? && s.current.None?
    ensures blocks != [] && frames[0] == FileStart(blocks[0].path, blocks[0].size, blocks[0].blake3)
    ensures FileIsAwaited(s.remaining, blocks[0].path, blocks[0].size, blocks[0].blake3)
  {
    FirstOther(frames);
    hide Components, EntryError, OtherFrames, FolderPaths, EachPathOnce;
    assert blocks != [];
    assert blocks[0] in blocks;
  }

  lemma NextChunk(hash: Bytes -> Digest, s: State, frames: seq<ArchiveFrame>, chunks: seq<Bytes>, blocks: seq<Block>)
    requires IsReached(s) && IsRestFor(hash, s.remaining, s.current, frames, chunks, blocks)
    requires frames != [] && !frames[0].DirectoryFrame? && s.current.Some? && chunks != []
    ensures frames[0] == FileChunk(chunks[0])
    ensures |s.current.value.content + chunks[0]| % U64_LIMIT <= s.current.value.size
  {
    FirstOther(frames);
    var active := s.current.value;
    assert Chunks(chunks)[0] == FileChunk(chunks[0]);
    assert chunks == [chunks[0]] + chunks[1..];
    FillsOneMore(active.content, chunks[0], chunks[1..], active.size);
    hide Components, EntryError, OtherFrames, FolderPaths, EachPathOnce, Fills;
  }

  lemma NextEnd(hash: Bytes -> Digest, s: State, frames: seq<ArchiveFrame>, blocks: seq<Block>)
    requires IsReached(s) && IsRestFor(hash, s.remaining, s.current, frames, [], blocks)
    requires frames != [] && !frames[0].DirectoryFrame? && s.current.Some?
    ensures frames[0] == FileEnd
    ensures Awaits(hash, s.remaining, Begun(s.current.value, []), s.current.value.content)
  {
    FirstOther(frames);
    hide Components, EntryError, OtherFrames, FolderPaths, EachPathOnce, Fills;
  }

  // ---------------------------------------------------------------------------------------------
  // The whole archive.

  lemma ValidExactly(e: ManifestEntry)
    ensures EntryError(e) == None <==> IsValid(e)
  {
    AcceptedExactly(e.path);
    hide ValidateRelativePath, Split, Components;
  }

  lemma PathsTellKeys(entries: seq<ManifestEntry>)
    requires forall e :: e in entries ==> IsValid(e)
    ensures KeysDiffer(entries) <==> forall i, j :: 0 <= i < j < |entries| ==> entries[i].path != entries[j].path
  {
    hide Components, Split, ValidateRelativePath;
    forall i, j | 0 <= i < j < |entries|
      ensures Components(entries[i].path) == Components(entries[j].path) <==> entries[i].path == entries[j].path
    {
      assert IsValid(entries[i]) && IsValid(entries[j]);
      AcceptedExactly(entries[i].path);
      AcceptedExactly(entries[j].path);
      SameComponentsSameText(entries[i].path, entries[j].path);
    }
  }

  lemma CollectedAwaits(entries: seq<ManifestEntry>, remaining: Remaining, kind: EntryKind)
    requires Covers(entries, remaining) && KeysDiffer(entries)
    ensures Awaited(remaining, kind) == PathsOf(entries, kind)
    ensures forall e :: e in entries ==> Components(e.path) in remaining && remaining[Components(e.path)] == e
  {
    hide Components;
    forall e | e in entries ensures Components(e.path) in remaining && remaining[Components(e.path)] == e {
      OneEntryPerKey(entries, e, remaining[Components(e.path)]);
    }
  }

  lemma BodyIsRest(hash: Bytes -> Digest, entries: seq<ManifestEntry>, remaining: Remaining, frames: seq<ArchiveFrame>,
                   blocks: seq<Block>)
    requires Covers(entries, remaining) && KeysDiffer(entries)
    ensures IsBodyOf(hash, entries, frames, blocks) <==> IsRestFor(hash, remaining, None, frames, [], blocks)
  {
    CollectedAwaits(entries, remaining, File);
    CollectedAwaits(entries, remaining, Directory);
    hide Components, EachPathOnce, KeysDiffer, PathsOf, Awaited, OtherFrames, FolderPaths, Printed;
    assert [] + Printed(blocks) == Printed(blocks);
    assert Files(None, [], blocks) == blocks;
    forall b | b in blocks ensures IsBlockOf(hash, entries, b) <==> Awaits(hash, remaining, b, []) {
      assert [] + Flatten(b.chunks) == Flatten(b.chunks);
      hide Fills;
    }
  }

  /** A stream unpacks only if all of it can be read and was written like an archive of the entries that it lists; and if
      it was, nothing but a path in the way can make it fail. */
  lemma UnpacksExactlyWhatIsWritten(env: Env, codec: FramesCodec, tree: Tree, bytes: Bytes, broken: bool)
    ensures var r, frames := UnpackRawArchive(env, codec, tree, bytes, broken), FramesIn(codec, bytes, broken);
      && (r.result.Ok? ==> frames.Some? && IsWritten(env.hash, frames.value) && r.result.value == frames.value[0].manifest)
      && (frames.Some? && IsWritten(env.hash, frames.value) ==> r.result.Ok? || r.result == Err(IoError))
  {
    hide ReadFrame, IsWritten, IsRestFor, IsBodyOf, OnFrame, ValidateEntries, ExpectedEntries, KeysDiffer, Covers;
    if ReadFrame(codec, bytes, broken).Frame? {
      var Frame(first, rest) := ReadFrame(codec, bytes, broken);
      var frames := FramesIn(codec, bytes, broken);
      if first.ManifestFrame? {
        var entries := first.manifest.entries;
        assert frames.Some? ==> frames.value[0] == first && Some(frames.value[1..]) == FramesIn(codec, rest, broken);
        ManifestTaken(entries);
        if ValidateEntries(entries) == None && ExpectedEntries(entries).Some? {
          var s := State(tree, ExpectedEntries(entries).value, None, []);
          ConsumesFrames(env, codec, s, rest, broken);
          if frames.Some? {
            BodyTakenExactly(env, s, entries, frames.value);
          }
        } else if frames.Some? {
          NotWritten(env.hash, frames.value);
        }
      } else if frames.Some? {
        NotWritten(env.hash, frames.value);
      }
    } else {
      NotWritten(env.hash, []);
    }
  }

  predicate AreListed(entries: seq<ManifestEntry>) {
    && (forall e :: e in entries ==> IsValid(e))
    && (forall i, j :: 0 <= i < j < |entries| ==> entries[i].path != entries[j].path)
  }

  lemma NotWritten(hash: Bytes -> Digest, frames: seq<ArchiveFrame>)
    requires frames == [] || !frames[0].ManifestFrame? || !AreListed(frames[0].manifest.entries)
    ensures !IsWritten(hash, frames)
  {
  }

  lemma ManifestTaken(entries: seq<ManifestEntry>)
    ensures ValidateEntries(entries) == None && ExpectedEntries(entries).Some? <==> AreListed(entries)
    ensures AreListed(entries) ==>
              var remaining := ExpectedEntries(entries).value;
              KeysDiffer(entries) && Covers(entries, remaining) && InOrder(remaining)
  {
    ValidationCovers(entries);
    CollectedExactly(entries);
    hide ValidateEntries, ExpectedEntries, KeysDiffer, Components, EntryError, IsValid;
    forall e | e in entries ensures EntryError(e) == None <==> IsValid(e) {
      ValidExactly(e);
    }
    if forall e :: e in entries ==> IsValid(e) {
      PathsTellKeys(entries);
    }
  }

  lemma BodyTakenExactly(env: Env, s: State, entries: seq<ManifestEntry>, frames: seq<ArchiveFrame>)
    requires Covers(entries, s.remaining) && KeysDiffer(entries) && AreListed(entries)
    requires InOrder(s.remaining) && s.current == None
    requires frames != [] && frames[0].ManifestFrame? && frames[0].manifest.entries == entries
    ensures OnFrames(env, s, frames[1..]).Going? ==> IsWritten(env.hash, frames)
    ensures IsWritten(env.hash, frames) ==> OnFrames(env, s, frames[1..]).Going? || IsIoError(OnFrames(env, s, frames[1..]))
  {
    hide Covers, KeysDiffer, InOrder, IsValid, OnFrames, IsBodyOf, IsRestFor;
    if OnFrames(env, s, frames[1..]).Going? {
      var chunks, blocks := RestIfUnpacked(env, s, frames[1..]);
      NothingToCome(env.hash, s.remaining, frames[1..], chunks, blocks);
      BodyIsRest(env.hash, entries, s.remaining, frames[1..], blocks);
    }
    if IsWritten(env.hash, frames) {
      var blocks :| IsBodyOf(env.hash, entries, frames[1..], blocks);
      BodyIsRest(env.hash, entries, s.remaining, frames[1..], blocks);
      UnpackedIfRest(env, s, frames[1..], [], blocks);
    }
  }

  // ---------------------------------------------------------------------------------------------
  // What is wrong with a stream that is refused.

  /** The kind of the awaited entry with this path, told by components, as a file system would. */
  function AwaitedKind(remaining: Remaining, path: PathText): Option<EntryKind> {
    if Components(path) in remaining then Some(remaining[Components(path)].kind) else None
  }

  /** A frame that cannot be taken is refused with nothing changed, and the error says why. */
  lemma RefusedFrame(env: Env, s: State, frame: ArchiveFrame)
    requires IsReached(s)
    ensures var p := OnFrame(env, s, frame);
      match frame
      case ManifestFrame(_) => p == Stop(s, DuplicateManifest)
      case DirectoryFrame(path) =>
        var kind := AwaitedKind(s.remaining, path);
        && (kind == None ==> p == Stop(s, UnexpectedEntry))
        && (kind == Some(File) ==> p == Stop(s, KindMismatch))
        && (kind == Some(Directory) && !AreNames(Split(path)) ==> p == Stop(s, BadPath(path)))
      case FileStart(path, size, blake3) =>
        var kind := AwaitedKind(s.remaining, path);
        && (s.current.Some? ==> p == Stop(s, NestedFile))
        && (s.current.None? && kind == None ==> p == Stop(s, UnexpectedEntry))
        && (s.current.None? && kind == Some(Directory) ==> p == Stop(s, KindMismatch))
        && (s.current.None? && kind == Some(File) && !FileIsAwaited(s.remaining, path, size, blake3) ==>
              p == Stop(s, MetadataMismatch))
      case FileChunk(bytes) =>
        && (s.current.None? ==> p == Stop(s, ChunkOutsideFile))
        && (s.current.Some? && |s.current.value.content + bytes| % U64_LIMIT > s.current.value.size ==>
              p == Stop(s, LargerThanManifest))
      case FileEnd =>
        if s.current.None? then p == Stop(s, EndOutsideFile)
        else
          var active := s.current.value;
          if |active.content| % U64_LIMIT != active.size then p == Stop(s, SizeMismatch)
          else if env.hash(active.content) != active.blake3 then p == Stop(s, HashMismatch)
          else !AreNames(Split(active.path)) ==> p == Stop(s, BadPath(active.path))
  {
    match frame
    case DirectoryFrame(path) =>
      AcceptedExactly(path);
      if AwaitedKind(s.remaining, path) == Some(Directory) {
        ValidFolder(s.remaining[Components(path)]);
      }
      hide Components, ValidateRelativePath, CreateDirAll;
    case FileEnd =>
      if s.current.Some? {
        AcceptedExactly(s.current.value.path);
      }
      hide Components, ValidateRelativePath, CreateDirAll;
    case _ =>
      hide Components, ValidateRelativePath, CreateDirAll;
  }

  /** So is a stream whose beginning is wrong: the first invalid entry decides, then a path that is there twice. */
  lemma RefusedManifest(env: Env, codec: FramesCodec, tree: Tree, bytes: Bytes, broken: bool)
    requires var first := ReadFrame(codec, bytes, broken);
      first.Frame? && first.frame.ManifestFrame? ==> !AreListed(first.frame.manifest.entries)
    ensures var r := UnpackRawArchive(env, codec, tree, bytes, broken);
      && r.tree == tree && r.made == []
      && match ReadFrame(codec, bytes, broken)
         case ReadError => r.result == Err(BadStream)
         case EndOfStream => r.result == Err(NoManifest)
         case Frame(first, _) =>
           if !first.ManifestFrame? then r.result == Err(NotAManifest)
           else
             var entries := first.manifest.entries;
             if forall e :: e in entries ==> IsValid(e) then r.result == Err(DuplicateEntry)
             else exists i :: 0 <= i < |entries| && IsFirstInvalid(entries, i) && r.result == Err(WhyInvalid(entries[i]))
  {
    hide ReadFrame, Consume, IsValid, WhyInvalid, ValidateEntries, ExpectedEntries;
    if ReadFrame(codec, bytes, broken).Frame? && ReadFrame(codec, bytes, broken).frame.ManifestFrame? {
      var entries := ReadFrame(codec, bytes, broken).frame.manifest.entries;
      ManifestTaken(entries);
      FirstInvalidDecides(entries);
    }
  }

  predicate IsFirstInvalid(entries: seq<ManifestEntry>, i: nat) {
    i < |entries| && !IsValid(entries[i]) && forall k :: 0 <= k < i ==> IsValid(entries[k])
  }

  function WhyInvalid(e: ManifestEntry): UnpackError {
    if !AreNames(Split(e.path)) then BadPath(e.path) else if e.kind.File? then MissingHash else DirectoryMetadata
  }

  lemma ErrorTellsWhy(e: ManifestEntry)
    ensures EntryError(e) == if IsValid(e) then None else Some(WhyInvalid(e))
  {
    AcceptedExactly(e.path);
    hide ValidateRelativePath, Split, Components;
  }

  lemma {:induction false} FirstInvalidDecides(entries: seq<ManifestEntry>)
    ensures if forall e :: e in entries ==> IsValid(e) then ValidateEntries(entries) == None
            else exists i :: 0 <= i < |entries| && IsFirstInvalid(entries, i)
                             && ValidateEntries(entries) == Some(WhyInvalid(entries[i]))
  {
    hide EntryError, IsValid, WhyInvalid;
    if entries != [] {
      ErrorTellsWhy(entries[0]);
      assert entries == [entries[0]] + entries[1..];
      if IsValid(entries[0]) {
        FirstInvalidDecides(entries[1..]);
        if !(forall e :: e in entries ==> IsValid(e)) {
          var i :| 0 <= i < |entries[1..]| && IsFirstInvalid(entries[1..], i)
            && ValidateEntries(entries[1..]) == Some(WhyInvalid(entries[1..][i]));
          assert IsFirstInvalid(entries, i + 1);
        }
      } else {
        assert IsFirstInvalid(entries, 0);
      }
    }
  }

  /** Bytes that are no LZMA stream leave nothing but the destination, which is made before they are decompressed. */
  lemma UndecodableMakesDestination(env: Env, codec: FramesCodec, packer: Packer, tree: Tree, bytes: Bytes)
    requires IsTree(tree) && packer.unlzma(bytes) == None
    ensures var r := UnpackArchive(env, codec, packer, tree, SecureChannel.CompressLzma, bytes);
      && r.made == []
      && if exists n :: 0 <= n <= |env.destination| && env.destination[..n] in tree && !IsFolder(tree, env.destination[..n])
         then r.tree == tree && r.result == Err(IoError)
         else WithFolders(tree, env.destination, r.tree) && r.result == Err(BadStream)
  {
    CreateDirAllFailsExactly(tree, env.destination);
    if CreateDirAll(tree, env.destination).Some? {
      CreateDirAllAdds(tree, env.destination);
    }
  }
}
