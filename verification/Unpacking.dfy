/** `unpack_raw_archive` of crates/peerline-transfer/src/archive.rs. */
module Unpacking {
  import opened Bytes
  import opened ArchiveTypes
  import opened Compressing
  import opened Paths
  import opened SecureChannel
  import opened FileTree
  import opened Framing

  datatype UnpackError =
    | NoManifest | NotAManifest | BadPath(path: PathText) | MissingHash | DirectoryMetadata | DuplicateEntry
    | DuplicateManifest | UnexpectedEntry | KindMismatch | NestedFile | MetadataMismatch | ChunkOutsideFile
    | LargerThanManifest | EndOutsideFile | SizeMismatch | HashMismatch | AlreadyConsumed | EndedInsideFile
    | MissingEntries | IoError | BadStream

  /** Where to unpack, whether files there may be replaced, and the hash of file contents. */
  datatype Env = Env(destination: Location, overwrite: bool, hash: Bytes -> Digest)

  /** The manifest entries that no frame has consumed, by the components of their paths. */
  type Remaining = map<seq<Component>, ManifestEntry>

  /** The file being received. Its temporary file and its hasher hold `content`. */
  datatype ActiveFile = ActiveFile(path: PathText, size: U64, blake3: Digest, content: Bytes) {
    /** The 64-bit counter of written bytes. */
    function BytesWritten(): U64 {
      |content| % U64_LIMIT
    }
  }

  /** What became of a manifest entry: where it is and, for a file, what was written. */
  datatype Made = Made(entry: ManifestEntry, at: Location, content: Bytes)

  datatype State = State(tree: Tree, remaining: Remaining, current: Option<ActiveFile>, made: seq<Made>)

  datatype Progress = Going(state: State) | Stopped(tree: Tree, made: seq<Made>, error: UnpackError)

  datatype Report = Report(tree: Tree, made: seq<Made>, result: Result<Manifest, UnpackError>)

  // ---------------------------------------------------------------------------------------------
  // The manifest.

  function EntryError(entry: ManifestEntry): Option<UnpackError> {
    if ValidateRelativePath(entry.path).Some? then Some(BadPath(entry.path))
    else if entry.kind.File? && entry.blake3.None? then Some(MissingHash)
    else if entry.kind.Directory? && (entry.blake3.Some? || entry.size != 0) then Some(DirectoryMetadata)
    else None
  }

  function ValidateEntries(entries: seq<ManifestEntry>): Option<UnpackError> {
    if entries == [] then None
    else if EntryError(entries[0]).Some? then EntryError(entries[0])
    else ValidateEntries(entries[1..])
  }

  function ExpectedEntries(entries: seq<ManifestEntry>): Option<Remaining> {
    if entries == [] then Some(map[])
    else
      var last := entries[|entries| - 1];
      match ExpectedEntries(entries[..|entries| - 1])
      case None => None
      case Some(earlier) =>
        if Components(last.path) in earlier then None else Some(earlier[Components(last.path) := last])
  }

  function Lookup(remaining: Remaining, path: PathText, kind: EntryKind): Result<ManifestEntry, UnpackError> {
    if Components(path) !in remaining then Err(UnexpectedEntry)
    else if remaining[Components(path)].kind != kind then Err(KindMismatch)
    else Ok(remaining[Components(path)])
  }

  // ---------------------------------------------------------------------------------------------
  // One frame.

  function Stop(s: State, error: UnpackError): Progress {
    Stopped(s.tree, s.made, error)
  }

  function SafeJoin(root: Location, path: PathText): Location {
    root + Split(path)
  }

  function OnDirectory(env: Env, s: State, path: PathText): Progress {
    match Lookup(s.remaining, path, Directory)
    case Err(error) => Stop(s, error)
    case Ok(entry) =>
      if entry.size != 0 || entry.blake3.Some? then Stop(s, DirectoryMetadata)
      else if ValidateRelativePath(path).Some? then Stop(s, BadPath(path))
      else
        var target := SafeJoin(env.destination, path);
        match CreateDirAll(s.tree, target)
        case None => Stop(s, IoError)
        case Some(tree) =>
          Going(State(tree, s.remaining - {Components(path)}, s.current, s.made + [Made(entry, target, [])]))
  }

  function OnFileStart(env: Env, s: State, path: PathText, size: U64, blake3: Digest): Progress {
    if s.current.Some? then Stop(s, NestedFile)
    else
      match Lookup(s.remaining, path, File)
      case Err(error) => Stop(s, error)
      case Ok(entry) =>
        if entry.size != size || entry.blake3 != Some(blake3) then Stop(s, MetadataMismatch)
        else
          match CreateDirAll(s.tree, env.destination)
          case None => Stop(s, IoError)
          case Some(tree) => Going(s.(tree := tree, current := Some(ActiveFile(path, size, blake3, []))))
  }

  function OnFileChunk(s: State, bytes: Bytes): Progress {
    match s.current
    case None => Stop(s, ChunkOutsideFile)
    case Some(active) =>
      var active' := active.(content := active.content + bytes);
      if active'.BytesWritten() > active.size then Stop(s, LargerThanManifest)
      else Going(s.(current := Some(active')))
  }

  function OnFileEnd(env: Env, s: State): Progress {
    match s.current
    case None => Stop(s, EndOutsideFile)
    case Some(active) =>
      if active.BytesWritten() != active.size then Stop(s, SizeMismatch)
      else if env.hash(active.content) != active.blake3 then Stop(s, HashMismatch)
      else if ValidateRelativePath(active.path).Some? then Stop(s, BadPath(active.path))
      else
        Place(s, active, ChosenPath(env, s.tree, active.path))
  }

  function ChosenPath(env: Env, tree: Tree, path: PathText): (at: Location)
    ensures at != []
  {
    var target := SafeJoin(env.destination, path);
    if env.overwrite then target
    else
      NonOverwritingIsFree(tree, target);
      NonOverwritingPath(tree, target)
  }

  function Place(s: State, active: ActiveFile, at: Location): Progress
    requires at != []
  {
    match CreateDirAll(s.tree, Parent(at))
    case None => Stop(s, IoError)
    case Some(withParent) =>
      match Persist(withParent, at, active.content)
      case None => Stopped(withParent, s.made, IoError)
      case Some(tree) =>
        var key := Components(active.path);
        if key !in s.remaining then Stopped(tree, s.made, AlreadyConsumed)
        else Going(State(tree, s.remaining - {key}, None, s.made + [Made(s.remaining[key], at, active.content)]))
  }

  function OnFrame(env: Env, s: State, frame: ArchiveFrame): Progress {
    match frame
    case ManifestFrame(_) => Stop(s, DuplicateManifest)
    case DirectoryFrame(path) => OnDirectory(env, s, path)
    case FileStart(path, size, blake3) => OnFileStart(env, s, path, size, blake3)
    case FileChunk(bytes) => OnFileChunk(s, bytes)
    case FileEnd => OnFileEnd(env, s)
  }

  // ---------------------------------------------------------------------------------------------
  // The stream.

  function AtEnd(s: State): Progress {
    if s.current.Some? then Stop(s, EndedInsideFile)
    else if s.remaining != map[] then Stop(s, MissingEntries)
    else Going(s)
  }

  function Consume(env: Env, codec: FramesCodec, s: State, bytes: Bytes, broken: bool): Progress
    decreases |bytes|
  {
    match ReadFrame(codec, bytes, broken)
    case ReadError => Stop(s, BadStream)
    case EndOfStream => AtEnd(s)
    case Frame(frame, rest) =>
      match OnFrame(env, s, frame)
      case Stopped(tree, made, error) => Stopped(tree, made, error)
      case Going(s') => Consume(env, codec, s', rest, broken)
  }

  function Summary(manifest: Manifest, p: Progress): Report {
    match p
    case Going(s) => Report(s.tree, s.made, Ok(manifest))
    case Stopped(tree, made, error) => Report(tree, made, Err(error))
  }

  function UnpackRawArchive(env: Env, codec: FramesCodec, tree: Tree, bytes: Bytes, broken: bool): Report {
    match ReadFrame(codec, bytes, broken)
    case ReadError => Report(tree, [], Err(BadStream))
    case EndOfStream => Report(tree, [], Err(NoManifest))
    case Frame(first, rest) =>
      if !first.ManifestFrame? then Report(tree, [], Err(NotAManifest))
      else if ValidateEntries(first.manifest.entries).Some? then
        Report(tree, [], Err(ValidateEntries(first.manifest.entries).value))
      else
        match ExpectedEntries(first.manifest.entries)
        case None => Report(tree, [], Err(DuplicateEntry))
        case Some(remaining) =>
          Summary(first.manifest, Consume(env, codec, State(tree, remaining, None, []), rest, broken))
  }

  // ---------------------------------------------------------------------------------------------
  // The loops.

  method CheckEntries(entries: seq<ManifestEntry>) returns (error: Option<UnpackError>)
    ensures error == ValidateEntries(entries)
  {
    for i := 0 to |entries|
      invariant ValidateEntries(entries[i..]) == ValidateEntries(entries)
    {
      assert entries[i..][1..] == entries[i + 1..];
      error := EntryError(entries[i]);
      if error.Some? {
        return;
      }
    }
    error := None;
  }

  method CollectEntries(entries: seq<ManifestEntry>) returns (remaining: Option<Remaining>)
    ensures remaining == ExpectedEntries(entries)
  {
    var collected: Remaining := map[];
    for i := 0 to |entries|
      invariant ExpectedEntries(entries[..i]) == Some(collected)
    {
      assert entries[..i + 1][..i] == entries[..i];
      var key := Components(entries[i].path);
      if key in collected {
        DuplicateStays(entries, i + 1);
        return None;
      }
      collected := collected[key := entries[i]];
    }
    assert entries[..|entries|] == entries;
    remaining := Some(collected);
  }

  lemma {:induction false} DuplicateStays(entries: seq<ManifestEntry>, n: nat)
    requires n <= |entries| && ExpectedEntries(entries[..n]) == None
    ensures ExpectedEntries(entries) == None
    decreases |entries|
  {
    if n < |entries| {
      assert entries[..|entries| - 1][..n] == entries[..n];
      DuplicateStays(entries[..|entries| - 1], n);
    } else {
      assert entries[..n] == entries;
    }
  }

  /** The step of `FileEnd` on the file system. */
  method FinishFile(env: Env, files: FileSystem, active: ActiveFile, remaining: Remaining, ghost made: seq<Made>)
    returns (error: Option<UnpackError>, remaining': Remaining, ghost made': seq<Made>)
    modifies files
    ensures OnFileEnd(env, State(old(files.nodes), remaining, Some(active), made))
            == (if error.Some? then Stopped(files.nodes, made', error.value)
                else Going(State(files.nodes, remaining', None, made')))
  {
    remaining', made' := remaining, made;
    if active.BytesWritten() != active.size {
      return Some(SizeMismatch), remaining', made';
    }
    if env.hash(active.content) != active.blake3 {
      return Some(HashMismatch), remaining', made';
    }
    if ValidateRelativePath(active.path).Some? {
      return Some(BadPath(active.path)), remaining', made';
    }
    var path := SafeJoin(env.destination, active.path);
    if !env.overwrite {
      path := FindFreePath(files.nodes, path);
    }
    assert path == ChosenPath(env, files.nodes, active.path);
    var ok := files.MakeDirs(Parent(path));
    if ok {
      ok := files.PersistAt(path, active.content);
    }
    if !ok {
      return Some(IoError), remaining', made';
    }
    var key := Components(active.path);
    if key !in remaining {
      return Some(AlreadyConsumed), remaining', made';
    }
    made' := made + [Made(remaining[key], path, active.content)];
    remaining' := remaining - {key};
    error := None;
  }

  /** One turn of the loop on the file system and the local variables. */
  method HandleFrame(env: Env, files: FileSystem, frame: ArchiveFrame, remaining: Remaining,
                     current: Option<ActiveFile>, ghost made: seq<Made>)
    returns (error: Option<UnpackError>, remaining': Remaining, current': Option<ActiveFile>, ghost made': seq<Made>)
    modifies files
    ensures OnFrame(env, State(old(files.nodes), remaining, current, made), frame)
            == (if error.Some? then Stopped(files.nodes, made', error.value)
                else Going(State(files.nodes, remaining', current', made')))
  {
    hide ValidateRelativePath, Components, Split;
    remaining', current', made' := remaining, current, made;
    match frame
    case ManifestFrame(_) =>
      error := Some(DuplicateManifest);
    case DirectoryFrame(path) =>
      var entry := Lookup(remaining, path, Directory);
      if entry.Err? {
        return Some(entry.error), remaining', current', made';
      }
      if entry.value.size != 0 || entry.value.blake3.Some? {
        return Some(DirectoryMetadata), remaining', current', made';
      }
      if ValidateRelativePath(path).Some? {
        return Some(BadPath(path)), remaining', current', made';
      }
      var target := SafeJoin(env.destination, path);
      var ok := files.MakeDirs(target);
      if !ok {
        return Some(IoError), remaining', current', made';
      }
      remaining' := remaining - {Components(path)};
      made' := made + [Made(entry.value, target, [])];
      error := None;
    case FileStart(path, size, blake3) =>
      if current.Some? {
        return Some(NestedFile), remaining', current', made';
      }
      var entry := Lookup(remaining, path, File);
      if entry.Err? {
        return Some(entry.error), remaining', current', made';
      }
      if entry.value.size != size || entry.value.blake3 != Some(blake3) {
        return Some(MetadataMismatch), remaining', current', made';
      }
      var ok := files.MakeDirs(env.destination);
      if !ok {
        return Some(IoError), remaining', current', made';
      }
      current' := Some(ActiveFile(path, size, blake3, []));
      error := None;
    case FileChunk(bytes) =>
      if current.None? {
        return Some(ChunkOutsideFile), remaining', current', made';
      }
      var active := current.value.(content := current.value.content + bytes);
      if active.BytesWritten() > active.size {
        return Some(LargerThanManifest), remaining', current', made';
      }
      current' := Some(active);
      error := None;
    case FileEnd =>
      if current.None? {
        return Some(EndOutsideFile), remaining', current', made';
      }
      current' := None;
      error, remaining', made' := FinishFile(env, files, current.value, remaining, made);
  }

  method Unpack(env: Env, codec: FramesCodec, files: FileSystem, reader: ByteReader)
    returns (result: Result<Manifest, UnpackError>, ghost made: seq<Made>)
    modifies files, reader
    ensures Report(files.nodes, made, result)
            == UnpackRawArchive(env, codec, old(files.nodes), old(reader.rest), reader.broken)
  {
    hide OnFrame, ReadFrame, ValidateEntries, ExpectedEntries;
    made := [];
    var first := ReadFrameFrom(codec, reader);
    if first.ReadError? {
      return Err(BadStream), made;
    }
    if first.EndOfStream? {
      return Err(NoManifest), made;
    }
    if !first.frame.ManifestFrame? {
      return Err(NotAManifest), made;
    }
    var manifest := first.frame.manifest;
    var invalid := CheckEntries(manifest.entries);
    if invalid.Some? {
      return Err(invalid.value), made;
    }
    var expected := CollectEntries(manifest.entries);
    if expected.None? {
      return Err(DuplicateEntry), made;
    }
    var remaining := expected.value;
    var current: Option<ActiveFile> := None;
    ghost var whole := Consume(env, codec, State(files.nodes, remaining, None, []), reader.rest, reader.broken);
    assert UnpackRawArchive(env, codec, old(files.nodes), old(reader.rest), reader.broken) == Summary(manifest, whole);
    while true
      invariant Consume(env, codec, State(files.nodes, remaining, current, made), reader.rest, reader.broken) == whole
      decreases |reader.rest|
    {
      var next := ReadFrameFrom(codec, reader);
      if next.ReadError? {
        return Err(BadStream), made;
      }
      if next.EndOfStream? {
        break;
      }
      var error;
      error, remaining, current, made := HandleFrame(env, files, next.frame, remaining, current, made);
      if error.Some? {
        return Err(error.value), made;
      }
    }
    if current.Some? {
      return Err(EndedInsideFile), made;
    }
    if remaining != map[] {
      return Err(MissingEntries), made;
    }
    result := Ok(manifest);
  }

  // ---------------------------------------------------------------------------------------------
  // Through the compression.

  /** The bytes behind the compression, and whether the stream breaks off with an error. */
  function RawOf(packer: Packer, compression: Compression, bytes: Bytes): Option<(Bytes, bool)> {
    match compression
    case CompressNone => Some((bytes, false))
    case CompressZstd => Some(packer.unzstd(bytes))
    case CompressAuto => Some(packer.unzstd(bytes))
    case CompressLzma => (match packer.unlzma(bytes) case None => None case Some(raw) => Some((raw, false)))
  }

  /** LZMA decompresses into the destination, which therefore has to be there first. */
  function BaseFor(env: Env, tree: Tree, compression: Compression): Option<Tree> {
    if compression.CompressLzma? then CreateDirAll(tree, env.destination) else Some(tree)
  }

  function UnpackArchive(env: Env, codec: FramesCodec, packer: Packer, tree: Tree, compression: Compression, bytes: Bytes)
    : Report
  {
    match BaseFor(env, tree, compression)
    case None => Report(tree, [], Err(IoError))
    case Some(base) =>
      match RawOf(packer, compression, bytes)
      case None => Report(base, [], Err(BadStream))
      case Some((raw, broken)) => UnpackRawArchive(env, codec, base, raw, broken)
  }

  /** What is on disk once the first `n` bytes of the raw archive have been unpacked. */
  function UnpackCut(env: Env, codec: FramesCodec, packer: Packer, tree: Tree, compression: Compression, bytes: Bytes, n: nat)
    : Report
  {
    match BaseFor(env, tree, compression)
    case None => Report(tree, [], Err(IoError))
    case Some(base) =>
      match RawOf(packer, compression, bytes)
      case None => Report(base, [], Err(BadStream))
      case Some((raw, _)) => UnpackRawArchive(env, codec, base, if n < |raw| then raw[..n] else raw, false)
  }

  /** The entries that an archive lists. */
  function ListedIn(codec: FramesCodec, raw: Bytes): seq<ManifestEntry> {
    match ReadFrame(codec, raw, false)
    case Frame(first, _) => if first.ManifestFrame? then first.manifest.entries else []
    case _ => []
  }

  function Listed(codec: FramesCodec, packer: Packer, compression: Compression, bytes: Bytes): seq<ManifestEntry> {
    match RawOf(packer, compression, bytes)
    case None => []
    case Some((raw, _)) => ListedIn(codec, raw)
  }

  method UnpackArchiveFromReader(env: Env, codec: FramesCodec, packer: Packer, files: FileSystem,
                                 compression: Compression, bytes: Bytes)
    returns (result: Result<Manifest, UnpackError>, ghost made: seq<Made>)
    modifies files
    ensures Report(files.nodes, made, result) == UnpackArchive(env, codec, packer, old(files.nodes), compression, bytes)
  {
    hide UnpackRawArchive, CreateDirAll;
    made := [];
    var raw, broken := bytes, false;
    match compression {
      case CompressNone =>
      case CompressZstd =>
        raw, broken := packer.unzstd(bytes).0, packer.unzstd(bytes).1;
      case CompressAuto =>
        raw, broken := packer.unzstd(bytes).0, packer.unzstd(bytes).1;
      case CompressLzma =>
        var ok := files.MakeDirs(env.destination);
        if !ok {
          return Err(IoError), made;
        }
        var decoded := packer.unlzma(bytes);
        if decoded.None? {
          return Err(BadStream), made;
        }
        raw := decoded.value;
    }
    var reader := new ByteReader(raw, broken);
    result, made := Unpack(env, codec, files, reader);
  }
}
