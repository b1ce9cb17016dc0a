/** The receiver's disk. The partial store of crates/peerline-net/src/resume.rs lies inside the destination that
    archives are unpacked into, so an archive can reach it. A disk is the store together with everything else;
    `FullTree` is the file system that unpacking sees. */
module ReceiverDisk {
  import opened Bytes
  import opened ArchiveTypes
  import opened Compressing
  import opened SecureChannel
  import opened FileTree
  import opened ResumeStore
  import opened Unpacking

  const RESUME_DIR: Bytes := Ascii(".peerline-resume")
  const PART_NAME: Bytes := Ascii("archive.part")
  const META_NAME: Bytes := Ascii("metadata.json")
  const TEMP_NAME: Bytes := Ascii("metadata.json.tmp")

  /** The serializer of the metadata; an empty file is no metadata. */
  datatype MetaCodec = MetaCodec(encode: Metadata -> Bytes, decode: Bytes -> Option<Metadata>)

  ghost predicate ReadsBack(codec: MetaCodec) {
    && (forall m: Metadata :: codec.decode(codec.encode(m)) == Some(m))
    && codec.decode([]) == None
  }

  /** What a receiver is given: where and how to unpack, the serializers and the decompressors. */
  datatype Receiver = Receiver(env: Env, frames: FramesCodec, packer: Packer, metadata: MetaCodec, secure: Codec)

  datatype Disk = Disk(store: Store, rest: Tree)

  // ---------------------------------------------------------------------------------------------
  // Where the partials lie.

  function HexDigit(n: nat): Byte
    requires n < 16
  {
    if n < 10 then 48 + n else 87 + n
  }

  function DigitValue(b: Byte): Option<nat> {
    if 48 <= b < 58 then Some(b - 48) else if 97 <= b < 103 then Some(b - 87) else None
  }

  function Hex(bytes: Bytes): Bytes {
    if bytes == [] then [] else [HexDigit(bytes[0] / 16), HexDigit(bytes[0] % 16)] + Hex(bytes[1..])
  }

  function UnHex(text: Bytes): Option<Bytes> {
    if text == [] then Some([])
    else if |text| == 1 then None
    else
      match (DigitValue(text[0]), DigitValue(text[1]), UnHex(text[2..]))
      case (Some(high), Some(low), Some(rest)) => if high < 16 && low < 16 then Some([16 * high + low] + rest) else None
      case _ => None
  }

  lemma {:induction false} UnHexAfterHex(bytes: Bytes)
    ensures UnHex(Hex(bytes)) == Some(bytes)
  {
    if bytes != [] {
      UnHexAfterHex(bytes[1..]);
      assert Hex(bytes)[2..] == Hex(bytes[1..]);
      assert bytes == [bytes[0]] + bytes[1..];
      assert 16 * (bytes[0] / 16) + bytes[0] % 16 == bytes[0];
    }
  }

  lemma {:induction false} HexAfterUnHex(text: Bytes)
    requires UnHex(text).Some?
    ensures Hex(UnHex(text).value) == text
  {
    if text != [] {
      HexAfterUnHex(text[2..]);
      assert UnHex(text).value[1..] == UnHex(text[2..]).value;
    }
  }

  lemma {:induction false} HexIsPlain(bytes: Bytes)
    ensures |Hex(bytes)| == 2 * |bytes|
    ensures forall i :: 0 <= i < |Hex(bytes)| ==> 48 <= Hex(bytes)[i] < 58 || 97 <= Hex(bytes)[i] < 103
  {
    if bytes != [] {
      HexIsPlain(bytes[1..]);
    }
  }

  function Root(u: Receiver): Location {
    u.env.destination + [RESUME_DIR]
  }

  function SourceDir(u: Receiver, key: PartialKey): Location {
    u.env.destination + [RESUME_DIR, Hex(key.source)]
  }

  function DirOfKey(u: Receiver, key: PartialKey): Location {
    u.env.destination + [RESUME_DIR, Hex(key.source), Hex(key.resource)]
  }

  function FileOfKey(u: Receiver, key: PartialKey, name: Bytes): Location {
    u.env.destination + [RESUME_DIR, Hex(key.source), Hex(key.resource), name]
  }

  /** The partial whose directory this is. */
  function KeyAt(u: Receiver, loc: Location): Option<PartialKey> {
    var n := |u.env.destination|;
    if |loc| != n + 3 || !(Root(u) <= loc) then None
    else
      match (UnHex(loc[n + 1]), UnHex(loc[n + 2]))
      case (Some(source), Some(resource)) =>
        if |source| == 16 && |resource| == 32 then Some(PartialKey(source, resource)) else None
      case _ => None
  }

  lemma KeyAtExactly(u: Receiver, loc: Location, key: PartialKey)
    ensures KeyAt(u, loc) == Some(key) <==> loc == DirOfKey(u, key)
  {
    var n := |u.env.destination|;
    UnHexAfterHex(key.source);
    UnHexAfterHex(key.resource);
    if KeyAt(u, loc) == Some(key) {
      HexAfterUnHex(loc[n + 1]);
      HexAfterUnHex(loc[n + 2]);
      assert loc[n] == Root(u)[n];
      assert loc[..n] == Root(u)[..n] == u.env.destination;
      assert loc == loc[..n] + [loc[n], loc[n + 1], loc[n + 2]];
    }
  }

  // ---------------------------------------------------------------------------------------------
  // The store that a file system holds.

  function FileAt(t: Tree, loc: Location): Option<Bytes> {
    if loc in t && t[loc].Content? then Some(t[loc].bytes) else None
  }

  function MetaAt(u: Receiver, t: Tree, loc: Location): Option<MetaFile> {
    match FileAt(t, loc)
    case None => None
    case Some(bytes) => match u.metadata.decode(bytes) case Some(m) => Some(Readable(m)) case None => Some(Garbled)
  }

  function DirAt(u: Receiver, t: Tree, key: PartialKey): PartialDir {
    PartialDir(FileAt(t, FileOfKey(u, key, PART_NAME)), MetaAt(u, t, FileOfKey(u, key, META_NAME)),
               MetaAt(u, t, FileOfKey(u, key, TEMP_NAME)))
  }

  function KeysIn(u: Receiver, t: Tree): set<PartialKey> {
    set loc | loc in t && t[loc].Folder? && KeyAt(u, loc).Some? :: KeyAt(u, loc).value
  }

  function StoreOf(u: Receiver, t: Tree): Store {
    map key | key in KeysIn(u, t) :: DirAt(u, t, key)
  }

  lemma InStoreExactly(u: Receiver, t: Tree, key: PartialKey)
    ensures key in StoreOf(u, t) <==> IsFolder(t, DirOfKey(u, key))
    ensures key in StoreOf(u, t) ==> StoreOf(u, t)[key] == DirAt(u, t, key)
  {
    KeyAtExactly(u, DirOfKey(u, key), key);
    if key in KeysIn(u, t) {
      var loc :| loc in t && t[loc].Folder? && KeyAt(u, loc) == Some(key);
      KeyAtExactly(u, loc, key);
    }
  }

  // ---------------------------------------------------------------------------------------------
  // The file system that shows a store.

  function MetaBytes(u: Receiver, file: MetaFile): Bytes {
    match file
    case Readable(m) => u.metadata.encode(m)
    case Garbled => []
  }

  function Folders(u: Receiver, store: Store): set<Location> {
    (set key | key in store :: Root(u)) + (set key | key in store :: SourceDir(u, key))
    + (set key | key in store :: DirOfKey(u, key))
  }

  function Files(u: Receiver, store: Store): set<Location> {
    (set key | key in store && store[key].part.Some? :: FileOfKey(u, key, PART_NAME))
    + (set key | key in store && store[key].meta.Some? :: FileOfKey(u, key, META_NAME))
    + (set key | key in store && store[key].temp.Some? :: FileOfKey(u, key, TEMP_NAME))
  }

  function BytesShown(u: Receiver, dir: PartialDir, name: Bytes): Bytes {
    if name == PART_NAME then (if dir.part.Some? then dir.part.value else [])
    else if name == META_NAME then (if dir.meta.Some? then MetaBytes(u, dir.meta.value) else [])
    else if dir.temp.Some? then MetaBytes(u, dir.temp.value) else []
  }

  function FileShown(u: Receiver, store: Store, loc: Location): Bytes {
    if loc == [] then []
    else
      match KeyAt(u, Parent(loc))
      case Some(key) => if key in store then BytesShown(u, store[key], loc[|loc| - 1]) else []
      case None => []
  }

  function Shown(u: Receiver, store: Store): Tree {
    map loc | loc in Folders(u, store) + Files(u, store) ::
      if loc in Folders(u, store) then Folder else Content(FileShown(u, store, loc))
  }

  /** Everything but the store, with the destination made. */
  function Base(u: Receiver, rest: Tree): Tree {
    match CreateDirAll(rest, u.env.destination)
    case None => rest
    case Some(t) => t
  }

  function FullTree(u: Receiver, disk: Disk): Tree {
    Base(u, disk.rest) + Shown(u, disk.store)
  }

  function SplitDisk(u: Receiver, t: Tree): Disk {
    var store := StoreOf(u, t);
    Disk(store, t - Shown(u, store).Keys)
  }

  // ---------------------------------------------------------------------------------------------
  // Unpacking on the disk.

  function UnpackOnDisk(u: Receiver, disk: Disk, compression: Compression, archive: Bytes): (Disk, Report) {
    var r := UnpackArchive(u.env, u.frames, u.packer, FullTree(u, disk), compression, archive);
    (SplitDisk(u, r.tree), r)
  }

  method UnpackReceived(u: Receiver, disk: ResumeDisk, compression: Compression, archive: Bytes)
    returns (result: Result<Manifest, UnpackError>, ghost report: Report)
    modifies disk
    ensures (Disk(disk.dirs, disk.rest), report) == UnpackOnDisk(u, Disk(old(disk.dirs), old(disk.rest)), compression, archive)
    ensures result == report.result && disk.journal == old(disk.journal)
  {
    hide UnpackArchive, FullTree, StoreOf;
    var files := new FileSystem(FullTree(u, Disk(disk.dirs, disk.rest)));
    ghost var made;
    result, made := UnpackArchiveFromReader(u.env, u.frames, u.packer, files, compression, archive);
    report := Report(files.nodes, made, result);
    var left := SplitDisk(u, files.nodes);
    disk.dirs, disk.rest := left.store, left.rest;
  }

  lemma CompleteIsQuiet(hash: Bytes -> ResourceId, s: Store, d: Descriptor)
    requires CompleteResult(hash, s, d).Ok?
    ensures CompleteEffects(hash, s, d) == [] && Run(s, []) == s
  {
  }

  /** The disk after the end of a transfer: a partial that passes the check is unpacked and then removed, whether
      or not it unpacks. The effects on the store come after the unpacking, which may have reached into it. */
  function AfterEnd(u: Receiver, disk: Disk, compression: Compression, d: Descriptor): Disk {
    match CompleteResult(u.env.hash, disk.store, d)
    case Err(_) => disk.(store := Run(disk.store, CompleteEffects(u.env.hash, disk.store, d)))
    case Ok(archive) =>
      var base := UnpackOnDisk(u, disk, compression, archive).0;
      base.(store := Run(base.store, RemovePartialEffects(KeyOf(d))))
  }

  method EndTransfer(u: Receiver, disk: ResumeDisk, compression: Compression, d: Descriptor)
    returns (archive: Result<Bytes, StoreError>, unpacked: bool)
    modifies disk
    ensures archive == CompleteResult(u.env.hash, old(disk.dirs), d)
    ensures unpacked <==>
              && archive.Ok?
              && UnpackOnDisk(u, Disk(old(disk.dirs), old(disk.rest)), compression, archive.value).1.result.Ok?
    ensures Disk(disk.dirs, disk.rest) == AfterEnd(u, Disk(old(disk.dirs), old(disk.rest)), compression, d)
    ensures disk.journal == old(disk.journal)
      + if archive.Ok? then RemovePartialEffects(KeyOf(d)) else CompleteEffects(u.env.hash, old(disk.dirs), d)
  {
    hide Run, UnpackOnDisk, RemovePartialEffects, CompleteEffects, CompleteResult;
    archive := disk.CompletePartial(u.env.hash, d);
    if archive.Err? {
      return archive, false;
    }
    CompleteIsQuiet(u.env.hash, old(disk.dirs), d);
    var result, report := UnpackReceived(u, disk, compression, archive.value);
    disk.RemovePartial(KeyOf(d));
    unpacked := result.Ok?;
  }
}
