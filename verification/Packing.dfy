/** The packing half of crates/peerline-transfer/src/archive.rs. */
module Packing {
  import opened Bytes
  import opened SecureChannel
  import opened ArchiveTypes
  import opened Compressing
  import opened Paths
  import opened Framing
  import opened Scanning
  import Transcripts

  const ARCHIVE_FILE_CHUNK_SIZE: nat := 64 * 1024

  function RelativePath(e: SourceEntry): PathText
    requires IsEntry(e)
  {
    Join(e.names)
  }

  function ManifestEntryOf(hash: Bytes -> Digest, e: SourceEntry): ManifestEntry
    requires IsEntry(e)
  {
    match e.node
    case Folder => ManifestEntry(RelativePath(e), Directory, 0, None)
    case Content(bytes) => ManifestEntry(RelativePath(e), File, |bytes|, Some(hash(bytes)))
  }

  // ---------------------------------------------------------------------------------------------
  // The archive body.

  function FileChunks(chunks: seq<Bytes>): (frames: seq<ArchiveFrame>)
    ensures |frames| == |chunks|
  {
    seq(|chunks|, i requires 0 <= i < |chunks| => FileChunk(chunks[i]))
  }

  function EntryFrames(hash: Bytes -> Digest, e: SourceEntry, chunks: seq<Bytes>): seq<ArchiveFrame>
    requires IsEntry(e)
  {
    match e.node
    case Folder => [DirectoryFrame(RelativePath(e))]
    case Content(bytes) =>
      [FileStart(RelativePath(e), |bytes|, hash(bytes))] + FileChunks(chunks) + [FileEnd]
  }

  function Body(hash: Bytes -> Digest, entries: seq<SourceEntry>, chunkings: seq<seq<Bytes>>): seq<ArchiveFrame>
    requires |chunkings| == |entries| && AreEntries(entries)
  {
    if entries == [] then []
    else
      var n := |entries| - 1;
      Body(hash, entries[..n], chunkings[..n]) + EntryFrames(hash, entries[n], chunkings[n])
  }

  /** `chunks` are what reading the file of an entry returned. */
  predicate ChunksOf(e: SourceEntry, chunks: seq<Bytes>) {
    match e.node
    case Folder => chunks == []
    case Content(bytes) => AreReads(chunks, bytes, ARCHIVE_FILE_CHUNK_SIZE)
  }

  predicate AllChunked(entries: seq<SourceEntry>, chunkings: seq<seq<Bytes>>) {
    && |chunkings| == |entries|
    && forall i :: 0 <= i < |entries| ==> ChunksOf(entries[i], chunkings[i])
  }

  lemma {:induction false} WriteFramesConcat(codec: FramesCodec, a: seq<ArchiveFrame>, b: seq<ArchiveFrame>)
    ensures WriteFrames(codec, a + b) == WriteFrames(codec, a) + WriteFrames(codec, b)
  {
    hide WriteFrame;
    if a == [] {
      assert a + b == b;
    } else {
      assert (a + b)[1..] == a[1..] + b;
      WriteFramesConcat(codec, a[1..], b);
    }
  }

  lemma WriteOneMore(codec: FramesCodec, a: seq<ArchiveFrame>, frame: ArchiveFrame)
    ensures WriteFrames(codec, a + [frame]) == WriteFrames(codec, a) + WriteFrame(codec, frame)
  {
    hide WriteFrame;
    WriteFramesConcat(codec, a, [frame]);
    assert [frame][1..] == [];
    assert WriteFrames(codec, [frame]) == WriteFrame(codec, frame) + [];
  }

  /** These bytes are the frames of the entry, in some pieces that reads can return. */
  ghost predicate HoldsEntry(codec: FramesCodec, hash: Bytes -> Digest, e: SourceEntry, raw: Bytes)
    requires IsEntry(e)
  {
    exists chunks :: ChunksOf(e, chunks) && raw == WriteFrames(codec, EntryFrames(hash, e, chunks))
  }

  ghost predicate HoldsBody(codec: FramesCodec, hash: Bytes -> Digest, entries: seq<SourceEntry>, raw: Bytes)
    requires AreEntries(entries)
  {
    exists chunkings :: AllChunked(entries, chunkings) && raw == WriteFrames(codec, Body(hash, entries, chunkings))
  }

  lemma InThesePieces(codec: FramesCodec, hash: Bytes -> Digest, e: SourceEntry, raw: Bytes, chunks: seq<Bytes>)
    requires IsEntry(e) && ChunksOf(e, chunks) && raw == WriteFrames(codec, EntryFrames(hash, e, chunks))
    ensures HoldsEntry(codec, hash, e, raw)
  {
  }

  lemma InTheseChunkings(codec: FramesCodec, hash: Bytes -> Digest, entries: seq<SourceEntry>, raw: Bytes,
                         chunkings: seq<seq<Bytes>>)
    requires AreEntries(entries) && AllChunked(entries, chunkings) && raw == WriteFrames(codec, Body(hash, entries, chunkings))
    ensures HoldsBody(codec, hash, entries, raw)
  {
  }

  lemma OneMoreFileChunk(codec: FramesCodec, frames: seq<ArchiveFrame>, file: Bytes, chunks: seq<Bytes>, from: nat, to: nat)
    requires from < to <= |file| && to - from <= ARCHIVE_FILE_CHUNK_SIZE
    requires AreReads(chunks, file[..from], ARCHIVE_FILE_CHUNK_SIZE)
    ensures AreReads(chunks + [file[from..to]], file[..to], ARCHIVE_FILE_CHUNK_SIZE)
    ensures WriteFrames(codec, frames + FileChunks(chunks + [file[from..to]]))
            == WriteFrames(codec, frames + FileChunks(chunks)) + WriteFrame(codec, FileChunk(file[from..to]))
  {
    hide WriteFrame, WriteFrames;
    var buffer := file[from..to];
    WriteOneMore(codec, frames + FileChunks(chunks), FileChunk(buffer));
    assert frames + FileChunks(chunks) + [FileChunk(buffer)] == frames + FileChunks(chunks + [buffer]);
    assert file[0..from] == file[..from] && file[0..to] == file[..to];
    OneMoreRead(chunks, file, ARCHIVE_FILE_CHUNK_SIZE, 0, from, to);
  }

  /** The frames of one file, read in pieces. */
  method WriteFile(codec: FramesCodec, hash: Bytes -> Digest, e: SourceEntry, readSizes: nat -> nat)
    returns (raw: Bytes, ghost chunks: seq<Bytes>)
    requires IsEntry(e) && e.node.Content?
    ensures HoldsEntry(codec, hash, e, raw)
    ensures ChunksOf(e, chunks)
    ensures forall chunk :: chunk in chunks ==> 0 < |chunk| <= 65_536
    ensures FillsBuffers(readSizes, 65_536) ==> AreFull(chunks, 65_536)
    ensures raw == WriteFrames(codec, EntryFrames(hash, e, chunks))
  {
    hide WriteFrame, WriteFrames, HoldsEntry, FillsBuffers, AreFull, ReadFully, AreReads, FileChunks, EntryFrames, ChunksOf,
      RelativePath;
    var file := e.node.bytes;
    raw := WriteFrame(codec, StartOf(hash, e));
    chunks := [];
    ghost var frames := [StartOf(hash, e)];
    NothingReadYet(file, ARCHIVE_FILE_CHUNK_SIZE, 0);
    FileStarts(codec, hash, e);
    var position, round := 0, 0;
    while position < |file|
      invariant position <= |file|
      invariant AreReads(chunks, file[..position], ARCHIVE_FILE_CHUNK_SIZE)
      invariant raw == WriteFrames(codec, frames + FileChunks(chunks))
      invariant FillsBuffers(readSizes, ARCHIVE_FILE_CHUNK_SIZE) ==>
                  ReadFully(chunks, file, ARCHIVE_FILE_CHUNK_SIZE, position)
      decreases |file| - position
    {
      OneMoreFullRead(readSizes, round, chunks, file, ARCHIVE_FILE_CHUNK_SIZE, position);
      var read := ReadLength(readSizes(round), |file| - position, ARCHIVE_FILE_CHUNK_SIZE);
      var buffer := file[position..position + read];
      raw := raw + WriteFrame(codec, FileChunk(buffer));
      OneMoreFileChunk(codec, frames, file, chunks, position, position + read);
      chunks := chunks + [buffer];
      position, round := position + read, round + 1;
    }
    assert file[..position] == file;
    raw := raw + WriteFrame(codec, FileEnd);
    FileEnds(codec, hash, e, chunks, position);
    InThesePieces(codec, hash, e, raw, chunks);
  }

  function StartOf(hash: Bytes -> Digest, e: SourceEntry): ArchiveFrame
    requires IsEntry(e) && e.node.Content?
  {
    FileStart(RelativePath(e), |e.node.bytes|, hash(e.node.bytes))
  }

  lemma FileStarts(codec: FramesCodec, hash: Bytes -> Digest, e: SourceEntry)
    requires IsEntry(e) && e.node.Content?
    ensures WriteFrame(codec, StartOf(hash, e)) == WriteFrames(codec, [StartOf(hash, e)] + FileChunks([]))
    ensures AreReads([], e.node.bytes[..0], ARCHIVE_FILE_CHUNK_SIZE)
  {
    hide WriteFrame, RelativePath;
    WriteOneMore(codec, [], StartOf(hash, e));
    assert [StartOf(hash, e)] + FileChunks([]) == [] + [StartOf(hash, e)];
    assert WriteFrames(codec, []) + WriteFrame(codec, StartOf(hash, e)) == WriteFrame(codec, StartOf(hash, e));
  }

  lemma FileEnds(codec: FramesCodec, hash: Bytes -> Digest, e: SourceEntry, chunks: seq<Bytes>, position: nat)
    requires IsEntry(e) && e.node.Content? && position == |e.node.bytes|
    requires AreReads(chunks, e.node.bytes, ARCHIVE_FILE_CHUNK_SIZE)
    ensures ChunksOf(e, chunks) && forall chunk :: chunk in chunks ==> 0 < |chunk| <= 65_536
    ensures WriteFrames(codec, EntryFrames(hash, e, chunks))
            == WriteFrames(codec, [StartOf(hash, e)] + FileChunks(chunks)) + WriteFrame(codec, FileEnd)
    ensures ReadFully(chunks, e.node.bytes, ARCHIVE_FILE_CHUNK_SIZE, position) ==> AreFull(chunks, 65_536)
  {
    hide WriteFrame, WriteFrames, RelativePath;
    WriteOneMore(codec, [StartOf(hash, e)] + FileChunks(chunks), FileEnd);
  }

  lemma OneMoreEntry(codec: FramesCodec, hash: Bytes -> Digest, sources: seq<SourceEntry>, i: nat,
                     chunkings: seq<seq<Bytes>>, chunks: seq<Bytes>)
    requires AreEntries(sources) && i < |sources| && AllChunked(sources[..i], chunkings) && ChunksOf(sources[i], chunks)
    ensures AllChunked(sources[..i + 1], chunkings + [chunks])
    ensures WriteFrames(codec, Body(hash, sources[..i + 1], chunkings + [chunks]))
            == WriteFrames(codec, Body(hash, sources[..i], chunkings)) + WriteFrames(codec, EntryFrames(hash, sources[i], chunks))
  {
    hide WriteFrame, WriteFrames, EntryFrames, ChunksOf;
    assert sources[..i + 1][..i] == sources[..i] && (chunkings + [chunks])[..i] == chunkings;
    WriteFramesConcat(codec, Body(hash, sources[..i], chunkings), EntryFrames(hash, sources[i], chunks));
  }

  method CreateArchiveBody(codec: FramesCodec, hash: Bytes -> Digest, sources: seq<SourceEntry>,
                           readSizes: nat -> nat -> nat)
    returns (raw: Bytes, ghost chunkings: seq<seq<Bytes>>)
    requires AreEntries(sources)
    ensures HoldsBody(codec, hash, sources, raw)
    ensures AllChunked(sources, chunkings)
    ensures raw == WriteFrames(codec, Body(hash, sources, chunkings))
  {
    raw, chunkings := [], [];
    assert WriteFrames(codec, Body(hash, sources[..0], chunkings)) == raw;
    assert AllChunked(sources[..0], chunkings);
    hide WriteFrame, WriteFrames, EntryFrames, ChunksOf, HoldsBody, HoldsEntry, Body, AllChunked, IsEntry,
      RelativePath;
    for i := 0 to |sources|
      invariant |chunkings| == i && AllChunked(sources[..i], chunkings)
      invariant raw == WriteFrames(codec, Body(hash, sources[..i], chunkings))
    {
      var source := sources[i];
      var written;
      ghost var chunks: seq<Bytes> := [];
      match source.node {
        case Folder =>
          written := WriteFolder(codec, hash, source);
        case Content(_) =>
          written, chunks := WriteFile(codec, hash, source, readSizes(i));
      }
      OneMoreEntry(codec, hash, sources, i, chunkings, chunks);
      chunkings := chunkings + [chunks];
      raw := raw + written;
    }
    assert sources[..|sources|] == sources;
    InTheseChunkings(codec, hash, sources, raw, chunkings);
  }

  method WriteFolder(codec: FramesCodec, hash: Bytes -> Digest, e: SourceEntry) returns (raw: Bytes)
    requires IsEntry(e) && e.node.Folder?
    ensures ChunksOf(e, [])
    ensures raw == WriteFrames(codec, EntryFrames(hash, e, []))
  {
    raw := WriteFrame(codec, DirectoryFrame(RelativePath(e)));
    WriteOneMore(codec, [], DirectoryFrame(RelativePath(e)));
    assert [] + [DirectoryFrame(RelativePath(e))] == EntryFrames(hash, e, []);
  }

  // ---------------------------------------------------------------------------------------------
  // The archive.

  function ManifestEntries(hash: Bytes -> Digest, entries: seq<SourceEntry>): (r: seq<ManifestEntry>)
    requires AreEntries(entries)
    ensures |r| == |entries|
  {
    seq(|entries|, i requires 0 <= i < |entries| => ManifestEntryOf(hash, entries[i]))
  }

  /** The sum of the file sizes in 64 bits. */
  function TotalBytes(entries: seq<ManifestEntry>): U64 {
    if entries == [] then 0
    else
      var last := entries[|entries| - 1];
      (TotalBytes(entries[..|entries| - 1]) + (if last.kind.File? then last.size else 0)) % U64_LIMIT
  }

  datatype Archive = Archive(manifest: Manifest, compression: Compression, resourceId: Digest, bytes: Bytes)

  /** What an archive of these entries is. */
  predicate IsArchiveOf(codec: FramesCodec, hash: Bytes -> Digest, packer: Packer, entries: seq<SourceEntry>,
                        chunkings: seq<seq<Bytes>>, archive: Archive)
    requires AreEntries(entries) && |chunkings| == |entries|
  {
    var manifest := archive.manifest;
    && manifest.entries == ManifestEntries(hash, entries)
    && manifest.totalBytes == TotalBytes(manifest.entries)
    && manifest.compression == archive.compression && archive.compression != CompressAuto
    && manifest.id == hash(Transcripts.ManifestIdInput(archive.compression, manifest.entries))[..16]
    && archive.bytes == CompressRawArchive(packer, archive.compression,
         WriteFrame(codec, ManifestFrame(manifest)) + WriteFrames(codec, Body(hash, entries, chunkings)))
    && archive.resourceId == hash(archive.bytes)
  }

  /** `randomId` is the provisional manifest id, which only counts towards the size that `Auto` looks at. */
  method CreateArchive(codec: FramesCodec, hash: Bytes -> Digest, packer: Packer, sources: seq<SourceEntry>,
                       compression: Compression, randomId: Bytes, readSizes: nat -> nat -> nat)
    returns (archive: Archive, ghost chunkings: seq<seq<Bytes>>)
    requires AreEntries(sources)
    ensures AllChunked(sources, chunkings)
    ensures IsArchiveOf(codec, hash, packer, sources, chunkings, archive)
    ensures compression != CompressAuto ==> archive.compression == compression
    ensures compression == CompressAuto ==>
              var first := Manifest(randomId, CompressAuto, archive.manifest.entries, archive.manifest.totalBytes);
              var size := |codec.encode(ManifestFrame(first))| + |WriteFrames(codec, Body(hash, sources, chunkings))|;
              archive.compression == if size < 1024 then CompressNone else CompressZstd
  {
    hide WriteFrame, WriteFrames, Body, EntryFrames, ChunksOf, TotalBytes, Transcripts.ManifestIdInput;
    var entries := ManifestEntries(hash, sources);
    var manifest := Manifest(randomId, compression, entries, TotalBytes(entries));
    var body;
    body, chunkings := CreateArchiveBody(codec, hash, sources, readSizes);
    var rawLen := |codec.encode(ManifestFrame(manifest))| + |body|;
    var actual := ResolvedCompressionForSize(compression, rawLen);
    manifest := manifest.(compression := actual);
    var input := Transcripts.FeedManifestId(actual, manifest.entries);
    manifest := manifest.(id := hash(input)[..16]);
    var raw := WriteFrame(codec, ManifestFrame(manifest)) + body;
    var file := CompressRawArchive(packer, actual, raw);
    archive := Archive(manifest, actual, hash(file), file);
  }
}
