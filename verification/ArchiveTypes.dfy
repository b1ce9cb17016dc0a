/** The values of crates/peerline-core/src/manifest.rs and the frames of the archive. */
module ArchiveTypes {
  import opened Bytes
  import opened Framing
  import opened SecureChannel

  /** A path as its UTF-8 text. */
  type PathText = Bytes

  datatype EntryKind = File | Directory

  datatype ManifestEntry = ManifestEntry(path: PathText, kind: EntryKind, size: U64, blake3: Option<Digest>)

  datatype Manifest = Manifest(id: Bytes, compression: Compression, entries: seq<ManifestEntry>, totalBytes: nat)

  datatype ArchiveFrame =
    | ManifestFrame(manifest: Manifest)
    | DirectoryFrame(path: PathText)
    | FileStart(path: PathText, size: U64, blake3: Digest)
    | FileChunk(bytes: Bytes)
    | FileEnd

  type FramesCodec = FrameCodec<ArchiveFrame>
}
