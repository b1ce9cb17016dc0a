/** crates/peerline-transfer/src/compression.rs as far as archives use it; the compressors are parameters. */
module Compressing {
  import opened Bytes
  import opened SecureChannel

  /** The compressors. A decompressed stream may break off with an error. */
  datatype Packer = Packer(zstd: Bytes -> Bytes, unzstd: Bytes -> (Bytes, bool), lzma: Bytes -> Bytes,
      unlzma: Bytes -> Option<Bytes>)

  ghost predicate Unpacks(packer: Packer) {
    && (forall raw: Bytes :: packer.unzstd(packer.zstd(raw)) == (raw, false))
    && (forall raw: Bytes :: packer.unlzma(packer.lzma(raw)) == Some(raw))
  }

  function ResolvedCompressionForSize(compression: Compression, size: nat): Compression {
    if compression.CompressAuto? then (if size < 1024 then CompressNone else CompressZstd) else compression
  }

  function CompressRawArchive(packer: Packer, compression: Compression, raw: Bytes): Bytes {
    match compression
    case CompressNone => raw
    case CompressZstd => packer.zstd(raw)
    case CompressAuto => packer.zstd(raw)
    case CompressLzma => packer.lzma(raw)
  }
}
