/** What the totals and the identifiers of an archive say about the sources it was made of. */
module ArchiveIdentity {
  import opened Bytes
  import opened SecureChannel
  import opened ArchiveTypes
  import opened Compressing
  import opened FileTree
  import opened Scanning
  import opened Packing
  import opened Transcripts

  // ---------------------------------------------------------------------------------------------
  // The total.

  function SizeOf(s: Source): nat
    decreases s, 0
  {
    match s
    case SourceFile(_, content) => |content|
    case SourceFolder(_, children) => SizeOfAll(children)
  }

  /** The bytes in all files of the sources. */
  function SizeOfAll(sources: seq<Source>): nat
    decreases sources, 1
  {
    if sources == [] then 0 else SizeOf(sources[0]) + SizeOfAll(sources[1..])
  }

  function NodeSize(e: SourceEntry): nat {
    match e.node
    case Folder => 0
    case Content(bytes) => |bytes|
  }

  function EntrySizes(entries: seq<SourceEntry>): nat {
    if entries == [] then 0 else EntrySizes(entries[..|entries| - 1]) + NodeSize(entries[|entries| - 1])
  }

  lemma {:induction false} SizesConcat(a: seq<SourceEntry>, b: seq<SourceEntry>)
    ensures EntrySizes(a + b) == EntrySizes(a) + EntrySizes(b)
    decreases |b|
  {
    if b == [] {
      assert a + b == a;
    } else {
      assert (a + b)[..|a + b| - 1] == a + b[..|b| - 1];
      SizesConcat(a, b[..|b| - 1]);
    }
  }

  lemma SizeOfOne(e: SourceEntry)
    ensures EntrySizes([e]) == NodeSize(e)
  {
    assert [e][..0] == [];
  }

  lemma {:induction false} ScanSizes(prefix: seq<Bytes>, sources: seq<Source>)
    ensures EntrySizes(ScanAll(prefix, sources)) == SizeOfAll(sources)
    decreases sources, 1
  {
    if sources != [] {
      ScanSourceSizes(prefix, sources[0]);
      ScanSizes(prefix, sources[1..]);
      SizesConcat(ScanSource(prefix, sources[0]), ScanAll(prefix, sources[1..]));
    }
  }

  lemma {:induction false} ScanSourceSizes(prefix: seq<Bytes>, s: Source)
    ensures EntrySizes(ScanSource(prefix, s)) == SizeOf(s)
    decreases s, 0
  {
    var own := prefix + [s.name];
    SizeOfOne(SourceEntry(own, if s.SourceFile? then Content(s.content) else Folder));
    if s.SourceFolder? {
      ScanSizes(own, s.children);
      SizesConcat([SourceEntry(own, Folder)], ScanAll(own, s.children));
    }
  }

  lemma {:induction false} InsertSizes(e: SourceEntry, sorted: seq<SourceEntry>)
    ensures EntrySizes(Insert(e, sorted)) == EntrySizes(sorted) + NodeSize(e)
  {
    SizeOfOne(e);
    if sorted != [] {
      var n := |sorted| - 1;
      InsertSizes(e, sorted[..n]);
      SizesConcat(sorted, [e]);
      SizesConcat(Insert(e, sorted[..n]), [sorted[n]]);
      SizeOfOne(sorted[n]);
    }
  }

  lemma {:induction false} SortSizes(entries: seq<SourceEntry>)
    ensures EntrySizes(SortByPath(entries)) == EntrySizes(entries)
  {
    if entries != [] {
      SortSizes(entries[..|entries| - 1]);
      InsertSizes(entries[|entries| - 1], SortByPath(entries[..|entries| - 1]));
    }
  }

  lemma AddModulo(a: nat, b: nat)
    ensures (a % U64_LIMIT + b) % U64_LIMIT == (a + b) % U64_LIMIT
  {
  }

  lemma {:induction false} TotalIsSizes(hash: Bytes -> Digest, entries: seq<SourceEntry>)
    requires AreEntries(entries)
    ensures TotalBytes(ManifestEntries(hash, entries)) == EntrySizes(entries) % U64_LIMIT
  {
    if entries != [] {
      var n := |entries| - 1;
      TotalIsSizes(hash, entries[..n]);
      var listed := ManifestEntries(hash, entries);
      assert listed[..n] == ManifestEntries(hash, entries[..n]) && listed[n] == ManifestEntryOf(hash, entries[n]);
      AddModulo(EntrySizes(entries[..n]), NodeSize(entries[n]));
      hide ManifestEntries;
    }
  }

  /** The total of a manifest, which is what sender and receiver report, is the number of bytes in all files of the
      sources, counted in 64 bits. */
  lemma TotalIsSourceBytes(codec: FramesCodec, hash: Bytes -> Digest, packer: Packer, sources: seq<Source>,
                           chunkings: seq<seq<Bytes>>, archive: Archive)
    requires AreEntries(ScanSources(sources)) && |chunkings| == |ScanSources(sources)|
    requires IsArchiveOf(codec, hash, packer, ScanSources(sources), chunkings, archive)
    ensures archive.manifest.totalBytes == SizeOfAll(sources) % U64_LIMIT
  {
    TotalIsSizes(hash, ScanSources(sources));
    SortSizes(ScanAll([], sources));
    ScanSizes([], sources);
  }

  // ---------------------------------------------------------------------------------------------
  // The identifiers.

  /** No other input has the manifest id that this compression and these entries have. */
  ghost predicate HasOwnId(hash: Bytes -> Digest, compression: Compression, entries: seq<ManifestEntry>) {
    forall input ::
      hash(input)[..16] == hash(ManifestIdInput(compression, entries))[..16] ==> input == ManifestIdInput(compression, entries)
  }

  /** Two archives have the same manifest id exactly when they list the same entries and are compressed alike; the
      identifier does not depend on the sizes of the reads or on the random one that the sender begins with. */
  lemma SameIdExactly(codec: FramesCodec, hash: Bytes -> Digest, packer: Packer, entries: seq<SourceEntry>,
                      chunkings: seq<seq<Bytes>>, archive: Archive, entries': seq<SourceEntry>,
                      chunkings': seq<seq<Bytes>>, archive': Archive)
    requires AreEntries(entries) && |chunkings| == |entries| && AreEntries(entries') && |chunkings'| == |entries'|
    requires IsArchiveOf(codec, hash, packer, entries, chunkings, archive)
    requires IsArchiveOf(codec, hash, packer, entries', chunkings', archive')
    requires HasOwnId(hash, archive.compression, archive.manifest.entries)
    requires forall e :: e in archive.manifest.entries + archive'.manifest.entries ==> |e.path| < U64_LIMIT
    ensures archive.manifest.id == archive'.manifest.id
            <==> archive.compression == archive'.compression && archive.manifest.entries == archive'.manifest.entries
  {
    if archive.manifest.id == archive'.manifest.id {
      ManifestIdInputUnique(archive.compression, archive.manifest.entries, archive'.compression, archive'.manifest.entries);
    }
  }

  /** No other archive has the resource id of this one. */
  lemma SameResourceExactly(codec: FramesCodec, hash: Bytes -> Digest, packer: Packer, entries: seq<SourceEntry>,
                            chunkings: seq<seq<Bytes>>, archive: Archive, other: Bytes)
    requires AreEntries(entries) && |chunkings| == |entries|
    requires IsArchiveOf(codec, hash, packer, entries, chunkings, archive)
    requires forall input :: hash(input) == hash(archive.bytes) ==> input == archive.bytes
    ensures hash(other) == archive.resourceId <==> other == archive.bytes
  {
  }
}
