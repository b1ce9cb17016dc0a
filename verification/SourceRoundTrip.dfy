/** The round trip of an archive, from the sources on the sender's disk to the receiver's destination. */
module SourceRoundTrip {
  import opened Bytes
  import opened Compressing
  import opened ArchiveTypes
  import opened FileTree
  import opened Framing
  import opened Scanning
  import opened ScanLaws
  import opened Packing
  import opened Unpacking
  import opened ArchiveRoundTrip
  import Transcripts
  import UnpackLaws

  // ---------------------------------------------------------------------------------------------
  // The frames of an archive.

  function RawArchive(codec: FramesCodec, hash: Bytes -> Digest, manifest: Manifest, entries: seq<SourceEntry>,
                      chunkings: seq<seq<Bytes>>): Bytes
    requires AreEntries(entries) && |chunkings| == |entries|
  {
    WriteFrame(codec, ManifestFrame(manifest)) + WriteFrames(codec, Body(hash, entries, chunkings))
  }

  /** Payloads fit the 32-bit length of a frame. */
  predicate Fits(codec: FramesCodec, hash: Bytes -> Digest, manifest: Manifest, entries: seq<SourceEntry>,
                 chunkings: seq<seq<Bytes>>)
    requires AreEntries(entries) && |chunkings| == |entries|
  {
    |codec.encode(ManifestFrame(manifest))| < U32_LIMIT && EntriesShort(codec, hash, entries, chunkings)
  }

  lemma FirstFrame(env: Env, codec: FramesCodec, before: Tree, manifest: Manifest, tail: Bytes)
    requires DecodesWhatItEncodes(codec) && |codec.encode(ManifestFrame(manifest))| < U32_LIMIT
    requires ValidateEntries(manifest.entries) == None
    ensures UnpackRawArchive(env, codec, before, WriteFrame(codec, ManifestFrame(manifest)) + tail, false)
            == match ExpectedEntries(manifest.entries)
               case None => Report(before, [], Err(DuplicateEntry))
               case Some(remaining) =>
                 Summary(manifest, Consume(env, codec, State(before, remaining, None, []), tail, false))
  {
    FrameRoundTripExactly(codec, ManifestFrame(manifest), tail, false);
    hide WriteFrame, ReadFrame, Consume, ExpectedEntries, ValidateEntries;
  }

  lemma StrayBytesEnd(env: Env, codec: FramesCodec, s: State, stray: Bytes)
    requires |stray| < 4 && s.current == None && s.remaining == map[]
    ensures Consume(env, codec, s, stray, false) == Going(s)
  {
  }

  /** A written archive, with up to three stray bytes behind it, unpacks where there is room for its entries. */
  lemma RawRoundTrip(env: Env, codec: FramesCodec, before: Tree, manifest: Manifest, entries: seq<SourceEntry>,
                     chunkings: seq<seq<Bytes>>, stray: Bytes)
    requires DecodesWhatItEncodes(codec) && AreEntries(entries) && AllChunked(entries, chunkings)
    requires Fits(codec, env.hash, manifest, entries, chunkings) && |stray| < 4 && Compatible(entries)
    requires manifest.entries == ManifestEntries(env.hash, entries) && RoomForAll(before, env.destination, entries)
    ensures var r := UnpackRawArchive(env, codec, before,
                                      RawArchive(codec, env.hash, manifest, entries, chunkings) + stray, false);
      r.result == Ok(manifest) && Landed(env.destination, before, entries, r.tree)
  {
    var first, body := WriteFrame(codec, ManifestFrame(manifest)), WriteFrames(codec, Body(env.hash, entries, chunkings));
    assert RawArchive(codec, env.hash, manifest, entries, chunkings) + stray == first + (body + stray);
    assert |chunkings| == |entries|;
    assert entries[..|entries|] == entries && chunkings[..|entries|] == chunkings;
    DifferIfCompatible(entries);
    ManifestIsValid(env.hash, entries);
    UnpackLaws.ValidationCovers(manifest.entries);
    UnpackLaws.CollectedExactly(manifest.entries);
    hide *;
    FirstFrame(env, codec, before, manifest, body + stray);
    var s0 := State(before, ExpectedEntries(manifest.entries).value, None, []);
    AllOutstanding(env.hash, entries, s0.remaining);
    var s := ConsumeBody(env, codec, before, entries, chunkings, |entries|, s0, stray, false);
    NothingOutstanding(env.hash, entries, s.remaining);
    StrayBytesEnd(env, codec, s, stray);
    SummaryOfEnd(manifest, s);
  }

  lemma SummaryOfEnd(manifest: Manifest, s: State)
    ensures Summary(manifest, Going(s)) == Report(s.tree, s.made, Ok(manifest))
  {
  }

  /** When a path occurs twice the archive is refused before anything is written. */
  lemma DuplicateRefused(env: Env, codec: FramesCodec, before: Tree, manifest: Manifest, entries: seq<SourceEntry>,
                         chunkings: seq<seq<Bytes>>)
    requires DecodesWhatItEncodes(codec) && AreEntries(entries) && |chunkings| == |entries|
    requires Fits(codec, env.hash, manifest, entries, chunkings) && !EntriesDiffer(entries)
    requires manifest.entries == ManifestEntries(env.hash, entries)
    ensures UnpackRawArchive(env, codec, before, RawArchive(codec, env.hash, manifest, entries, chunkings), false)
            == Report(before, [], Err(DuplicateEntry))
  {
    ManifestIsValid(env.hash, entries);
    UnpackLaws.ValidationCovers(manifest.entries);
    UnpackLaws.CollectedExactly(manifest.entries);
    hide EntriesDiffer, ManifestEntries, ValidateEntries, ExpectedEntries, WriteFrames, WriteFrame, EntriesShort,
         UnpackLaws.KeysDiffer, UnpackLaws.AllValid, UnpackRawArchive, Consume;
    FirstFrame(env, codec, before, manifest, WriteFrames(codec, Body(env.hash, entries, chunkings)));
  }

  lemma SomethingOutstanding(hash: Bytes -> Digest, entries: seq<SourceEntry>, k: nat, remaining: Remaining)
    requires AreEntries(entries) && k < |entries| && Outstanding(hash, entries, k, remaining)
    ensures remaining != map[]
  {
    hide EntryKey, ManifestEntryOf, IsEntry;
    assert EntryKey(entries[k]) in remaining;
  }

  lemma StopsWithMissing(env: Env, codec: FramesCodec, s: State, stray: Bytes)
    requires |stray| < 4 && s.current == None && s.remaining != map[]
    ensures Consume(env, codec, s, stray, false) == Stopped(s.tree, s.made, MissingEntries)
  {
  }

  /** Unpacking is not atomic: an archive that ends after its first `k` entries is refused, and these entries
      stay on disk. */
  lemma EarlierEntriesStay(env: Env, codec: FramesCodec, before: Tree, manifest: Manifest, entries: seq<SourceEntry>,
                           chunkings: seq<seq<Bytes>>, k: nat, stray: Bytes)
    requires DecodesWhatItEncodes(codec) && AreEntries(entries) && AllChunked(entries, chunkings) && k < |entries|
    requires Fits(codec, env.hash, manifest, entries, chunkings) && |stray| < 4 && Compatible(entries)
    requires manifest.entries == ManifestEntries(env.hash, entries) && RoomForAll(before, env.destination, entries)
    ensures var r := UnpackRawArchive(env, codec, before,
                                      RawArchive(codec, env.hash, manifest, entries[..k], chunkings[..k]) + stray, false);
      r.result == Err(MissingEntries) && Landed(env.destination, before, entries[..k], r.tree)
  {
    var first, body := WriteFrame(codec, ManifestFrame(manifest)), WriteFrames(codec, Body(env.hash, entries[..k],
        chunkings[..k]));
    assert RawArchive(codec, env.hash, manifest, entries[..k], chunkings[..k]) + stray == first + (body + stray);
    DifferIfCompatible(entries);
    ManifestIsValid(env.hash, entries);
    UnpackLaws.ValidationCovers(manifest.entries);
    UnpackLaws.CollectedExactly(manifest.entries);
    hide *;
    FirstFrame(env, codec, before, manifest, body + stray);
    var s0 := State(before, ExpectedEntries(manifest.entries).value, None, []);
    AllOutstanding(env.hash, entries, s0.remaining);
    var s := ConsumeBody(env, codec, before, entries, chunkings, k, s0, stray, false);
    SomethingOutstanding(env.hash, entries, k, s.remaining);
    StopsWithMissing(env, codec, s, stray);
    SummaryOfStop(manifest, s);
  }

  lemma SummaryOfStop(manifest: Manifest, s: State)
    ensures Summary(manifest, Stopped(s.tree, s.made, MissingEntries)) == Report(s.tree, s.made, Err(MissingEntries))
  {
  }

  // ---------------------------------------------------------------------------------------------
  // The entries of a scan.

  lemma {:induction false} ScannedIsEntry(sources: seq<Source>, e: SourceEntry)
    requires AllExist(sources) && e in ScanAll([], sources)
    ensures IsEntry(e)
  {
    assert sources[0] in sources && Exists(sources[0]);
    if e in ScanSource([], sources[0]) {
      ScannedIsUnder([], sources[0], e);
      assert e.names[0..] == e.names;
    } else {
      assert forall s :: s in sources[1..] ==> s in sources;
      ScannedIsEntry(sources[1..], e);
    }
  }

  lemma SortedMembers(sources: seq<Source>)
    ensures forall e :: e in ScanSources(sources) <==> e in ScanAll([], sources)
    ensures EntriesDiffer(ScanSources(sources)) <==> EntriesDiffer(ScanAll([], sources))
  {
    hide ScanAll, SortByPath;
    var scan := ScanAll([], sources);
    SortSorts(scan);
    SameMembers(scan, SortByPath(scan));
    if EntriesDiffer(scan) {
      DifferByCount(scan, SortByPath(scan));
    }
    if EntriesDiffer(SortByPath(scan)) {
      DifferByCount(SortByPath(scan), scan);
    }
  }

  lemma FoundExactly(sources: seq<Source>, e: SourceEntry)
    requires AllExist(sources) && NamesDiffer(sources)
    ensures e in ScanSources(sources) <==> e.names != [] && FindIn(sources, e.names) == Some(e.node)
  {
    SortedMembers(sources);
    if e in ScanAll([], sources) {
      ScannedIsFound([], sources, e);
      assert e.names[0..] == e.names;
    }
    if FindIn(sources, e.names) == Some(e.node) {
      FoundIsScanned([], sources, e.names);
      assert [] + e.names == e.names;
    }
  }

  lemma ScanIsEntries(sources: seq<Source>)
    requires AllExist(sources)
    ensures AreEntries(ScanSources(sources))
  {
    hide ScanSources, Exists, IsEntry;
    SortedMembers(sources);
    var entries := ScanSources(sources);
    forall i | 0 <= i < |entries| ensures IsEntry(entries[i]) {
      assert entries[i] in entries;
      ScannedIsEntry(sources, entries[i]);
    }
  }

  /** The entries of sources that exist. */
  function EntriesOf(sources: seq<Source>): (entries: seq<SourceEntry>)
    requires AllExist(sources)
    ensures entries == ScanSources(sources) && AreEntries(entries)
  {
    ScanIsEntries(sources);
    ScanSources(sources)
  }

  /** The entries of a scan go together exactly when the base names of the sources differ. */
  lemma ScanIsCompatible(sources: seq<Source>)
    requires AllExist(sources)
    ensures NamesDiffer(sources) ==> Compatible(ScanSources(sources))
    ensures !NamesDiffer(sources) ==> !EntriesDiffer(ScanSources(sources))
  {
    hide ScanSources, Exists, FindIn, ScanAll;
    SortedMembers(sources);
    ScanDiffersExactly(sources);
    if NamesDiffer(sources) {
      var entries := ScanSources(sources);
      forall i, j | 0 <= i < |entries| && 0 <= j < |entries| && i != j && entries[i].node.Content?
        ensures !(entries[i].names <= entries[j].names)
      {
        NotBelowAFile(sources, entries, i, j);
      }
    }
  }

  lemma NotBelowAFile(sources: seq<Source>, entries: seq<SourceEntry>, i: nat, j: nat)
    requires AllExist(sources) && NamesDiffer(sources) && entries == ScanSources(sources) && EntriesDiffer(entries)
    requires i < |entries| && j < |entries| && i != j && entries[i].node.Content?
    ensures !(entries[i].names <= entries[j].names)
  {
    hide ScanSources, Exists, FindIn, ScanAll;
    assert entries[i] in entries && entries[j] in entries;
    FoundExactly(sources, entries[i]);
    FoundExactly(sources, entries[j]);
    if entries[i].names < entries[j].names {
      NothingUnderAFile(sources, entries[i].names, entries[j].names);
    }
  }

  // ---------------------------------------------------------------------------------------------
  // The destination mirrors the sources.

  /** Nothing at the places of the sources, and no file on the way to the destination. */
  predicate RoomForSources(tree: Tree, destination: Location, sources: seq<Source>) {
    && IsTree(tree)
    && NoFileOn(tree, destination)
    && forall s :: s in sources ==> destination + [s.name] !in tree
  }

  predicate IsBaseName(sources: seq<Source>, name: Bytes) {
    exists s :: s in sources && s.name == name
  }

  function NodeAt(tree: Tree, loc: Location): Option<Node> {
    if loc in tree then Some(tree[loc]) else None
  }

  /** Below the base names the destination has, at every path, what the sources have there; everything else is
      as it was, except for folders on the way to the destination. */
  ghost predicate Mirrors(destination: Location, before: Tree, sources: seq<Source>, tree: Tree) {
    && AllKept(before, tree)
    && (forall names: seq<Bytes> :: names != [] && IsBaseName(sources, names[0]) ==>
          NodeAt(tree, destination + names) == FindIn(sources, names))
    && (forall loc :: loc in tree && loc !in before ==>
          (loc <= destination && tree[loc].Folder?)
          || (destination < loc && IsBaseName(sources, loc[|destination|])))
  }

  lemma {:induction false} FoundUnderBaseName(sources: seq<Source>, names: seq<Bytes>)
    requires FindIn(sources, names).Some?
    ensures names != [] && IsBaseName(sources, names[0])
  {
    if sources[0].name != names[0] {
      FoundUnderBaseName(sources[1..], names);
      var s :| s in sources[1..] && s.name == names[0];
      assert s in sources;
    }
  }

  /** Room for the sources is room for their entries. */
  lemma RoomForScan(tree: Tree, destination: Location, sources: seq<Source>)
    requires AllExist(sources) && NamesDiffer(sources) && RoomForSources(tree, destination, sources)
    ensures RoomForAll(tree, destination, ScanSources(sources))
  {
    hide ScanSources, Exists, FindIn, IsTree;
    forall e | e in ScanSources(sources) ensures RoomFor(tree, destination, e) {
      FoundExactly(sources, e);
      FoundUnderBaseName(sources, e.names);
      var s :| s in sources && s.name == e.names[0];
      forall p | p in tree && p <= At(destination, e) ensures p <= destination {
        NothingBelow(tree, destination, e.names, p);
      }
      assert At(destination, e) in tree ==> At(destination, e) <= destination;
    }
  }

  lemma NothingBelow(tree: Tree, destination: Location, names: seq<Bytes>, p: Location)
    requires IsTree(tree) && names != [] && destination + [names[0]] !in tree && p in tree && p <= destination + names
    ensures p <= destination
  {
    assert p[..|p|] == p;
    if |p| > |destination| {
      assert p[..|destination| + 1] == (destination + names)[..|destination| + 1] == destination + [names[0]];
      if |p| > |destination| + 1 {
        PrefixesAreFolders(tree, p, |destination| + 1);
      }
    } else {
      assert p == (destination + names)[..|p|] == destination[..|p|];
    }
  }

  lemma LandedAt(destination: Location, before: Tree, sources: seq<Source>, tree: Tree, names: seq<Bytes>)
    requires AllExist(sources) && NamesDiffer(sources) && names != [] && IsBaseName(sources, names[0])
    requires RoomForSources(before, destination, sources) && Landed(destination, before, ScanSources(sources), tree)
    ensures NodeAt(tree, destination + names) == FindIn(sources, names)
  {
    hide ScanSources, Exists, FindIn, AllKept, IsTree;
    var at := destination + names;
    if FindIn(sources, names).Some? {
      var e := SourceEntry(names, FindIn(sources, names).value);
      FoundExactly(sources, e);
      assert At(destination, e) == at;
    } else if at in tree {
      if at in before {
        NothingBelow(before, destination, names, at);
      }
      assert Reached(destination, ScanSources(sources), at, tree[at]);
      assert !(at <= destination);
      var e :| e in ScanSources(sources) && OnTheWay(destination, e, at, tree[at]);
      FoundExactly(sources, e);
      UnderDestination(destination, names, e.names);
      assert names <= e.names;
      if names != e.names {
        FoldersOnTheWay(sources, e.names, names);
      }
    }
  }

  lemma LandedMirrors(destination: Location, before: Tree, sources: seq<Source>, tree: Tree)
    requires AllExist(sources) && NamesDiffer(sources)
    requires RoomForSources(before, destination, sources) && Landed(destination, before, ScanSources(sources), tree)
    ensures Mirrors(destination, before, sources, tree)
  {
    hide FindIn, ScanSources, AllThere, AllKept, IsTree, Exists, IsBaseName, RoomForSources;
    forall names: seq<Bytes> | names != [] && IsBaseName(sources, names[0])
      ensures NodeAt(tree, destination + names) == FindIn(sources, names)
    {
      LandedAt(destination, before, sources, tree, names);
    }
    forall loc | loc in tree && loc !in before
      ensures (loc <= destination && tree[loc].Folder?)
              || (destination < loc && IsBaseName(sources, loc[|destination|]))
    {
      assert Reached(destination, ScanSources(sources), loc, tree[loc]);
      if !(loc <= destination && tree[loc].Folder?) {
        var e :| e in ScanSources(sources) && OnTheWay(destination, e, loc, tree[loc]);
        NewIsBelow(destination, sources, e, loc, tree[loc]);
      }
    }
  }

  lemma NewIsBelow(destination: Location, sources: seq<Source>, e: SourceEntry, loc: Location, node: Node)
    requires AllExist(sources) && NamesDiffer(sources) && e in ScanSources(sources) && OnTheWay(destination, e, loc, node)
    ensures (loc <= destination && node.Folder?) || (destination < loc && IsBaseName(sources, loc[|destination|]))
  {
    hide ScanSources, Exists, FindIn;
    FoundExactly(sources, e);
    FoundUnderBaseName(sources, e.names);
    UnpackLaws.BothPrefixes(loc, destination, At(destination, e));
    if destination < loc {
      assert loc[|destination|] == At(destination, e)[|destination|] == e.names[0];
    }
  }

  // ---------------------------------------------------------------------------------------------
  // Through the compression.

  /** Making the destination first takes no room away. */
  lemma DestinationLeavesRoom(destination: Location, before: Tree, sources: seq<Source>)
    requires RoomForSources(before, destination, sources)
    ensures CreateDirAll(before, destination).Some?
    ensures WithFolders(before, destination, CreateDirAll(before, destination).value)
    ensures RoomForSources(CreateDirAll(before, destination).value, destination, sources)
  {
    hide CreateDirAll, IsTree;
    CreateDirAllFailsExactly(before, destination);
    CreateDirAllAdds(before, destination);
    var made := CreateDirAll(before, destination).value;
    forall p | p in made && p <= destination ensures made[p].Folder? {
      assert p in before ==> before[p].Folder?;
    }
    forall s | s in sources ensures destination + [s.name] !in made {
      assert !(destination + [s.name] <= destination);
    }
  }

  lemma MirrorsFromEarlier(destination: Location, before: Tree, between: Tree, sources: seq<Source>, tree: Tree)
    requires WithFolders(before, destination, between) && Mirrors(destination, between, sources, tree)
    ensures Mirrors(destination, before, sources, tree)
  {
    hide FindIn, IsTree, IsBaseName;
    assert AllKept(before, tree);
  }

  lemma RawMirrors(env: Env, codec: FramesCodec, before: Tree, manifest: Manifest, sources: seq<Source>,
                   chunkings: seq<seq<Bytes>>)
    requires DecodesWhatItEncodes(codec) && AllExist(sources) && RoomForSources(before, env.destination, sources)
    requires AllChunked(EntriesOf(sources), chunkings)
    requires manifest.entries == ManifestEntries(env.hash, EntriesOf(sources))
    requires Fits(codec, env.hash, manifest, EntriesOf(sources), chunkings)
    ensures var r := UnpackRawArchive(env, codec, before, RawArchive(codec, env.hash, manifest, EntriesOf(sources), chunkings),
                                  false);
      if NamesDiffer(sources) then r.result == Ok(manifest) && Mirrors(env.destination, before, sources, r.tree)
      else r.result == Err(DuplicateEntry) && r.tree == before
  {
    var raw := RawArchive(codec, env.hash, manifest, ScanSources(sources), chunkings);
    assert raw + [] == raw;
    hide *;
    ScanIsCompatible(sources);
    if NamesDiffer(sources) {
      RoomForScan(before, env.destination, sources);
      RawRoundTrip(env, codec, before, manifest, ScanSources(sources), chunkings, []);
      LandedMirrors(env.destination, before, sources, UnpackRawArchive(env, codec, before, raw, false).tree);
    } else {
      DuplicateRefused(env, codec, before, manifest, ScanSources(sources), chunkings);
    }
  }

  /** Unpacking a created archive where there is room for its sources succeeds exactly when their base names
      differ, and then recreates exactly their directories and file contents. Otherwise it is refused, and no
      file is written. */
  lemma ArchiveMirrorsSources(env: Env, codec: FramesCodec, packer: Packer, sources: seq<Source>, chunkings: seq<seq<Bytes>>,
                              archive: Archive, before: Tree)
    requires DecodesWhatItEncodes(codec) && Unpacks(packer) && AllExist(sources)
    requires RoomForSources(before, env.destination, sources)
    requires AllChunked(EntriesOf(sources), chunkings)
    requires IsArchiveOf(codec, env.hash, packer, EntriesOf(sources), chunkings, archive)
    requires Fits(codec, env.hash, archive.manifest, EntriesOf(sources), chunkings)
    ensures var r := UnpackArchive(env, codec, packer, before, archive.compression, archive.bytes);
      if NamesDiffer(sources) then r.result == Ok(archive.manifest) && Mirrors(env.destination, before, sources, r.tree)
      else r.result == Err(DuplicateEntry) && (r.tree == before || WithFolders(before, env.destination, r.tree))
  {
    hide ScanSources, AreEntries, AllChunked, Fits, RoomForSources, AllExist, Mirrors, UnpackRawArchive, CreateDirAll,
         WriteFrames, WriteFrame, Body, NamesDiffer, WithFolders, TotalBytes, Transcripts.ManifestIdInput, DecodesWhatItEncodes;
    RawMirrors(env, codec, before, archive.manifest, sources, chunkings);
    if archive.compression.CompressLzma? {
      DestinationLeavesRoom(env.destination, before, sources);
      var between := CreateDirAll(before, env.destination).value;
      RawMirrors(env, codec, between, archive.manifest, sources, chunkings);
      if NamesDiffer(sources) {
        var r := UnpackArchive(env, codec, packer, before, archive.compression, archive.bytes);
        MirrorsFromEarlier(env.destination, before, between, sources, r.tree);
      }
    }
  }
}
