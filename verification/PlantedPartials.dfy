/** An archive that lists files in the resume directory can leave a partial there that its receiver never
    received. */
module PlantedPartials {
  import opened Bytes
  import opened ArchiveTypes
  import opened SecureChannel
  import opened Paths
  import opened FileTree
  import opened Framing
  import opened Scanning
  import opened Packing
  import opened ResumeStore
  import opened ResumeLaws
  import opened Unpacking
  import opened ReceiverDisk
  import opened DiskLaws
  import opened ArchiveRoundTrip
  import opened SourceRoundTrip

  function PlantedAt(d: Descriptor, name: Bytes): seq<Bytes> {
    [RESUME_DIR, Hex(d.sourceId), Hex(d.resourceId), name]
  }

  /** Two files: a part of these bytes, and metadata that records them for the transfer `d`. */
  function PlantedEntries(u: Receiver, d: Descriptor, bytes: Bytes, t: nat): seq<SourceEntry>
    requires |bytes| < U64_LIMIT
  {
    [SourceEntry(PlantedAt(d, PART_NAME), Content(bytes)),
     SourceEntry(PlantedAt(d, META_NAME), Content(u.metadata.encode(MetadataFor(d, |bytes|, t))))]
  }

  lemma PlainName(name: Bytes)
    requires |name| > 2 && forall i :: 0 <= i < |name| ==> name[i] != SLASH
    ensures IsName(name)
  {
  }

  lemma PlantedNames(d: Descriptor, name: Bytes)
    requires name == PART_NAME || name == META_NAME
    ensures AreNames(PlantedAt(d, name))
  {
    HexIsPlain(d.sourceId);
    HexIsPlain(d.resourceId);
    PlainName(Hex(d.sourceId));
    PlainName(Hex(d.resourceId));
    assert forall i :: 0 <= i < |RESUME_DIR| ==> RESUME_DIR[i] == ".peerline-resume"[i] as int != 47;
    PlainName(RESUME_DIR);
    assert forall i :: 0 <= i < |PART_NAME| ==> PART_NAME[i] == "archive.part"[i] as int != 47;
    PlainName(PART_NAME);
    assert forall i :: 0 <= i < |META_NAME| ==> META_NAME[i] == "metadata.json"[i] as int != 47;
    PlainName(META_NAME);
    hide IsName, Hex;
  }

  lemma PlantedAreEntries(u: Receiver, d: Descriptor, bytes: Bytes, t: nat)
    requires |bytes| < U64_LIMIT && |u.metadata.encode(MetadataFor(d, |bytes|, t))| < U64_LIMIT
    ensures AreEntries(PlantedEntries(u, d, bytes, t)) && Compatible(PlantedEntries(u, d, bytes, t))
  {
    PlantedNames(d, PART_NAME);
    PlantedNames(d, META_NAME);
    NamesOfFiles();
    hide AreNames, Hex;
    var entries := PlantedEntries(u, d, bytes, t);
    assert entries[0].names[3] == PART_NAME && entries[1].names[3] == META_NAME;
  }

  /** The resume directory is no name that the checks of a manifest refuse. */
  lemma PlantedPathIsAccepted(d: Descriptor, name: Bytes)
    requires name == PART_NAME || name == META_NAME
    ensures ValidateRelativePath(Join(PlantedAt(d, name))) == None
  {
    PlantedNames(d, name);
    NamesMakeAPath(PlantedAt(d, name));
  }

  lemma ShownFolders(u: Receiver, store: Store, loc: Location)
    requires loc in Shown(u, store) && |loc| <= |u.env.destination| + 3
    ensures Shown(u, store)[loc] == Folder
  {
    FilesAreDeep(u, store);
    hide Files, Folders, FileShown;
  }

  lemma FilesAreDeep(u: Receiver, store: Store)
    ensures forall l :: l in Files(u, store) ==> |l| == |u.env.destination| + 4
  {
  }

  lemma FoldersAbove(t: Tree, loc: Location, longer: Location)
    requires IsTree(t) && IsFolder(t, longer) && loc <= longer
    ensures IsFolder(t, loc)
  {
    assert loc == longer[..|loc|];
    if |loc| < |longer| {
      PrefixesAreFolders(t, longer, |loc|);
    } else {
      assert loc == longer;
    }
  }

  lemma FoldersInside(u: Receiver, disk: Disk, loc: Location)
    requires Tidy(u, disk.rest) && loc in FullTree(u, disk) && |loc| <= |u.env.destination| + 3
    requires loc <= u.env.destination || Root(u) <= loc
    ensures FullTree(u, disk)[loc].Folder?
  {
    FullIsTree(u, disk);
    FullInside(u, disk);
    hide FullTree, Shown, IsTree, Tidy;
    if Root(u) <= loc {
      ShownFolders(u, disk.store, loc);
    } else {
      FoldersAbove(FullTree(u, disk), loc, u.env.destination);
    }
  }

  lemma RoomForPlanted(u: Receiver, disk: Disk, d: Descriptor, name: Bytes, node: Node)
    requires Tidy(u, disk.rest) && KeyOf(d) !in disk.store
    ensures RoomFor(FullTree(u, disk), u.env.destination, SourceEntry(PlantedAt(d, name), node))
  {
    var at := At(u.env.destination, SourceEntry(PlantedAt(d, name), node));
    var full := FullTree(u, disk);
    assert at == FileOfKey(u, KeyOf(d), name);
    FullIsTree(u, disk);
    FullInside(u, disk);
    DirShownExactly(u, disk.store, KeyOf(d));
    ParentOfFile(u, KeyOf(d), name);
    hide FullTree, Shown, IsTree;
    assert DirOfKey(u, KeyOf(d)) !in full;
    assert at !in full by {
      if at in full {
        ParentIsThere(full, at);
      }
    }
    forall p | p in full && p <= at ensures full[p].Folder? {
      OnTheWayDown(u, KeyOf(d), name, p);
      FoldersInside(u, disk, p);
    }
  }

  lemma OnTheWayDown(u: Receiver, key: PartialKey, name: Bytes, p: Location)
    requires p <= FileOfKey(u, key, name)
    ensures p <= u.env.destination || Root(u) <= p
    ensures p == FileOfKey(u, key, name) || |p| <= |u.env.destination| + 3
  {
    var at := FileOfKey(u, key, name);
    assert p == at[..|p|];
    assert |p| <= |u.env.destination| ==> p == u.env.destination[..|p|];
    assert |p| > |u.env.destination| ==> Root(u) == p[..|u.env.destination| + 1];
  }

  lemma ParentIsThere(t: Tree, loc: Location)
    requires IsTree(t) && loc in t && loc != []
    ensures Parent(loc) in t
  {
  }

  /** An archive without compression goes to the disk as it is. */
  lemma RawOnDisk(u: Receiver, disk: Disk, archive: Bytes)
    ensures var r := UnpackRawArchive(u.env, u.frames, FullTree(u, disk), archive, false);
            var (disk', r') := UnpackOnDisk(u, disk, CompressNone, archive);
            r' == r && disk'.store == StoreOf(u, r.tree)
  {
    hide FullTree, UnpackRawArchive, StoreOf;
  }

  /** The two files can be written as an archive with this manifest. */
  ghost predicate IsPlantable(u: Receiver, d: Descriptor, bytes: Bytes, t: nat, manifest: Manifest, chunkings: seq<seq<Bytes>>)
    requires |bytes| < U64_LIMIT
  {
    var entries := PlantedEntries(u, d, bytes, t);
    && |u.metadata.encode(MetadataFor(d, |bytes|, t))| < U64_LIMIT
    && AreEntries(entries) && AllChunked(entries, chunkings) && Fits(u.frames, u.env.hash, manifest, entries, chunkings)
    && manifest.entries == ManifestEntries(u.env.hash, entries)
  }

  function PlantedArchive(u: Receiver, d: Descriptor, bytes: Bytes, t: nat, manifest: Manifest, chunkings: seq<seq<Bytes>>)
    : Bytes
    requires |bytes| < U64_LIMIT && IsPlantable(u, d, bytes, t, manifest, chunkings)
  {
    RawArchive(u.frames, u.env.hash, manifest, PlantedEntries(u, d, bytes, t), chunkings)
  }

  lemma RoomForBoth(u: Receiver, disk: Disk, d: Descriptor, bytes: Bytes, t: nat)
    requires Tidy(u, disk.rest) && KeyOf(d) !in disk.store && |bytes| < U64_LIMIT
    ensures RoomForAll(FullTree(u, disk), u.env.destination, PlantedEntries(u, d, bytes, t))
  {
    var entries := PlantedEntries(u, d, bytes, t);
    FullIsTree(u, disk);
    FoldersOnDestination(u, disk);
    RoomForPlanted(u, disk, d, PART_NAME, entries[0].node);
    RoomForPlanted(u, disk, d, META_NAME, entries[1].node);
    hide RoomFor, FullTree, IsTree, Tidy;
  }

  /** The two files land. */
  lemma PlantedLands(u: Receiver, disk: Disk, d: Descriptor, bytes: Bytes, t: nat, manifest: Manifest,
                     chunkings: seq<seq<Bytes>>)
    requires Tidy(u, disk.rest) && DecodesWhatItEncodes(u.frames) && KeyOf(d) !in disk.store && |bytes| <= d.archiveBytes
    requires IsPlantable(u, d, bytes, t, manifest, chunkings)
    ensures var r := UnpackRawArchive(u.env, u.frames, FullTree(u, disk), PlantedArchive(u, d, bytes, t, manifest, chunkings),
        false);
      r.result == Ok(manifest) && Landed(u.env.destination, FullTree(u, disk), PlantedEntries(u, d, bytes, t), r.tree)
  {
    RoomForBoth(u, disk, d, bytes, t);
    PlantedAreEntries(u, d, bytes, t);
    var entries := PlantedEntries(u, d, bytes, t);
    assert PlantedArchive(u, d, bytes, t, manifest, chunkings) + [] == PlantedArchive(u, d, bytes, t, manifest, chunkings);
    hide FullTree, UnpackRawArchive, RawArchive, PlantedEntries, RoomForAll, Compatible, AreEntries, AllChunked, Fits, Landed;
    RawRoundTrip(u.env, u.frames, FullTree(u, disk), manifest, entries, chunkings, []);
  }

  /** Unpacking the two files on a disk that has no partial of the transfer plants one, which the next
      `resume_state` of that transfer takes for what it had received: it offers to resume behind these bytes,
      whatever they are. */
  lemma PlantedPartialIsOffered(u: Receiver, disk: Disk, d: Descriptor, bytes: Bytes, t: nat, manifest: Manifest,
                                chunkings: seq<seq<Bytes>>, listing: seq<PartialKey>, now: nat)
    requires Tidy(u, disk.rest) && ReadsBack(u.metadata) && DecodesWhatItEncodes(u.frames)
    requires KeyOf(d) !in disk.store && |bytes| <= d.archiveBytes && now <= t + PARTIAL_RETENTION
    requires IsPlantable(u, d, bytes, t, manifest, chunkings)
    ensures var archive := PlantedArchive(u, d, bytes, t, manifest, chunkings);
      var (disk', r) := UnpackOnDisk(u, disk, CompressNone, archive);
      && r.result == Ok(manifest)
      && PartOf(disk'.store, KeyOf(d)) == bytes
      && Settled(disk'.store, d, |bytes|, t)
      && ResumeOffset(disk'.store, listing, d, now) == |bytes|
  {
    PlantedLands(u, disk, d, bytes, t, manifest, chunkings);
    var archive := PlantedArchive(u, d, bytes, t, manifest, chunkings);
    var tree := UnpackRawArchive(u.env, u.frames, FullTree(u, disk), archive, false).tree;
    RawOnDisk(u, disk, archive);
    hide FullTree, UnpackRawArchive, UnpackOnDisk, PlantedArchive, PlantedEntries, Landed, IsPlantable, ReadsBack, Tidy,
         DecodesWhatItEncodes;
    LandedIsPlanted(u, FullTree(u, disk), d, bytes, t, tree);
    hide Settled, StoreOf, ResumeOffset, PartOf;
    SettledResumes(StoreOf(u, tree), listing, d, now, |bytes|, t);
  }

  lemma FoldersOnDestination(u: Receiver, disk: Disk)
    requires Tidy(u, disk.rest)
    ensures NoFileOn(FullTree(u, disk), u.env.destination)
  {
    hide FullTree;
    forall p | p in FullTree(u, disk) && p <= u.env.destination ensures FullTree(u, disk)[p].Folder? {
      FoldersInside(u, disk, p);
    }
  }

  lemma LandedIsPlanted(u: Receiver, before: Tree, d: Descriptor, bytes: Bytes, t: nat, tree: Tree)
    requires |bytes| <= d.archiveBytes && ReadsBack(u.metadata)
    requires Landed(u.env.destination, before, PlantedEntries(u, d, bytes, t), tree)
    ensures Settled(StoreOf(u, tree), d, |bytes|, t) && PartOf(StoreOf(u, tree), KeyOf(d)) == bytes
  {
    hide IsTree, AllReached, AllKept;
    var entries := PlantedEntries(u, d, bytes, t);
    var part, meta := FileOfKey(u, KeyOf(d), PART_NAME), FileOfKey(u, KeyOf(d), META_NAME);
    assert entries[0] in entries && entries[1] in entries;
    assert At(u.env.destination, entries[0]) == part;
    assert At(u.env.destination, entries[1]) == meta;
    assert part in tree && tree[part] == entries[0].node;
    assert meta in tree && tree[meta] == entries[1].node;
    hide *;
    FilesMakeAPartial(u, tree, d, bytes, t);
  }

  lemma FilesMakeAPartial(u: Receiver, tree: Tree, d: Descriptor, bytes: Bytes, t: nat)
    requires |bytes| <= d.archiveBytes && ReadsBack(u.metadata) && IsTree(tree)
    requires var part := FileOfKey(u, KeyOf(d), PART_NAME); part in tree && tree[part] == Content(bytes)
    requires var meta := FileOfKey(u, KeyOf(d), META_NAME);
             meta in tree && tree[meta] == Content(u.metadata.encode(MetadataFor(d, |bytes|, t)))
    ensures Settled(StoreOf(u, tree), d, |bytes|, t) && PartOf(StoreOf(u, tree), KeyOf(d)) == bytes
  {
    ParentOfFile(u, KeyOf(d), PART_NAME);
    InStoreExactly(u, tree, KeyOf(d));
    hide StoreOf, FileOfKey, DirOfKey;
    assert IsFolder(tree, DirOfKey(u, KeyOf(d)));
  }

  // ---------------------------------------------------------------------------------------------
  // Beside metadata that is there.

  /** One file: a part for a transfer whose directory has none yet. */
  function PlantedPart(d: Descriptor, bytes: Bytes): seq<SourceEntry> {
    [SourceEntry(PlantedAt(d, PART_NAME), Content(bytes))]
  }

  ghost predicate IsPlantablePart(u: Receiver, d: Descriptor, bytes: Bytes, manifest: Manifest, chunkings: seq<seq<Bytes>>) {
    var entries := PlantedPart(d, bytes);
    && AreEntries(entries) && AllChunked(entries, chunkings) && Fits(u.frames, u.env.hash, manifest, entries, chunkings)
    && manifest.entries == ManifestEntries(u.env.hash, entries)
  }

  function PartArchive(u: Receiver, d: Descriptor, bytes: Bytes, manifest: Manifest, chunkings: seq<seq<Bytes>>): Bytes
    requires IsPlantablePart(u, d, bytes, manifest, chunkings)
  {
    RawArchive(u.frames, u.env.hash, manifest, PlantedPart(d, bytes), chunkings)
  }

  lemma RoomForPart(u: Receiver, disk: Disk, d: Descriptor, bytes: Bytes)
    requires Tidy(u, disk.rest) && KeyOf(d) in disk.store && disk.store[KeyOf(d)].part.None?
    ensures RoomForAll(FullTree(u, disk), u.env.destination, PlantedPart(d, bytes))
  {
    var at := FileOfKey(u, KeyOf(d), PART_NAME);
    var full := FullTree(u, disk);
    assert at == At(u.env.destination, PlantedPart(d, bytes)[0]);
    FullIsTree(u, disk);
    FullInside(u, disk);
    NamesOfFiles();
    FileShownExactly(u, disk.store, KeyOf(d), PART_NAME);
    ParentOfFile(u, KeyOf(d), PART_NAME);
    FoldersOnDestination(u, disk);
    hide FullTree, Shown, IsTree, Tidy, FileOfKey, DirOfKey;
    assert at !in full;
    forall p | p in full && p <= at ensures full[p].Folder? {
      OnTheWayToFile(u, KeyOf(d), PART_NAME, p);
      assert p != at;
      FoldersInside(u, disk, p);
    }
  }

  lemma OnTheWayToFile(u: Receiver, key: PartialKey, name: Bytes, p: Location)
    requires p <= FileOfKey(u, key, name)
    ensures p == FileOfKey(u, key, name) || |p| <= |u.env.destination| + 3
    ensures p <= u.env.destination || Root(u) <= p
  {
    var at := FileOfKey(u, key, name);
    assert p == at[..|p|];
    assert |p| <= |u.env.destination| ==> p == u.env.destination[..|p|];
    assert |p| > |u.env.destination| ==> Root(u) == p[..|u.env.destination| + 1];
    assert |p| == |at| ==> p == at;
  }

  lemma PartIsEntry(d: Descriptor, bytes: Bytes)
    requires |bytes| < U64_LIMIT
    ensures AreEntries(PlantedPart(d, bytes)) && Compatible(PlantedPart(d, bytes))
  {
    PlantedNames(d, PART_NAME);
    hide AreNames, Hex;
  }

  lemma PartLands(u: Receiver, disk: Disk, d: Descriptor, bytes: Bytes, manifest: Manifest, chunkings: seq<seq<Bytes>>)
    requires Tidy(u, disk.rest) && DecodesWhatItEncodes(u.frames) && |bytes| < U64_LIMIT
    requires KeyOf(d) in disk.store && disk.store[KeyOf(d)].part.None? && IsPlantablePart(u, d, bytes, manifest, chunkings)
    ensures var r := UnpackRawArchive(u.env, u.frames, FullTree(u, disk), PartArchive(u, d, bytes, manifest, chunkings), false);
      r.result == Ok(manifest) && Landed(u.env.destination, FullTree(u, disk), PlantedPart(d, bytes), r.tree)
  {
    RoomForPart(u, disk, d, bytes);
    PartIsEntry(d, bytes);
    assert PartArchive(u, d, bytes, manifest, chunkings) + [] == PartArchive(u, d, bytes, manifest, chunkings);
    hide FullTree, UnpackRawArchive, RawArchive, PlantedPart, RoomForAll, Compatible, AreEntries, AllChunked, Fits, Landed;
    RawRoundTrip(u.env, u.frames, FullTree(u, disk), manifest, PlantedPart(d, bytes), chunkings, []);
  }

  /** Unpacking that file gives the transfer's directory a part and leaves its metadata. */
  lemma PlantedPartJoins(u: Receiver, disk: Disk, d: Descriptor, bytes: Bytes, manifest: Manifest, chunkings: seq<seq<Bytes>>)
    requires Tidy(u, disk.rest) && ReadsBack(u.metadata) && DecodesWhatItEncodes(u.frames) && |bytes| < U64_LIMIT
    requires KeyOf(d) in disk.store && disk.store[KeyOf(d)].part.None? && IsPlantablePart(u, d, bytes, manifest, chunkings)
    ensures var (disk', r) := UnpackOnDisk(u, disk, CompressNone, PartArchive(u, d, bytes, manifest, chunkings));
      && r.result == Ok(manifest)
      && KeyOf(d) in disk'.store
      && disk'.store[KeyOf(d)] == disk.store[KeyOf(d)].(part := Some(bytes))
  {
    PartLands(u, disk, d, bytes, manifest, chunkings);
    var tree := UnpackRawArchive(u.env, u.frames, FullTree(u, disk), PartArchive(u, d, bytes, manifest, chunkings), false).tree;
    StoreOfFull(u, disk);
    RawOnDisk(u, disk, PartArchive(u, d, bytes, manifest, chunkings));
    hide FullTree, UnpackRawArchive, UnpackOnDisk, PartArchive, Landed, IsPlantablePart, ReadsBack, DecodesWhatItEncodes, Tidy,
         StoreOf;
    LandedPart(u, FullTree(u, disk), d, bytes, tree);
  }

  lemma LandedPart(u: Receiver, before: Tree, d: Descriptor, bytes: Bytes, tree: Tree)
    requires KeyOf(d) in StoreOf(u, before) && Landed(u.env.destination, before, PlantedPart(d, bytes), tree)
    ensures KeyOf(d) in StoreOf(u, tree)
    ensures StoreOf(u, tree)[KeyOf(d)] == StoreOf(u, before)[KeyOf(d)].(part := Some(bytes))
  {
    var key := KeyOf(d);
    InStoreExactly(u, before, key);
    InStoreExactly(u, tree, key);
    hide StoreOf, DirOfKey, Landed, PlantedPart, DirAt;
    DirGainsPart(u, before, d, bytes, tree);
  }

  lemma DirGainsPart(u: Receiver, before: Tree, d: Descriptor, bytes: Bytes, tree: Tree)
    requires IsFolder(before, DirOfKey(u, KeyOf(d))) && Landed(u.env.destination, before, PlantedPart(d, bytes), tree)
    ensures IsFolder(tree, DirOfKey(u, KeyOf(d)))
    ensures DirAt(u, tree, KeyOf(d)) == DirAt(u, before, KeyOf(d)).(part := Some(bytes))
  {
    NamesOfFiles();
    PartIsThere(u, before, d, bytes, tree);
    OtherFileStays(u, before, d, bytes, tree, META_NAME);
    OtherFileStays(u, before, d, bytes, tree, TEMP_NAME);
    hide FileOfKey, DirOfKey, Landed, FileAt, PlantedPart;
  }

  lemma PartIsThere(u: Receiver, before: Tree, d: Descriptor, bytes: Bytes, tree: Tree)
    requires Landed(u.env.destination, before, PlantedPart(d, bytes), tree) && IsFolder(before, DirOfKey(u, KeyOf(d)))
    ensures IsFolder(tree, DirOfKey(u, KeyOf(d))) && FileAt(tree, FileOfKey(u, KeyOf(d), PART_NAME)) == Some(bytes)
  {
    var e := PlantedPart(d, bytes)[0];
    assert e in PlantedPart(d, bytes) && At(u.env.destination, e) == FileOfKey(u, KeyOf(d), PART_NAME);
    hide DirOfKey, FileOfKey, IsTree, AllReached;
  }

  lemma KeptOrReached(destination: Location, before: Tree, done: seq<SourceEntry>, tree: Tree, loc: Location)
    requires Landed(destination, before, done, tree)
    ensures loc in before ==> loc in tree && tree[loc] == before[loc]
    ensures loc in tree ==> loc in before || Reached(destination, done, loc, tree[loc])
  {
    hide IsTree, Reached;
  }

  lemma OtherFileStays(u: Receiver, before: Tree, d: Descriptor, bytes: Bytes, tree: Tree, name: Bytes)
    requires Landed(u.env.destination, before, PlantedPart(d, bytes), tree) && name != PART_NAME
    ensures FileAt(tree, FileOfKey(u, KeyOf(d), name)) == FileAt(before, FileOfKey(u, KeyOf(d), name))
  {
    var loc, at := FileOfKey(u, KeyOf(d), name), FileOfKey(u, KeyOf(d), PART_NAME);
    FileOfKeyUnique(u, KeyOf(d), name, KeyOf(d), PART_NAME);
    hide Landed, Hex;
    assert !(loc <= at) by { assert |loc| == |at| && loc != at; }
    assert At(u.env.destination, PlantedPart(d, bytes)[0]) == at;
    assert !(loc <= u.env.destination) by { assert |loc| > |u.env.destination|; }
    KeptOrReached(u.env.destination, before, PlantedPart(d, bytes), tree, loc);
  }
}
