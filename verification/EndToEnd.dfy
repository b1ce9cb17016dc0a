/** From the sender's sources to the receiver's destination, over any run of the receiver. */
module EndToEnd {
  import opened Bytes
  import opened ArchiveTypes
  import opened Compressing
  import opened SecureChannel
  import opened Paths
  import opened FileTree
  import opened Framing
  import opened Scanning
  import opened ScanLaws
  import opened Packing
  import opened ResumeStore
  import opened Unpacking
  import opened ReceiverDisk
  import opened DiskLaws
  import opened SourceRoundTrip
  import opened DirectTransfer
  import opened ReceiverRuns
  import ArchiveRoundTrip
  import UnpackLaws
  import T = TransferRuns
  import Transcripts

  /** An archive of these sources, as the sender makes it, that the frame format can carry. */
  ghost predicate IsPackedFrom(u: Receiver, archive: Archive, sources: seq<Source>, chunkings: seq<seq<Bytes>>) {
    && DecodesWhatItEncodes(u.frames) && Unpacks(u.packer) && AllExist(sources)
    && AllChunked(EntriesOf(sources), chunkings)
    && IsArchiveOf(u.frames, u.env.hash, u.packer, EntriesOf(sources), chunkings, archive)
    && Fits(u.frames, u.env.hash, archive.manifest, EntriesOf(sources), chunkings)
  }

  lemma PackedMirrors(u: Receiver, archive: Archive, sources: seq<Source>, chunkings: seq<seq<Bytes>>, before: Tree)
    requires IsPackedFrom(u, archive, sources, chunkings) && RoomForSources(before, u.env.destination, sources)
    ensures var r := UnpackArchive(u.env, u.frames, u.packer, before, archive.compression, archive.bytes);
      && (r.result.Ok? <==> NamesDiffer(sources))
      && (r.result.Ok? ==> r.result == Ok(archive.manifest) && Mirrors(u.env.destination, before, sources, r.tree))
  {
    hide UnpackArchive, RoomForSources, AllExist, NamesDiffer, Mirrors, AreEntries, AllChunked, IsArchiveOf, Fits, ScanSources;
    ArchiveMirrorsSources(u.env, u.frames, u.packer, sources, chunkings, archive, before);
  }

  /** Sessions may overlap, disconnect, crash and come from any peer, and other archives may be unpacked in
      between: what a run reports as received under the resource id of an archive was unpacked, and if at that
      time there was room for the archive's sources, these were then mirrored in the destination. The only
      hypothesis on the hash is that nothing else has the hash of this archive. */
  lemma ReceivedTransferMirrorsSources(u: Receiver, rest: Tree, moves: seq<Move>, r: Receipt, archive: Archive,
                                       sources: seq<Source>, chunkings: seq<seq<Bytes>>)
    requires IsPackedFrom(u, archive, sources, chunkings)
    requires forall other :: u.env.hash(other) == u.env.hash(archive.bytes) ==> other == archive.bytes
    requires r in Turns(u, Fresh(rest), moves).receipts
    requires r.descriptor.resourceId == archive.resourceId && r.descriptor.compression == archive.compression
    ensures r.archive == archive.bytes && r.report.result.Ok?
    ensures RoomForSources(r.before, u.env.destination, sources) ==>
              NamesDiffer(sources) && r.report.result == Ok(archive.manifest)
              && Mirrors(u.env.destination, r.before, sources, r.report.tree)
  {
    hide Turns, UnpackArchive, RoomForSources, Mirrors, NamesDiffer;
    ReceiptsAreTruthful(u, Fresh(rest), moves);
    assert Truthful(u, r);
    HashOfPacked(u, archive, sources, chunkings);
    hide IsPackedFrom;
    if RoomForSources(r.before, u.env.destination, sources) {
      PackedMirrors(u, archive, sources, chunkings, r.before);
    }
  }

  lemma HashOfPacked(u: Receiver, archive: Archive, sources: seq<Source>, chunkings: seq<seq<Bytes>>)
    requires IsPackedFrom(u, archive, sources, chunkings)
    ensures archive.resourceId == u.env.hash(archive.bytes)
  {
    hide ScanSources, AllChunked, Fits, AllExist, AreEntries;
  }

  // ---------------------------------------------------------------------------------------------
  // An honest transfer.

  /** The disk after the end of a transfer shows what the unpacking left, except in the resume directory. */
  lemma OutsideIsShown(u: Receiver, disk: Disk, t: Tree, store: Store, loc: Location)
    requires Tidy(u, disk.rest) && ReadsBack(u.metadata) && LeavesRoot(u, disk, t) && !(Root(u) <= loc)
    ensures NodeAt(FullTree(u, Disk(store, SplitDisk(u, t).rest)), loc) == NodeAt(t, loc)
  {
    LeftIsSplit(u, disk, t);
    var rest := SplitDisk(u, t).rest;
    FullInside(u, Disk(store, rest));
    assert rest == t - Shown(u, StoreOf(u, t)).Keys;
    forall l | l in Shown(u, StoreOf(u, t)) ensures Root(u) <= l {
      ShownIsInside(u, StoreOf(u, t), l);
    }
    hide FullTree, Shown, UnpackLaws.Untouched, IsTree, Tidy;
    assert IsFolder(rest, u.env.destination) by { assert !(Root(u) <= u.env.destination); }
    assert Base(u, rest) == rest;
  }

  /** The archive of an honest transfer, the room for it, and the end of its session. */
  ghost predicate ReachesTheEnd(u: Receiver, w: World, m: Move, t: T.Transfer, archive: Archive, sources: seq<Source>,
                                chunkings: seq<seq<Bytes>>)
  {
    && Inverse(u.secure) && ReadsBack(u.metadata) && T.Describes(u.env.hash, t)
    && m.Arrive? && Concerns(w, m.id, t) && Honest(u, w, m, t) && FrameOf(u, w, m) == Some(SecureFrame.Done)
    && IsPackedFrom(u, archive, sources, chunkings)
    && t.archive == archive.bytes && t.descriptor.compression == archive.compression
    && RoomForSources(FullTree(u, w.disk), u.env.destination, sources)
  }

  lemma {:induction false} ScannedUnderBaseName(sources: seq<Source>, e: SourceEntry)
    requires AllExist(sources) && e in ScanAll([], sources)
    ensures e.names != [] && IsBaseName(sources, e.names[0])
  {
    assert sources[0] in sources && Exists(sources[0]);
    if e in ScanSource([], sources[0]) {
      ScannedIsUnder([], sources[0], e);
    } else {
      assert forall s :: s in sources[1..] ==> s in sources;
      ScannedUnderBaseName(sources[1..], e);
      var s :| s in sources[1..] && s.name == e.names[0];
      assert s in sources;
    }
  }

  lemma ArchiveLists(u: Receiver, archive: Archive, entries: seq<SourceEntry>, chunkings: seq<seq<Bytes>>)
    requires DecodesWhatItEncodes(u.frames) && Unpacks(u.packer) && AreEntries(entries) && AllChunked(entries, chunkings)
    requires IsArchiveOf(u.frames, u.env.hash, u.packer, entries, chunkings, archive)
    requires Fits(u.frames, u.env.hash, archive.manifest, entries, chunkings)
    ensures Listed(u.frames, u.packer, archive.compression, archive.bytes) == ManifestEntries(u.env.hash, entries)
  {
    var body := WriteFrames(u.frames, Body(u.env.hash, entries, chunkings));
    FrameRoundTripExactly(u.frames, ManifestFrame(archive.manifest), body, false);
    hide WriteFrame, WriteFrames, Body, ReadFrame, AllChunked, AreEntries, TotalBytes, ArchiveRoundTrip.EntriesShort,
         Transcripts.ManifestIdInput;
  }

  lemma PackedLists(u: Receiver, archive: Archive, sources: seq<Source>, chunkings: seq<seq<Bytes>>)
    requires IsPackedFrom(u, archive, sources, chunkings)
    ensures Listed(u.frames, u.packer, archive.compression, archive.bytes) == ManifestEntries(u.env.hash, EntriesOf(sources))
  {
    ArchiveLists(u, archive, EntriesOf(sources), chunkings);
  }

  /** The manifest lists, path by path, the names of the entries. */
  lemma ListedNames(hash: Bytes -> Digest, entries: seq<SourceEntry>, i: nat)
    requires AreEntries(entries) && i < |entries|
    ensures Paths.Split(ManifestEntries(hash, entries)[i].path) == entries[i].names && entries[i] in entries
  {
    hide IsEntry, Split;
    assert IsEntry(entries[i]);
    ArchiveRoundTrip.KeysByNames(entries[i], entries[i]);
  }

  /** Every source has an entry for itself, and an entry belongs to a source. */
  lemma BaseNamesScanned(sources: seq<Source>, name: Bytes)
    requires AllExist(sources)
    ensures IsBaseName(sources, name) <==> exists e :: e in ScanSources(sources) && e.names != [] && e.names[0] == name
  {
    SortedMembers(sources);
    hide ScanSources, AllExist, ScanAll;
    if IsBaseName(sources, name) {
      var s :| s in sources && s.name == name;
      var j :| 0 <= j < |sources| && sources[j] == s;
      SourceScanned(sources, j);
      var k :| 0 <= k < |ScanAll([], sources)| && ScanAll([], sources)[k].names == [s.name];
      assert ScanAll([], sources)[k] in ScanSources(sources);
    }
    if e :| e in ScanSources(sources) && e.names != [] && e.names[0] == name {
      ScannedUnderBaseName(sources, e);
    }
  }

  lemma ManifestStaysOutsideExactly(hash: Bytes -> Digest, entries: seq<SourceEntry>, name: Bytes)
    requires AreEntries(entries)
    ensures UnpackLaws.StaysOutside(ManifestEntries(hash, entries), name)
            <==> !exists e :: e in entries && e.names != [] && e.names[0] == name
  {
    hide IsEntry, Split;
    var listed := ManifestEntries(hash, entries);
    if e :| e in entries && e.names != [] && e.names[0] == name {
      var i :| 0 <= i < |entries| && entries[i] == e;
      ListedNames(hash, entries, i);
      assert listed[i] in listed;
    }
    if !UnpackLaws.StaysOutside(listed, name) {
      var i :| 0 <= i < |listed| && Paths.Split(listed[i].path)[0] == name;
      ListedNames(hash, entries, i);
    }
  }

  /** An archive keeps out of the resume directory exactly when none of its sources has that name. */
  lemma PackedKeepsOutExactly(u: Receiver, archive: Archive, sources: seq<Source>, chunkings: seq<seq<Bytes>>)
    requires IsPackedFrom(u, archive, sources, chunkings)
    ensures KeepsOut(u, archive.compression, archive.bytes) <==> !IsBaseName(sources, RESUME_DIR)
  {
    PackedLists(u, archive, sources, chunkings);
    hide ScanSources, Listed, IsEntry, AllExist, AllChunked, IsArchiveOf, Fits, UnpackLaws.StaysOutside, IsBaseName;
    ManifestStaysOutsideExactly(u.env.hash, ScanSources(sources), RESUME_DIR);
    BaseNamesScanned(sources, RESUME_DIR);
  }

  lemma NoSourceIsTheRoot(u: Receiver, disk: Disk, sources: seq<Source>)
    requires Tidy(u, disk.rest) && disk.store != map[] && RoomForSources(FullTree(u, disk), u.env.destination, sources)
    ensures !IsBaseName(sources, RESUME_DIR)
  {
    RootIsShown(u, disk);
    hide FullTree, IsTree;
  }

  lemma EndReceipts(u: Receiver, w: World, m: Move)
    requires m.Arrive? && m.id in w.links && FrameOf(u, w, m) == Some(SecureFrame.Done)
    ensures var outcome := FrameResult(u, w.disk, w.links[m.id].session, SecureFrame.Done);
      && (outcome.Received? <==> |Turn(u, w, m).receipts| > |w.receipts|)
      && (outcome.Received? ==>
            && UnpackedBy(u, w, m).Some?
            && Turn(u, w, m).receipts == w.receipts + [Receipt(m.id, w.links[m.id].session.descriptor, outcome.archive,
                                                              FullTree(u, w.disk), UnpackedBy(u, w, m).value.1)]
            && Turn(u, w, m).disk.rest == UnpackedBy(u, w, m).value.0.rest)
  {
    hide Decrypted, UnpackOnDisk, CompleteResult, FullTree, LinksAfter, EffectsOf;
  }

  lemma UnpackedTree(u: Receiver, w: World, m: Move)
    requires UnpackedBy(u, w, m).Some?
    ensures var tree := UnpackedBy(u, w, m).value.1.tree; UnpackedBy(u, w, m).value.0.rest == SplitDisk(u, tree).rest
  {
    hide Decrypted, CompleteResult, FullTree, UnpackArchive, SplitDisk;
  }

  lemma BelowOtherName(u: Receiver, names: seq<Bytes>)
    requires names != [] && names[0] != RESUME_DIR
    ensures !(Root(u) <= u.env.destination + names)
  {
    assert (u.env.destination + names)[|u.env.destination|] == names[0];
    assert Root(u)[|u.env.destination|] == RESUME_DIR;
  }

  /** What was unpacked under the name of a source is on the disk after the end of the transfer. */
  lemma SourceIsShown(u: Receiver, w: World, m: Move, t: T.Transfer, archive: Archive, sources: seq<Source>,
                      chunkings: seq<seq<Bytes>>, names: seq<Bytes>)
    requires ReachesTheEnd(u, w, m, t, archive, sources, chunkings) && Inv(u, w, t)
    requires |Turn(u, w, m).receipts| > |w.receipts| && names != [] && IsBaseName(sources, names[0])
    ensures UnpackedBy(u, w, m).Some?
    ensures var loc := u.env.destination + names;
            NodeAt(FullTree(u, Turn(u, w, m).disk), loc) == NodeAt(UnpackedBy(u, w, m).value.1.tree, loc)
  {
    EndReceipts(u, w, m);
    HonestEndIsReceived(u, w, m, t);
    UnpackedTree(u, w, m);
    assert w.disk.store != map[] && Tidy(u, w.disk.rest);
    hide Turn, UnpackedBy, FrameOf, FrameResult, FullTree, UnpackArchive, RoomForSources, IsPackedFrom, Honest, SplitDisk, Tidy,
         IsBaseName, KeepsOut, LeavesRoot, T.PrefixHolds, AllTied, HeadersMatch, FrameDisk;
    NoSourceIsTheRoot(u, w.disk, sources);
    PackedKeepsOutExactly(u, archive, sources, chunkings);
    UnpackingLeavesRoot(u, w.disk, archive.compression, archive.bytes, 0);
    BelowOtherName(u, names);
    OutsideIsShown(u, w.disk, UnpackedBy(u, w, m).value.1.tree, Turn(u, w, m).disk.store, u.env.destination + names);
  }

  /** An honest transfer ends well: when the end that its sender wrote arrives and there is room for the sources,
      it is reported received exactly when their base names differ and the part is still there, and then the disk
      has, below these names, exactly what the sources have. */
  lemma HonestTransferMirrorsSources(u: Receiver, w: World, m: Move, t: T.Transfer, archive: Archive,
                                     sources: seq<Source>, chunkings: seq<seq<Bytes>>)
    requires ReachesTheEnd(u, w, m, t, archive, sources, chunkings) && Inv(u, w, t)
    ensures var w' := Turn(u, w, m);
      var key := KeyOf(t.descriptor);
      && (|w'.receipts| > |w.receipts| <==> NamesDiffer(sources) && key in w.disk.store && w.disk.store[key].part.Some?)
      && (|w'.receipts| > |w.receipts| ==>
            && w'.receipts[|w.receipts|].report.result == Ok(archive.manifest)
            && Mirrors(u.env.destination, FullTree(u, w.disk), sources, w'.receipts[|w.receipts|].report.tree)
            && forall names: seq<Bytes> :: names != [] && IsBaseName(sources, names[0]) ==>
                 NodeAt(FullTree(u, w'.disk), u.env.destination + names) == FindIn(sources, names))
  {
    PackedMirrors(u, archive, sources, chunkings, FullTree(u, w.disk));
    HonestEndIsReceived(u, w, m, t);
    EndReceipts(u, w, m);
    if |Turn(u, w, m).receipts| > |w.receipts| {
      var unpacked := UnpackedBy(u, w, m).value.1;
      forall names: seq<Bytes> | names != [] && IsBaseName(sources, names[0])
        ensures NodeAt(FullTree(u, Turn(u, w, m).disk), u.env.destination + names) == FindIn(sources, names)
      {
        SourceIsShown(u, w, m, t, archive, sources, chunkings, names);
        assert NodeAt(unpacked.tree, u.env.destination + names) == FindIn(sources, names) by { hide FullTree; }
      }
    }
    hide *;
  }

  /** The same over whole runs: from a receiver that has received nothing, over any run in which other sessions,
      channels and crashes do what they can, up to the sender's end. Then only the clean-up of another session,
      which removes expired partials, can have taken a part away that has any bytes. */
  lemma HonestRunMirrorsSources(u: Receiver, rest: Tree, moves: seq<Move>, m: Move, t: T.Transfer, archive: Archive,
                                sources: seq<Source>, chunkings: seq<seq<Bytes>>)
    requires Tidy(u, rest) && HonestRun(u, Fresh(rest), moves, t)
    requires ReachesTheEnd(u, Turns(u, Fresh(rest), moves), m, t, archive, sources, chunkings)
    ensures var w := Turns(u, Fresh(rest), moves);
      var w' := Turn(u, w, m);
      var key := KeyOf(t.descriptor);
      && (|w'.receipts| > |w.receipts| <==> NamesDiffer(sources) && key in w.disk.store && w.disk.store[key].part.Some?)
      && (key in w.disk.store && archive.bytes != [] ==> w.disk.store[key].part.Some?)
      && (|w'.receipts| > |w.receipts| ==>
            && w'.receipts[|w.receipts|].report.result == Ok(archive.manifest)
            && Mirrors(u.env.destination, FullTree(u, w.disk), sources, w'.receipts[|w.receipts|].report.tree)
            && forall names: seq<Bytes> :: names != [] && IsBaseName(sources, names[0]) ==>
                 NodeAt(FullTree(u, w'.disk), u.env.destination + names) == FindIn(sources, names))
  {
    hide Tidy, HonestRun, Turns, Inv, T.Describes, Inverse, ReadsBack, IsPackedFrom, RoomForSources, FullTree, Turn,
         Mirrors, NamesDiffer, FrameOf, Honest;
    FreshIsFine(u, rest, t);
    LawAlwaysHolds(u, Fresh(rest), moves, t);
    var w := Turns(u, Fresh(rest), moves);
    HonestTransferMirrorsSources(u, w, m, t, archive, sources, chunkings);
    PartIsThere(u, w, m, t);
  }

  lemma PartIsThere(u: Receiver, w: World, m: Move, t: T.Transfer)
    requires Inverse(u.secure) && T.Describes(u.env.hash, t) && Inv(u, w, t)
    requires m.Arrive? && Concerns(w, m.id, t) && Honest(u, w, m, t) && FrameOf(u, w, m) == Some(SecureFrame.Done)
    ensures KeyOf(t.descriptor) in w.disk.store && t.archive != [] ==> w.disk.store[KeyOf(t.descriptor)].part.Some?
  {
    StoreMoveIsHonest(u, w, m, t);
    SameConcerns(w, m.id, t);
    hide FrameResult, Decrypted, Tidy, T.PrefixHolds, T.Describes, Inverse, Honest, T.Honest;
    T.HonestEndIsReceived(u.env.hash, StoreWorld(w), t, StoreMove(u, w, m));
  }
}
