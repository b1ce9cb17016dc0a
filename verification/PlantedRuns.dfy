/** Why archives have to keep out of the resume directory: moves of other transfers that are legal and honest but
    for that, after which the laws of the partials fail. */
module PlantedRuns {
  import opened Bytes
  import opened ArchiveTypes
  import opened SecureChannel
  import opened Framing
  import opened ResumeStore
  import opened ResumeLaws
  import opened ReceiverDisk
  import opened DiskLaws
  import opened PlantedPartials
  import opened ReceiverRuns
  import opened TransferProgress
  import T = TransferRuns

  /** The end of another transfer, which passes the check with this archive. */
  predicate IsEndOfAnother(u: Receiver, w: World, m: Move, d: Descriptor, archive: Bytes) {
    && m.Arrive? && m.id in w.links && FrameOf(u, w, m) == Some(SecureFrame.Done)
    && var session := w.links[m.id].session;
    && session.compression == Some(CompressNone) && KeyOf(session.descriptor) != KeyOf(d)
    && CompleteResult(u.env.hash, w.disk.store, session.descriptor) == Ok(archive)
  }

  predicate OthersStay(w: World, w': World, id: nat) {
    forall other :: other in w.links && other != id ==> other in w'.links && w'.links[other] == w.links[other]
  }

  /** What such an end does. */
  lemma CheckedEnd(u: Receiver, w: World, m: Move, d: Descriptor, archive: Bytes)
    requires IsEndOfAnother(u, w, m, d, archive)
    ensures var unpacked := UnpackOnDisk(u, w.disk, CompressNone, archive);
      && UnpackedBy(u, w, m) == Some(unpacked)
      && CompressionOf(u, w, m) == CompressNone && ArchiveOf(u, w, m) == archive
      && Turn(u, w, m).disk.store == Run(unpacked.0.store, RemovePartialEffects(KeyOf(w.links[m.id].session.descriptor)))
      && OthersStay(w, Turn(u, w, m), m.id)
      && |Turn(u, w, m).receipts| == |w.receipts| + if unpacked.1.result.Ok? then 1 else 0
  {
    hide Decrypted, UnpackOnDisk, CompleteResult, CompleteEffects, FullTree, RemovePartialEffects, Run;
  }

  /** It is a move of honest runs of the other transfers, in all but what it unpacks. */
  lemma EndOfAnotherIsHonest(u: Receiver, w: World, m: Move, t: T.Transfer, archive: Bytes)
    requires IsEndOfAnother(u, w, m, t.descriptor, archive)
    ensures Legal(u, w, m) && Honest(u, w, m, t)
  {
    assert !Concerns(w, m.id, t);
    hide FrameOf, CompleteResult;
  }

  /** An end that changes the store of partials did not keep out. */
  lemma ReachedIn(u: Receiver, w: World, m: Move, d: Descriptor, archive: Bytes)
    requires Tidy(u, w.disk.rest) && ReadsBack(u.metadata) && IsEndOfAnother(u, w, m, d, archive)
    requires UnpackOnDisk(u, w.disk, CompressNone, archive).0.store != w.disk.store
    ensures !KeptOut(u, w, m)
  {
    CheckedEnd(u, w, m, d, archive);
    hide Tidy, ReadsBack, UnpackOnDisk, Turn, UnpackedBy, FrameOf, CompleteResult, KeepsOut, ArchiveOf, CompressionOf;
    if KeptOut(u, w, m) {
      UnpackingLeavesStore(u, w.disk, CompressNone, archive);
    }
  }

  // ---------------------------------------------------------------------------------------------
  // A partial that was never received.

  /** An archive that holds a partial is received, and afterwards `resume_state` offers its bytes for a transfer
      none of whose sessions has ever run, whatever they are. All that the move lacks for the law of honest runs is
      that its archive keeps out of the resume directory. */
  lemma PlantedBytesAreOffered(u: Receiver, w: World, m: Move, t: T.Transfer, bytes: Bytes, at: nat, manifest: Manifest,
                               chunkings: seq<seq<Bytes>>, listing: seq<PartialKey>, now: nat)
    requires Tidy(u, w.disk.rest) && ReadsBack(u.metadata) && DecodesWhatItEncodes(u.frames)
    requires KeyOf(t.descriptor) !in w.disk.store && |bytes| <= t.descriptor.archiveBytes && now <= at + PARTIAL_RETENTION
    requires IsPlantable(u, t.descriptor, bytes, at, manifest, chunkings)
    requires IsEndOfAnother(u, w, m, t.descriptor, PlantedArchive(u, t.descriptor, bytes, at, manifest, chunkings))
    ensures Legal(u, w, m) && Honest(u, w, m, t) && !KeptOut(u, w, m)
    ensures var w' := Turn(u, w, m);
      && |w'.receipts| == |w.receipts| + 1
      && PartOf(w'.disk.store, KeyOf(t.descriptor)) == bytes
      && ResumeOffset(w'.disk.store, listing, t.descriptor, now) == |bytes|
  {
    var d := t.descriptor;
    var archive := PlantedArchive(u, d, bytes, at, manifest, chunkings);
    PlantedPartialIsOffered(u, w.disk, d, bytes, at, manifest, chunkings, listing, now);
    hide Tidy, ReadsBack, UnpackOnDisk, PlantedArchive, ResumeOffset, IsPlantable, PartOf, Run, Turn, UnpackedBy, FrameOf,
         DecodesWhatItEncodes, IsEndOfAnother, KeptOut, Honest, Legal, RemovePartialEffects;
    CheckedEnd(u, w, m, d, archive);
    EndOfAnotherIsHonest(u, w, m, t, archive);
    assert UnpackOnDisk(u, w.disk, CompressNone, archive).0.store != w.disk.store;
    ReachedIn(u, w, m, d, archive);
    OtherKey(u, w, m, d, archive);
    var other := w.links[m.id].session.descriptor;
    PlantedStays(UnpackOnDisk(u, w.disk, CompressNone, archive).0.store, other, d, bytes, at, listing, now);
  }

  lemma OtherKey(u: Receiver, w: World, m: Move, d: Descriptor, archive: Bytes)
    requires IsEndOfAnother(u, w, m, d, archive)
    ensures m.Arrive? && m.id in w.links && KeyOf(w.links[m.id].session.descriptor) != KeyOf(d)
  {
    hide FrameOf, CompleteResult;
  }

  lemma PlantedStays(s: Store, other: Descriptor, d: Descriptor, bytes: Bytes, at: nat, listing: seq<PartialKey>, now: nat)
    requires KeyOf(other) != KeyOf(d) && |bytes| <= d.archiveBytes && now <= at + PARTIAL_RETENTION
    requires Settled(s, d, |bytes|, at) && PartOf(s, KeyOf(d)) == bytes
    ensures var s' := Run(s, RemovePartialEffects(KeyOf(other)));
            PartOf(s', KeyOf(d)) == bytes && ResumeOffset(s', listing, d, now) == |bytes|
  {
    ClearOutcome(s, KeyOf(other));
    hide Run, RemovePartialEffects, ResumeOffset;
    SettledResumes(Run(s, RemovePartialEffects(KeyOf(other))), listing, d, now, |bytes|, at);
  }

  // ---------------------------------------------------------------------------------------------
  // A part under a live session.

  lemma MismatchIsNotOffered(s: Store, listing: seq<PartialKey>, d: Descriptor, now: nat)
    requires KeyOf(d) in s ==> !Keeps(s[KeyOf(d)], d)
    ensures ResumeOffset(s, listing, d, now) == 0
  {
    CleanupKeepsFresh(s, listing, now);
    RunConcat(s, CleanupEffects(s, listing, now), [MakeDir(KeyOf(d))]);
    RunOne(Run(s, CleanupEffects(s, listing, now)), MakeDir(KeyOf(d)));
    hide Run, CleanupEffects, Stale;
  }

  /** The next chunk of a session whose directory was given a part that it does not know of. */
  lemma ChunkAfterPart(s: Store, d: Descriptor, bytes: Bytes, chunk: Bytes, now: nat, listing: seq<PartialKey>, later: nat)
    requires KeyOf(d) in s && s[KeyOf(d)].part == Some(bytes) && bytes != [] && |chunk| <= d.archiveBytes
    ensures ResumeOffset(Run(s, AppendEffects(s, 0, d, chunk, now)), listing, d, later) == 0
  {
    AppendOutcome(s, 0, d, chunk, now);
    hide AppendEffects, Run, ResumeOffset;
    MismatchIsNotOffered(Run(s, AppendEffects(s, 0, d, chunk, now)), listing, d, later);
  }

  /** A session of the transfer is about to take this chunk, its first. */
  predicate IsNextChunk(u: Receiver, w: World, m: Move, d: Descriptor, chunk: Bytes) {
    && m.Arrive? && m.id in w.links && FrameOf(u, w, m) == Some(ArchiveChunk(chunk))
    && w.links[m.id].session.descriptor == d && w.links[m.id].session.compression.Some?
    && w.links[m.id].session.offset == 0
  }

  lemma ChunkOnStore(u: Receiver, w: World, m: Move, d: Descriptor, chunk: Bytes)
    requires IsNextChunk(u, w, m, d, chunk)
    ensures Turn(u, w, m).disk.store == Run(w.disk.store, AppendEffects(w.disk.store, 0, d, chunk, m.now))
    ensures StoreMove(u, w, m) == T.Accept(m.id, ArchiveChunk(chunk), m.now, false) && KeptOut(u, w, m)
  {
    assert UnpackedBy(u, w, m) == None && BaseDisk(u, w, m) == w.disk by { hide Decrypted; }
    assert EffectsOf(u, w, m) == AppendEffects(w.disk.store, 0, d, chunk, m.now) by { hide AppendEffects, Decrypted; }
    hide AppendEffects, Run, EffectsOf, FrameOf, UnpackedBy, BaseDisk, LinksAfter, ReceiptsAfter;
  }

  /** A part that is unpacked under a live session which has not received anything yet stops its progress: the
      session takes its next chunk, and the next one is offered nothing at all. Both moves are steady, and all that
      the run lacks is that its archive keeps out of the resume directory. */
  lemma PlantedPartStopsProgress(u: Receiver, w: World, end: Move, next: Move, d: Descriptor, bytes: Bytes, chunk: Bytes,
                                 time: nat, manifest: Manifest, chunkings: seq<seq<Bytes>>, listing: seq<PartialKey>, now: nat)
    requires ReadsBack(u.metadata) && DecodesWhatItEncodes(u.frames) && OnTrack(u, w, d, Mark(0, time))
    requires w.disk.store[KeyOf(d)].part.None?
    requires 0 < |bytes| < U64_LIMIT && IsPlantablePart(u, d, bytes, manifest, chunkings)
    requires IsEndOfAnother(u, w, end, d, PartArchive(u, d, bytes, manifest, chunkings))
    requires IsNextChunk(u, w, next, d, chunk) && 0 < |chunk| <= d.archiveBytes
    ensures Steady(StoreWorld(w), StoreMove(u, w, end), d, Mark(0, time)) && !KeptOut(u, w, end)
    ensures var w' := Turn(u, w, end);
      && NextMark(u, w, end, d, Mark(0, time)) == Mark(0, time)
      && Steady(StoreWorld(w'), StoreMove(u, w', next), d, Mark(0, time)) && KeptOut(u, w', next)
      && NextMark(u, w', next, d, Mark(0, time)).offset == |chunk|
      && ResumeOffset(Turn(u, w', next).disk.store, listing, d, now) == 0
  {
    var archive := PartArchive(u, d, bytes, manifest, chunkings);
    PlantedPartJoins(u, w.disk, d, bytes, manifest, chunkings);
    hide Tidy, ReadsBack, UnpackOnDisk, PartArchive, IsPlantablePart, Run, Turn, DecodesWhatItEncodes, IsEndOfAnother, KeptOut,
         RemovePartialEffects, AppendEffects, ResumeOffset, Settled, OnTrack;
    CheckedEnd(u, w, end, d, archive);
    OtherKey(u, w, end, d, archive);
    ReachedIn(u, w, end, d, archive);
    var other := w.links[end.id].session.descriptor;
    ClearOutcome(UnpackOnDisk(u, w.disk, CompressNone, archive).0.store, KeyOf(other));
    EndIsSteady(u, w, end, d, archive, time);
    NextIsSteady(u, w, end, next, d, chunk, archive, time);
    ChunkOnStore(u, Turn(u, w, end), next, d, chunk);
    ChunkAfterPart(Turn(u, w, end).disk.store, d, bytes, chunk, next.now, listing, now);
  }

  lemma EndIsSteady(u: Receiver, w: World, end: Move, d: Descriptor, archive: Bytes, time: nat)
    requires IsEndOfAnother(u, w, end, d, archive)
    ensures Steady(StoreWorld(w), StoreMove(u, w, end), d, Mark(0, time))
    ensures NextMark(u, w, end, d, Mark(0, time)) == Mark(0, time)
  {
    hide CompleteResult, UnpackedBy, Decrypted;
  }

  lemma NextIsSteady(u: Receiver, w: World, end: Move, next: Move, d: Descriptor, chunk: Bytes, archive: Bytes, time: nat)
    requires IsEndOfAnother(u, w, end, d, archive) && IsNextChunk(u, w, next, d, chunk) && |chunk| <= d.archiveBytes
    requires OthersStay(w, Turn(u, w, end), end.id)
    ensures var w' := Turn(u, w, end);
      && IsNextChunk(u, w', next, d, chunk)
      && Steady(StoreWorld(w'), StoreMove(u, w', next), d, Mark(0, time))
      && NextMark(u, w', next, d, Mark(0, time)).offset == |chunk|
  {
    hide CompleteResult, Turn, Decrypted, KeptOut;
    assert IsNextChunk(u, Turn(u, w, end), next, d, chunk);
    ChunkOnStore(u, Turn(u, w, end), next, d, chunk);
  }
}
