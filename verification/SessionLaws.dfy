/** What the end of a transfer leaves of its partial, and what a direct session takes, over the moves of the receiver. */
module SessionLaws {
  import opened Bytes
  import opened SecureChannel
  import opened ResumeStore
  import opened ResumeLaws
  import opened ReceiverDisk
  import opened DiskLaws
  import opened DirectTransfer
  import opened ReceiverRuns

  /** The end of a transfer arrives on a session that has taken the header. */
  predicate EndArrives(u: Receiver, w: World, m: Move) {
    m.Arrive? && FrameOf(u, w, m) == Some(SecureFrame.Done) && w.links[m.id].session.compression.Some?
  }

  /** The part that the end of the transfer finds. */
  function FoundPart(w: World, d: Descriptor): Option<Bytes> {
    if KeyOf(d) in w.disk.store then w.disk.store[KeyOf(d)].part else None
  }

  /** The end finds a part: whether it is checked and unpacked, or fails the check, or fails to unpack, and wherever the
      archive reached, the part and its metadata are gone and any transfer that would use them is offered nothing.
      Without a part nothing changes. A part that fails the check is not unpacked and not reported, and nothing else
      on the disk changes; one that passes leaves the other partials as they were when it keeps out of the resume
      directory. */
  lemma EndClears(u: Receiver, w: World, m: Move)
    requires EndArrives(u, w, m)
    ensures var d, w' := w.links[m.id].session.descriptor, Turn(u, w, m);
      match FoundPart(w, d)
      case None => w'.disk == w.disk && w'.receipts == w.receipts
      case Some(part) =>
        && IsGone(w'.disk.store, KeyOf(d))
        && (forall listing, d': Descriptor, now :: KeyOf(d') == KeyOf(d) ==> ResumeOffset(w'.disk.store, listing, d', now) == 0)
        && (!IsWhole(u.env.hash, part, d) ==>
              w'.disk.rest == w.disk.rest && OthersUnchanged(w.disk.store, w'.disk.store, KeyOf(d)) && w'.receipts == w.receipts)
        && (IsWhole(u.env.hash, part, d) && Tidy(u, w.disk.rest) && ReadsBack(u.metadata) && KeptOut(u, w, m) ==>
              OthersUnchanged(w.disk.store, w'.disk.store, KeyOf(d)))
  {
    var d := w.links[m.id].session.descriptor;
    hide FrameOf, KeptOut, Tidy, ReadsBack, UnpackOnDisk, FullTree, Run, RemovePartialEffects, Decrypted, SessionAfter;
    CheckClearsExactly(u.env.hash, w.disk.store, d);
    RemovalClears(BaseDisk(u, w, m).store, KeyOf(d));
    RunNothing(w.disk.store);
    var w' := Turn(u, w, m);
    if FoundPart(w, d).Some? {
      assert IsGone(w'.disk.store, KeyOf(d));
      forall listing, d': Descriptor, now | KeyOf(d') == KeyOf(d) ensures ResumeOffset(w'.disk.store, listing, d', now) == 0 {
        GoneOffersNothing(w'.disk.store, listing, d', now);
      }
      if IsWhole(u.env.hash, FoundPart(w, d).value, d) && Tidy(u, w.disk.rest) && ReadsBack(u.metadata) && KeptOut(u, w, m) {
        BaseIsTidy(u, w, m);
      }
    }
  }

  // ---------------------------------------------------------------------------------------------
  // What a direct session takes.

  /** A frame takes a session on exactly when it is the announced header, first, or then a chunk that fits the archive and
      has somewhere to go; it completes the transfer exactly when it is the end, after the header, of a part that is whole
      and unpacks. */
  lemma OutcomeExactly(u: Receiver, disk: Disk, session: Session, frame: SecureFrame)
    ensures var r, d := FrameResult(u, disk, session, frame), session.descriptor;
      var fits := frame.ArchiveChunk? && session.compression.Some? && KeyOf(d) in disk.store
                  && session.offset + |frame.bytes| <= d.archiveBytes;
      && (r.Continue? <==> (session.compression.None? && frame == Header(d.compression)) || fits)
      && (r.Continue? ==>
            r.session == session.(accepted := session.accepted + [frame],
                                  compression := if fits then session.compression else Some(d.compression),
                                  offset := if fits then session.offset + |frame.bytes| else session.offset))
      && (forall archive :: r == Received(archive) <==>
            && frame.Done? && session.compression.Some? && KeyOf(d) in disk.store
            && disk.store[KeyOf(d)].part == Some(archive) && IsWhole(u.env.hash, archive, d)
            && UnpackOnDisk(u, disk, session.compression.value, archive).1.result.Ok?)
  {
    hide UnpackOnDisk;
  }

  function ChunkBytes(frames: seq<SecureFrame>): nat {
    if frames == [] then 0
    else
      var last := frames[|frames| - 1];
      ChunkBytes(frames[..|frames| - 1]) + if last.ArchiveChunk? then |last.bytes| else 0
  }

  /** The session has taken nothing, or the announced header and then chunks, and stands behind what they held. */
  predicate IsInShape(session: Session) {
    && session.offset == session.start + ChunkBytes(session.accepted)
    && (session.compression.None? <==> session.accepted == [])
    && (session.accepted != [] ==>
          && session.compression == Some(session.descriptor.compression)
          && session.accepted[0] == Header(session.descriptor.compression)
          && forall i :: 0 < i < |session.accepted| ==> session.accepted[i].ArchiveChunk?)
  }

  predicate DirectInShape(w: World) {
    forall id :: id in w.links && !w.links[id].session.patient ==> IsInShape(w.links[id].session)
  }

  lemma FrameKeepsShape(u: Receiver, disk: Disk, session: Session, frame: SecureFrame)
    requires IsInShape(session)
    ensures var r := FrameResult(u, disk, session, frame); r.Continue? ==> IsInShape(r.session)
  {
    OutcomeExactly(u, disk, session, frame);
    hide FrameResult, IsInShape;
    if FrameResult(u, disk, session, frame).Continue? {
      if session.compression.None? {
        HeaderKeepsShape(session, frame);
      } else {
        ChunkKeepsShape(session, frame);
      }
    }
  }

  lemma HeaderKeepsShape(session: Session, frame: SecureFrame)
    requires IsInShape(session) && session.compression.None? && frame == Header(session.descriptor.compression)
    ensures IsInShape(session.(accepted := session.accepted + [frame], compression := Some(session.descriptor.compression)))
  {
    assert session.accepted + [frame] == [frame] && [frame][..0] == [];
  }

  lemma ChunkKeepsShape(session: Session, frame: SecureFrame)
    requires IsInShape(session) && session.compression.Some? && frame.ArchiveChunk?
    requires session.offset + |frame.bytes| < U64_LIMIT
    ensures IsInShape(session.(accepted := session.accepted + [frame], offset := session.offset + |frame.bytes|))
  {
    assert (session.accepted + [frame])[..|session.accepted|] == session.accepted;
  }

  lemma TurnKeepsShape(u: Receiver, w: World, m: Move)
    requires DirectInShape(w)
    ensures DirectInShape(Turn(u, w, m))
  {
    hide IsInShape, DiskAfter, Decrypted, UnpackOnDisk, FullTree, CompleteResult, AppendResult, ReceiptsAfter;
    match m
    case Open(_, d, listing, now, patient, _, _, _) =>
      var offset := ResumeOffset(w.disk.store, listing, d, now);
      assert IsInShape(Session(d, offset, offset, None, [], patient)) by { ShapeOfNew(d, offset, patient); }
    case Arrive(id, chunk, now) =>
      if FrameOf(u, w, m).Some? {
        var session, frame := w.links[id].session, FrameOf(u, w, m).value;
        if !session.patient {
          FrameKeepsShape(u, w.disk, session, frame);
          SameContinuation(u, w.disk, session, frame);
        }
      }
    case _ =>
  }

  lemma ShapeOfNew(d: Descriptor, offset: U64, patient: bool)
    ensures IsInShape(Session(d, offset, offset, None, [], patient))
  {
  }

  /** Whether the session goes on does not depend on the unpacking. */
  lemma SameContinuation(u: Receiver, disk: Disk, session: Session, frame: SecureFrame)
    requires !session.patient
    ensures var r, after := FrameResult(u, disk, session, frame), SessionAfter(u.env.hash, disk.store, session, frame);
      (after.Some? <==> r.Continue?) && (r.Continue? ==> after.value == r.session)
  {
    hide UnpackOnDisk, CompleteResult, AppendResult;
  }

  /** Over any run at all, honest or not, every direct session has taken nothing or the announced header and then chunks,
      and the offset that it appends at is the one it began with and the bytes it took. */
  lemma {:induction false} DirectSessionsStayInShape(u: Receiver, w: World, moves: seq<Move>)
    requires DirectInShape(w)
    ensures DirectInShape(Turns(u, w, moves))
    decreases |moves|
  {
    if moves != [] {
      TurnKeepsShape(u, w, moves[0]);
      hide Turn, DirectInShape;
      DirectSessionsStayInShape(u, Turn(u, w, moves[0]), moves[1..]);
    }
  }
}
