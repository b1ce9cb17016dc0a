/** Transfers make progress: between crashes and expiries, whatever the sessions of other transfers do in
    between, as long as no archive that is unpacked reaches into the resume directory, every byte that a session
    takes raises the offset that the next one is offered. */
module TransferProgress {
  import opened Bytes
  import opened SecureChannel
  import opened ResumeStore
  import opened ResumeLaws
  import opened ReceiverDisk
  import opened DiskLaws
  import opened DirectTransfer
  import opened ReceiverRuns
  import T = TransferRuns

  /** The bytes recorded of a transfer, and when they were. */
  datatype Mark = Mark(offset: nat, time: nat)

  predicate IsSessionOf(w: T.World, id: nat, d: Descriptor) {
    id in w.sessions && KeyOf(w.sessions[id].descriptor) == KeyOf(d)
  }

  predicate IsOwn(w: T.World, m: T.Move, d: Descriptor) {
    match m
    case Open(_, d', _, _, _) => KeyOf(d') == KeyOf(d)
    case Accept(id, _, _, _) => IsSessionOf(w, id, d)
    case _ => false
  }

  /** A chunk for a session that has its header. */
  predicate IsTaken(w: T.World, m: T.Move, d: Descriptor) {
    m.Accept? && IsOwn(w, m, d) && m.frame.ArchiveChunk? && w.sessions[m.id].compression.Some?
  }

  /** No crash, no session that overlaps another on this partial, no end of the transfer; and nobody opens a
      session, which cleans up expired partials, after this one has expired. */
  ghost predicate Steady(w: T.World, m: T.Move, d: Descriptor, mark: Mark) {
    match m
    case Open(id, d', _, now, _) =>
      && id !in w.sessions && now <= mark.time + PARTIAL_RETENTION
      && (IsOwn(w, m, d) ==> d' == d && forall other :: !IsSessionOf(w, other, d))
    case Accept(id, frame, _, _) =>
      && (IsTaken(w, m, d) ==> mark.offset + |frame.bytes| <= d.archiveBytes)
      && (IsOwn(w, m, d) && w.sessions[id].compression.Some? ==> !frame.Done?)
    case Drop(_) => true
    case Crash(_, _) => false
  }

  function Moved(w: T.World, m: T.Move, d: Descriptor, mark: Mark): Mark {
    if IsTaken(w, m, d) then Mark(mark.offset + |m.frame.bytes|, m.now)
    else if m.Open? && IsOwn(w, m, d) && mark.offset == 0 then Mark(0, m.now)
    else mark
  }

  /** The store records the mark, and a live session of the transfer stands there. */
  ghost predicate InStep(w: T.World, d: Descriptor, mark: Mark) {
    && mark.offset <= d.archiveBytes
    && Settled(w.store, d, mark.offset, mark.time)
    && forall id :: IsSessionOf(w, id, d) ==> w.sessions[id].descriptor == d && w.sessions[id].offset == mark.offset
  }

  lemma SettledElsewhere(s: Store, s': Store, d: Descriptor, mark: Mark)
    requires mark.offset <= d.archiveBytes && Settled(s, d, mark.offset, mark.time)
    requires KeyOf(d) in s' && s'[KeyOf(d)] == s[KeyOf(d)]
    ensures Settled(s', d, mark.offset, mark.time)
  {
  }

  lemma OtherOpenKeeps(s: Store, other: Descriptor, d: Descriptor, listing: seq<PartialKey>, now: nat, mark: Mark)
    requires mark.offset <= d.archiveBytes && Settled(s, d, mark.offset, mark.time)
    requires KeyOf(other) != KeyOf(d) && now <= mark.time + PARTIAL_RETENTION
    ensures Settled(Run(s, ResumeEffects(s, listing, other, now)), d, mark.offset, mark.time)
  {
    ResumeOutcome(s, listing, other, now);
    assert !Stale(s[KeyOf(d)], now);
    hide ResumeEffects, Run, Settled;
    SettledElsewhere(s, Run(s, ResumeEffects(s, listing, other, now)), d, mark);
  }

  lemma OwnOpenKeeps(s: Store, d: Descriptor, listing: seq<PartialKey>, now: nat, mark: Mark)
    requires mark.offset <= d.archiveBytes && Settled(s, d, mark.offset, mark.time) && now <= mark.time + PARTIAL_RETENTION
    ensures ResumeOffset(s, listing, d, now) == mark.offset
    ensures Settled(Run(s, ResumeEffects(s, listing, d, now)), d, mark.offset, if mark.offset == 0 then now else mark.time)
  {
    SettledResumes(s, listing, d, now, mark.offset, mark.time);
    var key := KeyOf(d);
    var opening := OpeningEffects(s, listing, d, now);
    CleanupKeepsFresh(s, listing, now);
    RunConcat(s, CleanupEffects(s, listing, now), [MakeDir(key)]);
    RunOne(Run(s, CleanupEffects(s, listing, now)), MakeDir(key));
    var s1 := Run(s, opening);
    assert key in s1 && s1[key] == s[key];
    RunConcat(s, opening, ClaimEffects(s1[key], d, now));
    hide OpeningEffects, Stale, ResumeOffset;
    ClaimSettles(s1, d, now, mark);
  }

  lemma ClaimSettles(s: Store, d: Descriptor, now: nat, mark: Mark)
    requires mark.offset <= d.archiveBytes && Settled(s, d, mark.offset, mark.time)
    ensures Settled(Run(s, ClaimEffects(s[KeyOf(d)], d, now)), d, mark.offset, if mark.offset == 0 then now else mark.time)
  {
    var key := KeyOf(d);
    var dir := s[key];
    var clear := if !Keeps(dir, d) && (dir.part.Some? || dir.meta.Some?) then RemovePartialEffects(key) else [];
    var write := if OffsetOf(dir, d) == 0 then WriteMetadataEffects(d, 0, now) else [];
    RunConcat(s, clear, write);
    RunNothing(s);
    ClearOutcome(s, key);
    WriteOutcome(Run(s, clear), d, now);
    RunNothing(Run(s, clear));
    hide Run, RemovePartialEffects, WriteMetadataEffects;
  }

  lemma OpenKeepsStep(hash: Bytes -> ResourceId, w: T.World, m: T.Move, d: Descriptor, mark: Mark)
    requires m.Open? && InStep(w, d, mark) && Steady(w, m, d, mark)
    ensures InStep(T.Turn(hash, w, m), d, Moved(w, m, d, mark))
  {
    if KeyOf(m.descriptor) == KeyOf(d) {
      OwnOpenKeeps(w.store, d, m.listing, m.now, mark);
    } else {
      OtherOpenKeeps(w.store, m.descriptor, d, m.listing, m.now, mark);
    }
    hide Settled, ResumeEffects, ResumeOffset, Run;
  }

  lemma AppendSettles(s: Store, d: Descriptor, bytes: Bytes, now: nat, mark: Mark)
    requires mark.offset <= d.archiveBytes && Settled(s, d, mark.offset, mark.time) && mark.offset + |bytes| <= d.archiveBytes
    ensures Settled(Run(s, AppendEffects(s, mark.offset, d, bytes, now)), d, mark.offset + |bytes|, now)
  {
    AppendOutcome(s, mark.offset, d, bytes, now);
    hide AppendEffects, Run;
  }

  lemma ChunkKeepsStep(hash: Bytes -> ResourceId, w: T.World, m: T.Move, d: Descriptor, mark: Mark)
    requires IsTaken(w, m, d) && InStep(w, d, mark) && Steady(w, m, d, mark) && OneSession(w, d)
    ensures InStep(T.Turn(hash, w, m), d, Moved(w, m, d, mark))
  {
    T.ChunkTurn(hash, w, m);
    AppendSettles(w.store, d, m.frame.bytes, m.now, mark);
    SettledIsThere(w.store, d, mark);
    hide T.Turn, Settled, AppendEffects, Run;
    var w' := T.Turn(hash, w, m);
    assert IsSessionOf(w, m.id, d) && KeyOf(d) in w.store;
    forall id | IsSessionOf(w', id, d)
      ensures w'.sessions[id].descriptor == d && w'.sessions[id].offset == mark.offset + |m.frame.bytes|
    {
      assert IsSessionOf(w, id, d);
    }
  }

  lemma SettledIsThere(s: Store, d: Descriptor, mark: Mark)
    requires mark.offset <= d.archiveBytes && Settled(s, d, mark.offset, mark.time)
    ensures KeyOf(d) in s
  {
  }

  /** At most one session of the transfer is live. */
  ghost predicate OneSession(w: T.World, d: Descriptor) {
    forall id, id' :: IsSessionOf(w, id, d) && IsSessionOf(w, id', d) ==> id == id'
  }

  lemma TurnKeepsOneSession(hash: Bytes -> ResourceId, w: T.World, m: T.Move, d: Descriptor, mark: Mark)
    requires OneSession(w, d) && Steady(w, m, d, mark)
    ensures OneSession(T.Turn(hash, w, m), d)
  {
    hide AppendResult, CompleteResult, ResumeOffset, T.EffectsOf, Run;
    var w' := T.Turn(hash, w, m);
    forall id | IsSessionOf(w', id, d) ensures IsSessionOf(w, id, d) || (m.Open? && id == m.id && IsOwn(w, m, d)) {
    }
  }

  /** Frames of other sessions, headers and refused frames. */
  lemma OtherFrameKeepsStep(hash: Bytes -> ResourceId, w: T.World, m: T.Move, d: Descriptor, mark: Mark)
    requires m.Accept? && !IsTaken(w, m, d) && InStep(w, d, mark) && Steady(w, m, d, mark)
    ensures InStep(T.Turn(hash, w, m), d, mark)
  {
    if m.id in w.sessions {
      StoreAfterFrame(hash, w, m);
      OtherFrameOnStore(hash, w, m, d, mark);
      OtherFrameOnSessions(hash, w, m, d, mark);
      hide T.EffectsOf, T.Turn, Run, Settled, IsTaken, Steady;
    }
  }

  lemma OtherFrameOnStore(hash: Bytes -> ResourceId, w: T.World, m: T.Move, d: Descriptor, mark: Mark)
    requires m.Accept? && m.id in w.sessions && !IsTaken(w, m, d) && InStep(w, d, mark) && Steady(w, m, d, mark)
    ensures Settled(Run(w.store, T.EffectsOf(hash, w, m)), d, mark.offset, mark.time)
  {
    var effects := T.EffectsOf(hash, w, m);
    T.FrameEffectsStayHome(hash, w.store, w.sessions[m.id], m.frame, m.now);
    SettledIsThere(w.store, d, mark);
    if IsOwn(w, m, d) {
      assert effects == [];
      RunNothing(w.store);
    } else {
      assert CrashState(w.store, effects, Run(w.store, effects));
      CrashElsewhere(w.store, effects, Run(w.store, effects), KeyOf(d));
    }
    hide FrameEffects, Run, Settled;
    SettledElsewhere(w.store, Run(w.store, effects), d, mark);
  }

  /** A frame that appends nothing leaves its session where it stands. */
  lemma StandsStill(hash: Bytes -> ResourceId, s: Store, session: Session, frame: SecureFrame)
    requires frame.ArchiveChunk? ==> session.compression.None?
    ensures var after := SessionAfter(hash, s, session, frame); after.Some? ==> after.value.offset == session.offset
  {
    hide AppendResult, CompleteResult;
  }

  lemma OtherFrameOnSessions(hash: Bytes -> ResourceId, w: T.World, m: T.Move, d: Descriptor, mark: Mark)
    requires m.Accept? && m.id in w.sessions && !IsTaken(w, m, d) && InStep(w, d, mark)
    ensures var w' := T.Turn(hash, w, m);
      forall id :: IsSessionOf(w', id, d) ==> w'.sessions[id].descriptor == d && w'.sessions[id].offset == mark.offset
  {
    var w' := T.Turn(hash, w, m);
    T.SessionKeepsItself(hash, w.store, w.sessions[m.id], m.frame);
    if IsOwn(w, m, d) {
      StandsStill(hash, w.store, w.sessions[m.id], m.frame);
    }
    hide T.EffectsOf, Run, FrameOutcome, SessionAfter, Settled;
    forall id | IsSessionOf(w', id, d) ensures w'.sessions[id].descriptor == d && w'.sessions[id].offset == mark.offset {
      assert IsSessionOf(w, id, d);
    }
  }

  lemma StoreAfterFrame(hash: Bytes -> ResourceId, w: T.World, m: T.Move)
    requires m.Accept? && m.id in w.sessions
    ensures T.Turn(hash, w, m).store == Run(w.store, T.EffectsOf(hash, w, m))
  {
    hide T.EffectsOf, FrameOutcome, Run;
  }

  lemma StoreTurnKeepsStep(hash: Bytes -> ResourceId, w: T.World, m: T.Move, d: Descriptor, mark: Mark)
    requires InStep(w, d, mark) && OneSession(w, d) && Steady(w, m, d, mark)
    ensures InStep(T.Turn(hash, w, m), d, Moved(w, m, d, mark)) && OneSession(T.Turn(hash, w, m), d)
  {
    TurnKeepsOneSession(hash, w, m, d, mark);
    hide InStep, OneSession;
    if m.Open? {
      OpenKeepsStep(hash, w, m, d, mark);
    } else if IsTaken(w, m, d) {
      ChunkKeepsStep(hash, w, m, d, mark);
    } else if m.Accept? {
      OtherFrameKeepsStep(hash, w, m, d, mark);
    } else {
      DropKeepsStep(hash, w, m, d, mark);
    }
  }

  lemma DropKeepsStep(hash: Bytes -> ResourceId, w: T.World, m: T.Move, d: Descriptor, mark: Mark)
    requires m.Drop? && InStep(w, d, mark)
    ensures InStep(T.Turn(hash, w, m), d, mark)
  {
  }

  // ---------------------------------------------------------------------------------------------
  // On the whole disk, with channels and unpacking.

  /** Steady moves that unpack nothing into the resume directory. */
  ghost predicate SteadyRun(u: Receiver, w: World, moves: seq<Move>, d: Descriptor, mark: Mark)
    decreases |moves|
  {
    moves == [] || (Steady(StoreWorld(w), StoreMove(u, w, moves[0]), d, mark) && KeptOut(u, w, moves[0])
                    && SteadyRun(u, Turn(u, w, moves[0]), moves[1..], d, NextMark(u, w, moves[0], d, mark)))
  }

  function NextMark(u: Receiver, w: World, m: Move, d: Descriptor, mark: Mark): Mark {
    Moved(StoreWorld(w), StoreMove(u, w, m), d, mark)
  }

  function LastMark(u: Receiver, w: World, moves: seq<Move>, d: Descriptor, mark: Mark): Mark
    decreases |moves|
  {
    if moves == [] then mark else LastMark(u, Turn(u, w, moves[0]), moves[1..], d, NextMark(u, w, moves[0], d, mark))
  }

  /** The bytes that a session of the transfer takes from a move. */
  function TakenFrom(u: Receiver, w: World, m: Move, d: Descriptor): Bytes {
    if IsTaken(StoreWorld(w), StoreMove(u, w, m), d) then StoreMove(u, w, m).frame.bytes else []
  }

  /** How many bytes the sessions of the transfer take in a run. */
  function TakenBytes(u: Receiver, w: World, moves: seq<Move>, d: Descriptor): nat
    decreases |moves|
  {
    if moves == [] then 0 else |TakenFrom(u, w, moves[0], d)| + TakenBytes(u, Turn(u, w, moves[0]), moves[1..], d)
  }

  /** How many moves bring them any. */
  function TakingMoves(u: Receiver, w: World, moves: seq<Move>, d: Descriptor): nat
    decreases |moves|
  {
    if moves == [] then 0
    else (if TakenFrom(u, w, moves[0], d) == [] then 0 else 1) + TakingMoves(u, Turn(u, w, moves[0]), moves[1..], d)
  }

  /** The disk is tidy, its store records the mark, and at most one session of the transfer is live and stands
      there. */
  ghost predicate OnTrack(u: Receiver, w: World, d: Descriptor, mark: Mark) {
    Tidy(u, w.disk.rest) && InStep(StoreWorld(w), d, mark) && OneSession(StoreWorld(w), d)
  }

  lemma AgreeingKeeps(a: T.World, b: T.World, d: Descriptor, mark: Mark)
    requires Agree(a, b) && InStep(a, d, mark) && OneSession(a, d)
    ensures InStep(b, d, mark) && OneSession(b, d)
  {
    hide Settled;
    assert forall id :: IsSessionOf(b, id, d) <==> IsSessionOf(a, id, d);
  }

  /** What the machine of the store does follows the machine of the disk, unless the process crashes. */
  lemma StoreFollows(u: Receiver, w: World, m: Move)
    requires Tidy(u, w.disk.rest) && ReadsBack(u.metadata) && KeptOut(u, w, m) && !m.Crash? && !m.Write?
    ensures Agree(T.Turn(u.env.hash, StoreWorld(w), StoreMove(u, w, m)), StoreWorld(Turn(u, w, m)))
    ensures Tidy(u, Turn(u, w, m).disk.rest)
  {
    hide Tidy, ReadsBack, KeptOut, FrameOf, BaseDisk;
    match m
    case Open(_, _, _, _, _, _, _, _) =>
      NothingUnpacked(u, w, m);
      OpenFollows(u, w, m);
    case Arrive(id, _, _) =>
      if id in w.links {
        BaseIsTidy(u, w, m);
        ArriveFollows(u, w, m);
        RestAfterArrive(u, w, m);
      } else {
        StrangerIsDropped(u, w, m);
      }
    case Drop(id) =>
      assert StoreWorld(Turn(u, w, m)).sessions == StoreWorld(w).sessions - {id};
      RunNothing(w.disk.store);
  }

  lemma StrangerIsDropped(u: Receiver, w: World, m: Move)
    requires m.Arrive? && m.id !in w.links
    ensures Turn(u, w, m) == w
    ensures Agree(T.Turn(u.env.hash, StoreWorld(w), StoreMove(u, w, m)), StoreWorld(w))
  {
    RunNothing(w.disk.store);
    assert StoreWorld(w).sessions - {m.id} == StoreWorld(w).sessions;
  }

  /** One steady move keeps the recorded bytes and the live session on track. */
  lemma TurnKeepsStep(u: Receiver, w: World, m: Move, d: Descriptor, mark: Mark)
    requires ReadsBack(u.metadata) && OnTrack(u, w, d, mark)
    requires Steady(StoreWorld(w), StoreMove(u, w, m), d, mark) && KeptOut(u, w, m)
    ensures OnTrack(u, Turn(u, w, m), d, NextMark(u, w, m, d, mark))
  {
    hide Tidy, ReadsBack, KeptOut, FrameOf, InStep, OneSession, UnpackedBy;
    if m.Write? {
      assert StoreWorld(Turn(u, w, m)).sessions == StoreWorld(w).sessions;
    } else {
      StoreTurnKeepsStep(u.env.hash, StoreWorld(w), StoreMove(u, w, m), d, mark);
      StoreFollows(u, w, m);
      AgreeingKeeps(T.Turn(u.env.hash, StoreWorld(w), StoreMove(u, w, m)), StoreWorld(Turn(u, w, m)), d,
                    NextMark(u, w, m, d, mark));
    }
  }

  lemma {:induction false} RunKeepsStep(u: Receiver, w: World, moves: seq<Move>, d: Descriptor, mark: Mark)
    requires ReadsBack(u.metadata) && OnTrack(u, w, d, mark) && SteadyRun(u, w, moves, d, mark)
    ensures OnTrack(u, Turns(u, w, moves), d, LastMark(u, w, moves, d, mark))
    decreases |moves|
  {
    hide ReadsBack, OnTrack, Steady, KeptOut, Turn, NextMark;
    if moves != [] {
      TurnKeepsStep(u, w, moves[0], d, mark);
      RunKeepsStep(u, Turn(u, w, moves[0]), moves[1..], d, NextMark(u, w, moves[0], d, mark));
    }
  }

  lemma MarkMoves(u: Receiver, w: World, m: Move, d: Descriptor, mark: Mark)
    ensures NextMark(u, w, m, d, mark).offset == mark.offset + |TakenFrom(u, w, m, d)|
  {
    hide StoreMove, IsTaken;
  }

  lemma {:induction false} MarksAddUp(u: Receiver, w: World, moves: seq<Move>, d: Descriptor, mark: Mark)
    ensures LastMark(u, w, moves, d, mark).offset == mark.offset + TakenBytes(u, w, moves, d)
    ensures TakingMoves(u, w, moves, d) <= TakenBytes(u, w, moves, d)
    decreases |moves|
  {
    hide Turn, TakenFrom, NextMark;
    if moves != [] {
      MarkMoves(u, w, moves[0], d, mark);
      MarksAddUp(u, Turn(u, w, moves[0]), moves[1..], d, NextMark(u, w, moves[0], d, mark));
    }
  }

  /** After a steady run, which may interleave any number of sessions of other transfers, a session that opens
      before the partial expires is offered as many bytes more as its predecessors took. So no more moves than the
      archive has bytes bring the transfer any: that many are the most that a transfer needs. */
  lemma RunsProgress(u: Receiver, w: World, moves: seq<Move>, d: Descriptor, mark: Mark, listing: seq<PartialKey>, now: nat)
    requires ReadsBack(u.metadata) && OnTrack(u, w, d, mark) && SteadyRun(u, w, moves, d, mark)
    requires now <= LastMark(u, w, moves, d, mark).time + PARTIAL_RETENTION
    ensures ResumeOffset(Turns(u, w, moves).disk.store, listing, d, now) == mark.offset + TakenBytes(u, w, moves, d)
    ensures mark.offset + TakingMoves(u, w, moves, d) <= mark.offset + TakenBytes(u, w, moves, d) <= d.archiveBytes
  {
    RunKeepsStep(u, w, moves, d, mark);
    MarksAddUp(u, w, moves, d, mark);
    hide LastMark, Turns, TakenBytes, TakingMoves, SteadyRun, OneSession, Settled, ResumeOffset, Tidy, ReadsBack;
    var last := LastMark(u, w, moves, d, mark);
    SettledResumes(Turns(u, w, moves).disk.store, listing, d, now, last.offset, last.time);
  }

  lemma FirstOnStore(hash: Bytes -> ResourceId, w: T.World, m: T.Move, d: Descriptor) returns (mark: Mark)
    requires m.Open? && m.descriptor == d && forall id :: !IsSessionOf(w, id, d)
    ensures OneSession(T.Turn(hash, w, m), d) && InStep(T.Turn(hash, w, m), d, mark)
    ensures mark.offset == ResumeOffset(w.store, m.listing, d, m.now)
  {
    ResumeOutcome(w.store, m.listing, d, m.now);
    hide ResumeEffects, ResumeOffset, Run;
    var w' := T.Turn(hash, w, m);
    forall id | IsSessionOf(w', id, d) ensures id == m.id {
      assert id != m.id ==> IsSessionOf(w, id, d);
    }
    mark := Mark(ResumeOffset(w.store, m.listing, d, m.now), w'.store[KeyOf(d)].meta.value.metadata.updatedAt);
  }

  /** The first session puts any tidy disk on track. */
  lemma FirstIsInStep(u: Receiver, w: World, m: Move, d: Descriptor)
    requires m.Open? && m.descriptor == d && Tidy(u, w.disk.rest) && forall id :: !IsSessionOf(StoreWorld(w), id, d)
    ensures exists mark :: OnTrack(u, Turn(u, w, m), d, mark) && mark.offset == ResumeOffset(w.disk.store, m.listing, d, m.now)
  {
    var mark := FirstOnStore(u.env.hash, StoreWorld(w), StoreMove(u, w, m), d);
    NothingUnpacked(u, w, m);
    OpenFollows(u, w, m);
    hide ResumeEffects, ResumeOffset, Run, BaseDisk, UnpackedBy, FrameOf, Tidy, InStep, OneSession;
    AgreeingKeeps(T.Turn(u.env.hash, StoreWorld(w), StoreMove(u, w, m)), StoreWorld(Turn(u, w, m)), d, mark);
    assert OnTrack(u, Turn(u, w, m), d, mark);
  }
}
