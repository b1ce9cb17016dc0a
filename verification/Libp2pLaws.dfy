/** Runs of the libp2p receiver in which every step succeeds: what one session can do, and in which order. */
module Libp2pLaws {
  import opened Bytes
  import opened SecureChannel
  import opened ResumeLaws
  import opened ResumeStore
  import opened FileTree
  import opened ReceiverDisk
  import opened Transcripts
  import opened Unpacking
  import opened Libp2pReceiver
  import D = DirectTransfer

  /** An act of the session that the `incarnation`-th accepted introduction opened. */
  datatype Entry = Entry(incarnation: nat, act: Act)

  datatype World = World(sessions: Sessions, disk: Disk, introductions: nat, current: map<PeerId, nat>, log: seq<Entry>)

  function FreshWorld(rest: Tree): World {
    World(map[], Disk(map[], rest), 0, map[], [])
  }

  function Record(w: World, e: Event, act: Act): World
    requires e.Request? || e.ResponseSent?
  {
    if act.Introduced? then
      w.(introductions := w.introductions + 1, current := w.current[e.peer := w.introductions],
          log := w.log + [Entry(w.introductions, act)])
    else if e.peer !in w.current then w
    else
      var log := w.log + [Entry(w.current[e.peer], act)];
      if act.Yielded? || act.Dropped? then w.(current := w.current - {e.peer}, log := log) else w.(log := log)
  }

  /** `None` when the step fails, which ends the receiver. */
  function Advance(o: Options, w: World, e: Event): Option<World> {
    var t := OnEvent(o, w.sessions, w.disk, e);
    if t.reply.Fail? then None
    else
      var w' := w.(sessions := t.sessions, disk := DiskAfter(t));
      if t.act.Some? && (e.Request? || e.ResponseSent?) then Some(Record(w', e, t.act.value)) else Some(w')
  }

  function After(o: Options, w: World, events: seq<Event>): Option<World>
    decreases |events|
  {
    if events == [] then Some(w)
    else
      match Advance(o, w, events[0])
      case None => None
      case Some(w') => After(o, w', events[1..])
  }

  /** The acts of one session. */
  function ActsOf(log: seq<Entry>, incarnation: nat): seq<Act> {
    if log == [] then []
    else
      var last := log[|log| - 1];
      ActsOf(log[..|log| - 1], incarnation) + if last.incarnation == incarnation then [last.act] else []
  }

  // ---------------------------------------------------------------------------------------------
  // The order of a session's acts.

  datatype Phase =
    | Start
    | Intro(d: Descriptor)
    | Ready(d: Descriptor)
    | Streaming(d: Descriptor, done: Option<(RequestId, Bytes)>, rejected: Option<RequestId>)
    | Closed
    | Illegal

  /** The archive has the announced length and hash, and it unpacks onto those files. */
  predicate IsArchiveOf(u: ReceiverDisk.Receiver, d: Descriptor, archive: Bytes, before: Tree) {
    && |archive| == d.archiveBytes && u.env.hash(archive) == d.resourceId
    && UnpackArchive(u.env, u.frames, u.packer, before, d.compression, archive).result.Ok?
  }

  function Follow(u: ReceiverDisk.Receiver, p: Phase, act: Act): Phase {
    match (p, act)
    case (Start, Introduced(d)) => Intro(d)
    case (Intro(d), Finished) => Ready(d)
    case (Ready(d), HeaderAccepted(c)) => if c == d.compression then Streaming(d, None, None) else Illegal
    case (Streaming(_, _, _), Appended(_)) => p
    case (Streaming(d, _, rejected), Completed(r, archive, before)) =>
      if IsArchiveOf(u, d, archive, before) then Streaming(d, Some((r, archive)), rejected) else Illegal
    case (Streaming(d, done, _), Rejected(r)) => Streaming(d, done, Some(r))
    case (Streaming(_, done, _), Yielded(r, archive)) => if done == Some((r, archive)) then Closed else Illegal
    case (Streaming(_, _, rejected), Dropped(r)) => if rejected == Some(r) then Closed else Illegal
    case _ => Illegal
  }

  function PhaseOf(u: ReceiverDisk.Receiver, acts: seq<Act>): Phase {
    if acts == [] then Start else Follow(u, PhaseOf(u, acts[..|acts| - 1]), acts[|acts| - 1])
  }

  lemma PhaseNext(u: ReceiverDisk.Receiver, acts: seq<Act>, act: Act)
    ensures PhaseOf(u, acts + [act]) == Follow(u, PhaseOf(u, acts), act)
  {
    assert (acts + [act])[..|acts|] == acts;
  }

  lemma ActsNext(log: seq<Entry>, e: Entry, incarnation: nat)
    ensures ActsOf(log + [e], incarnation) == ActsOf(log, incarnation) + if e.incarnation == incarnation then [e.act] else []
  {
    assert (log + [e])[..|log|] == log;
  }

  /** The fields of a session are those of its phase. */
  predicate Fits(s: Session, p: Phase) {
    match p
    case Intro(d) =>
      && s.descriptor == d && s.opaqueServer.Some? && s.serverHandshake.Some? && s.aead.None?
      && s.compression.None? && s.pendingResult.None? && s.pendingError.None?
    case Ready(d) =>
      && s.descriptor == d && s.opaqueServer.None? && s.serverHandshake.None? && s.aead.Some?
      && s.compression.None? && s.pendingResult.None? && s.pendingError.None?
    case Streaming(d, done, rejected) =>
      && s.descriptor == d && s.opaqueServer.None? && s.serverHandshake.None? && s.aead.Some?
      && s.compression == Some(d.compression) && s.pendingResult == done && s.pendingError == rejected
    case _ => false
  }

  /** What a step may do to the session of its peer, seen from its phase. */
  predicate Moves(u: ReceiverDisk.Receiver, peer: PeerId, before: Sessions, p: Phase, t: Turn) {
    match t.act
    case None => (peer in t.sessions <==> peer in before) && (peer in before ==> Fits(t.sessions[peer], p))
    case Some(Introduced(d)) => peer in t.sessions && Fits(t.sessions[peer], Intro(d))
    case Some(act) =>
      var p' := Follow(u, p, act);
      && peer in before && !p'.Illegal?
      && (if act.Yielded? || act.Dropped? then peer !in t.sessions else peer in t.sessions && Fits(t.sessions[peer], p'))
  }

  ghost predicate OthersStay(peer: PeerId, before: Sessions, after: Sessions) {
    forall q :: q != peer ==> (q in before <==> q in after) && (q in before ==> before[q] == after[q])
  }

  lemma IntroMoves(o: Options, sessions: Sessions, disk: Disk, e: Event, p: Phase)
    requires e.Request? && e.frame.ClientIntro?
    requires e.peer in sessions ==> Fits(sessions[e.peer], p)
    ensures var t := OnIntro(o, sessions, disk, e.peer, e.frame, e.random, e.listing, e.now);
            !t.reply.Fail? ==> Moves(o.u, e.peer, sessions, p, t) && OthersStay(e.peer, sessions, t.sessions)
  {
    hide ResumeEffects, ResumeOffset, Libp2pTranscript, Follow;
  }

  lemma FinishMoves(o: Options, sessions: Sessions, disk: Disk, e: Event, p: Phase)
    requires e.Request? && e.frame.ClientFinish?
    requires e.peer in sessions ==> Fits(sessions[e.peer], p)
    ensures var t := OnFinish(o, sessions, disk, e.peer, e.frame);
            !t.reply.Fail? ==> Moves(o.u, e.peer, sessions, p, t) && OthersStay(e.peer, sessions, t.sessions)
  {
  }

  lemma RequestMoves(o: Options, sessions: Sessions, disk: Disk, e: Event, p: Phase)
    requires e.Request? && !OnRequest(o, sessions, disk, e).reply.Fail?
    requires e.peer in sessions ==> Fits(sessions[e.peer], p)
    ensures Moves(o.u, e.peer, sessions, p, OnRequest(o, sessions, disk, e))
    ensures OthersStay(e.peer, sessions, OnRequest(o, sessions, disk, e).sessions)
  {
    if e.frame.Secure? {
      hide *;
      SecureMoves(o, sessions, disk, e, p);
    } else if e.frame.ClientIntro? {
      IntroMoves(o, sessions, disk, e, p);
      hide OnIntro, OnFinish, OnSecure, Fits, Follow, Moves, OthersStay;
    } else if e.frame.ClientFinish? {
      FinishMoves(o, sessions, disk, e, p);
      hide OnIntro, OnFinish, OnSecure, Fits, Follow, Moves, OthersStay;
    } else {
      hide OnIntro, OnFinish, OnSecure, Fits, Follow;
    }
  }

  lemma HeaderMoves(u: ReceiverDisk.Receiver, sessions: Sessions, disk: Disk, peer: PeerId, s: Session, c: Compression,
                    p: Phase)
    requires peer in sessions && Fits(s, p) && s.aead.Some?
    ensures var t := OnHeader(sessions, disk, peer, s, c);
            Moves(u, peer, sessions, p, t) && OthersStay(peer, sessions, t.sessions)
  {
  }

  lemma ChunkMoves(u: ReceiverDisk.Receiver, sessions: Sessions, disk: Disk, peer: PeerId, s: Session, bytes: Bytes, now: nat,
                   p: Phase)
    requires peer in sessions && Fits(s, p) && !OnChunk(sessions, disk, peer, s, bytes, now).reply.Fail?
    ensures var t := OnChunk(sessions, disk, peer, s, bytes, now);
            Moves(u, peer, sessions, p, t) && OthersStay(peer, sessions, t.sessions)
  {
    hide AppendEffects, AppendResult, OffsetAfter;
  }

  /** The archive is what the session announced, and it unpacked. */
  predicate Checked(u: ReceiverDisk.Receiver, s: Session, archive: Bytes, before: Tree) {
    && |archive| == s.descriptor.archiveBytes && u.env.hash(archive) == s.descriptor.resourceId
    && s.compression.Some? && UnpackArchive(u.env, u.frames, u.packer, before, s.compression.value, archive).result.Ok?
  }

  lemma EndIsChecked(o: Options, sessions: Sessions, disk: Disk, peer: PeerId, s: Session, request: RequestId)
    ensures var t := OnDone(o, sessions, disk, peer, s, request);
      !t.reply.Fail? ==>
        && s.compression.Some? && t.act.Some? && (t.act.value.Completed? || t.act.value.Rejected?)
        && (t.act.value.Completed? ==>
              && t.act.value.request == request && Checked(o.u, s, t.act.value.archive, t.act.value.before)
              && t.sessions == sessions[peer := s.(pendingResult := Some((request, t.act.value.archive)))])
        && (t.act.value.Rejected? ==>
              t.act.value.request == request && t.sessions == sessions[peer := s.(pendingError := Some(request))])
  {
    hide FullTree, SplitDisk, UnpackArchive, RemovePartialEffects, CompleteEffects;
  }

  lemma DoneMoves(o: Options, sessions: Sessions, disk: Disk, peer: PeerId, s: Session, request: RequestId, p: Phase)
    requires peer in sessions && Fits(s, p) && !OnDone(o, sessions, disk, peer, s, request).reply.Fail?
    ensures var t := OnDone(o, sessions, disk, peer, s, request);
            Moves(o.u, peer, sessions, p, t) && OthersStay(peer, sessions, t.sessions)
  {
    EndIsChecked(o, sessions, disk, peer, s, request);
    hide OnDone, UnpackArchive;
  }

  lemma SecureMoves(o: Options, sessions: Sessions, disk: Disk, e: Event, p: Phase)
    requires e.Request? && e.frame.Secure? && !OnRequest(o, sessions, disk, e).reply.Fail?
    requires e.peer in sessions ==> Fits(sessions[e.peer], p)
    ensures Moves(o.u, e.peer, sessions, p, OnRequest(o, sessions, disk, e))
    ensures OthersStay(e.peer, sessions, OnRequest(o, sessions, disk, e).sessions)
  {
    hide Decrypted, OnHeader, OnChunk, OnDone, Moves, OthersStay;
    var (s, r) := OpenChunk(o, sessions[e.peer], e.frame.encrypted);
    assert Fits(s, p);
    match r.value
    case Header(compression) => HeaderMoves(o.u, sessions, disk, e.peer, s, compression, p);
    case ArchiveChunk(bytes) => ChunkMoves(o.u, sessions, disk, e.peer, s, bytes, e.now, p);
    case Done => DoneMoves(o, sessions, disk, e.peer, s, e.request, p);
  }

  lemma ResponseMoves(u: ReceiverDisk.Receiver, sessions: Sessions, disk: Disk, peer: PeerId, request: RequestId, p: Phase)
    requires peer in sessions ==> Fits(sessions[peer], p)
    ensures Moves(u, peer, sessions, p, OnResponseSent(sessions, disk, peer, request))
    ensures OthersStay(peer, sessions, OnResponseSent(sessions, disk, peer, request).sessions)
  {
  }

  // ---------------------------------------------------------------------------------------------
  // Whole runs.

  predicate CurrentOk(w: World) {
    && w.current.Keys == w.sessions.Keys
    && (forall peer :: peer in w.current ==> w.current[peer] < w.introductions)
    && (forall peer, other :: peer in w.current && other in w.current && w.current[peer] == w.current[other] ==> peer == other)
    && (forall entry :: entry in w.log ==> entry.incarnation < w.introductions)
  }

  predicate AllFit(u: ReceiverDisk.Receiver, w: World)
    requires w.current.Keys == w.sessions.Keys
  {
    forall peer :: peer in w.sessions ==> Fits(w.sessions[peer], PhaseOf(u, ActsOf(w.log, w.current[peer])))
  }

  predicate AllLegal(u: ReceiverDisk.Receiver, w: World) {
    forall n: nat :: n < w.introductions ==> !PhaseOf(u, ActsOf(w.log, n)).Illegal?
  }

  predicate Orderly(u: ReceiverDisk.Receiver, w: World) {
    CurrentOk(w) && AllFit(u, w) && AllLegal(u, w)
  }

  lemma {:induction false} NothingYet(log: seq<Entry>, n: nat)
    requires forall entry :: entry in log ==> entry.incarnation < n
    ensures ActsOf(log, n) == []
  {
    if log != [] {
      assert log[|log| - 1] in log;
      NothingYet(log[..|log| - 1], n);
    }
  }

  function PhaseIn(u: ReceiverDisk.Receiver, w: World, peer: PeerId): Phase {
    if peer in w.current then PhaseOf(u, ActsOf(w.log, w.current[peer])) else Start
  }

  lemma PeerEventKeeps(o: Options, w: World, e: Event)
    requires Orderly(o.u, w) && (e.Request? || e.ResponseSent?) && Advance(o, w, e).Some?
    ensures Orderly(o.u, Advance(o, w, e).value)
  {
    var t := OnEvent(o, w.sessions, w.disk, e);
    var p := PhaseIn(o.u, w, e.peer);
    if e.Request? {
      RequestMoves(o, w.sessions, w.disk, e, p);
    } else {
      ResponseMoves(o.u, w.sessions, w.disk, e.peer, e.request, p);
    }
    hide OnEvent, Run, Follow, Fits, PhaseOf, ActsOf;
    TurnKeeps(o.u, w, e, t, DiskAfter(t));
  }

  lemma TurnKeeps(u: ReceiverDisk.Receiver, w: World, e: Event, t: Turn, disk: Disk)
    requires Orderly(u, w) && (e.Request? || e.ResponseSent?)
    requires Moves(u, e.peer, w.sessions, PhaseIn(u, w, e.peer), t) && OthersStay(e.peer, w.sessions, t.sessions)
    ensures var w' := w.(sessions := t.sessions, disk := disk);
            Orderly(u, if t.act.Some? then Record(w', e, t.act.value) else w')
  {
    hide Fits, Follow, PhaseOf, ActsOf, Orderly, Record;
    if t.act.None? {
      NoActKeeps(u, w, e, t, disk);
    } else if t.act.value.Introduced? {
      IntroductionKeeps(u, w, e, t, disk);
    } else {
      ActKeeps(u, w, e, t, disk);
    }
  }

  lemma NoActKeeps(u: ReceiverDisk.Receiver, w: World, e: Event, t: Turn, disk: Disk)
    requires Orderly(u, w) && (e.Request? || e.ResponseSent?) && t.act.None?
    requires Moves(u, e.peer, w.sessions, PhaseIn(u, w, e.peer), t) && OthersStay(e.peer, w.sessions, t.sessions)
    ensures Orderly(u, w.(sessions := t.sessions, disk := disk))
  {
    hide Fits, Follow, PhaseOf, ActsOf;
    assert forall q :: q in t.sessions <==> q in w.sessions;
    assert t.sessions.Keys == w.sessions.Keys;
  }

  /** Adding an entry to the log changes the acts of its own session only. */
  lemma OnlyItsActs(log: seq<Entry>, k: nat, act: Act)
    ensures ActsOf(log + [Entry(k, act)], k) == ActsOf(log, k) + [act]
    ensures forall n: nat :: n != k ==> ActsOf(log + [Entry(k, act)], n) == ActsOf(log, n)
  {
    forall n: nat ensures ActsOf(log + [Entry(k, act)], n) == if n == k then ActsOf(log, k) + [act] else ActsOf(log, n) {
      ActsNext(log, Entry(k, act), n);
      if n != k {
        assert ActsOf(log, n) + [] == ActsOf(log, n);
      }
    }
  }

  lemma FirstPhase(u: ReceiverDisk.Receiver, d: Descriptor)
    ensures PhaseOf(u, [Introduced(d)]) == Intro(d)
  {
    assert [Introduced(d)][..0] == [];
  }

  /** A new session has its own number. */
  lemma NewNumber(w: World, peer: PeerId, d: Descriptor, sessions: Sessions, disk: Disk)
    requires CurrentOk(w) && OthersStay(peer, w.sessions, sessions) && peer in sessions
    ensures CurrentOk(World(sessions, disk, w.introductions + 1, w.current[peer := w.introductions],
                            w.log + [Entry(w.introductions, Introduced(d))]))
  {
    assert forall q :: q in sessions <==> q in w.sessions || q == peer;
    assert w.current[peer := w.introductions].Keys == sessions.Keys;
  }

  lemma IntroductionKeeps(u: ReceiverDisk.Receiver, w: World, e: Event, t: Turn, disk: Disk)
    requires Orderly(u, w) && (e.Request? || e.ResponseSent?) && t.act.Some? && t.act.value.Introduced?
    requires Moves(u, e.peer, w.sessions, PhaseIn(u, w, e.peer), t) && OthersStay(e.peer, w.sessions, t.sessions)
    ensures Orderly(u, Record(w.(sessions := t.sessions, disk := disk), e, t.act.value))
  {
    hide Fits, PhaseOf, ActsOf, Follow;
    var act := t.act.value;
    var w' := Record(w.(sessions := t.sessions, disk := disk), e, act);
    NewNumber(w, e.peer, act.descriptor, t.sessions, disk);
    NothingYet(w.log, w.introductions);
    OnlyItsActs(w.log, w.introductions, act);
    FirstPhase(u, act.descriptor);
    var d := act.descriptor;
    assert w' == World(t.sessions, disk, w.introductions + 1, w.current[e.peer := w.introductions],
        w.log + [Entry(w.introductions, Introduced(d))]);
    assert ActsOf(w'.log, w.introductions) == [act] by { assert [] + [act] == [act]; }
    hide CurrentOk, Record;
    assert CurrentOk(w');
    assert AllLegal(u, w') by {
      hide AllFit, OthersStay, Moves;
      forall n: nat | n < w'.introductions ensures !PhaseOf(u, ActsOf(w'.log, n)).Illegal? {
        assert n == w.introductions || ActsOf(w'.log, n) == ActsOf(w.log, n);
      }
    }
    OldFit(u, w, w', e.peer);
  }

  /** The sessions whose acts did not change still fit. */
  lemma OldFit(u: ReceiverDisk.Receiver, w: World, w': World, peer: PeerId)
    requires CurrentOk(w) && CurrentOk(w') && AllFit(u, w) && OthersStay(peer, w.sessions, w'.sessions)
    requires forall q :: q in w.current && q != peer ==> q in w'.current && w'.current[q] == w.current[q]
    requires forall q :: q in w.current && q != peer ==> ActsOf(w'.log, w.current[q]) == ActsOf(w.log, w.current[q])
    requires peer in w'.sessions ==> Fits(w'.sessions[peer], PhaseOf(u, ActsOf(w'.log, w'.current[peer])))
    ensures AllFit(u, w')
  {
    hide Fits, PhaseOf, ActsOf;
    forall q | q in w'.sessions ensures Fits(w'.sessions[q], PhaseOf(u, ActsOf(w'.log, w'.current[q]))) {
      if q != peer {
        assert q in w.sessions && q in w.current;
      }
    }
  }

  lemma ActKeepsCurrent(u: ReceiverDisk.Receiver, w: World, e: Event, t: Turn, disk: Disk)
    requires CurrentOk(w) && (e.Request? || e.ResponseSent?) && t.act.Some? && !t.act.value.Introduced?
    requires Moves(u, e.peer, w.sessions, PhaseIn(u, w, e.peer), t) && OthersStay(e.peer, w.sessions, t.sessions)
    ensures CurrentOk(Record(w.(sessions := t.sessions, disk := disk), e, t.act.value))
  {
    hide Fits, PhaseIn, Follow;
    var act := t.act.value;
    var w' := Record(w.(sessions := t.sessions, disk := disk), e, act);
    if act.Yielded? || act.Dropped? {
      assert forall q :: q in t.sessions <==> q in w.sessions && q != e.peer;
      assert w'.current == w.current - {e.peer};
    } else {
      assert forall q :: q in t.sessions <==> q in w.sessions;
      assert w'.current == w.current;
    }
  }

  lemma ActKeeps(u: ReceiverDisk.Receiver, w: World, e: Event, t: Turn, disk: Disk)
    requires Orderly(u, w) && (e.Request? || e.ResponseSent?) && t.act.Some? && !t.act.value.Introduced?
    requires Moves(u, e.peer, w.sessions, PhaseIn(u, w, e.peer), t) && OthersStay(e.peer, w.sessions, t.sessions)
    ensures Orderly(u, Record(w.(sessions := t.sessions, disk := disk), e, t.act.value))
  {
    hide Fits, PhaseOf, ActsOf, Follow;
    var act := t.act.value;
    var w' := Record(w.(sessions := t.sessions, disk := disk), e, act);
    var k := w.current[e.peer];
    OnlyItsActs(w.log, k, act);
    PhaseNext(u, ActsOf(w.log, k), act);
    assert w'.log == w.log + [Entry(k, act)];
    ActKeepsCurrent(u, w, e, t, disk);
    hide CurrentOk, Record;
    assert AllLegal(u, w') by {
      hide AllFit, OthersStay;
      forall n: nat | n < w'.introductions ensures !PhaseOf(u, ActsOf(w'.log, n)).Illegal? {
        assert n == k || ActsOf(w'.log, n) == ActsOf(w.log, n);
      }
    }
    OldFit(u, w, w', e.peer);
  }

  lemma AdvanceKeeps(o: Options, w: World, e: Event)
    requires Orderly(o.u, w) && Advance(o, w, e).Some?
    ensures Orderly(o.u, Advance(o, w, e).value)
  {
    if e.Request? || e.ResponseSent? {
      PeerEventKeeps(o, w, e);
    } else {
      hide PhaseOf, ActsOf, Fits;
      RunNothing(w.disk.store);
    }
  }

  /** In every run whose steps succeed, the acts of every session are in order: introduction, finished
      handshake, matching header, then chunks and checks of the archive, and last the one result, which is that
      of the session's own request. */
  lemma {:induction false} SessionsStayInOrder(o: Options, w: World, events: seq<Event>)
    requires Orderly(o.u, w) && After(o, w, events).Some?
    ensures Orderly(o.u, After(o, w, events).value)
    decreases |events|
  {
    hide Advance, Orderly;
    if events != [] {
      AdvanceKeeps(o, w, events[0]);
      SessionsStayInOrder(o, Advance(o, w, events[0]).value, events[1..]);
    }
  }

  // ---------------------------------------------------------------------------------------------
  // What the order says.

  /** Position by position: the introduction is first and only first, the handshake is finished second and only
      second, the header is third and only third; a result, or the end after a refusal, is last and there is
      only one. */
  predicate Shape(acts: seq<Act>) {
    forall i :: 0 <= i < |acts| ==>
      && (acts[i].Introduced? <==> i == 0)
      && (acts[i].Finished? <==> i == 1)
      && (acts[i].HeaderAccepted? <==> i == 2)
      && (acts[i].Yielded? || acts[i].Dropped? ==> i == |acts| - 1)
  }

  lemma {:induction false} LegalHasShape(u: ReceiverDisk.Receiver, acts: seq<Act>)
    requires !PhaseOf(u, acts).Illegal?
    ensures Shape(acts)
    ensures PhaseOf(u, acts).Start? <==> |acts| == 0
    ensures PhaseOf(u, acts).Intro? <==> |acts| == 1
    ensures PhaseOf(u, acts).Ready? <==> |acts| == 2
    ensures PhaseOf(u, acts).Closed? <==> |acts| > 0 && (acts[|acts| - 1].Yielded? || acts[|acts| - 1].Dropped?)
  {
    if acts != [] {
      var n := |acts| - 1;
      LegalHasShape(u, acts[..n]);
      assert forall i :: 0 <= i < n ==> acts[i] == acts[..n][i];
    }
  }

  /** The phase remembers the descriptor of the introduction and the last archive that passed the check. */
  lemma {:induction false} PhaseRemembers(u: ReceiverDisk.Receiver, acts: seq<Act>)
    requires !PhaseOf(u, acts).Illegal? && PhaseOf(u, acts).Streaming?
    ensures |acts| > 2 && acts[0] == Introduced(PhaseOf(u, acts).d)
    ensures var done := PhaseOf(u, acts).done;
      done.Some? ==>
        exists i, before :: 2 < i < |acts| && acts[i] == Completed(done.value.0, done.value.1, before)
                            && IsArchiveOf(u, PhaseOf(u, acts).d, done.value.1, before)
  {
    var n := |acts| - 1;
    var earlier := acts[..n];
    LegalHasShape(u, acts);
    LegalHasShape(u, earlier);
    if PhaseOf(u, earlier).Ready? {
      assert PhaseOf(u, earlier[..1]) == Intro(PhaseOf(u, earlier).d);
      assert earlier[..1][..0] == [];
      assert earlier[..1][0] == acts[0];
    } else {
      PhaseRemembers(u, earlier);
      var done := PhaseOf(u, earlier).done;
      if done.Some? {
        var i, before :| 2 < i < |earlier| && earlier[i] == Completed(done.value.0, done.value.1, before)
                         && IsArchiveOf(u, PhaseOf(u, earlier).d, done.value.1, before);
        assert acts[i] == earlier[i];
      }
      if acts[n].Completed? {
        assert acts[n] == Completed(PhaseOf(u, acts).done.value.0, PhaseOf(u, acts).done.value.1, acts[n].before);
      }
    }
  }

  /** A result that is yielded is that of a check which the same session made for the same request; its archive
      has the length and the hash that the session was introduced with, and it was unpacked. */
  lemma YieldedIsVerified(o: Options, rest: Tree, events: seq<Event>, incarnation: nat, i: nat)
    requires After(o, FreshWorld(rest), events).Some?
    requires var acts := ActsOf(After(o, FreshWorld(rest), events).value.log, incarnation); i < |acts| && acts[i].Yielded?
    requires incarnation < After(o, FreshWorld(rest), events).value.introductions
    ensures var acts := ActsOf(After(o, FreshWorld(rest), events).value.log, incarnation);
      && Shape(acts)
      && acts[0].Introduced?
      && exists j, before :: 2 < j < i && acts[j] == Completed(acts[i].request, acts[i].archive, before)
                             && IsArchiveOf(o.u, acts[0].descriptor, acts[i].archive, before)
  {
    hide After, IsArchiveOf, Advance;
    SessionsStayInOrder(o, FreshWorld(rest), events);
    var acts := ActsOf(After(o, FreshWorld(rest), events).value.log, incarnation);
    LegalHasShape(o.u, acts);
    var earlier := acts[..i];
    assert i == |acts| - 1;
    PhaseRemembers(o.u, earlier);
    var j, before :| 2 < j < |earlier| && earlier[j] == Completed(acts[i].request, acts[i].archive, before)
                     && IsArchiveOf(o.u, PhaseOf(o.u, earlier).d, acts[i].archive, before);
    assert acts[j] == earlier[j];
  }

  // ---------------------------------------------------------------------------------------------
  // Which result the delivery of a response reports.

  function ActBy(o: Options, w: World, e: Event, peer: PeerId): seq<Act> {
    var t := OnEvent(o, w.sessions, w.disk, e);
    if (e.Request? || e.ResponseSent?) && e.peer == peer && t.act.Some? then [t.act.value] else []
  }

  /** What a run does to the sessions of one peer. */
  function ActsBy(o: Options, w: World, events: seq<Event>, peer: PeerId): seq<Act>
    decreases |events|
  {
    if events == [] then []
    else
      match Advance(o, w, events[0])
      case None => []
      case Some(w') => ActBy(o, w, events[0], peer) + ActsBy(o, w', events[1..], peer)
  }

  function PendingOf(sessions: Sessions, peer: PeerId): Option<(RequestId, Bytes)> {
    if peer in sessions then sessions[peer].pendingResult else None
  }

  /** An act that replaces the peer's result or takes it away. */
  predicate Settles(act: Act) {
    act.Introduced? || act.Completed? || act.Yielded? || act.Dropped?
  }

  function SettleOne(pending: Option<(RequestId, Bytes)>, act: Act): Option<(RequestId, Bytes)> {
    if act.Completed? then Some((act.request, act.archive)) else if Settles(act) then None else pending
  }

  function Settle(pending: Option<(RequestId, Bytes)>, acts: seq<Act>): Option<(RequestId, Bytes)>
    decreases |acts|
  {
    if acts == [] then pending
    else
      Settle(SettleOne(pending, acts[0]), acts[1..])
  }

  lemma SecureSettles(o: Options, w: World, e: Event)
    requires e.Request? && e.frame.Secure? && !OnEvent(o, w.sessions, w.disk, e).reply.Fail?
    ensures var t := OnEvent(o, w.sessions, w.disk, e);
      PendingOf(t.sessions, e.peer)
      == if t.act.Some? && t.act.value.Completed? then Some((t.act.value.request, t.act.value.archive))
         else PendingOf(w.sessions, e.peer)
    ensures var t := OnEvent(o, w.sessions, w.disk, e);
      (t.act.Some? ==> !t.act.value.Introduced? && !t.act.value.Yielded? && !t.act.value.Dropped?)
      && OthersStay(e.peer, w.sessions, t.sessions)
  {
    hide Decrypted, OnDone, AppendEffects, AppendResult, OffsetAfter, UnpackArchive;
    var (s, r) := OpenChunk(o, w.sessions[e.peer], e.frame.encrypted);
    if r.value.Done? {
      EndIsChecked(o, w.sessions, w.disk, e.peer, s, e.request);
    }
  }

  lemma OneSettle(pending: Option<(RequestId, Bytes)>, act: Act)
    ensures Settle(pending, [act]) == SettleOne(pending, act)
  {
    assert [act][1..] == [];
  }

  lemma IntroductionSettles(o: Options, w: World, e: Event, peer: PeerId)
    requires e.Request? && e.frame.ClientIntro? && !OnEvent(o, w.sessions, w.disk, e).reply.Fail?
    ensures PendingOf(OnEvent(o, w.sessions, w.disk, e).sessions, peer)
            == Settle(PendingOf(w.sessions, peer), ActBy(o, w, e, peer))
  {
    var t := OnEvent(o, w.sessions, w.disk, e);
    if t.act.Some? {
      OneSettle(PendingOf(w.sessions, peer), t.act.value);
    }
    hide Settle, ResumeEffects, ResumeOffset, Libp2pTranscript, OnSecure, OnFinish, OnResponseSent;
  }

  lemma AnswerSettles(o: Options, w: World, e: Event, peer: PeerId)
    requires e.ResponseSent?
    ensures PendingOf(OnEvent(o, w.sessions, w.disk, e).sessions, peer)
            == Settle(PendingOf(w.sessions, peer), ActBy(o, w, e, peer))
  {
    var t := OnEvent(o, w.sessions, w.disk, e);
    if t.act.Some? {
      OneSettle(PendingOf(w.sessions, peer), t.act.value);
    }
    hide Settle, OnSecure, OnIntro, OnFinish;
  }

  lemma ChunkSettles(o: Options, w: World, e: Event, peer: PeerId)
    requires e.Request? && e.frame.Secure? && !OnEvent(o, w.sessions, w.disk, e).reply.Fail?
    ensures PendingOf(OnEvent(o, w.sessions, w.disk, e).sessions, peer)
            == Settle(PendingOf(w.sessions, peer), ActBy(o, w, e, peer))
  {
    hide OnEvent;
    SecureSettles(o, w, e);
    var t := OnEvent(o, w.sessions, w.disk, e);
    if t.act.Some? {
      OneSettle(PendingOf(w.sessions, peer), t.act.value);
    }
    hide Settle;
  }

  /** One event changes the pending result of a peer by its acts for this peer only. */
  lemma EventSettles(o: Options, w: World, e: Event, peer: PeerId)
    requires !OnEvent(o, w.sessions, w.disk, e).reply.Fail?
    ensures PendingOf(OnEvent(o, w.sessions, w.disk, e).sessions, peer)
            == Settle(PendingOf(w.sessions, peer), ActBy(o, w, e, peer))
  {
    if e.Request? && e.frame.Secure? {
      hide *;
      ChunkSettles(o, w, e, peer);
    } else if e.Request? && e.frame.ClientIntro? {
      hide *;
      IntroductionSettles(o, w, e, peer);
    } else if e.ResponseSent? {
      hide *;
      AnswerSettles(o, w, e, peer);
    } else {
      hide OnSecure, OnIntro, OnResponseSent;
    }
  }

  lemma {:induction false} SettleConcat(pending: Option<(RequestId, Bytes)>, first: seq<Act>, second: seq<Act>)
    ensures Settle(pending, first + second) == Settle(Settle(pending, first), second)
    decreases |first|
  {
    if first == [] {
      assert first + second == second;
    } else {
      assert (first + second)[1..] == first[1..] + second;
      SettleConcat(SettleOne(pending, first[0]), first[1..], second);
    }
  }

  lemma AdvanceSettles(o: Options, w: World, e: Event, peer: PeerId)
    requires Advance(o, w, e).Some?
    ensures PendingOf(Advance(o, w, e).value.sessions, peer) == Settle(PendingOf(w.sessions, peer), ActBy(o, w, e, peer))
  {
    EventSettles(o, w, e, peer);
    hide OnEvent, Settle;
  }

  lemma {:induction false} RunSettles(o: Options, w: World, events: seq<Event>, peer: PeerId)
    requires After(o, w, events).Some?
    ensures PendingOf(After(o, w, events).value.sessions, peer)
            == Settle(PendingOf(w.sessions, peer), ActsBy(o, w, events, peer))
    decreases |events|
  {
    if events != [] {
      AdvanceSettles(o, w, events[0], peer);
      hide Advance, ActBy, Settle, PendingOf;
      var w' := Advance(o, w, events[0]).value;
      RunSettles(o, w', events[1..], peer);
      SettleConcat(PendingOf(w.sessions, peer), ActBy(o, w, events[0], peer), ActsBy(o, w', events[1..], peer));
    }
  }

  lemma {:induction false} KeptExactly(result: (RequestId, Bytes), pending: Option<(RequestId, Bytes)>, acts: seq<Act>)
    requires forall act :: act in acts && act.Completed? ==> act.request != result.0
    ensures Settle(pending, acts) == Some(result)
            <==> pending == Some(result) && forall i :: 0 <= i < |acts| ==> !Settles(acts[i])
    decreases |acts|
  {
    if acts != [] {
      assert acts[0] in acts;
      assert forall act :: act in acts[1..] ==> act in acts;
      KeptExactly(result, SettleOne(pending, acts[0]), acts[1..]);
      assert forall i :: 0 < i < |acts| ==> acts[i] == acts[1..][i - 1];
    }
  }

  /** A result that waits for its response is reported by the delivery of that response, whatever other requests
      and peers come in between, exactly when in the meantime its own peer was not introduced again, completed no
      other archive and had no other result or refusal delivered. Request numbers are not used twice. */
  lemma ReportedExactly(o: Options, w: World, events: seq<Event>, peer: PeerId, request: RequestId, archive: Bytes)
    requires PendingOf(w.sessions, peer) == Some((request, archive)) && After(o, w, events).Some?
    requires forall act :: act in ActsBy(o, w, events, peer) && act.Completed? ==> act.request != request
    ensures var w', acts := After(o, w, events).value, ActsBy(o, w, events, peer);
            OnResponseSent(w'.sessions, w'.disk, peer, request).reply == Yield(archive)
            <==> forall i :: 0 <= i < |acts| ==> !Settles(acts[i])
  {
    RunSettles(o, w, events, peer);
    var acts := ActsBy(o, w, events, peer);
    hide After, ActsBy, Settle, Settles;
    KeptExactly((request, archive), PendingOf(w.sessions, peer), acts);
  }

  // ---------------------------------------------------------------------------------------------
  // Replies and effects.

  /** `Ack` tells the truth: it answers exactly the requests that moved the session on. */
  lemma AckMeansDone(o: Options, sessions: Sessions, disk: Disk, e: Event)
    requires e.Request? && e.frame.Secure?
    ensures var t := OnRequest(o, sessions, disk, e);
      && (t.reply == Respond(Ack) <==> t.act.Some? && !t.act.value.Rejected?)
      && (t.reply == Respond(Ack) ==>
            && e.peer in sessions && sessions[e.peer].aead.Some?
            && var r := OpenChunk(o, sessions[e.peer], e.frame.encrypted).1;
            && r.Ok?
            && match r.value
               case Header(c) => t.act == Some(HeaderAccepted(c))
               case ArchiveChunk(bytes) => t.act == Some(Appended(bytes))
               case Done => t.act.value.Completed? && t.act.value.request == e.request
                            && t.act.value.before == FullTree(o.u, disk)
                            && Checked(o.u, sessions[e.peer], t.act.value.archive, t.act.value.before))
  {
    hide Decrypted, AppendEffects, AppendResult, RemovePartialEffects, CompleteEffects;
  }

  /** Who is introduced, exactly: a peer of this version that names no receiver or this one, and whose login and
      key exchange can start. Its session is bound to the receiver's own name and stands at the offset that the
      reply offers; a refusal changes neither sessions nor store. */
  lemma IntroducedExactly(o: Options, sessions: Sessions, disk: Disk, e: Event)
    requires e.Request? && e.frame.ClientIntro?
    ensures var t := OnRequest(o, sessions, disk, e);
      && (t.act.Some? <==>
            && e.frame.version == PROTOCOL_VERSION
            && (e.frame.name == None || e.frame.name == Some(o.name))
            && o.auth.startLogin(e.frame.opaqueRequest, e.random).Some?
            && o.auth.startHandshake(e.frame.clientHello, e.random).Some?)
      && (t.act.Some? ==>
            && t.reply.Respond? && t.reply.frame.ServerIntro? && e.peer in t.sessions
            && t.sessions[e.peer].offset == t.reply.frame.resumeOffset <= e.frame.descriptor.archiveBytes
            && t.sessions[e.peer].transcript
               == Libp2pTranscript(o.name, o.lookupKey, o.receiverPeerId, LIBP2P_ROUTE_LABEL))
      && (t.act.None? && !t.reply.Fail? ==> t.sessions == sessions && t.effects == [])
  {
    ResumeOutcome(disk.store, e.listing, e.frame.descriptor, e.now);
    hide ResumeEffects, ResumeOffset, Run, Libp2pTranscript;
  }

  lemma {:induction false} CleanupAppendsNothing(s: Store, listing: seq<PartialKey>, now: nat)
    ensures forall x :: x in CleanupEffects(s, listing, now) ==> !x.AppendPart?
  {
    if listing != [] {
      CleanupAppendsNothing(s, listing[..|listing| - 1], now);
    }
  }

  lemma HeaderMatches(u: ReceiverDisk.Receiver, w: World, peer: PeerId)
    requires Orderly(u, w) && peer in w.sessions && w.sessions[peer].compression.Some?
    ensures w.sessions[peer].compression == Some(w.sessions[peer].descriptor.compression)
  {
    hide PhaseOf, ActsOf, AllLegal;
    assert Fits(w.sessions[peer], PhaseOf(u, ActsOf(w.log, w.current[peer])));
  }

  lemma ResumingAppendsNothing(s: Store, listing: seq<PartialKey>, d: Descriptor, now: nat)
    ensures forall x :: x in ResumeEffects(s, listing, d, now) ==> !x.AppendPart?
  {
    CleanupAppendsNothing(s, listing, now);
    hide CleanupEffects, Run, Keeps;
  }

  lemma ChunkAppendsItself(s: Store, offset: U64, d: Descriptor, bytes: Bytes, now: nat)
    ensures forall x :: x in AppendEffects(s, offset, d, bytes, now) && x.AppendPart? ==> x == AppendPart(KeyOf(d), bytes)
  {
  }

  lemma CheckingAppendsNothing(u: ReceiverDisk.Receiver, s: Store, d: Descriptor)
    ensures forall x :: x in CompleteEffects(u.env.hash, s, d) + RemovePartialEffects(KeyOf(d)) ==> !x.AppendPart?
  {
  }

  lemma OnlyChunksAppend(o: Options, sessions: Sessions, disk: Disk, e: Event, x: Effect)
    requires x in OnEvent(o, sessions, disk, e).effects && x.AppendPart?
    ensures e.Request? && e.peer in sessions && e.frame.Secure? && sessions[e.peer].aead.Some?
    ensures var s := sessions[e.peer];
      && x.key == KeyOf(s.descriptor) && s.compression.Some?
      && OpenChunk(o, s, e.frame.encrypted).1 == Ok(ArchiveChunk(x.bytes))
  {
    hide Decrypted, ResumeEffects, ResumeOffset, AppendEffects, AppendResult, CompleteEffects, CompleteResult,
         RemovePartialEffects;
    if e.Request? && e.frame.ClientIntro? {
      ResumingAppendsNothing(disk.store, e.listing, e.frame.descriptor, e.now);
    } else if e.Request? && e.frame.Secure? && e.peer in sessions && sessions[e.peer].aead.Some? {
      var (s, r) := OpenChunk(o, sessions[e.peer], e.frame.encrypted);
      CheckingAppendsNothing(o.u, disk.store, s.descriptor);
      if r.Ok? && r.value.ArchiveChunk? {
        ChunkAppendsItself(disk.store, s.offset, s.descriptor, r.value.bytes, e.now);
      }
    }
  }

  /** No byte reaches a part file before the session has a header that matches its descriptor. */
  lemma AppendsOnlyAfterHeader(o: Options, w: World, e: Event, x: Effect)
    requires Orderly(o.u, w) && x in OnEvent(o, w.sessions, w.disk, e).effects && x.AppendPart?
    ensures e.Request? && e.peer in w.sessions && e.frame.Secure? && w.sessions[e.peer].aead.Some?
    ensures var s := w.sessions[e.peer];
      && x.key == KeyOf(s.descriptor) && s.compression == Some(s.descriptor.compression)
      && OpenChunk(o, s, e.frame.encrypted).1 == Ok(ArchiveChunk(x.bytes))
  {
    hide OnEvent, Orderly, OpenChunk;
    OnlyChunksAppend(o, w.sessions, w.disk, e, x);
    HeaderMatches(o.u, w, e.peer);
  }

  /** On the disk a secure request does what the same frame does to a direct session, unpacking included. */
  lemma SameDiskAsDirect(o: Options, sessions: Sessions, disk: Disk, e: Event, p: Phase, start: U64, accepted: seq<SecureFrame>)
    requires e.Request? && e.frame.Secure? && e.peer in sessions && sessions[e.peer].aead.Some? && Fits(sessions[e.peer], p)
    requires OpenChunk(o, sessions[e.peer], e.frame.encrypted).1.Ok?
    ensures var s := sessions[e.peer];
      var frame := OpenChunk(o, s, e.frame.encrypted).1.value;
      var session := D.Session(s.descriptor, start, s.offset, s.compression, accepted, true);
      var t := OnRequest(o, sessions, disk, e);
      var outcome := D.FrameResult(o.u, disk, session, frame);
      && t.effects == D.FrameEffects(o.u.env.hash, disk.store, session, frame, e.now)
      && DiskAfter(t) == D.FrameDisk(o.u, disk, session, frame, e.now)
      && (outcome.Received? <==> t.act.Some? && t.act.value.Completed?)
      && (outcome.Received? ==> t.act.value.archive == outcome.archive)
      && (outcome.Continue? <==> t.reply == Respond(Ack) && !t.act.value.Completed?)
      && (outcome.Continue? ==>
            && t.sessions[e.peer].offset == outcome.session.offset
            && t.sessions[e.peer].compression == outcome.session.compression)
  {
    hide Decrypted, UnpackOnDisk, AppendEffects, AppendResult, RemovePartialEffects, CompleteEffects, Run, OffsetAfter;
  }
}
