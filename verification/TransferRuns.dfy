/** Runs of the partial store: any number of sessions over one destination, disconnects, and crashes of the
    process at any point of any effect. Between two awaits a session runs alone, so its steps are atomic. Frames
    come as given and whether an archive unpacks is a flag; `ReceiverRuns` takes the frames from channels, unpacks
    onto the disk and follows this machine step by step. */
module TransferRuns {
  import opened Bytes
  import opened SecureChannel
  import opened ResumeStore
  import opened ResumeLaws
  import opened DirectTransfer

  /** A transfer that was reported as received, with the bytes that were unpacked for it. */
  datatype Receipt = Receipt(id: nat, descriptor: Descriptor, archive: Bytes)

  datatype World = World(store: Store, sessions: map<nat, Session>, receipts: seq<Receipt>)

  datatype Move =
    | Open(id: nat, descriptor: Descriptor, listing: seq<PartialKey>, now: nat, patient: bool)
    | Accept(id: nat, frame: SecureFrame, now: nat, unpacks: bool)
    | Drop(id: nat)
    | Crash(during: Move, left: Store)

  const FRESH_WORLD := World(map[], map[], [])

  function EffectsOf(hash: Bytes -> ResourceId, w: World, m: Move): seq<Effect> {
    match m
    case Open(_, d, listing, now, _) => ResumeEffects(w.store, listing, d, now)
    case Accept(id, frame, now, _) =>
      if id in w.sessions then FrameEffects(hash, w.store, w.sessions[id], frame, now) else []
    case _ => []
  }

  function SessionsAfter(hash: Bytes -> ResourceId, w: World, id: nat, frame: SecureFrame): map<nat, Session>
    requires id in w.sessions
  {
    match SessionAfter(hash, w.store, w.sessions[id], frame)
    case Some(session) => w.sessions[id := session]
    case None => w.sessions - {id}
  }

  function Turn(hash: Bytes -> ResourceId, w: World, m: Move): World {
    var store := Run(w.store, EffectsOf(hash, w, m));
    match m
    case Open(id, d, listing, now, patient) =>
      var offset := ResumeOffset(w.store, listing, d, now);
      w.(store := store, sessions := w.sessions[id := Session(d, offset, offset, None, [], patient)])
    case Accept(id, frame, now, unpacks) =>
      if id !in w.sessions then w
      else
        var session := w.sessions[id];
        var sessions := SessionsAfter(hash, w, id, frame);
        (match FrameOutcome(hash, w.store, session, frame, unpacks)
         case Received(archive) => World(store, sessions, w.receipts + [Receipt(id, session.descriptor, archive)])
         case _ => w.(store := store, sessions := sessions))
    case Drop(id) => w.(sessions := w.sessions - {id})
    case Crash(_, left) => World(left, map[], w.receipts)
  }

  function Turns(hash: Bytes -> ResourceId, w: World, moves: seq<Move>): World
    decreases |moves|
  {
    if moves == [] then w else Turns(hash, Turn(hash, w, moves[0]), moves[1..])
  }

  // ---------------------------------------------------------------------------------------------
  // Integrity, under any interleaving of any sessions.

  predicate Verified(hash: Bytes -> ResourceId, r: Receipt) {
    |r.archive| == r.descriptor.archiveBytes && hash(r.archive) == r.descriptor.resourceId
  }

  lemma {:induction false} ReceiptsAlwaysVerified(hash: Bytes -> ResourceId, w: World, moves: seq<Move>)
    requires forall r :: r in w.receipts ==> Verified(hash, r)
    ensures forall r :: r in Turns(hash, w, moves).receipts ==> Verified(hash, r)
    decreases |moves|
  {
    if moves != [] {
      ReceiptsAlwaysVerified(hash, Turn(hash, w, moves[0]), moves[1..]);
    }
  }

  /** However sessions overlap and whatever peers claim or send, a transfer is reported received only for the
      archive whose hash its descriptor names, as long as nothing else has this hash. */
  lemma ReceivedIsTheArchive(hash: Bytes -> ResourceId, moves: seq<Move>, archive: Bytes)
    requires forall other :: hash(other) == hash(archive) ==> other == archive
    ensures forall r :: r in Turns(hash, FRESH_WORLD, moves).receipts ==>
              r.descriptor.resourceId == hash(archive) ==>
                r.archive == archive && r.descriptor.archiveBytes == |archive|
  {
    ReceiptsAlwaysVerified(hash, FRESH_WORLD, moves);
  }

  // ---------------------------------------------------------------------------------------------
  // The prefix law for one transfer whose sessions do not overlap.

  /** The transfer under study: an honest sender's archive and its descriptor. */
  datatype Transfer = Transfer(descriptor: Descriptor, archive: Bytes)

  predicate Describes(hash: Bytes -> ResourceId, t: Transfer) {
    t.descriptor.archiveBytes == |t.archive| && t.descriptor.resourceId == hash(t.archive)
  }

  predicate Concerns(w: World, id: nat, t: Transfer) {
    id in w.sessions && KeyOf(w.sessions[id].descriptor) == KeyOf(t.descriptor)
  }

  /** The move can happen: identifiers are new, and a crash leaves a state that the interrupted effects can
      leave. */
  ghost predicate Legal(hash: Bytes -> ResourceId, w: World, m: Move) {
    match m
    case Open(id, _, _, _, _) => id !in w.sessions
    case Crash(during, left) => Legal(hash, w, during) && CrashState(w.store, EffectsOf(hash, w, during), left)
    case _ => true
  }

  /** On the transfer's own directory the peer is its sender and sessions do not overlap: a session opens when
      no other is live, with the transfer's descriptor, and the frames it accepts are those the sender writes
      from the offset it was offered. Sessions on other directories may do anything. */
  ghost predicate Honest(w: World, m: Move, t: Transfer) {
    match m
    case Open(_, d, _, _, _) =>
      KeyOf(d) == KeyOf(t.descriptor) ==> d == t.descriptor && forall id :: !Concerns(w, id, t)
    case Accept(id, frame, _, _) =>
      Concerns(w, id, t) ==>
        var session := w.sessions[id];
        exists chunks :: session.start <= |t.archive| && IsChunking(chunks, t.archive[session.start..])
          && session.accepted + [frame] <= SenderFrames(t.descriptor.compression, chunks)
    case Crash(during, _) => Honest(w, during, t)
    case Drop(_) => true
  }

  function PayloadOf(frames: seq<SecureFrame>): Bytes {
    if frames == [] then []
    else
      var last := frames[|frames| - 1];
      PayloadOf(frames[..|frames| - 1]) + if last.ArchiveChunk? then last.bytes else []
  }

  /** Where an honest session stands: it has the archive from its start to its offset. */
  predicate Tracks(session: Session, t: Transfer) {
    && session.descriptor == t.descriptor
    && session.start <= session.offset <= |t.archive|
    && PayloadOf(session.accepted) == t.archive[session.start..session.offset]
    && (session.compression.None? <==> session.accepted == [])
  }

  /** A patient session that has been given its last frame. */
  predicate HasEnded(session: Session) {
    session.accepted != [] && session.accepted[|session.accepted| - 1].Done?
  }

  ghost predicate PrefixHolds(w: World, t: Transfer) {
    var key := KeyOf(t.descriptor);
    && PartOf(w.store, key) <= t.archive
    && (forall id :: Concerns(w, id, t) ==> Tracks(w.sessions[id], t))
    && (forall id :: Concerns(w, id, t) && key in w.store && !HasEnded(w.sessions[id]) ==>
          PartOf(w.store, key) == t.archive[..w.sessions[id].offset])
    && (forall id, id' :: Concerns(w, id, t) && Concerns(w, id', t) ==> id == id')
  }

  lemma {:induction false} PayloadOfSenderFrames(compression: Compression, chunks: seq<Bytes>, n: nat)
    requires n <= |chunks|
    ensures PayloadOf(SenderFrames(compression, chunks)[..n + 1]) == Flatten(chunks[..n])
  {
    var frames := SenderFrames(compression, chunks);
    if n == 0 {
      assert frames[..1][..0] == [];
      assert chunks[..0] == [];
    } else {
      PayloadOfSenderFrames(compression, chunks, n - 1);
      assert frames[..n + 1][..n] == frames[..n];
      assert frames[n] == ArchiveChunk(chunks[n - 1]);
      assert chunks[..n] == chunks[..n - 1] + [chunks[n - 1]];
      FlattenAppend(chunks[..n - 1], chunks[n - 1]);
    }
  }

  lemma {:induction false} FlattenSplit(chunks: seq<Bytes>, n: nat)
    requires n < |chunks|
    ensures Flatten(chunks[..n]) + chunks[n] <= Flatten(chunks)
    decreases |chunks| - n
  {
    assert chunks[..n + 1] == chunks[..n] + [chunks[n]];
    FlattenAppend(chunks[..n], chunks[n]);
    if n + 1 == |chunks| {
      assert chunks[..n + 1] == chunks;
    } else {
      FlattenSplit(chunks, n + 1);
    }
  }

  /** Bytes that follow a window of the archive extend the archive's prefix up to the window's end. */
  lemma WindowExtends(archive: Bytes, from: nat, to: nat, bytes: Bytes)
    requires from <= to <= |archive| && archive[from..to] + bytes <= archive[from..]
    ensures archive[..to] + bytes <= archive
  {
    var window := archive[from..to] + bytes;
    assert window == archive[from..][..|window|] == archive[from..from + |window|];
    assert archive[..to] + bytes == archive[..from] + window == archive[..from + |window|];
  }

  /** The next frame of an honest session: the header first, then exactly the archive's next bytes, and the end
      only once the whole archive is there. */
  lemma NextHonestFrame(session: Session, frame: SecureFrame, t: Transfer, chunks: seq<Bytes>)
    requires Tracks(session, t) && IsChunking(chunks, t.archive[session.start..])
    requires session.accepted + [frame] <= SenderFrames(t.descriptor.compression, chunks)
    ensures session.accepted == [] ==> frame == Header(t.descriptor.compression)
    ensures session.accepted != [] ==> !frame.Header?
    ensures session.accepted != [] && frame.ArchiveChunk? ==>
              t.archive[..session.offset] + frame.bytes <= t.archive
    ensures session.accepted != [] && frame.Done? ==> session.offset == |t.archive|
    ensures !HasEnded(session)
  {
    var frames := SenderFrames(t.descriptor.compression, chunks);
    var k := |session.accepted|;
    assert session.accepted == frames[..k] && frame == frames[k];
    if k > 0 {
      PayloadOfSenderFrames(t.descriptor.compression, chunks, k - 1);
      if k - 1 < |chunks| {
        FlattenSplit(chunks, k - 1);
        WindowExtends(t.archive, session.start, session.offset, frame.bytes);
      } else {
        assert chunks[..k - 1] == chunks;
        assert |t.archive[session.start..session.offset]| == |t.archive[session.start..]|;
      }
    }
  }

  lemma FrameEffectsStayHome(hash: Bytes -> ResourceId, s: Store, session: Session, frame: SecureFrame, now: nat)
    ensures forall e :: e in FrameEffects(hash, s, session, frame, now) ==> e.key == KeyOf(session.descriptor)
    ensures !frame.ArchiveChunk? ==> forall e :: e in FrameEffects(hash, s, session, frame, now) ==> !e.AppendPart?
  {
  }

  /** A turn that changes no session of the transfer and at most takes its part away keeps the law. */
  lemma PrefixCarries(w: World, w': World, t: Transfer)
    requires PrefixHolds(w, t)
    requires forall id :: Concerns(w', id, t) ==> Concerns(w, id, t) && w'.sessions[id] == w.sessions[id]
    requires var key := KeyOf(t.descriptor);
             || PartOf(w'.store, key) == []
             || (PartOf(w'.store, key) == PartOf(w.store, key) && (key in w'.store ==> key in w.store))
    requires var key := KeyOf(t.descriptor);
             (exists id :: Concerns(w', id, t)) && key in w'.store ==>
               key in w.store && PartOf(w'.store, key) == PartOf(w.store, key)
    ensures PrefixHolds(w', t)
  {
    forall id | Concerns(w', id, t)
      ensures Tracks(w'.sessions[id], t)
      ensures KeyOf(t.descriptor) in w'.store && !HasEnded(w'.sessions[id]) ==>
                PartOf(w'.store, KeyOf(t.descriptor)) == t.archive[..w'.sessions[id].offset]
    {
      assert Concerns(w, id, t);
    }
    forall id, id' | Concerns(w', id, t) && Concerns(w', id', t)
      ensures id == id'
    {
      assert Concerns(w, id, t) && Concerns(w, id', t);
    }
  }

  lemma OpenKeepsPrefix(hash: Bytes -> ResourceId, w: World, m: Move, t: Transfer)
    requires m.Open? && Legal(hash, w, m) && Honest(w, m, t) && PrefixHolds(w, t)
    ensures PrefixHolds(Turn(hash, w, m), t)
  {
    hide PayloadOf, ResumeEffects, ResumeOffset, Run, Stale;
    PayloadOfHeader(CompressAuto);
    ResumeOutcome(w.store, m.listing, m.descriptor, m.now);
    var w' := Turn(hash, w, m);
    forall id | Concerns(w', id, t)
      ensures id == m.id || Concerns(w, id, t)
    {
    }
    if KeyOf(m.descriptor) == KeyOf(t.descriptor) {
      var session := w'.sessions[m.id];
      assert t.archive[session.start..session.offset] == [];
    } else {
      PrefixCarries(w, w', t);
    }
  }

  lemma AcceptKeepsPrefix(hash: Bytes -> ResourceId, w: World, m: Move, t: Transfer)
    requires m.Accept? && Describes(hash, t) && Honest(w, m, t) && PrefixHolds(w, t)
    ensures PrefixHolds(Turn(hash, w, m), t)
  {
    if Concerns(w, m.id, t) {
      OwnAcceptKeepsPrefix(hash, w, m, t);
    } else if m.id in w.sessions {
      var effects := EffectsOf(hash, w, m);
      var left := Run(w.store, effects);
      FrameEffectsStayHome(hash, w.store, w.sessions[m.id], m.frame, m.now);
      assert CrashState(w.store, effects, left);
      CrashElsewhere(w.store, effects, left, KeyOf(t.descriptor));
      OtherSessionsStay(hash, w, m, t);
      hide PrefixHolds, Honest, Describes, Turn, EffectsOf, Run, CrashState;
      PrefixCarries(w, Turn(hash, w, m), t);
    }
  }

  lemma OtherSessionsStay(hash: Bytes -> ResourceId, w: World, m: Move, t: Transfer)
    requires m.Accept? && m.id in w.sessions && !Concerns(w, m.id, t)
    ensures var w' := Turn(hash, w, m);
      && w'.store == Run(w.store, EffectsOf(hash, w, m))
      && forall id :: Concerns(w', id, t) ==> Concerns(w, id, t) && w'.sessions[id] == w.sessions[id]
  {
    SessionKeepsItself(hash, w.store, w.sessions[m.id], m.frame);
    hide EffectsOf, Run, FrameOutcome, SessionAfter;
  }

  /** A session that lives on is still that session. */
  lemma SessionKeepsItself(hash: Bytes -> ResourceId, s: Store, session: Session, frame: SecureFrame)
    ensures var after := SessionAfter(hash, s, session, frame);
      after.Some? ==>
        && after.value.descriptor == session.descriptor && after.value.start == session.start
        && after.value.accepted == session.accepted + [frame] && after.value.patient == session.patient
  {
    hide AppendResult, CompleteResult;
  }

  lemma OwnAcceptKeepsPrefix(hash: Bytes -> ResourceId, w: World, m: Move, t: Transfer)
    requires m.Accept? && Describes(hash, t) && Honest(w, m, t) && PrefixHolds(w, t) && Concerns(w, m.id, t)
    ensures PrefixHolds(Turn(hash, w, m), t)
  {
    hide PayloadOf, Flatten, CompleteEffects, AppendResult, Run, EffectsOf;
    var session := w.sessions[m.id];
    var chunks :| IsChunking(chunks, t.archive[session.start..])
      && session.accepted + [m.frame] <= SenderFrames(t.descriptor.compression, chunks);
    NextHonestFrame(session, m.frame, t, chunks);
    if session.accepted == [] {
      OwnHeaderKeepsPrefix(hash, w, m, t);
    } else if m.frame.ArchiveChunk? {
      OwnChunkKeepsPrefix(hash, w, m, t);
    } else {
      OwnEndKeepsPrefix(hash, w, m, t);
    }
  }

  lemma OwnHeaderKeepsPrefix(hash: Bytes -> ResourceId, w: World, m: Move, t: Transfer)
    requires m.Accept? && PrefixHolds(w, t) && Concerns(w, m.id, t)
    requires w.sessions[m.id].accepted == [] && m.frame == Header(t.descriptor.compression)
    ensures PrefixHolds(Turn(hash, w, m), t)
  {
    hide AppendEffects, CompleteEffects, CompleteResult, AppendResult, PartOf, PayloadOf;
    var session := w.sessions[m.id];
    var session' := session.(compression := Some(m.frame.compression), accepted := [m.frame]);
    var w' := Turn(hash, w, m);
    assert [] + [m.frame] == [m.frame];
    assert w' == w.(sessions := w.sessions[m.id := session']);
    PayloadOfHeader(m.frame.compression);
    assert forall id :: Concerns(w', id, t) ==> Concerns(w, id, t);
  }

  lemma PayloadOfHeader(compression: Compression)
    ensures PayloadOf([Header(compression)]) == [] && PayloadOf([]) == []
  {
    assert [Header(compression)][..0] == [];
  }

  lemma PayloadOfOneMore(frames: seq<SecureFrame>, bytes: Bytes)
    ensures PayloadOf(frames + [ArchiveChunk(bytes)]) == PayloadOf(frames) + bytes
  {
    assert (frames + [ArchiveChunk(bytes)])[..|frames|] == frames;
  }

  lemma OwnEndKeepsPrefix(hash: Bytes -> ResourceId, w: World, m: Move, t: Transfer)
    requires m.Accept? && PrefixHolds(w, t) && Concerns(w, m.id, t)
    requires w.sessions[m.id].accepted != [] && m.frame.Done?
    ensures PrefixHolds(Turn(hash, w, m), t)
  {
    var effects := EffectsOf(hash, w, m);
    var w' := Turn(hash, w, m);
    FrameEffectsStayHome(hash, w.store, w.sessions[m.id], m.frame, m.now);
    assert CrashState(w.store, effects, w'.store);
    CrashWithoutAppend(w.store, effects, w'.store, KeyOf(t.descriptor));
    forall id | Concerns(w', id, t)
      ensures id == m.id && HasEnded(w'.sessions[id]) && Tracks(w'.sessions[id], t)
    {
      assert Concerns(w, id, t);
      EndIsSeen(hash, w.store, w.sessions[m.id], m.frame, t);
    }
  }

  /** A session of the transfer that lives on after its end has all it had, and has ended. */
  lemma EndIsSeen(hash: Bytes -> ResourceId, s: Store, session: Session, frame: SecureFrame, t: Transfer)
    requires Tracks(session, t) && session.accepted != [] && frame.Done?
    ensures var after := SessionAfter(hash, s, session, frame);
      after.Some? ==> HasEnded(after.value) && Tracks(after.value, t)
  {
    assert (session.accepted + [frame])[..|session.accepted|] == session.accepted;
    assert PayloadOf(session.accepted + [frame]) == PayloadOf(session.accepted) + [];
    hide CompleteResult, AppendResult, PayloadOf;
  }

  /** The turn of a session whose next chunk fits. */
  lemma ChunkTurn(hash: Bytes -> ResourceId, w: World, m: Move)
    requires m.Accept? && m.frame.ArchiveChunk? && m.id in w.sessions && w.sessions[m.id].compression.Some?
    requires w.sessions[m.id].offset + |m.frame.bytes| <= w.sessions[m.id].descriptor.archiveBytes
    ensures var session := w.sessions[m.id];
            var d := session.descriptor;
            var bytes := m.frame.bytes;
            Turn(hash, w, m) ==
            if KeyOf(d) in w.store then
              World(Run(w.store, AppendEffects(w.store, session.offset, d, bytes, m.now)),
                    w.sessions[m.id := session.(offset := session.offset + |bytes|,
                                                accepted := session.accepted + [m.frame])],
                    w.receipts)
            else w.(sessions := w.sessions - {m.id})
  {
  }

  lemma OwnChunkKeepsPrefix(hash: Bytes -> ResourceId, w: World, m: Move, t: Transfer)
    requires m.Accept? && Describes(hash, t) && PrefixHolds(w, t) && Concerns(w, m.id, t)
    requires var session := w.sessions[m.id];
             m.frame.ArchiveChunk? && session.accepted != [] && !HasEnded(session)
             && t.archive[..session.offset] + m.frame.bytes <= t.archive
    ensures PrefixHolds(Turn(hash, w, m), t)
  {
    hide PayloadOf, AppendResult, Turn;
    var key := KeyOf(t.descriptor);
    var session := w.sessions[m.id];
    var w' := Turn(hash, w, m);
    ChunkTurn(hash, w, m);
    hide AppendEffects;
    forall id | Concerns(w', id, t)
      ensures id == m.id && key in w.store
    {
      assert Concerns(w, id, t);
    }
    if key in w.store {
      var offset := session.offset + |m.frame.bytes|;
      AppendOutcome(w.store, session.offset, t.descriptor, m.frame.bytes, m.now);
      assert PartOf(w'.store, key) == PartOf(w.store, key) + m.frame.bytes;
      assert t.archive[..session.offset] + m.frame.bytes == t.archive[..offset];
      assert t.archive[session.start..offset] == t.archive[session.start..session.offset] + m.frame.bytes;
      PayloadOfOneMore(session.accepted, m.frame.bytes);
    }
  }

  lemma CrashKeepsPrefix(hash: Bytes -> ResourceId, w: World, m: Move, t: Transfer)
    requires m.Crash? && Describes(hash, t) && Legal(hash, w, m) && Honest(w, m, t) && PrefixHolds(w, t)
    ensures PrefixHolds(Turn(hash, w, m), t)
  {
    var key := KeyOf(t.descriptor);
    var effects := EffectsOf(hash, w, m.during);
    if m.during.Open? {
      ResumeAppendsNothing(w.store, m.during.listing, m.during.descriptor, m.during.now);
      CrashWithoutAppend(w.store, effects, m.left, key);
    } else if m.during.Accept? && m.during.id in w.sessions {
      CrashInFrameKeepsPrefix(hash, w, m.during, m.left, t);
    }
  }

  lemma CrashInFrameKeepsPrefix(hash: Bytes -> ResourceId, w: World, during: Move, left: Store, t: Transfer)
    requires during.Accept? && during.id in w.sessions && Honest(w, during, t) && PrefixHolds(w, t)
    requires CrashState(w.store, EffectsOf(hash, w, during), left)
    ensures PartOf(left, KeyOf(t.descriptor)) <= t.archive
  {
    var key := KeyOf(t.descriptor);
    var session := w.sessions[during.id];
    var effects := EffectsOf(hash, w, during);
    FrameEffectsStayHome(hash, w.store, session, during.frame, during.now);
    if !Concerns(w, during.id, t) {
      CrashElsewhere(w.store, effects, left, key);
    } else {
      var chunks :| IsChunking(chunks, t.archive[session.start..])
        && session.accepted + [during.frame] <= SenderFrames(t.descriptor.compression, chunks);
      NextHonestFrame(session, during.frame, t, chunks);
      if session.accepted != [] && during.frame.ArchiveChunk? && key in w.store {
        CrashDuringAppend(w.store, session.offset, t.descriptor, during.frame.bytes, during.now, left);
      } else {
        CrashWithoutAppend(w.store, effects, left, key);
      }
    }
  }

  lemma TurnKeepsPrefix(hash: Bytes -> ResourceId, w: World, m: Move, t: Transfer)
    requires Describes(hash, t) && Legal(hash, w, m) && Honest(w, m, t) && PrefixHolds(w, t)
    ensures PrefixHolds(Turn(hash, w, m), t)
  {
    hide PrefixHolds, Honest, Legal, Describes;
    match m
    case Open(_, _, _, _, _) => OpenKeepsPrefix(hash, w, m, t);
    case Accept(_, _, _, _) => AcceptKeepsPrefix(hash, w, m, t);
    case Crash(_, _) => CrashKeepsPrefix(hash, w, m, t);
    case Drop(_) => DropKeepsPrefix(hash, w, m, t);
  }

  lemma DropKeepsPrefix(hash: Bytes -> ResourceId, w: World, m: Move, t: Transfer)
    requires m.Drop? && PrefixHolds(w, t)
    ensures PrefixHolds(Turn(hash, w, m), t)
  {
    PrefixCarries(w, Turn(hash, w, m), t);
  }

  lemma ResumeFindsPrefix(w: World, t: Transfer, listing: seq<PartialKey>, now: nat)
    requires PrefixHolds(w, t) && t.descriptor.archiveBytes == |t.archive|
    ensures var o := ResumeOffset(w.store, listing, t.descriptor, now);
            && o <= |t.archive|
            && PartOf(Run(w.store, ResumeEffects(w.store, listing, t.descriptor, now)), KeyOf(t.descriptor))
               == t.archive[..o]
  {
    ResumeOutcome(w.store, listing, t.descriptor, now);
  }

  lemma HonestEndIsReceived(hash: Bytes -> ResourceId, w: World, t: Transfer, m: Move)
    requires Describes(hash, t) && PrefixHolds(w, t)
    requires m.Accept? && m.frame.Done? && Honest(w, m, t) && Concerns(w, m.id, t)
    ensures var key := KeyOf(t.descriptor);
            FrameOutcome(hash, w.store, w.sessions[m.id], m.frame, m.unpacks) == Received(t.archive) <==>
              m.unpacks && key in w.store && w.store[key].part.Some?
    ensures KeyOf(t.descriptor) in w.store && t.archive != [] ==> w.store[KeyOf(t.descriptor)].part.Some?
  {
    hide PayloadOf, Flatten, CompleteEffects, AppendResult;
    var session := w.sessions[m.id];
    var chunks :| IsChunking(chunks, t.archive[session.start..])
      && session.accepted + [m.frame] <= SenderFrames(t.descriptor.compression, chunks);
    NextHonestFrame(session, m.frame, t, chunks);
    assert t.archive[..session.offset] == t.archive;
  }

  lemma ReadsAreSeen(chunks: seq<Bytes>)
    requires chunks != [] && chunks[0] != []
    ensures Flatten(chunks) != []
  {
    assert Flatten(chunks) == chunks[0] + Flatten(chunks[1..]);
  }

  lemma NothingToRead(chunks: seq<Bytes>)
    requires IsChunking(chunks, [])
    ensures chunks == []
  {
    if chunks != [] {
      ReadsAreSeen(chunks);
    }
  }

  /** A session that was offered the whole archive has only a header and an end to take from its sender. */
  lemma CompleteOfferNeedsNoChunks(w: World, t: Transfer, m: Move)
    requires m.Accept? && Honest(w, m, t) && Concerns(w, m.id, t) && w.sessions[m.id].start == |t.archive|
    ensures w.sessions[m.id].accepted + [m.frame] <= [Header(t.descriptor.compression), SecureFrame.Done]
  {
    var session := w.sessions[m.id];
    var chunks :| IsChunking(chunks, t.archive[session.start..])
                  && session.accepted + [m.frame] <= SenderFrames(t.descriptor.compression, chunks);
    NothingToRead(chunks);
    assert SenderFrames(t.descriptor.compression, []) == [Header(t.descriptor.compression), SecureFrame.Done];
  }

  // ---------------------------------------------------------------------------------------------
  // Exactly when a chunk keeps the law.

  /** Every chunk that a session takes or refuses is in the part afterwards. */
  lemma ChunkAppends(hash: Bytes -> ResourceId, w: World, m: Move)
    requires m.Accept? && m.frame.ArchiveChunk? && m.id in w.sessions && w.sessions[m.id].compression.Some?
    requires KeyOf(w.sessions[m.id].descriptor) in w.store
    ensures var key := KeyOf(w.sessions[m.id].descriptor);
            PartOf(Turn(hash, w, m).store, key) == PartOf(w.store, key) + m.frame.bytes
  {
    var session := w.sessions[m.id];
    AppendOutcome(w.store, session.offset, session.descriptor, m.frame.bytes, m.now);
    var effects := AppendEffects(w.store, session.offset, session.descriptor, m.frame.bytes, m.now);
    assert Turn(hash, w, m).store == Run(w.store, effects);
    hide Turn, AppendEffects, Run;
  }

  predicate BeginsWith(archive: Bytes, total: nat, p: Bytes) {
    |archive| == total && p <= archive
  }

  predicate Extended(archive: Bytes, p: Bytes, offset: nat, n: nat) {
    offset + n <= |archive| && p + archive[offset..offset + n] <= archive
  }

  /** For a part `p` and the archives that begin with it: appending what the archive has at an offset gives a
      prefix of every such archive exactly when the offset is the part's end. */
  lemma ExtendsExactly(total: nat, p: Bytes, offset: nat, n: nat)
    requires |p| <= total && 0 < n && offset + n <= total
    ensures (forall a: Bytes :: BeginsWith(a, total, p) ==> Extended(a, p, offset, n)) <==> offset == |p|
  {
    if offset == |p| {
      forall a: Bytes | BeginsWith(a, total, p) ensures Extended(a, p, offset, n) {
        assert p + a[offset..offset + n] == a[..offset + n];
      }
    } else {
      var byte := if offset < |p| then p[offset] else 0;
      var other := if byte == 0 then 1 else 0;
      var a: Bytes := p + seq(total - |p|, i requires 0 <= i < total - |p| => if i == 0 then other else byte);
      assert a[offset] == byte;
      var b := p + a[offset..offset + n];
      assert b[|p|] == byte;
      assert |p| < total ==> a[|p|] != byte;
      assert BeginsWith(a, total, p) && !Extended(a, p, offset, n);
    }
  }

  /** After a session has been given the archive's bytes at that position, the part is a prefix of the archive. */
  predicate KeepsPrefixOf(hash: Bytes -> ResourceId, w: World, id: nat, archive: Bytes, at: nat, n: nat, now: nat, unpacks: bool)
    requires id in w.sessions && at + n <= |archive|
  {
    var chunk := ArchiveChunk(archive[at..at + n]);
    PartOf(Turn(hash, w, Accept(id, chunk, now, unpacks)).store, KeyOf(w.sessions[id].descriptor)) <= archive
  }

  lemma ChunkExtends(hash: Bytes -> ResourceId, w: World, id: nat, archive: Bytes, at: nat, n: nat, now: nat, unpacks: bool)
    requires id in w.sessions && w.sessions[id].compression.Some? && KeyOf(w.sessions[id].descriptor) in w.store
    requires at + n <= |archive|
    ensures KeepsPrefixOf(hash, w, id, archive, at, n, now, unpacks)
            <==> Extended(archive, PartOf(w.store, KeyOf(w.sessions[id].descriptor)), at, n)
  {
    ChunkAppends(hash, w, Accept(id, ArchiveChunk(archive[at..at + n]), now, unpacks));
    hide Turn, PartOf;
  }

  /** A chunk that the sender read at some position keeps the part a prefix of the archive, whatever archive begins
      with the part, exactly when the part ends at that position. The position is the session's own offset when
      sessions overlap, and what the sender was told when an offer was altered. */
  lemma AppendKeepsPrefixExactly(hash: Bytes -> ResourceId, w: World, id: nat, at: nat, n: nat, now: nat, unpacks: bool)
    requires id in w.sessions && w.sessions[id].compression.Some? && KeyOf(w.sessions[id].descriptor) in w.store
    requires var d := w.sessions[id].descriptor;
      0 < n && at + n <= d.archiveBytes && |PartOf(w.store, KeyOf(d))| <= d.archiveBytes
    ensures var d := w.sessions[id].descriptor;
      var p := PartOf(w.store, KeyOf(d));
      (forall a: Bytes :: BeginsWith(a, d.archiveBytes, p) ==> KeepsPrefixOf(hash, w, id, a, at, n, now, unpacks))
      <==> at == |p|
  {
    var d := w.sessions[id].descriptor;
    var p := PartOf(w.store, KeyOf(d));
    forall a: Bytes | BeginsWith(a, d.archiveBytes, p)
      ensures KeepsPrefixOf(hash, w, id, a, at, n, now, unpacks) <==> Extended(a, p, at, n)
    {
      ChunkExtends(hash, w, id, a, at, n, now, unpacks);
    }
    ExtendsExactly(d.archiveBytes, p, at, n);
    hide KeepsPrefixOf, Extended, PartOf;
  }
}
