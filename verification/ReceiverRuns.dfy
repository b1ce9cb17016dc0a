/** Runs of the receiver on its whole disk: sessions whose frames come through channels that may lose, reorder,
    repeat and invent chunks, archives that are unpacked into the directory that also holds the partials, and
    crashes of the process at any point. */
module ReceiverRuns {
  import opened Bytes
  import opened ChunkRatchet
  import opened SecureChannel
  import opened FileTree
  import opened ResumeStore
  import opened Unpacking
  import opened ReceiverDisk
  import opened DiskLaws
  import opened DirectTransfer
  import T = TransferRuns

  /** One connection: the receiver's session, the offset that its sender was told, and the channel that feeds it.
      The offer is part of the unprotected introduction, so what the sender was told need not be the session's
      start. */
  datatype Link = Link(session: Session, told: U64, secret: nat, prefix: NoncePrefix, channel: Channel)

  /** A transfer that was reported as received: what was unpacked, onto what, and with which outcome. */
  datatype Receipt = Receipt(id: nat, descriptor: Descriptor, archive: Bytes, before: Tree, report: Report)

  datatype World = World(disk: Disk, links: map<nat, Link>, receipts: seq<Receipt>)

  /** `Write` is the sender's side of a connection, `Arrive` the receiver's. Direct and libp2p sessions may run side
      by side; a libp2p peer that introduces itself again drops its session and opens another. */
  datatype Move =
    | Open(id: nat, descriptor: Descriptor, listing: seq<PartialKey>, now: nat, patient: bool, told: U64, secret: nat,
        prefix: NoncePrefix)
    | Write(id: nat, frame: SecureFrame)
    | Arrive(id: nat, chunk: EncryptedChunk, now: nat)
    | Drop(id: nat)
    | Crash(during: Move, left: Disk)

  /** A receiver that has not received anything yet, on a disk with these files. */
  function Fresh(rest: Tree): World {
    World(Disk(map[], rest), map[], [])
  }

  // ---------------------------------------------------------------------------------------------
  // One move.

  /** The frame that a chunk opens to, on a live connection. */
  function FrameOf(u: Receiver, w: World, m: Move): Option<SecureFrame> {
    if !m.Arrive? || m.id !in w.links then None
    else
      match Decrypted(u.secure, w.links[m.id].channel.receiver, m.chunk).1
      case Ok(frame) => Some(frame)
      case Err(_) => None
  }

  function EffectsOf(u: Receiver, w: World, m: Move): seq<Effect> {
    match m
    case Open(_, d, listing, now, _, _, _, _) => ResumeEffects(w.disk.store, listing, d, now)
    case Arrive(id, _, now) =>
      (match FrameOf(u, w, m)
       case None => []
       case Some(frame) => FrameEffects(u.env.hash, w.disk.store, w.links[id].session, frame, now))
    case _ => []
  }

  /** The disk after the archive that the move completes, if any, has been unpacked. */
  function UnpackedBy(u: Receiver, w: World, m: Move): Option<(Disk, Report)> {
    match FrameOf(u, w, m)
    case None => None
    case Some(frame) => Unpacked(u, w.disk, w.links[m.id].session, frame)
  }

  function BaseDisk(u: Receiver, w: World, m: Move): Disk {
    if UnpackedBy(u, w, m).Some? then UnpackedBy(u, w, m).value.0 else w.disk
  }

  function DiskAfter(u: Receiver, w: World, m: Move): Disk {
    BaseDisk(u, w, m).(store := Run(BaseDisk(u, w, m).store, EffectsOf(u, w, m)))
  }

  function LinksAfter(u: Receiver, w: World, m: Move, frame: SecureFrame): map<nat, Link>
    requires m.Arrive? && m.id in w.links
  {
    var link := w.links[m.id];
    match SessionAfter(u.env.hash, w.disk.store, link.session, frame)
    case Some(session) =>
      w.links[m.id := link.(session := session, channel := Next(u.secure, link.channel, Deliver(m.chunk)))]
    case None => w.links - {m.id}
  }

  function ReceiptsAfter(u: Receiver, w: World, m: Move, frame: SecureFrame): seq<Receipt>
    requires m.Arrive? && m.id in w.links
  {
    var session := w.links[m.id].session;
    match FrameResult(u, w.disk, session, frame)
    case Received(archive) =>
      (match UnpackedBy(u, w, m)
       case Some((_, report)) => w.receipts + [Receipt(m.id, session.descriptor, archive, FullTree(u, w.disk), report)]
       case None => w.receipts)
    case _ => w.receipts
  }

  function Turn(u: Receiver, w: World, m: Move): World {
    match m
    case Open(id, d, listing, now, patient, told, secret, prefix) =>
      var offset := ResumeOffset(w.disk.store, listing, d, now);
      var link := Link(Session(d, offset, offset, None, [], patient), told, secret, prefix, Opening(secret, prefix));
      World(DiskAfter(u, w, m), w.links[id := link], w.receipts)
    case Write(id, frame) =>
      if id !in w.links then w
      else w.(links := w.links[id := w.links[id].(channel := Next(u.secure, w.links[id].channel, Send(frame)))])
    case Arrive(id, chunk, now) =>
      if id !in w.links then w
      else
        (match FrameOf(u, w, m)
         case None => w.(links := w.links - {id})
         case Some(frame) => World(DiskAfter(u, w, m), LinksAfter(u, w, m, frame), ReceiptsAfter(u, w, m, frame)))
    case Drop(id) => w.(links := w.links - {id})
    case Crash(_, left) => World(left, map[], w.receipts)
  }

  function Turns(u: Receiver, w: World, moves: seq<Move>): World
    decreases |moves|
  {
    if moves == [] then w else Turns(u, Turn(u, w, moves[0]), moves[1..])
  }

  // ---------------------------------------------------------------------------------------------
  // Which moves can happen.

  function ArchiveOf(u: Receiver, w: World, m: Move): Bytes
    requires UnpackedBy(u, w, m).Some?
  {
    CompleteResult(u.env.hash, w.disk.store, w.links[m.id].session.descriptor).value
  }

  function CompressionOf(u: Receiver, w: World, m: Move): Compression
    requires UnpackedBy(u, w, m).Some?
  {
    w.links[m.id].session.compression.value
  }

  /** What a crash during a move can leave on the disk. While an archive is being unpacked that is what some of
      its frames have made; before and after, what the effects on the store leave. */
  ghost predicate CanLeave(u: Receiver, w: World, m: Move, left: Disk) {
    match UnpackedBy(u, w, m)
    case None => left.rest == w.disk.rest && CrashState(w.disk.store, EffectsOf(u, w, m), left.store)
    case Some((unpacked, _)) =>
      || left == w.disk
      || (exists t :: MidTree(u, FullTree(u, w.disk), CompressionOf(u, w, m), ArchiveOf(u, w, m), t) && left == SplitDisk(u, t))
      || (left.rest == unpacked.rest && CrashState(unpacked.store, EffectsOf(u, w, m), left.store))
  }

  ghost predicate Legal(u: Receiver, w: World, m: Move) {
    match m
    case Open(id, _, _, _, _, _, _, _) => id !in w.links
    case Crash(during, left) => Legal(u, w, during) && CanLeave(u, w, during, left)
    case _ => true
  }

  /** No archive that is unpacked lists a path in the resume directory. */
  predicate KeptOut(u: Receiver, w: World, m: Move) {
    match m
    case Crash(during, _) => KeptOut(u, w, during)
    case _ => UnpackedBy(u, w, m).Some? ==> KeepsOut(u, CompressionOf(u, w, m), ArchiveOf(u, w, m))
  }

  predicate Concerns(w: World, id: nat, t: T.Transfer) {
    id in w.links && KeyOf(w.links[id].session.descriptor) == KeyOf(t.descriptor)
  }

  /** What the sender has written so far is what it writes for the archive from the offset it was told. */
  ghost predicate WrittenFor(sent: seq<SecureFrame>, told: nat, t: T.Transfer) {
    sent == [] ||
      exists chunks :: told <= |t.archive| && IsChunking(chunks, t.archive[told..])
        && sent <= SenderFrames(t.descriptor.compression, chunks)
  }

  /** On the transfer's own partial the peer is its sender, and nobody else has the session's secret. Chunks may
      be lost, reordered, repeated, renumbered and invented. Other sessions may do anything at all. */
  ghost predicate FromSender(u: Receiver, w: World, m: Move, t: T.Transfer) {
    match m
    case Open(_, d, _, _, _, _, _, _) => KeyOf(d) == KeyOf(t.descriptor) ==> d == t.descriptor
    case Write(id, frame) => Concerns(w, id, t) ==> WrittenFor(w.links[id].channel.sent + [frame], w.links[id].told, t)
    case Arrive(id, chunk, _) => Concerns(w, id, t) ==> Possible(w.links[id].secret, w.links[id].channel, Deliver(chunk))
    case Crash(during, _) => FromSender(u, w, during, t)
    case Drop(_) => true
  }

  /** Sessions on the transfer's partial do not overlap. */
  ghost predicate OpensAlone(w: World, m: Move, t: T.Transfer) {
    match m
    case Open(_, d, _, _, _, _, _, _) => KeyOf(d) == KeyOf(t.descriptor) ==> forall id :: !Concerns(w, id, t)
    case Crash(during, _) => OpensAlone(w, during, t)
    case _ => true
  }

  /** The transfer's sender is told the offset that the store offers. */
  predicate OfferArrives(w: World, m: Move, t: T.Transfer) {
    match m
    case Open(_, d, listing, now, _, told, _, _) =>
      KeyOf(d) == KeyOf(t.descriptor) ==> told == ResumeOffset(w.disk.store, listing, d, now)
    case Crash(during, _) => OfferArrives(w, during, t)
    case _ => true
  }

  ghost predicate Honest(u: Receiver, w: World, m: Move, t: T.Transfer) {
    FromSender(u, w, m, t) && OpensAlone(w, m, t) && OfferArrives(w, m, t)
  }

  ghost predicate HonestRun(u: Receiver, w: World, moves: seq<Move>, t: T.Transfer)
    decreases |moves|
  {
    moves == [] || (Legal(u, w, moves[0]) && Honest(u, w, moves[0], t) && KeptOut(u, w, moves[0])
                    && HonestRun(u, Turn(u, w, moves[0]), moves[1..], t))
  }

  // ---------------------------------------------------------------------------------------------
  // The machine of the store that this one follows.

  function StoreWorld(w: World): T.World {
    T.World(w.disk.store, map id | id in w.links :: w.links[id].session, [])
  }

  function StoreMove(u: Receiver, w: World, m: Move): T.Move {
    match m
    case Open(id, d, listing, now, patient, _, _, _) => T.Open(id, d, listing, now, patient)
    case Arrive(id, _, now) =>
      (match FrameOf(u, w, m)
       case None => T.Drop(id)
       case Some(frame) => T.Accept(id, frame, now, UnpackedBy(u, w, m).Some? && UnpackedBy(u, w, m).value.1.result.Ok?))
    case Write(id, _) => T.Drop(id)
    case Drop(id) => T.Drop(id)
    case Crash(during, left) => T.Crash(StoreMove(u, w, during), left.store)
  }

  /** The channel of an honest session is in step, it has delivered exactly the frames that the session took, and
      what was written to it is the sender's. */
  ghost predicate Tied(u: Receiver, link: Link, t: T.Transfer) {
    && Lockstep(u.secure, link.secret, link.prefix, link.channel)
    && link.channel.failures == 0
    && link.channel.accepted == link.session.accepted
    && link.told == link.session.start
    && WrittenFor(link.channel.sent, link.told, t)
  }

  ghost predicate AllTied(u: Receiver, w: World, t: T.Transfer) {
    forall id :: Concerns(w, id, t) ==> Tied(u, w.links[id], t)
  }

  predicate HeadersMatch(w: World) {
    forall id :: id in w.links && w.links[id].session.compression.Some?
      ==> w.links[id].session.compression == Some(w.links[id].session.descriptor.compression)
  }

  ghost predicate Inv(u: Receiver, w: World, t: T.Transfer) {
    Tidy(u, w.disk.rest) && T.PrefixHolds(StoreWorld(w), t) && AllTied(u, w, t) && HeadersMatch(w)
  }

  lemma SameConcerns(w: World, id: nat, t: T.Transfer)
    ensures T.Concerns(StoreWorld(w), id, t) <==> Concerns(w, id, t)
  {
  }

  /** The bridge from the channel to the store: a frame that arrives on an honest session is the next one that its
      sender wrote. */
  lemma ArrivedIsNext(u: Receiver, w: World, m: Move, t: T.Transfer)
    requires Inverse(u.secure) && m.Arrive? && Concerns(w, m.id, t) && Tied(u, w.links[m.id], t)
    requires Honest(u, w, m, t) && FrameOf(u, w, m).Some?
    ensures var channel := Next(u.secure, w.links[m.id].channel, Deliver(m.chunk));
            var frame := FrameOf(u, w, m).value;
            && channel.accepted == w.links[m.id].session.accepted + [frame]
            && channel.failures == 0
            && Lockstep(u.secure, w.links[m.id].secret, w.links[m.id].prefix, channel)
            && channel.sent == w.links[m.id].channel.sent
            && channel.accepted <= channel.sent
    ensures T.Honest(StoreWorld(w), StoreMove(u, w, m), t)
  {
    hide PossibleRun, RatchetAt;
    var link := w.links[m.id];
    LockstepDeliver(u.secure, link.secret, link.prefix, link.channel, m.chunk);
    var channel := Next(u.secure, link.channel, Deliver(m.chunk));
    assert channel.accepted <= channel.sent;
    assert channel.sent != [];
    var chunks :| link.session.start <= |t.archive| && IsChunking(chunks, t.archive[link.session.start..])
      && channel.sent <= SenderFrames(t.descriptor.compression, chunks);
    assert link.session.accepted + [FrameOf(u, w, m).value] <= SenderFrames(t.descriptor.compression, chunks);
  }

  lemma PrefixIgnoresReceipts(a: T.World, b: T.World, t: T.Transfer)
    requires T.PrefixHolds(a, t) && a.store == b.store && a.sessions == b.sessions
    ensures T.PrefixHolds(b, t)
  {
    hide T.Tracks, T.PayloadOf;
    assert forall id :: T.Concerns(a, id, t) <==> T.Concerns(b, id, t);
  }

  // ---------------------------------------------------------------------------------------------
  // Step by step.

  lemma NothingUnpacked(u: Receiver, w: World, m: Move)
    requires !m.Arrive?
    ensures FrameOf(u, w, m) == None && UnpackedBy(u, w, m) == None && BaseDisk(u, w, m) == w.disk
  {
  }

  /** Archives that keep out of the resume directory leave the store to its own effects. */
  lemma BaseIsTidy(u: Receiver, w: World, m: Move)
    requires Tidy(u, w.disk.rest) && ReadsBack(u.metadata) && KeptOut(u, w, m) && !m.Crash?
    ensures BaseDisk(u, w, m).store == w.disk.store && Tidy(u, BaseDisk(u, w, m).rest)
  {
    hide Tidy, ReadsBack, FrameOf, KeepsOut, UnpackOnDisk;
    if UnpackedBy(u, w, m).Some? {
      UnpackingLeavesStore(u, w.disk, CompressionOf(u, w, m), ArchiveOf(u, w, m));
    }
  }

  predicate Agree(a: T.World, b: T.World) {
    a.store == b.store && a.sessions == b.sessions
  }

  lemma OpenFollows(u: Receiver, w: World, m: Move)
    requires m.Open?
    ensures Agree(T.Turn(u.env.hash, StoreWorld(w), StoreMove(u, w, m)), StoreWorld(Turn(u, w, m)))
  {
    NothingUnpacked(u, w, m);
    hide ResumeEffects, ResumeOffset, Run, BaseDisk, UnpackedBy, FrameOf, Opening;
    var session := Turn(u, w, m).links[m.id].session;
    assert StoreWorld(Turn(u, w, m)).sessions == StoreWorld(w).sessions[m.id := session];
  }

  lemma ArriveFollows(u: Receiver, w: World, m: Move)
    requires m.Arrive? && m.id in w.links && BaseDisk(u, w, m).store == w.disk.store
    ensures Agree(T.Turn(u.env.hash, StoreWorld(w), StoreMove(u, w, m)), StoreWorld(Turn(u, w, m)))
  {
    hide FrameEffects, FrameOutcome, Run, Decrypted, UnpackOnDisk, Next, BaseDisk;
    var link := w.links[m.id];
    if FrameOf(u, w, m).Some? {
      var frame := FrameOf(u, w, m).value;
      assert StoreWorld(w).sessions[m.id] == link.session;
      assert FrameResult(u, w.disk, link.session, frame)
          == FrameOutcome(u.env.hash, w.disk.store, link.session, frame, StoreMove(u, w, m).unpacks);
    }
  }

  lemma TiedAfterWrite(u: Receiver, w: World, m: Move, t: T.Transfer)
    requires Inverse(u.secure) && m.Write? && Honest(u, w, m, t) && AllTied(u, w, t)
    ensures AllTied(u, Turn(u, w, m), t)
  {
    hide Inverse, RatchetAt;
    var w' := Turn(u, w, m);
    forall id | Concerns(w', id, t) ensures Tied(u, w'.links[id], t) {
      assert Concerns(w, id, t);
      if id == m.id {
        var link := w.links[id];
        LockstepSend(u.secure, link.secret, link.prefix, link.channel, m.frame);
        hide Lockstep, WrittenFor;
      }
    }
  }

  lemma OpeningIsTied(u: Receiver, secret: nat, prefix: NoncePrefix, session: Session, t: T.Transfer)
    requires session.accepted == []
    ensures Tied(u, Link(session, session.start, secret, prefix, Opening(secret, prefix)), t)
  {
  }

  lemma TiedAfterOpen(u: Receiver, w: World, m: Move, t: T.Transfer)
    requires m.Open? && OfferArrives(w, m, t) && AllTied(u, w, t)
    ensures AllTied(u, Turn(u, w, m), t)
  {
    hide Tied, ResumeEffects, ResumeOffset, DiskAfter;
    var w' := Turn(u, w, m);
    forall id | Concerns(w', id, t) ensures Tied(u, w'.links[id], t) {
      if id == m.id {
        OpeningIsTied(u, m.secret, m.prefix, w'.links[id].session, t);
      } else {
        assert Concerns(w, id, t);
      }
    }
  }

  lemma TiedAfterArrive(u: Receiver, w: World, m: Move, t: T.Transfer)
    requires Inverse(u.secure) && m.Arrive? && Honest(u, w, m, t) && AllTied(u, w, t)
    ensures AllTied(u, Turn(u, w, m), t)
  {
    hide Inverse, SessionAfter, Next, DiskAfter, ReceiptsAfter, Lockstep, WrittenFor, Possible;
    var w' := Turn(u, w, m);
    forall id | Concerns(w', id, t) ensures Tied(u, w'.links[id], t) {
      if id != m.id {
        assert Concerns(w, id, t);
      } else {
        var frame := FrameOf(u, w, m).value;
        T.SessionKeepsItself(u.env.hash, w.disk.store, w.links[id].session, frame);
        assert Concerns(w, id, t);
        ArrivedIsNext(u, w, m, t);
      }
    }
  }

  /** The honest moves of this machine are honest moves of the store's machine. */
  lemma StoreMoveIsHonest(u: Receiver, w: World, m: Move, t: T.Transfer)
    requires Inverse(u.secure) && Honest(u, w, m, t) && AllTied(u, w, t)
    ensures T.Honest(StoreWorld(w), StoreMove(u, w, m), t)
    decreases m
  {
    match m
    case Open(_, _, _, _, _, _, _, _) =>
      forall id ensures T.Concerns(StoreWorld(w), id, t) <==> Concerns(w, id, t) {
        SameConcerns(w, id, t);
      }
    case Arrive(id, _, _) =>
      if FrameOf(u, w, m).Some? && Concerns(w, id, t) {
        ArrivedIsNext(u, w, m, t);
      }
    case Crash(during, _) => StoreMoveIsHonest(u, w, during, t);
    case _ =>
  }

  lemma HeadersStillMatch(u: Receiver, w: World, m: Move)
    requires HeadersMatch(w)
    ensures HeadersMatch(Turn(u, w, m))
  {
    hide DiskAfter, ReceiptsAfter, Next, UnpackOnDisk, CompleteResult, AppendResult, ResumeOffset, Decrypted;
  }

  /** One honest move keeps the law. */
  lemma TurnKeepsInv(u: Receiver, w: World, m: Move, t: T.Transfer)
    requires Inverse(u.secure) && ReadsBack(u.metadata) && T.Describes(u.env.hash, t)
    requires Legal(u, w, m) && Honest(u, w, m, t) && KeptOut(u, w, m) && Inv(u, w, t)
    ensures Inv(u, Turn(u, w, m), t)
  {
    StoreMoveIsHonest(u, w, m, t);
    hide T.PrefixHolds, AllTied, Tidy, T.Honest, T.Describes, Inverse, ReadsBack, HeadersMatch;
    match m
    case Open(_, _, _, _, _, _, _, _) => OpenKeepsInv(u, w, m, t);
    case Write(_, _) => WriteKeepsInv(u, w, m, t);
    case Arrive(_, _, _) => ArriveKeepsInv(u, w, m, t);
    case Drop(_) => DropKeepsInv(u, w, m, t);
    case Crash(_, _) => CrashKeepsInv(u, w, m, t);
  }

  lemma OpenKeepsInv(u: Receiver, w: World, m: Move, t: T.Transfer)
    requires m.Open? && T.Describes(u.env.hash, t) && Legal(u, w, m) && OfferArrives(w, m, t) && Inv(u, w, t)
    requires T.Honest(StoreWorld(w), StoreMove(u, w, m), t)
    ensures Inv(u, Turn(u, w, m), t)
  {
    HeadersStillMatch(u, w, m);
    hide HeadersMatch, T.PrefixHolds, AllTied, Tidy, T.Honest, T.Describes;
    NothingUnpacked(u, w, m);
    OpenFollows(u, w, m);
    T.TurnKeepsPrefix(u.env.hash, StoreWorld(w), StoreMove(u, w, m), t);
    PrefixIgnoresReceipts(T.Turn(u.env.hash, StoreWorld(w), StoreMove(u, w, m)), StoreWorld(Turn(u, w, m)), t);
    TiedAfterOpen(u, w, m, t);
  }

  lemma WriteKeepsInv(u: Receiver, w: World, m: Move, t: T.Transfer)
    requires m.Write? && Inverse(u.secure) && Honest(u, w, m, t) && Inv(u, w, t)
    ensures Inv(u, Turn(u, w, m), t)
  {
    HeadersStillMatch(u, w, m);
    WriteLeavesStore(u, w, m);
    hide HeadersMatch, T.PrefixHolds, AllTied, Tidy, Inverse, Turn, StoreWorld, Honest;
    TiedAfterWrite(u, w, m, t);
  }

  lemma WriteLeavesStore(u: Receiver, w: World, m: Move)
    requires m.Write?
    ensures StoreWorld(Turn(u, w, m)) == StoreWorld(w) && Turn(u, w, m).disk == w.disk
  {
    hide Next;
    assert StoreWorld(Turn(u, w, m)).sessions == StoreWorld(w).sessions;
  }

  lemma ArriveKeepsInv(u: Receiver, w: World, m: Move, t: T.Transfer)
    requires m.Arrive? && Inverse(u.secure) && ReadsBack(u.metadata) && T.Describes(u.env.hash, t)
    requires Honest(u, w, m, t) && KeptOut(u, w, m) && Inv(u, w, t)
    requires T.Honest(StoreWorld(w), StoreMove(u, w, m), t)
    ensures Inv(u, Turn(u, w, m), t)
  {
    HeadersStillMatch(u, w, m);
    hide HeadersMatch, T.PrefixHolds, AllTied, Tidy, T.Honest, T.Describes, Inverse, ReadsBack;
    if m.id in w.links {
      BaseIsTidy(u, w, m);
      ArriveFollows(u, w, m);
      T.TurnKeepsPrefix(u.env.hash, StoreWorld(w), StoreMove(u, w, m), t);
      PrefixIgnoresReceipts(T.Turn(u.env.hash, StoreWorld(w), StoreMove(u, w, m)), StoreWorld(Turn(u, w, m)), t);
      TiedAfterArrive(u, w, m, t);
      RestAfterArrive(u, w, m);
    }
  }

  lemma RestAfterArrive(u: Receiver, w: World, m: Move)
    requires m.Arrive? && m.id in w.links
    ensures Turn(u, w, m).disk.rest == w.disk.rest || Turn(u, w, m).disk.rest == BaseDisk(u, w, m).rest
  {
    hide BaseDisk, Decrypted, LinksAfter, ReceiptsAfter, EffectsOf;
  }

  lemma DropKeepsInv(u: Receiver, w: World, m: Move, t: T.Transfer)
    requires m.Drop? && Inv(u, w, t)
    ensures Inv(u, Turn(u, w, m), t)
  {
    HeadersStillMatch(u, w, m);
    hide HeadersMatch, T.Tracks, Tied, Tidy, T.PrefixHolds;
    T.DropKeepsPrefix(u.env.hash, StoreWorld(w), T.Drop(m.id), t);
    DropFollows(u, w, m.id);
    assert forall id :: Concerns(Turn(u, w, m), id, t) ==> Concerns(w, id, t);
  }

  lemma DropFollows(u: Receiver, w: World, id: nat)
    ensures StoreWorld(Turn(u, w, Drop(id))) == T.Turn(u.env.hash, StoreWorld(w), T.Drop(id))
  {
    RunNothing(w.disk.store);
    assert StoreWorld(Turn(u, w, Drop(id))).sessions == StoreWorld(w).sessions - {id};
  }

  lemma {:induction false} CrashAtStart(s: Store, effects: seq<Effect>)
    ensures CrashState(s, effects, s)
    decreases |effects|
  {
    if effects != [] {
      CrashAtStart(s, effects[..|effects| - 1]);
    }
  }

  /** What a crash can leave of the store is what it can leave after the store's own move. */
  lemma LeftIsStoreCrash(u: Receiver, w: World, during: Move, left: Disk)
    requires Tidy(u, w.disk.rest) && ReadsBack(u.metadata) && KeptOut(u, w, during) && CanLeave(u, w, during, left)
    ensures Tidy(u, left.rest) && CrashState(w.disk.store, EffectsOf(u, w, during), left.store)
  {
    hide Tidy, ReadsBack, FrameOf, KeepsOut, UnpackOnDisk, SplitDisk, MidTree, CrashState;
    CrashAtStart(w.disk.store, EffectsOf(u, w, during));
    if during.Crash? {
      NothingUnpacked(u, w, during);
    }
    if UnpackedBy(u, w, during).Some? {
      BaseIsTidy(u, w, during);
      if t :| MidTree(u, FullTree(u, w.disk), CompressionOf(u, w, during), ArchiveOf(u, w, during), t)
              && left == SplitDisk(u, t) {
        MidLeavesStore(u, w.disk, CompressionOf(u, w, during), ArchiveOf(u, w, during), t);
      }
    }
  }

  lemma SameEffects(u: Receiver, w: World, m: Move)
    ensures T.EffectsOf(u.env.hash, StoreWorld(w), StoreMove(u, w, m)) == EffectsOf(u, w, m)
  {
    hide ResumeEffects, FrameEffects, Decrypted;
  }

  lemma StoreMoveIsLegal(u: Receiver, w: World, m: Move)
    requires Tidy(u, w.disk.rest) && ReadsBack(u.metadata) && Legal(u, w, m) && KeptOut(u, w, m)
    ensures T.Legal(u.env.hash, StoreWorld(w), StoreMove(u, w, m))
    decreases m
  {
    hide Tidy, ReadsBack, CanLeave, EffectsOf, T.EffectsOf, CrashState, UnpackedBy, FrameOf;
    if m.Crash? {
      StoreMoveIsLegal(u, w, m.during);
      LeftIsStoreCrash(u, w, m.during, m.left);
      SameEffects(u, w, m.during);
    }
  }

  lemma CrashKeepsInv(u: Receiver, w: World, m: Move, t: T.Transfer)
    requires m.Crash? && ReadsBack(u.metadata) && T.Describes(u.env.hash, t)
    requires Legal(u, w, m) && KeptOut(u, w, m) && Inv(u, w, t)
    requires T.Honest(StoreWorld(w), StoreMove(u, w, m), t)
    ensures Inv(u, Turn(u, w, m), t)
  {
    HeadersStillMatch(u, w, m);
    hide HeadersMatch, T.PrefixHolds, Tidy, T.Honest, T.Legal, T.Describes, ReadsBack, CanLeave;
    StoreMoveIsLegal(u, w, m);
    LeftIsStoreCrash(u, w, m.during, m.left);
    T.TurnKeepsPrefix(u.env.hash, StoreWorld(w), StoreMove(u, w, m), t);
    assert StoreWorld(Turn(u, w, m)) == T.World(m.left.store, map[], []);
    PrefixIgnoresReceipts(T.Turn(u.env.hash, StoreWorld(w), StoreMove(u, w, m)), StoreWorld(Turn(u, w, m)), t);
  }

  lemma {:induction false} LawAlwaysHolds(u: Receiver, w: World, moves: seq<Move>, t: T.Transfer)
    requires Inverse(u.secure) && ReadsBack(u.metadata) && T.Describes(u.env.hash, t)
    requires HonestRun(u, w, moves, t) && Inv(u, w, t)
    ensures Inv(u, Turns(u, w, moves), t)
    decreases |moves|
  {
    hide Inverse, ReadsBack, T.Describes, Inv, Turn, Legal, Honest, KeptOut;
    if moves != [] {
      TurnKeepsInv(u, w, moves[0], t);
      LawAlwaysHolds(u, Turn(u, w, moves[0]), moves[1..], t);
    }
  }

  lemma FreshIsFine(u: Receiver, rest: Tree, t: T.Transfer)
    requires Tidy(u, rest)
    ensures Inv(u, Fresh(rest), t)
  {
    assert StoreWorld(Fresh(rest)).sessions == map[];
  }

  /** After any run in which other sessions, channels and crashes do what they can, sessions on this partial come
      from its sender, are told the offset that is offered and do not overlap, and no archive that is unpacked
      lists a path in the resume directory:
      `resume_state` offers an offset within the archive, and the part file then holds exactly that many bytes
      of it. */
  lemma ResumeOffersPrefix(u: Receiver, rest: Tree, moves: seq<Move>, t: T.Transfer, listing: seq<PartialKey>, now: nat)
    requires Inverse(u.secure) && ReadsBack(u.metadata) && T.Describes(u.env.hash, t) && Tidy(u, rest)
    requires HonestRun(u, Fresh(rest), moves, t)
    ensures var store := Turns(u, Fresh(rest), moves).disk.store;
            var o := ResumeOffset(store, listing, t.descriptor, now);
            && o <= |t.archive|
            && PartOf(Run(store, ResumeEffects(store, listing, t.descriptor, now)), KeyOf(t.descriptor)) == t.archive[..o]
  {
    hide Tidy, Inverse, ReadsBack, HonestRun, Turns, AllTied, T.PrefixHolds;
    FreshIsFine(u, rest, t);
    LawAlwaysHolds(u, Fresh(rest), moves, t);
    T.ResumeFindsPrefix(StoreWorld(Turns(u, Fresh(rest), moves)), t, listing, now);
  }

  // ---------------------------------------------------------------------------------------------
  // What is reported.

  /** The receipt tells what happened: the archive has the announced length and hash, and unpacking it onto the
      files that were there succeeded. */
  predicate Truthful(u: Receiver, r: Receipt) {
    && |r.archive| == r.descriptor.archiveBytes && u.env.hash(r.archive) == r.descriptor.resourceId
    && r.report == UnpackArchive(u.env, u.frames, u.packer, r.before, r.descriptor.compression, r.archive)
    && r.report.result.Ok?
  }

  lemma ReceiptIsTruthful(u: Receiver, w: World, m: Move)
    requires HeadersMatch(w) && m.Arrive? && m.id in w.links && FrameOf(u, w, m).Some?
    requires FrameResult(u, w.disk, w.links[m.id].session, FrameOf(u, w, m).value).Received?
    ensures UnpackedBy(u, w, m).Some?
    ensures Truthful(u, Receipt(m.id, w.links[m.id].session.descriptor,
                                FrameResult(u, w.disk, w.links[m.id].session, FrameOf(u, w, m).value).archive,
                                FullTree(u, w.disk), UnpackedBy(u, w, m).value.1))
  {
    hide Decrypted, UnpackArchive, FullTree, SplitDisk, AppendResult;
  }

  lemma TurnIsTruthful(u: Receiver, w: World, m: Move)
    requires HeadersMatch(w) && forall r :: r in w.receipts ==> Truthful(u, r)
    ensures HeadersMatch(Turn(u, w, m)) && forall r :: r in Turn(u, w, m).receipts ==> Truthful(u, r)
  {
    HeadersStillMatch(u, w, m);
    hide HeadersMatch, Truthful, LinksAfter, DiskAfter, FrameResult, Decrypted;
    if m.Arrive? && m.id in w.links && FrameOf(u, w, m).Some? {
      if FrameResult(u, w.disk, w.links[m.id].session, FrameOf(u, w, m).value).Received? {
        ReceiptIsTruthful(u, w, m);
      }
    }
  }

  /** Under any interleaving of any sessions, whatever peers, channels and crashes do, what is reported received
      passed the check and was unpacked. */
  lemma {:induction false} ReceiptsAreTruthful(u: Receiver, w: World, moves: seq<Move>)
    requires HeadersMatch(w) && forall r :: r in w.receipts ==> Truthful(u, r)
    ensures forall r :: r in Turns(u, w, moves).receipts ==> Truthful(u, r)
    decreases |moves|
  {
    hide HeadersMatch, Truthful, Turn;
    if moves != [] {
      TurnIsTruthful(u, w, moves[0]);
      ReceiptsAreTruthful(u, Turn(u, w, moves[0]), moves[1..]);
    }
  }

  /** When the end that the sender wrote arrives, the archive that is checked and unpacked is the sender's, and
      the transfer is received exactly when the part is still there and the archive unpacks. */
  lemma HonestEndIsReceived(u: Receiver, w: World, m: Move, t: T.Transfer)
    requires Inverse(u.secure) && T.Describes(u.env.hash, t) && Inv(u, w, t)
    requires m.Arrive? && Concerns(w, m.id, t) && Honest(u, w, m, t) && FrameOf(u, w, m) == Some(SecureFrame.Done)
    ensures var key := KeyOf(t.descriptor);
      var unpacked := UnpackArchive(u.env, u.frames, u.packer, FullTree(u, w.disk), t.descriptor.compression, t.archive);
      && (FrameResult(u, w.disk, w.links[m.id].session, SecureFrame.Done) == Received(t.archive)
          <==> key in w.disk.store && w.disk.store[key].part.Some? && unpacked.result.Ok?)
      && (FrameResult(u, w.disk, w.links[m.id].session, SecureFrame.Done).Received? ==>
            && FrameResult(u, w.disk, w.links[m.id].session, SecureFrame.Done) == Received(t.archive)
            && UnpackedBy(u, w, m).Some? && UnpackedBy(u, w, m).value.1 == unpacked)
  {
    StoreMoveIsHonest(u, w, m, t);
    SameConcerns(w, m.id, t);
    T.HonestEndIsReceived(u.env.hash, StoreWorld(w), t, StoreMove(u, w, m));
    EndOfSession(u, w, m, t);
  }

  /** The last frame of a session whose partial is the whole archive. */
  lemma EndOfWhole(u: Receiver, disk: Disk, session: Session, archive: Bytes)
    requires session.compression == Some(session.descriptor.compression)
    requires |archive| == session.descriptor.archiveBytes && u.env.hash(archive) == session.descriptor.resourceId
    requires KeyOf(session.descriptor) in disk.store ==> PartOf(disk.store, KeyOf(session.descriptor)) == archive
    ensures var key := KeyOf(session.descriptor);
      var unpacked := UnpackArchive(u.env, u.frames, u.packer, FullTree(u, disk), session.descriptor.compression, archive);
      if key in disk.store && disk.store[key].part.Some? then
        Unpacked(u, disk, session, SecureFrame.Done).Some? && Unpacked(u, disk, session, SecureFrame.Done).value.1 == unpacked
        && FrameResult(u, disk, session, SecureFrame.Done) == (if unpacked.result.Ok? then Received(archive) else Failed)
      else FrameResult(u, disk, session, SecureFrame.Done) == Failed
  {
    hide UnpackArchive, FullTree, SplitDisk;
  }

  lemma EndOfSession(u: Receiver, w: World, m: Move, t: T.Transfer)
    requires T.Describes(u.env.hash, t) && Inv(u, w, t) && m.Arrive? && Concerns(w, m.id, t)
    requires FrameOf(u, w, m) == Some(SecureFrame.Done) && T.Honest(StoreWorld(w), StoreMove(u, w, m), t)
    ensures var key := KeyOf(t.descriptor);
      var session := w.links[m.id].session;
      var unpacked := UnpackArchive(u.env, u.frames, u.packer, FullTree(u, w.disk), t.descriptor.compression, t.archive);
      if key in w.disk.store && w.disk.store[key].part.Some? then
        UnpackedBy(u, w, m).Some? && UnpackedBy(u, w, m).value.1 == unpacked
        && FrameResult(u, w.disk, session, SecureFrame.Done) == (if unpacked.result.Ok? then Received(t.archive) else Failed)
      else FrameResult(u, w.disk, session, SecureFrame.Done) == Failed
  {
    var session := w.links[m.id].session;
    WholeAtTheEnd(u, w, m, t);
    hide UnpackArchive, FullTree, Unpacked, FrameResult, Tidy, AllTied, T.PrefixHolds, T.Honest, PartOf, HeadersMatch;
    EndOfWhole(u, w.disk, session, t.archive);
  }

  lemma WholeAtTheEnd(u: Receiver, w: World, m: Move, t: T.Transfer)
    requires T.Describes(u.env.hash, t) && Inv(u, w, t) && m.Arrive? && Concerns(w, m.id, t)
    requires FrameOf(u, w, m) == Some(SecureFrame.Done) && T.Honest(StoreWorld(w), StoreMove(u, w, m), t)
    ensures var session := w.links[m.id].session;
      && session.descriptor == t.descriptor && session.compression == Some(session.descriptor.compression)
      && (KeyOf(t.descriptor) in w.disk.store ==> PartOf(w.disk.store, KeyOf(t.descriptor)) == t.archive)
  {
    hide Tidy, AllTied, T.PayloadOf, FrameResult, PartOf, UnpackedBy, Decrypted;
    var session := w.links[m.id].session;
    SameConcerns(w, m.id, t);
    assert T.Tracks(session, t);
    var chunks :| IsChunking(chunks, t.archive[session.start..])
      && session.accepted + [SecureFrame.Done] <= SenderFrames(t.descriptor.compression, chunks);
    T.NextHonestFrame(session, SecureFrame.Done, t, chunks);
    assert t.archive[..session.offset] == t.archive;
    HeaderSeen(session, t, chunks);
  }

  lemma HeaderSeen(session: Session, t: T.Transfer, chunks: seq<Bytes>)
    requires T.Tracks(session, t) && session.accepted + [SecureFrame.Done] <= SenderFrames(t.descriptor.compression, chunks)
    ensures session.accepted != [] && session.compression.Some?
  {
    assert (session.accepted + [SecureFrame.Done])[0] == SenderFrames(t.descriptor.compression, chunks)[0];
  }
}
