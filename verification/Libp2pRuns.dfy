/** The libp2p receiver does to the disk what the receiver's runs do: its introductions open sessions, and its secure
    requests are arrivals on sessions that live on after a refusal. So the laws of these runs hold when direct and
    libp2p sessions share a destination. */
module Libp2pRuns {
  import opened Bytes
  import opened SecureChannel
  import opened ResumeStore
  import opened ReceiverDisk
  import opened Transcripts
  import opened Libp2pReceiver
  import opened Libp2pExchange
  import D = DirectTransfer
  import R = ReceiverRuns

  /** The session of a connection is at the same place as that of a peer. */
  predicate SamePlace(s: Session, session: D.Session) {
    session.patient && session.descriptor == s.descriptor && session.offset == s.offset && session.compression == s.compression
  }

  /** And they open the same chunks. */
  predicate Matches(s: Session, link: R.Link) {
    && SamePlace(s, link.session)
    && s.aead.Some? && link.channel.receiver == Endpoint(s.aead.value, s.expectedSequence)
  }

  /** An introduction opens a session on the same disk, at the offset that the reply offers. */
  lemma IntroductionOpens(o: Options, sessions: Sessions, e: Event, w: R.World, id: nat, told: U64, secret: nat)
    requires e.Request? && e.frame.ClientIntro? && OnRequest(o, sessions, w.disk, e).act.Some? && id !in w.links
    ensures var t := OnRequest(o, sessions, w.disk, e);
      var w' := R.Turn(o.u, w, R.Open(id, e.frame.descriptor, e.listing, e.now, true, told, secret, SENDER_PREFIX));
      && e.peer in t.sessions && t.reply.Respond? && t.reply.frame.ServerIntro?
      && w'.disk == DiskAfter(t)
      && SamePlace(t.sessions[e.peer], w'.links[id].session)
      && w'.links[id].session.start == t.reply.frame.resumeOffset
  {
    R.NothingUnpacked(o.u, w, R.Open(id, e.frame.descriptor, e.listing, e.now, true, told, secret, SENDER_PREFIX));
    hide ResumeEffects, ResumeOffset, Run, Libp2pTranscript, R.BaseDisk, R.UnpackedBy, R.FrameOf;
  }

  /** The finished key exchange gives the session the channel that its sender opened with the exchanged secret. */
  lemma FinishMatches(o: Options, sessions: Sessions, disk: Disk, e: Event, secret: nat, session: D.Session, told: U64)
    requires e.Request? && e.frame.ClientFinish? && e.peer in sessions && sessions[e.peer].expectedSequence == 0
    requires Exchanges(o.auth, sessions[e.peer], e.frame.opaqueFinalization, e.frame.clientKem, secret)
    requires SamePlace(sessions[e.peer], session)
    ensures var t := OnEvent(o, sessions, disk, e);
      && t.reply == Respond(Ack) && e.peer in t.sessions
      && Matches(t.sessions[e.peer], R.Link(session, told, secret, SENDER_PREFIX, Opening(secret, SENDER_PREFIX)))
  {
    FinishedExactly(o, sessions, disk, e);
  }

  /** What a frame that arrives does. */
  lemma ArrivalDoes(u: ReceiverDisk.Receiver, w: R.World, m: R.Move, frame: SecureFrame)
    requires m.Arrive? && m.id in w.links && R.FrameOf(u, w, m) == Some(frame)
    ensures var link, w' := w.links[m.id], R.Turn(u, w, m);
      var after := D.SessionAfter(u.env.hash, w.disk.store, link.session, frame);
      && w'.disk == D.FrameDisk(u, w.disk, link.session, frame, m.now)
      && (m.id in w'.links <==> after.Some?)
      && (after.Some? ==> w'.links[m.id].session == after.value
                          && w'.links[m.id].channel.receiver == Decrypted(u.secure, link.channel.receiver, m.chunk).0)
      && (|w'.receipts| > |w.receipts| <==> D.FrameResult(u, w.disk, link.session, frame).Received?)
  {
    hide Decrypted, UnpackOnDisk, D.FrameEffects, D.SessionAfter, CompleteResult, FullTree, AppendResult, Run;
  }

  /** The turn of a frame does to the session and to the disk what the arrival of the frame does. */
  ghost predicate DoesTheSame(o: Options, t: Turn, peer: PeerId, s: Session, disk: Disk, session: D.Session, frame: SecureFrame,
                              now: nat)
  {
    var after := D.SessionAfter(o.u.env.hash, disk.store, session, frame);
    && DiskAfter(t) == D.FrameDisk(o.u, disk, session, frame, now)
    && (after.Some? <==> !t.reply.Fail?)
    && (after.Some? ==> peer in t.sessions && SamePlace(t.sessions[peer], after.value)
                        && t.sessions[peer].aead == s.aead && t.sessions[peer].expectedSequence == s.expectedSequence)
    && (D.FrameResult(o.u, disk, session, frame).Received? <==> t.act.Some? && t.act.value.Completed?)
  }

  lemma HeaderDoesTheSame(o: Options, sessions: Sessions, disk: Disk, peer: PeerId, s: Session, c: Compression,
                          session: D.Session, now: nat)
    requires SamePlace(s, session)
    ensures DoesTheSame(o, OnHeader(sessions, disk, peer, s, c), peer, s, disk, session, Header(c), now)
  {
    RunNothing(disk.store);
    hide UnpackOnDisk, CompleteResult, AppendResult;
  }

  lemma ChunkDoesTheSame(o: Options, sessions: Sessions, disk: Disk, peer: PeerId, s: Session, bytes: Bytes,
                         session: D.Session, now: nat)
    requires SamePlace(s, session)
    ensures DoesTheSame(o, OnChunk(sessions, disk, peer, s, bytes, now), peer, s, disk, session, ArchiveChunk(bytes), now)
  {
    RunNothing(disk.store);
    hide UnpackOnDisk, CompleteResult, AppendResult, AppendEffects, Run, OffsetAfter;
  }

  lemma EndDoesTheSame(o: Options, sessions: Sessions, disk: Disk, peer: PeerId, s: Session, request: RequestId,
                       session: D.Session, now: nat)
    requires SamePlace(s, session)
    ensures DoesTheSame(o, OnDone(o, sessions, disk, peer, s, request), peer, s, disk, session, SecureFrame.Done, now)
  {
    RunNothing(disk.store);
    hide UnpackOnDisk, CompleteResult, CompleteEffects, RemovePartialEffects, Run, FullTree;
  }

  /** A secure request is the arrival of its chunk: the same disk afterwards, the session at the same place or gone
      when the receiver fails, and a receipt exactly for what is completed. */
  lemma SecureArrives(o: Options, sessions: Sessions, e: Event, w: R.World, id: nat)
    requires e.Request? && e.frame.Secure? && e.peer in sessions && id in w.links && Matches(sessions[e.peer], w.links[id])
    ensures var t := OnRequest(o, sessions, w.disk, e);
      var w' := R.Turn(o.u, w, R.Arrive(id, e.frame.encrypted, e.now));
      && w'.disk == DiskAfter(t)
      && (id in w'.links <==> !t.reply.Fail?)
      && (id in w'.links ==> e.peer in t.sessions && Matches(t.sessions[e.peer], w'.links[id]))
      && (|w'.receipts| > |w.receipts| <==> t.act.Some? && t.act.value.Completed?)
  {
    var m := R.Arrive(id, e.frame.encrypted, e.now);
    var (s, r) := OpenChunk(o, sessions[e.peer], e.frame.encrypted);
    hide Decrypted, OnHeader, OnChunk, OnDone, D.SessionAfter, D.FrameDisk, D.FrameResult;
    match r
    case Err(_) =>
      assert R.FrameOf(o.u, w, m) == None;
      FailedOpening(o, sessions, w.disk, e);
      hide Run;
    case Ok(frame) =>
      assert R.FrameOf(o.u, w, m) == Some(frame);
      ArrivalDoes(o.u, w, m, frame);
      hide R.Turn, DiskAfter, R.FrameOf;
      match frame
      case Header(c) => HeaderDoesTheSame(o, sessions, w.disk, e.peer, s, c, w.links[id].session, e.now);
      case ArchiveChunk(bytes) => ChunkDoesTheSame(o, sessions, w.disk, e.peer, s, bytes, w.links[id].session, e.now);
      case Done => EndDoesTheSame(o, sessions, w.disk, e.peer, s, e.request, w.links[id].session, e.now);
  }

  lemma FailedOpening(o: Options, sessions: Sessions, disk: Disk, e: Event)
    requires e.Request? && e.frame.Secure? && e.peer in sessions && sessions[e.peer].aead.Some?
    requires OpenChunk(o, sessions[e.peer], e.frame.encrypted).1.Err?
    ensures var t := OnRequest(o, sessions, disk, e); DiskAfter(t) == disk && t.reply.Fail? && t.act == None
  {
    RunNothing(disk.store);
    hide Decrypted;
  }
}
