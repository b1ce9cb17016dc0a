/** The receiver of crates/peerline-net/src/libp2p_transfer/receiver.rs: one session for each peer, moved on by
    single requests and by the events that say that a response has been sent. */
module Libp2pReceiver {
  import opened Bytes
  import opened ChunkRatchet
  import opened SecureChannel
  import opened FileTree
  import opened ResumeStore
  import opened ReceiverDisk
  import opened Transcripts

  type PeerId = nat

  type RequestId = nat

  const RECEIVE_PREFIX: NoncePrefix := [112, 108, 48, 49]

  const LIBP2P_ROUTE_LABEL: Bytes := Ascii("libp2p-request-response")

  datatype Refusal =
    | NameMismatch | IncompatibleVersion(version: nat) | DuplicateHeader | CompressionMismatch | HeaderFirst
    | UnpackFailed | UnexpectedFrame | UnexpectedLibp2pFrame

  datatype WireFrame =
    | ClientIntro(version: nat, name: Option<Bytes>, descriptor: Descriptor, opaqueRequest: Bytes, clientHello: Bytes)
    | ServerIntro(serverVersion: nat, resumeOffset: U64, opaqueResponse: Bytes, serverHello: Bytes)
    | ClientFinish(opaqueFinalization: Bytes, clientKem: Bytes)
    | Secure(encrypted: EncryptedChunk)
    | Ack
    | ErrorFrame(message: Refusal)

  /** The password login and the key exchange: each step may fail; a finished exchange gives a session secret. */
  datatype Auth = Auth(
    startLogin: (Bytes, Bytes) -> Option<(Bytes, Bytes)>,
    startHandshake: (Bytes, Bytes) -> Option<(Bytes, Bytes)>,
    finishLogin: (Bytes, Bytes) -> Option<Bytes>,
    finishHandshake: (Bytes, Bytes, Bytes, Bytes, Transcript) -> Option<nat>)

  datatype Options = Options(name: Bytes, lookupKey: Bytes, receiverPeerId: Bytes, auth: Auth, u: ReceiverDisk.Receiver)

  datatype Session = Session(
    descriptor: Descriptor,
    clientHello: Bytes,
    transcript: Transcript,
    opaqueServer: Option<Bytes>,
    serverHandshake: Option<Bytes>,
    aead: Option<Ratchet>,
    compression: Option<Compression>,
    expectedSequence: U64,
    offset: U64,
    pendingResult: Option<(RequestId, Bytes)>,
    pendingError: Option<RequestId>)

  type Sessions = map<PeerId, Session>

  /** `random`, `listing` and `now` are what the system supplies. */
  datatype Event =
    | Request(peer: PeerId, request: RequestId, frame: WireFrame, random: Bytes, listing: seq<PartialKey>, now: nat)
    | Response
    | ResponseSent(peer: PeerId, request: RequestId)
    | Failure

  /** What a step did to a session. A completed archive comes with the files it was unpacked onto. */
  datatype Act =
    | Introduced(descriptor: Descriptor)
    | Finished
    | HeaderAccepted(compression: Compression)
    | Appended(bytes: Bytes)
    | Completed(request: RequestId, archive: Bytes, before: Tree)
    | Rejected(request: RequestId)
    | Yielded(request: RequestId, archive: Bytes)
    | Dropped(request: RequestId)

  /** `Fail` ends the receiver. */
  datatype Reply = Respond(frame: WireFrame) | Yield(archive: Bytes) | Quiet | Fail

  /** `base` is the disk after an archive, if any, has been unpacked; the effects on the store come after that. */
  datatype Turn = Turn(sessions: Sessions, base: Disk, effects: seq<Effect>, reply: Reply, act: Option<Act>)

  function DiskAfter(t: Turn): Disk {
    t.base.(store := Run(t.base.store, t.effects))
  }

  function Refuse(sessions: Sessions, disk: Disk, refusal: Refusal): Turn {
    Turn(sessions, disk, [], Respond(ErrorFrame(refusal)), None)
  }

  // ---------------------------------------------------------------------------------------------
  // The steps.

  function NewSession(o: Options, f: WireFrame, login: Bytes, handshake: Bytes, offset: U64): Session
    requires f.ClientIntro?
  {
    var negotiated := if f.name.Some? then f.name.value else o.name;
    Session(f.descriptor, f.clientHello,
            Libp2pTranscript(negotiated, o.lookupKey, o.receiverPeerId, LIBP2P_ROUTE_LABEL),
            Some(login), Some(handshake), None, None, 0, offset, None, None)
  }

  function OnIntro(o: Options, sessions: Sessions, disk: Disk, peer: PeerId, f: WireFrame, random: Bytes,
                   listing: seq<PartialKey>, now: nat): Turn
    requires f.ClientIntro?
  {
    if f.version != PROTOCOL_VERSION then Refuse(sessions, disk, IncompatibleVersion(f.version))
    else if f.name.Some? && f.name.value != o.name then Refuse(sessions, disk, NameMismatch)
    else
      var effects := ResumeEffects(disk.store, listing, f.descriptor, now);
      var offset := ResumeOffset(disk.store, listing, f.descriptor, now);
      match (o.auth.startLogin(f.opaqueRequest, random), o.auth.startHandshake(f.clientHello, random))
      case (Some((login, response)), Some((handshake, hello))) =>
        Turn(sessions[peer := NewSession(o, f, login, handshake, offset)], disk, effects,
             Respond(ServerIntro(PROTOCOL_VERSION, offset, response, hello)), Some(Introduced(f.descriptor)))
      case _ => Turn(sessions, disk, effects, Fail, None)
  }

  function OnFinish(o: Options, sessions: Sessions, disk: Disk, peer: PeerId, f: WireFrame): Turn
    requires f.ClientFinish?
  {
    if peer !in sessions || sessions[peer].opaqueServer.None? then Turn(sessions, disk, [], Fail, None)
    else
      var s := sessions[peer].(opaqueServer := None);
      if s.serverHandshake.None? then Turn(sessions[peer := s], disk, [], Fail, None)
      else
        var s' := s.(serverHandshake := None);
        match o.auth.finishLogin(sessions[peer].opaqueServer.value, f.opaqueFinalization)
        case None => Turn(sessions[peer := s'], disk, [], Fail, None)
        case Some(key) =>
          match o.auth.finishHandshake(s.serverHandshake.value, s.clientHello, f.clientKem, key, s.transcript)
          case None => Turn(sessions[peer := s'], disk, [], Fail, None)
          case Some(secret) =>
            Turn(sessions[peer := s'.(aead := Some(Ratchet(Root(secret), RECEIVE_PREFIX)))], disk, [],
                 Respond(Ack), Some(Finished))
  }

  function OnHeader(sessions: Sessions, disk: Disk, peer: PeerId, s: Session, compression: Compression): Turn {
    if s.compression.Some? then Refuse(sessions[peer := s], disk, DuplicateHeader)
    else if compression != s.descriptor.compression then Refuse(sessions[peer := s], disk, CompressionMismatch)
    else
      Turn(sessions[peer := s.(compression := Some(compression))], disk, [], Respond(Ack), Some(HeaderAccepted(compression)))
  }

  function OnChunk(sessions: Sessions, disk: Disk, peer: PeerId, s: Session, bytes: Bytes, now: nat): Turn {
    if s.compression.None? then Refuse(sessions[peer := s], disk, HeaderFirst)
    else
      var effects := AppendEffects(disk.store, s.offset, s.descriptor, bytes, now);
      match AppendResult(disk.store, s.offset, s.descriptor, bytes)
      case Err(_) =>
        var s' := s.(offset := OffsetAfter(disk.store, s.offset, s.descriptor, bytes));
        Turn(sessions[peer := s'], disk, effects, Fail, None)
      case Ok(offset) => Turn(sessions[peer := s.(offset := offset)], disk, effects, Respond(Ack), Some(Appended(bytes)))
  }

  /** At the end of the stream the archive is checked and unpacked; then the partial is removed. */
  function OnDone(o: Options, sessions: Sessions, disk: Disk, peer: PeerId, s: Session, request: RequestId): Turn {
    if s.compression.None? then Turn(sessions[peer := s], disk, [], Fail, None)
    else
      match CompleteResult(o.u.env.hash, disk.store, s.descriptor)
      case Err(_) => Turn(sessions[peer := s], disk, CompleteEffects(o.u.env.hash, disk.store, s.descriptor), Fail, None)
      case Ok(archive) =>
        var effects := RemovePartialEffects(KeyOf(s.descriptor));
        var (base, report) := UnpackOnDisk(o.u, disk, s.compression.value, archive);
        if report.result.Ok? then
          Turn(sessions[peer := s.(pendingResult := Some((request, archive)))], base, effects, Respond(Ack),
              Some(Completed(request, archive, FullTree(o.u, disk))))
        else
          Turn(sessions[peer := s.(pendingError := Some(request))], base, effects, Respond(ErrorFrame(UnpackFailed)),
              Some(Rejected(request)))
  }

  function OpenChunk(o: Options, s: Session, chunk: EncryptedChunk): (Session, Result<SecureFrame, SecureError>)
    requires s.aead.Some?
  {
    var (e, r) := Decrypted(o.u.secure, Endpoint(s.aead.value, s.expectedSequence), chunk);
    (s.(aead := Some(e.ratchet), expectedSequence := e.sequence), r)
  }

  function OnSecure(o: Options, sessions: Sessions, disk: Disk, peer: PeerId, chunk: EncryptedChunk, request: RequestId,
                    now: nat): Turn
  {
    if peer !in sessions || sessions[peer].aead.None? then Turn(sessions, disk, [], Fail, None)
    else
      var (s, r) := OpenChunk(o, sessions[peer], chunk);
      match r
      case Err(_) => Turn(sessions[peer := s], disk, [], Fail, None)
      case Ok(Header(compression)) => OnHeader(sessions, disk, peer, s, compression)
      case Ok(ArchiveChunk(bytes)) => OnChunk(sessions, disk, peer, s, bytes, now)
      case Ok(Done) => OnDone(o, sessions, disk, peer, s, request)
  }

  function OnRequest(o: Options, sessions: Sessions, disk: Disk, e: Event): Turn
    requires e.Request?
  {
    match e.frame
    case ClientIntro(_, _, _, _, _) => OnIntro(o, sessions, disk, e.peer, e.frame, e.random, e.listing, e.now)
    case ClientFinish(_, _) => OnFinish(o, sessions, disk, e.peer, e.frame)
    case Secure(chunk) => OnSecure(o, sessions, disk, e.peer, chunk, e.request, e.now)
    case Ack => Refuse(sessions, disk, UnexpectedFrame)
    case ErrorFrame(_) => Refuse(sessions, disk, UnexpectedFrame)
    case ServerIntro(_, _, _, _) => Refuse(sessions, disk, UnexpectedLibp2pFrame)
  }

  function OnResponseSent(sessions: Sessions, disk: Disk, peer: PeerId, request: RequestId): Turn {
    if peer !in sessions then Turn(sessions, disk, [], Quiet, None)
    else
      var s := sessions[peer];
      if s.pendingResult.Some? && s.pendingResult.value.0 == request then
        Turn(sessions - {peer}, disk, [], Yield(s.pendingResult.value.1), Some(Yielded(request, s.pendingResult.value.1)))
      else if s.pendingError == Some(request) then Turn(sessions - {peer}, disk, [], Quiet, Some(Dropped(request)))
      else Turn(sessions, disk, [], Quiet, None)
  }

  function OnEvent(o: Options, sessions: Sessions, disk: Disk, e: Event): Turn {
    match e
    case Request(_, _, _, _, _, _) => OnRequest(o, sessions, disk, e)
    case Response => Turn(sessions, disk, [], Quiet, None)
    case ResponseSent(peer, request) => OnResponseSent(sessions, disk, peer, request)
    case Failure => Turn(sessions, disk, [], Quiet, None)
  }

  // ---------------------------------------------------------------------------------------------
  // The receiver as the program keeps it.

  class Receiver {
    const options: Options
    const disk: ResumeDisk
    var sessions: Sessions

    constructor (options: Options, disk: ResumeDisk)
      ensures this.options == options && this.disk == disk && sessions == map[]
    {
      this.options, this.disk, sessions := options, disk, map[];
    }

    /** The step did what the turn says, to the sessions and to the disk. */
    twostate predicate Did(new t: Turn, new reply: Reply, new act: Option<Act>)
      reads this, disk
    {
      && sessions == t.sessions && reply == t.reply && act == t.act
      && disk.journal == old(disk.journal) + t.effects && Disk(disk.dirs, disk.rest) == DiskAfter(t)
    }

    function Files(): Disk
      reads this, disk
    {
      Disk(disk.dirs, disk.rest)
    }

    method Introduce(peer: PeerId, f: WireFrame, random: Bytes, listing: seq<PartialKey>, now: nat)
      returns (reply: Reply, ghost act: Option<Act>)
      requires f.ClientIntro?
      requires Lists(listing, disk.dirs)
      modifies this, disk
      ensures Did(OnIntro(options, old(sessions), Disk(old(disk.dirs), old(disk.rest)), peer, f, random, listing, now),
                  reply, act)
    {
      act := None;
      RunNothing(disk.dirs);
      if f.version != PROTOCOL_VERSION {
        return Respond(ErrorFrame(IncompatibleVersion(f.version))), act;
      }
      if f.name.Some? && f.name.value != options.name {
        return Respond(ErrorFrame(NameMismatch)), act;
      }
      var resumeOffset := disk.ResumeState(listing, f.descriptor, now);
      hide ResumeEffects, ResumeOffset, Run, Libp2pTranscript;
      var login := options.auth.startLogin(f.opaqueRequest, random);
      var handshake := options.auth.startHandshake(f.clientHello, random);
      if login.None? || handshake.None? {
        return Fail, act;
      }
      sessions := sessions[peer := NewSession(options, f, login.value.0, handshake.value.0, resumeOffset)];
      act := Some(Introduced(f.descriptor));
      reply := Respond(ServerIntro(PROTOCOL_VERSION, resumeOffset, login.value.1, handshake.value.1));
    }

    method Finish(peer: PeerId, f: WireFrame) returns (reply: Reply, ghost act: Option<Act>)
      requires f.ClientFinish?
      modifies this
      ensures Did(OnFinish(options, old(sessions), Disk(old(disk.dirs), old(disk.rest)), peer, f), reply, act)
    {
      act := None;
      RunNothing(disk.dirs);
      if peer !in sessions || sessions[peer].opaqueServer.None? {
        return Fail, act;
      }
      var opaqueServer := sessions[peer].opaqueServer.value;
      sessions := sessions[peer := sessions[peer].(opaqueServer := None)];
      if sessions[peer].serverHandshake.None? {
        return Fail, act;
      }
      var serverHandshake := sessions[peer].serverHandshake.value;
      sessions := sessions[peer := sessions[peer].(serverHandshake := None)];
      var key := options.auth.finishLogin(opaqueServer, f.opaqueFinalization);
      if key.None? {
        return Fail, act;
      }
      var session := sessions[peer];
      var secret := options.auth.finishHandshake(serverHandshake, session.clientHello, f.clientKem, key.value,
          session.transcript);
      if secret.None? {
        return Fail, act;
      }
      sessions := sessions[peer := session.(aead := Some(Ratchet(Root(secret.value), RECEIVE_PREFIX)))];
      act := Some(Finished);
      reply := Respond(Ack);
    }

    method TakeSecure(peer: PeerId, encrypted: EncryptedChunk, request: RequestId, now: nat)
      returns (reply: Reply, ghost act: Option<Act>)
      modifies this, disk
      ensures Did(OnSecure(options, old(sessions), Disk(old(disk.dirs), old(disk.rest)), peer, encrypted, request, now),
                  reply, act)
    {
      act := None;
      RunNothing(disk.dirs);
      hide Run, Decrypted, OnDone, OnChunk, OnHeader, DiskAfter;
      ghost var files := Disk(disk.dirs, disk.rest);
      if peer !in sessions || sessions[peer].aead.None? {
        NothingDone(sessions, files);
        return Fail, act;
      }
      var (session, taken) := OpenChunk(options, sessions[peer], encrypted);
      sessions := sessions[peer := session];
      NothingDone(sessions, files);
      if taken.Err? {
        return Fail, act;
      }
      OpenedAlready(options, old(sessions), files, peer, session, request, now, taken.value);
      match taken.value {
        case Header(compression) => reply, act := TakeHeader(peer, session, compression);
        case ArchiveChunk(bytes) => reply, act := TakeChunk(peer, session, bytes, now);
        case Done => reply, act := TakeEnd(peer, session, request);
      }
    }

    method TakeHeader(peer: PeerId, session: Session, compression: Compression) returns (reply: Reply, ghost act: Option<Act>)
      requires peer in sessions && sessions[peer] == session
      modifies this
      ensures Did(OnHeader(old(sessions), Disk(disk.dirs, disk.rest), peer, session, compression), reply, act)
    {
      act := None;
      RunNothing(disk.dirs);
      assert sessions[peer := session] == sessions;
      if session.compression.Some? {
        return Respond(ErrorFrame(DuplicateHeader)), act;
      }
      if compression != session.descriptor.compression {
        return Respond(ErrorFrame(CompressionMismatch)), act;
      }
      sessions := sessions[peer := session.(compression := Some(compression))];
      act := Some(HeaderAccepted(compression));
      reply := Respond(Ack);
    }

    method TakeChunk(peer: PeerId, session: Session, bytes: Bytes, now: nat) returns (reply: Reply, ghost act: Option<Act>)
      requires peer in sessions && sessions[peer] == session
      modifies this, disk
      ensures Did(OnChunk(old(sessions), Disk(old(disk.dirs), old(disk.rest)), peer, session, bytes, now), reply, act)
    {
      act := None;
      RunNothing(disk.dirs);
      hide Run, AppendEffects, AppendResult, OffsetAfter;
      assert sessions[peer := session] == sessions;
      if session.compression.None? {
        return Respond(ErrorFrame(HeaderFirst)), act;
      }
      var offset, appended := disk.AppendChunk(session.offset, session.descriptor, bytes, now);
      sessions := sessions[peer := session.(offset := offset)];
      if appended.Err? {
        return Fail, act;
      }
      act := Some(Appended(bytes));
      reply := Respond(Ack);
    }

    /** The last frame: the archive is checked, unpacked and, whether or not that succeeded, removed. */
    method TakeEnd(peer: PeerId, session: Session, request: RequestId) returns (reply: Reply, ghost act: Option<Act>)
      requires peer in sessions && sessions[peer] == session
      modifies this, disk
      ensures Did(OnDone(options, old(sessions), Disk(old(disk.dirs), old(disk.rest)), peer, session, request), reply, act)
    {
      act := None;
      RunNothing(disk.dirs);
      hide Run, UnpackOnDisk, FullTree, CompleteEffects, CompleteResult, RemovePartialEffects, OnDone, DiskAfter, AfterEnd;
      DoneIs(options, sessions, Disk(disk.dirs, disk.rest), peer, session, request);
      ghost var t := OnDone(options, sessions, Disk(disk.dirs, disk.rest), peer, session, request);
      if session.compression.None? {
        return Fail, act;
      }
      ghost var before := FullTree(options.u, Disk(disk.dirs, disk.rest));
      var archive, unpacked := EndTransfer(options.u, disk, session.compression.value, session.descriptor);
      assert disk.journal == old(disk.journal) + t.effects && Disk(disk.dirs, disk.rest) == DiskAfter(t);
      if archive.Err? {
        return Fail, act;
      }
      if unpacked {
        sessions := sessions[peer := session.(pendingResult := Some((request, archive.value)))];
        act := Some(Completed(request, archive.value, before));
        reply := Respond(Ack);
      } else {
        sessions := sessions[peer := session.(pendingError := Some(request))];
        act := Some(Rejected(request));
        reply := Respond(ErrorFrame(UnpackFailed));
      }
    }

    method HandleTransferEvent(e: Event) returns (reply: Reply, ghost act: Option<Act>)
      requires e.Request? ==> Lists(e.listing, disk.dirs)
      modifies this, disk
      ensures Did(OnEvent(options, old(sessions), Disk(old(disk.dirs), old(disk.rest)), e), reply, act)
    {
      hide OnIntro, OnFinish, OnSecure, Run;
      reply, act := Quiet, None;
      RunNothing(disk.dirs);
      match e {
        case Request(peer, request, frame, random, listing, now) =>
          match frame {
            case ClientIntro(_, _, _, _, _) => reply, act := Introduce(peer, frame, random, listing, now);
            case ClientFinish(_, _) => reply, act := Finish(peer, frame);
            case Secure(encrypted) => reply, act := TakeSecure(peer, encrypted, request, now);
            case Ack => reply := Respond(ErrorFrame(UnexpectedFrame));
            case ErrorFrame(_) => reply := Respond(ErrorFrame(UnexpectedFrame));
            case ServerIntro(_, _, _, _) => reply := Respond(ErrorFrame(UnexpectedLibp2pFrame));
          }
        case Response =>
        case ResponseSent(peer, request) =>
          reply, act := SettleResponse(peer, request);
        case Failure =>
      }
    }

    /** The pending result is taken out and put back when the response was another one. */
    method SettleResponse(peer: PeerId, request: RequestId) returns (reply: Reply, ghost act: Option<Act>)
      modifies this`sessions
      ensures Did(OnResponseSent(old(sessions), Disk(old(disk.dirs), old(disk.rest)), peer, request), reply, act)
    {
      reply, act := Quiet, None;
      RunNothing(disk.dirs);
      var result: Option<Bytes> := None;
      if peer in sessions {
        var pending := sessions[peer].pendingResult;
        var session := sessions[peer];
        sessions := sessions[peer := session.(pendingResult := None)];
        if pending.Some? {
          if pending.value.0 == request {
            result := Some(pending.value.1);
          } else {
            sessions := sessions[peer := session.(pendingResult := pending)];
          }
        }
      }
      assert result.None? ==> sessions == old(sessions);
      var shouldRemove := result.Some? || (peer in sessions && sessions[peer].pendingError == Some(request));
      if shouldRemove {
        act := if result.Some? then Some(Yielded(request, result.value)) else Some(Dropped(request));
        sessions := sessions - {peer};
      }
      if result.Some? {
        assert sessions == old(sessions) - {peer};
        reply := Yield(result.value);
      }
    }
  }

  lemma DoneIs(o: Options, sessions: Sessions, disk: Disk, peer: PeerId, s: Session, request: RequestId)
    requires peer in sessions && sessions[peer] == s
    ensures var t := OnDone(o, sessions, disk, peer, s, request);
      if s.compression.None? then t == Turn(sessions, disk, [], Fail, None) && DiskAfter(t) == disk
      else
        && DiskAfter(t) == AfterEnd(o.u, disk, s.compression.value, s.descriptor)
        && match CompleteResult(o.u.env.hash, disk.store, s.descriptor)
           case Err(_) =>
             && t.sessions == sessions && t.reply == Fail && t.act == None
             && t.effects == CompleteEffects(o.u.env.hash, disk.store, s.descriptor)
           case Ok(archive) =>
             && t.effects == RemovePartialEffects(KeyOf(s.descriptor))
             && if UnpackOnDisk(o.u, disk, s.compression.value, archive).1.result.Ok? then
                  && t.sessions == sessions[peer := s.(pendingResult := Some((request, archive)))]
                  && t.reply == Respond(Ack) && t.act == Some(Completed(request, archive, FullTree(o.u, disk)))
                else
                  && t.sessions == sessions[peer := s.(pendingError := Some(request))]
                  && t.reply == Respond(ErrorFrame(UnpackFailed)) && t.act == Some(Rejected(request))
  {
    assert sessions[peer := s] == sessions;
    RunNothing(disk.store);
    hide UnpackOnDisk, FullTree, CompleteEffects, CompleteResult, RemovePartialEffects, Run;
  }

  lemma NothingDone(sessions: Sessions, disk: Disk)
    ensures DiskAfter(Turn(sessions, disk, [], Fail, None)) == disk
  {
  }

  function Put(sessions: Sessions, peer: PeerId, s: Session): Sessions {
    sessions[peer := s]
  }

  /** What a frame does does not depend on whether the opened session has been put back before. */
  lemma OpenedAlready(o: Options, sessions: Sessions, disk: Disk, peer: PeerId, s: Session, request: RequestId, now: nat,
                      frame: SecureFrame)
    requires peer in sessions
    ensures match frame
            case Header(c) =>
              OnHeader(sessions[peer := s], disk, peer, s, c) == OnHeader(sessions, disk, peer, s, c)
            case ArchiveChunk(bytes) =>
              OnChunk(sessions[peer := s], disk, peer, s, bytes, now) == OnChunk(sessions, disk, peer, s, bytes, now)
            case Done =>
              OnDone(o, sessions[peer := s], disk, peer, s, request) == OnDone(o, sessions, disk, peer, s, request)
  {
    hide UnpackOnDisk, FullTree, CompleteEffects, CompleteResult, RemovePartialEffects, AppendEffects, AppendResult,
         OffsetAfter;
    forall x: Session ensures Put(Put(sessions, peer, s), peer, x) == Put(sessions, peer, x) {
    }
  }
}
