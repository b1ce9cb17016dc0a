/** The key exchange of the libp2p sessions, with the sender's side of crates/peerline-net/src/libp2p_transfer/sender.rs:
    when it succeeds, and which secret the session then opens frames with. */
module Libp2pExchange {
  import opened Bytes
  import opened ChunkRatchet
  import opened SecureChannel
  import opened ResumeStore
  import opened ReceiverDisk
  import opened Transcripts
  import opened Libp2pReceiver
  import L = Libp2pLaws

  // ---------------------------------------------------------------------------------------------
  // The sender.

  const SENDER_PREFIX: NoncePrefix := Ascii("pl01")

  /** A sender that has started its login and its key exchange: what it says first, and how it answers. A finished login
      gives the finalization and the session key, a finished exchange the message to the receiver and the secret. */
  datatype Client = Client(
    name: Bytes,
    lookupKey: Bytes,
    receiverPeerId: Bytes,
    descriptor: Descriptor,
    request: Bytes,
    hello: Bytes,
    finishLogin: Bytes -> Option<(Bytes, Bytes)>,
    finishHandshake: (Bytes, Bytes, Transcript) -> Option<(Bytes, nat)>)

  function Introduction(c: Client): WireFrame {
    ClientIntro(PROTOCOL_VERSION, Some(c.name), c.descriptor, c.request, c.hello)
  }

  function TranscriptOf(c: Client): Transcript {
    Libp2pTranscript(c.name, c.lookupKey, c.receiverPeerId, LIBP2P_ROUTE_LABEL)
  }

  datatype ConnectError =
    | NoReply | WrongVersion(version: nat) | Refused(message: Refusal) | UnexpectedReply
    | OffsetTooFar | LoginFailed | HandshakeFailed

  datatype Answer = Answer(frame: WireFrame, secret: nat, offset: U64)

  /** What the sender makes of the reply to its introduction. */
  function AnswerTo(c: Client, reply: Option<WireFrame>): Result<Answer, ConnectError> {
    match reply
    case None => Err(NoReply)
    case Some(frame) =>
      match frame
      case ErrorFrame(message) => Err(Refused(message))
      case ServerIntro(version, offset, response, hello) =>
        if version != PROTOCOL_VERSION then Err(WrongVersion(version))
        else if offset > c.descriptor.archiveBytes then Err(OffsetTooFar)
        else
          (match c.finishLogin(response)
           case None => Err(LoginFailed)
           case Some((finalization, key)) =>
             match c.finishHandshake(hello, key, TranscriptOf(c))
             case None => Err(HandshakeFailed)
             case Some((kem, secret)) => Ok(Answer(ClientFinish(finalization, kem), secret, offset)))
      case _ => Err(UnexpectedReply)
  }

  /** The sender goes on exactly with a reply of its own version that offers no more than the archive, whose login and
      exchange it can finish; it then tells the receiver what each of them gave. */
  lemma AnsweredExactly(c: Client, reply: Option<WireFrame>, answer: Answer)
    ensures AnswerTo(c, reply) == Ok(answer) <==>
      && answer.frame.ClientFinish?
      && exists response, hello, key ::
           && reply == Some(ServerIntro(3, answer.offset, response, hello)) && answer.offset <= c.descriptor.archiveBytes
           && c.finishLogin(response) == Some((answer.frame.opaqueFinalization, key))
           && c.finishHandshake(hello, key, TranscriptOf(c)) == Some((answer.frame.clientKem, answer.secret))
  {
    hide TranscriptOf;
    if AnswerTo(c, reply).Ok? {
      var response, hello := reply.value.opaqueResponse, reply.value.serverHello;
      var (finalization, key) := c.finishLogin(response).value;
      assert c.finishHandshake(hello, key, TranscriptOf(c)).Some?;
    }
  }

  /** The login and the exchange do what they are for: whatever the receiver draws, it finishes with the sender's session
      key and with the sender's secret. The first holds when both know the same code. */
  ghost predicate LoginCompletes(auth: Auth, c: Client) {
    forall random :: auth.startLogin(c.request, random).Some? ==>
      var (state, response) := auth.startLogin(c.request, random).value;
      c.finishLogin(response).Some? ==>
        var (finalization, key) := c.finishLogin(response).value;
        auth.finishLogin(state, finalization) == Some(key)
  }

  ghost predicate HandshakeCompletes(auth: Auth, c: Client, transcript: Transcript) {
    forall random, key :: HandshakeCompletesFor(auth, c, transcript, random, key)
  }

  predicate HandshakeCompletesFor(auth: Auth, c: Client, transcript: Transcript, random: Bytes, key: Bytes) {
    auth.startHandshake(c.hello, random).Some? ==>
      var (state, hello) := auth.startHandshake(c.hello, random).value;
      c.finishHandshake(hello, key, transcript).Some? ==>
        var (kem, secret) := c.finishHandshake(hello, key, transcript).value;
        auth.finishHandshake(state, c.hello, kem, key, transcript) == Some(secret)
  }

  // ---------------------------------------------------------------------------------------------
  // The receiver.

  /** The secret that the session's own login and key exchange give with these two messages. */
  ghost predicate Exchanges(auth: Auth, s: Session, finalization: Bytes, kem: Bytes, secret: nat) {
    && s.opaqueServer.Some? && s.serverHandshake.Some?
    && exists key ::
         && auth.finishLogin(s.opaqueServer.value, finalization) == Some(key)
         && auth.finishHandshake(s.serverHandshake.value, s.clientHello, kem, key, s.transcript) == Some(secret)
  }

  /** The session opens what a sender's new connection with this secret seals. */
  predicate OpensFor(s: Session, secret: nat) {
    s.aead.Some? && Endpoint(s.aead.value, s.expectedSequence) == Opening(secret, SENDER_PREFIX).sender
  }

  /** A finishing request is acknowledged exactly when a login and an exchange that have not been used yet give a secret;
      anything else ends the receiver. The session then opens what is sealed with that very secret, and its login and
      exchange are used up: another finishing request of this peer ends the receiver. */
  lemma FinishedExactly(o: Options, sessions: Sessions, disk: Disk, e: Event)
    requires e.Request? && e.frame.ClientFinish?
    ensures var t := OnEvent(o, sessions, disk, e);
      && (t.reply == Respond(Ack) || t.reply == Fail) && DiskAfter(t) == disk
      && (t.reply == Respond(Ack) <==>
            e.peer in sessions
            && exists secret :: Exchanges(o.auth, sessions[e.peer], e.frame.opaqueFinalization, e.frame.clientKem, secret))
    ensures var t := OnEvent(o, sessions, disk, e);
      forall secret :: e.peer in sessions && sessions[e.peer].expectedSequence == 0
        && Exchanges(o.auth, sessions[e.peer], e.frame.opaqueFinalization, e.frame.clientKem, secret)
        ==> t.sessions == sessions[e.peer := t.sessions[e.peer]] && OpensFor(t.sessions[e.peer], secret)
    ensures var t := OnEvent(o, sessions, disk, e);
      forall again: Event :: again.Request? && again.peer == e.peer && again.frame.ClientFinish? && t.reply == Respond(Ack)
        ==> OnEvent(o, t.sessions, disk, again).reply == Fail
  {
    RunNothing(disk.store);
    hide Run;
    if e.peer in sessions {
      var s, f := sessions[e.peer], e.frame;
      if s.opaqueServer.Some? && s.serverHandshake.Some? {
        var key := o.auth.finishLogin(s.opaqueServer.value, f.opaqueFinalization);
        if key.Some? {
          var secret := o.auth.finishHandshake(s.serverHandshake.value, s.clientHello, f.clientKem, key.value, s.transcript);
          if secret.Some? {
            assert Exchanges(o.auth, s, f.opaqueFinalization, f.clientKem, secret.value);
          }
        }
      }
    }
  }

  /** The first chunk that a connection with this secret seals. */
  function FirstChunk(codec: Codec, secret: nat, frame: SecureFrame): Option<EncryptedChunk> {
    Encrypted(codec, Opening(secret, SENDER_PREFIX).sender, frame).1
  }

  /** A new session takes the first frame of its own sender and nobody else's. */
  lemma FirstFrameExactly(o: Options, sessions: Sessions, disk: Disk, e: Event, secret: nat, sealedWith: nat, frame: SecureFrame)
    requires Inverse(o.u.secure) && e.Request? && e.peer in sessions && OpensFor(sessions[e.peer], secret)
    requires FirstChunk(o.u.secure, sealedWith, frame).Some?
             && e.frame == Secure(FirstChunk(o.u.secure, sealedWith, frame).value)
    ensures var t := OnEvent(o, sessions, disk, e);
      && (OpenChunk(o, sessions[e.peer], e.frame.encrypted).1 == Ok(frame) <==> sealedWith == secret)
      && (sealedWith != secret ==> t.reply == Fail && DiskAfter(t) == disk)
      && (sealedWith == secret && frame == Header(sessions[e.peer].descriptor.compression) && sessions[e.peer].compression.None?
          ==> t.reply == Respond(Ack) && t.act == Some(HeaderAccepted(frame.compression)))
  {
    var codec := o.u.secure;
    var s := sessions[e.peer];
    OpensExactlyItsOwn(s.aead.value, Ratchet(Root(sealedWith), SENDER_PREFIX), SECURE_AAD, codec.encode(frame), 0, 0);
    assert codec.decode(codec.encode(frame)) == Some(frame);
    RunNothing(disk.store);
    hide Run, SealedChunk, Opened, Inverse;
  }

  /** At no time does a session open a chunk that was sealed under a key of another secret: such a request ends the
      receiver and leaves the disk alone. */
  lemma ForeignSecretFails(o: Options, sessions: Sessions, disk: Disk, e: Event)
    requires e.Request? && e.frame.Secure? && e.peer in sessions && sessions[e.peer].aead.Some?
    requires e.frame.encrypted.ciphertext.Sealed?
    requires SecretOf(e.frame.encrypted.ciphertext.key) != SecretOf(sessions[e.peer].aead.value.chainKey)
    ensures OnEvent(o, sessions, disk, e).reply == Fail && DiskAfter(OnEvent(o, sessions, disk, e)) == disk
  {
    RunNothing(disk.store);
    hide Run;
  }

  // ---------------------------------------------------------------------------------------------
  // Both together.

  /** None of the requests is this peer's. */
  predicate NoRequestOf(events: seq<Event>, peer: PeerId) {
    forall i :: 0 <= i < |events| && events[i].Request? ==> events[i].peer != peer
  }

  lemma SecureLeavesOthers(o: Options, sessions: Sessions, disk: Disk, e: Event, peer: PeerId)
    requires e.Request? && e.frame.Secure? && e.peer != peer && peer in sessions
    ensures var t := OnEvent(o, sessions, disk, e); peer in t.sessions && t.sessions[peer] == sessions[peer]
  {
    hide Decrypted, AppendEffects, AppendResult, CompleteResult, CompleteEffects, UnpackOnDisk, RemovePartialEffects,
      OffsetAfter, FullTree;
  }

  lemma IntroductionLeavesOthers(o: Options, sessions: Sessions, disk: Disk, e: Event, peer: PeerId)
    requires e.Request? && e.frame.ClientIntro? && e.peer != peer && peer in sessions
    ensures var t := OnEvent(o, sessions, disk, e); peer in t.sessions && t.sessions[peer] == sessions[peer]
  {
    hide ResumeEffects, ResumeOffset, Libp2pTranscript, OnSecure, OnFinish;
  }

  lemma OtherEventLeavesSession(o: Options, w: L.World, e: Event, peer: PeerId)
    requires L.Advance(o, w, e).Some? && (e.Request? ==> e.peer != peer)
    requires peer in w.sessions && w.sessions[peer].pendingResult.None? && w.sessions[peer].pendingError.None?
    ensures var w' := L.Advance(o, w, e).value; peer in w'.sessions && w'.sessions[peer] == w.sessions[peer]
  {
    hide DiskAfter;
    if e.Request? && e.frame.Secure? {
      SecureLeavesOthers(o, w.sessions, w.disk, e, peer);
      hide OnEvent;
    } else if e.Request? && e.frame.ClientIntro? {
      IntroductionLeavesOthers(o, w.sessions, w.disk, e, peer);
      hide OnEvent;
    } else {
      hide OnSecure, OnIntro;
    }
  }

  lemma {:induction false} OtherEventsLeaveSession(o: Options, w: L.World, events: seq<Event>, peer: PeerId)
    requires L.After(o, w, events).Some? && NoRequestOf(events, peer)
    requires peer in w.sessions && w.sessions[peer].pendingResult.None? && w.sessions[peer].pendingError.None?
    ensures var w' := L.After(o, w, events).value; peer in w'.sessions && w'.sessions[peer] == w.sessions[peer]
    decreases |events|
  {
    hide L.Advance;
    if events != [] {
      OtherEventLeavesSession(o, w, events[0], peer);
      OtherEventsLeaveSession(o, L.Advance(o, w, events[0]).value, events[1..], peer);
    }
  }

  /** A sender that knows the receiver's name, code and identity introduces itself and answers the reply; in between
      others do what they like. Its answer is acknowledged, and the session opens what the sender's connection with its
      own secret seals, from the offset that it was offered. */
  lemma BothEndsAgree(o: Options, w: L.World, c: Client, intro: Event, later: seq<Event>, finish: Event)
    requires intro.Request? && intro.frame == Introduction(c)
    requires var reply := OnEvent(o, w.sessions, w.disk, intro).reply;
      && reply.Respond? && AnswerTo(c, Some(reply.frame)).Ok?
      && finish.Request? && finish.peer == intro.peer && finish.frame == AnswerTo(c, Some(reply.frame)).value.frame
    requires c.lookupKey == o.lookupKey && c.receiverPeerId == o.receiverPeerId
    requires LoginCompletes(o.auth, c) && HandshakeCompletes(o.auth, c, TranscriptOf(c))
    requires NoRequestOf(later, intro.peer)
    requires L.Advance(o, w, intro).Some? && L.After(o, L.Advance(o, w, intro).value, later).Some?
    ensures var answer := AnswerTo(c, Some(OnEvent(o, w.sessions, w.disk, intro).reply.frame)).value;
      var w' := L.After(o, L.Advance(o, w, intro).value, later).value;
      var t := OnEvent(o, w'.sessions, w'.disk, finish);
      && t.reply == Respond(Ack) && finish.peer in t.sessions
      && OpensFor(t.sessions[finish.peer], answer.secret)
      && t.sessions[finish.peer].descriptor == c.descriptor
      && t.sessions[finish.peer].offset == answer.offset
      && t.sessions[finish.peer].compression.None?
  {
    var w1 := L.Advance(o, w, intro).value;
    var peer := intro.peer;
    var w' := L.After(o, w1, later).value;
    IntroductionStarts(o, w, c, intro);
    OtherEventsLeaveSession(o, w1, later, peer);
    var s := w'.sessions[peer];
    var answer := AnswerTo(c, Some(OnEvent(o, w.sessions, w.disk, intro).reply.frame)).value;
    hide L.Advance, L.After, OnIntro, OnSecure, NoRequestOf, Libp2pTranscript;
    assert Exchanges(o.auth, s, answer.frame.opaqueFinalization, answer.frame.clientKem, answer.secret);
    FinishedExactly(o, w'.sessions, w'.disk, finish);
  }

  /** What the introduction leaves in the session is what the reply shows to the sender. */
  lemma IntroductionStarts(o: Options, w: L.World, c: Client, intro: Event)
    requires intro.Request? && intro.frame == Introduction(c)
    requires var reply := OnEvent(o, w.sessions, w.disk, intro).reply; reply.Respond? && AnswerTo(c, Some(reply.frame)).Ok?
    requires c.lookupKey == o.lookupKey && c.receiverPeerId == o.receiverPeerId
    requires LoginCompletes(o.auth, c) && HandshakeCompletes(o.auth, c, TranscriptOf(c))
    ensures L.Advance(o, w, intro).Some?
    ensures var answer := AnswerTo(c, Some(OnEvent(o, w.sessions, w.disk, intro).reply.frame)).value;
      var sessions := L.Advance(o, w, intro).value.sessions;
      && intro.peer in sessions
      && var s := sessions[intro.peer];
      && Exchanges(o.auth, s, answer.frame.opaqueFinalization, answer.frame.clientKem, answer.secret)
      && s.expectedSequence == 0 && s.descriptor == c.descriptor && s.offset == answer.offset && s.compression.None?
      && s.pendingResult.None? && s.pendingError.None?
  {
    hide ResumeEffects, ResumeOffset, Run, Libp2pTranscript;
    var login := o.auth.startLogin(c.request, intro.random).value;
    var handshake := o.auth.startHandshake(c.hello, intro.random).value;
    var finished := c.finishLogin(login.1).value;
    var exchanged := c.finishHandshake(handshake.1, finished.1, TranscriptOf(c)).value;
    assert o.auth.finishLogin(login.0, finished.0) == Some(finished.1);
    assert HandshakeCompletesFor(o.auth, c, TranscriptOf(c), intro.random, finished.1);
    assert o.auth.finishHandshake(handshake.0, c.hello, exchanged.0, finished.1, TranscriptOf(c)) == Some(exchanged.1);
  }
}
