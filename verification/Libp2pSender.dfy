/** The sender of crates/peerline-net/src/libp2p_transfer/sender.rs, which seals a frame only after the one
    before it was acknowledged. */
module Libp2pSender {
  import opened Bytes
  import opened ChunkRatchet
  import opened SecureChannel
  import opened ResumeStore
  import opened DirectTransfer
  import opened ReceiverDisk
  import opened Unpacking
  import R = Libp2pReceiver
  import L = Libp2pLaws

  datatype Libp2pSendError = OffsetTooFar | CannotEncrypt | RequestFailed | Refused(message: R.Refusal) | UnexpectedReply

  /** What the network gives back for a request: nothing after the timeout, or a frame. */
  type Replies = nat -> Option<R.WireFrame>

  predicate AllAcked(replies: Replies, n: nat) {
    forall i :: 0 <= i < n ==> replies(i) == Some(R.Ack)
  }

  function ReplyError(reply: Option<R.WireFrame>): Option<Libp2pSendError> {
    match reply
    case None => Some(RequestFailed)
    case Some(frame) =>
      match frame
      case Ack => None
      case ErrorFrame(message) => Some(Refused(message))
      case _ => Some(UnexpectedReply)
  }

  /** One request: seals the frame, sends it and looks at the reply. */
  method SendSecureRequest(connection: SenderConnection, frame: SecureFrame, replies: Replies, request: nat,
                           ghost start: Channel, ghost frames: seq<SecureFrame>)
    returns (error: Option<Libp2pSendError>, ghost sent: seq<SecureFrame>)
    requires connection.HasSent(start, frames) && request == |frames|
    modifies connection, connection.aead
    ensures connection.Valid()
    ensures sent == if error == Some(CannotEncrypt) then frames else frames + [frame]
    ensures error != Some(CannotEncrypt) ==> connection.HasSent(start, sent) && error == ReplyError(replies(request))
    ensures error == None ==> replies(request) == Some(R.Ack)
    ensures error == Some(RequestFailed) ==> replies(request) == None
    ensures forall message :: error == Some(Refused(message)) ==> replies(request) == Some(R.ErrorFrame(message))
    ensures error != Some(OffsetTooFar)
  {
    var ok := connection.WriteSecure(frame, start, frames);
    if !ok {
      return Some(CannotEncrypt), frames;
    }
    error, sent := ReplyError(replies(request)), frames + [frame];
  }

  lemma OneMoreAck(replies: Replies, n: nat)
    requires AllAcked(replies, n) && ReplyError(replies(n)) == None
    ensures AllAcked(replies, n + 1)
  {
  }

  lemma NoChunksYet(compression: Compression, archive: Bytes, from: nat)
    requires from <= |archive|
    ensures IsChunking([], archive[from..from]) && [Header(compression)] + ChunkFrames([]) == [Header(compression)]
  {
  }

  /** The loop over the archive, after the header was acknowledged. */
  method SendChunks(connection: SenderConnection, archive: Bytes, compression: Compression, resumeOffset: nat,
                    readSizes: nat -> nat, replies: Replies, ghost start: Channel)
    returns (error: Option<Libp2pSendError>, requests: nat, ghost chunks: seq<Bytes>, ghost sent: seq<SecureFrame>)
    requires connection.HasSent(start, [Header(compression)]) && resumeOffset <= |archive| && AllAcked(replies, 1)
    modifies connection, connection.aead
    ensures connection.Valid() && error != Some(OffsetTooFar)
    ensures error != Some(CannotEncrypt) ==> connection.HasSent(start, sent)
    ensures error == None ==> IsChunking(chunks, archive[resumeOffset..]) && sent == [Header(compression)] + ChunkFrames(chunks)
                              && requests == |sent| && AllAcked(replies, requests)
    ensures error != None ==> sent != [] && AllAcked(replies, |sent| - 1)
  {
    assert connection.Valid();
    hide IsChunking, ChunkFrames, ReplyError, SenderConnection.HasSent, SenderConnection.Valid;
    var bytesSent := resumeOffset;
    NoChunksYet(compression, archive, resumeOffset);
    requests, chunks, sent, error := 1, [], [Header(compression)], None;
    while bytesSent < |archive|
      invariant resumeOffset <= bytesSent <= |archive| && error == None
      invariant IsChunking(chunks, archive[resumeOffset..bytesSent])
      invariant sent == [Header(compression)] + ChunkFrames(chunks) && |sent| == requests
      invariant connection.Valid() && connection.HasSent(start, sent) && AllAcked(replies, requests)
      decreases |archive| - bytesSent
    {
      var read := ReadLength(readSizes(requests), |archive| - bytesSent, SEND_BUFFER);
      var buffer := archive[bytesSent..bytesSent + read];
      OneMoreChunk(chunks, archive, resumeOffset, bytesSent, bytesSent + read);
      error, sent := SendSecureRequest(connection, ArchiveChunk(buffer), replies, requests, start, sent);
      if error.Some? {
        return;
      }
      OneMoreAck(replies, requests);
      chunks, requests := chunks + [buffer], requests + 1;
      bytesSent := bytesSent + read;
    }
    assert archive[resumeOffset..bytesSent] == archive[resumeOffset..];
  }

  /** Success means that the header, the whole archive from the offset on and the end were sealed in this order
      and each of them was acknowledged; after any error no more than the last frame is unacknowledged. */
  method SendPrebuilt(connection: SenderConnection, archive: Bytes, compression: Compression, resumeOffset: U64,
                      readSizes: nat -> nat, replies: Replies)
    returns (r: Result<nat, Libp2pSendError>, ghost chunks: seq<Bytes>, ghost sent: seq<SecureFrame>)
    requires connection.HasSent(connection.channel, [])
    modifies connection, connection.aead
    ensures connection.Valid()
    ensures r == Err(OffsetTooFar) <==> resumeOffset > |archive|
    ensures r != Err(CannotEncrypt) ==> connection.HasSent(old(connection.channel), sent)
    ensures r.Ok? ==> r.value == |archive| && IsChunking(chunks, archive[resumeOffset..])
                      && sent == SenderFrames(compression, chunks) && AllAcked(replies, |sent|)
    ensures r.Err? ==> sent == [] || AllAcked(replies, |sent| - 1)
  {
    assert connection.Valid();
    hide IsChunking, ChunkFrames, ReplyError, SenderConnection.HasSent, SenderConnection.Valid;
    chunks, sent := [], [];
    if resumeOffset > |archive| {
      return Err(OffsetTooFar), chunks, sent;
    }
    ghost var start := connection.channel;
    var error;
    error, sent := SendSecureRequest(connection, Header(compression), replies, 0, start, sent);
    if error.Some? {
      return Err(error.value), chunks, sent;
    }
    OneMoreAck(replies, 0);
    assert sent == [Header(compression)];
    var requests;
    error, requests, chunks, sent := SendChunks(connection, archive, compression, resumeOffset, readSizes, replies, start);
    if error.Some? {
      return Err(error.value), chunks, sent;
    }
    error, sent := SendSecureRequest(connection, SecureFrame.Done, replies, requests, start, sent);
    if error.Some? {
      return Err(error.value), chunks, sent;
    }
    OneMoreAck(replies, requests);
    r := Ok(|archive|);
  }

  // ---------------------------------------------------------------------------------------------
  // What the acknowledgements say about the receiver.

  /** A chunk that some sender sealed opens, where it opens at all, to the frame that was sealed. */
  lemma OpensToItsFrame(codec: Codec, e: Endpoint, ratchet: Ratchet, sequence: U64, frame: SecureFrame)
    requires Inverse(codec)
    requires Decrypted(codec, e, SealedChunk(ratchet, sequence, SECURE_AAD, codec.encode(frame))).1.Ok?
    ensures Decrypted(codec, e, SealedChunk(ratchet, sequence, SECURE_AAD, codec.encode(frame))).1.value == frame
  {
    assert codec.decode(codec.encode(frame)) == Some(frame);
  }

  /** A request with the sealed end of a transfer. */
  predicate CarriesEnd(o: R.Options, e: R.Event, ratchet: Ratchet, sequence: U64) {
    e.Request? && e.frame == R.Secure(SealedChunk(ratchet, sequence, SECURE_AAD, o.u.secure.encode(SecureFrame.Done)))
  }

  lemma AcknowledgedEnd(o: R.Options, w: L.World, e: R.Event, ratchet: Ratchet, sequence: U64)
    requires Inverse(o.u.secure) && CarriesEnd(o, e, ratchet, sequence)
    requires R.OnEvent(o, w.sessions, w.disk, e).reply == R.Respond(R.Ack)
    ensures e.peer in w.sessions
    ensures var t := R.OnEvent(o, w.sessions, w.disk, e);
      && t.act.Some? && t.act.value.Completed? && t.act.value.request == e.request
      && L.Checked(o.u, w.sessions[e.peer], t.act.value.archive, t.act.value.before)
      && L.PendingOf(t.sessions, e.peer) == Some((e.request, t.act.value.archive))
  {
    hide R.OnDone, SealedChunk, Decrypted, L.Checked;
    L.AckMeansDone(o, w.sessions, w.disk, e);
    var s := w.sessions[e.peer];
    OpensToItsFrame(o.u.secure, Endpoint(s.aead.value, s.expectedSequence), ratchet, sequence, SecureFrame.Done);
    L.SecureSettles(o, w, e);
  }

  /** When the receiver acknowledges the end of a transfer, it has an archive of the length and the hash that the
      session was introduced with, and has unpacked it; if the hash is that of the sender's archive, and of
      nothing else, then it is the sender's archive. Whatever comes in between, the delivery of the response then
      reports it exactly when nothing has replaced or settled the session's result. */
  lemma AcknowledgedEndIsReceived(o: R.Options, w: L.World, e: R.Event, later: seq<R.Event>, ratchet: Ratchet, sequence: U64,
                                  archive: Bytes)
    requires Inverse(o.u.secure) && CarriesEnd(o, e, ratchet, sequence)
    requires R.OnEvent(o, w.sessions, w.disk, e).reply == R.Respond(R.Ack)
    requires forall other :: o.u.env.hash(other) == o.u.env.hash(archive) ==> other == archive
    requires e.peer in w.sessions && w.sessions[e.peer].descriptor.resourceId == o.u.env.hash(archive)
    requires L.Advance(o, w, e).Some? && L.After(o, L.Advance(o, w, e).value, later).Some?
    requires forall act :: act in L.ActsBy(o, L.Advance(o, w, e).value, later, e.peer) && act.Completed?
               ==> act.request != e.request
    ensures var t := R.OnEvent(o, w.sessions, w.disk, e);
      && t.act == Some(R.Completed(e.request, archive, FullTree(o.u, w.disk)))
      && L.Checked(o.u, w.sessions[e.peer], archive, FullTree(o.u, w.disk))
    ensures var w' := L.Advance(o, w, e).value;
      var end, acts := L.After(o, w', later).value, L.ActsBy(o, w', later, e.peer);
      R.OnResponseSent(end.sessions, end.disk, e.peer, e.request).reply == R.Yield(archive)
      <==> forall i :: 0 <= i < |acts| ==> !L.Settles(acts[i])
  {
    AcknowledgedEnd(o, w, e, ratchet, sequence);
    L.AckMeansDone(o, w.sessions, w.disk, e);
    hide R.OnRequest, L.After, L.ActsBy, L.Settles, R.OnResponseSent, FullTree, UnpackArchive, R.OpenChunk;
    L.ReportedExactly(o, L.Advance(o, w, e).value, later, e.peer, e.request, archive);
  }

  /** Likewise for the other frames: an acknowledged header was accepted, an acknowledged chunk was appended. */
  lemma AcknowledgedFrameIsTaken(o: R.Options, w: L.World, e: R.Event, ratchet: Ratchet, sequence: U64, frame: SecureFrame)
    requires Inverse(o.u.secure) && e.Request? && !frame.Done?
    requires e.frame == R.Secure(SealedChunk(ratchet, sequence, SECURE_AAD, o.u.secure.encode(frame)))
    ensures R.OnEvent(o, w.sessions, w.disk, e).reply == R.Respond(R.Ack) ==>
              R.OnEvent(o, w.sessions, w.disk, e).act
              == Some(if frame.Header? then R.HeaderAccepted(frame.compression) else R.Appended(frame.bytes))
  {
    hide AppendResult, AppendEffects, CompleteResult, RemovePartialEffects, CompleteEffects, SealedChunk, Decrypted;
    L.AckMeansDone(o, w.sessions, w.disk, e);
    if R.OnEvent(o, w.sessions, w.disk, e).reply == R.Respond(R.Ack) {
      var s := w.sessions[e.peer];
      OpensToItsFrame(o.u.secure, Endpoint(s.aead.value, s.expectedSequence), ratchet, sequence, frame);
    }
  }
}
