/** The secure frames of crates/peerline-net/src/protocol.rs and what a channel can do to them. */
module SecureChannel {
  import opened Bytes
  import opened ChunkRatchet

  datatype Compression = CompressAuto | CompressNone | CompressZstd | CompressLzma

  datatype SecureFrame =
    | Header(compression: Compression)
    | ArchiveChunk(bytes: Bytes)
    | Done

  /** The payload serialiser, of which only the inverse law is used. */
  datatype Codec = Codec(encode: SecureFrame -> Bytes, decode: Bytes -> Option<SecureFrame>)

  ghost predicate Inverse(codec: Codec) {
    forall frame :: codec.decode(codec.encode(frame)) == Some(frame)
  }

  const SECURE_AAD: Bytes := Ascii("peerline:secure-frame:v1")

  datatype SecureError = SequenceMismatch | DecryptFailed | Malformed

  /** A ratchet with the sequence counter that its owner keeps beside it. */
  datatype Endpoint = Endpoint(ratchet: Ratchet, sequence: U64)

  /** `sequence += 1` on a u64 in a release build. */
  function Bump(sequence: U64): U64 {
    (sequence + 1) % U64_LIMIT
  }

  function Encrypted(codec: Codec, e: Endpoint, frame: SecureFrame): (Endpoint, Option<EncryptedChunk>) {
    var payload := codec.encode(frame);
    if |payload| > PLAINTEXT_LIMIT then (e, None)
    else (Endpoint(Advanced(e.ratchet, e.sequence), Bump(e.sequence)),
          Some(SealedChunk(e.ratchet, e.sequence, SECURE_AAD, payload)))
  }

  function Decrypted(codec: Codec, e: Endpoint, chunk: EncryptedChunk)
    : (Endpoint, Result<SecureFrame, SecureError>)
  {
    if chunk.sequence != e.sequence then (e, Err(SequenceMismatch))
    else
      var bumped := e.(sequence := Bump(e.sequence));
      match Opened(e.ratchet, SECURE_AAD, chunk)
      case None => (bumped, Err(DecryptFailed))
      case Some(plaintext) =>
        (bumped.(ratchet := Advanced(e.ratchet, chunk.sequence)),
         match codec.decode(plaintext) case Some(frame) => Ok(frame) case None => Err(Malformed))
  }

  method EncryptSecure(codec: Codec, aead: ChunkAead, sequence: U64, frame: SecureFrame)
    returns (sequence': U64, r: Option<EncryptedChunk>)
    modifies aead
    ensures (Endpoint(aead.State(), sequence'), r) == Encrypted(codec, Endpoint(old(aead.State()), sequence), frame)
  {
    sequence' := sequence;
    var payload := codec.encode(frame);
    r := aead.Encrypt(sequence, SECURE_AAD, payload);
    if r.Some? {
      sequence' := (sequence + 1) % U64_LIMIT;
    }
  }

  /** The expected sequence moves on before the chunk is opened, so a chunk that carries the expected number
      and does not open leaves the counter and the ratchet out of step. */
  method DecryptSecure(codec: Codec, aead: ChunkAead, expectedSequence: U64, encrypted: EncryptedChunk)
    returns (sequence': U64, r: Result<SecureFrame, SecureError>)
    modifies aead
    ensures (Endpoint(aead.State(), sequence'), r)
         == Decrypted(codec, Endpoint(old(aead.State()), expectedSequence), encrypted)
  {
    sequence' := expectedSequence;
    if encrypted.sequence != expectedSequence {
      return sequence', Err(SequenceMismatch);
    }
    sequence' := (expectedSequence + 1) % U64_LIMIT;
    var plaintext := aead.Decrypt(SECURE_AAD, encrypted);
    if plaintext.None? {
      return sequence', Err(DecryptFailed);
    }
    var frame := codec.decode(plaintext.value);
    r := if frame.Some? then Ok(frame.value) else Err(Malformed);
  }

  // ---------------------------------------------------------------------------------------------
  // Runs over a channel that may drop, reorder, repeat, renumber and invent chunks.

  /** `failures` counts the chunks with the expected number that did not open. */
  datatype Channel = Channel(
    sender: Endpoint,
    receiver: Endpoint,
    sent: seq<SecureFrame>,
    wire: seq<EncryptedChunk>,
    accepted: seq<SecureFrame>,
    failures: nat)

  datatype Step = Send(frame: SecureFrame) | Deliver(chunk: EncryptedChunk)

  function Next(codec: Codec, c: Channel, step: Step): Channel {
    match step
    case Send(frame) =>
      var (sender, r) := Encrypted(codec, c.sender, frame);
      if r.None? then c.(sender := sender)
      else c.(sender := sender, sent := c.sent + [frame], wire := c.wire + [r.value])
    case Deliver(chunk) =>
      var (receiver, r) := Decrypted(codec, c.receiver, chunk);
      match r
      case Ok(frame) => c.(receiver := receiver, accepted := c.accepted + [frame])
      case Err(SequenceMismatch) => c.(receiver := receiver)
      case Err(_) => c.(receiver := receiver, failures := c.failures + 1)
  }

  function After(codec: Codec, c: Channel, steps: seq<Step>): Channel
    decreases |steps|
  {
    if steps == [] then c else After(codec, Next(codec, c, steps[0]), steps[1..])
  }

  /** Sealing under a key that grows from the session secret takes that secret: such a ciphertext is one the
      sender has produced. Everything else may be delivered at any time, under any number. */
  ghost predicate Possible(secret: nat, c: Channel, step: Step) {
    step.Deliver? && step.chunk.ciphertext.Sealed? && SecretOf(step.chunk.ciphertext.key) == secret ==>
      exists i :: 0 <= i < |c.wire| && c.wire[i].ciphertext == step.chunk.ciphertext
  }

  ghost predicate PossibleRun(codec: Codec, secret: nat, c: Channel, steps: seq<Step>)
    decreases |steps|
  {
    steps == [] || (Possible(secret, c, steps[0]) && PossibleRun(codec, secret, Next(codec, c, steps[0]), steps[1..]))
  }

  function Opening(secret: nat, prefix: NoncePrefix): Channel {
    var e := Endpoint(Ratchet(Root(secret), prefix), 0);
    Channel(e, e, [], [], [], 0)
  }

  /** The first `n` sequence numbers. */
  function Numbers(n: nat): (s: seq<U64>)
    ensures |s| == n
  {
    seq(n, i requires 0 <= i < n => i % U64_LIMIT)
  }

  /** The ratchet of either side once `n` messages have gone through it. */
  function RatchetAt(secret: nat, prefix: NoncePrefix, n: nat): Ratchet {
    AfterMessages(Ratchet(Root(secret), prefix), Numbers(n))
  }

  lemma RatchetAtSucc(secret: nat, prefix: NoncePrefix, n: nat)
    ensures RatchetAt(secret, prefix, n + 1) == Advanced(RatchetAt(secret, prefix, n), n % U64_LIMIT)
    ensures SecretOf(RatchetAt(secret, prefix, n).chainKey) == secret
    ensures Depth(RatchetAt(secret, prefix, n).chainKey) == n
  {
    assert Numbers(n + 1)[..n] == Numbers(n);
    DepthAfterMessages(Ratchet(Root(secret), prefix), Numbers(n));
  }

  /** Each chunk on the wire is its frame under its own number. */
  ghost predicate OnTheWire(codec: Codec, secret: nat, prefix: NoncePrefix, wire: seq<EncryptedChunk>,
                            sent: seq<SecureFrame>) {
    && |wire| == |sent|
    && forall i :: 0 <= i < |wire| ==>
         wire[i] == SealedChunk(RatchetAt(secret, prefix, i), i % U64_LIMIT, SECURE_AAD, codec.encode(sent[i]))
  }

  /** What every reachable channel satisfies: both sides are in lockstep with the frames they handled. */
  ghost predicate Lockstep(codec: Codec, secret: nat, prefix: NoncePrefix, c: Channel) {
    && c.sender == Endpoint(RatchetAt(secret, prefix, |c.sent|), |c.sent| % U64_LIMIT)
    && OnTheWire(codec, secret, prefix, c.wire, c.sent)
    && c.accepted <= c.sent
    && c.receiver == Endpoint(RatchetAt(secret, prefix, |c.accepted|), (|c.accepted| + c.failures) % U64_LIMIT)
  }

  lemma BumpModulo(n: nat)
    ensures Bump(n % U64_LIMIT) == (n + 1) % U64_LIMIT
  {
  }

  lemma ModuloShift(n: nat, k: nat)
    ensures (n + k) % U64_LIMIT == n % U64_LIMIT <==> k % U64_LIMIT == 0
  {
    var m := U64_LIMIT;
    assert n == m * (n / m) + n % m;
    assert k == m * (k / m) + k % m;
    if k % m == 0 {
      assert n + k == m * (n / m + k / m) + n % m;
      ModuloUnique(n + k, n / m + k / m, n % m);
    } else if n % m + k % m < m {
      assert n + k == m * (n / m + k / m) + (n % m + k % m);
      ModuloUnique(n + k, n / m + k / m, n % m + k % m);
    } else {
      assert n + k == m * (n / m + k / m + 1) + (n % m + k % m - m);
      ModuloUnique(n + k, n / m + k / m + 1, n % m + k % m - m);
    }
  }

  lemma ModuloUnique(n: nat, q: nat, r: nat)
    requires n == U64_LIMIT * q + r && r < U64_LIMIT
    ensures n % U64_LIMIT == r
  {
  }

  /** A receiver in lockstep opens the ciphertext of the next frame under that frame's number and no other
      ciphertext that can be delivered. */
  lemma OpensOnlyTheNext(codec: Codec, secret: nat, prefix: NoncePrefix, c: Channel, chunk: EncryptedChunk)
    requires Lockstep(codec, secret, prefix, c) && Possible(secret, c, Deliver(chunk))
    ensures var n := |c.accepted|;
            Opened(c.receiver.ratchet, SECURE_AAD, chunk) ==
            if n < |c.sent| && chunk == c.wire[n] then Some(codec.encode(c.sent[n])) else None
  {
    var n := |c.accepted|;
    var r := c.receiver.ratchet;
    RatchetAtSucc(secret, prefix, n);
    if n < |c.sent| {
      OpensExactlyItsOwn(r, r, SECURE_AAD, codec.encode(c.sent[n]), n % U64_LIMIT, chunk.sequence);
    }
    if Opened(r, SECURE_AAD, chunk).Some? {
      var i :| 0 <= i < |c.wire| && c.wire[i].ciphertext == chunk.ciphertext;
      RatchetAtSucc(secret, prefix, i);
      assert i == n;
      assert chunk == c.wire[n].(sequence := chunk.sequence);
    }
  }

  /** Which chunk is accepted, for every chunk a channel can deliver to a reachable receiver: the next one the
      sender produced, unchanged, and only while the failures so far are a multiple of the counter's range.
      A chunk with another number changes nothing; one with the right number that does not open moves the
      counter and not the ratchet. */
  lemma AcceptedExactly(codec: Codec, secret: nat, prefix: NoncePrefix, c: Channel, chunk: EncryptedChunk)
    requires Inverse(codec) && Lockstep(codec, secret, prefix, c) && Possible(secret, c, Deliver(chunk))
    ensures var (receiver, r) := Decrypted(codec, c.receiver, chunk);
            var n := |c.accepted|;
            && (r.Ok? <==> c.failures % U64_LIMIT == 0 && n < |c.sent| && chunk == c.wire[n])
            && (r.Ok? ==> r.value == c.sent[n] && receiver.ratchet == RatchetAt(secret, prefix, n + 1))
            && (r == Err(SequenceMismatch) <==> chunk.sequence != c.receiver.sequence)
            && (r == Err(SequenceMismatch) ==> receiver == c.receiver)
            && (r == Err(DecryptFailed) ==> receiver == c.receiver.(sequence := Bump(c.receiver.sequence)))
            && r != Err(Malformed)
  {
    var n := |c.accepted|;
    OpensOnlyTheNext(codec, secret, prefix, c, chunk);
    ModuloShift(n, c.failures);
    RatchetAtSucc(secret, prefix, n);
    if n < |c.sent| {
      assert codec.decode(codec.encode(c.sent[n])) == Some(c.sent[n]);
    }
  }

  lemma OneMoreOnTheWire(codec: Codec, secret: nat, prefix: NoncePrefix, wire: seq<EncryptedChunk>, sent: seq<SecureFrame>,
                         frame: SecureFrame)
    requires OnTheWire(codec, secret, prefix, wire, sent)
    ensures var chunk := SealedChunk(RatchetAt(secret, prefix, |sent|), |sent| % U64_LIMIT, SECURE_AAD, codec.encode(frame));
      OnTheWire(codec, secret, prefix, wire + [chunk], sent + [frame])
  {
    hide RatchetAt, SealedChunk;
  }

  lemma LockstepSend(codec: Codec, secret: nat, prefix: NoncePrefix, c: Channel, frame: SecureFrame)
    requires Lockstep(codec, secret, prefix, c)
    ensures Lockstep(codec, secret, prefix, Next(codec, c, Send(frame)))
  {
    hide Bump, RatchetAt, Advanced, SealedChunk, OnTheWire;
    BumpModulo(|c.sent|);
    RatchetAtSucc(secret, prefix, |c.sent|);
    OneMoreOnTheWire(codec, secret, prefix, c.wire, c.sent, frame);
  }

  lemma LockstepDeliver(codec: Codec, secret: nat, prefix: NoncePrefix, c: Channel, chunk: EncryptedChunk)
    requires Inverse(codec) && Lockstep(codec, secret, prefix, c) && Possible(secret, c, Deliver(chunk))
    ensures Lockstep(codec, secret, prefix, Next(codec, c, Deliver(chunk)))
  {
    AcceptedExactly(codec, secret, prefix, c, chunk);
    BumpModulo(|c.accepted| + c.failures);
    hide RatchetAt, Opened, SealedChunk, Inverse, Possible;
    if Decrypted(codec, c.receiver, chunk).1.Ok? {
      ModuloShift(|c.accepted|, c.failures);
      ModuloShift(|c.accepted| + 1, c.failures);
    }
  }

  lemma LockstepNext(codec: Codec, secret: nat, prefix: NoncePrefix, c: Channel, step: Step)
    requires Inverse(codec) && Lockstep(codec, secret, prefix, c) && Possible(secret, c, step)
    ensures Lockstep(codec, secret, prefix, Next(codec, c, step))
  {
    match step
    case Send(frame) => LockstepSend(codec, secret, prefix, c, frame);
    case Deliver(chunk) => LockstepDeliver(codec, secret, prefix, c, chunk);
  }

  lemma {:induction false} LockstepAlways(codec: Codec, secret: nat, prefix: NoncePrefix, c: Channel, steps: seq<Step>)
    requires Inverse(codec) && Lockstep(codec, secret, prefix, c) && PossibleRun(codec, secret, c, steps)
    ensures Lockstep(codec, secret, prefix, After(codec, c, steps))
    decreases |steps|
  {
    if steps != [] {
      LockstepNext(codec, secret, prefix, c, steps[0]);
      LockstepAlways(codec, secret, prefix, Next(codec, c, steps[0]), steps[1..]);
    }
  }

  /** Whatever the channel does, the accepted frames are a prefix of the sent ones, and no two chunks on the
      wire share a message key. */
  lemma AcceptedIsPrefixOfSent(codec: Codec, secret: nat, prefix: NoncePrefix, steps: seq<Step>)
    requires Inverse(codec) && PossibleRun(codec, secret, Opening(secret, prefix), steps)
    ensures var c := After(codec, Opening(secret, prefix), steps);
            && c.accepted <= c.sent
            && (forall i, j :: 0 <= i < j < |c.wire| ==>
                  c.wire[i].ciphertext.Sealed? && c.wire[j].ciphertext.Sealed?
                  && c.wire[i].ciphertext.key != c.wire[j].ciphertext.key)
  {
    LockstepAlways(codec, secret, prefix, Opening(secret, prefix), steps);
    var c := After(codec, Opening(secret, prefix), steps);
    forall i, j | 0 <= i < j < |c.wire|
      ensures c.wire[i].ciphertext.Sealed? && c.wire[j].ciphertext.Sealed?
      ensures c.wire[i].ciphertext.key != c.wire[j].ciphertext.key
    {
      MessageKeysAreFresh(Ratchet(Root(secret), prefix), Numbers(i), Numbers(j), i % U64_LIMIT, j % U64_LIMIT);
    }
  }

  lemma BrokenStep(codec: Codec, secret: nat, prefix: NoncePrefix, c: Channel, step: Step)
    requires Inverse(codec) && Lockstep(codec, secret, prefix, c) && Possible(secret, c, step)
    requires 0 < c.failures < U64_LIMIT
    ensures Next(codec, c, step).accepted == c.accepted
    ensures c.failures <= Next(codec, c, step).failures <= c.failures + 1
  {
    hide Lockstep, Possible, Inverse, Opened, SealedChunk, RatchetAt, Advanced;
    assert c.failures % U64_LIMIT == c.failures;
    if step.Deliver? {
      AcceptedExactly(codec, secret, prefix, c, step.chunk);
    }
  }

  /** After one failed decryption nothing is accepted again, for as long as the failures have not gone once
      around the 64-bit counter. */
  lemma {:induction false} BrokenStaysBroken(codec: Codec, secret: nat, prefix: NoncePrefix, c: Channel, steps: seq<Step>)
    requires Inverse(codec) && Lockstep(codec, secret, prefix, c) && PossibleRun(codec, secret, c, steps)
    requires 0 < c.failures && c.failures + |steps| <= U64_LIMIT
    ensures After(codec, c, steps).accepted == c.accepted
    decreases |steps|
  {
    hide Inverse, Lockstep, Next, Possible;
    if steps != [] {
      BrokenStep(codec, secret, prefix, c, steps[0]);
      LockstepNext(codec, secret, prefix, c, steps[0]);
      BrokenStaysBroken(codec, secret, prefix, Next(codec, c, steps[0]), steps[1..]);
    }
  }

  function Deliveries(chunks: seq<EncryptedChunk>): (steps: seq<Step>)
    ensures |steps| == |chunks|
  {
    seq(|chunks|, i requires 0 <= i < |chunks| => Deliver(chunks[i]))
  }

  /** A channel that delivers the outstanding chunks in order loses nothing. */
  lemma {:induction false} InOrderDeliveryAcceptsAll(codec: Codec, secret: nat, prefix: NoncePrefix, c: Channel)
    requires Inverse(codec) && Lockstep(codec, secret, prefix, c) && c.failures == 0
    ensures var rest := Deliveries(c.wire[|c.accepted|..]);
            && PossibleRun(codec, secret, c, rest)
            && After(codec, c, rest).accepted == c.sent
    decreases |c.sent| - |c.accepted|
  {
    hide RatchetAt, Opened, Advanced, SealedChunk, Inverse;
    var n := |c.accepted|;
    var rest := Deliveries(c.wire[n..]);
    if n < |c.sent| {
      assert rest[0] == Deliver(c.wire[n]);
      assert c.wire[n].ciphertext == rest[0].chunk.ciphertext;
      AcceptedExactly(codec, secret, prefix, c, c.wire[n]);
      LockstepNext(codec, secret, prefix, c, rest[0]);
      var c' := Next(codec, c, rest[0]);
      InOrderDeliveryAcceptsAll(codec, secret, prefix, c');
      assert rest[1..] == Deliveries(c'.wire[|c'.accepted|..]);
    }
  }
}
