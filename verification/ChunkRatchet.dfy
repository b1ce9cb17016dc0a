/** The chunk ratchet of crates/peerline-crypto/src/aead.rs over symbolic terms.

    A key is a term, so two keys are equal exactly when they were derived in the same way: HKDF is
    taken to be free of collisions. A ciphertext is either the sealing of a plaintext under a key,
    a nonce and associated data, or bytes that no key opens. */
module ChunkRatchet {
  import opened Bytes

  /** A fresh secret, or an HKDF output of another key under an info string. */
  datatype Key = Root(id: nat) | Derived(ikm: Key, info: Bytes)

  datatype Ciphertext =
    | Sealed(key: Key, nonce: Bytes, aad: Bytes, plaintext: Bytes)
    | Junk(raw: Bytes)

  datatype EncryptedChunk = EncryptedChunk(sequence: U64, ciphertext: Ciphertext)

  type NoncePrefix = p: Bytes | |p| == 4 witness [0, 0, 0, 0]

  /** The most plaintext that ChaCha20-Poly1305 seals, section 2.8 of RFC 8439. */
  const PLAINTEXT_LIMIT: nat := 274877906880

  const MESSAGE_LABEL: Bytes := Ascii("message-key")
  const CHAIN_LABEL: Bytes := Ascii("chain-key")

  /** The value of a `ChunkAead` object. */
  datatype Ratchet = Ratchet(chainKey: Key, noncePrefix: NoncePrefix)

  function MessageKey(r: Ratchet, sequence: U64): Key {
    Derived(r.chainKey, MESSAGE_LABEL + r.noncePrefix + BigEndian(sequence, 8))
  }

  function Advanced(r: Ratchet, sequence: U64): Ratchet {
    r.(chainKey := Derived(r.chainKey, CHAIN_LABEL + r.noncePrefix + BigEndian(sequence, 8)))
  }

  function NonceOf(r: Ratchet, sequence: U64): Bytes {
    r.noncePrefix + BigEndian(sequence, 8)
  }

  function SealedChunk(r: Ratchet, sequence: U64, aad: Bytes, plaintext: Bytes): EncryptedChunk {
    EncryptedChunk(sequence, Sealed(MessageKey(r, sequence), NonceOf(r, sequence), aad, plaintext))
  }

  function Opened(r: Ratchet, aad: Bytes, chunk: EncryptedChunk): Option<Bytes> {
    match chunk.ciphertext
    case Sealed(key, nonce, aad', plaintext) =>
      if key == MessageKey(r, chunk.sequence) && nonce == NonceOf(r, chunk.sequence) && aad' == aad
      then Some(plaintext) else None
    case Junk(_) => None
  }

  class ChunkAead {
    var chainKey: Key
    const noncePrefix: NoncePrefix

    function State(): Ratchet
      reads this
    {
      Ratchet(chainKey, noncePrefix)
    }

    constructor (key: Key, prefix: NoncePrefix)
      ensures State() == Ratchet(key, prefix)
    {
      chainKey, noncePrefix := key, prefix;
    }

    method Nonce(sequence: U64) returns (nonce: array<Byte>)
      ensures fresh(nonce) && nonce[..] == NonceOf(State(), sequence)
    {
      nonce := new Byte[12](_ => 0);
      var encoded := BigEndian(sequence, 8);
      forall i | 0 <= i < 4 {
        nonce[i] := noncePrefix[i];
      }
      forall i | 4 <= i < 12 {
        nonce[i] := encoded[i - 4];
      }
    }

    /** Two new keys: neither is the other, the chain key they come from, or a key for another number. */
    method DeriveNext(sequence: U64) returns (messageKey: Key, nextChainKey: Key)
      ensures messageKey == MessageKey(State(), sequence)
      ensures nextChainKey == Advanced(State(), sequence).chainKey
      ensures messageKey != nextChainKey && messageKey != State().chainKey && nextChainKey != State().chainKey
      ensures forall other: U64 :: MessageKey(State(), other) == messageKey ==> other == sequence
      ensures forall other: U64 :: Advanced(State(), other).chainKey == nextChainKey ==> other == sequence
      ensures forall other: U64 :: MessageKey(State(), other) != nextChainKey && Advanced(State(), other).chainKey != messageKey
    {
      var suffix := noncePrefix + BigEndian(sequence, 8);
      assert MESSAGE_LABEL + noncePrefix + BigEndian(sequence, 8) == MESSAGE_LABEL + suffix;
      assert CHAIN_LABEL + noncePrefix + BigEndian(sequence, 8) == CHAIN_LABEL + suffix;
      messageKey := Derived(chainKey, MESSAGE_LABEL + suffix);
      nextChainKey := Derived(chainKey, CHAIN_LABEL + suffix);
      forall other: U64 ensures MessageKey(State(), other) == messageKey ==> other == sequence
        ensures Advanced(State(), other).chainKey == nextChainKey ==> other == sequence
        ensures MessageKey(State(), other) != nextChainKey && Advanced(State(), other).chainKey != messageKey
      {
        KeysTellNumbers(State(), sequence, other);
      }
      assert Depth(messageKey) == Depth(nextChainKey) == 1 + Depth(chainKey);
      KeysTellNumbers(State(), sequence, sequence);
    }

    /** Seals and advances; a plaintext beyond the cipher's limit leaves the ratchet where it is. */
    method Encrypt(sequence: U64, aad: Bytes, plaintext: Bytes) returns (r: Option<EncryptedChunk>)
      modifies this
      ensures r.Some? <==> |plaintext| <= PLAINTEXT_LIMIT
      ensures r.Some? ==> r.value == SealedChunk(old(State()), sequence, aad, plaintext)
      ensures State() == if r.Some? then Advanced(old(State()), sequence) else old(State())
    {
      var messageKey, nextChainKey := DeriveNext(sequence);
      var nonce := Nonce(sequence);
      if |plaintext| > PLAINTEXT_LIMIT {
        return None;
      }
      r := Some(EncryptedChunk(sequence, Sealed(messageKey, nonce[..], aad, plaintext)));
      chainKey := nextChainKey;
    }

    /** Opens and advances; a chunk that does not open leaves the ratchet where it is. */
    method Decrypt(aad: Bytes, chunk: EncryptedChunk) returns (r: Option<Bytes>)
      modifies this
      ensures r == Opened(old(State()), aad, chunk)
      ensures State() == if r.Some? then Advanced(old(State()), chunk.sequence) else old(State())
    {
      var messageKey, nextChainKey := DeriveNext(chunk.sequence);
      var nonce := Nonce(chunk.sequence);
      match chunk.ciphertext
      case Junk(_) => r := None;
      case Sealed(key, nonce', aad', plaintext) =>
        if key == messageKey && nonce' == nonce[..] && aad' == aad {
          r := Some(plaintext);
          chainKey := nextChainKey;
        } else {
          r := None;
        }
    }
  }

  /** How many derivations separate a key from its fresh secret. */
  function Depth(key: Key): nat {
    match key
    case Root(_) => 0
    case Derived(ikm, _) => 1 + Depth(ikm)
  }

  function SecretOf(key: Key): nat {
    match key
    case Root(id) => id
    case Derived(ikm, _) => SecretOf(ikm)
  }

  /** The ratchet after one message under each of the given sequence numbers. */
  function AfterMessages(r: Ratchet, sequences: seq<U64>): Ratchet {
    if sequences == [] then r
    else Advanced(AfterMessages(r, sequences[..|sequences| - 1]), sequences[|sequences| - 1])
  }

  lemma {:induction false} DepthAfterMessages(r: Ratchet, sequences: seq<U64>)
    ensures Depth(AfterMessages(r, sequences).chainKey) == Depth(r.chainKey) + |sequences|
    ensures SecretOf(AfterMessages(r, sequences).chainKey) == SecretOf(r.chainKey)
    ensures AfterMessages(r, sequences).noncePrefix == r.noncePrefix
  {
    if sequences != [] {
      DepthAfterMessages(r, sequences[..|sequences| - 1]);
    }
  }

  lemma LabelsDiffer(prefix: NoncePrefix, s: U64, t: U64)
    ensures MESSAGE_LABEL + prefix + BigEndian(s, 8) != CHAIN_LABEL + prefix + BigEndian(t, 8)
  {
    assert (MESSAGE_LABEL + prefix + BigEndian(s, 8))[0] == 'm' as int;
    assert (CHAIN_LABEL + prefix + BigEndian(t, 8))[0] == 'c' as int;
  }

  lemma KeysTellNumbers(r: Ratchet, s: U64, t: U64)
    ensures MessageKey(r, s) == MessageKey(r, t) ==> s == t
    ensures Advanced(r, s).chainKey == Advanced(r, t).chainKey ==> s == t
    ensures MessageKey(r, s) != Advanced(r, t).chainKey && MessageKey(r, t) != Advanced(r, s).chainKey
  {
    LabelsDiffer(r.noncePrefix, s, t);
    LabelsDiffer(r.noncePrefix, t, s);
    MachineWidths();
    BigEndianRoundTrip(s, 8);
    BigEndianRoundTrip(t, 8);
    if MessageKey(r, s) == MessageKey(r, t) {
      SplitConcat(MESSAGE_LABEL + r.noncePrefix, BigEndian(s, 8), MESSAGE_LABEL + r.noncePrefix, BigEndian(t, 8));
    }
    if Advanced(r, s).chainKey == Advanced(r, t).chainKey {
      SplitConcat(CHAIN_LABEL + r.noncePrefix, BigEndian(s, 8), CHAIN_LABEL + r.noncePrefix, BigEndian(t, 8));
    }
  }

  /** No message key is used twice by one ratchet, whatever sequence numbers its caller hands in, and no
      message key is ever a chain key. */
  lemma MessageKeysAreFresh(r: Ratchet, before: seq<U64>, after: seq<U64>, s: U64, t: U64)
    requires |before| != |after|
    ensures MessageKey(AfterMessages(r, before), s) != MessageKey(AfterMessages(r, after), t)
    ensures MessageKey(AfterMessages(r, before), s) != AfterMessages(r, before + [t]).chainKey
  {
    DepthAfterMessages(r, before);
    DepthAfterMessages(r, after);
    assert (before + [t])[..|before|] == before;
    LabelsDiffer(r.noncePrefix, s, t);
  }

  /** One key opens one ciphertext: what a ratchet opens was sealed by a ratchet in the same state for the
      same sequence number, and comes back unchanged. */
  lemma OpensExactlyItsOwn(r: Ratchet, sender: Ratchet, aad: Bytes, plaintext: Bytes, sealedAs: U64, claimed: U64)
    ensures var chunk := SealedChunk(sender, sealedAs, aad, plaintext);
            Opened(r, aad, chunk.(sequence := claimed)) ==
            if r == sender && claimed == sealedAs then Some(plaintext) else None
  {
    MachineWidths();
    BigEndianRoundTrip(sealedAs, 8);
    BigEndianRoundTrip(claimed, 8);
    if NonceOf(r, claimed) == NonceOf(sender, sealedAs) {
      SplitConcat(r.noncePrefix, BigEndian(claimed, 8), sender.noncePrefix, BigEndian(sealedAs, 8));
    }
  }
}
