/** The base32 names of crates/peerline-net/src/tunnel/i2p.rs against section 6 of RFC 4648, without padding
    and in lower case. */
module I2pBase32 {
  import opened Bytes

  const ALPHABET: Bytes := Ascii("abcdefghijklmnopqrstuvwxyz234567")

  /** The letter for a five-bit value, which is how the alphabet is laid out. */
  function LetterOf(v: nat): Byte
    requires v < 32
  {
    if v < 26 then 'a' as int + v else '2' as int + v - 26
  }

  lemma AlphabetIsLetters()
    ensures |ALPHABET| == 32 && forall v :: 0 <= v < 32 ==> ALPHABET[v] == LetterOf(v)
  {
    var text := "abcdefghijklmnopqrstuvwxyz234567";
    assert forall i :: 0 <= i < 32 ==> ALPHABET[i] == text[i] as int;
  }

  const HOST_SUFFIX: Bytes := Ascii(".b32.i2p")

  const U16_LIMIT: int := 0x1_0000

  // ---------------------------------------------------------------------------------------------
  // Bit strings, most significant bit first.

  function Pow2(n: nat): (p: nat)
    ensures p > 0
  {
    if n == 0 then 1 else 2 * Pow2(n - 1)
  }

  /** The low `width` bits of `n`. */
  function BitsOf(n: nat, width: nat): (bits: seq<bool>)
    ensures |bits| == width
  {
    if width == 0 then [] else BitsOf(n / 2, width - 1) + [n % 2 == 1]
  }

  function ValueOf(bits: seq<bool>): nat {
    if bits == [] then 0 else 2 * ValueOf(bits[..|bits| - 1]) + if bits[|bits| - 1] then 1 else 0
  }

  function Zeros(n: nat): (bits: seq<bool>)
    ensures |bits| == n
  {
    seq(n, _ => false)
  }

  lemma {:induction false} ValueOfBits(n: nat, width: nat)
    requires n < Pow2(width)
    ensures ValueOf(BitsOf(n, width)) == n
  {
    if width > 0 {
      ValueOfBits(n / 2, width - 1);
      assert BitsOf(n, width)[..width - 1] == BitsOf(n / 2, width - 1);
    }
  }

  lemma {:induction false} BitsOfValue(bits: seq<bool>)
    ensures ValueOf(bits) < Pow2(|bits|)
    ensures BitsOf(ValueOf(bits), |bits|) == bits
  {
    if bits != [] {
      BitsOfValue(bits[..|bits| - 1]);
      assert bits == bits[..|bits| - 1] + [bits[|bits| - 1]];
    }
  }

  /** Appending `low` bits multiplies. */
  lemma {:induction false} BitsAppend(high: nat, width: nat, low: nat, count: nat)
    requires low < Pow2(count)
    ensures BitsOf(high * Pow2(count) + low, width + count) == BitsOf(high, width) + BitsOf(low, count)
  {
    if count == 0 {
      assert BitsOf(low, 0) == [];
    } else {
      var n := high * Pow2(count) + low;
      assert n == 2 * (high * Pow2(count - 1)) + low;
      assert n / 2 == high * Pow2(count - 1) + low / 2 && n % 2 == low % 2;
      BitsAppend(high, width, low / 2, count - 1);
    }
  }

  lemma {:induction false} ZeroBits(count: nat)
    ensures BitsOf(0, count) == Zeros(count)
  {
    if count > 0 {
      ZeroBits(count - 1);
    }
  }

  function ByteBits(bytes: Bytes): (bits: seq<bool>)
    ensures |bits| == 8 * |bytes|
  {
    if bytes == [] then [] else ByteBits(bytes[..|bytes| - 1]) + BitsOf(bytes[|bytes| - 1], 8)
  }

  /** The letters whose five-bit values spell the bits. */
  function Letters(bits: seq<bool>): (out: Bytes)
    requires |bits| % 5 == 0
    ensures |out| == |bits| / 5
  {
    if bits == [] then []
    else
      BitsOfValue(bits[|bits| - 5..]);
      assert Pow2(5) == 32;
      Letters(bits[..|bits| - 5]) + [LetterOf(ValueOf(bits[|bits| - 5..]))]
  }

  function Padding(n: nat): (p: nat)
    ensures p < 5 && (8 * n + p) % 5 == 0
  {
    2 * n % 5
  }

  /** The encoding as section 6 of RFC 4648 describes it: the bits in groups of five, the last filled up with
      zeros. */
  function Base32(bytes: Bytes): Bytes {
    Letters(ByteBits(bytes) + Zeros(Padding(|bytes|)))
  }

  lemma LettersAppend(bits: seq<bool>, index: nat)
    requires |bits| % 5 == 0 && index < 32
    ensures Letters(bits + BitsOf(index, 5)) == Letters(bits) + [LetterOf(index)]
  {
    assert Pow2(5) == 32;
    ValueOfBits(index, 5);
    var all := bits + BitsOf(index, 5);
    assert all[..|all| - 5] == bits && all[|all| - 5..] == BitsOf(index, 5);
  }

  lemma SmallPowers()
    ensures Pow2(0) == 1 && Pow2(1) == 2 && Pow2(2) == 4 && Pow2(3) == 8 && Pow2(4) == 16 && Pow2(5) == 32
    ensures Pow2(6) == 64 && Pow2(7) == 128 && Pow2(8) == 256 && Pow2(9) == 512 && Pow2(10) == 1024
    ensures Pow2(11) == 2048 && Pow2(12) == 4096
  {
  }

  lemma {:induction false} PowAdd(a: nat, b: nat)
    ensures Pow2(a + b) == Pow2(a) * Pow2(b)
  {
    if a > 0 {
      PowAdd(a - 1, b);
      assert Pow2(a + b) == 2 * Pow2(a - 1 + b);
    }
  }

  lemma DivMod(a: nat, p: nat, k: nat)
    requires p > 0 && a < k * p
    ensures a == (a / p) * p + a % p && a / p < k && a % p < p
  {
    if a / p >= k {
      Scales(k, a / p, p);
    }
  }

  lemma Scales(a: nat, b: nat, k: nat)
    requires a <= b
    ensures a * k <= b * k
  {
  }

  lemma PushFits(buffer: nat, bits: nat, byte: nat)
    requires bits < 5 && buffer < Pow2(bits) && byte < 256
    ensures ShiftLeft(buffer, 8) == buffer * 256 && buffer * 256 + byte < Pow2(bits + 8)
  {
    SmallPowers();
    hide Pow2;
    assert bits == 0 || bits == 1 || bits == 2 || bits == 3 || bits == 4;
  }

  /** One byte enters the buffer. Nothing is shifted out of its sixteen bits. */
  lemma PushByte(bytes: Bytes, i: nat, written: seq<bool>, buffer: nat, bits: nat)
    requires i < |bytes| && bits < 5 && buffer < Pow2(bits)
    requires written + BitsOf(buffer, bits) == ByteBits(bytes[..i])
    ensures ShiftLeft(buffer, 8) == buffer * 256
    ensures ShiftLeft(buffer, 8) + bytes[i] < Pow2(bits + 8)
    ensures written + BitsOf(ShiftLeft(buffer, 8) + bytes[i], bits + 8) == ByteBits(bytes[..i + 1])
  {
    hide *;
    PushFits(buffer, bits, bytes[i]);
    EightBitsEnter(written, buffer, bits, bytes[i]);
    OneMoreByte(bytes, i);
  }

  lemma EightBitsEnter(written: seq<bool>, buffer: nat, bits: nat, byte: nat)
    requires byte < 256
    ensures written + BitsOf(buffer * 256 + byte, bits + 8) == written + BitsOf(buffer, bits) + BitsOf(byte, 8)
  {
    assert Pow2(8) == 256 by { SmallPowers(); }
    hide Pow2, BitsOf;
    BitsAppend(buffer, bits, byte, 8);
    Assoc(written, BitsOf(buffer, bits), BitsOf(byte, 8));
  }

  lemma OneMoreByte(bytes: Bytes, i: nat)
    requires i < |bytes|
    ensures ByteBits(bytes[..i + 1]) == ByteBits(bytes[..i]) + BitsOf(bytes[i], 8)
  {
    assert bytes[..i + 1][..i] == bytes[..i];
    hide BitsOf;
  }

  lemma Assoc<T>(a: seq<T>, b: seq<T>, c: seq<T>)
    ensures a + (b + c) == a + b + c
  {
  }

  /** `n >> count` and `n & ((1 << count) - 1)`. */
  function ShiftRight(n: nat, count: nat): nat {
    Quotient(n, Pow2(count))
  }

  function LowBits(n: nat, count: nat): nat {
    Remainder(n, Pow2(count))
  }

  function Quotient(n: nat, p: nat): nat
    requires p > 0
  {
    n / p
  }

  function Remainder(n: nat, p: nat): nat
    requires p > 0
  {
    n % p
  }

  /** `n << count` as a u16. */
  function ShiftLeft(n: nat, count: nat): nat {
    n * Pow2(count) % U16_LIMIT
  }

  lemma PopSplits(buffer: nat, bits: nat)
    requires 5 <= bits && buffer < Pow2(bits)
    ensures var index, rest := ShiftRight(buffer, bits - 5), LowBits(buffer, bits - 5);
            index < 32 && rest < Pow2(bits - 5) && buffer == index * Pow2(bits - 5) + rest
  {
    PowAdd(5, bits - 5);
    SmallPowers();
    hide Pow2;
    DivMod(buffer, Pow2(bits - 5), 32);
  }

  /** One letter leaves the buffer: its top five bits. */
  lemma PopLetter(written: seq<bool>, buffer: nat, bits: nat)
    requires |written| % 5 == 0 && 5 <= bits && buffer < Pow2(bits)
    ensures var index, rest := ShiftRight(buffer, bits - 5), LowBits(buffer, bits - 5);
            && index < 32 && rest < Pow2(bits - 5)
            && Letters(written + BitsOf(index, 5)) == Letters(written) + [LetterOf(index)]
            && written + BitsOf(index, 5) + BitsOf(rest, bits - 5) == written + BitsOf(buffer, bits)
  {
    hide Letters, BitsOf, Pow2, LetterOf;
    PopSplits(buffer, bits);
    hide ShiftRight, LowBits;
    var index, rest := ShiftRight(buffer, bits - 5), LowBits(buffer, bits - 5);
    BitsAppend(index, 5, rest, bits - 5);
    LettersAppend(written, index);
    Assoc(written, BitsOf(index, 5), BitsOf(rest, bits - 5));
  }

  lemma FlushFits(buffer: nat, bits: nat)
    requires 0 < bits < 5 && buffer < Pow2(bits)
    ensures ShiftLeft(buffer, 5 - bits) == buffer * Pow2(5 - bits) < 32
  {
    SmallPowers();
    hide Pow2;
    assert bits == 1 || bits == 2 || bits == 3 || bits == 4;
  }

  lemma PaddingFor(n: nat, written: nat, bits: nat)
    requires written % 5 == 0 && written + bits == 8 * n && bits < 5
    ensures Padding(n) == if bits == 0 then 0 else 5 - bits
  {
    var p := Padding(n);
    hide Padding;
    var all, before := (8 * n + p) / 5, written / 5;
    assert 8 * n + p == 5 * all && written == 5 * before;
    assert bits + p == 5 * (all - before);
  }

  /** What is left at the end is filled up with zeros. */
  lemma FlushLetter(bytes: Bytes, written: seq<bool>, buffer: nat, bits: nat)
    requires |written| % 5 == 0 && 0 < bits < 5 && buffer < Pow2(bits)
    requires written + BitsOf(buffer, bits) == ByteBits(bytes)
    ensures ShiftLeft(buffer, 5 - bits) < 32
    ensures Letters(written) + [LetterOf(ShiftLeft(buffer, 5 - bits))] == Base32(bytes)
  {
    FlushFits(buffer, bits);
    assert 0 < Pow2(5 - bits);
    hide BitsOf, Pow2, Letters, LetterOf, ByteBits, ShiftLeft;
    BitsAppend(buffer, bits, 0, 5 - bits);
    hide Padding;
    ZeroBits(5 - bits);
    assert |written + BitsOf(buffer, bits)| == 8 * |bytes|;
    PaddingFor(|bytes|, |written|, bits);
    LettersAppend(written, ShiftLeft(buffer, 5 - bits));
    Assoc(written, BitsOf(buffer, bits), Zeros(5 - bits));
  }

  lemma NothingToFlush(bytes: Bytes, written: seq<bool>)
    requires |written| % 5 == 0 && written == ByteBits(bytes)
    ensures Letters(written) == Base32(bytes)
  {
    hide Padding, Letters, ByteBits;
    PaddingFor(|bytes|, |written|, 0);
    assert written + Zeros(0) == written;
  }

  /** The loop of the source. `buffer << 8` is a shift of a u16, which would drop what does not fit; nothing
      ever has to be dropped. */
  method Base32I2pNoPadding(bytes: Bytes) returns (output: Bytes)
    ensures output == Base32(bytes)
  {
    hide Letters, ByteBits, Base32, BitsOf, Pow2, ShiftLeft, ShiftRight, LowBits, LetterOf;
    output := [];
    var buffer := 0;
    var bits := 0;
    var i := 0;
    ghost var written: seq<bool> := [];
    Nothing(bytes);
    AlphabetIsLetters();
    hide ALPHABET;
    while i < |bytes|
      invariant 0 <= i <= |bytes|
      invariant 0 <= bits < 5 && 0 <= buffer < Pow2(bits)
      invariant |written| % 5 == 0 && output == Letters(written)
      invariant written + BitsOf(buffer, bits) == ByteBits(bytes[..i])
    {
      PushByte(bytes, i, written, buffer, bits);
      buffer := ShiftLeft(buffer, 8) + bytes[i];
      bits := bits + 8;
      while bits >= 5
        invariant 0 <= bits < 13 && 0 <= buffer < Pow2(bits)
        invariant |written| % 5 == 0 && output == Letters(written)
        invariant written + BitsOf(buffer, bits) == ByteBits(bytes[..i + 1])
      {
        PopLetter(written, buffer, bits);
        var index := ShiftRight(buffer, bits - 5) % 32;
        output := output + [ALPHABET[index]];
        written := written + BitsOf(index, 5);
        bits := bits - 5;
        buffer := LowBits(buffer, bits);
      }
      i := i + 1;
    }
    assert bytes[..i] == bytes;
    if bits > 0 {
      FlushLetter(bytes, written, buffer, bits);
      var index := ShiftLeft(buffer, 5 - bits) % 32;
      output := output + [ALPHABET[index]];
    } else {
      assert written + BitsOf(buffer, 0) == written;
      NothingToFlush(bytes, written);
    }
  }

  lemma Nothing(bytes: Bytes)
    ensures Pow2(0) == 1 && BitsOf(0, 0) == [] && Letters([]) == []
    ensures [] + BitsOf(0, 0) == ByteBits(bytes[..0])
  {
    assert bytes[..0] == [];
  }

  // ---------------------------------------------------------------------------------------------
  // Decoding.

  predicate IsLetter(b: Byte) {
    'a' as int <= b <= 'z' as int || '2' as int <= b <= '7' as int
  }

  function LetterValue(b: Byte): (v: nat)
    requires IsLetter(b)
    ensures v < 32 && LetterOf(v) == b
  {
    if b >= 'a' as int then b - 'a' as int else 26 + b - '2' as int
  }

  /** The letter at an index is a letter with that value. */
  lemma LetterAt(index: nat)
    requires index < 32
    ensures IsLetter(LetterOf(index)) && LetterValue(LetterOf(index)) == index
  {
  }

  function LetterBits(text: Bytes): (bits: seq<bool>)
    requires forall b :: b in text ==> IsLetter(b)
    ensures |bits| == 5 * |text|
  {
    if text == [] then []
    else LetterBits(text[..|text| - 1]) + BitsOf(LetterValue(text[|text| - 1]), 5)
  }

  /** Whole bytes of a bit string; fewer than eight bits at the end are dropped. */
  function WholeBytes(bits: seq<bool>): Bytes {
    if |bits| < 8 then []
    else
      BitsOfValue(bits[..8]);
      assert Pow2(8) == 256;
      [ValueOf(bits[..8])] + WholeBytes(bits[8..])
  }

  function DecodeBase32(text: Bytes): Option<Bytes> {
    if forall b :: b in text ==> IsLetter(b) then Some(WholeBytes(LetterBits(text))) else None
  }

  lemma LetterBitsAppend(text: Bytes, b: Byte)
    requires (forall c :: c in text ==> IsLetter(c)) && IsLetter(b)
    ensures LetterBits(text + [b]) == LetterBits(text) + BitsOf(LetterValue(b), 5)
  {
    assert (text + [b])[..|text|] == text;
  }

  lemma LastLetter(bits: seq<bool>) returns (v: nat)
    requires bits != [] && |bits| % 5 == 0
    ensures v < 32 && bits == bits[..|bits| - 5] + BitsOf(v, 5)
    ensures Letters(bits) == Letters(bits[..|bits| - 5]) + [LetterOf(v)]
  {
    v := ValueOf(bits[|bits| - 5..]);
    BitsOfValue(bits[|bits| - 5..]);
    SmallPowers();
  }

  lemma {:induction false} LettersSpell(bits: seq<bool>)
    requires |bits| % 5 == 0
    ensures forall b :: b in Letters(bits) ==> IsLetter(b)
    ensures LetterBits(Letters(bits)) == bits
  {
    if bits != [] {
      var rest := bits[..|bits| - 5];
      var v := LastLetter(bits);
      LettersSpell(rest);
      LetterAt(v);
      hide Letters, LetterBits, BitsOf, IsLetter, LetterOf, LetterValue;
      LetterBitsAppend(Letters(rest), LetterOf(v));
    }
  }

  lemma NoLetters()
    ensures Letters([]) == []
  {
  }

  lemma {:induction false} SpelledAgain(text: Bytes)
    requires forall b :: b in text ==> IsLetter(b)
    ensures Letters(LetterBits(text)) == text
  {
    hide Letters, BitsOf, LetterValue, IsLetter;
    if text == [] {
      NoLetters();
    } else {
      var n := |text| - 1;
      SpelledAgain(text[..n]);
      LettersAppend(LetterBits(text[..n]), LetterValue(text[n]));
    }
  }

  lemma {:induction false} ByteBitsCons(first: Byte, rest: Bytes)
    ensures ByteBits([first] + rest) == BitsOf(first, 8) + ByteBits(rest)
  {
    var all := [first] + rest;
    if rest == [] {
      assert all[..0] == [];
      assert ByteBits(all) == [] + BitsOf(first, 8);
    } else {
      var n := |rest| - 1;
      assert all[..|all| - 1] == [first] + rest[..n];
      ByteBitsCons(first, rest[..n]);
      assert BitsOf(first, 8) + ByteBits(rest[..n]) + BitsOf(rest[n], 8) == BitsOf(first, 8) + ByteBits(rest);
    }
  }

  lemma {:induction false} WholeBytesOf(bytes: Bytes, rest: seq<bool>)
    requires |rest| < 8
    ensures WholeBytes(ByteBits(bytes) + rest) == bytes
  {
    if bytes == [] {
      assert ByteBits(bytes) + rest == rest;
    } else {
      assert bytes == [bytes[0]] + bytes[1..];
      ByteBitsCons(bytes[0], bytes[1..]);
      var all := ByteBits(bytes) + rest;
      assert all[..8] == BitsOf(bytes[0], 8) && all[8..] == ByteBits(bytes[1..]) + rest;
      assert Pow2(8) == 256;
      ValueOfBits(bytes[0], 8);
      WholeBytesOf(bytes[1..], rest);
    }
  }

  lemma {:induction false} BitsOfWholeBytes(bits: seq<bool>)
    requires |bits| % 8 == 0
    ensures ByteBits(WholeBytes(bits)) == bits
  {
    if bits != [] {
      BitsOfWholeBytes(bits[8..]);
      BitsOfValue(bits[..8]);
      assert Pow2(8) == 256;
      ByteBitsCons(ValueOf(bits[..8]), WholeBytes(bits[8..]));
      assert bits == bits[..8] + bits[8..];
    }
  }

  /** The encoding is the shortest that holds the bits, has only letters, and decodes to its input. */
  lemma Base32RoundTrip(bytes: Bytes)
    ensures |Base32(bytes)| == (8 * |bytes| + 4) / 5
    ensures DecodeBase32(Base32(bytes)) == Some(bytes)
  {
    var padded := ByteBits(bytes) + Zeros(Padding(|bytes|));
    LettersSpell(padded);
    WholeBytesOf(bytes, Zeros(Padding(|bytes|)));
  }

  // ---------------------------------------------------------------------------------------------
  // Host names.

  predicate IsI2pB32Host(host: Bytes) {
    && |host| == 52 + |HOST_SUFFIX|
    && host[52..] == HOST_SUFFIX
    && forall i :: 0 <= i < 52 ==> IsLetter(host[i])
  }

  /** The address of a destination whose SHA-256 digest is given. */
  function I2pB32Address(digest: Bytes): Bytes {
    Base32(digest) + HOST_SUFFIX
  }

  /** The addresses of digests are exactly the hosts that are accepted and whose 52nd letter leaves the four
      surplus bits clear, which are those ending in `a` or `q`. */
  lemma AddressesExactly(host: Bytes)
    ensures (exists digest :: |digest| == 32 && I2pB32Address(digest) == host)
            <==> IsI2pB32Host(host) && (host[51] == 'a' as int || host[51] == 'q' as int)
  {
    if digest :| |digest| == 32 && I2pB32Address(digest) == host {
      AddressIsHost(digest);
    }
    if IsI2pB32Host(host) && (host[51] == 'a' as int || host[51] == 'q' as int) {
      HostIsAddress(host);
    }
  }

  lemma HostIsAddress(host: Bytes)
    requires IsI2pB32Host(host) && (host[51] == 'a' as int || host[51] == 'q' as int)
    ensures exists digest :: |digest| == 32 && I2pB32Address(digest) == host
  {
    hide Letters, LetterBits, ByteBits, BitsOf, LetterValue, WholeBytes, HOST_SUFFIX;
    var name := host[..52];
    var bits := LetterBits(name);
    var digest := WholeBytes(bits[..256]);
    LastLetterBits(host[51]);
    assert name == name[..51] + [host[51]];
    LetterBitsAppend(name[..51], host[51]);
    BitsOfWholeBytes(bits[..256]);
    SpelledAgain(name);
    assert bits[256..] == BitsOf(LetterValue(host[51]), 5)[1..] == Zeros(4);
    assert |ByteBits(digest)| == 256;
    assert bits == bits[..256] + bits[256..];
    assert Base32(digest) == name;
    assert host == name + host[52..];
  }

  lemma LastLetterBits(b: Byte)
    requires IsLetter(b)
    ensures BitsOf(LetterValue(b), 5)[1..] == Zeros(4) <==> b == 'a' as int || b == 'q' as int
  {
    var v := LetterValue(b);
    SmallPowers();
    hide BitsOf, Pow2;
    assert v == v / 16 * 16 + v % 16;
    BitsAppend(v / 16, 1, v % 16, 4);
    assert BitsOf(v, 5)[1..] == BitsOf(v % 16, 4);
    ValueOfBits(v % 16, 4);
    ZeroBits(4);
    ValueOfBits(0, 4);
  }

  lemma AddressIsHost(digest: Bytes)
    requires |digest| == 32
    ensures IsI2pB32Host(I2pB32Address(digest))
    ensures I2pB32Address(digest)[51] == 'a' as int || I2pB32Address(digest)[51] == 'q' as int
  {
    var padded := ByteBits(digest) + Zeros(4);
    assert Padding(32) == 4;
    hide Letters, LetterBits, ByteBits, BitsOf, IsLetter, LetterValue;
    LettersSpell(padded);
    var name := Base32(digest);
    assert name == Letters(padded) && |name| == 52;
    forall i | 0 <= i < 52
      ensures IsLetter(name[i])
    {
      assert name[i] in name;
    }
    var bits := LetterBits(name);
    assert name == name[..51] + [name[51]];
    LetterBitsAppend(name[..51], name[51]);
    assert BitsOf(LetterValue(name[51]), 5)[1..] == bits[256..] == Zeros(4);
    LastLetterBits(name[51]);
  }
}
