/** Bytes, machine integers and the fixed-width encodings that the wire formats use. */
module Bytes {

  type Byte = b: int | 0 <= b < 256

  type Bytes = seq<Byte>

  /** A BLAKE3 hash. */
  type Digest = d: Bytes | |d| == 32
    witness [0, 0, 0, 0, 0, 0, 0, 0, 0, 0, 0, 0, 0, 0, 0, 0, 0, 0, 0, 0, 0, 0, 0, 0, 0, 0, 0, 0, 0, 0, 0, 0]

  const U32_LIMIT: int := 0x1_0000_0000
  const U64_LIMIT: int := 0x1_0000_0000_0000_0000

  type U64 = n: int | 0 <= n < U64_LIMIT

  datatype Option<+T> = None | Some(value: T)

  datatype Result<+T, +E> = Ok(value: T) | Err(error: E)

  /** The bytes of an ASCII literal. */
  function Ascii(text: string): (bytes: Bytes)
    requires forall i :: 0 <= i < |text| ==> text[i] < 128 as char
    ensures |bytes| == |text|
    ensures forall i :: 0 <= i < |text| ==> bytes[i] == text[i] as int
  {
    seq(|text|, i requires 0 <= i < |text| => text[i] as int)
  }

  function Pow256(width: nat): (p: nat)
    ensures p > 0
  {
    if width == 0 then 1 else 256 * Pow256(width - 1)
  }

  /** The low `width` bytes of `n`, most significant first (`to_be_bytes` after a cast). */
  function BigEndian(n: nat, width: nat): (bytes: Bytes)
    ensures |bytes| == width
  {
    if width == 0 then [] else BigEndian(n / 256, width - 1) + [n % 256]
  }

  function FromBigEndian(bytes: Bytes): nat {
    if bytes == [] then 0
    else 256 * FromBigEndian(bytes[..|bytes| - 1]) + bytes[|bytes| - 1]
  }

  lemma {:induction false} BigEndianRoundTrip(n: nat, width: nat)
    requires n < Pow256(width)
    ensures FromBigEndian(BigEndian(n, width)) == n
  {
    if width > 0 {
      var bytes, high := BigEndian(n, width), BigEndian(n / 256, width - 1);
      assert bytes == high + [n % 256];
      BigEndianRoundTrip(n / 256, width - 1);
      hide BigEndian, Pow256;
      assert bytes[..width - 1] == high && bytes[width - 1] == n % 256;
      assert 256 * (n / 256) + n % 256 == n;
    }
  }

  /** The low `width` bytes of `n`, least significant first (`to_le_bytes`). */
  function LittleEndian(n: nat, width: nat): (bytes: Bytes)
    ensures |bytes| == width
  {
    if width == 0 then [] else [n % 256] + LittleEndian(n / 256, width - 1)
  }

  lemma {:induction false} LittleEndianInjective(m: nat, n: nat, width: nat)
    requires m < Pow256(width) && n < Pow256(width)
    requires LittleEndian(m, width) == LittleEndian(n, width)
    ensures m == n
  {
    if width > 0 {
      var a, b := LittleEndian(m, width), LittleEndian(n, width);
      assert a[0] == m % 256 && b[0] == n % 256;
      assert a[1..] == LittleEndian(m / 256, width - 1);
      assert b[1..] == LittleEndian(n / 256, width - 1);
      LittleEndianInjective(m / 256, n / 256, width - 1);
    }
  }

  /** Machine widths of the two integer encodings. */
  lemma MachineWidths()
    ensures Pow256(4) == U32_LIMIT && Pow256(8) == U64_LIMIT
  {
    assert Pow256(4) == 256 * 256 * 256 * 256;
    assert Pow256(8) == 256 * 256 * 256 * 256 * Pow256(4);
  }

  /** When two strings that start with equally long prefixes agree, the prefixes and the rests agree. */
  lemma SplitConcat<T>(a: seq<T>, b: seq<T>, c: seq<T>, d: seq<T>)
    requires a + b == c + d && |a| == |c|
    ensures a == c && b == d
  {
    assert (a + b)[..|a|] == a && (c + d)[..|a|] == c;
    assert (a + b)[|a|..] == b && (c + d)[|a|..] == d;
  }

  function Flatten<T>(parts: seq<seq<T>>): seq<T> {
    if parts == [] then [] else parts[0] + Flatten(parts[1..])
  }

  lemma {:induction false} FlattenAppend<T>(parts: seq<seq<T>>, last: seq<T>)
    ensures Flatten(parts + [last]) == Flatten(parts) + last
  {
    if parts == [] {
      assert parts + [last] == [last];
      assert Flatten([last]) == last + Flatten([]);
    } else {
      assert (parts + [last])[1..] == parts[1..] + [last];
      FlattenAppend(parts[1..], last);
    }
  }

  /** The pieces that reads into a buffer of `limit` bytes can return before the end of `data`. */
  predicate AreReads(pieces: seq<Bytes>, data: Bytes, limit: nat) {
    && Flatten(pieces) == data
    && forall i :: 0 <= i < |pieces| ==> 0 < |pieces[i]| <= limit
  }

  lemma OneMoreRead(pieces: seq<Bytes>, data: Bytes, limit: nat, from: nat, to: nat, next: nat)
    requires from <= to < next <= |data| && next - to <= limit
    requires AreReads(pieces, data[from..to], limit)
    ensures AreReads(pieces + [data[to..next]], data[from..next], limit)
  {
    FlattenAppend(pieces, data[to..next]);
    assert data[from..next] == data[from..to] + data[to..next];
  }

  /** How much one read returns: at least a byte, at most what was asked for, what is left and the buffer. */
  function ReadLength(asked: nat, left: nat, limit: nat): (n: nat)
    requires left > 0 && limit > 0
    ensures 0 < n <= left && n <= limit
  {
    var available := if left < limit then left else limit;
    if asked == 0 then 1 else if asked < available then asked else available
  }

  /** A reader that always has as much as it is asked for. */
  ghost predicate FillsBuffers(readSizes: nat -> nat, size: nat) {
    forall n :: readSizes(n) >= size
  }

  /** Pieces of this size, but for the last, which may be shorter. */
  predicate AreFull(pieces: seq<Bytes>, size: nat) {
    forall i :: 0 <= i < |pieces| - 1 ==> |pieces[i]| == size
  }

  predicate AreAllFull(pieces: seq<Bytes>, size: nat) {
    forall i :: 0 <= i < |pieces| ==> |pieces[i]| == size
  }

  /** So it is after the reads up to a position, when none of them fell short. */
  predicate ReadFully(pieces: seq<Bytes>, data: Bytes, size: nat, position: nat) {
    AreFull(pieces, size) && (position < |data| ==> AreAllFull(pieces, size))
  }

  lemma NothingReadYet(data: Bytes, size: nat, position: nat)
    ensures ReadFully([], data, size, position)
  {
  }

  lemma OneMoreFullRead(readSizes: nat -> nat, round: nat, pieces: seq<Bytes>, data: Bytes, size: nat, position: nat)
    requires position < |data| && size > 0
    ensures var next := position + ReadLength(readSizes(round), |data| - position, size);
      FillsBuffers(readSizes, size) && ReadFully(pieces, data, size, position) ==>
        ReadFully(pieces + [data[position..next]], data, size, next)
  {
  }
}
