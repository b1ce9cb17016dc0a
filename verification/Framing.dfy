/** Length-prefixed frames: the archive frames of crates/peerline-transfer/src/archive.rs and the wire frames of
    crates/peerline-net/src/protocol.rs. The serializer is a parameter. */
module Framing {
  import opened Bytes

  const MAX_FRAME: nat := 64 * 1024 * 1024

  datatype FrameCodec<!T> = FrameCodec(encode: T -> Bytes, decode: Bytes -> Option<T>)

  ghost predicate DecodesWhatItEncodes<T(!new)>(codec: FrameCodec<T>) {
    forall frame: T :: codec.decode(codec.encode(frame)) == Some(frame)
  }

  datatype Reading<+T> = EndOfStream | ReadError | Frame(frame: T, rest: Bytes)

  /** The length is cast to 32 bits, the payload is written in full. */
  function WriteFrame<T>(codec: FrameCodec<T>, frame: T): (bytes: Bytes)
    ensures |bytes| == 4 + |codec.encode(frame)|
  {
    BigEndian(|codec.encode(frame)| % U32_LIMIT, 4) + codec.encode(frame)
  }

  /** `broken` says that the reader fails, instead of ending, after the last byte. */
  function ReadFrame<T>(codec: FrameCodec<T>, bytes: Bytes, broken: bool): (r: Reading<T>)
    ensures r.Frame? ==> |r.rest| < |bytes|
  {
    if |bytes| < 4 then (if broken then ReadError else EndOfStream)
    else
      var len := FromBigEndian(bytes[..4]);
      if |bytes| - 4 < len then ReadError
      else
        match codec.decode(bytes[4..4 + len])
        case None => ReadError
        case Some(frame) => Frame(frame, bytes[4 + len..])
  }

  /** A connection that closes early is an error wherever it closes. */
  function ReadWire<T>(codec: FrameCodec<T>, bytes: Bytes): Result<(T, Bytes), ()> {
    if |bytes| < 4 || FromBigEndian(bytes[..4]) > MAX_FRAME then Err(())
    else
      match ReadFrame(codec, bytes, true)
      case Frame(frame, rest) => Ok((frame, rest))
      case _ => Err(())
  }

  function WriteFrames<T>(codec: FrameCodec<T>, frames: seq<T>): Bytes {
    if frames == [] then [] else WriteFrame(codec, frames[0]) + WriteFrames(codec, frames[1..])
  }

  /** A reader and how far it has been read. */
  class ByteReader {
    var rest: Bytes
    const broken: bool

    constructor (bytes: Bytes, broken: bool)
      ensures rest == bytes && this.broken == broken
    {
      rest := bytes;
      this.broken := broken;
    }

    /** Fills a buffer of `count` bytes, or takes what is left. */
    method ReadExact(count: nat) returns (buffer: Option<Bytes>)
      modifies this
      ensures count <= |old(rest)| ==> buffer == Some(old(rest)[..count]) && rest == old(rest)[count..]
      ensures count > |old(rest)| ==> buffer == None && rest == []
    {
      if count <= |rest| {
        buffer := Some(rest[..count]);
        rest := rest[count..];
      } else {
        buffer := None;
        rest := [];
      }
    }
  }

  method ReadFrameFrom<T>(codec: FrameCodec<T>, reader: ByteReader) returns (r: Reading<T>)
    modifies reader
    ensures r == ReadFrame(codec, old(reader.rest), reader.broken)
    ensures r.Frame? ==> reader.rest == r.rest
  {
    var header := reader.ReadExact(4);
    if header.None? {
      return if reader.broken then ReadError else EndOfStream;
    }
    var len := FromBigEndian(header.value);
    ghost var afterHeader := reader.rest;
    assert afterHeader == old(reader.rest)[4..];
    var payload := reader.ReadExact(len);
    if payload.None? {
      return ReadError;
    }
    assert payload.value == old(reader.rest)[4..4 + len];
    var frame := codec.decode(payload.value);
    if frame.None? {
      return ReadError;
    }
    assert reader.rest == old(reader.rest)[4 + len..];
    r := Frame(frame.value, reader.rest);
  }

  // ---------------------------------------------------------------------------------------------

  lemma WrittenPieces<T>(codec: FrameCodec<T>, frame: T, rest: Bytes)
    ensures var bytes := WriteFrame(codec, frame) + rest;
            && FromBigEndian(bytes[..4]) == |codec.encode(frame)| % U32_LIMIT
            && bytes[4..] == codec.encode(frame) + rest
  {
    var payload := codec.encode(frame);
    var len := |payload| % U32_LIMIT;
    MachineWidths();
    BigEndianRoundTrip(len, 4);
    assert (WriteFrame(codec, frame) + rest)[..4] == BigEndian(len, 4);
  }

  /** Reading back what was written gives the frame and leaves the rest exactly when the payload is shorter
      than 2^32 bytes. */
  lemma FrameRoundTripExactly<T(!new)>(codec: FrameCodec<T>, frame: T, rest: Bytes, broken: bool)
    requires DecodesWhatItEncodes(codec)
    ensures ReadFrame(codec, WriteFrame(codec, frame) + rest, broken) == Frame(frame, rest)
            <==> |codec.encode(frame)| < U32_LIMIT
  {
    WrittenPieces(codec, frame, rest);
    var bytes := WriteFrame(codec, frame) + rest;
    var payload := codec.encode(frame);
    var len := |payload| % U32_LIMIT;
    if |payload| < U32_LIMIT {
      assert bytes[4..4 + len] == bytes[4..][..len] == payload;
      assert bytes[4 + len..] == bytes[4..][len..] == rest;
    } else {
      assert |bytes[4 + len..]| > |rest|;
    }
  }

  /** A wire frame comes back exactly when its payload is within the limit; between the limit and 2^32 bytes the
      receiver reports an error. */
  lemma WireRoundTripExactly<T(!new)>(codec: FrameCodec<T>, frame: T, rest: Bytes)
    requires DecodesWhatItEncodes(codec)
    ensures ReadWire(codec, WriteFrame(codec, frame) + rest) == Ok((frame, rest))
            <==> |codec.encode(frame)| <= 67_108_864
    ensures 67_108_864 < |codec.encode(frame)| < U32_LIMIT ==> ReadWire(codec, WriteFrame(codec, frame) + rest).Err?
  {
    WrittenPieces(codec, frame, rest);
    FrameRoundTripExactly(codec, frame, rest, true);
  }

  predicate AllShort<T>(codec: FrameCodec<T>, frames: seq<T>, limit: nat) {
    forall i :: 0 <= i < |frames| ==> |codec.encode(frames[i])| <= limit
  }

  /** Everything the receiver can read from a connection. */
  function ReadWires<T>(codec: FrameCodec<T>, bytes: Bytes): (frames: seq<T>)
    decreases |bytes|
  {
    if |bytes| < 4 || FromBigEndian(bytes[..4]) > MAX_FRAME then []
    else
      match ReadFrame(codec, bytes, true)
      case Frame(frame, rest) => [frame] + ReadWires(codec, rest)
      case _ => []
  }

  /** On a connection that breaks off anywhere, the receiver reads a prefix of the frames that were written. */
  lemma {:induction false} ReceivesAPrefix<T(!new)>(codec: FrameCodec<T>, frames: seq<T>, received: nat)
    requires DecodesWhatItEncodes(codec) && AllShort(codec, frames, MAX_FRAME)
    requires received <= |WriteFrames(codec, frames)|
    ensures ReadWires(codec, WriteFrames(codec, frames)[..received]) <= frames
    ensures received == |WriteFrames(codec, frames)| ==> ReadWires(codec, WriteFrames(codec, frames)[..received]) == frames
    decreases |frames|
  {
    if frames != [] {
      var first, others := WriteFrame(codec, frames[0]), WriteFrames(codec, frames[1..]);
      var all := first + others;
      assert WriteFrames(codec, frames) == all;
      var seen := all[..received];
      hide WriteFrame, WriteFrames, FromBigEndian;
      if received < |first| {
        hide AllShort, DecodesWhatItEncodes;
        WrittenPieces(codec, frames[0], others);
        if received >= 4 {
          assert seen[..4] == all[..4];
        }
      } else {
        var left := received - |first|;
        assert seen == first + others[..left];
        WrittenPieces(codec, frames[0], others[..left]);
        FrameRoundTripExactly(codec, frames[0], others[..left], true);
        ReceivesAPrefix(codec, frames[1..], left);
      }
    }
  }
}
