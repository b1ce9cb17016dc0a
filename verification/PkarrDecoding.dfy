/** Exactly which payloads decode to an announcement, told without the cursor. */
module PkarrDecoding {
  import opened Bytes
  import opened Pkarr

  /** One record of the wire: its kind and its data. */
  datatype Piece = Piece(kind: Byte, data: Bytes)

  predicate AreShort(pieces: seq<Piece>) {
    forall i :: 0 <= i < |pieces| ==> |pieces[i].data| < 256
  }

  /** The pieces behind one another, each after its kind and its length. */
  function OnTheWire(pieces: seq<Piece>): Bytes
    requires AreShort(pieces)
  {
    if pieces == [] then []
    else
      assert |pieces[0].data| < 256;
      [pieces[0].kind, |pieces[0].data|] + pieces[0].data + OnTheWire(pieces[1..])
  }

  /** What a piece stands for. Only the kinds 1 to 6 stand for something; direct addresses have a fixed length; the other
      kinds are as the parsers of their addresses say. */
  predicate StandsFor(p: Parsers, piece: Piece, r: AnnouncementRecord) {
    match r
    case DirectV4(ip, port) => piece.kind == 1 && piece.data == ip + [port / 256, port % 256]
    case DirectV6(ip, port, flow, scope) =>
      piece.kind == 2 && piece.data == ip + [port / 256, port % 256] && flow == 0 && scope == 0
    case Libp2p(address) => piece.kind == 3 && piece.data == address && p.validMultiaddr(address)
    case Tor(url) => piece.kind == 4 && p.normalizeTor(piece.data) == Some(url)
    case PublicTunnel(url) => piece.kind == 5 && p.normalizeTunnel(piece.data) == Some(url)
    case I2p(url) => piece.kind == 6 && p.normalizeI2p(piece.data) == Some(url)
  }

  predicate StandFor(p: Parsers, pieces: seq<Piece>, records: seq<AnnouncementRecord>) {
    && |pieces| == |records|
    && forall i :: 0 <= i < |pieces| ==> StandsFor(p, pieces[i], records[i])
  }

  lemma RecordDecodedExactly(p: Parsers, piece: Piece, r: AnnouncementRecord)
    ensures DecodeRecord(p, piece.kind, piece.data) == Ok(r) <==> StandsFor(p, piece, r)
  {
    var data := piece.data;
    if |data| == 6 {
      assert data == data[..4] + [data[4], data[5]] && data[4..] == [data[4], data[5]];
    }
    if |data| == 18 {
      assert data == data[..16] + [data[16], data[17]] && data[16..] == [data[16], data[17]];
    }
    match r
    case DirectV4(ip, port) =>
      if StandsFor(p, piece, r) {
        assert data[..4] == ip && data[4..] == [port / 256, port % 256];
      }
    case DirectV6(ip, port, _, _) =>
      if StandsFor(p, piece, r) {
        assert data[..16] == ip && data[16..] == [port / 256, port % 256];
      }
    case _ =>
  }

  lemma FirstOnTheWire(piece: Piece, rest: seq<Piece>)
    requires |piece.data| < 256 && AreShort(rest)
    ensures AreShort([piece] + rest)
    ensures OnTheWire([piece] + rest) == [piece.kind, |piece.data|] + piece.data + OnTheWire(rest)
  {
    assert ([piece] + rest)[1..] == rest;
  }

  function FirstPiece(bytes: Bytes): Piece
    requires |bytes| >= 2 && 2 + (bytes[1] as int) <= |bytes|
  {
    Piece(bytes[0], bytes[2..2 + bytes[1]])
  }

  lemma DecodedFirst(p: Parsers, bytes: Bytes)
    requires bytes != [] && DecodeRecords(p, bytes).Ok?
    ensures |bytes| >= 2 && 2 + (bytes[1] as int) <= |bytes|
    ensures var piece, rest := FirstPiece(bytes), bytes[2 + bytes[1]..];
      && |piece.data| == bytes[1] && bytes == [piece.kind, |piece.data|] + piece.data + rest
      && DecodeRecord(p, piece.kind, piece.data).Ok? && DecodeRecords(p, rest).Ok?
      && DecodeRecords(p, bytes).value == [DecodeRecord(p, piece.kind, piece.data).value] + DecodeRecords(p, rest).value
  {
    hide DecodeRecord;
  }

  lemma StandForOneMore(p: Parsers, piece: Piece, r: AnnouncementRecord, pieces: seq<Piece>, records: seq<AnnouncementRecord>)
    requires StandsFor(p, piece, r) && StandFor(p, pieces, records)
    ensures StandFor(p, [piece] + pieces, [r] + records)
  {
    hide StandsFor;
  }

  lemma {:induction false} PiecesOf(p: Parsers, bytes: Bytes) returns (pieces: seq<Piece>)
    requires DecodeRecords(p, bytes).Ok?
    ensures AreShort(pieces) && bytes == OnTheWire(pieces)
    ensures StandFor(p, pieces, DecodeRecords(p, bytes).value)
    decreases |bytes|
  {
    if bytes == [] {
      return [];
    }
    DecodedFirst(p, bytes);
    var piece, rest := FirstPiece(bytes), bytes[2 + bytes[1]..];
    var record := DecodeRecord(p, piece.kind, piece.data).value;
    RecordDecodedExactly(p, piece, record);
    hide DecodeRecords, DecodeRecord, StandsFor, StandFor, FirstPiece, OnTheWire;
    var more := PiecesOf(p, rest);
    pieces := [piece] + more;
    FirstOnTheWire(piece, more);
    StandForOneMore(p, piece, record, more, DecodeRecords(p, rest).value);
  }

  lemma DecodedCons(p: Parsers, piece: Piece, record: AnnouncementRecord, rest: Bytes)
    requires |piece.data| < 256 && DecodeRecord(p, piece.kind, piece.data) == Ok(record) && DecodeRecords(p, rest).Ok?
    ensures DecodeRecords(p, [piece.kind, |piece.data|] + piece.data + rest) == Ok([record] + DecodeRecords(p, rest).value)
  {
    hide DecodeRecord;
    var bytes: Bytes := [piece.kind, |piece.data|] + piece.data + rest;
    assert bytes[0] == piece.kind && bytes[1] == |piece.data|;
    assert bytes[2..2 + |piece.data|] == piece.data && bytes[2 + |piece.data|..] == rest;
  }

  lemma {:induction false} PiecesDecode(p: Parsers, pieces: seq<Piece>, records: seq<AnnouncementRecord>)
    requires AreShort(pieces) && StandFor(p, pieces, records)
    ensures DecodeRecords(p, OnTheWire(pieces)) == Ok(records)
    decreases |pieces|
  {
    if pieces != [] {
      var piece, rest := pieces[0], pieces[1..];
      assert StandsFor(p, pieces[0], records[0]) && |piece.data| < 256;
      RecordDecodedExactly(p, piece, records[0]);
      hide DecodeRecord, DecodeRecords, StandsFor;
      PiecesDecode(p, rest, records[1..]);
      DecodedCons(p, piece, records[0], OnTheWire(rest));
      assert records == [records[0]] + records[1..];
    }
  }

  /** The payload is the version, the peer after its length, and pieces that stand for these records. */
  ghost predicate IsPayloadOf(p: Parsers, payload: Bytes, a: Announcement) {
    && |a.peerId| < 256 && p.validPeer(a.peerId) && a.records != []
    && exists pieces ::
         AreShort(pieces) && StandFor(p, pieces, a.records) && payload == [1, |a.peerId|] + a.peerId + OnTheWire(pieces)
  }

  /** A payload decodes to an announcement exactly when it is that; everything else is refused. */
  lemma DecodedExactly(p: Parsers, payload: Bytes, a: Announcement)
    ensures Decoded(p, payload) == Ok(a) <==> IsPayloadOf(p, payload, a)
  {
    hide DecodeRecords, StandFor;
    if Decoded(p, payload) == Ok(a) {
      var n := payload[1] as int;
      var pieces := PiecesOf(p, payload[2 + n..]);
      assert payload == [1, n] + payload[2..2 + n] + payload[2 + n..];
    }
    if IsPayloadOf(p, payload, a) {
      var pieces :|
        AreShort(pieces) && StandFor(p, pieces, a.records) && payload == [1, |a.peerId|] + a.peerId + OnTheWire(pieces);
      PiecesDecode(p, pieces, a.records);
      DecodedEncoding(p, a.peerId, OnTheWire(pieces));
    }
  }
}
