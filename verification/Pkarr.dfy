/** The announcement codec of crates/peerline-net/src/pkarr.rs: records are packed greedily under a byte budget
    and read back by a cursor parser. */
module Pkarr {
  import opened Bytes

  const FORMAT_VERSION: Byte := 1
  const RECORD_DIRECT_V4: Byte := 1
  const RECORD_DIRECT_V6: Byte := 2
  const RECORD_LIBP2P: Byte := 3
  const RECORD_TOR: Byte := 4
  const RECORD_PUBLIC_TUNNEL: Byte := 5
  const RECORD_I2P: Byte := 6

  type Port = n: int | 0 <= n < 65536

  type Octets4 = b: Bytes | |b| == 4 witness [0, 0, 0, 0]

  type Octets16 = b: Bytes | |b| == 16 witness [0, 0, 0, 0, 0, 0, 0, 0, 0, 0, 0, 0, 0, 0, 0, 0]

  /** A multiaddress is its binary form; URLs are their UTF-8 bytes. */
  datatype AnnouncementRecord =
    | DirectV4(ip4: Octets4, port: Port)
    | DirectV6(ip6: Octets16, port: Port, flowInfo: nat, scopeId: nat)
    | Libp2p(address: Bytes)
    | Tor(url: Bytes)
    | I2p(url: Bytes)
    | PublicTunnel(url: Bytes)

  /** The parsers of other libraries that the codec calls. */
  datatype Parsers = Parsers(
    validPeer: Bytes -> bool,
    validMultiaddr: Bytes -> bool,
    relayed: Bytes -> bool,
    webRtc: Bytes -> bool,
    quic: Bytes -> bool,
    normalizeTor: Bytes -> Option<Bytes>,
    normalizeI2p: Bytes -> Option<Bytes>,
    normalizeTunnel: Bytes -> Option<Bytes>)

  datatype PackedRecord = PackedRecord(kind: Byte, priority: nat, data: Bytes)

  datatype Announcement = Announcement(peerId: Bytes, records: seq<AnnouncementRecord>)

  datatype PkarrError =
    | PeerIdTooLarge | NothingFits
    | TooShort | UnsupportedVersion | PeerIdTruncated | InvalidPeerId
    | HeaderTruncated | PayloadTruncated | InvalidRecord | NoEndpoints

  function DirectPriority(r: AnnouncementRecord): nat
    requires r.DirectV4? || r.DirectV6?
  {
    match r
    case DirectV4(ip, _) =>
      if ip[0] == 10 || (ip[0] == 172 && 16 <= ip[1] < 32) || (ip[0] == 192 && ip[1] == 168) then 0 else 1
    case DirectV6(ip, _, _, _) => if ip[0] == 0xfc || ip[0] == 0xfd then 0 else 1
  }

  function Libp2pPriority(p: Parsers, address: Bytes): nat {
    if p.relayed(address) then 7 else if p.webRtc(address) then 5 else if p.quic(address) then 4 else 3
  }

  function FromRecord(p: Parsers, r: AnnouncementRecord): PackedRecord {
    match r
    case DirectV4(ip, port) => PackedRecord(RECORD_DIRECT_V4, DirectPriority(r), ip + BigEndian(port, 2))
    case DirectV6(ip, port, _, _) => PackedRecord(RECORD_DIRECT_V6, DirectPriority(r), ip + BigEndian(port, 2))
    case Libp2p(address) => PackedRecord(RECORD_LIBP2P, Libp2pPriority(p, address), address)
    case Tor(url) => PackedRecord(RECORD_TOR, 3, url)
    case I2p(url) => PackedRecord(RECORD_I2P, 2, url)
    case PublicTunnel(url) => PackedRecord(RECORD_PUBLIC_TUNNEL, 6, url)
  }

  function Normalized(normalized: Option<Bytes>, make: Bytes -> AnnouncementRecord): Result<AnnouncementRecord, PkarrError> {
    match normalized
    case Some(url) => Ok(make(url))
    case None => Err(InvalidRecord)
  }

  function DecodeRecord(p: Parsers, kind: Byte, data: Bytes): Result<AnnouncementRecord, PkarrError> {
    if kind == RECORD_DIRECT_V4 then
      if |data| != 6 then Err(InvalidRecord) else Ok(DirectV4(data[..4], PortOf(data[4..])))
    else if kind == RECORD_DIRECT_V6 then
      if |data| != 18 then Err(InvalidRecord) else Ok(DirectV6(data[..16], PortOf(data[16..]), 0, 0))
    else if kind == RECORD_LIBP2P then
      if p.validMultiaddr(data) then Ok(Libp2p(data)) else Err(InvalidRecord)
    else if kind == RECORD_TOR then Normalized(p.normalizeTor(data), url => Tor(url))
    else if kind == RECORD_I2P then Normalized(p.normalizeI2p(data), url => I2p(url))
    else if kind == RECORD_PUBLIC_TUNNEL then Normalized(p.normalizeTunnel(data), url => PublicTunnel(url))
    else Err(InvalidRecord)
  }

  function PortOf(bytes: Bytes): Port
    requires |bytes| == 2
  {
    256 * (bytes[0] as int) + (bytes[1] as int)
  }

  /** What the constructors of a descriptor's records guarantee: the parts parse and URLs are normalised. */
  predicate WellFormed(p: Parsers, r: AnnouncementRecord) {
    match r
    case Libp2p(address) => p.validMultiaddr(address)
    case Tor(url) => p.normalizeTor(url) == Some(url)
    case I2p(url) => p.normalizeI2p(url) == Some(url)
    case PublicTunnel(url) => p.normalizeTunnel(url) == Some(url)
    case _ => true
  }

  /** The record without what the wire format has no place for: an IPv6 endpoint's flow and scope. */
  function Canonical(r: AnnouncementRecord): AnnouncementRecord {
    if r.DirectV6? then r.(flowInfo := 0, scopeId := 0) else r
  }

  lemma RecordRoundTrip(p: Parsers, r: AnnouncementRecord)
    requires WellFormed(p, r)
    ensures var packed := FromRecord(p, r);
            DecodeRecord(p, packed.kind, packed.data) == Ok(Canonical(r)) && FromRecord(p, Canonical(r)) == packed
  {
    if r.DirectV4? || r.DirectV6? {
      var encoded := BigEndian(r.port, 2);
      assert BigEndian(r.port / 256, 1) == BigEndian(r.port / 256 / 256, 0) + [r.port / 256 % 256];
      assert encoded == [r.port / 256, r.port % 256];
      var packed := FromRecord(p, r);
      assert packed.data[|packed.data| - 2..] == encoded;
    }
  }

  // ---------------------------------------------------------------------------------------------
  // Order and budget.

  predicate Before(a: PackedRecord, b: PackedRecord) {
    || a.priority < b.priority
    || (a.priority == b.priority && |a.data| < |b.data|)
    || (a.priority == b.priority && |a.data| == |b.data| && a.kind <= b.kind)
  }

  predicate InOrder(rs: seq<PackedRecord>) {
    forall i, j :: 0 <= i < j < |rs| ==> Before(rs[i], rs[j])
  }

  function InsertInOrder(r: PackedRecord, rs: seq<PackedRecord>): seq<PackedRecord> {
    if rs == [] || Before(r, rs[0]) then [r] + rs else [rs[0]] + InsertInOrder(r, rs[1..])
  }

  /** The stable sort by priority, length and kind. */
  function SortRecords(rs: seq<PackedRecord>): seq<PackedRecord> {
    if rs == [] then [] else InsertInOrder(rs[0], SortRecords(rs[1..]))
  }

  lemma {:induction false} InsertAdds(r: PackedRecord, rs: seq<PackedRecord>)
    ensures multiset(InsertInOrder(r, rs)) == multiset{r} + multiset(rs)
  {
    if rs != [] && !Before(r, rs[0]) {
      InsertAdds(r, rs[1..]);
      assert rs == [rs[0]] + rs[1..];
    }
  }

  lemma {:induction false} SortKeepsAll(rs: seq<PackedRecord>)
    ensures multiset(SortRecords(rs)) == multiset(rs)
  {
    if rs != [] {
      SortKeepsAll(rs[1..]);
      InsertAdds(rs[0], SortRecords(rs[1..]));
      assert rs == [rs[0]] + rs[1..];
    }
  }

  lemma {:induction false} InsertKeepsOrder(r: PackedRecord, rs: seq<PackedRecord>)
    requires InOrder(rs)
    ensures InOrder(InsertInOrder(r, rs))
  {
    if rs != [] && !Before(r, rs[0]) {
      InsertKeepsOrder(r, rs[1..]);
      InsertAdds(r, rs[1..]);
      var rest := InsertInOrder(r, rs[1..]);
      forall j | 0 <= j < |rest|
        ensures Before(rs[0], rest[j])
      {
        assert rest[j] in multiset(rest);
        assert rest[j] == r || rest[j] in rs[1..];
      }
    }
  }

  lemma {:induction false} SortedIsInOrder(rs: seq<PackedRecord>)
    ensures InOrder(SortRecords(rs))
  {
    if rs != [] {
      SortedIsInOrder(rs[1..]);
      InsertKeepsOrder(rs[0], SortRecords(rs[1..]));
    }
  }

  predicate Eligible(r: PackedRecord) {
    |r.data| <= 255
  }

  function Cost(r: PackedRecord): nat {
    2 + |r.data|
  }

  function TotalCost(rs: seq<PackedRecord>): nat {
    if rs == [] then 0 else Cost(rs[0]) + TotalCost(rs[1..])
  }

  /** How many records of a priority there are. */
  function CountOf(rs: seq<PackedRecord>, priority: nat): nat {
    if rs == [] then 0 else (if rs[0].priority == priority then 1 else 0) + CountOf(rs[1..], priority)
  }

  /** The records that the packing loop keeps when `room` bytes are left. */
  function Kept(rs: seq<PackedRecord>, room: int): seq<PackedRecord> {
    if rs == [] then []
    else if Eligible(rs[0]) && Cost(rs[0]) <= room then [rs[0]] + Kept(rs[1..], room - Cost(rs[0]))
    else Kept(rs[1..], room)
  }

  function PrintRecord(r: PackedRecord): Bytes
    requires Eligible(r)
  {
    [r.kind, |r.data|] + r.data
  }

  function PrintRecords(rs: seq<PackedRecord>): Bytes
    requires forall r :: r in rs ==> Eligible(r)
  {
    if rs == [] then [] else PrintRecord(rs[0]) + PrintRecords(rs[1..])
  }

  lemma {:induction false} KeptAreEligible(rs: seq<PackedRecord>, room: int)
    ensures forall r :: r in Kept(rs, room) ==> Eligible(r) && Cost(r) <= room
    ensures TotalCost(Kept(rs, room)) <= room || Kept(rs, room) == []
  {
    if rs != [] {
      KeptAreEligible(rs[1..], room - Cost(rs[0]));
      KeptAreEligible(rs[1..], room);
    }
  }

  lemma {:induction false} KeptAreSome(rs: seq<PackedRecord>, room: int)
    ensures multiset(Kept(rs, room)) <= multiset(rs)
  {
    hide Eligible;
    if rs != [] {
      assert rs == [rs[0]] + rs[1..];
      KeptAreSome(rs[1..], room - Cost(rs[0]));
      KeptAreSome(rs[1..], room);
    }
  }

  lemma {:induction false} PrintedLength(rs: seq<PackedRecord>)
    requires forall r :: r in rs ==> Eligible(r)
    ensures |PrintRecords(rs)| == TotalCost(rs)
  {
    if rs != [] {
      PrintedLength(rs[1..]);
    }
  }

  // ---------------------------------------------------------------------------------------------
  // The packing is optimal.

  function Without(rs: seq<PackedRecord>, i: nat): seq<PackedRecord>
    requires i < |rs|
  {
    rs[..i] + rs[i + 1..]
  }

  lemma {:induction false} RemoveOne(rs: seq<PackedRecord>, i: nat)
    requires i < |rs|
    ensures TotalCost(rs) == Cost(rs[i]) + TotalCost(Without(rs, i))
    ensures forall p :: CountOf(rs, p) == (if rs[i].priority == p then 1 else 0) + CountOf(Without(rs, i), p)
  {
    if i == 0 {
      assert Without(rs, 0) == rs[1..];
    } else {
      RemoveOne(rs[1..], i - 1);
      assert Without(rs, i)[0] == rs[0] && Without(rs, i)[1..] == Without(rs[1..], i - 1);
    }
  }

  lemma RemoveOneElement(rs: seq<PackedRecord>, i: nat)
    requires i < |rs|
    ensures multiset(Without(rs, i)) == multiset(rs) - multiset{rs[i]}
  {
    assert rs == rs[..i] + [rs[i]] + rs[i + 1..];
  }

  /** `alt` never beats `kept` at the first priority where they differ. */
  ghost predicate NoBetter(alt: seq<PackedRecord>, kept: seq<PackedRecord>) {
    forall p: nat :: (forall q: nat :: q < p ==> CountOf(alt, q) == CountOf(kept, q)) ==> CountOf(alt, p) <= CountOf(kept, p)
  }

  lemma {:induction false} CountAbsent(rs: seq<PackedRecord>, p: nat)
    requires forall r :: r in rs ==> r.priority != p
    ensures CountOf(rs, p) == 0
  {
    if rs != [] {
      CountAbsent(rs[1..], p);
    }
  }

  /** Exchange argument: whatever fits in no more room than the loop has is no better than what it keeps. */
  lemma {:induction false} KeptIsBest(rs: seq<PackedRecord>, room: int, alt: seq<PackedRecord>)
    requires InOrder(rs) && multiset(alt) <= multiset(rs)
    requires forall r :: r in alt ==> Eligible(r)
    requires TotalCost(alt) <= room || alt == []
    ensures NoBetter(alt, Kept(rs, room))
    decreases |rs|, 1
  {
    hide NoBetter, CountOf;
    if rs == [] {
      assert |alt| == |multiset(alt)| == |multiset(rs)| == 0;
      NoBetterThanItself([]);
    } else {
      var head, tail := rs[0], rs[1..];
      assert rs == [head] + tail;
      if i :| 0 <= i < |alt| && alt[i] == head {
        Exchange(rs, room, alt, i);
      } else {
        AbsentHead(alt, head, tail);
        if !Eligible(head) || Cost(head) > room {
          KeptIsBest(tail, room, alt);
        } else if i :| 0 <= i < |alt| && alt[i].priority == head.priority {
          Exchange(rs, room, alt, i);
        } else {
          NoneAtHead(alt, Kept(rs, room), head, tail);
        }
      }
    }
  }

  /** A record of the head's priority can be exchanged for the head, which is no larger. */
  lemma Exchange(rs: seq<PackedRecord>, room: int, alt: seq<PackedRecord>, i: nat)
    requires rs != [] && InOrder(rs) && multiset(alt) <= multiset(rs)
    requires forall r :: r in alt ==> Eligible(r)
    requires TotalCost(alt) <= room
    requires i < |alt| && alt[i].priority == rs[0].priority
    requires alt[i] == rs[0] || (rs[0] !in alt && Eligible(rs[0]) && Cost(rs[0]) <= room)
    ensures NoBetter(alt, Kept(rs, room))
    decreases |rs|, 0
  {
    hide *;
    HeadFits(rs, room, alt, i);
    RestCovers(rs, alt, i);
    KeptIsBest(rs[1..], room - Cost(rs[0]), Without(alt, i));
    SameHead(alt, i, Kept(rs[1..], room - Cost(rs[0])), rs[0]);
  }

  lemma RestCovers(rs: seq<PackedRecord>, alt: seq<PackedRecord>, i: nat)
    requires rs != [] && InOrder(rs) && multiset(alt) <= multiset(rs)
    requires i < |alt| && (alt[i] == rs[0] || rs[0] !in alt)
    ensures InOrder(rs[1..]) && multiset(Without(alt, i)) <= multiset(rs[1..])
    ensures forall r :: r in Without(alt, i) ==> r in alt
  {
    hide *;
    assert rs == [rs[0]] + rs[1..];
    TailCovers(alt, i, rs[0], rs[1..]);
    TailInOrder(rs);
  }

  /** The head is kept, and the rest of `alt` fits in what it leaves. */
  lemma HeadFits(rs: seq<PackedRecord>, room: int, alt: seq<PackedRecord>, i: nat)
    requires rs != [] && InOrder(rs) && multiset(alt) <= multiset(rs)
    requires forall r :: r in alt ==> Eligible(r)
    requires TotalCost(alt) <= room
    requires i < |alt| && alt[i].priority == rs[0].priority
    requires alt[i] == rs[0] || (rs[0] !in alt && Eligible(rs[0]) && Cost(rs[0]) <= room)
    ensures Kept(rs, room) == [rs[0]] + Kept(rs[1..], room - Cost(rs[0]))
    ensures TotalCost(Without(alt, i)) <= room - Cost(rs[0])
  {
    var head, tail := rs[0], rs[1..];
    assert rs == [head] + tail;
    RemoveOne(alt, i);
    TailCovers(alt, i, head, tail);
    if alt[i] != head {
      HeadIsNoLarger(rs, alt[i]);
    }
    hide InOrder, Without, CountOf;
    assert Eligible(alt[i]);
    CostIsPositive(Without(alt, i));
  }

  lemma {:induction false} CostIsPositive(rs: seq<PackedRecord>)
    ensures 0 <= TotalCost(rs)
  {
    if rs != [] {
      CostIsPositive(rs[1..]);
    }
  }

  lemma TailInOrder(rs: seq<PackedRecord>)
    requires rs != [] && InOrder(rs)
    ensures InOrder(rs[1..])
  {
  }

  lemma HeadIsNoLarger(rs: seq<PackedRecord>, r: PackedRecord)
    requires rs != [] && InOrder(rs) && r in rs[1..] && r.priority == rs[0].priority
    ensures Cost(rs[0]) <= Cost(r)
  {
    var k :| 1 <= k < |rs| && rs[k] == r;
    assert Before(rs[0], rs[k]);
  }

  lemma TailCovers(alt: seq<PackedRecord>, i: nat, head: PackedRecord, tail: seq<PackedRecord>)
    requires i < |alt| && multiset(alt) <= multiset([head] + tail)
    requires alt[i] == head || head !in alt
    ensures multiset(Without(alt, i)) <= multiset(tail)
    ensures alt[i] != head ==> alt[i] in tail
    ensures forall r :: r in Without(alt, i) ==> r in alt
  {
    RemoveOneElement(alt, i);
    if alt[i] != head {
      AbsentHead(alt, head, tail);
      assert alt[i] in multiset(alt);
    }
  }

  lemma NoBetterThanItself(rs: seq<PackedRecord>)
    ensures NoBetter(rs, rs)
  {
  }

  lemma AbsentHead(alt: seq<PackedRecord>, head: PackedRecord, tail: seq<PackedRecord>)
    requires multiset(alt) <= multiset([head] + tail) && head !in alt
    ensures multiset(alt) <= multiset(tail)
  {
    forall r | r in multiset(alt)
      ensures multiset(alt)[r] <= multiset(tail)[r]
    {
      assert r in alt;
    }
  }

  lemma SameHead(alt: seq<PackedRecord>, i: nat, kept: seq<PackedRecord>, head: PackedRecord)
    requires i < |alt| && alt[i].priority == head.priority && NoBetter(Without(alt, i), kept)
    ensures NoBetter(alt, [head] + kept)
  {
    RemoveOne(alt, i);
    assert ([head] + kept)[1..] == kept;
    forall p: nat | forall q: nat :: q < p ==> CountOf(alt, q) == CountOf([head] + kept, q)
      ensures CountOf(alt, p) <= CountOf([head] + kept, p)
    {
      forall q: nat | q < p
        ensures CountOf(Without(alt, i), q) == CountOf(kept, q)
      {
        assert CountOf(alt, q) == CountOf([head] + kept, q);
      }
    }
  }

  lemma NoneAtHead(alt: seq<PackedRecord>, kept: seq<PackedRecord>, head: PackedRecord, tail: seq<PackedRecord>)
    requires InOrder([head] + tail) && multiset(alt) <= multiset(tail)
    requires forall r :: r in alt ==> r.priority != head.priority
    requires kept != [] && kept[0] == head
    ensures NoBetter(alt, kept)
  {
    forall r | r in alt
      ensures head.priority < r.priority
    {
      assert r in multiset(alt);
      var k :| 0 <= k < |tail| && tail[k] == r;
      assert Before(([head] + tail)[0], ([head] + tail)[k + 1]);
    }
    forall p: nat | forall q: nat :: q < p ==> CountOf(alt, q) == CountOf(kept, q)
      ensures CountOf(alt, p) <= CountOf(kept, p)
    {
      if p <= head.priority {
        CountAbsent(alt, p);
      } else {
        assert CountOf(kept, head.priority) >= 1;
        assert CountOf(alt, head.priority) >= 1;
        CountAbsent(alt, head.priority);
      }
    }
  }

  /** Within a priority the smallest records are kept: none that was left out could replace a larger one. */
  lemma {:induction false} SmallestAreKept(rs: seq<PackedRecord>, room: int, kept: PackedRecord, left: PackedRecord)
    requires InOrder(rs) && kept in Kept(rs, room)
    requires left in multiset(rs) - multiset(Kept(rs, room)) && Eligible(left) && left.priority == kept.priority
    ensures |kept.data| <= |left.data|
  {
    var head, tail := rs[0], rs[1..];
    assert rs == [head] + tail;
    TailInOrder(rs);
    hide InOrder, Before;
    if Eligible(head) && Cost(head) <= room {
      var rest := Kept(tail, room - Cost(head));
      assert multiset(Kept(rs, room)) == multiset{head} + multiset(rest);
      assert left in multiset(tail) - multiset(rest);
      if kept in rest {
        SmallestAreKept(tail, room - Cost(head), kept, left);
      } else {
        HeadIsNoLarger(rs, left);
      }
    } else {
      KeptAreEligible(tail, room);
      if left == head {
        KeptAreSome(tail, room);
        assert kept in multiset(tail);
        HeadIsNoLarger(rs, kept);
      } else {
        SmallestAreKept(tail, room, kept, left);
      }
    }
  }

  lemma {:induction false} AllKeptWhenAllFit(rs: seq<PackedRecord>, room: int)
    requires (forall r :: r in rs ==> Eligible(r)) && TotalCost(rs) <= room
    ensures Kept(rs, room) == rs
  {
    if rs != [] {
      AllKeptWhenAllFit(rs[1..], room - Cost(rs[0]));
    }
  }

  lemma {:induction false} NothingKeptExactly(rs: seq<PackedRecord>, room: int)
    ensures Kept(rs, room) == [] <==> forall r :: r in rs ==> !(Eligible(r) && Cost(r) <= room)
  {
    if rs != [] {
      NothingKeptExactly(rs[1..], room);
      assert rs == [rs[0]] + rs[1..];
    }
  }

  // ---------------------------------------------------------------------------------------------
  // Encoding.

  function Pack(p: Parsers, records: seq<AnnouncementRecord>): (packed: seq<PackedRecord>)
    ensures |packed| == |records|
  {
    seq(|records|, i requires 0 <= i < |records| => FromRecord(p, records[i]))
  }

  function Room(peerId: Bytes, maxBytes: nat): int {
    maxBytes - 2 - |peerId|
  }

  /** The records that an announcement carries under a budget, in the order of the wire. */
  function Carried(p: Parsers, a: Announcement, maxBytes: nat): (kept: seq<PackedRecord>)
    ensures forall r :: r in kept ==> Eligible(r)
  {
    KeptAreEligible(SortRecords(Pack(p, a.records)), Room(a.peerId, maxBytes));
    Kept(SortRecords(Pack(p, a.records)), Room(a.peerId, maxBytes))
  }

  function Encoded(p: Parsers, a: Announcement, maxBytes: nat): Result<Bytes, PkarrError> {
    if |a.peerId| > 255 then Err(PeerIdTooLarge)
    else if Carried(p, a, maxBytes) == [] then Err(NothingFits)
    else Ok([FORMAT_VERSION, |a.peerId|] + a.peerId + PrintRecords(Carried(p, a, maxBytes)))
  }

  /** Some record can be announced and fits the budget on its own. */
  predicate SomeFits(p: Parsers, a: Announcement, maxBytes: nat) {
    exists i :: 0 <= i < |a.records| && Eligible(FromRecord(p, a.records[i]))
                && 2 + |a.peerId| + Cost(FromRecord(p, a.records[i])) <= maxBytes
  }

  method EncodeWithBudget(p: Parsers, a: Announcement, maxBytes: nat) returns (r: Result<Bytes, PkarrError>)
    ensures r == Encoded(p, a, maxBytes)
    ensures r.Ok? ==> |r.value| <= maxBytes
    ensures r.Ok? <==> |a.peerId| <= 255 && SomeFits(p, a, maxBytes)
    ensures r.Err? ==> r.error == if |a.peerId| > 255 then PeerIdTooLarge else NothingFits
  {
    EncodedFacts(p, a, maxBytes);
    hide SomeFits, Kept, SortRecords, Pack, PrintRecords;
    if |a.peerId| > 255 {
      return Err(PeerIdTooLarge);
    }
    var payload, included := PackRecords([FORMAT_VERSION, |a.peerId|] + a.peerId, SortRecords(Pack(p, a.records)), maxBytes);
    if included == 0 {
      return Err(NothingFits);
    }
    r := Ok(payload);
  }

  /** The packing loop. */
  method PackRecords(header: Bytes, packed: seq<PackedRecord>, maxBytes: nat) returns (payload: Bytes, included: nat)
    ensures included == |Kept(packed, maxBytes - |header|)|
    ensures forall r :: r in Kept(packed, maxBytes - |header|) ==> Eligible(r)
    ensures payload == header + PrintRecords(Kept(packed, maxBytes - |header|))
  {
    payload := header;
    included := 0;
    ghost var kept: seq<PackedRecord> := [];
    ghost var all := Kept(packed, maxBytes - |header|);
    var i := 0;
    assert packed[0..] == packed && [] + all == all;
    while i < |packed|
      invariant 0 <= i <= |packed| && included == |kept|
      invariant PackedSoFar(header, packed[i..], maxBytes, kept, payload, all)
    {
      hide PackedSoFar, Kept;
      var record := packed[i];
      assert packed[i..] == [record] + packed[i + 1..];
      PackOne(header, record, packed[i + 1..], maxBytes, kept, payload, all);
      if |record.data| <= 255 && |payload| + (2 + |record.data|) <= maxBytes {
        payload := payload + [record.kind, |record.data|] + record.data;
        kept := kept + [record];
        included := included + 1;
      }
      i := i + 1;
    }
    assert packed[i..] == [] && kept + [] == kept;
  }

  /** The packing loop: what it has kept, and what it will still keep of the rest, is everything it keeps. */
  ghost predicate PackedSoFar(header: Bytes, rest: seq<PackedRecord>, maxBytes: nat, kept: seq<PackedRecord>,
                              payload: Bytes, all: seq<PackedRecord>)
  {
    && kept + Kept(rest, maxBytes - |payload|) == all
    && (forall r :: r in kept ==> Eligible(r))
    && payload == header + PrintRecords(kept)
  }

  lemma PackOne(header: Bytes, record: PackedRecord, rest: seq<PackedRecord>, maxBytes: nat,
                kept: seq<PackedRecord>, payload: Bytes, all: seq<PackedRecord>)
    requires PackedSoFar(header, [record] + rest, maxBytes, kept, payload, all)
    ensures if Eligible(record) && |payload| + Cost(record) <= maxBytes then
              PackedSoFar(header, rest, maxBytes, kept + [record], payload + [record.kind, |record.data|] + record.data, all)
            else PackedSoFar(header, rest, maxBytes, kept, payload, all)
  {
    assert ([record] + rest)[1..] == rest;
    if Eligible(record) && |payload| + Cost(record) <= maxBytes {
      PrintAppend(kept, record);
      var next := payload + [record.kind, |record.data|] + record.data;
      assert next == payload + PrintRecord(record) == header + PrintRecords(kept + [record]);
      assert |next| == |payload| + Cost(record);
      var more := Kept(rest, maxBytes - |next|);
      assert kept + ([record] + more) == kept + [record] + more;
    }
  }

  lemma {:induction false} PrintAppend(rs: seq<PackedRecord>, last: PackedRecord)
    requires (forall r :: r in rs ==> Eligible(r)) && Eligible(last)
    ensures PrintRecords(rs + [last]) == PrintRecords(rs) + PrintRecord(last)
  {
    if rs == [] {
      assert [] + [last] == [last];
      assert PrintRecords([last]) == PrintRecord(last) + PrintRecords([]);
    } else {
      assert (rs + [last])[1..] == rs[1..] + [last];
      PrintAppend(rs[1..], last);
    }
  }

  lemma EncodedFacts(p: Parsers, a: Announcement, maxBytes: nat)
    ensures var r := Encoded(p, a, maxBytes);
            && (r.Ok? ==> |r.value| <= maxBytes)
            && (r.Ok? <==> |a.peerId| <= 255 && SomeFits(p, a, maxBytes))
  {
    var sorted := SortRecords(Pack(p, a.records));
    var room := Room(a.peerId, maxBytes);
    KeptAreEligible(sorted, room);
    PrintedLength(Kept(sorted, room));
    NothingKeptExactly(sorted, room);
    SortedHasTheSame(p, a.records);
    hide SortRecords, Pack, FromRecord, Kept, PrintRecords;
  }

  lemma SortedHasTheSame(p: Parsers, records: seq<AnnouncementRecord>)
    ensures forall r :: r in SortRecords(Pack(p, records)) ==>
              exists i :: 0 <= i < |records| && FromRecord(p, records[i]) == r
    ensures forall i :: 0 <= i < |records| ==> FromRecord(p, records[i]) in SortRecords(Pack(p, records))
  {
    var packed, sorted := Pack(p, records), SortRecords(Pack(p, records));
    SortKeepsAll(packed);
    forall r | r in sorted
      ensures exists i :: 0 <= i < |records| && FromRecord(p, records[i]) == r
    {
      assert r in multiset(packed);
      var i :| 0 <= i < |packed| && packed[i] == r;
      assert FromRecord(p, records[i]) == r;
    }
    forall i | 0 <= i < |records|
      ensures FromRecord(p, records[i]) in sorted
    {
      assert packed[i] in multiset(sorted);
    }
  }

  /** Whenever encoding succeeds, no selection of the announcement's records that can be announced at all and
      fits the budget has more records of the first priority where it differs from what is carried; and what
      is carried of a priority are its smallest records. */
  lemma PackingIsOptimal(p: Parsers, a: Announcement, maxBytes: nat, alt: seq<PackedRecord>)
    requires Encoded(p, a, maxBytes).Ok?
    requires multiset(alt) <= multiset(Pack(p, a.records)) && forall r :: r in alt ==> Eligible(r)
    requires 2 + |a.peerId| + TotalCost(alt) <= maxBytes
    ensures NoBetter(alt, Carried(p, a, maxBytes))
    ensures forall kept, left :: kept in Carried(p, a, maxBytes)
              && left in multiset(Pack(p, a.records)) - multiset(Carried(p, a, maxBytes))
              && Eligible(left) && left.priority == kept.priority
              ==> |kept.data| <= |left.data|
  {
    var sorted := SortRecords(Pack(p, a.records));
    var room := Room(a.peerId, maxBytes);
    SortedIsInOrder(Pack(p, a.records));
    SortKeepsAll(Pack(p, a.records));
    KeptIsBest(sorted, room, alt);
    forall kept, left | kept in Carried(p, a, maxBytes)
      && left in multiset(Pack(p, a.records)) - multiset(Carried(p, a, maxBytes))
      && Eligible(left) && left.priority == kept.priority
      ensures |kept.data| <= |left.data|
    {
      SmallestAreKept(sorted, room, kept, left);
    }
  }

  // ---------------------------------------------------------------------------------------------
  // Decoding.

  function DecodeRecords(p: Parsers, bytes: Bytes): Result<seq<AnnouncementRecord>, PkarrError>
    decreases |bytes|
  {
    if bytes == [] then Ok([])
    else if |bytes| < 2 then Err(HeaderTruncated)
    else if 2 + bytes[1] > |bytes| then Err(PayloadTruncated)
    else
      match DecodeRecord(p, bytes[0], bytes[2..2 + bytes[1]])
      case Err(e) => Err(e)
      case Ok(record) =>
        match DecodeRecords(p, bytes[2 + bytes[1]..])
        case Err(e) => Err(e)
        case Ok(records) => Ok([record] + records)
  }

  function Decoded(p: Parsers, payload: Bytes): Result<Announcement, PkarrError> {
    if |payload| < 2 then Err(TooShort)
    else if payload[0] != FORMAT_VERSION then Err(UnsupportedVersion)
    else if |payload| < 2 + (payload[1] as int) then Err(PeerIdTruncated)
    else if !p.validPeer(payload[2..2 + payload[1]]) then Err(InvalidPeerId)
    else
      match DecodeRecords(p, payload[2 + payload[1]..])
      case Err(e) => Err(e)
      case Ok(records) =>
        if records == [] then Err(NoEndpoints) else Ok(Announcement(payload[2..2 + payload[1]], records))
  }

  method Decode(p: Parsers, payload: Bytes) returns (r: Result<Announcement, PkarrError>)
    ensures r == Decoded(p, payload)
  {
    if |payload| < 2 {
      return Err(TooShort);
    }
    if payload[0] != FORMAT_VERSION {
      return Err(UnsupportedVersion);
    }
    var headerLength := 2 + (payload[1] as int);
    if |payload| < headerLength {
      return Err(PeerIdTruncated);
    }
    var peerId := payload[2..headerLength];
    if !p.validPeer(peerId) {
      return Err(InvalidPeerId);
    }
    var records := ReadRecords(p, payload, headerLength);
    match records
    case Err(e) => r := Err(e);
    case Ok(found) => r := if found == [] then Err(NoEndpoints) else Ok(Announcement(peerId, found));
  }

  /** The cursor loop over the records that follow the header. */
  method ReadRecords(p: Parsers, payload: Bytes, headerLength: nat) returns (r: Result<seq<AnnouncementRecord>, PkarrError>)
    requires headerLength <= |payload|
    ensures r == DecodeRecords(p, payload[headerLength..])
  {
    hide DecodeRecord;
    var records: seq<AnnouncementRecord> := [];
    var cursor := headerLength;
    ghost var all := DecodeRecords(p, payload[headerLength..]);
    assert all.Ok? ==> [] + all.value == all.value;
    while cursor < |payload|
      invariant headerLength <= cursor <= |payload|
      invariant all == Prepended(records, DecodeRecords(p, payload[cursor..]))
    {
      ghost var rest := payload[cursor..];
      if cursor + 2 > |payload| {
        return Err(HeaderTruncated);
      }
      var kind, length := payload[cursor], payload[cursor + 1];
      assert kind == rest[0] && length == rest[1];
      cursor := cursor + 2;
      if cursor + length > |payload| {
        return Err(PayloadTruncated);
      }
      var data := payload[cursor..cursor + length];
      assert rest[2..2 + length] == data && rest[2 + length..] == payload[cursor + length..];
      DecodeOne(p, rest, records);
      hide DecodeRecords, Prepended;
      var record := DecodeRecord(p, kind, data);
      if record.Err? {
        return Err(record.error);
      }
      records := records + [record.value];
      cursor := cursor + length;
    }
    assert payload[cursor..] == [] && records + [] == records;
    r := Ok(records);
  }

  function Prepended(records: seq<AnnouncementRecord>, rest: Result<seq<AnnouncementRecord>, PkarrError>)
    : Result<seq<AnnouncementRecord>, PkarrError>
  {
    match rest
    case Err(e) => Err(e)
    case Ok(more) => Ok(records + more)
  }

  lemma DecodeOne(p: Parsers, bytes: Bytes, records: seq<AnnouncementRecord>)
    requires |bytes| >= 2 && 2 + (bytes[1] as int) <= |bytes|
    ensures var record := DecodeRecord(p, bytes[0], bytes[2..2 + bytes[1]]);
            Prepended(records, DecodeRecords(p, bytes)) ==
            if record.Err? then Err(record.error)
            else Prepended(records + [record.value], DecodeRecords(p, bytes[2 + bytes[1]..]))
  {
    hide DecodeRecord;
    var record := DecodeRecord(p, bytes[0], bytes[2..2 + bytes[1]]);
    var rest := DecodeRecords(p, bytes[2 + bytes[1]..]);
    if record.Ok? && rest.Ok? {
      assert records + ([record.value] + rest.value) == records + [record.value] + rest.value;
    }
  }

  lemma FirstRecordRoundTrip(p: Parsers, a: AnnouncementRecord, rest: Bytes)
    requires WellFormed(p, a) && Eligible(FromRecord(p, a))
    ensures DecodeRecords(p, PrintRecord(FromRecord(p, a)) + rest) == Prepended([Canonical(a)], DecodeRecords(p, rest))
  {
    RecordRoundTrip(p, a);
    hide FromRecord, DecodeRecord, WellFormed, Canonical;
    var r := FromRecord(p, a);
    var bytes := PrintRecord(r) + rest;
    assert bytes[0] == r.kind && bytes[1] == |r.data|;
    assert bytes[2..2 + |r.data|] == r.data && bytes[2 + |r.data|..] == rest;
  }

  predicate AllCanonical(p: Parsers, records: seq<AnnouncementRecord>) {
    forall a :: a in records ==> WellFormed(p, a) && Canonical(a) == a
  }

  lemma CanonicalCons(p: Parsers, a: AnnouncementRecord, records: seq<AnnouncementRecord>)
    requires WellFormed(p, a) && AllCanonical(p, records)
    ensures AllCanonical(p, [Canonical(a)] + records)
    ensures Pack(p, [Canonical(a)] + records) == [FromRecord(p, a)] + Pack(p, records)
  {
    RecordRoundTrip(p, a);
  }

  lemma {:induction false} RecordsRoundTrip(p: Parsers, rs: seq<PackedRecord>)
    requires forall r :: r in rs ==> Eligible(r) && exists a :: WellFormed(p, a) && FromRecord(p, a) == r
    ensures var r := DecodeRecords(p, PrintRecords(rs));
            r.Ok? && Pack(p, r.value) == rs && AllCanonical(p, r.value)
  {
    hide FromRecord, DecodeRecords, WellFormed, Canonical, Pack, AllCanonical;
    if rs == [] {
      NoRecords(p);
    } else {
      RecordsRoundTrip(p, rs[1..]);
      assert rs[0] in rs;
      var a :| WellFormed(p, a) && FromRecord(p, a) == rs[0];
      FirstRecordRoundTrip(p, a, PrintRecords(rs[1..]));
      CanonicalCons(p, a, DecodeRecords(p, PrintRecords(rs[1..])).value);
      assert rs == [rs[0]] + rs[1..];
    }
  }

  lemma NoRecords(p: Parsers)
    ensures DecodeRecords(p, []) == Ok([]) && Pack(p, []) == [] && AllCanonical(p, [])
  {
  }

  /** Two records are packed alike exactly when they differ at most in an IPv6 flow or scope. */
  lemma PackedAlikeExactly(p: Parsers, a: AnnouncementRecord, b: AnnouncementRecord)
    requires WellFormed(p, a) && WellFormed(p, b)
    ensures FromRecord(p, a) == FromRecord(p, b) <==> Canonical(a) == Canonical(b)
  {
    RecordRoundTrip(p, a);
    RecordRoundTrip(p, b);
  }

  /** Decoding a successful encoding returns the peer and exactly the records that were carried, in the order
      of the wire. */
  lemma AnnouncementRoundTrip(p: Parsers, a: Announcement, maxBytes: nat)
    requires p.validPeer(a.peerId) && forall r :: r in a.records ==> WellFormed(p, r)
    requires Encoded(p, a, maxBytes).Ok?
    ensures var r := Decoded(p, Encoded(p, a, maxBytes).value);
            && r.Ok? && r.value.peerId == a.peerId
            && Pack(p, r.value.records) == Carried(p, a, maxBytes)
            && AllCanonical(p, r.value.records)
  {
    var kept := Carried(p, a, maxBytes);
    hide SortRecords, Kept, Pack, DecodeRecords, Canonical, PrintRecords;
    KeptAreEligible(SortRecords(Pack(p, a.records)), Room(a.peerId, maxBytes));
    KeptAreSome(SortRecords(Pack(p, a.records)), Room(a.peerId, maxBytes));
    SortedHasTheSame(p, a.records);
    forall d | d in kept
      ensures exists r :: WellFormed(p, r) && FromRecord(p, r) == d
    {
      assert d in multiset(SortRecords(Pack(p, a.records)));
      assert d in SortRecords(Pack(p, a.records));
      var i :| 0 <= i < |a.records| && FromRecord(p, a.records[i]) == d;
      assert WellFormed(p, a.records[i]);
    }
    RecordsRoundTrip(p, kept);
    DecodedEncoding(p, a.peerId, PrintRecords(kept));
    assert DecodeRecords(p, PrintRecords(kept)).value != [] by {
      assert |Pack(p, DecodeRecords(p, PrintRecords(kept)).value)| == |kept|;
    }
  }

  lemma DecodedEncoding(p: Parsers, peerId: Bytes, printed: Bytes)
    requires p.validPeer(peerId) && |peerId| <= 255
    ensures Decoded(p, [FORMAT_VERSION, |peerId|] + peerId + printed) ==
            match DecodeRecords(p, printed)
            case Err(e) => Err(e)
            case Ok(records) => if records == [] then Err(NoEndpoints) else Ok(Announcement(peerId, records))
  {
    hide DecodeRecords;
    var payload: Bytes := [FORMAT_VERSION, |peerId|] + peerId + printed;
    assert payload[2..2 + |peerId|] == peerId && payload[2 + |peerId|..] == printed;
  }

  /** Nothing is left out when every record can be announced and all of them fit. */
  lemma AllCarriedWhenAllFit(p: Parsers, a: Announcement, maxBytes: nat)
    requires forall d :: d in Pack(p, a.records) ==> Eligible(d)
    requires 2 + |a.peerId| + TotalCost(Pack(p, a.records)) <= maxBytes
    ensures multiset(Carried(p, a, maxBytes)) == multiset(Pack(p, a.records))
  {
    var packed, sorted := Pack(p, a.records), SortRecords(Pack(p, a.records));
    SortKeepsAll(packed);
    SortKeepsCost(packed);
    forall d | d in sorted
      ensures Eligible(d)
    {
      assert d in multiset(packed);
    }
    AllKeptWhenAllFit(sorted, Room(a.peerId, maxBytes));
  }

  lemma {:induction false} InsertAddsCost(r: PackedRecord, rs: seq<PackedRecord>)
    ensures TotalCost(InsertInOrder(r, rs)) == Cost(r) + TotalCost(rs)
  {
    if rs != [] && !Before(r, rs[0]) {
      InsertAddsCost(r, rs[1..]);
      assert InsertInOrder(r, rs)[1..] == InsertInOrder(r, rs[1..]);
    } else {
      assert ([r] + rs)[1..] == rs;
    }
  }

  lemma {:induction false} SortKeepsCost(rs: seq<PackedRecord>)
    ensures TotalCost(SortRecords(rs)) == TotalCost(rs)
  {
    if rs != [] {
      SortKeepsCost(rs[1..]);
      InsertAddsCost(rs[0], SortRecords(rs[1..]));
    }
  }
}
