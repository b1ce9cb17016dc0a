/** Which records an announcement carries, told by what kind of address they are and by their bytes on the wire. */
module PkarrRanks {
  import opened Bytes
  import opened Pkarr

  /** The ways to reach a peer, the most wanted first. */
  datatype Reach = PrivateDirect | PublicDirect | OverI2p | OverTorOrPlain | OverQuic | OverWebRtc | OverTunnel | OverRelay

  const REACHES: seq<Reach> :=
    [PrivateDirect, PublicDirect, OverI2p, OverTorOrPlain, OverQuic, OverWebRtc, OverTunnel, OverRelay]

  /** The networks 10.0.0.0/8, 172.16.0.0/12 and 192.168.0.0/16, section 3 of RFC 1918. */
  predicate IsPrivate(ip: Octets4) {
    var b: seq<int> := ip;
    var n := 0x100_0000 * b[0] + 0x1_0000 * b[1] + 0x100 * b[2] + b[3];
    0x0a00_0000 <= n < 0x0b00_0000 || 0xac10_0000 <= n < 0xac20_0000 || 0xc0a8_0000 <= n < 0xc0a9_0000
  }

  /** The network fc00::/7, section 3.1 of RFC 4193. */
  predicate IsUniqueLocal(ip: Octets16) {
    ip[0] / 2 == 0xfc / 2
  }

  function ReachOf(p: Parsers, r: AnnouncementRecord): Reach {
    match r
    case DirectV4(ip, _) => if IsPrivate(ip) then PrivateDirect else PublicDirect
    case DirectV6(ip, _, _, _) => if IsUniqueLocal(ip) then PrivateDirect else PublicDirect
    case I2p(_) => OverI2p
    case Tor(_) => OverTorOrPlain
    case PublicTunnel(_) => OverTunnel
    case Libp2p(address) =>
      if p.relayed(address) then OverRelay
      else if p.webRtc(address) then OverWebRtc
      else if p.quic(address) then OverQuic
      else OverTorOrPlain
  }

  function Tail(r: AnnouncementRecord): Bytes {
    match r
    case DirectV4(ip, port) => ip + [port / 256, port % 256]
    case DirectV6(ip, port, _, _) => ip + [port / 256, port % 256]
    case Libp2p(address) => address
    case Tor(url) => url
    case I2p(url) => url
    case PublicTunnel(url) => url
  }

  function Tag(r: AnnouncementRecord): Byte {
    match r
    case DirectV4(_, _) => 1
    case DirectV6(_, _, _, _) => 2
    case Libp2p(_) => 3
    case Tor(_) => 4
    case PublicTunnel(_) => 5
    case I2p(_) => 6
  }

  /** Whether the record can be announced at all. */
  predicate HasWireForm(r: AnnouncementRecord) {
    |Tail(r)| < 256
  }

  /** The record on the wire: its kind, its length and its bytes. */
  function WireForm(r: AnnouncementRecord): Bytes
    requires HasWireForm(r)
  {
    [Tag(r), |Tail(r)|] + Tail(r)
  }

  function WireForms(rs: seq<AnnouncementRecord>): Bytes
    requires forall r :: r in rs ==> HasWireForm(r)
  {
    if rs == [] then [] else WireForm(rs[0]) + WireForms(rs[1..])
  }

  function WireSize(rs: seq<AnnouncementRecord>): nat {
    if rs == [] then 0 else 2 + |Tail(rs[0])| + WireSize(rs[1..])
  }

  function Count(p: Parsers, rs: seq<AnnouncementRecord>, reach: Reach): nat {
    if rs == [] then 0 else (if ReachOf(p, rs[0]) == reach then 1 else 0) + Count(p, rs[1..], reach)
  }

  lemma PackedForm(p: Parsers, r: AnnouncementRecord)
    ensures var packed := FromRecord(p, r);
      && packed.kind == Tag(r) && packed.data == Tail(r)
      && packed.priority < |REACHES| && REACHES[packed.priority] == ReachOf(p, r)
  {
    if r.DirectV4? || r.DirectV6? {
      assert BigEndian(r.port / 256, 1) == BigEndian(r.port / 256 / 256, 0) + [r.port / 256 % 256];
      assert BigEndian(r.port, 2) == [r.port / 256, r.port % 256];
    }
  }

  lemma PackSplit(p: Parsers, rs: seq<AnnouncementRecord>)
    requires rs != []
    ensures Pack(p, rs) == [FromRecord(p, rs[0])] + Pack(p, rs[1..])
  {
    hide FromRecord;
  }

  lemma {:induction false} PackedForms(p: Parsers, rs: seq<AnnouncementRecord>)
    ensures WireSize(rs) == TotalCost(Pack(p, rs))
    ensures forall k :: 0 <= k < |REACHES| ==> Count(p, rs, REACHES[k]) == CountOf(Pack(p, rs), k)
    ensures (forall r :: r in rs ==> HasWireForm(r)) ==>
              (forall d :: d in Pack(p, rs) ==> Eligible(d)) && PrintRecords(Pack(p, rs)) == WireForms(rs)
  {
    hide FromRecord, ReachOf, Tail, Tag;
    if rs != [] {
      PackedForms(p, rs[1..]);
      PackSplit(p, rs);
      PackedForm(p, rs[0]);
      RankIsPlace(FromRecord(p, rs[0]).priority);
      if forall r :: r in rs ==> HasWireForm(r) {
        assert rs[0] in rs && forall r :: r in rs[1..] ==> r in rs;
        assert Eligible(FromRecord(p, rs[0]));
      }
    }
  }

  lemma RankIsPlace(k: nat)
    requires k < |REACHES|
    ensures forall j :: 0 <= j < |REACHES| && REACHES[j] == REACHES[k] ==> j == k
  {
  }

  lemma {:induction false} PackCovers(p: Parsers, alt: seq<AnnouncementRecord>, rs: seq<AnnouncementRecord>)
    requires multiset(alt) <= multiset(rs)
    ensures multiset(Pack(p, alt)) <= multiset(Pack(p, rs))
    decreases |alt|
  {
    if alt != [] {
      assert alt[0] in multiset(rs);
      var i :| 0 <= i < |rs| && rs[i] == alt[0];
      var rest := rs[..i] + rs[i + 1..];
      assert rs == rs[..i] + [rs[i]] + rs[i + 1..];
      assert multiset(rs) == multiset([alt[0]] + rest);
      assert alt == [alt[0]] + alt[1..];
      hide FromRecord, Pack;
      WithoutOne(alt[1..], rest, alt[0]);
      PackCovers(p, alt[1..], rest);
      PackSplit(p, alt);
      PackWithout(p, rs, i);
    }
  }

  lemma WithoutOne<T>(a: seq<T>, b: seq<T>, head: T)
    requires multiset([head] + a) <= multiset([head] + b)
    ensures multiset(a) <= multiset(b)
  {
    forall x | x in multiset(a) ensures multiset(a)[x] <= multiset(b)[x] {
      assert multiset([head] + a)[x] <= multiset([head] + b)[x];
    }
  }

  lemma PackWithout(p: Parsers, rs: seq<AnnouncementRecord>, i: nat)
    requires i < |rs|
    ensures multiset(Pack(p, rs)) == multiset{FromRecord(p, rs[i])} + multiset(Pack(p, rs[..i] + rs[i + 1..]))
  {
    hide FromRecord;
    var packed := Pack(p, rs);
    assert packed == packed[..i] + [packed[i]] + packed[i + 1..];
    assert Pack(p, rs[..i] + rs[i + 1..]) == packed[..i] + packed[i + 1..];
  }

  /** The records that an announcement's encoding decodes to. */
  function Shown(p: Parsers, a: Announcement, maxBytes: nat): seq<AnnouncementRecord>
    requires p.validPeer(a.peerId) && (forall r :: r in a.records ==> WellFormed(p, r)) && Encoded(p, a, maxBytes).Ok?
  {
    AnnouncementRoundTrip(p, a, maxBytes);
    Decoded(p, Encoded(p, a, maxBytes).value).value.records
  }

  /** The announcement can be encoded, and comes from a descriptor. */
  predicate IsAnnounced(p: Parsers, a: Announcement, maxBytes: nat) {
    p.validPeer(a.peerId) && (forall r :: r in a.records ==> WellFormed(p, r)) && Encoded(p, a, maxBytes).Ok?
  }

  /** `alt` has no more records of the first reach where the two differ. */
  ghost predicate ReachesNoBetter(p: Parsers, alt: seq<AnnouncementRecord>, rs: seq<AnnouncementRecord>) {
    forall k: nat :: k < |REACHES|
      && (forall j: nat :: j < k ==> Count(p, alt, REACHES[j]) == Count(p, rs, REACHES[j]))
      ==> Count(p, alt, REACHES[k]) <= Count(p, rs, REACHES[k])
  }

  /** The encoding is the version, the peer and the records on the wire, within the budget. */
  lemma EncodingLayout(p: Parsers, a: Announcement, maxBytes: nat)
    requires IsAnnounced(p, a, maxBytes)
    ensures var shown := Shown(p, a, maxBytes);
      && (forall r :: r in shown ==> HasWireForm(r))
      && Encoded(p, a, maxBytes).value == [1, |a.peerId|] + a.peerId + WireForms(shown)
      && 2 + |a.peerId| + WireSize(shown) <= maxBytes
  {
    AnnouncementRoundTrip(p, a, maxBytes);
    var shown := Shown(p, a, maxBytes);
    EncodedFacts(p, a, maxBytes);
    hide FromRecord, Kept, SortRecords, Decoded, WellFormed, SomeFits, AllCanonical;
    assert Pack(p, shown) == Carried(p, a, maxBytes);
    forall r | r in shown ensures HasWireForm(r) {
      var i :| 0 <= i < |shown| && shown[i] == r;
      assert Pack(p, shown)[i] in Carried(p, a, maxBytes);
      PackedForm(p, r);
    }
    PackedForms(p, shown);
    PrintedLength(Pack(p, shown));
  }

  /** Of all the selections of records that fit the budget, none has more records of the most wanted reach where it
      differs from what is carried. */
  lemma CarriesTheMostWanted(p: Parsers, a: Announcement, maxBytes: nat, alt: seq<AnnouncementRecord>)
    requires IsAnnounced(p, a, maxBytes)
    requires multiset(alt) <= multiset(a.records) && forall r :: r in alt ==> HasWireForm(r)
    requires 2 + |a.peerId| + WireSize(alt) <= maxBytes
    ensures ReachesNoBetter(p, alt, Shown(p, a, maxBytes))
  {
    var shown := Shown(p, a, maxBytes);
    AnnouncementRoundTrip(p, a, maxBytes);
    PackedForms(p, alt);
    PackedForms(p, shown);
    PackCovers(p, alt, a.records);
    hide FromRecord, Encoded, Decoded, ReachOf, Kept, SortRecords, WellFormed;
    PackingIsOptimal(p, a, maxBytes, Pack(p, alt));
    assert NoBetter(Pack(p, alt), Pack(p, shown));
  }

  /** A record is left out when neither it nor another one that is the same on the wire is carried. */
  predicate IsLeftOut(p: Parsers, a: Announcement, maxBytes: nat, r: AnnouncementRecord)
    requires IsAnnounced(p, a, maxBytes)
  {
    r in a.records && HasWireForm(r) && Canonical(r) !in Shown(p, a, maxBytes)
  }

  lemma LeftOutIsNotCarried(p: Parsers, a: Announcement, maxBytes: nat, r: AnnouncementRecord)
    requires IsAnnounced(p, a, maxBytes) && IsLeftOut(p, a, maxBytes, r)
    ensures FromRecord(p, r) !in Carried(p, a, maxBytes) && FromRecord(p, r) in SortRecords(Pack(p, a.records))
  {
    var shown, packed := Shown(p, a, maxBytes), FromRecord(p, r);
    AnnouncementRoundTrip(p, a, maxBytes);
    SortedHasTheSame(p, a.records);
    hide Encoded, Decoded, Kept, SortRecords;
    if packed in Carried(p, a, maxBytes) {
      var i :| 0 <= i < |shown| && Pack(p, shown)[i] == packed;
      assert shown[i] in shown;
      PackedAlikeExactly(p, shown[i], r);
      assert false;
    }
  }

  /** What the records are packed by: the more wanted first, then the shorter, then the smaller kind. */
  predicate IsPackedBefore(p: Parsers, a: AnnouncementRecord, b: AnnouncementRecord) {
    || Rank(p, a) < Rank(p, b)
    || (Rank(p, a) == Rank(p, b) && |Tail(a)| < |Tail(b)|)
    || (Rank(p, a) == Rank(p, b) && |Tail(a)| == |Tail(b)| && Tag(a) <= Tag(b))
  }

  lemma BeforeExactly(p: Parsers, a: AnnouncementRecord, b: AnnouncementRecord)
    ensures Before(FromRecord(p, a), FromRecord(p, b)) <==> IsPackedBefore(p, a, b)
    ensures Cost(FromRecord(p, a)) == 2 + |Tail(a)| && (Eligible(FromRecord(p, a)) <==> HasWireForm(a))
  {
    PackedForm(p, a);
    PackedForm(p, b);
    RankIsPlace(Rank(p, a));
    RankIsPlace(Rank(p, b));
    hide FromRecord, Rank, ReachOf, Tail, Tag;
  }

  /** `a` is there before any `b`. */
  predicate IsFirst<T(==)>(rs: seq<T>, a: T, b: T) {
    rs != [] && rs[0] != b && (rs[0] == a || IsFirst(rs[1..], a, b))
  }

  /** A record that found no room keeps out everything behind it that is no smaller. */
  lemma {:induction false} KeepsOutLater(rs: seq<PackedRecord>, room: int, a: PackedRecord, b: PackedRecord)
    requires IsFirst(rs, a, b) && Eligible(a) && a !in Kept(rs, room) && Cost(a) <= Cost(b)
    ensures b !in Kept(rs, room)
  {
    hide Cost, Eligible;
    if rs[0] == a {
      KeptAreEligible(rs, room);
    } else if Eligible(rs[0]) && Cost(rs[0]) <= room {
      KeepsOutLater(rs[1..], room - Cost(rs[0]), a, b);
    } else {
      KeepsOutLater(rs[1..], room, a, b);
    }
  }

  lemma {:induction false} OneIsFirst(rs: seq<PackedRecord>, a: PackedRecord, b: PackedRecord)
    requires a in rs && b in rs && a != b
    ensures IsFirst(rs, a, b) || IsFirst(rs, b, a)
    ensures IsFirst(rs, a, b) && InOrder(rs) ==> Before(a, b)
  {
    hide Before;
    assert rs == [rs[0]] + rs[1..];
    if rs[0] != a && rs[0] != b {
      OneIsFirst(rs[1..], a, b);
    } else if rs[0] == a {
      var j :| 0 <= j < |rs| && rs[j] == b;
    }
  }

  /** A record that is left out although it is no longer than one that is carried is packed behind it. So of each reach
      the shortest records are carried. */
  lemma CarriedComesFirst(p: Parsers, a: Announcement, maxBytes: nat, kept: AnnouncementRecord, left: AnnouncementRecord)
    requires IsAnnounced(p, a, maxBytes) && kept in Shown(p, a, maxBytes) && IsLeftOut(p, a, maxBytes, left)
    requires |Tail(left)| <= |Tail(kept)|
    ensures IsPackedBefore(p, kept, left)
  {
    var packed, other := FromRecord(p, kept), FromRecord(p, left);
    BeforeExactly(p, kept, left);
    BeforeExactly(p, left, kept);
    LeftOutIsNotCarried(p, a, maxBytes, left);
    ShownIsCarried(p, a, maxBytes, kept);
    var sorted, room := SortRecords(Pack(p, a.records)), Room(a.peerId, maxBytes);
    SortedIsInOrder(Pack(p, a.records));
    KeptAreSome(sorted, room);
    hide FromRecord, Encoded, Decoded, ReachOf, Rank, Kept, SortRecords, WellFormed, Tail, Tag, Canonical, Shown, Cost, Eligible,
      IsPackedBefore, Before, InOrder, IsFirst;
    assert packed in multiset(sorted);
    OneIsFirst(sorted, packed, other);
    if IsFirst(sorted, other, packed) {
      KeepsOutLater(sorted, room, other, packed);
    }
  }

  lemma ShownIsCarried(p: Parsers, a: Announcement, maxBytes: nat, r: AnnouncementRecord)
    requires IsAnnounced(p, a, maxBytes) && r in Shown(p, a, maxBytes)
    ensures FromRecord(p, r) in Carried(p, a, maxBytes)
  {
    var shown := Shown(p, a, maxBytes);
    AnnouncementRoundTrip(p, a, maxBytes);
    hide FromRecord, Encoded, Decoded, Kept, SortRecords, WellFormed;
    var i :| 0 <= i < |shown| && shown[i] == r;
    assert Pack(p, shown)[i] == FromRecord(p, r);
  }

  /** The records whose reach is wanted no less. */
  function NoLessWanted(p: Parsers, rs: seq<AnnouncementRecord>, than: AnnouncementRecord): (wanted: seq<AnnouncementRecord>)
    ensures forall r :: r in wanted ==> r in rs && Rank(p, r) <= Rank(p, than)
  {
    if rs == [] then []
    else (if Rank(p, rs[0]) <= Rank(p, than) then [rs[0]] else []) + NoLessWanted(p, rs[1..], than)
  }

  function Rank(p: Parsers, r: AnnouncementRecord): (k: nat)
    ensures k < |REACHES| && REACHES[k] == ReachOf(p, r)
  {
    match ReachOf(p, r)
    case PrivateDirect => 0
    case PublicDirect => 1
    case OverI2p => 2
    case OverTorOrPlain => 3
    case OverQuic => 4
    case OverWebRtc => 5
    case OverTunnel => 6
    case OverRelay => 7
  }

  function UpTo(rs: seq<PackedRecord>, priority: nat): seq<PackedRecord> {
    if rs == [] then [] else (if rs[0].priority <= priority then [rs[0]] else []) + UpTo(rs[1..], priority)
  }

  lemma {:induction false} NoRoomForLeft(rs: seq<PackedRecord>, room: int, left: PackedRecord)
    requires InOrder(rs) && left in rs && left !in Kept(rs, room) && Eligible(left)
    ensures TotalCost(UpTo(Kept(rs, room), left.priority)) + Cost(left) > room
  {
    var head, tail := rs[0], rs[1..];
    assert rs == [head] + tail;
    TailInOrder(rs);
    if head == left {
      assert Cost(head) > room;
    } else {
      assert left in tail;
      assert head.priority <= left.priority by {
        var k :| 0 <= k < |tail| && tail[k] == left;
        assert Before(rs[0], rs[k + 1]);
      }
      hide InOrder, Before, Eligible;
      if Eligible(head) && Cost(head) <= room {
        var kept := Kept(tail, room - Cost(head));
        NoRoomForLeft(tail, room - Cost(head), left);
        assert Kept(rs, room)[1..] == kept;
        assert ([head] + UpTo(kept, left.priority))[1..] == UpTo(kept, left.priority);
      } else {
        NoRoomForLeft(tail, room, left);
      }
    }
  }

  lemma {:induction false} UpToIsWanted(p: Parsers, rs: seq<AnnouncementRecord>, than: AnnouncementRecord)
    ensures UpTo(Pack(p, rs), FromRecord(p, than).priority) == Pack(p, NoLessWanted(p, rs, than))
  {
    hide FromRecord, ReachOf;
    if rs != [] {
      UpToIsWanted(p, rs[1..], than);
      PackSplit(p, rs);
      PackedForm(p, rs[0]);
      PackedForm(p, than);
      RankIsPlace(Rank(p, rs[0]));
      RankIsPlace(Rank(p, than));
      var rest := NoLessWanted(p, rs[1..], than);
      assert Pack(p, [rs[0]] + rest) == [FromRecord(p, rs[0])] + Pack(p, rest);
      assert [] + rest == rest && [] + Pack(p, rest) == Pack(p, rest);
    }
  }

  /** A record that is left out has no room beside what is carried and wanted no less. */
  lemma LeftOutHasNoRoom(p: Parsers, a: Announcement, maxBytes: nat, left: AnnouncementRecord)
    requires IsAnnounced(p, a, maxBytes) && IsLeftOut(p, a, maxBytes, left)
    ensures 2 + |a.peerId| + WireSize(NoLessWanted(p, Shown(p, a, maxBytes), left)) + WireSize([left]) > maxBytes
  {
    var shown := Shown(p, a, maxBytes);
    AnnouncementRoundTrip(p, a, maxBytes);
    LeftOutIsNotCarried(p, a, maxBytes, left);
    PackedForm(p, left);
    SortedIsInOrder(Pack(p, a.records));
    hide FromRecord, Encoded, Decoded, ReachOf, SortRecords, WellFormed, Canonical;
    NoRoomForLeft(SortRecords(Pack(p, a.records)), Room(a.peerId, maxBytes), FromRecord(p, left));
    UpToIsWanted(p, shown, left);
    PackedForms(p, NoLessWanted(p, shown, left));
  }

  // ---------------------------------------------------------------------------------------------
  // Records that are packed alike keep the order in which they were given.

  predicate SamePlace(a: PackedRecord, b: PackedRecord) {
    Before(a, b) && Before(b, a)
  }

  /** The records that are packed like this one, in their order. */
  function Alike(rs: seq<PackedRecord>, r: PackedRecord): seq<PackedRecord> {
    if rs == [] then [] else (if SamePlace(rs[0], r) then [rs[0]] else []) + Alike(rs[1..], r)
  }

  lemma {:induction false} InsertIsStable(x: PackedRecord, rs: seq<PackedRecord>, r: PackedRecord)
    ensures Alike(InsertInOrder(x, rs), r) == (if SamePlace(x, r) then [x] else []) + Alike(rs, r)
  {
    if rs == [] || Before(x, rs[0]) {
      assert ([x] + rs)[1..] == rs;
    } else {
      InsertIsStable(x, rs[1..], r);
      assert ([rs[0]] + InsertInOrder(x, rs[1..]))[1..] == InsertInOrder(x, rs[1..]);
      assert !(SamePlace(x, r) && SamePlace(rs[0], r));
    }
  }

  lemma {:induction false} SortIsStable(rs: seq<PackedRecord>, r: PackedRecord)
    ensures Alike(SortRecords(rs), r) == Alike(rs, r)
  {
    hide SamePlace;
    if rs != [] {
      SortIsStable(rs[1..], r);
      InsertIsStable(rs[0], SortRecords(rs[1..]), r);
    }
  }

  lemma {:induction false} FirstAmongAlike(rs: seq<PackedRecord>, a: PackedRecord, b: PackedRecord)
    requires SamePlace(a, b)
    ensures IsFirst(Alike(rs, a), a, b) <==> IsFirst(rs, a, b)
  {
    if rs != [] {
      FirstAmongAlike(rs[1..], a, b);
      assert SamePlace(a, a);
      hide SamePlace;
      if SamePlace(rs[0], a) {
        assert Alike(rs, a)[0] == rs[0] && Alike(rs, a)[1..] == Alike(rs[1..], a);
      } else {
        assert Alike(rs, a) == Alike(rs[1..], a);
        assert rs[0] != b by { AlikeBothWays(a, b); }
      }
    }
  }

  lemma AlikeBothWays(a: PackedRecord, b: PackedRecord)
    ensures SamePlace(a, b) <==> SamePlace(b, a)
  {
  }

  lemma {:induction false} FirstGiven(rs: seq<PackedRecord>, i: nat, j: nat)
    requires i < j < |rs| && forall k :: 0 <= k < j ==> rs[k] != rs[j]
    ensures IsFirst(rs, rs[i], rs[j])
  {
    if i > 0 {
      FirstGiven(rs[1..], i - 1, j - 1);
    }
  }

  /** Of two addresses of one reach, kind and length the one that was given first is carried first: when it is left out, so
      is the other. */
  lemma GivenFirstIsCarriedFirst(p: Parsers, a: Announcement, maxBytes: nat, i: nat, j: nat)
    requires IsAnnounced(p, a, maxBytes) && i < j < |a.records| && IsLeftOut(p, a, maxBytes, a.records[i])
    requires Rank(p, a.records[i]) == Rank(p, a.records[j])
    requires |Tail(a.records[i])| == |Tail(a.records[j])| && Tag(a.records[i]) == Tag(a.records[j])
    requires forall k :: 0 <= k < j ==> Canonical(a.records[k]) != Canonical(a.records[j])
    ensures Canonical(a.records[j]) !in Shown(p, a, maxBytes)
  {
    var first, second := FromRecord(p, a.records[i]), FromRecord(p, a.records[j]);
    var packed, sorted := Pack(p, a.records), SortRecords(Pack(p, a.records));
    LeftOutIsNotCarried(p, a, maxBytes, a.records[i]);
    BeforeExactly(p, a.records[i], a.records[j]);
    BeforeExactly(p, a.records[j], a.records[i]);
    forall k | 0 <= k < j ensures packed[k] != packed[j] {
      PackedAlikeExactly(p, a.records[k], a.records[j]);
    }
    FirstGiven(packed, i, j);
    CanonicalPacksAlike(p, a.records[j]);
    hide FromRecord, Encoded, Decoded, ReachOf, Rank, Kept, SortRecords, WellFormed, Tail, Tag, Canonical, Shown, Cost, Eligible,
      Before, IsFirst;
    SortIsStable(packed, first);
    FirstAmongAlike(packed, first, second);
    FirstAmongAlike(sorted, first, second);
    KeepsOutLater(sorted, Room(a.peerId, maxBytes), first, second);
    if Canonical(a.records[j]) in Shown(p, a, maxBytes) {
      ShownIsCarried(p, a, maxBytes, Canonical(a.records[j]));
    }
  }

  lemma CanonicalPacksAlike(p: Parsers, r: AnnouncementRecord)
    requires WellFormed(p, r)
    ensures FromRecord(p, Canonical(r)) == FromRecord(p, r)
  {
    RecordRoundTrip(p, r);
  }

  /** When a direct address would fit on its own, a direct address is carried, whatever else the announcement has. */
  lemma DirectComesFirst(p: Parsers, a: Announcement, maxBytes: nat, direct: AnnouncementRecord)
    requires IsAnnounced(p, a, maxBytes) && direct in a.records && (direct.DirectV4? || direct.DirectV6?)
    requires 2 + |a.peerId| + WireSize([direct]) <= maxBytes
    ensures exists r :: r in Shown(p, a, maxBytes) && (r.DirectV4? || r.DirectV6?)
  {
    var shown := Shown(p, a, maxBytes);
    hide Encoded, Decoded, WellFormed, ReachOf, Rank, WireSize, Shown;
    if Canonical(direct) in shown {
      CanonicalKeepsKind(direct);
    } else {
      SizeOfOne(direct);
      LeftOutHasNoRoom(p, a, maxBytes, direct);
      NoneIsNothing();
      var wanted := NoLessWanted(p, shown, direct);
      assert wanted != [];
      assert wanted[0] in wanted;
      DirectRanks(p, wanted[0]);
      DirectRanks(p, direct);
    }
  }

  lemma CanonicalKeepsKind(r: AnnouncementRecord)
    ensures Canonical(r).DirectV4? == r.DirectV4? && Canonical(r).DirectV6? == r.DirectV6?
  {
  }

  lemma SizeOfOne(r: AnnouncementRecord)
    ensures WireSize([r]) == 2 + |Tail(r)|
    ensures r.DirectV4? || r.DirectV6? ==> HasWireForm(r)
  {
    assert [r][1..] == [];
  }

  lemma NoneIsNothing()
    ensures WireSize([]) == 0
  {
  }

  lemma DirectRanks(p: Parsers, r: AnnouncementRecord)
    ensures Rank(p, r) <= 1 <==> r.DirectV4? || r.DirectV6?
  {
  }

  /** But with room for more, a tunnel can be carried while a direct address that would fit on its own is left out: the
      smaller direct address comes first, and the larger one has no room beside it. */
  lemma TunnelBesideLeftOutDirect(p: Parsers, peerId: Bytes, ip4: Octets4, ip6: Octets16, port: Port, url: Bytes)
    requires p.validPeer(peerId) && |peerId| < 256 && |url| <= 10 && p.normalizeTunnel(url) == Some(url)
    requires !IsPrivate(ip4) && !IsUniqueLocal(ip6)
    ensures var small, large, tunnel := DirectV4(ip4, port), DirectV6(ip6, port, 0, 0), PublicTunnel(url);
      var a, maxBytes := Announcement(peerId, [small, large, tunnel]), 2 + |peerId| + 20;
      && IsAnnounced(p, a, maxBytes)
      && Shown(p, a, maxBytes) == [small, tunnel]
      && 2 + |peerId| + WireSize([large]) <= maxBytes
  {
    var small, large, tunnel := DirectV4(ip4, port), DirectV6(ip6, port, 0, 0), PublicTunnel(url);
    var a, maxBytes := Announcement(peerId, [small, large, tunnel]), 2 + |peerId| + 20;
    PackedForm(p, small);
    PackedForm(p, large);
    PackedForm(p, tunnel);
    var s, l, t := FromRecord(p, small), FromRecord(p, large), FromRecord(p, tunnel);
    assert s.priority == l.priority == 1 && t.priority == 6;
    ThreeSorted(s, l, t);
    assert Pack(p, a.records) == [s, l, t];
    SecondHasNoRoom(s, l, t);
    assert Carried(p, a, maxBytes) == [s, t];
    AnnouncementRoundTrip(p, a, maxBytes);
    var shown := Shown(p, a, maxBytes);
    assert Pack(p, shown) == [s, t] && |shown| == 2;
    assert FromRecord(p, shown[0]) == s && FromRecord(p, shown[1]) == t;
    assert shown[0] in shown && shown[1] in shown;
    PackedAlikeExactly(p, shown[0], small);
    PackedAlikeExactly(p, shown[1], tunnel);
    assert shown == [small, tunnel];
    assert [large][1..] == [];
  }

  lemma SecondHasNoRoom(s: PackedRecord, l: PackedRecord, t: PackedRecord)
    requires |s.data| == 6 && |l.data| == 18 && |t.data| <= 10
    ensures Kept([s, l, t], 20) == [s, t]
  {
    assert [s, l, t][1..] == [l, t] && [l, t][1..] == [t] && [t][1..] == [];
    assert Kept([], 10 - |t.data|) == [];
    assert Kept([t], 12) == [t] && Kept([l, t], 12) == [t];
  }

  lemma ThreeSorted(a: PackedRecord, b: PackedRecord, c: PackedRecord)
    requires Before(a, b) && Before(b, c)
    ensures SortRecords([a, b, c]) == [a, b, c]
  {
    hide Before;
    assert [c][1..] == [] && SortRecords([c]) == InsertInOrder(c, []) == [c];
    assert [b, c][1..] == [c] && SortRecords([b, c]) == InsertInOrder(b, [c]) == [b, c];
    assert [a, b, c][1..] == [b, c] && SortRecords([a, b, c]) == InsertInOrder(a, [b, c]) == [a, b, c];
  }
}
