/** The registration table of services/peerline-rendezvous/src/lib.rs. One request, once its body is read and
    it has passed authentication and validation, is one step. */
module Rendezvous {
  import opened Bytes

  const DEFAULT_DISCOVER_LIMIT: nat := 32
  const MAX_DISCOVER_LIMIT: nat := 128
  const I64_LIMIT: int := 0x8000_0000_0000_0000

  type PeerId = string

  type Descriptor = Bytes

  datatype Row = Row(cookie: nat, peer: PeerId, expires: int, descriptor: Descriptor)

  /** The table in cookie order and the next value of its AUTOINCREMENT key. */
  datatype Table = Table(rows: seq<Row>, nextCookie: nat)

  const EMPTY_TABLE := Table([], 1)

  function Where(rows: seq<Row>, keep: Row -> bool): (out: seq<Row>)
    ensures forall r :: r in out <==> r in rows && keep(r)
  {
    if rows == [] then []
    else
      var rest := Where(rows[..|rows| - 1], keep);
      var last := rows[|rows| - 1];
      assert forall r :: r in rows <==> r in rows[..|rows| - 1] || r == last;
      if keep(last) then rest + [last] else rest
  }

  function Unexpired(rows: seq<Row>, now: int): seq<Row> {
    Where(rows, (r: Row) => r.expires > now)
  }

  function OfPeer(rows: seq<Row>, peer: PeerId): seq<Row> {
    Where(rows, (r: Row) => r.peer == peer)
  }

  /** `UPDATE ... SET expires_unix_ms, descriptor_json WHERE cookie`. */
  function Updated(rows: seq<Row>, cookie: nat, expires: int, descriptor: Descriptor): (out: seq<Row>)
    ensures |out| == |rows|
  {
    seq(|rows|, i requires 0 <= i < |rows| =>
      if rows[i].cookie == cookie then rows[i].(expires := expires, descriptor := descriptor) else rows[i])
  }

  function Clamp(n: nat, low: nat, high: nat): nat {
    if n < low then low else if n > high then high else n
  }

  function ExpiryAt(now: int, ttlSeconds: nat, maxTtlSeconds: nat): int {
    now + Clamp(ttlSeconds, 1, maxTtlSeconds) * 1000
  }

  datatype Registered = Registered(cookie: nat, refreshed: bool)

  function AfterRegister(t: Table, peer: PeerId, expires: int, descriptor: Descriptor, now: int): (Table, Registered) {
    var rows := Unexpired(t.rows, now);
    var existing := OfPeer(rows, peer);
    if existing != [] then
      var cookie := existing[0].cookie;
      (t.(rows := Where(Updated(rows, cookie, expires, descriptor), (r: Row) => !(r.peer == peer && r.cookie != cookie))),
       Registered(cookie, true))
    else
      (Table(rows + [Row(t.nextCookie, peer, expires, descriptor)], t.nextCookie + 1), Registered(t.nextCookie, false))
  }

  function AfterUnregister(t: Table, peer: PeerId, now: int): (Table, nat) {
    var rows := Unexpired(t.rows, now);
    (t.(rows := Where(rows, (r: Row) => r.peer != peer)), |OfPeer(rows, peer)|)
  }

  /** The live rows beyond a cursor. */
  function Beyond(rows: seq<Row>, now: int, after: int): seq<Row> {
    Where(rows, (r: Row) => r.expires > now && r.cookie > after)
  }

  function Take(rows: seq<Row>, limit: nat): seq<Row> {
    if |rows| <= limit then rows else rows[..limit]
  }

  /** `COALESCE(MAX(cookie), 0)`. */
  function MaxCookie(rows: seq<Row>): nat {
    if rows == [] then 0
    else
      var rest := MaxCookie(rows[..|rows| - 1]);
      if rows[|rows| - 1].cookie > rest then rows[|rows| - 1].cookie else rest
  }

  /** How many records a page holds at most. */
  function PageLimit(limit: Option<nat>): (n: nat)
    ensures 1 <= n <= 128
  {
    Clamp(if limit.Some? then limit.value else DEFAULT_DISCOVER_LIMIT, 1, MAX_DISCOVER_LIMIT)
  }

  datatype Page = Page(cookie: nat, records: seq<Row>)

  function PageOf(rows: seq<Row>, now: int, after: int, limit: nat): Page {
    Page(MaxCookie(Unexpired(rows, now)), Take(Beyond(Unexpired(rows, now), now, after), limit))
  }

  class RendezvousShard {
    var table: Table
    const maxTtlSeconds: nat

    constructor (maxTtlSeconds: nat)
      ensures table == EMPTY_TABLE && this.maxTtlSeconds == maxTtlSeconds
    {
      table := EMPTY_TABLE;
      this.maxTtlSeconds := maxTtlSeconds;
    }

    /** Exactly the rows that have not expired stay. */
    method CleanupExpired(now: int)
      modifies this
      ensures table == old(table).(rows := Unexpired(old(table).rows, now))
      ensures forall row :: row in table.rows <==> row in old(table).rows && now < row.expires
      ensures WellFormed(old(table)) ==>
                WellFormed(table) && ViewOf(table.rows) == LiveEntries(ViewOf(old(table).rows), now)
    {
      if WellFormed(table) {
        UnexpiredView(table, now);
      }
      table := table.(rows := Unexpired(table.rows, now));
    }

    method Register(peer: PeerId, ttlSeconds: nat, descriptor: Descriptor, now: int) returns (r: Registered)
      modifies this
      ensures (table, r) == AfterRegister(old(table), peer, ExpiryAt(now, ttlSeconds, maxTtlSeconds), descriptor, now)
      ensures WellFormed(old(table)) ==>
                IsRegistered(old(table), peer, ExpiryAt(now, ttlSeconds, maxTtlSeconds), descriptor, now, table, r)
    {
      if WellFormed(table) {
        RegisterView(table, peer, ExpiryAt(now, ttlSeconds, maxTtlSeconds), descriptor, now);
      }
      hide Unexpired, Updated, WellFormed, ViewOf, LiveEntries, IsRegistered, OfPeer;
      var expires := now + Clamp(ttlSeconds, 1, maxTtlSeconds) * 1000;
      CleanupExpired(now);
      var existing := OfPeer(table.rows, peer);
      if existing != [] {
        var cookie := existing[0].cookie;
        table := table.(rows := Updated(table.rows, cookie, expires, descriptor));
        table := table.(rows := Where(table.rows, (r: Row) => !(r.peer == peer && r.cookie != cookie)));
        r := Registered(cookie, true);
      } else {
        var cookie := table.nextCookie;
        table := Table(table.rows + [Row(cookie, peer, expires, descriptor)], cookie + 1);
        r := Registered(cookie, false);
      }
    }

    method Unregister(peer: PeerId, now: int) returns (removed: nat)
      modifies this
      ensures (table, removed) == AfterUnregister(old(table), peer, now)
      ensures WellFormed(old(table)) ==>
                var live := LiveEntries(ViewOf(old(table).rows), now);
                && WellFormed(table)
                && ViewOf(table.rows) == live - {peer} && removed == if peer in live then 1 else 0
    {
      if WellFormed(table) {
        UnregisterView(table, peer, now);
      }
      hide Unexpired, WellFormed, ViewOf, LiveEntries;
      CleanupExpired(now);
      removed := |OfPeer(table.rows, peer)|;
      table := table.(rows := Where(table.rows, (r: Row) => r.peer != peer));
    }

    /** A cursor beyond SQLite's integers is refused before anything else happens. */
    method Discover(afterCookie: Option<U64>, limit: Option<nat>, now: int) returns (r: Option<Page>)
      modifies this
      ensures r.None? <==> afterCookie.Some? && afterCookie.value >= 9_223_372_036_854_775_808
      ensures r.None? ==> table == old(table)
      ensures r.Some? ==> table == old(table).(rows := Unexpired(old(table).rows, now))
      ensures r.Some? ==>
                r.value == PageOf(old(table).rows, now, if afterCookie.Some? then afterCookie.value else 0,
                                  Clamp(if limit.Some? then limit.value else 32, 1, 128))
    {
      var after: int := if afterCookie.Some? then afterCookie.value else 0;
      if after >= I64_LIMIT {
        return None;
      }
      CleanupExpired(now);
      var rows := Take(Beyond(table.rows, now, after), PageLimit(limit));
      r := Some(Page(MaxCookie(table.rows), rows));
    }
  }

  // ---------------------------------------------------------------------------------------------
  // The table refines a map from peers to registrations.

  predicate Ascending(rows: seq<Row>) {
    forall i, j :: 0 <= i < j < |rows| ==> rows[i].cookie < rows[j].cookie
  }

  predicate OnePerPeer(rows: seq<Row>) {
    forall i, j :: 0 <= i < j < |rows| ==> rows[i].peer != rows[j].peer
  }

  predicate Below(rows: seq<Row>, nextCookie: nat) {
    forall i :: 0 <= i < |rows| ==> 0 < rows[i].cookie < nextCookie
  }

  /** Cookies grow along the table and stay below the next one; a peer has one row. */
  predicate WellFormed(t: Table) {
    t.nextCookie > 0 && Ascending(t.rows) && OnePerPeer(t.rows) && Below(t.rows, t.nextCookie)
  }

  datatype Entry = Entry(expires: int, descriptor: Descriptor)

  predicate HasRow(rows: seq<Row>, peer: PeerId) {
    exists i :: 0 <= i < |rows| && rows[i].peer == peer
  }

  predicate Represents(rows: seq<Row>, view: map<PeerId, Entry>) {
    && (forall i :: 0 <= i < |rows| ==>
          rows[i].peer in view && view[rows[i].peer] == Entry(rows[i].expires, rows[i].descriptor))
    && (forall p :: p in view ==> HasRow(rows, p))
  }

  /** The map that the rows represent. */
  function ViewOf(rows: seq<Row>): map<PeerId, Entry> {
    if rows == [] then map[]
    else
      var last := rows[|rows| - 1];
      ViewOf(rows[..|rows| - 1])[last.peer := Entry(last.expires, last.descriptor)]
  }

  predicate HasCookie(rows: seq<Row>, peer: PeerId, cookie: nat) {
    exists i :: 0 <= i < |rows| && rows[i].peer == peer && rows[i].cookie == cookie
  }

  function LiveEntries(view: map<PeerId, Entry>, now: int): map<PeerId, Entry> {
    map p | p in view && view[p].expires > now :: view[p]
  }

  lemma {:induction false} WhereKeepsOrder(rows: seq<Row>, keep: Row -> bool, nextCookie: nat)
    requires Ascending(rows) && OnePerPeer(rows) && Below(rows, nextCookie)
    ensures Ascending(Where(rows, keep)) && OnePerPeer(Where(rows, keep)) && Below(Where(rows, keep), nextCookie)
  {
    if rows != [] {
      var n := |rows| - 1;
      WhereKeepsOrder(rows[..n], keep, nextCookie);
      var rest := Where(rows[..n], keep);
      forall i | 0 <= i < |rest|
        ensures rest[i].cookie < rows[n].cookie && rest[i].peer != rows[n].peer
      {
        assert rest[i] in rest;
        var k :| 0 <= k < n && rows[k] == rest[i];
      }
    }
  }

  lemma UnexpiredRefines(t: Table, view: map<PeerId, Entry>, now: int)
    requires WellFormed(t) && Represents(t.rows, view)
    ensures WellFormed(t.(rows := Unexpired(t.rows, now)))
    ensures Represents(Unexpired(t.rows, now), LiveEntries(view, now))
  {
    WhereKeepsOrder(t.rows, (r: Row) => r.expires > now, t.nextCookie);
    hide Ascending, OnePerPeer, Below;
    WhereRepresents(t.rows, view, (r: Row) => r.expires > now, LiveEntries(view, now));
  }

  lemma WhereRepresents(rows: seq<Row>, view: map<PeerId, Entry>, keep: Row -> bool, view': map<PeerId, Entry>)
    requires Represents(rows, view)
    requires forall i :: 0 <= i < |rows| ==>
               (if keep(rows[i]) then rows[i].peer in view' && view'[rows[i].peer] == view[rows[i].peer]
                else rows[i].peer !in view')
    requires forall p :: p in view' ==> p in view
    ensures Represents(Where(rows, keep), view')
  {
    var out := Where(rows, keep);
    forall i | 0 <= i < |out|
      ensures out[i].peer in view' && view'[out[i].peer] == Entry(out[i].expires, out[i].descriptor)
    {
      assert out[i] in out;
      var k :| 0 <= k < |rows| && rows[k] == out[i];
    }
    forall p | p in view'
      ensures HasRow(out, p)
    {
      assert HasRow(rows, p);
      var k :| 0 <= k < |rows| && rows[k].peer == p;
      assert rows[k] in out;
      var i :| 0 <= i < |out| && out[i] == rows[k];
    }
  }

  /** What a registration does to the map and to the cookies: the peer gets the new entry and nobody else's
      changes; a live registration keeps its cookie, and any other gets one larger than all that ever were. */
  lemma RegisterRefines(t: Table, view: map<PeerId, Entry>, peer: PeerId, expires: int, descriptor: Descriptor, now: int)
    requires WellFormed(t) && Represents(t.rows, view)
    ensures var (t', r) := AfterRegister(t, peer, expires, descriptor, now);
            && WellFormed(t')
            && Represents(t'.rows, LiveEntries(view, now)[peer := Entry(expires, descriptor)])
            && r.refreshed == (peer in LiveEntries(view, now))
            && Row(r.cookie, peer, expires, descriptor) in t'.rows
            && t'.nextCookie == t.nextCookie + (if r.refreshed then 0 else 1)
            && (!r.refreshed ==> r.cookie == t.nextCookie)
            && (r.refreshed ==> exists i :: 0 <= i < |t.rows| && t.rows[i].peer == peer && t.rows[i].cookie == r.cookie)
  {
    UnexpiredRefines(t, view, now);
    var rows := Unexpired(t.rows, now);
    var live := LiveEntries(view, now);
    var existing := OfPeer(rows, peer);
    hide WellFormed, Represents, LiveEntries, OfPeer, Unexpired, HasRow;
    OfPeerFinds(rows, live, peer);
    if existing != [] {
      var k :| 0 <= k < |rows| && rows[k] == existing[0];
      assert rows[k] in rows && rows[k] in t.rows;
      RefreshRefines(t.(rows := rows), live, k, expires, descriptor);
    } else {
      InsertRefines(t.(rows := rows), live, peer, expires, descriptor);
    }
  }

  lemma OfPeerFinds(rows: seq<Row>, view: map<PeerId, Entry>, peer: PeerId)
    requires Represents(rows, view)
    ensures OfPeer(rows, peer) != [] <==> peer in view
    ensures OfPeer(rows, peer) != [] ==> OfPeer(rows, peer)[0] in rows && OfPeer(rows, peer)[0].peer == peer
  {
    var found := OfPeer(rows, peer);
    if found != [] {
      assert found[0] in found;
    }
    if peer in view {
      assert HasRow(rows, peer);
      var k :| 0 <= k < |rows| && rows[k].peer == peer;
      assert rows[k] in found;
    }
  }

  lemma RefreshRefines(t: Table, view: map<PeerId, Entry>, k: nat, expires: int, descriptor: Descriptor)
    requires WellFormed(t) && Represents(t.rows, view) && k < |t.rows|
    ensures var peer, cookie := t.rows[k].peer, t.rows[k].cookie;
            var updated := Updated(t.rows, cookie, expires, descriptor);
            var rows := Where(updated, (r: Row) => !(r.peer == peer && r.cookie != cookie));
            && WellFormed(t.(rows := rows))
            && Represents(rows, view[peer := Entry(expires, descriptor)])
            && Row(cookie, peer, expires, descriptor) in rows
  {
    var peer, cookie := t.rows[k].peer, t.rows[k].cookie;
    UpdatedAt(t.rows, k, expires, descriptor);
    ReplacedRefines(t, view, k, expires, descriptor);
    var updated := Updated(t.rows, cookie, expires, descriptor);
    hide Updated, WellFormed, Represents;
    WhereAll(updated, (r: Row) => !(r.peer == peer && r.cookie != cookie));
    assert updated[k] in updated;
  }

  lemma ReplacedRefines(t: Table, view: map<PeerId, Entry>, k: nat, expires: int, descriptor: Descriptor)
    requires WellFormed(t) && Represents(t.rows, view) && k < |t.rows|
    ensures var replaced := t.rows[k := t.rows[k].(expires := expires, descriptor := descriptor)];
            && WellFormed(t.(rows := replaced))
            && Represents(replaced, view[t.rows[k].peer := Entry(expires, descriptor)])
  {
    assert WellFormed(t.(rows := t.rows[k := t.rows[k].(expires := expires, descriptor := descriptor)]));
    ReplacedRepresents(t.rows, view, k, expires, descriptor);
  }

  lemma ReplacedRepresents(rows: seq<Row>, view: map<PeerId, Entry>, k: nat, expires: int, descriptor: Descriptor)
    requires OnePerPeer(rows) && Represents(rows, view) && k < |rows|
    ensures Represents(rows[k := rows[k].(expires := expires, descriptor := descriptor)],
                       view[rows[k].peer := Entry(expires, descriptor)])
  {
    var peer := rows[k].peer;
    var replaced := rows[k := rows[k].(expires := expires, descriptor := descriptor)];
    forall p | p in view || p == peer
      ensures HasRow(replaced, p)
    {
      if p == peer {
        assert replaced[k].peer == p;
      } else {
        assert HasRow(rows, p);
        var i :| 0 <= i < |rows| && rows[i].peer == p;
        assert replaced[i].peer == p;
      }
    }
  }

  lemma UpdatedAt(rows: seq<Row>, k: nat, expires: int, descriptor: Descriptor)
    requires Ascending(rows) && OnePerPeer(rows) && k < |rows|
    ensures var updated := Updated(rows, rows[k].cookie, expires, descriptor);
            && updated == rows[k := rows[k].(expires := expires, descriptor := descriptor)]
            && forall i :: 0 <= i < |updated| ==> updated[i].peer == rows[k].peer ==> updated[i].cookie == rows[k].cookie
  {
  }

  lemma {:induction false} WhereAll(rows: seq<Row>, keep: Row -> bool)
    requires forall i :: 0 <= i < |rows| ==> keep(rows[i])
    ensures Where(rows, keep) == rows
  {
    if rows != [] {
      var n := |rows| - 1;
      assert rows == rows[..n] + [rows[n]];
      WhereAll(rows[..n], keep);
    }
  }

  lemma RowRepresents(rows: seq<Row>, view: map<PeerId, Entry>, row: Row)
    requires Represents(rows, view) && row.peer !in view
    ensures Represents(rows + [row], view[row.peer := Entry(row.expires, row.descriptor)])
  {
    forall p | p in view[row.peer := Entry(row.expires, row.descriptor)]
      ensures HasRow(rows + [row], p)
    {
      if p == row.peer {
        assert (rows + [row])[|rows|].peer == p;
      } else {
        assert HasRow(rows, p);
        var i :| 0 <= i < |rows| && rows[i].peer == p;
        assert (rows + [row])[i].peer == p;
      }
    }
  }

  lemma InsertRefines(t: Table, view: map<PeerId, Entry>, peer: PeerId, expires: int, descriptor: Descriptor)
    requires WellFormed(t) && Represents(t.rows, view) && peer !in view
    ensures var row := Row(t.nextCookie, peer, expires, descriptor);
            && WellFormed(Table(t.rows + [row], t.nextCookie + 1))
            && Represents(t.rows + [row], view[peer := Entry(expires, descriptor)])
  {
    var row := Row(t.nextCookie, peer, expires, descriptor);
    assert WellFormed(Table(t.rows + [row], t.nextCookie + 1)) by { hide HasRow; }
    hide WellFormed;
    RowRepresents(t.rows, view, row);
  }

  lemma FirstTwoDiffer(rows: seq<Row>)
    requires OnePerPeer(rows) && |rows| > 1
    ensures rows[0].peer != rows[1].peer && rows[0] in rows && rows[1] in rows
  {
  }

  lemma AtMostOne(rows: seq<Row>, peer: PeerId)
    requires OnePerPeer(rows) && forall r :: r in rows ==> r.peer == peer
    ensures |rows| <= 1
  {
    if |rows| > 1 {
      FirstTwoDiffer(rows);
    }
  }

  lemma UnregisterRefines(t: Table, view: map<PeerId, Entry>, peer: PeerId, now: int)
    requires WellFormed(t) && Represents(t.rows, view)
    ensures var (t', removed) := AfterUnregister(t, peer, now);
            && WellFormed(t') && Represents(t'.rows, LiveEntries(view, now) - {peer})
            && removed == if peer in LiveEntries(view, now) then 1 else 0
  {
    UnexpiredRefines(t, view, now);
    var rows, live := Unexpired(t.rows, now), LiveEntries(view, now);
    hide Unexpired, LiveEntries, HasRow;
    CountedOnce(t.(rows := rows), live, peer);
    WhereKeepsOrder(rows, (r: Row) => r.peer != peer, t.nextCookie);
    hide Ascending, OnePerPeer, Below, OfPeer;
    WhereRepresents(rows, live, (r: Row) => r.peer != peer, live - {peer});
  }

  lemma CountedOnce(t: Table, view: map<PeerId, Entry>, peer: PeerId)
    requires WellFormed(t) && Represents(t.rows, view)
    ensures |OfPeer(t.rows, peer)| == if peer in view then 1 else 0
  {
    WhereKeepsOrder(t.rows, (r: Row) => r.peer == peer, t.nextCookie);
    OfPeerFinds(t.rows, view, peer);
    AtMostOne(OfPeer(t.rows, peer), peer);
  }

  lemma {:induction false} ViewRepresents(rows: seq<Row>)
    requires OnePerPeer(rows)
    ensures Represents(rows, ViewOf(rows))
  {
    if rows != [] {
      var n := |rows| - 1;
      ViewRepresents(rows[..n]);
      assert rows == rows[..n] + [rows[n]];
      NotRepresented(rows[..n], rows[n], ViewOf(rows[..n]));
      RowRepresents(rows[..n], ViewOf(rows[..n]), rows[n]);
    }
  }

  lemma NotRepresented(rows: seq<Row>, last: Row, view: map<PeerId, Entry>)
    requires OnePerPeer(rows + [last]) && Represents(rows, view)
    ensures last.peer !in view
  {
    forall i | 0 <= i < |rows| ensures rows[i].peer != last.peer {
      assert (rows + [last])[i] == rows[i] && (rows + [last])[|rows|] == last;
    }
    assert !HasRow(rows, last.peer);
  }

  /** Rows with one for each peer represent one map only. */
  lemma RepresentsOne(rows: seq<Row>, view: map<PeerId, Entry>)
    requires OnePerPeer(rows) && Represents(rows, view)
    ensures view == ViewOf(rows)
  {
    ViewRepresents(rows);
    forall p ensures p in view <==> p in ViewOf(rows) {
      if p in view || p in ViewOf(rows) {
        assert HasRow(rows, p);
        var i :| 0 <= i < |rows| && rows[i].peer == p;
      }
    }
    forall p | p in view ensures view[p] == ViewOf(rows)[p] {
      assert HasRow(rows, p);
      var i :| 0 <= i < |rows| && rows[i].peer == p;
    }
  }

  lemma UnexpiredView(t: Table, now: int)
    requires WellFormed(t)
    ensures WellFormed(t.(rows := Unexpired(t.rows, now)))
    ensures ViewOf(Unexpired(t.rows, now)) == LiveEntries(ViewOf(t.rows), now)
  {
    ViewRepresents(t.rows);
    UnexpiredRefines(t, ViewOf(t.rows), now);
    RepresentsOne(Unexpired(t.rows, now), LiveEntries(ViewOf(t.rows), now));
  }

  /** The live registrations with this one put in or replaced. A peer that was live keeps its cookie; any other gets
      one above all that were there. */
  predicate IsRegistered(t: Table, peer: PeerId, expires: int, descriptor: Descriptor, now: int, t': Table, r: Registered) {
    var live := LiveEntries(ViewOf(t.rows), now);
    && WellFormed(t')
    && ViewOf(t'.rows) == live[peer := Entry(expires, descriptor)]
    && r.refreshed == (peer in live)
    && Row(r.cookie, peer, expires, descriptor) in t'.rows
    && (r.refreshed ==> HasCookie(t.rows, peer, r.cookie))
    && (!r.refreshed ==> forall row :: row in t.rows ==> row.cookie < r.cookie)
  }

  lemma RegisterView(t: Table, peer: PeerId, expires: int, descriptor: Descriptor, now: int)
    requires WellFormed(t)
    ensures var (t', r) := AfterRegister(t, peer, expires, descriptor, now);
      IsRegistered(t, peer, expires, descriptor, now, t', r)
  {
    ViewRepresents(t.rows);
    RegisterRefines(t, ViewOf(t.rows), peer, expires, descriptor, now);
    hide AfterRegister, Represents, ViewOf, LiveEntries;
    RepresentsOne(AfterRegister(t, peer, expires, descriptor, now).0.rows,
                  LiveEntries(ViewOf(t.rows), now)[peer := Entry(expires, descriptor)]);
  }

  lemma UnregisterView(t: Table, peer: PeerId, now: int)
    requires WellFormed(t)
    ensures var (t', removed) := AfterUnregister(t, peer, now);
      var live := LiveEntries(ViewOf(t.rows), now);
      && WellFormed(t') && ViewOf(t'.rows) == live - {peer} && removed == if peer in live then 1 else 0
  {
    ViewRepresents(t.rows);
    UnregisterRefines(t, ViewOf(t.rows), peer, now);
    hide AfterUnregister, Represents, ViewOf, LiveEntries;
    RepresentsOne(AfterUnregister(t, peer, now).0.rows, LiveEntries(ViewOf(t.rows), now) - {peer});
  }

  datatype Request =
    | RegisterPeer(peer: PeerId, expires: int, descriptor: Descriptor, now: int)
    | UnregisterPeer(peer: PeerId, now: int)
    | DiscoverPeers(now: int)

  function Serve(t: Table, q: Request): Table {
    match q
    case RegisterPeer(peer, expires, descriptor, now) => AfterRegister(t, peer, expires, descriptor, now).0
    case UnregisterPeer(peer, now) => AfterUnregister(t, peer, now).0
    case DiscoverPeers(now) => t.(rows := Unexpired(t.rows, now))
  }

  function ServeMap(view: map<PeerId, Entry>, q: Request): map<PeerId, Entry> {
    match q
    case RegisterPeer(peer, expires, descriptor, now) => LiveEntries(view, now)[peer := Entry(expires, descriptor)]
    case UnregisterPeer(peer, now) => LiveEntries(view, now) - {peer}
    case DiscoverPeers(now) => LiveEntries(view, now)
  }

  function ServeAll(t: Table, qs: seq<Request>): Table {
    if qs == [] then t else Serve(ServeAll(t, qs[..|qs| - 1]), qs[|qs| - 1])
  }

  function ServeAllMap(view: map<PeerId, Entry>, qs: seq<Request>): map<PeerId, Entry> {
    if qs == [] then view else ServeMap(ServeAllMap(view, qs[..|qs| - 1]), qs[|qs| - 1])
  }

  lemma ServeRefines(t: Table, view: map<PeerId, Entry>, q: Request)
    requires WellFormed(t) && Represents(t.rows, view)
    ensures WellFormed(Serve(t, q)) && Represents(Serve(t, q).rows, ServeMap(view, q))
    ensures t.nextCookie <= Serve(t, q).nextCookie
  {
    match q
    case RegisterPeer(peer, expires, descriptor, now) => RegisterRefines(t, view, peer, expires, descriptor, now);
    case UnregisterPeer(peer, now) => UnregisterRefines(t, view, peer, now);
    case DiscoverPeers(now) => UnexpiredRefines(t, view, now);
  }

  /** From the empty store every sequence of requests refines the map, with one row for each peer. */
  lemma {:induction false} TableRefinesMap(qs: seq<Request>)
    ensures WellFormed(ServeAll(EMPTY_TABLE, qs))
    ensures Represents(ServeAll(EMPTY_TABLE, qs).rows, ServeAllMap(map[], qs))
  {
    if qs != [] {
      var before := qs[..|qs| - 1];
      TableRefinesMap(before);
      ServeRefines(ServeAll(EMPTY_TABLE, before), ServeAllMap(map[], before), qs[|qs| - 1]);
    }
  }

  /** A cookie is never given to a second peer: once a row has had it, every later row with that cookie is the
      same peer's. */
  lemma {:induction false} CookiesAreNeverReused(t: Table, view: map<PeerId, Entry>, qs: seq<Request>, first: Row, later: Row)
    requires WellFormed(t) && Represents(t.rows, view) && first in t.rows
    requires later in ServeAll(t, qs).rows && later.cookie == first.cookie
    ensures later.peer == first.peer
  {
    CookieOwner(t, view, qs, first);
  }

  lemma {:induction false} CookieOwner(t: Table, view: map<PeerId, Entry>, qs: seq<Request>, first: Row)
    requires WellFormed(t) && Represents(t.rows, view) && first in t.rows
    ensures var t' := ServeAll(t, qs);
            && WellFormed(t') && Represents(t'.rows, ServeAllMap(view, qs)) && first.cookie < t'.nextCookie
            && forall r :: r in t'.rows && r.cookie == first.cookie ==> r.peer == first.peer
  {
    var k :| 0 <= k < |t.rows| && t.rows[k] == first;
    if qs == [] {
    } else {
      var before := qs[..|qs| - 1];
      CookieOwner(t, view, before, first);
      ServeRefines(ServeAll(t, before), ServeAllMap(view, before), qs[|qs| - 1]);
      RowsComeFrom(ServeAll(t, before), ServeAllMap(view, before), qs[|qs| - 1]);
    }
  }

  /** Every row after a request was there before, up to expiry and descriptor, or has the next cookie. */
  lemma RowsComeFrom(t: Table, view: map<PeerId, Entry>, q: Request)
    requires WellFormed(t) && Represents(t.rows, view)
    ensures forall r :: r in Serve(t, q).rows ==>
              || r.cookie == t.nextCookie
              || exists prior :: prior in t.rows && prior.peer == r.peer && prior.cookie == r.cookie
  {
    forall r | r in Serve(t, q).rows && r.cookie != t.nextCookie
      ensures exists prior :: prior in t.rows && prior.peer == r.peer && prior.cookie == r.cookie
    {
      if q.RegisterPeer? {
        var rows := Unexpired(t.rows, q.now);
        var existing := OfPeer(rows, q.peer);
        if existing != [] {
          var updated := Updated(rows, existing[0].cookie, q.expires, q.descriptor);
          assert r in updated;
          var i :| 0 <= i < |updated| && updated[i] == r;
          assert rows[i] in rows;
          assert rows[i] in t.rows;
        } else {
          assert r in rows;
        }
      }
    }
  }
}
