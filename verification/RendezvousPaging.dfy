/** A client that pages through the registrations by passing the sequence of the last record it received,
    while other peers register, refresh, unregister and expire. */
module RendezvousPaging {
  import opened Bytes
  import opened Rendezvous

  datatype Event = Other(request: Request) | NextPage(limit: Option<nat>, now: int)

  /** `finished` when the last thing to happen was a page that was not full, by the limit that the service keeps. */
  datatype Client = Client(table: Table, cursor: nat, seen: seq<Row>, finished: bool)

  function TimeOf(e: Event): int {
    match e
    case Other(q) => q.now
    case NextPage(_, now) => now
  }

  function RecordsFor(c: Client, e: Event): seq<Row>
    requires e.NextPage?
  {
    PageOf(c.table.rows, e.now, c.cursor, PageLimit(e.limit)).records
  }

  function Observe(c: Client, e: Event): Client {
    match e
    case Other(q) => c.(table := Serve(c.table, q), finished := false)
    case NextPage(limit, now) =>
      var records := RecordsFor(c, e);
      Client(c.table.(rows := Unexpired(c.table.rows, now)),
             if records == [] then c.cursor else records[|records| - 1].cookie,
             c.seen + records,
             |records| < PageLimit(limit))
  }

  function ObserveAll(c: Client, events: seq<Event>): Client
    decreases |events|
  {
    if events == [] then c else ObserveAll(Observe(c, events[0]), events[1..])
  }

  predicate LiveAt(rows: seq<Row>, peer: PeerId, now: int) {
    exists i :: 0 <= i < |rows| && rows[i].peer == peer && rows[i].expires > now
  }

  /** The peer is registered and unexpired whenever something happens, and is still registered at the end. */
  predicate Stays(c: Client, events: seq<Event>, peer: PeerId)
    decreases |events|
  {
    if events == [] then HasRow(c.table.rows, peer)
    else LiveAt(c.table.rows, peer, TimeOf(events[0])) && Stays(Observe(c, events[0]), events[1..], peer)
  }

  function CountPeer(rows: seq<Row>, peer: PeerId): nat {
    if rows == [] then 0
    else CountPeer(rows[..|rows| - 1], peer) + if rows[|rows| - 1].peer == peer then 1 else 0
  }

  lemma {:induction false} CountConcat(a: seq<Row>, b: seq<Row>, peer: PeerId)
    ensures CountPeer(a + b, peer) == CountPeer(a, peer) + CountPeer(b, peer)
    decreases |b|
  {
    if b == [] {
      assert a + b == a;
    } else {
      assert (a + b)[..|a + b| - 1] == a + b[..|b| - 1];
      CountConcat(a, b[..|b| - 1], peer);
    }
  }

  lemma HasRowSplit(rows: seq<Row>, peer: PeerId)
    requires rows != []
    ensures HasRow(rows, peer) <==> HasRow(rows[..|rows| - 1], peer) || rows[|rows| - 1].peer == peer
  {
    var init := rows[..|rows| - 1];
    if HasRow(init, peer) {
      var i :| 0 <= i < |init| && init[i].peer == peer;
      assert rows[i].peer == peer;
    }
    if HasRow(rows, peer) {
      var i :| 0 <= i < |rows| && rows[i].peer == peer;
      assert i < |init| ==> init[i].peer == peer;
    }
  }

  lemma {:induction false} CountOnce(rows: seq<Row>, peer: PeerId)
    requires OnePerPeer(rows)
    ensures CountPeer(rows, peer) == if HasRow(rows, peer) then 1 else 0
  {
    if rows != [] {
      CountOnce(rows[..|rows| - 1], peer);
      HasRowSplit(rows, peer);
    }
  }

  /** A row with a new cookie belongs to a peer that was not live when the request arrived. */
  lemma NewCookieIsNewPeer(t: Table, view: map<PeerId, Entry>, q: Request, row: Row)
    requires WellFormed(t) && Represents(t.rows, view)
    requires row in Serve(t, q).rows && row.cookie == t.nextCookie
    ensures q.RegisterPeer? && row.peer !in LiveEntries(view, q.now)
  {
    if q.RegisterPeer? {
      RegisterRefines(t, view, q.peer, q.expires, q.descriptor, q.now);
      var (t', r) := AfterRegister(t, q.peer, q.expires, q.descriptor, q.now);
      hide AfterRegister, LiveEntries, Represents;
      var k :| 0 <= k < |t'.rows| && t'.rows[k] == row;
      var j :| 0 <= j < |t'.rows| && t'.rows[j] == Row(r.cookie, q.peer, q.expires, q.descriptor);
      assert row.cookie < t'.nextCookie;
      assert j == k;
    } else {
      StaysBelow(t, row, q.now);
    }
  }

  lemma LiveIsInView(rows: seq<Row>, view: map<PeerId, Entry>, peer: PeerId, now: int)
    requires Represents(rows, view) && LiveAt(rows, peer, now)
    ensures peer in LiveEntries(view, now)
  {
  }

  /** A peer that is live when a request arrives and still there afterwards has kept its cookie. */
  lemma RequestKeepsCookie(t: Table, view: map<PeerId, Entry>, q: Request, peer: PeerId, cookie: nat)
    requires WellFormed(t) && Represents(t.rows, view) && HasCookie(t.rows, peer, cookie)
    requires LiveAt(t.rows, peer, q.now) && HasRow(Serve(t, q).rows, peer)
    ensures HasCookie(Serve(t, q).rows, peer, cookie)
  {
    var row := TheRow(Serve(t, q).rows, peer);
    if row.cookie == t.nextCookie {
      NewCookieIsNewPeer(t, view, q, row);
      LiveIsInView(t.rows, view, peer, q.now);
    } else {
      RowsComeFrom(t, view, q);
      hide Serve, Represents, LiveAt, Ascending, Below;
      var prior :| prior in t.rows && prior.peer == row.peer && prior.cookie == row.cookie;
      OneCookie(t.rows, prior, cookie);
      ItsCookie(Serve(t, q).rows, row);
    }
  }

  lemma TheRow(rows: seq<Row>, peer: PeerId) returns (row: Row)
    requires HasRow(rows, peer)
    ensures row in rows && row.peer == peer
  {
    var k :| 0 <= k < |rows| && rows[k].peer == peer;
    row := rows[k];
  }

  lemma OneCookie(rows: seq<Row>, row: Row, cookie: nat)
    requires OnePerPeer(rows) && row in rows && HasCookie(rows, row.peer, cookie)
    ensures row.cookie == cookie
  {
    var k :| 0 <= k < |rows| && rows[k] == row;
  }

  lemma ItsCookie(rows: seq<Row>, row: Row)
    requires row in rows
    ensures HasCookie(rows, row.peer, row.cookie)
  {
    var k :| 0 <= k < |rows| && rows[k] == row;
  }

  lemma StaysBelow(t: Table, row: Row, now: int)
    requires WellFormed(t) && row in Unexpired(t.rows, now)
    ensures row.cookie < t.nextCookie
  {
    var i :| 0 <= i < |t.rows| && t.rows[i] == row;
  }

  /** What a page shows of a live peer: its record once if it lies beyond the cursor and not beyond the page's
      last record, and nothing of it otherwise. A page that is not full leaves nothing beyond it. */
  lemma PageShows(t: Table, now: int, cursor: nat, limit: nat, peer: PeerId, cookie: nat)
    requires WellFormed(t) && limit > 0
    requires exists i :: 0 <= i < |t.rows| && t.rows[i].peer == peer && t.rows[i].cookie == cookie && t.rows[i].expires > now
    ensures var records := PageOf(t.rows, now, cursor, limit).records;
            var cursor' := if records == [] then cursor else records[|records| - 1].cookie;
            && cursor <= cursor'
            && CountPeer(records, peer) == (if cursor < cookie <= cursor' then 1 else 0)
            && (|records| < limit ==> cookie <= cursor')
  {
    var k :| 0 <= k < |t.rows| && t.rows[k].peer == peer && t.rows[k].cookie == cookie && t.rows[k].expires > now;
    BeyondFinds(t, now, cursor, k);
    PrefixShows(Beyond(Unexpired(t.rows, now), now, cursor), limit, cursor, t.rows[k]);
  }

  lemma BeyondFinds(t: Table, now: int, cursor: nat, k: nat)
    requires WellFormed(t) && k < |t.rows| && t.rows[k].expires > now
    ensures var beyond := Beyond(Unexpired(t.rows, now), now, cursor);
            && Ascending(beyond) && OnePerPeer(beyond)
            && (t.rows[k] in beyond <==> t.rows[k].cookie > cursor)
            && (forall i :: 0 <= i < |beyond| ==>
                  cursor < beyond[i].cookie && (beyond[i].peer == t.rows[k].peer ==> beyond[i] == t.rows[k]))
  {
    var live := Unexpired(t.rows, now);
    var beyond := Beyond(live, now, cursor);
    WhereKeepsOrder(t.rows, (r: Row) => r.expires > now, t.nextCookie);
    WhereKeepsOrder(live, (r: Row) => r.expires > now && r.cookie > cursor, t.nextCookie);
    assert t.rows[k] in live;
    forall i | 0 <= i < |beyond|
      ensures cursor < beyond[i].cookie && (beyond[i].peer == t.rows[k].peer ==> beyond[i] == t.rows[k])
    {
      assert beyond[i] in beyond;
      assert beyond[i] in live;
      var j :| 0 <= j < |t.rows| && t.rows[j] == beyond[i];
    }
  }

  lemma PrefixShows(beyond: seq<Row>, limit: nat, cursor: nat, row: Row)
    requires Ascending(beyond) && OnePerPeer(beyond) && limit > 0
    requires row in beyond <==> row.cookie > cursor
    requires forall i :: 0 <= i < |beyond| ==> cursor < beyond[i].cookie && (beyond[i].peer == row.peer ==> beyond[i] == row)
    ensures var records := Take(beyond, limit);
            var cursor' := if records == [] then cursor else records[|records| - 1].cookie;
            && cursor <= cursor'
            && CountPeer(records, row.peer) == (if cursor < row.cookie <= cursor' then 1 else 0)
            && (|records| < limit ==> row.cookie <= cursor')
  {
    var records := Take(beyond, limit);
    CountOnce(records, row.peer);
    if row in beyond {
      var k :| 0 <= k < |beyond| && beyond[k] == row;
      if k < |records| {
        assert records[k] == row;
      }
    }
  }

  /** The law of the cursor: what lies at or below it has been seen once and the rest not at all, and nothing
      lies beyond it when the last page was not full. */
  predicate SeenUpToCursor(c: Client, peer: PeerId, cookie: nat) {
    && CountPeer(c.seen, peer) == (if cookie <= c.cursor then 1 else 0)
    && (c.finished ==> cookie <= c.cursor)
  }

  lemma EventKeepsLaw(c: Client, view: map<PeerId, Entry>, e: Event, peer: PeerId, cookie: nat)
    requires WellFormed(c.table) && Represents(c.table.rows, view) && HasCookie(c.table.rows, peer, cookie)
    requires SeenUpToCursor(c, peer, cookie)
    requires LiveAt(c.table.rows, peer, TimeOf(e)) && HasRow(Observe(c, e).table.rows, peer)
    ensures var c' := Observe(c, e);
            && WellFormed(c'.table)
            && Represents(c'.table.rows, ServeMap(view, if e.Other? then e.request else DiscoverPeers(e.now)))
            && HasCookie(c'.table.rows, peer, cookie)
            && SeenUpToCursor(c', peer, cookie)
  {
    var q := if e.Other? then e.request else DiscoverPeers(e.now);
    ServeRefines(c.table, view, q);
    RequestKeepsCookie(c.table, view, q, peer, cookie);
    if e.NextPage? {
      PageKeepsLaw(c, e.limit, e.now, peer, cookie);
    }
  }

  lemma PageKeepsLaw(c: Client, limit: Option<nat>, now: int, peer: PeerId, cookie: nat)
    requires WellFormed(c.table) && HasCookie(c.table.rows, peer, cookie) && LiveAt(c.table.rows, peer, now)
    requires SeenUpToCursor(c, peer, cookie)
    ensures SeenUpToCursor(Observe(c, NextPage(limit, now)), peer, cookie)
  {
    var e := NextPage(limit, now);
    var i :| 0 <= i < |c.table.rows| && c.table.rows[i].peer == peer && c.table.rows[i].expires > now;
    PageShows(c.table, now, c.cursor, PageLimit(limit), peer, cookie);
    hide PageOf, Ascending, Below, OnePerPeer;
    CountConcat(c.seen, RecordsFor(c, e), peer);
  }

  lemma {:induction false} LawHolds(c: Client, view: map<PeerId, Entry>, events: seq<Event>, peer: PeerId, cookie: nat)
    requires WellFormed(c.table) && Represents(c.table.rows, view) && HasCookie(c.table.rows, peer, cookie)
    requires SeenUpToCursor(c, peer, cookie) && Stays(c, events, peer)
    ensures SeenUpToCursor(ObserveAll(c, events), peer, cookie)
    decreases |events|
  {
    hide WellFormed, Represents, HasCookie, SeenUpToCursor, Observe, ServeMap, LiveAt, HasRow;
    if events != [] {
      var e, rest := events[0], events[1..];
      var c' := Observe(c, e);
      assert HasRow(c'.table.rows, peer) by { StillThere(c', rest, peer); }
      EventKeepsLaw(c, view, e, peer, cookie);
      LawHolds(c', ServeMap(view, if e.Other? then e.request else DiscoverPeers(e.now)), rest, peer, cookie);
    }
  }

  lemma StillThere(c: Client, events: seq<Event>, peer: PeerId)
    requires Stays(c, events, peer)
    ensures HasRow(c.table.rows, peer)
  {
  }

  /** A peer that stays registered while a client pages from the beginning is shown at most once, and exactly
      once when the client has reached a page that was not full. */
  lemma PagingShowsEveryStayerOnce(t: Table, view: map<PeerId, Entry>, events: seq<Event>, peer: PeerId)
    requires WellFormed(t) && Represents(t.rows, view) && HasRow(t.rows, peer)
    requires Stays(Client(t, 0, [], false), events, peer)
    ensures var c := ObserveAll(Client(t, 0, [], false), events);
            CountPeer(c.seen, peer) <= 1 && (c.finished ==> CountPeer(c.seen, peer) == 1)
  {
    var i :| 0 <= i < |t.rows| && t.rows[i].peer == peer;
    LawHolds(Client(t, 0, [], false), view, events, peer, t.rows[i].cookie);
  }

  /** A client that takes a page for the last because it is shorter than what it asked for misses registrations
      exactly when it asked for more than 128 and more than 128 are left. */
  lemma ShortPageMisleadsExactly(t: Table, now: int, cursor: nat, requested: nat)
    ensures var records := PageOf(t.rows, now, cursor, PageLimit(Some(requested))).records;
            |records| < requested && |records| < |Beyond(Unexpired(t.rows, now), now, cursor)|
            <==> 128 < requested && 128 < |Beyond(Unexpired(t.rows, now), now, cursor)|
  {
    hide Beyond, Unexpired;
  }

  // ---------------------------------------------------------------------------------------------
  // The response's own cookie.

  lemma {:induction false} MaxCookieBounds(rows: seq<Row>)
    ensures forall r :: r in rows ==> r.cookie <= MaxCookie(rows)
  {
    if rows != [] {
      MaxCookieBounds(rows[..|rows| - 1]);
      assert rows == rows[..|rows| - 1] + [rows[|rows| - 1]];
    }
  }

  /** The cookie that a response carries is the largest in the store: going on from there instead of from the
      last record skips live registrations exactly when the limit cut the page short. */
  lemma ResponseCookieSkipsExactly(t: Table, now: int, cursor: nat, limit: nat)
    requires WellFormed(t)
    ensures var live := Unexpired(t.rows, now);
            var page := PageOf(t.rows, now, cursor, limit);
            (exists r :: r in live && cursor < r.cookie <= page.cookie && r !in page.records)
            <==> |Beyond(live, now, cursor)| > limit
  {
    var live := Unexpired(t.rows, now);
    var beyond := Beyond(live, now, cursor);
    var page := PageOf(t.rows, now, cursor, limit);
    MaxCookieBounds(live);
    WhereKeepsOrder(t.rows, (r: Row) => r.expires > now, t.nextCookie);
    WhereKeepsOrder(live, (r: Row) => r.expires > now && r.cookie > cursor, t.nextCookie);
    if |beyond| > limit {
      var r := beyond[limit];
      assert r in beyond && r in live;
      assert forall k :: 0 <= k < |page.records| ==> page.records[k] == beyond[k] && beyond[k] != r;
      assert r !in page.records;
    } else {
      forall r | r in live && cursor < r.cookie
        ensures r in page.records
      {
        assert r in t.rows;
        assert r in beyond;
      }
    }
  }
}
