/** How long a registration is shown, from the seconds that were asked for. */
module RendezvousLifetimes {
  import opened Bytes
  import opened Rendezvous

  /** A request as the service receives it. */
  datatype Asked =
    | AskRegister(peer: PeerId, ttlSeconds: nat, descriptor: Descriptor, now: int)
    | AskUnregister(peer: PeerId, now: int)
    | AskDiscover(now: int)

  /** The request that a service with this cap serves, as `RendezvousShard.Register` does. */
  function Granted(q: Asked, cap: nat): Request {
    match q
    case AskRegister(peer, ttlSeconds, descriptor, now) => RegisterPeer(peer, ExpiryAt(now, ttlSeconds, cap), descriptor, now)
    case AskUnregister(peer, now) => UnregisterPeer(peer, now)
    case AskDiscover(now) => DiscoverPeers(now)
  }

  function GrantedAll(qs: seq<Asked>, cap: nat): (granted: seq<Request>)
    ensures |granted| == |qs|
  {
    seq(|qs|, i requires 0 <= i < |qs| => Granted(qs[i], cap))
  }

  lemma GrantedOneMore(qs: seq<Asked>, cap: nat)
    requires qs != []
    ensures var n := |qs| - 1;
      var granted := GrantedAll(qs, cap);
      granted[..n] == GrantedAll(qs[..n], cap) && granted[n] == Granted(qs[n], cap)
  {
  }

  /** A client that asks at this instant, with a cursor and a limit of its choice, is shown the peer. */
  ghost predicate IsShown(t: Table, peer: PeerId, at: int) {
    exists after: nat, limit: Option<nat>, row :: row in PageOf(t.rows, at, after, PageLimit(limit)).records && row.peer == peer
  }

  lemma ShownExactly(t: Table, peer: PeerId, at: int)
    requires WellFormed(t)
    ensures IsShown(t, peer, at) <==> peer in LiveEntries(ViewOf(t.rows), at)
  {
    ViewRepresents(t.rows);
    var live := Unexpired(t.rows, at);
    if IsShown(t, peer, at) {
      var after: nat, limit: Option<nat>, row :| row in PageOf(t.rows, at, after, PageLimit(limit)).records && row.peer == peer;
      assert row in Beyond(live, at, after);
      assert row in live;
      assert row in t.rows;
      var i :| 0 <= i < |t.rows| && t.rows[i] == row;
    }
    if peer in LiveEntries(ViewOf(t.rows), at) {
      assert HasRow(t.rows, peer);
      var i :| 0 <= i < |t.rows| && t.rows[i].peer == peer;
      FirstBeyond(t, i, at);
    }
  }

  /** The page from just below a live row begins with it. */
  lemma FirstBeyond(t: Table, i: nat, at: int)
    requires WellFormed(t) && i < |t.rows| && at < t.rows[i].expires
    ensures t.rows[i] in PageOf(t.rows, at, t.rows[i].cookie - 1, PageLimit(None)).records
    ensures IsShown(t, t.rows[i].peer, at)
  {
    var row, after := t.rows[i], t.rows[i].cookie - 1;
    var live := Unexpired(t.rows, at);
    var beyond := Beyond(live, at, after);
    WhereKeepsOrder(t.rows, (r: Row) => r.expires > at, t.nextCookie);
    WhereKeepsOrder(live, (r: Row) => r.expires > at && r.cookie > after, t.nextCookie);
    assert row in t.rows && row in live && row in beyond;
    var k :| 0 <= k < |beyond| && beyond[k] == row;
    assert beyond[0] in beyond && beyond[0].cookie > after;
    assert k == 0;
    assert PageOf(t.rows, at, after, PageLimit(None)).records[0] == row;
  }

  /** No request of the peer's own, and none later than the instant. */
  predicate LeftAlone(qs: seq<Asked>, peer: PeerId, at: int) {
    forall i :: 0 <= i < |qs| ==> qs[i].now <= at && (qs[i].AskDiscover? || qs[i].peer != peer)
  }

  lemma {:induction false} EntryStays(view: map<PeerId, Entry>, qs: seq<Asked>, cap: nat, peer: PeerId, entry: Entry, at: int)
    requires LeftAlone(qs, peer, at) && peer in view && view[peer] == entry
    ensures var view' := ServeAllMap(view, GrantedAll(qs, cap));
      && (peer in view' ==> view'[peer] == entry)
      && (at < entry.expires ==> peer in view')
  {
    if qs != [] {
      var n := |qs| - 1;
      EntryStays(view, qs[..n], cap, peer, entry, at);
      GrantedOneMore(qs, cap);
      assert qs[n].now <= at && (qs[n].AskDiscover? || qs[n].peer != peer);
      hide ExpiryAt, GrantedAll;
    }
  }

  /** The time that a registration lasts, in milliseconds: the seconds asked for, at least one, at most the cap. */
  function Lifetime(ttlSeconds: nat, cap: nat): nat {
    if cap < ttlSeconds then 1000 * cap else if ttlSeconds == 0 then 1000 else 1000 * ttlSeconds
  }

  /** A peer that registers is shown at every instant before its lifetime is over and at none from then on, as long as
      it does not refresh or unregister, whatever the others do; what is shown is the descriptor it registered. */
  lemma ShownExactlyForItsLifetime(t: Table, q: Asked, cap: nat, later: seq<Asked>, at: int)
    requires WellFormed(t) && q.AskRegister? && 0 < cap && q.now <= at && LeftAlone(later, q.peer, at)
    ensures var t' := ServeAll(Serve(t, Granted(q, cap)), GrantedAll(later, cap));
      && (IsShown(t', q.peer, at) <==> at < q.now + Lifetime(q.ttlSeconds, cap))
      && (forall row :: row in t'.rows && row.peer == q.peer ==> row.descriptor == q.descriptor)
  {
    var view := ViewOf(t.rows);
    ViewRepresents(t.rows);
    ServeRefines(t, view, Granted(q, cap));
    var registered, entries := Serve(t, Granted(q, cap)), ServeMap(view, Granted(q, cap));
    assert ExpiryAt(q.now, q.ttlSeconds, cap) == q.now + Lifetime(q.ttlSeconds, cap);
    hide Serve, WellFormed, ExpiryAt;
    EntryStays(entries, later, cap, q.peer, Entry(q.now + Lifetime(q.ttlSeconds, cap), q.descriptor), at);
    AllRefine(registered, entries, GrantedAll(later, cap));
    var t' := ServeAll(registered, GrantedAll(later, cap));
    RepresentsOne(t'.rows, ServeAllMap(entries, GrantedAll(later, cap))) by { assert OnePerPeer(t'.rows); }
    ShownExactly(t', q.peer, at);
    hide ServeAll, ServeAllMap, IsShown, ViewOf;
    forall row | row in t'.rows && row.peer == q.peer ensures row.descriptor == q.descriptor {
      var i :| 0 <= i < |t'.rows| && t'.rows[i] == row;
    }
  }

  lemma {:induction false} AllRefine(t: Table, view: map<PeerId, Entry>, qs: seq<Request>)
    requires WellFormed(t) && Represents(t.rows, view)
    ensures WellFormed(ServeAll(t, qs)) && OnePerPeer(ServeAll(t, qs).rows)
    ensures Represents(ServeAll(t, qs).rows, ServeAllMap(view, qs))
  {
    if qs != [] {
      AllRefine(t, view, qs[..|qs| - 1]);
      ServeRefines(ServeAll(t, qs[..|qs| - 1]), ServeAllMap(view, qs[..|qs| - 1]), qs[|qs| - 1]);
    }
    hide Represents, Serve, ServeMap, Ascending, Below;
  }
}
