/** The keepalive arithmetic of crates/peerline-net/src/rendezvous.rs against the server's expiry. */
module Keepalive {
  import opened Bytes
  import opened Rendezvous
  import opened RendezvousLifetimes

  /** A duration is its number of nanoseconds. */
  type Duration = nat

  const SECOND: Duration := 1_000_000_000
  const DEFAULT_MAX_TTL_SECS: nat := 180
  const REGISTRATION_TOLERANCE_SECS: nat := 60

  function AsSecs(d: Duration): nat {
    d / SECOND
  }

  function Min(a: nat, b: nat): nat {
    if a < b then a else b
  }

  function Max(a: nat, b: nat): nat {
    if a > b then a else b
  }

  function ToleranceSecs(ttlSecs: nat): nat {
    if ttlSecs <= 1 then 0 else Min(Max(ttlSecs / 2, 1), REGISTRATION_TOLERANCE_SECS)
  }

  function ClientTtlSecs(ttl: Duration): nat {
    Max(AsSecs(Min(ttl, DEFAULT_MAX_TTL_SECS * SECOND)), 1)
  }

  /** The seconds between two refreshes, `normalize_registration_keepalive`. */
  function KeepaliveSecs(ttl: Duration, requested: Duration): nat {
    var ttlSecs := ClientTtlSecs(ttl);
    var tolerance := ToleranceSecs(ttlSecs);
    var latest := Max(if ttlSecs < tolerance then 0 else ttlSecs - tolerance, 1);
    Min(Max(AsSecs(requested), 1), latest)
  }

  /** The seconds that a client asks for when it publishes its descriptor. */
  function RequestedTtlSecs(ttl: Duration): nat {
    Clamp(AsSecs(ttl), 1, U32_LIMIT - 1)
  }

  /** A whole number of seconds that a registration with this ttl can live: within the ttl, though at least one, and
      within the three minutes of the default cap. */
  predicate IsLifetime(ttl: Duration, n: nat) {
    n <= 180 && (n <= 1 || n * 1_000_000_000 <= ttl)
  }

  /** The client reckons with the lifetime that a server with the default cap grants: the longest there can be. */
  lemma ClientKnowsItsLifetime(ttl: Duration)
    ensures Lifetime(RequestedTtlSecs(ttl), DEFAULT_MAX_TTL_SECS) == 1000 * ClientTtlSecs(ttl)
    ensures IsLifetime(ttl, ClientTtlSecs(ttl)) && forall n: nat :: IsLifetime(ttl, n) ==> n <= ClientTtlSecs(ttl)
  {
    if ttl < DEFAULT_MAX_TTL_SECS * SECOND {
      assert AsSecs(ttl) < DEFAULT_MAX_TTL_SECS;
    } else {
      assert AsSecs(ttl) >= DEFAULT_MAX_TTL_SECS;
      assert AsSecs(DEFAULT_MAX_TTL_SECS * SECOND) == DEFAULT_MAX_TTL_SECS;
    }
  }

  /** A tolerance of which a lifetime leaves as much again, at most a minute. */
  predicate IsTolerance(lifetime: nat, n: nat) {
    n <= 60 && 2 * n <= lifetime
  }

  /** The tolerance is the greatest there can be; so it is at least a second exactly from two seconds on. */
  lemma ToleranceIsGreatest(lifetime: nat)
    ensures IsTolerance(lifetime, ToleranceSecs(lifetime))
    ensures forall n: nat :: IsTolerance(lifetime, n) ==> n <= ToleranceSecs(lifetime)
    ensures 1 <= ToleranceSecs(lifetime) <==> 2 <= lifetime
  {
  }

  /** A whole number of seconds within what is requested, though at least one, that leaves the tolerance. */
  predicate IsInterval(ttl: Duration, requested: Duration, n: nat) {
    (n <= 1 || n * 1_000_000_000 <= requested) && n + ToleranceSecs(ClientTtlSecs(ttl)) <= ClientTtlSecs(ttl)
  }

  /** The interval between refreshes is the greatest there can be. */
  lemma IntervalIsGreatest(ttl: Duration, requested: Duration)
    ensures 1 <= KeepaliveSecs(ttl, requested) && IsInterval(ttl, requested, KeepaliveSecs(ttl, requested))
    ensures forall n: nat :: IsInterval(ttl, requested, n) ==> n <= KeepaliveSecs(ttl, requested)
  {
    ToleranceIsGreatest(ClientTtlSecs(ttl));
  }

  /** What is requested is taken exactly when it is at least a second and leaves the tolerance. */
  lemma RequestIsHonouredExactly(ttl: Duration, seconds: nat)
    ensures KeepaliveSecs(ttl, seconds * 1_000_000_000) == seconds
            <==> 1 <= seconds && seconds + ToleranceSecs(ClientTtlSecs(ttl)) <= ClientTtlSecs(ttl)
  {
    IntervalIsGreatest(ttl, seconds * 1_000_000_000);
    assert IsInterval(ttl, seconds * 1_000_000_000, seconds)
           <==> seconds + ToleranceSecs(ClientTtlSecs(ttl)) <= ClientTtlSecs(ttl);
    hide ToleranceSecs, ClientTtlSecs, KeepaliveSecs;
  }

  /** Whatever keepalive is requested, a refresh comes earlier than the end of the lifetime by the tolerance; with a
      lifetime of one second it comes exactly when the registration ends. */
  lemma RefreshLeavesTolerance(ttl: Duration, requested: Duration)
    ensures var lifetime := ClientTtlSecs(ttl);
            && 1 <= KeepaliveSecs(ttl, requested)
            && KeepaliveSecs(ttl, requested) + ToleranceSecs(lifetime) <= lifetime
            && (KeepaliveSecs(ttl, requested) < lifetime <==> 2 <= lifetime)
  {
  }

  // ---------------------------------------------------------------------------------------------
  // Runs of the server.

  /** When the peer last registered, in milliseconds. */
  function LastRefresh(qs: seq<Asked>, peer: PeerId): Option<int> {
    if qs == [] then None
    else
      var last := qs[|qs| - 1];
      if last.AskRegister? && last.peer == peer then Some(last.now) else LastRefresh(qs[..|qs| - 1], peer)
  }

  /** A run in which the peer asks for these seconds each time, never unregisters, and no request of anybody reaches
      the server more than `gap` milliseconds after the peer's latest refresh. */
  predicate Refreshed(qs: seq<Asked>, peer: PeerId, ttlSeconds: nat, gap: int) {
    qs != [] ==>
      var before, q := qs[..|qs| - 1], qs[|qs| - 1];
      && Refreshed(before, peer, ttlSeconds, gap)
      && !(q.AskUnregister? && q.peer == peer)
      && (q.AskRegister? && q.peer == peer ==> q.ttlSeconds == ttlSeconds)
      && (LastRefresh(before, peer).Some? ==> q.now <= LastRefresh(before, peer).value + gap)
  }

  /** The table of a default server after these requests. */
  function ServedTable(qs: seq<Asked>): Table {
    ServeAll(EMPTY_TABLE, GrantedAll(qs, DEFAULT_MAX_TTL_SECS))
  }

  function ServedView(qs: seq<Asked>): map<PeerId, Entry> {
    ServeAllMap(map[], GrantedAll(qs, DEFAULT_MAX_TTL_SECS))
  }

  lemma ServedOneMore(qs: seq<Asked>)
    requires qs != []
    ensures ServedView(qs) == ServeMap(ServedView(qs[..|qs| - 1]), Granted(qs[|qs| - 1], DEFAULT_MAX_TTL_SECS))
  {
    GrantedOneMore(qs, DEFAULT_MAX_TTL_SECS);
    hide GrantedAll, ServeMap, Granted;
  }

  lemma {:induction false} EntryOutlivesGap(qs: seq<Asked>, peer: PeerId, ttlSeconds: nat, gap: int)
    requires Refreshed(qs, peer, ttlSeconds, gap) && gap < Lifetime(ttlSeconds, DEFAULT_MAX_TTL_SECS)
    ensures var view := ServedView(qs);
            LastRefresh(qs, peer).Some? ==>
              && peer in view
              && view[peer].expires == LastRefresh(qs, peer).value + Lifetime(ttlSeconds, DEFAULT_MAX_TTL_SECS)
  {
    if qs != [] {
      EntryOutlivesGap(qs[..|qs| - 1], peer, ttlSeconds, gap);
      ServedOneMore(qs);
      hide ServedView;
    }
  }

  /** Whoever asks at this instant, with a cursor and a limit of its choice, is shown the peer. */
  ghost predicate IsLive(qs: seq<Asked>, peer: PeerId, at: int) {
    IsShown(ServedTable(qs), peer, at)
  }

  lemma LiveExactly(qs: seq<Asked>, peer: PeerId, at: int)
    ensures IsLive(qs, peer, at) <==> peer in ServedView(qs) && at < ServedView(qs)[peer].expires
  {
    TableRefinesMap(GrantedAll(qs, DEFAULT_MAX_TTL_SECS));
    RepresentsOne(ServedTable(qs).rows, ServedView(qs));
    ShownExactly(ServedTable(qs), peer, at);
    hide ServeAll, ServeAllMap, GrantedAll, IsShown, ViewOf;
  }

  /** In this run, with refreshes that are late by at most `delay` milliseconds, the instant lies between the
      peer's latest refresh and the time when its next one is there. */
  predicate IsKept(qs: seq<Asked>, peer: PeerId, ttl: Duration, requested: Duration, delay: nat, at: int) {
    var gap := 1000 * KeepaliveSecs(ttl, requested) + delay;
    && Refreshed(qs, peer, RequestedTtlSecs(ttl), gap)
    && LastRefresh(qs, peer).Some?
    && LastRefresh(qs, peer).value <= at <= LastRefresh(qs, peer).value + gap
  }

  /** The registration never lapses. With a lifetime of at least two seconds, any requested keepalive, and
      refreshes that reach the server late by less than the tolerance, whoever looks is shown the peer at every
      instant from its first registration until its next refresh is due. */
  lemma RegistrationNeverLapses(qs: seq<Asked>, peer: PeerId, ttl: Duration, requested: Duration, delay: nat, at: int)
    requires 2 <= ClientTtlSecs(ttl) && delay < 1000 * ToleranceSecs(ClientTtlSecs(ttl))
    requires IsKept(qs, peer, ttl, requested, delay, at)
    ensures IsLive(qs, peer, at)
  {
    ClientKnowsItsLifetime(ttl);
    RefreshLeavesTolerance(ttl, requested);
    EntryOutlivesGap(qs, peer, RequestedTtlSecs(ttl), 1000 * KeepaliveSecs(ttl, requested) + delay);
    LiveExactly(qs, peer, at);
    hide IsLive, ServedView, Refreshed, LastRefresh;
  }

  /** With a lifetime under two seconds a refresh that is not late at all finds its registration gone. */
  lemma ShortLifetimeLapses(ttl: Duration, peer: PeerId, descriptor: Descriptor, now: int, requested: Duration)
    requires ClientTtlSecs(ttl) < 2
    ensures KeepaliveSecs(ttl, requested) == 1
    ensures var first := AskRegister(peer, RequestedTtlSecs(ttl), descriptor, now);
            var due := now + 1000 * KeepaliveSecs(ttl, requested);
            && IsKept([first], peer, ttl, requested, 0, due) && !IsLive([first], peer, due)
            && !AfterRegister(ServedTable([first]), peer, due + 1000, descriptor, due).1.refreshed
  {
    ClientKnowsItsLifetime(ttl);
    RefreshLeavesTolerance(ttl, requested);
    var first := AskRegister(peer, RequestedTtlSecs(ttl), descriptor, now);
    assert ClientTtlSecs(ttl) == 1 && KeepaliveSecs(ttl, requested) == 1;
    hide ClientTtlSecs, RequestedTtlSecs, KeepaliveSecs;
    assert Refreshed([first], peer, RequestedTtlSecs(ttl), 1000) && LastRefresh([first], peer) == Some(now) by {
      assert [first][..0] == [];
    }
    OneRegistration(first);
    hide ServedTable, AfterRegister, IsKept, IsLive;
  }

  /** One registration is shown until it expires, and when it has expired the peer counts as new. */
  lemma OneRegistration(q: Asked)
    requires q.AskRegister?
    ensures var end := q.now + Lifetime(q.ttlSeconds, DEFAULT_MAX_TTL_SECS);
            && !IsLive([q], q.peer, end)
            && !AfterRegister(ServedTable([q]), q.peer, end + 1000, q.descriptor, end).1.refreshed
  {
    var end := q.now + Lifetime(q.ttlSeconds, DEFAULT_MAX_TTL_SECS);
    assert [q][..0] == [] && GrantedAll([], DEFAULT_MAX_TTL_SECS) == [];
    ServedOneMore([q]);
    assert ServedView([q]) == map[q.peer := Entry(end, q.descriptor)];
    LiveExactly([q], q.peer, end);
    TableRefinesMap(GrantedAll([q], DEFAULT_MAX_TTL_SECS));
    hide ServeAll, ServeAllMap;
    RegisterRefines(ServedTable([q]), ServedView([q]), q.peer, end + 1000, q.descriptor, end);
    hide AfterRegister, IsLive;
  }

  /** Punctual refreshes keep a registration through every run. */
  ghost predicate PunctualIsEnough(ttl: Duration) {
    forall qs, peer, requested: Duration, at: int :: IsKept(qs, peer, ttl, requested, 0, at) ==> IsLive(qs, peer, at)
  }

  /** They do so exactly when the lifetime is at least two seconds. */
  lemma PunctualIsEnoughExactly(ttl: Duration)
    ensures PunctualIsEnough(ttl) <==> 2 <= ClientTtlSecs(ttl)
  {
    if 2 <= ClientTtlSecs(ttl) {
      ToleranceIsGreatest(ClientTtlSecs(ttl));
      forall qs, peer, requested: Duration, at: int | IsKept(qs, peer, ttl, requested, 0, at) ensures IsLive(qs, peer, at) {
        RegistrationNeverLapses(qs, peer, ttl, requested, 0, at);
      }
    } else {
      ShortLifetimeLapses(ttl, "", [], 0, 0);
    }
  }
}
