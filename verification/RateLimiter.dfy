/** The fixed-window rate limiter of services/peerline-rendezvous/src/lib.rs. */
module RateLimiter {
  const RATE_WINDOW_MS: int := 60000

  /** Namespace, method and client address. */
  type Key = string

  datatype Window = Window(start: int, count: nat)

  function WindowOf(now: int): int {
    now - now % RATE_WINDOW_MS
  }

  function Bumped(limits: map<Key, Window>, key: Key, now: int, limit: nat): map<Key, Window> {
    if key !in limits || limits[key].start != WindowOf(now) then limits[key := Window(WindowOf(now), 1)]
    else if limits[key].count + 1 > limit + 1 then limits[key := Window(WindowOf(now), limit + 1)]
    else limits[key := Window(WindowOf(now), limits[key].count + 1)]
  }

  function CleanedUp(limits: map<Key, Window>, now: int): map<Key, Window> {
    map key | key in limits && !(limits[key].start < now - RATE_WINDOW_MS * 2) :: limits[key]
  }

  class RateLimits {
    var limits: map<Key, Window>

    constructor ()
      ensures limits == map[]
    {
      limits := map[];
    }

    method EnforceRateLimit(key: Key, now: int, limit: nat) returns (allowed: bool)
      modifies this
      ensures limits == Bumped(old(limits), key, now, limit)
      ensures allowed == (limits[key].count <= limit)
    {
      var windowStart := now - now % RATE_WINDOW_MS;
      var limitPlusOne := limit + 1;
      if key !in limits {
        limits := limits[key := Window(windowStart, 1)];
      } else {
        var row := limits[key];
        limits := limits[key := Window(
          if row.start != windowStart then windowStart else row.start,
          if row.start != windowStart then 1
          else if row.count + 1 > limitPlusOne then limitPlusOne
          else row.count + 1)];
      }
      allowed := limits[key].count <= limit;
    }

    method CleanupExpired(now: int)
      modifies this
      ensures limits == CleanedUp(old(limits), now)
      ensures forall key :: key in limits <==> key in old(limits) && now <= old(limits)[key].start + 2 * RATE_WINDOW_MS
      ensures forall key :: key in limits ==> limits[key] == old(limits)[key]
      ensures forall key :: key in old(limits) && WindowOf(now) - RATE_WINDOW_MS <= old(limits)[key].start ==> key in limits
    {
      limits := map key | key in limits && !(limits[key].start < now - RATE_WINDOW_MS * 2) :: limits[key];
    }
  }

  // ---------------------------------------------------------------------------------------------
  // Runs under a clock that does not go back. Every key has its limit: the method is part of the key.

  datatype Event = Call(key: Key, now: int) | Cleanup(now: int)

  datatype Answer = Answer(key: Key, now: int, allowed: bool)

  /** The limiter, its clock and the answers it has given. */
  datatype State = State(limits: map<Key, Window>, clock: int, answers: seq<Answer>)

  function Handle(limitOf: Key -> nat, s: State, e: Event): State {
    match e
    case Call(key, now) =>
      var limits := Bumped(s.limits, key, now, limitOf(key));
      State(limits, now, s.answers + [Answer(key, now, limits[key].count <= limitOf(key))])
    case Cleanup(now) => State(CleanedUp(s.limits, now), now, s.answers)
  }

  function HandleAll(limitOf: Key -> nat, s: State, events: seq<Event>): State
    decreases |events|
  {
    if events == [] then s else HandleAll(limitOf, Handle(limitOf, s, events[0]), events[1..])
  }

  predicate InOrder(clock: int, events: seq<Event>) {
    && (events != [] ==> clock <= events[0].now)
    && forall i :: 0 < i < |events| ==> events[i - 1].now <= events[i].now
  }

  function Opening(clock: int): State {
    State(map[], clock, [])
  }

  /** How often the key was called in the window that starts at `start`. */
  function CallsIn(answers: seq<Answer>, key: Key, start: int): nat {
    if answers == [] then 0
    else
      var last := answers[|answers| - 1];
      CallsIn(answers[..|answers| - 1], key, start)
      + if last.key == key && WindowOf(last.now) == start then 1 else 0
  }

  /** Each call was allowed exactly when fewer than the limit came before it in its window. */
  predicate Fair(limitOf: Key -> nat, answers: seq<Answer>) {
    forall i :: 0 <= i < |answers| ==>
      (answers[i].allowed <==>
        CallsIn(answers[..i], answers[i].key, WindowOf(answers[i].now)) < limitOf(answers[i].key))
  }

  predicate NoneAfter(answers: seq<Answer>, key: Key, start: int) {
    forall i :: 0 <= i < |answers| && answers[i].key == key ==> WindowOf(answers[i].now) <= start
  }

  predicate Tracks(limitOf: Key -> nat, s: State, key: Key) {
    if key in s.limits then
      var w := s.limits[key];
      && w.start <= WindowOf(s.clock)
      && NoneAfter(s.answers, key, w.start)
      && w.count == (if CallsIn(s.answers, key, w.start) > limitOf(key) then limitOf(key) + 1
                     else CallsIn(s.answers, key, w.start))
    else NoneAfter(s.answers, key, WindowOf(s.clock) - 1)
  }

  ghost predicate Consistent(limitOf: Key -> nat, s: State) {
    && (forall key :: Tracks(limitOf, s, key))
    && Fair(limitOf, s.answers)
  }

  lemma WindowsInOrder(a: int, b: int)
    requires a <= b
    ensures WindowOf(a) <= WindowOf(b) <= b < WindowOf(b) + RATE_WINDOW_MS
    ensures b < a + RATE_WINDOW_MS ==> WindowOf(b) <= WindowOf(a) + RATE_WINDOW_MS
  {
    assert WindowOf(a) == RATE_WINDOW_MS * (a / RATE_WINDOW_MS);
    assert WindowOf(b) == RATE_WINDOW_MS * (b / RATE_WINDOW_MS);
    assert a / RATE_WINDOW_MS <= b / RATE_WINDOW_MS;
  }

  lemma {:induction false} NoCallsBeyond(answers: seq<Answer>, key: Key, last: int, start: int)
    requires NoneAfter(answers, key, last) && last < start
    ensures CallsIn(answers, key, start) == 0
  {
    if answers != [] {
      NoCallsBeyond(answers[..|answers| - 1], key, last, start);
    }
  }

  lemma CallStaysConsistent(limitOf: Key -> nat, s: State, key: Key, now: int)
    requires Consistent(limitOf, s) && s.clock <= now
    ensures Consistent(limitOf, Handle(limitOf, s, Call(key, now)))
  {
    hide Tracks, Fair, Handle;
    var s' := Handle(limitOf, s, Call(key, now));
    forall k ensures Tracks(limitOf, s', k) {
      assert Tracks(limitOf, s, k);
      if k == key {
        OwnCallTracks(limitOf, s, key, now);
      } else {
        OtherCallTracks(limitOf, s, key, now, k);
      }
    }
    assert Tracks(limitOf, s, key);
    CallIsFair(limitOf, s, key, now);
  }

  lemma CallsAndOne(answers: seq<Answer>, answer: Answer, key: Key, start: int)
    ensures CallsIn(answers + [answer], key, start)
            == CallsIn(answers, key, start) + if answer.key == key && WindowOf(answer.now) == start then 1 else 0
  {
    assert (answers + [answer])[..|answers|] == answers;
    hide WindowOf;
  }

  /** A window that the key has not been called in before has no calls. */
  lemma NewWindow(limitOf: Key -> nat, s: State, key: Key, now: int)
    requires Tracks(limitOf, s, key) && s.clock <= now
    requires key in s.limits ==> s.limits[key].start != WindowOf(now)
    ensures CallsIn(s.answers, key, WindowOf(now)) == 0
    ensures NoneAfter(s.answers, key, WindowOf(now) - 1)
  {
    WindowsInOrder(s.clock, now);
    hide WindowOf;
    if key in s.limits {
      NoCallsBeyond(s.answers, key, s.limits[key].start, WindowOf(now));
    } else {
      NoCallsBeyond(s.answers, key, WindowOf(s.clock) - 1, WindowOf(now));
    }
  }

  lemma OwnCallTracks(limitOf: Key -> nat, s: State, key: Key, now: int)
    requires Tracks(limitOf, s, key) && s.clock <= now
    ensures Tracks(limitOf, Handle(limitOf, s, Call(key, now)), key)
  {
    var s' := Handle(limitOf, s, Call(key, now));
    var answer := s'.answers[|s.answers|];
    assert s'.answers == s.answers + [answer];
    CallsAndOne(s.answers, answer, key, WindowOf(now));
    WindowsInOrder(s.clock, now);
    if key !in s.limits || s.limits[key].start != WindowOf(now) {
      NewWindow(limitOf, s, key, now);
    }
    hide WindowOf, CallsIn;
  }

  lemma OtherCallTracks(limitOf: Key -> nat, s: State, key: Key, now: int, other: Key)
    requires Tracks(limitOf, s, other) && s.clock <= now && other != key
    ensures Tracks(limitOf, Handle(limitOf, s, Call(key, now)), other)
  {
    var s' := Handle(limitOf, s, Call(key, now));
    var answer := s'.answers[|s.answers|];
    assert s'.answers == s.answers + [answer];
    WindowsInOrder(s.clock, now);
    if other in s.limits {
      CallsAndOne(s.answers, answer, other, s.limits[other].start);
    }
    hide WindowOf, CallsIn;
  }

  lemma CallIsFair(limitOf: Key -> nat, s: State, key: Key, now: int)
    requires Tracks(limitOf, s, key) && Fair(limitOf, s.answers) && s.clock <= now
    ensures Fair(limitOf, Handle(limitOf, s, Call(key, now)).answers)
  {
    var s' := Handle(limitOf, s, Call(key, now));
    var n := |s.answers|;
    var answer := s'.answers[n];
    assert s'.answers == s.answers + [answer] && s'.answers[..n] == s.answers;
    if key !in s.limits || s.limits[key].start != WindowOf(now) {
      NewWindow(limitOf, s, key, now);
    }
    assert answer.allowed <==> CallsIn(s.answers, key, WindowOf(now)) < limitOf(key);
    forall i | 0 <= i < n
      ensures s'.answers[..i] == s.answers[..i] && s'.answers[i] == s.answers[i]
    {
    }
    hide WindowOf, CallsIn, Tracks, Handle;
  }

  lemma CleanupStaysConsistent(limitOf: Key -> nat, s: State, now: int)
    requires Consistent(limitOf, s) && s.clock <= now
    ensures Consistent(limitOf, Handle(limitOf, s, Cleanup(now)))
  {
    var s' := Handle(limitOf, s, Cleanup(now));
    WindowsInOrder(s.clock, now);
    forall key
      ensures Tracks(limitOf, s', key)
    {
      assert Tracks(limitOf, s, key);
      if key in s.limits && key !in s'.limits {
        assert s.limits[key].start < now - RATE_WINDOW_MS * 2 < WindowOf(now);
      }
    }
  }

  lemma {:induction false} AlwaysConsistent(limitOf: Key -> nat, s: State, events: seq<Event>)
    requires Consistent(limitOf, s) && InOrder(s.clock, events)
    ensures Consistent(limitOf, HandleAll(limitOf, s, events))
    decreases |events|
  {
    if events != [] {
      match events[0] {
        case Call(key, now) => CallStaysConsistent(limitOf, s, key, now);
        case Cleanup(now) => CleanupStaysConsistent(limitOf, s, now);
      }
      AlwaysConsistent(limitOf, Handle(limitOf, s, events[0]), events[1..]);
    }
  }

  /** Whatever clean-ups happen in between and whatever other keys do, exactly the first `limit` calls of a key
      in each window are allowed. */
  lemma ExactlyTheFirstAreAllowed(limitOf: Key -> nat, clock: int, events: seq<Event>)
    requires InOrder(clock, events)
    ensures Fair(limitOf, HandleAll(limitOf, Opening(clock), events).answers)
  {
    AlwaysConsistent(limitOf, Opening(clock), events);
  }

  /** How many calls of the key were allowed at or after `from` and before `to`. */
  function AllowedBetween(answers: seq<Answer>, key: Key, from: int, to: int): nat {
    if answers == [] then 0
    else
      var last := answers[|answers| - 1];
      AllowedBetween(answers[..|answers| - 1], key, from, to)
      + if last.key == key && last.allowed && from <= last.now < to then 1 else 0
  }

  function AllowedIn(answers: seq<Answer>, key: Key, start: int): nat {
    AllowedBetween(answers, key, start, start + RATE_WINDOW_MS)
  }

  lemma EarlierAreFair(limitOf: Key -> nat, answers: seq<Answer>)
    requires Fair(limitOf, answers) && answers != []
    ensures var n := |answers| - 1;
      && Fair(limitOf, answers[..n])
      && (answers[n].allowed <==> CallsIn(answers[..n], answers[n].key, WindowOf(answers[n].now)) < limitOf(answers[n].key))
  {
    hide CallsIn, WindowOf;
    var n := |answers| - 1;
    assert forall i :: 0 <= i < n ==> answers[..n][..i] == answers[..i];
  }

  lemma {:induction false} WindowAllowsTheLimit(limitOf: Key -> nat, answers: seq<Answer>, key: Key, start: int)
    requires Fair(limitOf, answers) && start % RATE_WINDOW_MS == 0
    ensures AllowedIn(answers, key, start) <= CallsIn(answers, key, start)
    ensures AllowedIn(answers, key, start) <= limitOf(key)
  {
    if answers != [] {
      var n := |answers| - 1;
      hide Fair, WindowOf;
      EarlierAreFair(limitOf, answers);
      WindowAllowsTheLimit(limitOf, answers[..n], key, start);
      InWindow(start, answers[n].now);
    }
  }

  lemma InWindow(start: int, now: int)
    requires start % RATE_WINDOW_MS == 0
    ensures start <= now < start + RATE_WINDOW_MS <==> WindowOf(now) == start
  {
    assert start == RATE_WINDOW_MS * (start / RATE_WINDOW_MS);
    assert WindowOf(now) == RATE_WINDOW_MS * (now / RATE_WINDOW_MS);
  }

  lemma {:induction false} IntervalIsTwoWindows(answers: seq<Answer>, key: Key, from: int)
    ensures AllowedBetween(answers, key, from, from + RATE_WINDOW_MS)
         <= AllowedIn(answers, key, WindowOf(from)) + AllowedIn(answers, key, WindowOf(from) + RATE_WINDOW_MS)
  {
    if answers != [] {
      IntervalIsTwoWindows(answers[..|answers| - 1], key, from);
      var now := answers[|answers| - 1].now;
      if from <= now {
        WindowsInOrder(from, now);
      }
    }
  }

  /** In any 60 seconds at most twice the limit is allowed. */
  lemma AtMostTwiceTheLimit(limitOf: Key -> nat, clock: int, events: seq<Event>, key: Key, from: int)
    requires InOrder(clock, events)
    ensures var answers := HandleAll(limitOf, Opening(clock), events).answers;
            AllowedBetween(answers, key, from, from + 60_000) <= 2 * limitOf(key)
  {
    ExactlyTheFirstAreAllowed(limitOf, clock, events);
    var answers := HandleAll(limitOf, Opening(clock), events).answers;
    IntervalIsTwoWindows(answers, key, from);
    var start := WindowOf(from);
    assert start == RATE_WINDOW_MS * (from / RATE_WINDOW_MS);
    WindowAllowsTheLimit(limitOf, answers, key, start);
    WindowAllowsTheLimit(limitOf, answers, key, start + RATE_WINDOW_MS);
  }
}
