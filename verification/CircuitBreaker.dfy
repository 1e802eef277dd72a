/**
  The circuit breaker in front of the workflow server, driven by any interleaving of calls that each ask for
  admission and, if admitted, report success or failure once. The clock is monotonic. Each breaker method
  runs under the breaker's lock, so it is one atomic step.
 */
module CircuitBreaker {

  const FAILURE_THRESHOLD := 5
  const FAILURE_WINDOW := 30.0
  const OPEN_DURATION := 30.0

  datatype Mode = Closed | Open | HalfOpen

  datatype Breaker = Breaker(state: Mode, failures: seq<real>, openedAt: real, halfOpenInFlight: bool)

  const FRESH := Breaker(Closed, [], 0.0, false)

  /** The entries of a failure list that are at most a window old. */
  function Recent(failures: seq<real>, now: real): seq<real> {
    if failures == [] then []
    else
      var n := |failures| - 1;
      Recent(failures[..n], now) + (if now - failures[n] <= FAILURE_WINDOW then [failures[n]] else [])
  }

  function AllowRequest(b: Breaker, now: real): (Breaker, bool) {
    match b.state
    case Closed => (b, true)
    case Open =>
      if now - b.openedAt >= OPEN_DURATION then (b.(state := HalfOpen, halfOpenInFlight := true), true) else (b, false)
    case HalfOpen =>
      if b.halfOpenInFlight then (b, false) else (b.(halfOpenInFlight := true), true)
  }

  function RecordSuccess(b: Breaker): Breaker {
    if b.state.Closed? then b.(failures := [])
    else b.(failures := [], state := Closed, halfOpenInFlight := false)
  }

  function RecordFailure(b: Breaker, now: real): Breaker {
    if b.state.HalfOpen? then Breaker(Open, [], now, false)
    else
      var failures := Recent(b.failures, now) + [now];
      if |failures| >= FAILURE_THRESHOLD && b.state.Closed? then b.(state := Open, openedAt := now, failures := [])
      else b.(failures := failures)
  }

  /** The breaker object; its methods are the three functions above, in place. */
  class Circuit {
    var state: Mode
    var failures: seq<real>
    var openedAt: real
    var halfOpenInFlight: bool

    function Value(): Breaker
      reads this
    {
      Breaker(state, failures, openedAt, halfOpenInFlight)
    }

    constructor ()
      ensures Value() == FRESH
    {
      state, failures, openedAt, halfOpenInFlight := Closed, [], 0.0, false;
    }

    method Allow(now: real) returns (admitted: bool)
      modifies this
      ensures (Value(), admitted) == AllowRequest(old(Value()), now)
    {
      if state == Open {
        if now - openedAt >= OPEN_DURATION {
          state := HalfOpen;
          halfOpenInFlight := false;
        } else {
          return false;
        }
      }
      if state == HalfOpen {
        if halfOpenInFlight {
          return false;
        }
        halfOpenInFlight := true;
        return true;
      }
      return true;
    }

    method Success()
      modifies this
      ensures Value() == RecordSuccess(old(Value()))
    {
      failures := [];
      if state == Open || state == HalfOpen {
        state := Closed;
        halfOpenInFlight := false;
      }
    }

    method Failure(now: real)
      modifies this
      ensures Value() == RecordFailure(old(Value()), now)
    {
      if state == HalfOpen {
        state := Open;
        openedAt := now;
        halfOpenInFlight := false;
        failures := [];
        return;
      }
      var kept := [];
      for i := 0 to |failures|
        invariant failures == old(failures) && kept == Recent(failures[..i], now)
      {
        assert failures[..i + 1][..i] == failures[..i];
        if now - failures[i] <= FAILURE_WINDOW {
          kept := kept + [failures[i]];
        }
      }
      assert failures[..|failures|] == failures;
      failures := kept + [now];
      if |failures| >= FAILURE_THRESHOLD && state == Closed {
        state := Open;
        openedAt := now;
        failures := [];
      }
    }
  }

  // ---- Every interleaving of calls ----

  /** What one call does next at time now; call ids are fresh for every call. */
  datatype Action = Ask(id: nat) | Succeed(id: nat) | Fail(id: nat)

  /**
    The breaker with its surroundings: the calls admitted and not yet reported, the time of the last step,
    and history that the breaker does not keep: all failures since its last clear, and the call admitted as
    the probe of the current half-open episode.
   */
  datatype System = System(
    breaker: Breaker,
    outstanding: set<nat>,
    used: set<nat>,
    clock: real,
    history: seq<real>,
    probe: nat
  )

  const START := System(FRESH, {}, {}, 0.0, [], 0)

  datatype Event = Event(action: Action, now: real)

  /** A step that can happen: time does not run backwards, ids are new, and only admitted calls report, once. */
  predicate Enabled(s: System, e: Event) {
    && e.now >= s.clock
    && match e.action
       case Ask(id) => id !in s.used
       case Succeed(id) => id in s.outstanding
       case Fail(id) => id in s.outstanding
  }

  predicate Admitted(s: System, e: Event) {
    e.action.Ask? && AllowRequest(s.breaker, e.now).1
  }

  function Next(s: System, e: Event): System {
    match e.action
    case Ask(id) =>
      var (b, admitted) := AllowRequest(s.breaker, e.now);
      System(b, if admitted then s.outstanding + {id} else s.outstanding, s.used + {id}, e.now, s.history,
             if admitted && b.state.HalfOpen? then id else s.probe)
    case Succeed(id) =>
      System(RecordSuccess(s.breaker), s.outstanding - {id}, s.used, e.now, [], s.probe)
    case Fail(id) =>
      var b := RecordFailure(s.breaker, e.now);
      System(b, s.outstanding - {id}, s.used, e.now, if b.failures == [] then [] else s.history + [e.now], s.probe)
  }

  ghost predicate Feasible(s: System, run: seq<Event>)
    decreases |run|
  {
    run == [] || (Enabled(s, run[0]) && Feasible(Next(s, run[0]), run[1..]))
  }

  function After(s: System, run: seq<Event>): System
    decreases |run|
  {
    if run == [] then s else After(Next(s, run[0]), run[1..])
  }

  // ---- Pruning forgets nothing that matters ----

  /** Pruning twice is pruning once, later. */
  lemma {:induction false} RecentTwice(times: seq<real>, t: real, now: real)
    requires t <= now
    ensures Recent(Recent(times, t), now) == Recent(times, now)
  {
    if times != [] {
      var n := |times| - 1;
      RecentTwice(times[..n], t, now);
      if t - times[n] <= FAILURE_WINDOW {
        var kept := Recent(times[..n], t);
        assert (kept + [times[n]])[..|kept|] == kept;
      } else {
        assert Recent(times[..n], t) + [] == Recent(times[..n], t);
      }
    }
  }

  lemma RecentAppend(times: seq<real>, now: real)
    ensures Recent(times + [now], now) == Recent(times, now) + [now]
  {
    assert (times + [now])[..|times|] == times;
  }

  // ---- The invariant ----

  ghost predicate Inv(s: System) {
    var b := s.breaker;
    // a probe is in flight exactly in the half-open state, and it has been admitted and not yet reported
    && (b.halfOpenInFlight <==> b.state.HalfOpen?)
    && (b.state.HalfOpen? ==> s.probe in s.outstanding)
    && s.outstanding <= s.used
    // a closed breaker is below its threshold
    && (b.state.Closed? ==> |b.failures| < FAILURE_THRESHOLD)
    // the stored failures are the recent ones of the full history, as of some moment in the past
    && (exists t :: PrunedAt(s, t))
  }

  ghost predicate PrunedAt(s: System, t: real) {
    t <= s.clock && s.breaker.failures == Recent(s.history, t)
  }

  lemma NextKeepsInv(s: System, e: Event)
    requires Inv(s) && Enabled(s, e)
    ensures Inv(Next(s, e))
  {
    var t :| PrunedAt(s, t);
    var s' := Next(s, e);
    match e.action
    case Ask(_) =>
      assert PrunedAt(s', t);
    case Succeed(_) =>
      assert PrunedAt(s', e.now);
    case Fail(_) =>
      RecentTwice(s.history, t, e.now);
      RecentAppend(s.history, e.now);
      assert PrunedAt(s', e.now);
  }

  lemma {:induction false} RunKeepsInv(s: System, run: seq<Event>)
    requires Inv(s) && Feasible(s, run)
    ensures Inv(After(s, run))
    decreases |run|
  {
    if run != [] {
      NextKeepsInv(s, run[0]);
      RunKeepsInv(Next(s, run[0]), run[1..]);
    }
  }

  lemma StartInv()
    ensures Inv(START)
  {
    assert PrunedAt(START, 0.0);
  }

  /**
    After every run: in flight means half-open, a half-open breaker has a probe that was admitted and has not
    reported, and a closed breaker stores fewer than five failures.
   */
  lemma BreakerIsSound(run: seq<Event>)
    requires Feasible(START, run)
    ensures var s := After(START, run);
            && (s.breaker.halfOpenInFlight <==> s.breaker.state.HalfOpen?)
            && (s.breaker.state.HalfOpen? ==> s.probe in s.outstanding)
            && (s.breaker.state.Closed? ==> |s.breaker.failures| < FAILURE_THRESHOLD)
  {
    StartInv();
    RunKeepsInv(START, run);
  }

  /**
    Pruned and full history trip alike: after every run, a failure reported to a closed breaker opens it
    exactly if, with it, five failures since the last clear lie within the window.
   */
  lemma TripsOnFullHistory(run: seq<Event>, id: nat, now: real)
    requires Feasible(START, run + [Event(Fail(id), now)])
    ensures var s := After(START, run);
            s.breaker.state.Closed? ==>
              (RecordFailure(s.breaker, now).state.Open?
               <==> |Recent(s.history + [now], now)| >= FAILURE_THRESHOLD)
  {
    FeasiblePrefix(START, run, Event(Fail(id), now));
    StartInv();
    RunKeepsInv(START, run);
    var s := After(START, run);
    var t :| PrunedAt(s, t);
    RecentTwice(s.history, t, now);
    RecentAppend(s.history, now);
  }

  lemma {:induction false} FeasiblePrefix(s: System, run: seq<Event>, e: Event)
    requires Feasible(s, run + [e])
    ensures Feasible(s, run) && Enabled(After(s, run), e)
    decreases |run|
  {
    if run == [] {
      assert run + [e] == [e];
    } else {
      assert (run + [e])[1..] == run[1..] + [e];
      FeasiblePrefix(Next(s, run[0]), run[1..], e);
    }
  }

  // ---- Half-open episodes ----

  /** Nothing is admitted while a half-open episode lasts: its one admission is the call that began it. */
  lemma OneProbePerEpisode(run: seq<Event>, e: Event)
    requires Feasible(START, run + [e])
    ensures var s := After(START, run);
            && (s.breaker.state.HalfOpen? ==> !Admitted(s, e))
            && (!s.breaker.state.HalfOpen? && Next(s, e).breaker.state.HalfOpen? ==> Admitted(s, e))
  {
    FeasiblePrefix(START, run, e);
    StartInv();
    RunKeepsInv(START, run);
  }

  // ---- How long an open breaker keeps calls out ----

  ghost predicate SomeSuccess(run: seq<Event>) {
    exists i | 0 <= i < |run| :: run[i].action.Succeed?
  }

  /** Opened at time t, or again later. */
  ghost predicate OpenSince(s: System, t: real) {
    s.breaker.state.Open? && s.breaker.openedAt >= t
  }

  /** A call that asked before time end would be refused. */
  ghost predicate KeepsOut(s: System, end: real) {
    forall now | s.clock <= now < end :: !AllowRequest(s.breaker, now).1
  }

  lemma {:induction false} StaysOpen(s: System, run: seq<Event>, t: real)
    requires Feasible(s, run) && OpenSince(s, t) && !SomeSuccess(run)
    requires forall i | 0 <= i < |run| :: run[i].now < t + OPEN_DURATION
    ensures OpenSince(After(s, run), t)
    decreases |run|
  {
    if run != [] {
      assert !run[0].action.Succeed?;
      assert forall i | 0 <= i < |run| - 1 :: run[1..][i] == run[i + 1];
      StaysOpen(Next(s, run[0]), run[1..], t);
    }
  }

  lemma {:induction false} RunSplits(s: System, run: seq<Event>, k: nat)
    requires Feasible(s, run) && k <= |run|
    ensures Feasible(s, run[..k]) && Feasible(After(s, run[..k]), run[k..])
    ensures k < |run| ==> After(s, run[..k + 1]) == Next(After(s, run[..k]), run[k])
    decreases |run|
  {
    if k == 0 {
      assert run[..0] == [] && run[0..] == run;
      if run != [] {
        assert run[..1] == [run[0]] && [run[0]][1..] == [];
      }
    } else {
      RunSplits(Next(s, run[0]), run[1..], k - 1);
      assert run[..k][1..] == run[1..][..k - 1] && run[k..] == run[1..][k - 1..];
      if k < |run| {
        assert run[..k + 1][1..] == run[1..][..k];
      }
    }
  }

  /**
    In the 30 seconds after a breaker opens, it keeps every call out at every moment, exactly if no earlier
    call reports success in that time. A success closes the breaker at once, even one of a call that was
    admitted long before, so "no admission for 30 seconds" does not hold without the condition.
   */
  lemma OpenKeepsCallsOut(s: System, run: seq<Event>)
    requires s.breaker.state.Open? && Feasible(s, run)
    requires forall i | 0 <= i < |run| :: run[i].now < s.breaker.openedAt + OPEN_DURATION
    ensures (forall k: nat | k <= |run| :: KeepsOut(After(s, run[..k]), s.breaker.openedAt + OPEN_DURATION))
       <==> !SomeSuccess(run)
  {
    var end := s.breaker.openedAt + OPEN_DURATION;
    if i: nat :| i < |run| && run[i].action.Succeed? {
      RunSplits(s, run, i);
      var t := After(s, run[..i + 1]);
      assert t.breaker.state.Closed? && t.clock == run[i].now;
      assert AllowRequest(t.breaker, t.clock).1;
      assert !KeepsOut(t, end);
    } else {
      forall k: nat | k <= |run| ensures KeepsOut(After(s, run[..k]), end) {
        RunSplits(s, run, k);
        StaysOpen(s, run[..k], s.breaker.openedAt);
      }
    }
  }

  lemma {:induction false} RunConcat(s: System, a: seq<Event>, b: seq<Event>)
    requires Feasible(s, a) && Feasible(After(s, a), b)
    ensures Feasible(s, a + b) && After(s, a + b) == After(After(s, a), b)
    decreases |a|
  {
    if a == [] {
      assert a + b == b;
    } else {
      assert (a + b)[1..] == a[1..] + b;
      RunConcat(Next(s, a[0]), a[1..], b);
    }
  }

  /** Call ids 0 to n-1. */
  function Ids(n: nat): (ids: set<nat>)
    ensures forall i: nat :: i in ids <==> i < n
  {
    if n == 0 then {} else Ids(n - 1) + {n - 1}
  }

  /** A closed breaker after calls 0 to asked-1 were admitted at time 0 and calls 0 to failed-1 failed at time 1. */
  function Stage(asked: nat, failed: nat): System {
    System(FRESH.(failures := seq(failed, _ => 1.0)), Ids(asked) - Ids(failed), Ids(asked),
           if failed == 0 then 0.0 else 1.0, seq(failed, _ => 1.0), 0)
  }

  lemma {:induction false} AdmitSome(n: nat) returns (run: seq<Event>)
    ensures Feasible(START, run) && After(START, run) == Stage(n, 0)
  {
    run := [];
    if n == 0 {
      assert Stage(0, 0) == START;
    } else {
      run := AdmitSome(n - 1);
      var ask := [Event(Ask(n - 1), 0.0)];
      assert ask[1..] == [];
      assert Next(Stage(n - 1, 0), ask[0]) == Stage(n, 0);
      RunConcat(START, run, ask);
      run := run + ask;
    }
  }

  lemma {:induction false} RecentSame(n: nat)
    ensures Recent(seq(n, _ => 1.0), 1.0) == seq(n, _ => 1.0)
  {
    if n > 0 {
      RecentSame(n - 1);
      assert seq(n, _ => 1.0)[..n - 1] == seq(n - 1, _ => 1.0);
    }
  }

  lemma FailStep(asked: nat, n: nat)
    requires 1 <= n <= asked && n < FAILURE_THRESHOLD
    ensures var e := Event(Fail(n - 1), 1.0);
            Enabled(Stage(asked, n - 1), e) && Next(Stage(asked, n - 1), e) == Stage(asked, n)
  {
    RecentSame(n - 1);
    assert seq(n - 1, _ => 1.0) + [1.0] == seq(n, _ => 1.0);
    assert Ids(asked) - Ids(n - 1) - {n - 1} == Ids(asked) - Ids(n);
  }

  lemma {:induction false} FailSome(asked: nat, n: nat) returns (run: seq<Event>)
    requires n <= asked && n < FAILURE_THRESHOLD
    ensures Feasible(Stage(asked, 0), run) && After(Stage(asked, 0), run) == Stage(asked, n)
  {
    run := [];
    if n > 0 {
      run := FailSome(asked, n - 1);
      var fail := [Event(Fail(n - 1), 1.0)];
      assert fail[1..] == [];
      FailStep(asked, n);
      hide Stage, Next;
      RunConcat(Stage(asked, 0), run, fail);
      run := run + fail;
    }
  }

  /**
    The exception occurs: of six calls admitted while closed, five fail and open the breaker at time 1, the
    sixth succeeds at time 2, and a new call is admitted at time 3.
   */
  lemma StaleSuccessAdmits() returns (run: seq<Event>)
    ensures Feasible(START, run) && After(START, run).breaker == Breaker(Open, [], 1.0, false)
    ensures var late := [Event(Succeed(5), 2.0)];
            && Feasible(After(START, run), late)
            && Admitted(After(After(START, run), late), Event(Ask(6), 3.0))
  {
    var asks := AdmitSome(6);
    var fails := FailSome(6, 4);
    RunConcat(START, asks, fails);
    var last := [Event(Fail(4), 1.0)];
    assert last[1..] == [];
    RecentSame(4);
    RunConcat(START, asks + fails, last);
    run := asks + fails + last;
    var late := [Event(Succeed(5), 2.0)];
    assert late[1..] == [];
  }

  // ---- What each call does, outright ----

  /** An open breaker admits a call exactly from 30 seconds after it opened on, as the probe of a half-open episode. */
  lemma OpenAdmitsExactly(b: Breaker, now: real)
    requires b.state.Open?
    ensures var (q, admitted) := AllowRequest(b, now);
            && (admitted <==> now - b.openedAt >= 30.0)
            && (admitted ==> q.state == HalfOpen && q.halfOpenInFlight)
            && q.failures == b.failures && q.openedAt == b.openedAt
            && (!admitted ==> q == b)
  {
  }

  /** Recovery: after every run that ends open, an ask is admitted exactly from 30 seconds after the opening on. */
  lemma OpenRecovers(run: seq<Event>, id: nat, now: real)
    requires Feasible(START, run + [Event(Ask(id), now)]) && After(START, run).breaker.state.Open?
    ensures var s, e := After(START, run), Event(Ask(id), now);
            && (Admitted(s, e) <==> now >= s.breaker.openedAt + 30.0)
            && (Admitted(s, e) ==> Next(s, e).breaker.state == HalfOpen && Next(s, e).breaker.halfOpenInFlight
                                   && Next(s, e).probe == id && id in Next(s, e).outstanding)
  {
    FeasiblePrefix(START, run, Event(Ask(id), now));
    OpenAdmitsExactly(After(START, run).breaker, now);
  }

  /** A closed breaker admits every call; a half-open one only while none is in flight, and then that one is. */
  lemma OthersAdmitExactly(b: Breaker, now: real)
    requires !b.state.Open?
    ensures AllowRequest(b, now).1 <==> b.state == Closed || !b.halfOpenInFlight
    ensures b.state == Closed ==> AllowRequest(b, now).0 == b
    ensures b.state == HalfOpen ==> AllowRequest(b, now).0 == b.(halfOpenInFlight := true)
  {
  }

  /** The probe decides: its success closes the breaker, its failure opens it again from now on. */
  lemma ProbeDecides(run: seq<Event>, e: Event)
    requires Feasible(START, run + [e]) && After(START, run).breaker.state.HalfOpen?
    requires e.action == Succeed(After(START, run).probe) || e.action == Fail(After(START, run).probe)
    ensures var b, q := After(START, run).breaker, Next(After(START, run), e).breaker;
            if e.action.Succeed? then q == Breaker(Closed, [], b.openedAt, false)
            else q == Breaker(Open, [], e.now, false)
  {
    FeasiblePrefix(START, run, e);
  }

  /** A success clears the failures of a closed breaker and closes an open one. */
  lemma SuccessExactly(b: Breaker)
    ensures var q := RecordSuccess(b);
            && q.state == Closed && q.failures == [] && q.openedAt == b.openedAt
            && q.halfOpenInFlight == (b.state == Closed && b.halfOpenInFlight)
  {
  }

  ghost function InWindow(failures: seq<real>, now: real): set<int> {
    set i | 0 <= i < |failures| && now - failures[i] <= 30.0
  }

  /** Pruning keeps exactly the failures of the last 30 seconds. */
  lemma {:induction false} RecentExactly(failures: seq<real>, now: real)
    ensures |Recent(failures, now)| == |InWindow(failures, now)|
    ensures forall t :: t in Recent(failures, now) <==> t in failures && now - t <= 30.0
  {
    if failures != [] {
      var n := |failures| - 1;
      RecentExactly(failures[..n], now);
      assert failures == failures[..n] + [failures[n]];
      if now - failures[n] <= 30.0 {
        assert InWindow(failures, now) == InWindow(failures[..n], now) + {n};
      } else {
        assert InWindow(failures, now) == InWindow(failures[..n], now);
      }
    } else {
      assert InWindow(failures, now) == {};
    }
  }

  /** A failure opens a closed breaker, as of now, exactly if it is the fifth within 30 seconds. */
  lemma FailureExactly(b: Breaker, now: real)
    requires b.state.Closed?
    ensures var q := RecordFailure(b, now);
            && (q.state == Open <==> |InWindow(b.failures, now)| + 1 >= 5)
            && (q.state == Open ==> q.openedAt == now && q.failures == [])
            && (q.state != Open ==> q.state == Closed && q.openedAt == b.openedAt && q.failures != []
                                    && q.failures[|q.failures| - 1] == now
                                    && |q.failures| == |InWindow(b.failures, now)| + 1)
  {
    RecentExactly(b.failures, now);
  }
}
