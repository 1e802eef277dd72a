/**
  The hard evaluation quota: a shared Redis counter that every caller seeds, increments and, when over the
  limit, decrements again, and the route's own second look at the count. Each Redis command is one atomic
  step; callers interleave freely between commands, within one lifetime of the key.
 */
module HardQuota {
  import opened Wrappers

  // ---- One call, undisturbed ----

  /** SET key value NX */
  function SetIfMissing(counter: Option<int>, dbCount: int): int {
    if counter.Some? then counter.value else dbCount
  }

  class QuotaKey {
    var counter: Option<int>

    constructor ()
      ensures counter == None
    {
      counter := None;
    }

    method RateLimitIncr(evalLimit: int, dbCount: int) returns (rateLimited: bool, newCount: int)
      modifies this
      ensures var found := SetIfMissing(old(counter), dbCount);
              && rateLimited == (evalLimit > 0 && found >= evalLimit)
              && newCount == (if rateLimited then found else found + 1)
              && counter == Some(newCount)
    {
      if counter.None? {
        counter := Some(dbCount);
      }
      counter := Some(counter.value + 1);
      newCount := counter.value;
      if evalLimit > 0 && newCount > evalLimit {
        counter := Some(counter.value - 1);
        return true, newCount - 1;
      }
      return false, newCount;
    }

    /** The quota branch of the evaluate route: true when the request goes on to evaluation. */
    method Admit(evalLimit: int, dbCount: int) returns (passed: bool)
      modifies this
      ensures var found := SetIfMissing(old(counter), dbCount);
              && (passed <==> evalLimit <= 0 || found + 1 < evalLimit)
              && counter == Some(if evalLimit > 0 && found >= evalLimit then found else found + 1)
    {
      var rateLimited, newCount := RateLimitIncr(evalLimit, dbCount);
      if !rateLimited && evalLimit > 0 && newCount >= evalLimit {
        rateLimited := true;
      }
      passed := !rateLimited;
    }
  }

  // ---- Callers interleaving ----

  /** Where a caller stands; Kept was refused by the route with its increment left in place. */
  datatype Phase =
    | Waiting(dbCount: int)
    | Seeded
    | Undoing
    | Undone
    | Kept
    | Passed

  /** The counter, the value it was seeded with, and all callers there will ever be. */
  datatype State = State(counter: int, seed: Option<int>, callers: seq<Phase>)

  /** What the caller makes of the count its INCR returned. */
  function Judge(count: int, limit: int): Phase {
    if limit > 0 && count > limit then Undoing
    else if limit > 0 && count >= limit then Kept
    else Passed
  }

  ghost predicate Init(s: State) {
    s.seed == None && forall i | 0 <= i < |s.callers| :: s.callers[i].Waiting?
  }

  /** Caller i runs its next Redis command. */
  function Step(s: State, i: nat, limit: int): (t: State)
    requires i < |s.callers|
    ensures |t.callers| == |s.callers|
  {
    match s.callers[i]
    case Waiting(dbCount) =>
      var seed := SetIfMissing(s.seed, dbCount);
      State(if s.seed.None? then dbCount else s.counter, Some(seed), s.callers[i := Seeded])
    case Seeded =>
      State(s.counter + 1, s.seed, s.callers[i := Judge(s.counter + 1, limit)])
    case Undoing =>
      State(s.counter - 1, s.seed, s.callers[i := Undone])
    case _ => s
  }

  /** A caller whose commands run without another in between does to the counter what Admit does. */
  lemma UndisturbedIsAdmit(s: State, i: nat, limit: int)
    requires i < |s.callers| && s.callers[i].Waiting?
    ensures var found := SetIfMissing(if s.seed.Some? then Some(s.counter) else None, s.callers[i].dbCount);
            var t := Step(Step(Step(s, i, limit), i, limit), i, limit);
            && (t.callers[i].Passed? <==> limit <= 0 || found + 1 < limit)
            && (t.callers[i].Passed? || t.callers[i].Kept? || t.callers[i].Undone?)
            && t.counter == (if limit > 0 && found >= limit then found else found + 1)
  {
    var seeded := Step(s, i, limit);
    var counted := Step(seeded, i, limit);
    assert seeded.callers[i] == Seeded && counted.callers[i] == Judge(seeded.counter + 1, limit);
  }

  /** The state after the commands of callers schedule[0], schedule[1], ... */
  function Run(s: State, schedule: seq<nat>, limit: int): (t: State)
    requires forall k | 0 <= k < |schedule| :: schedule[k] < |s.callers|
    ensures |t.callers| == |s.callers|
    decreases |schedule|
  {
    if schedule == [] then s
    else
      var n := |schedule| - 1;
      Step(Run(s, schedule[..n], limit), schedule[n], limit)
  }

  /** How many callers are in phase p. */
  function Count(callers: seq<Phase>, p: Phase): nat {
    if callers == [] then 0
    else (if callers[|callers| - 1] == p then 1 else 0) + Count(callers[..|callers| - 1], p)
  }

  lemma {:induction false} CountUpdate(callers: seq<Phase>, i: nat, q: Phase, p: Phase)
    requires i < |callers|
    ensures Count(callers[i := q], p)
         == Count(callers, p) - (if callers[i] == p then 1 else 0) + (if q == p then 1 else 0)
  {
    var n := |callers| - 1;
    if i == n {
      assert callers[i := q][..n] == callers[..n];
    } else {
      assert callers[i := q][..n] == callers[..n][i := q];
      CountUpdate(callers[..n], i, q, p);
    }
  }

  lemma {:induction false} CountNone(callers: seq<Phase>, p: Phase)
    requires forall i | 0 <= i < |callers| :: callers[i] != p
    ensures Count(callers, p) == 0
  {
    if callers != [] {
      CountNone(callers[..|callers| - 1], p);
    }
  }

  /** Increments that were never taken back. */
  function KeptIncrements(callers: seq<Phase>): nat {
    Count(callers, Passed) + Count(callers, Kept)
  }

  /** INCR commands run so far. */
  function Increments(callers: seq<Phase>): nat {
    KeptIncrements(callers) + Count(callers, Undoing) + Count(callers, Undone)
  }

  /** How many requests the quota lets through: one less than the limit allows for. */
  function Allowance(seed: int, limit: int): int {
    Max(0, limit - 1 - seed)
  }

  ghost predicate Inv(s: State, limit: int) {
    var kept, undoing := KeptIncrements(s.callers), Count(s.callers, Undoing);
    if s.seed.None? then
      forall i | 0 <= i < |s.callers| :: s.callers[i].Waiting?
    else
      var seed := s.seed.value;
      && s.counter == seed + kept + undoing
      && (limit <= 0 ==> Count(s.callers, Passed) == Increments(s.callers))
      && (limit > 0 ==>
            && (undoing + Count(s.callers, Undone) > 0 ==> seed + kept >= limit)
            && seed + kept <= Max(seed, limit)
            && Count(s.callers, Passed) == Min(kept, Allowance(seed, limit)))
  }

  lemma CountsAtStart(callers: seq<Phase>)
    requires forall i | 0 <= i < |callers| :: callers[i].Waiting?
    ensures Increments(callers) == 0
  {
    CountNone(callers, Passed);
    CountNone(callers, Kept);
    CountNone(callers, Undoing);
    CountNone(callers, Undone);
  }

  lemma CountsAfter(callers: seq<Phase>, i: nat, q: Phase)
    requires i < |callers|
    ensures forall p | p in [Passed, Kept, Undoing, Undone] ::
              Count(callers[i := q], p)
              == Count(callers, p) - (if callers[i] == p then 1 else 0) + (if q == p then 1 else 0)
  {
    CountUpdate(callers, i, q, Passed);
    CountUpdate(callers, i, q, Kept);
    CountUpdate(callers, i, q, Undoing);
    CountUpdate(callers, i, q, Undone);
  }

  lemma StepKeepsInv(s: State, i: nat, limit: int)
    requires Inv(s, limit) && i < |s.callers|
    ensures Inv(Step(s, i, limit), limit)
  {
    hide Count;
    if s.seed.None? {
      CountsAtStart(s.callers);
    }
    var t := Step(s, i, limit);
    CountsAfter(s.callers, i, if t.callers == s.callers then s.callers[i] else t.callers[i]);
    assert s.callers[i := s.callers[i]] == s.callers;
  }

  lemma {:induction false} RunKeepsInv(s: State, schedule: seq<nat>, limit: int)
    requires Init(s) && forall k | 0 <= k < |schedule| :: schedule[k] < |s.callers|
    ensures Inv(Run(s, schedule, limit), limit)
    decreases |schedule|
  {
    if schedule != [] {
      var n := |schedule| - 1;
      RunKeepsInv(s, schedule[..n], limit);
      StepKeepsInv(Run(s, schedule[..n], limit), schedule[n], limit);
    }
  }

  /**
    After any interleaving: the counter is the seed, plus the increments kept, plus those still to be undone;
    with nothing in flight it is at most max(seed, limit).
   */
  lemma CounterConserved(s: State, schedule: seq<nat>, limit: int)
    requires Init(s) && forall k | 0 <= k < |schedule| :: schedule[k] < |s.callers|
    ensures var t := Run(s, schedule, limit);
            t.seed.Some? ==>
              && t.counter == t.seed.value + KeptIncrements(t.callers) + Count(t.callers, Undoing)
              && (limit > 0 && Count(t.callers, Undoing) == 0 ==> t.counter <= Max(t.seed.value, limit))
  {
    RunKeepsInv(s, schedule, limit);
  }

  /**
    After any interleaving, exactly the first max(0, limit - 1 - seed) increments passed: concurrent callers
    neither slip past the quota nor lose any of it, and one evaluation less than the limit gets through.
   */
  lemma PassedExactly(s: State, schedule: seq<nat>, limit: int)
    requires Init(s) && forall k | 0 <= k < |schedule| :: schedule[k] < |s.callers|
    ensures var t := Run(s, schedule, limit);
            var passed, increments := Count(t.callers, Passed), Increments(t.callers);
            && (limit <= 0 ==> passed == increments)
            && (limit > 0 && t.seed.Some? ==> passed == Min(increments, Allowance(t.seed.value, limit)))
            && (t.seed.None? ==> increments == 0)
  {
    RunKeepsInv(s, schedule, limit);
    var t := Run(s, schedule, limit);
    if t.seed.None? {
      CountsAtStart(t.callers);
    }
  }
}
