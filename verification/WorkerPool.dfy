/**
  The pool of persistent Cedar workers: a semaphore, a queue of free worker indices, and threads that take
  one of each, talk to the worker over pipes and give both back. Threads and workers interleave step by
  step; workers may die at any moment. The pool is not closed.
 */
module WorkerPool {

  /** A worker serves until it stops; Closing has closed its output but not yet exited, so poll() still misses it. */
  datatype Life = Serving | Closing | Dead

  /** The tickets of requests written and not yet answered, and of answers not yet read. */
  datatype Worker = Worker(life: Life, inbox: seq<nat>, outbox: seq<nat>)

  const NEW_WORKER := Worker(Serving, [], [])

  /** Where a thread stands inside execute. */
  datatype Phase =
    | Idle
    | Permitted
    | Holding(index: nat)
    | Ready(index: nat)
    | Waiting(index: nat, ticket: nat)
    | Answered(index: nat, ticket: nat, reply: nat)
    | Failed(index: nat)
    | GaveBack
  {
    /** Between taking an index off the queue and putting it back. */
    predicate Holds(i: nat) {
      HoldsSome() && index == i
    }

    predicate HoldsSome() {
      Holding? || Ready? || Waiting? || Answered? || Failed?
    }
  }

  datatype Pool = Pool(
    size: nat,
    permits: nat,
    queue: seq<nat>,
    workers: seq<Worker>,
    threads: seq<Phase>,
    nextTicket: nat
  )

  datatype Action =
    | Acquire(t: nat)
    | Take(t: nat)
    | Check(t: nat, spawned: bool)
    | Write(t: nat, accepted: bool)
    | Read(t: nat)
    | ReadEof(t: nat, spawned: bool)
    | PutBack(t: nat)
    | Release(t: nat)
    | Answer(i: nat)
    | Crash(i: nat)
    | Exit(i: nat)

  predicate IsThread(p: Pool, t: nat) {
    t < |p.threads| && (p.threads[t].HoldsSome() ==> p.threads[t].index < |p.workers|)
  }

  predicate Enabled(p: Pool, a: Action) {
    match a
    case Acquire(t) => IsThread(p, t) && p.threads[t].Idle? && p.permits > 0
    case Take(t) => IsThread(p, t) && p.threads[t].Permitted? && p.queue != []
    case Check(t, spawned) => IsThread(p, t) && p.threads[t].Holding?
    // not accepted: serialising the payload, or writing to a worker that is gone, raises
    case Write(t, accepted) => IsThread(p, t) && p.threads[t].Ready?
    case Read(t) => IsThread(p, t) && p.threads[t].Waiting? && p.workers[p.threads[t].index].outbox != []
    case ReadEof(t, _) =>
      && IsThread(p, t) && p.threads[t].Waiting?
      && p.workers[p.threads[t].index].outbox == [] && !p.workers[p.threads[t].index].life.Serving?
    case PutBack(t) => IsThread(p, t) && (p.threads[t].Answered? || p.threads[t].Failed?)
    case Release(t) => IsThread(p, t) && p.threads[t].GaveBack?
    case Answer(i) => i < |p.workers| && p.workers[i].life.Serving? && p.workers[i].inbox != []
    case Crash(i) => i < |p.workers| && p.workers[i].life.Serving?
    case Exit(i) => i < |p.workers| && p.workers[i].life.Closing?
  }

  function Move(p: Pool, t: nat, phase: Phase): Pool
    requires t < |p.threads|
  {
    p.(threads := p.threads[t := phase])
  }

  function SetWorker(p: Pool, i: nat, w: Worker): Pool
    requires i < |p.workers|
  {
    p.(workers := p.workers[i := w])
  }

  function Step(p: Pool, a: Action): Pool
    requires Enabled(p, a)
  {
    match a
    case Acquire(t) => Move(p, t, Permitted).(permits := p.permits - 1)
    case Take(t) => Move(p, t, Holding(p.queue[0])).(queue := p.queue[1..])
    case Check(t, spawned) =>
      var i := p.threads[t].index;
      if !p.workers[i].life.Dead? then Move(p, t, Ready(i))
      else if spawned then SetWorker(Move(p, t, Ready(i)), i, NEW_WORKER)
      else Move(p, t, Failed(i))
    case Write(t, accepted) =>
      var i := p.threads[t].index;
      var w := p.workers[i];
      if accepted then
        SetWorker(Move(p, t, Waiting(i, p.nextTicket)), i, w.(inbox := w.inbox + [p.nextTicket]))
        .(nextTicket := p.nextTicket + 1)
      else Move(p, t, Failed(i))
    case Read(t) =>
      var Waiting(i, ticket) := p.threads[t];
      var w := p.workers[i];
      SetWorker(Move(p, t, Answered(i, ticket, w.outbox[0])), i, w.(outbox := w.outbox[1..]))
    case ReadEof(t, spawned) =>
      var i := p.threads[t].index;
      if p.workers[i].life.Dead? && spawned then SetWorker(Move(p, t, Failed(i)), i, NEW_WORKER)
      else Move(p, t, Failed(i))
    case PutBack(t) => Move(p, t, GaveBack).(queue := p.queue + [p.threads[t].index])
    case Release(t) => Move(p, t, Idle).(permits := p.permits + 1)
    case Answer(i) =>
      var w := p.workers[i];
      SetWorker(p, i, w.(inbox := w.inbox[1..], outbox := w.outbox + [w.inbox[0]]))
    case Crash(i) => SetWorker(p, i, p.workers[i].(life := Closing))
    case Exit(i) => SetWorker(p, i, p.workers[i].(life := Dead))
  }

  /** A pool of size n with any number of idle threads. */
  ghost predicate Init(p: Pool) {
    && p.size >= 1 && p.permits == p.size && |p.workers| == p.size && |p.queue| == p.size
    && (forall i | 0 <= i < p.size :: p.queue[i] == i && p.workers[i] == NEW_WORKER)
    && (forall t | 0 <= t < |p.threads| :: p.threads[t].Idle?)
  }

  ghost predicate Feasible(p: Pool, run: seq<Action>)
    decreases |run|
  {
    run == [] || (Enabled(p, run[0]) && Feasible(Step(p, run[0]), run[1..]))
  }

  function After(p: Pool, run: seq<Action>): Pool
    requires Feasible(p, run)
    decreases |run|
  {
    if run == [] then p else After(Step(p, run[0]), run[1..])
  }

  // ---- Counting ----

  function Active(threads: seq<Phase>): nat {
    if threads == [] then 0
    else (if threads[|threads| - 1].Idle? then 0 else 1) + Active(threads[..|threads| - 1])
  }

  function Holders(threads: seq<Phase>): nat {
    if threads == [] then 0
    else (if threads[|threads| - 1].HoldsSome() then 1 else 0) + Holders(threads[..|threads| - 1])
  }

  function HoldersOf(threads: seq<Phase>, i: nat): nat {
    if threads == [] then 0
    else (if threads[|threads| - 1].Holds(i) then 1 else 0) + HoldersOf(threads[..|threads| - 1], i)
  }

  function Occurrences(queue: seq<nat>, i: nat): nat {
    if queue == [] then 0 else (if queue[0] == i then 1 else 0) + Occurrences(queue[1..], i)
  }

  lemma {:induction false} CountsUpdate(threads: seq<Phase>, t: nat, phase: Phase)
    requires t < |threads|
    ensures Active(threads[t := phase])
         == Active(threads) - (if threads[t].Idle? then 0 else 1) + (if phase.Idle? then 0 else 1)
    ensures Holders(threads[t := phase])
         == Holders(threads) - (if threads[t].HoldsSome() then 1 else 0) + (if phase.HoldsSome() then 1 else 0)
  {
    var n := |threads| - 1;
    if t == n {
      assert threads[t := phase][..n] == threads[..n];
    } else {
      assert threads[t := phase][..n] == threads[..n][t := phase];
      CountsUpdate(threads[..n], t, phase);
    }
  }

  lemma {:induction false} HoldersOfUpdate(threads: seq<Phase>, t: nat, phase: Phase, i: nat)
    requires t < |threads|
    ensures HoldersOf(threads[t := phase], i)
         == HoldersOf(threads, i) - (if threads[t].Holds(i) then 1 else 0) + (if phase.Holds(i) then 1 else 0)
  {
    var n := |threads| - 1;
    if t == n {
      assert threads[t := phase][..n] == threads[..n];
    } else {
      assert threads[t := phase][..n] == threads[..n][t := phase];
      HoldersOfUpdate(threads[..n], t, phase, i);
    }
  }

  lemma {:induction false} OccurrencesAppend(queue: seq<nat>, x: nat, i: nat)
    ensures Occurrences(queue + [x], i) == Occurrences(queue, i) + (if x == i then 1 else 0)
  {
    if queue == [] {
      assert [] + [x] == [x];
    } else {
      assert (queue + [x])[1..] == queue[1..] + [x];
      OccurrencesAppend(queue[1..], x, i);
    }
  }

  lemma {:induction false} HolderCounts(threads: seq<Phase>, t: nat, i: nat)
    requires t < |threads| && threads[t].Holds(i)
    ensures HoldersOf(threads, i) >= 1
  {
    if t < |threads| - 1 {
      HolderCounts(threads[..|threads| - 1], t, i);
    }
  }

  lemma {:induction false} TwoHoldersCount(threads: seq<Phase>, t: nat, u: nat, i: nat)
    requires t < u < |threads| && threads[t].Holds(i) && threads[u].Holds(i)
    ensures HoldersOf(threads, i) >= 2
  {
    var n := |threads| - 1;
    if u == n {
      HolderCounts(threads[..n], t, i);
    } else {
      TwoHoldersCount(threads[..n], t, u, i);
    }
  }

  /** Holders are active, and a thread that is active without holding makes the difference. */
  lemma {:induction false} HoldersAreActive(threads: seq<Phase>, t: nat)
    requires t <= |threads|
    ensures Holders(threads) <= Active(threads)
    ensures t < |threads| && !threads[t].Idle? && !threads[t].HoldsSome() ==> Holders(threads) < Active(threads)
    ensures t < |threads| && threads[t].HoldsSome() ==> Holders(threads) >= 1
  {
    if threads != [] {
      var n := |threads| - 1;
      HoldersAreActive(threads[..n], if t < n then t else n);
    }
  }

  // ---- The invariant ----

  /** Nothing outstanding that anybody could still read. */
  predicate Clean(w: Worker) {
    w.outbox == [] && (w.life.Serving? ==> w.inbox == [])
  }

  /** Exactly the request with this ticket is outstanding, unless the worker stopped first. */
  predicate Owes(w: Worker, ticket: nat) {
    if w.life.Serving? then (w.inbox == [ticket] && w.outbox == []) || (w.inbox == [] && w.outbox == [ticket])
    else w.outbox == [] || w.outbox == [ticket]
  }

  ghost predicate Accounts(p: Pool) {
    && |p.workers| == p.size
    && p.permits + Active(p.threads) == p.size
    && |p.queue| + Holders(p.threads) == p.size
    && (forall k | 0 <= k < |p.queue| :: p.queue[k] < p.size)
    && (forall t | 0 <= t < |p.threads| :: p.threads[t].HoldsSome() ==> p.threads[t].index < p.size)
  }

  /** Every index is either free, once, or held by one thread. */
  ghost predicate Partition(p: Pool) {
    forall i: nat | i < p.size :: Occurrences(p.queue, i) + HoldersOf(p.threads, i) == 1
  }

  ghost predicate Awaited(p: Pool, i: nat) {
    exists t | 0 <= t < |p.threads| :: p.threads[t].Waiting? && p.threads[t].index == i
  }

  ghost predicate Pipes(p: Pool) {
    && |p.workers| == p.size
    && (forall t | 0 <= t < |p.threads| ::
          p.threads[t].Waiting? ==>
            p.threads[t].index < p.size && Owes(p.workers[p.threads[t].index], p.threads[t].ticket))
    && (forall i: nat | i < p.size :: !Awaited(p, i) ==> Clean(p.workers[i]))
    && (forall t | 0 <= t < |p.threads| :: p.threads[t].Answered? ==> p.threads[t].reply == p.threads[t].ticket)
  }

  ghost predicate Inv(p: Pool) {
    Accounts(p) && Partition(p) && Pipes(p)
  }

  /** No index is held by two threads. */
  lemma HeldOnce(p: Pool, t: nat, u: nat)
    requires Accounts(p) && Partition(p) && t < |p.threads| && u < |p.threads| && t != u
    requires p.threads[t].HoldsSome() && p.threads[u].HoldsSome()
    ensures p.threads[t].index != p.threads[u].index
  {
    var i := p.threads[t].index;
    if p.threads[u].index == i {
      TwoHoldersCount(p.threads, if t < u then t else u, if t < u then u else t, i);
    }
  }

  lemma {:induction false} QueueCounts(queue: seq<nat>, k: nat)
    requires k < |queue|
    ensures Occurrences(queue, queue[k]) >= 1
  {
    if k > 0 {
      QueueCounts(queue[1..], k - 1);
    }
  }

  lemma AccountsAfter(p: Pool, a: Action)
    requires Accounts(p) && Enabled(p, a)
    ensures Accounts(Step(p, a))
  {
    hide Active, Holders;
    match a
    case Answer(_) =>
    case Crash(_) =>
    case Exit(_) =>
    case _ =>
      CountsUpdate(p.threads, a.t, Step(p, a).threads[a.t]);
  }

  lemma PartitionAfter(p: Pool, a: Action)
    requires Accounts(p) && Partition(p) && Enabled(p, a)
    ensures Partition(Step(p, a))
  {
    hide HoldersOf;
    var q := Step(p, a);
    forall i: nat | i < p.size ensures Occurrences(q.queue, i) + HoldersOf(q.threads, i) == 1 {
      assert Occurrences(p.queue, i) + HoldersOf(p.threads, i) == 1;
      match a
      case Answer(_) =>
      case Crash(_) =>
      case Exit(_) =>
      case PutBack(t) =>
        HoldersOfUpdate(p.threads, t, GaveBack, i);
        OccurrencesAppend(p.queue, p.threads[t].index, i);
      case _ =>
        HoldersOfUpdate(p.threads, a.t, q.threads[a.t], i);
    }
  }

  /** A thread that waits neither before nor after its step leaves the pipes in order. */
  lemma NonWaitingStep(p: Pool, q: Pool, t: nat)
    requires Pipes(p) && q.workers == p.workers && q.size == p.size && t < |p.threads|
    requires |q.threads| == |p.threads| && q.threads == p.threads[t := q.threads[t]]
    requires !p.threads[t].Waiting? && !q.threads[t].Waiting? && !q.threads[t].Answered?
    ensures Pipes(q)
  {
    hide Clean, Owes;
    forall j: nat | j < p.size && Awaited(p, j) ensures Awaited(q, j) {
      var u :| 0 <= u < |p.threads| && p.threads[u].Waiting? && p.threads[u].index == j;
      assert q.threads[u] == p.threads[u];
    }
  }

  /** What a thread knows about the worker it holds. */
  lemma HolderKnows(p: Pool, t: nat)
    requires Inv(p) && t < |p.threads| && p.threads[t].HoldsSome()
    ensures var w := p.workers[p.threads[t].index];
            if p.threads[t].Waiting? then Owes(w, p.threads[t].ticket) else Clean(w)
  {
    hide HoldersOf, Occurrences, Active, Holders;
    var i := p.threads[t].index;
    if Awaited(p, i) && !p.threads[t].Waiting? {
      var u :| 0 <= u < |p.threads| && p.threads[u].Waiting? && p.threads[u].index == i;
      HeldOnce(p, t, u);
    }
  }

  /** A holder moves on, leaving its worker as its new phase requires. */
  lemma HolderStep(p: Pool, q: Pool, t: nat)
    requires Inv(p) && t < |p.threads| && p.threads[t].HoldsSome()
    requires |q.threads| == |p.threads| && q.threads == p.threads[t := q.threads[t]]
    requires q.threads[t].HoldsSome() && q.threads[t].index == p.threads[t].index
    requires q.size == p.size && |q.workers| == |p.workers| && p.threads[t].index < |p.workers|
    requires q.workers == p.workers[p.threads[t].index := q.workers[p.threads[t].index]]
    requires var w := q.workers[p.threads[t].index];
             if q.threads[t].Waiting? then Owes(w, q.threads[t].ticket) else Clean(w)
    requires q.threads[t].Answered? ==> q.threads[t].reply == q.threads[t].ticket
    ensures Pipes(q)
  {
    hide Clean, Owes, HoldersOf, Occurrences, Active, Holders;
    var i := p.threads[t].index;
    forall u: nat | u < |q.threads| && u != t && q.threads[u].HoldsSome() ensures q.threads[u].index != i {
      HeldOnce(p, t, u);
    }
    if q.threads[t].Waiting? {
      assert Awaited(q, i);
    }
    forall j: nat | j < p.size && j != i && Awaited(p, j) ensures Awaited(q, j) {
      var u :| 0 <= u < |p.threads| && p.threads[u].Waiting? && p.threads[u].index == j;
      assert q.threads[u] == p.threads[u];
    }
  }

  /** A worker answers or stops: whoever waits for it still can. */
  lemma WorkerStep(p: Pool, q: Pool, i: nat)
    requires Pipes(p) && i < p.size && q.threads == p.threads && q.size == p.size
    requires |q.workers| == |p.workers| && q.workers == p.workers[i := q.workers[i]]
    requires Clean(p.workers[i]) ==> Clean(q.workers[i])
    requires forall k :: Owes(p.workers[i], k) ==> Owes(q.workers[i], k)
    ensures Pipes(q)
  {
    hide Clean, Owes;
    forall j: nat ensures Awaited(q, j) == Awaited(p, j) {
    }
  }

  lemma PipesAfter(p: Pool, a: Action)
    requires Inv(p) && Enabled(p, a)
    ensures Pipes(Step(p, a))
  {
    hide HoldersOf, Occurrences, Active, Holders;
    var q := Step(p, a);
    match a
    case Answer(i) => WorkerStep(p, q, i);
    case Crash(i) => WorkerStep(p, q, i);
    case Exit(i) => WorkerStep(p, q, i);
    case Check(t, spawned) =>
      HolderKnows(p, t);
      HolderStep(p, q, t);
    case Write(t, _) =>
      HolderKnows(p, t);
      HolderStep(p, q, t);
    case Read(t) =>
      HolderKnows(p, t);
      HolderStep(p, q, t);
    case ReadEof(t, _) =>
      HolderKnows(p, t);
      HolderStep(p, q, t);
    case _ =>
      NonWaitingStep(p, q, a.t);
  }

  lemma StepKeepsInv(p: Pool, a: Action)
    requires Inv(p) && Enabled(p, a)
    ensures Inv(Step(p, a))
  {
    AccountsAfter(p, a);
    PartitionAfter(p, a);
    PipesAfter(p, a);
  }

  lemma {:induction false} RunKeepsInv(p: Pool, run: seq<Action>)
    requires Inv(p) && Feasible(p, run)
    ensures Inv(After(p, run))
    decreases |run|
  {
    if run != [] {
      StepKeepsInv(p, run[0]);
      RunKeepsInv(Step(p, run[0]), run[1..]);
    }
  }

  lemma {:induction false} IdleCounts(threads: seq<Phase>)
    requires forall t | 0 <= t < |threads| :: threads[t].Idle?
    ensures Active(threads) == 0 && Holders(threads) == 0 && forall i :: HoldersOf(threads, i) == 0
  {
    if threads != [] {
      IdleCounts(threads[..|threads| - 1]);
    }
  }

  lemma {:induction false} CountUp(queue: seq<nat>, from: nat, i: nat)
    requires forall k | 0 <= k < |queue| :: queue[k] == from + k
    ensures Occurrences(queue, i) == if from <= i < from + |queue| then 1 else 0
  {
    if queue != [] {
      CountUp(queue[1..], from + 1, i);
    }
  }

  lemma InitInv(p: Pool)
    requires Init(p)
    ensures Inv(p)
  {
    IdleCounts(p.threads);
    forall i: nat | i < p.size ensures Occurrences(p.queue, i) + HoldersOf(p.threads, i) == 1 {
      CountUp(p.queue, 0, i);
    }
  }

  // ---- What holds after every run, for any pool size and any number of threads ----

  /** Free and held indices partition the pool: each is in the queue once, or held by one thread, never both. */
  lemma IndicesArePartitioned(p: Pool, run: seq<Action>)
    requires Init(p) && Feasible(p, run)
    ensures var q := After(p, run);
            && (forall i: nat | i < q.size :: Occurrences(q.queue, i) + HoldersOf(q.threads, i) == 1)
            && (forall t: nat, u: nat | t < |q.threads| && u < |q.threads| && t != u ::
                  (q.threads[t].HoldsSome() && q.threads[u].HoldsSome()) ==> q.threads[t].index != q.threads[u].index)
            && q.permits <= q.size
  {
    InitInv(p);
    RunKeepsInv(p, run);
    var q := After(p, run);
    forall t: nat, u: nat
      | t < |q.threads| && u < |q.threads| && t != u && q.threads[t].HoldsSome() && q.threads[u].HoldsSome()
      ensures q.threads[t].index != q.threads[u].index
    {
      HeldOnce(q, t, u);
    }
  }

  /** The holder of a permit never blocks on the queue, and no index that is put back overflows it. */
  lemma QueueNeverBlocks(p: Pool, run: seq<Action>, t: nat)
    requires Init(p) && Feasible(p, run) && t < |After(p, run).threads|
    ensures var q := After(p, run);
            && (q.threads[t].Permitted? ==> Enabled(q, Take(t)))
            && (q.threads[t].Answered? || q.threads[t].Failed? ==> |q.queue| < q.size && Enabled(q, PutBack(t)))
  {
    InitInv(p);
    RunKeepsInv(p, run);
    HoldersAreActive(After(p, run).threads, t);
  }

  /**
    Every reply that is read answers the request its reader wrote, across crashes and replacements; and a
    serving worker that no thread waits for, so in particular a free one, has nothing outstanding.
   */
  lemma RepliesMatchRequests(p: Pool, run: seq<Action>)
    requires Init(p) && Feasible(p, run)
    ensures var q := After(p, run);
            && (forall t | 0 <= t < |q.threads| :: q.threads[t].Answered? ==> q.threads[t].reply == q.threads[t].ticket)
            && (forall i: nat | i < |q.workers| :: q.workers[i].life.Serving? && !Awaited(q, i) ==>
                  q.workers[i].inbox == [] && q.workers[i].outbox == [])
            && (forall k | 0 <= k < |q.queue| :: q.queue[k] < q.size && !Awaited(q, q.queue[k]))
  {
    InitInv(p);
    RunKeepsInv(p, run);
    var q := After(p, run);
    forall k | 0 <= k < |q.queue| ensures !Awaited(q, q.queue[k]) {
      QueueCounts(q.queue, k);
      if Awaited(q, q.queue[k]) {
        var t :| 0 <= t < |q.threads| && q.threads[t].Waiting? && q.threads[t].index == q.queue[k];
        HolderCounts(q.threads, t, q.queue[k]);
      }
    }
  }

  /** Nobody is stuck: every thread inside execute can step, or its worker still owes it the answer it waits for. */
  lemma NobodyIsStuck(p: Pool, run: seq<Action>, t: nat)
    requires Init(p) && Feasible(p, run) && t < |After(p, run).threads| && !After(p, run).threads[t].Idle?
    ensures var q := After(p, run);
            || Enabled(q, Take(t)) || Enabled(q, Check(t, true)) || Enabled(q, Write(t, true)) || Enabled(q, Read(t))
            || Enabled(q, ReadEof(t, true)) || Enabled(q, PutBack(t)) || Enabled(q, Release(t))
            || (q.threads[t].Waiting? && Enabled(q, Answer(q.threads[t].index))
                && q.workers[q.threads[t].index].inbox == [q.threads[t].ticket])
  {
    hide HoldersOf, Occurrences;
    InitInv(p);
    RunKeepsInv(p, run);
    QueueNeverBlocks(p, run, t);
    var q := After(p, run);
    if q.threads[t].HoldsSome() {
      HolderKnows(q, t);
    }
  }

  // ---- What the pool does for a thread ----

  /** Everything but thread t and worker i is as it was. */
  ghost predicate OnlyMoved(p: Pool, q: Pool, t: nat, i: nat) {
    && q.size == p.size && q.permits == p.permits && q.queue == p.queue
    && |q.threads| == |p.threads| && (forall u: nat | u < |p.threads| && u != t :: q.threads[u] == p.threads[u])
    && |q.workers| == |p.workers| && (forall j: nat | j < |p.workers| && j != i :: q.workers[j] == p.workers[j])
  }

  /** A worker found dead is replaced by a new one before it is used; if that fails, so does the request. */
  lemma DeadIsReplaced(p: Pool, t: nat, spawned: bool)
    requires Enabled(p, Check(t, spawned))
    ensures var q, i := Step(p, Check(t, spawned)), p.threads[t].index;
            && OnlyMoved(p, q, t, i)
            && (p.workers[i].life == Dead && spawned ==>
                  q.threads[t] == Ready(i) && q.workers[i] == Worker(Serving, [], []))
            && (p.workers[i].life == Dead && !spawned ==> q.threads[t] == Failed(i) && q.workers[i] == p.workers[i])
            && (p.workers[i].life != Dead ==> q.threads[t] == Ready(i) && q.workers[i] == p.workers[i])
  {
  }

  /** A worker that closed its output fails the request, and is replaced at once if it has exited. */
  lemma EofFails(p: Pool, t: nat, spawned: bool)
    requires Enabled(p, ReadEof(t, spawned))
    ensures var q, i := Step(p, ReadEof(t, spawned)), p.threads[t].index;
            && OnlyMoved(p, q, t, i) && q.threads[t] == Failed(i)
            && q.workers[i] == (if p.workers[i].life == Dead && spawned then Worker(Serving, [], []) else p.workers[i])
  {
  }

  /** With a permit there is an index. */
  lemma PermitMeansIndex(p: Pool)
    requires Accounts(p) && p.permits > 0
    ensures p.queue != [] && p.queue[0] < |p.workers|
  {
    HoldersAreActive(p.threads, |p.threads|);
  }

  /** A thread on its own takes these steps from idle to the answer. */
  function Served(t: nat, i: nat): seq<Action> {
    [Acquire(t), Take(t), Check(t, true), Write(t, true), Answer(i), Read(t)]
  }

  /**
    The pool serves: after any run, an idle thread, while a permit is left and the first free worker is not
    just closing, can acquire, take, check, write and read, and reads the answer to its own request.
   */
  lemma RequestCanBeServed(p: Pool, run: seq<Action>, t: nat)
    requires Init(p) && Feasible(p, run)
    requires var q := After(p, run); t < |q.threads| && q.threads[t] == Idle && q.permits > 0
    ensures var q := After(p, run);
            && q.queue != [] && q.queue[0] < |q.workers|
            && (q.workers[q.queue[0]].life != Closing ==>
                  && Feasible(q, Served(t, q.queue[0]))
                  && ReadOwn(After(q, Served(t, q.queue[0])), t, q.queue[0], q.nextTicket))
  {
    InitInv(p);
    RunKeepsInv(p, run);
    var q := After(p, run);
    PermitMeansIndex(q);
    if q.workers[q.queue[0]].life != Closing {
      FirstFreeIsClean(p, run);
      ServedFrom(q, t);
    }
  }

  lemma FirstFreeIsClean(p: Pool, run: seq<Action>)
    requires Init(p) && Feasible(p, run) && After(p, run).queue != []
    ensures var q := After(p, run); q.queue[0] < |q.workers| && Clean(q.workers[q.queue[0]])
  {
    RepliesMatchRequests(p, run);
    InitInv(p);
    RunKeepsInv(p, run);
    var q := After(p, run);
    assert !Awaited(q, q.queue[0]);
  }

  /** Thread t has read the answer k to its request k from worker i. */
  predicate ReadOwn(p: Pool, t: nat, i: nat, k: nat) {
    t < |p.threads| && p.threads[t] == Answered(i, k, k)
  }

  lemma AnswerIsRead(p: Pool, t: nat, i: nat, k: nat)
    requires t < |p.threads| && i < |p.workers| && p.threads[t] == Waiting(i, k)
    requires p.workers[i] == Worker(Serving, [k], [])
    ensures Feasible(p, [Answer(i), Read(t)]) && ReadOwn(After(p, [Answer(i), Read(t)]), t, i, k)
  {
    var q := Step(p, Answer(i));
    assert q.workers[i].outbox == [k];
    assert ReadOwn(Step(q, Read(t)), t, i, k);
    hide Step;
    NoStep(Step(q, Read(t)));
    OneStep(q, Read(t), []);
    OneStep(p, Answer(i), [Read(t)]);
  }

  lemma HolderIsServed(p: Pool, t: nat, i: nat)
    requires t < |p.threads| && i < |p.workers| && p.threads[t] == Holding(i)
    requires Clean(p.workers[i]) && p.workers[i].life != Closing
    ensures Feasible(p, [Check(t, true), Write(t, true), Answer(i), Read(t)])
    ensures ReadOwn(After(p, [Check(t, true), Write(t, true), Answer(i), Read(t)]), t, i, p.nextTicket)
  {
    var q := Step(p, Check(t, true));
    assert q.threads[t] == Ready(i) && q.workers[i] == Worker(Serving, [], []);
    var r := Step(q, Write(t, true));
    assert r.threads[t] == Waiting(i, p.nextTicket) && r.workers[i] == Worker(Serving, [p.nextTicket], []);
    hide Step;
    AnswerIsRead(r, t, i, p.nextTicket);
    OneStep(q, Write(t, true), [Answer(i), Read(t)]);
    OneStep(p, Check(t, true), [Write(t, true), Answer(i), Read(t)]);
  }

  lemma ServedFrom(q: Pool, t: nat)
    requires t < |q.threads| && q.threads[t] == Idle && q.permits > 0
    requires q.queue != [] && q.queue[0] < |q.workers|
    requires Clean(q.workers[q.queue[0]]) && q.workers[q.queue[0]].life != Closing
    ensures Feasible(q, Served(t, q.queue[0])) && ReadOwn(After(q, Served(t, q.queue[0])), t, q.queue[0], q.nextTicket)
  {
    var i := q.queue[0];
    var q1 := Step(q, Acquire(t));
    var q2 := Step(q1, Take(t));
    assert q2.threads[t] == Holding(i) && q2.workers == q.workers && q2.nextTicket == q.nextTicket;
    hide Step;
    HolderIsServed(q2, t, i);
    OneStep(q1, Take(t), [Check(t, true), Write(t, true), Answer(i), Read(t)]);
    OneStep(q, Acquire(t), [Take(t), Check(t, true), Write(t, true), Answer(i), Read(t)]);
  }

  lemma NoStep(p: Pool)
    ensures Feasible(p, []) && After(p, []) == p
  {
  }

  lemma OneStep(p: Pool, a: Action, rest: seq<Action>)
    requires Enabled(p, a)
    ensures Feasible(p, [a] + rest) <==> Feasible(Step(p, a), rest)
    ensures Feasible(p, [a] + rest) ==> After(p, [a] + rest) == After(Step(p, a), rest)
  {
    hide Step;
    assert ([a] + rest)[1..] == rest;
  }
}
