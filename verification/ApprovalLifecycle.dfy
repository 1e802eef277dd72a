/**
  One approval request, driven by API, email-link and Slack decisions, escalation, refreshes, reminders,
  the clock and a durable workflow. Every endpoint is one atomic step: a step that raises is rolled back,
  the others commit. Escalation takes no row lock in the program, so its atomicity is an assumption.
  Within a step the clock is read anew wherever the program reads it. Times are whole seconds.
 */
module ApprovalLifecycle {
  import opened DecisionToken
  import opened Text
  import opened Wrappers

  const HOUR := 3600

  datatype Settings = Settings(defaultSlaHours: int, maxSlaHours: int, escalationExtensionHours: int) {
    predicate Valid() {
      0 < defaultSlaHours <= maxSlaHours
    }
  }

  datatype Status = Pending | Approved | Rejected

  datatype WorkflowStatus = Running | Completed | Failed | Escalated

  /** Audit events about this approval. */
  datatype Audit = Decided(decision: Status) | EscalationTo(expiresAt: int) | ReminderSent

  /**
    The approval row together with its audit events, and one piece of history that the program does not keep:
    checkedAt, the reading of the clock that the last expiry check before the decision saw.
   */
  datatype Approval = Approval(
    status: Status,
    workflowStatus: WorkflowStatus,
    createdAt: int,
    expiresAt: int,
    slaHours: int,
    tokenVersion: nat,
    decisionAt: Option<int>,
    checkedAt: Option<int>,
    reminderSentAt: Option<int>,
    hasWorkflow: bool,
    fallbackMode: string,
    audit: seq<Audit>
  )

  /** The readings of the clock within one step, in their order; the last one stamps the row. */
  datatype Times = Times(entry: int, refreshed: int, checked: int, stamped: int) {
    predicate InOrder() {
      entry <= refreshed <= checked <= stamped
    }
  }

  datatype Reply = Done | Conflict | Gone | Superseded | Invalid | NotFound | Forbidden | TooMany

  function ResolveSlaHours(slaHours: Option<int>, cfg: Settings): (hours: int)
    requires cfg.Valid()
    ensures 0 < hours <= cfg.maxSlaHours
    ensures slaHours.Some? && 0 < slaHours.value <= cfg.maxSlaHours ==> hours == slaHours.value
  {
    if slaHours.None? || slaHours.value <= 0 then cfg.defaultSlaHours else Min(slaHours.value, cfg.maxSlaHours)
  }

  function Create(now: int, slaHours: Option<int>, hasWorkflow: bool, fallbackMode: string, cfg: Settings): Approval
    requires cfg.Valid()
  {
    var hours := ResolveSlaHours(slaHours, cfg);
    Approval(Pending, Running, now, now + hours * HOUR, hours, 0, None, None, None, hasWorkflow, fallbackMode, [])
  }

  // ---- The endpoints as functions ----

  function Refresh(a: Approval, now: int): Approval {
    if a.status != Pending then a.(workflowStatus := Completed)
    else if now > a.expiresAt && (a.workflowStatus.Running? || a.workflowStatus.Escalated?) then
      a.(workflowStatus := Failed,
         fallbackMode := if a.fallbackMode == "none" then "timeout_enforced" else a.fallbackMode)
    else a
  }

  function Record(a: Approval, decision: Status, t: Times, delivered: bool): Approval {
    a.(status := decision, decisionAt := Some(t.stamped), checkedAt := Some(t.checked), workflowStatus := Completed,
       fallbackMode := if a.hasWorkflow && !delivered then "signal_retry_exhausted" else a.fallbackMode,
       audit := a.audit + [Decided(decision)])
  }

  /** The approve, reject and decide endpoints; a refused call is rolled back. */
  function Decide(a: Approval, decision: Status, t: Times, delivered: bool): (Approval, Reply) {
    if a.status != Pending then (a, Conflict)
    else if t.checked > a.expiresAt then (a, Gone)
    else (Record(a, decision, t, delivered), Done)
  }

  function DecisionOf(word: string): Status {
    if word == "approved" then Approved else Rejected
  }

  /** The one-click link: a verified token for this approval, of the current version. */
  function DecideViaEmail(a: Approval, id: string, token: string, limited: bool, t: Times, delivered: bool, mac: Mac)
    : (Approval, Reply)
  {
    var parsed := VerifyToken(token, t.entry, mac);
    if parsed.None? then (a, Invalid)
    else if limited then (a, TooMany)
    else if parsed.value.approvalId != id then (a, NotFound)
    else if a.status != Pending then (a, Conflict)
    else if parsed.value.version.Some? && parsed.value.version.value != a.tokenVersion then (a, Superseded)
    else Decide(a, DecisionOf(parsed.value.decision), t, delivered)
  }

  /** The Slack handler turns an expiry found on loading into an answer, so that the refresh before it commits. */
  function DecideViaSlack(a: Approval, decision: Status, authorized: bool, t: Times, delivered: bool)
    : (Approval, Reply)
  {
    if !authorized then (a, Forbidden)
    else if a.status != Pending then (a, Conflict)
    else if t.entry > a.expiresAt then (a, Gone)
    else if t.checked > a.expiresAt then (Refresh(a, t.refreshed), Gone)
    else (Record(a, decision, t, delivered), Done)
  }

  function Escalate(a: Approval, now: int, delivered: bool, cfg: Settings): (Approval, Reply) {
    if a.status != Pending then (a, Conflict)
    else
      var expiresAt := Min(now + cfg.escalationExtensionHours * HOUR, a.createdAt + cfg.maxSlaHours * HOUR);
      (a.(tokenVersion := a.tokenVersion + 1, workflowStatus := Escalated, expiresAt := expiresAt,
          fallbackMode := if a.hasWorkflow && !delivered then "signal_retry_exhausted" else a.fallbackMode,
          audit := a.audit + [EscalationTo(expiresAt)]),
       Done)
  }

  function DispatchReminder(a: Approval, now: int): Approval {
    if a.status != Pending || a.reminderSentAt.Some? then a
    else a.(reminderSentAt := Some(now), audit := a.audit + [ReminderSent])
  }

  // ---- The endpoints as the program runs them, on the row in place ----

  class ApprovalRow {
    var row: Approval

    constructor (now: int, slaHours: Option<int>, hasWorkflow: bool, fallbackMode: string, cfg: Settings)
      requires cfg.Valid()
      ensures row == Create(now, slaHours, hasWorkflow, fallbackMode, cfg)
    {
      var hours := if slaHours.None? || slaHours.value <= 0 then cfg.defaultSlaHours
                   else Min(slaHours.value, cfg.maxSlaHours);
      row := Approval(Pending, Running, now, now + hours * HOUR, hours, 0, None, None, None,
                      hasWorkflow, fallbackMode, []);
    }

    method RefreshWorkflowState(now: int)
      modifies this
      ensures row == Refresh(old(row), now)
    {
      if row.status in {Approved, Rejected} && row.workflowStatus != Completed {
        row := row.(workflowStatus := Completed);
      }
      if row.status == Pending && now > row.expiresAt && row.workflowStatus in {Running, Escalated} {
        row := row.(workflowStatus := Failed);
        if row.fallbackMode == "none" {
          row := row.(fallbackMode := "timeout_enforced");
        }
      }
    }

    /** Anything but Done is an exception that the caller's transaction rolls back. */
    method LoadPending(refreshed: int, checked: int) returns (reply: Reply)
      modifies this
      ensures row == Refresh(old(row), refreshed)
      ensures reply == if row.status != Pending then Conflict else if checked > row.expiresAt then Gone else Done
    {
      RefreshWorkflowState(refreshed);
      if row.status != Pending {
        return Conflict;
      }
      if checked > row.expiresAt {
        return Gone;
      }
      return Done;
    }

    method ApplyDecision(decision: Status, t: Times, delivered: bool)
      modifies this
      ensures row == Record(old(row), decision, t, delivered)
    {
      row := row.(status := decision);
      row := row.(decisionAt := Some(t.stamped), checkedAt := Some(t.checked));
      row := row.(workflowStatus := Completed);
      if row.hasWorkflow && !delivered {
        row := row.(fallbackMode := "signal_retry_exhausted");
      }
      row := row.(audit := row.audit + [Decided(decision)]);
    }

    method DecideApproval(decision: Status, t: Times, delivered: bool) returns (reply: Reply)
      requires t.InOrder()
      modifies this
      ensures (row, reply) == Decide(old(row), decision, t, delivered)
    {
      var committed := row;
      reply := LoadPending(t.refreshed, t.checked);
      if reply != Done {
        row := committed;
        return;
      }
      ApplyDecision(decision, t, delivered);
    }

    method DecideViaEmailPost(id: string, token: string, limited: bool, t: Times, delivered: bool, mac: Mac)
      returns (reply: Reply)
      modifies this
      ensures (row, reply) == DecideViaEmail(old(row), id, token, limited, t, delivered, mac)
    {
      hide VerifyToken;
      var parsed := VerifyToken(token, t.entry, mac);
      if parsed.None? {
        return Invalid;
      }
      if limited {
        return TooMany;
      }
      if parsed.value.approvalId != id {
        return NotFound;
      }
      if row.status != Pending {
        return Conflict;
      }
      var version := parsed.value.version;
      if version.Some? && version.value != row.tokenVersion {
        return Superseded;
      }
      if t.checked > row.expiresAt {
        return Gone;
      }
      ApplyDecision(DecisionOf(parsed.value.decision), t, delivered);
      return Done;
    }

    method HandleSlackInteractivity(decision: Status, authorized: bool, t: Times, delivered: bool)
      returns (reply: Reply)
      requires t.InOrder()
      modifies this
      ensures (row, reply) == DecideViaSlack(old(row), decision, authorized, t, delivered)
    {
      if !authorized {
        return Forbidden;
      }
      if row.status != Pending {
        return Conflict;
      }
      if t.entry > row.expiresAt {
        return Gone;
      }
      reply := LoadPending(t.refreshed, t.checked);
      if reply != Done {
        return;
      }
      ApplyDecision(decision, t, delivered);
    }

    method EscalateApproval(now: int, delivered: bool, cfg: Settings) returns (reply: Reply)
      modifies this
      ensures (row, reply) == Escalate(old(row), now, delivered, cfg)
    {
      if row.status != Pending {
        return Conflict;
      }
      row := row.(tokenVersion := row.tokenVersion + 1);
      row := row.(workflowStatus := Escalated);
      var absoluteCap := row.createdAt + cfg.maxSlaHours * HOUR;
      var proposedExpiry := now + cfg.escalationExtensionHours * HOUR;
      row := row.(expiresAt := Min(proposedExpiry, absoluteCap));
      if row.hasWorkflow && !delivered {
        row := row.(fallbackMode := "signal_retry_exhausted");
      }
      row := row.(audit := row.audit + [EscalationTo(row.expiresAt)]);
      return Done;
    }

    method SendReminder(now: int)
      modifies this
      ensures row == DispatchReminder(old(row), now)
    {
      if row.status != Pending {
        return;
      }
      if row.reminderSentAt.Some? {
        return;
      }
      row := row.(reminderSentAt := Some(now));
      row := row.(audit := row.audit + [ReminderSent]);
    }
  }

  // ---- The durable workflow ----

  datatype Phase = FirstWait | Reminding | SecondWait | Returned(result: Option<Status>)

  /** The workflow's own variables; a result of None is its "failed". */
  datatype Flow = Flow(decision: Option<Status>, status: WorkflowStatus, phase: Phase)

  const NEW_FLOW := Flow(None, Running, FirstWait)

  function ReminderSeconds(slaHours: int): int {
    Max(HOUR, slaHours * HOUR / 2)
  }

  datatype System = System(approval: Approval, flow: Flow, clock: int)

  /** delivered is what the sender of a signal is told; reached is whether the workflow got it. */
  datatype Signal = Signal(reached: bool, delivered: bool)

  datatype Action =
    | Look
    | ApiDecision(decision: Status, signal: Signal)
    | EmailDecision(token: string, limited: bool, signal: Signal)
    | SlackDecision(decision: Status, authorized: bool, signal: Signal)
    | Escalation(signal: Signal)
    | ReminderActivity
    | FlowSeesDecision
    | FlowReminderTimeout
    | FlowReminderDone
    | FlowFinalTimeout

  /** An action and its readings of the clock; an action with one reading takes the last. */
  datatype Event = Event(action: Action, t: Times)

  datatype World = World(cfg: Settings, id: string, mac: Mac)

  predicate SignalOk(signal: Signal) {
    signal.delivered ==> signal.reached
  }

  predicate Enabled(s: System, e: Event) {
    && s.clock <= e.t.entry && e.t.InOrder()
    && var f, a := s.flow, s.approval;
       match e.action
       case ApiDecision(decision, signal) => decision != Pending && SignalOk(signal)
       case EmailDecision(_, _, signal) => SignalOk(signal)
       case SlackDecision(decision, _, signal) => decision != Pending && SignalOk(signal)
       case Escalation(signal) => SignalOk(signal)
       case FlowSeesDecision => a.hasWorkflow && (f.phase.FirstWait? || f.phase.SecondWait?) && f.decision.Some?
       case FlowReminderTimeout =>
         a.hasWorkflow && f.phase.FirstWait? && e.t.stamped >= a.createdAt + ReminderSeconds(a.slaHours)
       case FlowReminderDone => a.hasWorkflow && f.phase.Reminding?
       case FlowFinalTimeout => a.hasWorkflow && f.phase.SecondWait? && e.t.stamped >= a.createdAt + a.slaHours * HOUR
       case _ => true
  }

  /** The human_decision signal, sent only after a decision was recorded; a finished workflow ignores it. */
  function SignalDecision(f: Flow, was: Approval, a: Approval, reply: Reply, signal: Signal): Flow {
    if reply.Done? && was.hasWorkflow && signal.reached && !f.phase.Returned? then
      f.(decision := Some(a.status), status := Completed)
    else f
  }

  function SignalEscalation(f: Flow, was: Approval, reply: Reply, signal: Signal): Flow {
    if reply.Done? && was.hasWorkflow && signal.reached && !f.phase.Returned? && f.decision.None? then
      f.(status := Escalated)
    else f
  }

  function Next(s: System, e: Event, w: World): System {
    var a, f, t, now := s.approval, s.flow, e.t, e.t.stamped;
    match e.action
    case Look => System(Refresh(a, now), f, now)
    case ApiDecision(decision, signal) =>
      var (b, reply) := Decide(a, decision, t, signal.delivered);
      System(b, SignalDecision(f, a, b, reply, signal), now)
    case EmailDecision(token, limited, signal) =>
      var (b, reply) := DecideViaEmail(a, w.id, token, limited, t, signal.delivered, w.mac);
      System(b, SignalDecision(f, a, b, reply, signal), now)
    case SlackDecision(decision, authorized, signal) =>
      var (b, reply) := DecideViaSlack(a, decision, authorized, t, signal.delivered);
      System(b, SignalDecision(f, a, b, reply, signal), now)
    case Escalation(signal) =>
      var (b, reply) := Escalate(a, now, signal.delivered, w.cfg);
      System(b, SignalEscalation(f, a, reply, signal), now)
    case ReminderActivity => System(DispatchReminder(a, now), f, now)
    case FlowSeesDecision => System(a, f.(phase := Returned(f.decision), status := Completed), now)
    case FlowReminderTimeout => System(a, f.(phase := Reminding), now)
    case FlowReminderDone =>
      System(a, if f.decision.Some? then f.(phase := Returned(f.decision), status := Completed)
                else f.(phase := SecondWait), now)
    case FlowFinalTimeout => System(a, f.(phase := Returned(None), status := Failed), now)
  }

  ghost predicate Feasible(s: System, run: seq<Event>, w: World)
    decreases |run|
  {
    run == [] || (Enabled(s, run[0]) && Feasible(Next(s, run[0], w), run[1..], w))
  }

  function After(s: System, run: seq<Event>, w: World): System
    decreases |run|
  {
    if run == [] then s else After(Next(s, run[0], w), run[1..], w)
  }

  function Begin(now: int, slaHours: Option<int>, hasWorkflow: bool, fallbackMode: string, w: World): System
    requires w.cfg.Valid()
  {
    System(Create(now, slaHours, hasWorkflow, fallbackMode, w.cfg), NEW_FLOW, now)
  }

  // ---- Safety over every run ----

  function Count(audit: seq<Audit>, e: Audit): nat {
    if audit == [] then 0
    else (if audit[|audit| - 1] == e then 1 else 0) + Count(audit[..|audit| - 1], e)
  }

  lemma CountAppend(audit: seq<Audit>, x: Audit, e: Audit)
    ensures Count(audit + [x], e) == Count(audit, e) + (if x == e then 1 else 0)
  {
    assert (audit + [x])[..|audit|] == audit;
  }

  ghost predicate RowInv(a: Approval, clock: int, cfg: Settings) {
    // one decision event exactly if decided, of that decision, and nothing after it
    && Count(a.audit, Decided(Approved)) == (if a.status.Approved? then 1 else 0)
    && Count(a.audit, Decided(Rejected)) == (if a.status.Rejected? then 1 else 0)
    && Count(a.audit, Decided(Pending)) == 0
    && (!a.status.Pending? ==> a.audit != [] && a.audit[|a.audit| - 1] == Decided(a.status))
    // found unexpired before it was decided
    && (a.status.Pending? <==> a.decisionAt.None?) && (a.status.Pending? <==> a.checkedAt.None?)
    && (a.decisionAt.Some? ==> a.checkedAt.value <= a.expiresAt && a.checkedAt.value <= a.decisionAt.value)
    && a.expiresAt <= a.createdAt + cfg.maxSlaHours * HOUR
    // the workflow column
    && (a.workflowStatus.Completed? <==> !a.status.Pending?)
    && (a.workflowStatus.Failed? ==> a.status.Pending? && clock > a.expiresAt)
    // one reminder at most, and before any decision
    && Count(a.audit, ReminderSent) == (if a.reminderSentAt.Some? then 1 else 0)
    && (a.reminderSentAt.Some? ==> a.reminderSentAt.value <= clock)
    && (a.reminderSentAt.Some? && a.decisionAt.Some? ==> a.reminderSentAt.value <= a.decisionAt.value)
  }

  ghost predicate FlowInv(f: Flow, a: Approval) {
    && (f.decision.Some? ==> f.decision.value == a.status && !a.status.Pending?)
    && (f.phase.Returned? && f.phase.result.Some? ==> f.phase.result.value == a.status && !a.status.Pending?)
  }

  ghost predicate Inv(s: System, cfg: Settings) {
    RowInv(s.approval, s.clock, cfg) && FlowInv(s.flow, s.approval)
  }

  lemma CountsAppend(audit: seq<Audit>, x: Audit)
    ensures forall e :: Count(audit + [x], e) == Count(audit, e) + (if x == e then 1 else 0)
  {
    forall e ensures Count(audit + [x], e) == Count(audit, e) + (if x == e then 1 else 0) {
      CountAppend(audit, x, e);
    }
  }

  lemma DecideKeepsInv(a: Approval, decision: Status, t: Times, delivered: bool, cfg: Settings, clock: int)
    requires RowInv(a, clock, cfg) && clock <= t.entry && t.InOrder() && decision != Pending
    ensures RowInv(Decide(a, decision, t, delivered).0, t.stamped, cfg)
  {
    hide Count;
    CountsAppend(a.audit, Decided(decision));
  }

  lemma SlackKeepsInv(a: Approval, decision: Status, authorized: bool, t: Times, delivered: bool,
                      cfg: Settings, clock: int)
    requires RowInv(a, clock, cfg) && clock <= t.entry && t.InOrder() && decision != Pending
    ensures RowInv(DecideViaSlack(a, decision, authorized, t, delivered).0, t.stamped, cfg)
  {
    hide Count;
    DecideKeepsInv(a, decision, t, delivered, cfg, clock);
  }

  lemma EscalateKeepsInv(a: Approval, now: int, delivered: bool, cfg: Settings, clock: int)
    requires RowInv(a, clock, cfg) && clock <= now
    ensures RowInv(Escalate(a, now, delivered, cfg).0, now, cfg)
  {
    hide Count;
    CountsAppend(a.audit, EscalationTo(Escalate(a, now, delivered, cfg).0.expiresAt));
  }

  lemma ReminderKeepsInv(a: Approval, now: int, cfg: Settings, clock: int)
    requires RowInv(a, clock, cfg) && clock <= now
    ensures RowInv(DispatchReminder(a, now), now, cfg)
  {
    hide Count;
    CountsAppend(a.audit, ReminderSent);
  }

  lemma QuietKeepsInv(a: Approval, now: int, cfg: Settings, clock: int)
    requires RowInv(a, clock, cfg) && clock <= now
    ensures RowInv(a, now, cfg) && RowInv(Refresh(a, now), now, cfg)
  {
    hide Count;
  }

  lemma NextKeepsRow(s: System, e: Event, w: World)
    requires Inv(s, w.cfg) && Enabled(s, e)
    ensures RowInv(Next(s, e, w).approval, e.t.stamped, w.cfg)
  {
    hide RowInv, VerifyToken, Decide, DecideViaSlack, Escalate, DispatchReminder, Refresh;
    var a, t, now := s.approval, e.t, e.t.stamped;
    QuietKeepsInv(a, now, w.cfg, s.clock);
    match e.action
    case ApiDecision(decision, signal) =>
      DecideKeepsInv(a, decision, t, signal.delivered, w.cfg, s.clock);
    case SlackDecision(decision, authorized, signal) =>
      SlackKeepsInv(a, decision, authorized, t, signal.delivered, w.cfg, s.clock);
    case EmailDecision(token, _, signal) =>
      var parsed := VerifyToken(token, t.entry, w.mac);
      if parsed.Some? {
        DecideKeepsInv(a, DecisionOf(parsed.value.decision), t, signal.delivered, w.cfg, s.clock);
      }
    case Escalation(signal) =>
      EscalateKeepsInv(a, now, signal.delivered, w.cfg, s.clock);
    case ReminderActivity =>
      ReminderKeepsInv(a, now, w.cfg, s.clock);
    case _ =>
  }

  lemma NextKeepsFlow(s: System, e: Event, w: World)
    requires Inv(s, w.cfg) && Enabled(s, e)
    ensures FlowInv(Next(s, e, w).flow, Next(s, e, w).approval)
  {
    hide RowInv, VerifyToken;
  }

  lemma NextKeepsInv(s: System, e: Event, w: World)
    requires Inv(s, w.cfg) && Enabled(s, e)
    ensures Inv(Next(s, e, w), w.cfg)
  {
    hide RowInv, FlowInv, VerifyToken;
    NextKeepsRow(s, e, w);
    NextKeepsFlow(s, e, w);
  }

  lemma {:induction false} RunKeepsInv(s: System, run: seq<Event>, w: World)
    requires Inv(s, w.cfg) && Feasible(s, run, w)
    ensures Inv(After(s, run, w), w.cfg)
    decreases |run|
  {
    if run != [] {
      NextKeepsInv(s, run[0], w);
      RunKeepsInv(Next(s, run[0], w), run[1..], w);
    }
  }

  lemma BeginInv(now: int, slaHours: Option<int>, hasWorkflow: bool, fallbackMode: string, w: World)
    requires w.cfg.Valid()
    ensures Inv(Begin(now, slaHours, hasWorkflow, fallbackMode, w), w.cfg)
  {
    var hours := ResolveSlaHours(slaHours, w.cfg);
    assert hours * HOUR <= w.cfg.maxSlaHours * HOUR;
  }

  /**
    The safety of an approval, after every run: one decision event exactly if decided and it is the last
    event; the expiry check before it read a time no later than the expiry and than the decision; the expiry
    within max_sla of creation through any chain of escalations; workflow_status "completed" exactly if
    decided and "failed" only if pending and past expiry; at most one reminder, none after a decision; and a
    workflow that returned a decision agrees with the row.
   */
  lemma ApprovalIsSafe(now: int, slaHours: Option<int>, hasWorkflow: bool, fallbackMode: string,
                       run: seq<Event>, w: World)
    requires w.cfg.Valid() && Feasible(Begin(now, slaHours, hasWorkflow, fallbackMode, w), run, w)
    ensures Inv(After(Begin(now, slaHours, hasWorkflow, fallbackMode, w), run, w), w.cfg)
  {
    BeginInv(now, slaHours, hasWorkflow, fallbackMode, w);
    RunKeepsInv(Begin(now, slaHours, hasWorkflow, fallbackMode, w), run, w);
  }

  /**
    Every decision, through whatever channel: the check passed at a reading within the expiry, and the row is
    stamped with a later one.
   */
  lemma DecidedAfterCheck(s: System, e: Event, w: World)
    requires Enabled(s, e) && s.approval.status.Pending? && !Next(s, e, w).approval.status.Pending?
    ensures var a := Next(s, e, w).approval;
            && a.checkedAt == Some(e.t.checked) && e.t.checked <= s.approval.expiresAt == a.expiresAt
            && a.decisionAt == Some(e.t.stamped) && e.t.checked <= e.t.stamped
  {
    hide VerifyToken;
  }

  /** No decision falls after the expiry. */
  predicate StampedInTime(a: Approval) {
    a.decisionAt.Some? ==> a.decisionAt.value <= a.expiresAt
  }

  /** The request that starts at time n gets past every check but the ones of status and expiry. */
  predicate Accepts(s: System, action: Action, n: int, w: World) {
    match action
    case ApiDecision(_, _) => true
    case EmailDecision(token, limited, _) =>
      var parsed := VerifyToken(token, n, w.mac);
      && parsed.Some? && !limited && parsed.value.approvalId == w.id
      && (parsed.value.version.Some? ==> parsed.value.version.value == s.approval.tokenVersion)
    case SlackDecision(_, authorized, _) => authorized
    case _ => false
  }

  /** However the readings of an action fall that starts at n and takes at most d seconds. */
  ghost predicate AlwaysInTime(s: System, action: Action, n: int, d: nat, w: World) {
    forall t: Times | t.InOrder() && t.entry == n && t.stamped <= n + d ::
      StampedInTime(Next(s, Event(action, t), w).approval)
  }

  /**
    A decision on a pending approval is sure to be stamped within the expiry exactly if the request is refused
    anyway, starts after the expiry, or has time enough left for its whole duration.
   */
  lemma InTimeExactly(s: System, action: Action, n: int, d: nat, w: World)
    requires s.approval.status.Pending? && s.approval.decisionAt.None?
    ensures AlwaysInTime(s, action, n, d, w) <==>
            !Accepts(s, action, n, w) || n > s.approval.expiresAt || n + d <= s.approval.expiresAt
  {
    hide VerifyToken;
    if !Accepts(s, action, n, w) || n > s.approval.expiresAt || n + d <= s.approval.expiresAt {
      forall t: Times | t.InOrder() && t.entry == n && t.stamped <= n + d
        ensures StampedInTime(Next(s, Event(action, t), w).approval)
      {
        StampIsInTime(s, action, t, d, w);
      }
    } else {
      StampIsLate(s, action, n, d, w);
    }
  }

  lemma StampIsInTime(s: System, action: Action, t: Times, d: nat, w: World)
    requires s.approval.status.Pending? && s.approval.decisionAt.None?
    requires t.InOrder() && t.stamped <= t.entry + d
    requires !Accepts(s, action, t.entry, w) || t.entry > s.approval.expiresAt || t.entry + d <= s.approval.expiresAt
    ensures StampedInTime(Next(s, Event(action, t), w).approval)
  {
    hide VerifyToken;
  }

  lemma StampIsLate(s: System, action: Action, n: int, d: nat, w: World)
    requires s.approval.status.Pending? && Accepts(s, action, n, w)
    requires n <= s.approval.expiresAt < n + d
    ensures !StampedInTime(Next(s, Event(action, Times(n, n, n, n + d)), w).approval)
  {
    hide VerifyToken;
  }

  /** A decision that is checked in the last second and stamped in the next, from the start of any approval. */
  lemma LateStampOccurs(now: int, slaHours: Option<int>, hasWorkflow: bool, fallbackMode: string, w: World)
    returns (run: seq<Event>)
    requires w.cfg.Valid()
    ensures var s := Begin(now, slaHours, hasWorkflow, fallbackMode, w);
            && Feasible(s, run, w)
            && After(s, run, w).approval.status.Approved?
            && !StampedInTime(After(s, run, w).approval)
  {
    hide VerifyToken;
    var s := Begin(now, slaHours, hasWorkflow, fallbackMode, w);
    var end := s.approval.expiresAt;
    var decide := Event(ApiDecision(Approved, Signal(false, false)), Times(end, end, end, end + 1));
    LastStep(s, decide, w);
    run := [decide];
  }

  // ---- What an escalation does to the expiry ----

  /** An escalation does not bring the expiry forward exactly if the extension reaches at least as far. */
  lemma EscalationExtendsExactly(a: Approval, now: int, delivered: bool, cfg: Settings)
    requires a.status.Pending? && a.expiresAt <= a.createdAt + cfg.maxSlaHours * HOUR
    ensures Escalate(a, now, delivered, cfg).0.expiresAt >= a.expiresAt
       <==> now + cfg.escalationExtensionHours * HOUR >= a.expiresAt
  {
  }

  /** It can shorten the window: with an SLA of 168 hours, escalating after one moves the expiry to 25 hours. */
  lemma EscalationCanShorten(fallbackMode: string, delivered: bool)
    ensures var cfg := Settings(48, 168, 24);
            var a := Create(0, Some(168), true, fallbackMode, cfg);
            a.expiresAt == 168 * HOUR && Escalate(a, HOUR, delivered, cfg).0.expiresAt == 25 * HOUR
  {
  }

  // ---- A decision is final ----

  /** Two approvals that differ at most in columns that a decided approval no longer uses. */
  ghost predicate SameOutcome(a: Approval, b: Approval) {
    && a.status == b.status && a.decisionAt == b.decisionAt && a.checkedAt == b.checkedAt && a.audit == b.audit
    && a.expiresAt == b.expiresAt && a.tokenVersion == b.tokenVersion && a.reminderSentAt == b.reminderSentAt
  }

  /** Once decided, no step of any kind changes the outcome, its time, its audit events, expiry or reminders. */
  lemma {:induction false} DecisionIsFinal(s: System, run: seq<Event>, w: World)
    requires !s.approval.status.Pending?
    ensures SameOutcome(After(s, run, w).approval, s.approval)
    decreases |run|
  {
    hide VerifyToken;
    if run != [] {
      DecisionIsFinal(Next(s, run[0], w), run[1..], w);
    }
  }

  // ---- Superseded links ----

  lemma {:induction false} VersionsOnlyGrow(s: System, run: seq<Event>, w: World)
    ensures After(s, run, w).approval.tokenVersion >= s.approval.tokenVersion
    decreases |run|
  {
    hide VerifyToken;
    if run != [] {
      VersionsOnlyGrow(Next(s, run[0], w), run[1..], w);
    }
  }

  /**
    A link minted before an escalation of the pending approval never changes the approval in any later step:
    neither decision, at no time, after no further run. The link carries the version it was minted under.
   */
  lemma SupersededLinkIsDead(s: System, before: seq<Event>, escalation: Event, later: seq<Event>,
                             word: string, minted: int, click: Event, w: World)
    requires ColonFree(w.id) && (word == "approved" || word == "rejected") && forall m :: ColonFree(w.mac(m))
    requires escalation.action.Escalation? && After(s, before, w).approval.status.Pending?
    requires click.action.EmailDecision?
    requires click.action.token == MakeToken(w.id, word, s.approval.tokenVersion, minted, w.mac)
    ensures var t := After(Next(After(s, before, w), escalation, w), later, w);
            Next(t, click, w).approval == t.approval && Next(t, click, w).flow == t.flow
  {
    hide VerifyToken, MakeToken;
    VersionsOnlyGrow(s, before, w);
    var u := Next(After(s, before, w), escalation, w);
    VersionsOnlyGrow(u, later, w);
    TokenRoundTrip(w.id, word, s.approval.tokenVersion, minted, click.t.entry, w.mac);
  }

  /** A current link works: on a pending, unexpired approval it records exactly its decision. */
  lemma CurrentLinkDecides(s: System, word: string, minted: int, click: Event, w: World)
    requires ColonFree(w.id) && (word == "approved" || word == "rejected") && forall m :: ColonFree(w.mac(m))
    requires click.action.EmailDecision? && !click.action.limited
    requires click.action.token == MakeToken(w.id, word, s.approval.tokenVersion, minted, w.mac)
    requires s.approval.status.Pending?
    requires click.t.checked <= s.approval.expiresAt && click.t.entry <= minted + TOKEN_EXPIRY
    ensures var a, b := s.approval, Next(s, click, w).approval;
            && (word == "approved" ==> b.status == Approved && b.audit == a.audit + [Decided(Approved)])
            && (word == "rejected" ==> b.status == Rejected && b.audit == a.audit + [Decided(Rejected)])
            && b.decisionAt == Some(click.t.stamped) && b.workflowStatus == Completed
  {
    hide VerifyToken, MakeToken;
    TokenRoundTrip(w.id, word, s.approval.tokenVersion, minted, click.t.entry, w.mac);
  }

  // ---- Which approvals can still be granted ----

  /**
    Approved already, which a workflow that missed the signal does not know; or pending, and either not yet
    expired, or open to an escalation that gives it time: not past the ceiling, and not backwards.
   */
  predicate MayBeApproved(s: System, cfg: Settings) {
    var a := s.approval;
    || a.status.Approved?
    || (a.status.Pending?
        && (s.clock <= a.expiresAt
            || (cfg.escalationExtensionHours >= 0 && s.clock <= a.createdAt + cfg.maxSlaHours * HOUR)))
  }

  function At(now: int): Times {
    Times(now, now, now, now)
  }

  /** At most one escalation and one decision lead there. */
  lemma ApprovalIsInReach(s: System, w: World) returns (run: seq<Event>)
    requires MayBeApproved(s, w.cfg)
    ensures Feasible(s, run, w) && After(s, run, w).approval.status.Approved?
  {
    hide VerifyToken;
    var silent := Signal(false, false);
    var approve := Event(ApiDecision(Approved, silent), At(s.clock));
    if s.approval.status.Approved? {
      run := [];
    } else if s.clock <= s.approval.expiresAt {
      run := [approve];
      LastStep(s, approve, w);
    } else {
      var escalate := Event(Escalation(silent), At(s.clock));
      run := [escalate] + [approve];
      Prepend(s, escalate, [approve], w);
      LastStep(Next(s, escalate, w), approve, w);
    }
  }

  lemma NextStaysClosed(s: System, e: Event, w: World)
    requires Enabled(s, e) && !MayBeApproved(s, w.cfg)
    ensures !MayBeApproved(Next(s, e, w), w.cfg)
  {
    hide VerifyToken;
  }

  lemma {:induction false} StaysClosed(s: System, run: seq<Event>, w: World)
    requires Feasible(s, run, w) && !MayBeApproved(s, w.cfg)
    ensures !MayBeApproved(After(s, run, w), w.cfg)
    decreases |run|
  {
    if run != [] {
      NextStaysClosed(s, run[0], w);
      StaysClosed(Next(s, run[0], w), run[1..], w);
    }
  }

  /**
    What a workflow's "failed" leaves open: after any run that ends with it, some continuation has the
    approval granted exactly if MayBeApproved.
   */
  lemma FailedIsFinalExactly(now: int, slaHours: Option<int>, fallbackMode: string, run: seq<Event>, w: World)
    requires w.cfg.Valid() && Feasible(Begin(now, slaHours, true, fallbackMode, w), run, w)
    requires After(Begin(now, slaHours, true, fallbackMode, w), run, w).flow.phase == Returned(None)
    ensures var s := After(Begin(now, slaHours, true, fallbackMode, w), run, w);
            (exists more :: Feasible(s, more, w) && After(s, more, w).approval.status.Approved?)
            <==> MayBeApproved(s, w.cfg)
  {
    ApprovableExactly(After(Begin(now, slaHours, true, fallbackMode, w), run, w), w);
  }

  /** The same of any state of the system whatever, failed workflow or not. */
  lemma ApprovableExactly(s: System, w: World)
    ensures (exists more :: Feasible(s, more, w) && After(s, more, w).approval.status.Approved?)
       <==> MayBeApproved(s, w.cfg)
  {
    if more :| Feasible(s, more, w) && After(s, more, w).approval.status.Approved? {
      if !MayBeApproved(s, w.cfg) {
        StaysClosed(s, more, w);
      }
    }
    if MayBeApproved(s, w.cfg) {
      var more := ApprovalIsInReach(s, w);
    }
  }

  /** A workflow of the default settings whose reminder has gone out, with an escalation at the very end. */
  lemma EscalatedAtTheEnd(w: World) returns (run: seq<Event>)
    requires w.cfg == Settings(48, 168, 24)
    ensures var s, t := Begin(0, None, true, "none", w), After(Begin(0, None, true, "none", w), run, w);
            && Feasible(s, run, w)
            && t.flow == Flow(None, Escalated, SecondWait) && t.clock == 48 * HOUR
            && t.approval.status == Pending && t.approval.hasWorkflow && t.approval.slaHours == 48
            && t.approval.createdAt == 0 && t.approval.expiresAt == 72 * HOUR
  {
    hide VerifyToken;
    var end := 48 * HOUR;
    run := [Event(FlowReminderTimeout, At(24 * HOUR)), Event(FlowReminderDone, At(24 * HOUR)),
            Event(Escalation(Signal(true, true)), At(end))];
    var s0 := Begin(0, None, true, "none", w);
    var s1 := Next(s0, run[0], w);
    var s2 := Next(s1, run[1], w);
    hide Next;
    LastStep(s2, run[2], w);
    Prepend(s1, run[1], [run[2]], w);
    Prepend(s0, run[0], [run[1], run[2]], w);
  }

  /**
    A witness that the condition arises: escalation extends the row's expiry but not the workflow's timer, so
    a workflow returns "failed" while the approval is pending and unexpired, and the approval is granted.
   */
  lemma FailedFlowCanBeApproved(w: World) returns (run: seq<Event>)
    requires w.cfg == Settings(48, 168, 24)
    ensures var s := Begin(0, None, true, "none", w);
            && Feasible(s, run, w)
            && After(s, run, w).flow.phase == Returned(None)
            && After(s, run, w).approval.status == Approved
  {
    hide VerifyToken;
    var s, end := Begin(0, None, true, "none", w), 48 * HOUR;
    var first := EscalatedAtTheEnd(w);
    var t := After(s, first, w);
    hide Begin;
    var fail := Event(FlowFinalTimeout, At(end));
    var approve := Event(ApiDecision(Approved, Signal(false, false)), At(end + 1));
    LastStep(Next(t, fail, w), approve, w);
    Prepend(t, fail, [approve], w);
    RunConcat(s, first, [fail] + [approve], w);
    run := first + ([fail] + [approve]);
  }

  lemma {:induction false} RunConcat(s: System, a: seq<Event>, b: seq<Event>, w: World)
    requires Feasible(s, a, w) && Feasible(After(s, a, w), b, w)
    ensures Feasible(s, a + b, w) && After(s, a + b, w) == After(After(s, a, w), b, w)
    decreases |a|
  {
    hide Next, Enabled;
    if a == [] {
      assert a + b == b;
    } else {
      assert (a + b)[1..] == a[1..] + b;
      RunConcat(Next(s, a[0], w), a[1..], b, w);
    }
  }

  lemma LastStep(s: System, e: Event, w: World)
    ensures Feasible(s, [e], w) == Enabled(s, e) && After(s, [e], w) == Next(s, e, w)
  {
    assert [e][1..] == [];
  }

  lemma Prepend(s: System, e: Event, rest: seq<Event>, w: World)
    ensures Feasible(s, [e] + rest, w) == (Enabled(s, e) && Feasible(Next(s, e, w), rest, w))
    ensures After(s, [e] + rest, w) == After(Next(s, e, w), rest, w)
  {
    assert ([e] + rest)[1..] == rest;
  }

  // ---- What each step does, outright ----

  /** The SLA: the default for none or a senseless one, else the request up to the maximum. */
  lemma SlaExactly(slaHours: Option<int>, cfg: Settings)
    requires cfg.Valid()
    ensures var hours := ResolveSlaHours(slaHours, cfg);
            && (slaHours.None? ==> hours == cfg.defaultSlaHours)
            && (slaHours.Some? && slaHours.value <= 0 ==> hours == cfg.defaultSlaHours)
            && (slaHours.Some? && 0 < slaHours.value <= cfg.maxSlaHours ==> hours == slaHours.value)
            && (slaHours.Some? && slaHours.value > cfg.maxSlaHours ==> hours == cfg.maxSlaHours)
  {
  }

  /** A new approval is open for its SLA, of version 0, without decision, reminder or events. */
  lemma CreateExactly(now: int, slaHours: Option<int>, hasWorkflow: bool, fallbackMode: string, cfg: Settings)
    requires cfg.Valid()
    ensures var a := Create(now, slaHours, hasWorkflow, fallbackMode, cfg);
            && a.status == Pending && a.workflowStatus == Running && a.createdAt == now
            && a.slaHours == ResolveSlaHours(slaHours, cfg) && a.expiresAt == now + 3600 * a.slaHours
            && a.tokenVersion == 0 && a.decisionAt == None && a.reminderSentAt == None && a.audit == []
            && a.hasWorkflow == hasWorkflow && a.fallbackMode == fallbackMode
  {
  }

  /** Two approvals that differ at most in the two workflow columns. */
  ghost predicate SameButWorkflow(a: Approval, b: Approval) {
    && a.status == b.status && a.createdAt == b.createdAt && a.expiresAt == b.expiresAt && a.slaHours == b.slaHours
    && a.tokenVersion == b.tokenVersion && a.decisionAt == b.decisionAt && a.checkedAt == b.checkedAt
    && a.reminderSentAt == b.reminderSentAt && a.hasWorkflow == b.hasWorkflow && a.audit == b.audit
  }

  /** A look completes the workflow of a decided row, and fails the open workflow of one that has expired. */
  lemma LookExactly(s: System, t: Times, w: World)
    ensures var a, b := s.approval, Next(s, Event(Look, t), w).approval;
            var expires := a.status == Pending && t.stamped > a.expiresAt
                           && (a.workflowStatus == Running || a.workflowStatus == Escalated);
            && SameButWorkflow(a, b)
            && (a.status != Pending ==> b.workflowStatus == Completed)
            && (expires ==> b.workflowStatus == Failed)
            && (a.status == Pending && !expires ==> b.workflowStatus == a.workflowStatus)
            && b.fallbackMode == (if expires && a.fallbackMode == "none" then "timeout_enforced" else a.fallbackMode)
  {
  }

  /** The row after a decision was recorded. */
  ghost predicate Recorded(a: Approval, b: Approval, decision: Status, t: Times, signal: Signal) {
    && b.status == decision && b.audit == a.audit + [Decided(decision)]
    && b.decisionAt == Some(t.stamped) && b.checkedAt == Some(t.checked) && b.workflowStatus == Completed
    && b.fallbackMode == (if a.hasWorkflow && !signal.delivered then "signal_retry_exhausted" else a.fallbackMode)
    && b.createdAt == a.createdAt && b.expiresAt == a.expiresAt && b.slaHours == a.slaHours
    && b.tokenVersion == a.tokenVersion && b.reminderSentAt == a.reminderSentAt && b.hasWorkflow == a.hasWorkflow
  }

  /** The API decides exactly pending rows whose check finds them unexpired, as it is told; else nothing changes. */
  lemma ApiExactly(s: System, decision: Status, signal: Signal, t: Times, w: World)
    ensures var a, b := s.approval, Next(s, Event(ApiDecision(decision, signal), t), w).approval;
            if a.status == Pending && t.checked <= a.expiresAt then Recorded(a, b, decision, t, signal) else b == a
  {
  }

  /** The answers of the API and of Slack. */
  lemma RepliesExactly(a: Approval, decision: Status, authorized: bool, t: Times, delivered: bool)
    ensures Decide(a, decision, t, delivered).1
         == if a.status != Pending then Conflict else if t.checked > a.expiresAt then Gone else Done
    ensures DecideViaSlack(a, decision, authorized, t, delivered).1
         == if !authorized then Forbidden
            else if a.status != Pending then Conflict
            else if t.entry > a.expiresAt || t.checked > a.expiresAt then Gone
            else Done
  {
  }

  /** Slack decides as it is told too, for an authorized actor; an expiry between its two checks leaves a refresh. */
  lemma SlackExactly(s: System, decision: Status, authorized: bool, signal: Signal, t: Times, w: World)
    ensures var a, b := s.approval, Next(s, Event(SlackDecision(decision, authorized, signal), t), w).approval;
            && (authorized && a.status == Pending && t.entry <= a.expiresAt && t.checked <= a.expiresAt ==>
                  Recorded(a, b, decision, t, signal))
            && (!authorized || a.status != Pending || t.entry > a.expiresAt ==> b == a)
            && (authorized && a.status == Pending && t.entry <= a.expiresAt < t.checked ==>
                  b.status == Pending && SameButWorkflow(a, b))
  {
  }

  /** The answers of the email link, in the order of its checks; only the last one changes the row. */
  lemma EmailExactly(a: Approval, id: string, token: string, limited: bool, t: Times, delivered: bool, mac: Mac)
    ensures var parsed := VerifyToken(token, t.entry, mac);
            var (b, reply) := DecideViaEmail(a, id, token, limited, t, delivered, mac);
            var stale := parsed.Some? && parsed.value.version.Some? && parsed.value.version.value != a.tokenVersion;
            && reply == (if parsed == None then Invalid
                         else if limited then TooMany
                         else if parsed.value.approvalId != id then NotFound
                         else if a.status != Pending then Conflict
                         else if stale then Superseded
                         else if t.checked > a.expiresAt then Gone
                         else Done)
            && (reply != Done ==> b == a)
            && (reply == Done && parsed.value.decision == "approved" ==>
                  Recorded(a, b, Approved, t, Signal(true, delivered)))
            && (reply == Done && parsed.value.decision == "rejected" ==>
                  Recorded(a, b, Rejected, t, Signal(true, delivered)))
  {
    hide VerifyToken;
    DecisionOfWords();
  }

  lemma DecisionOfWords()
    ensures DecisionOf("approved") == Approved && DecisionOf("rejected") == Rejected
  {
    assert "rejected"[0] != "approved"[0];
  }

  /** Escalation of a pending row: next version, "escalated", the extension from now up to the ceiling, one event. */
  lemma EscalateExactly(s: System, signal: Signal, t: Times, w: World)
    ensures var a, b := s.approval, Next(s, Event(Escalation(signal), t), w).approval;
            var proposed := t.stamped + 3600 * w.cfg.escalationExtensionHours;
            var ceiling := a.createdAt + 3600 * w.cfg.maxSlaHours;
            if a.status != Pending then b == a
            else
              && b.expiresAt == (if proposed < ceiling then proposed else ceiling)
              && b.tokenVersion == a.tokenVersion + 1 && b.workflowStatus == Escalated
              && b.audit == a.audit + [EscalationTo(b.expiresAt)]
              && b.fallbackMode
                 == (if a.hasWorkflow && !signal.delivered then "signal_retry_exhausted" else a.fallbackMode)
              && b.status == Pending && b.createdAt == a.createdAt && b.slaHours == a.slaHours
              && b.decisionAt == a.decisionAt && b.checkedAt == a.checkedAt && b.reminderSentAt == a.reminderSentAt
              && b.hasWorkflow == a.hasWorkflow
  {
  }

  /** The first reminder of a pending row is sent: marked with its time and one event, and nothing else. */
  lemma ReminderExactly(s: System, t: Times, w: World)
    ensures var a, b := s.approval, Next(s, Event(ReminderActivity, t), w).approval;
            if a.status == Pending && a.reminderSentAt == None then
              b == a.(reminderSentAt := Some(t.stamped), audit := a.audit + [ReminderSent])
            else b == a
  {
  }

  /** A decision signal that reaches a running workflow is what the workflow then returns. */
  lemma SignalIsReturned(s: System, decision: Status, signal: Signal, t: Times, u: Times, w: World)
    requires s.approval.status == Pending && t.checked <= s.approval.expiresAt
    requires s.approval.hasWorkflow && signal.reached && (s.flow.phase == FirstWait || s.flow.phase == SecondWait)
    ensures var decided := Next(s, Event(ApiDecision(decision, signal), t), w);
            && decided.flow.decision == Some(decision) && decided.flow.status == Completed
            && (decided.clock <= u.entry && u.InOrder() ==> Enabled(decided, Event(FlowSeesDecision, u)))
            && Next(decided, Event(FlowSeesDecision, u), w).flow
               == Flow(Some(decision), Completed, Returned(Some(decision)))
  {
  }

  /** On every channel a decision is signalled to a workflow that has not returned, and an escalation only shows. */
  lemma SignalsExactly(s: System, e: Event, signal: Signal, w: World)
    requires match e.action
             case ApiDecision(_, g) => g == signal
             case EmailDecision(_, _, g) => g == signal
             case SlackDecision(_, _, g) => g == signal
             case Escalation(g) => g == signal
             case _ => false
    requires s.approval.status == Pending && (e.action.ApiDecision? ==> e.action.decision != Pending)
    requires e.action.SlackDecision? ==> e.action.decision != Pending
    ensures var q := Next(s, e, w);
            var heard := s.approval.hasWorkflow && signal.reached && !s.flow.phase.Returned?;
            && q.flow.phase == s.flow.phase
            && (q.approval.status != Pending && heard ==>
                  q.flow.decision == Some(q.approval.status) && q.flow.status == Completed)
            && (e.action.Escalation? && heard && s.flow.decision == None ==>
                  q.flow.status == Escalated && q.flow.decision == None)
            && (!heard || (q.approval.status == Pending && !e.action.Escalation?) ==> q.flow == s.flow)
  {
    hide VerifyToken;
  }

  /** Without a decision the workflow reminds halfway, not within the first hour, and fails at the end of the SLA. */
  lemma TimersExactly(s: System, t: Times)
    requires s.clock <= t.entry && t.InOrder() && s.approval.hasWorkflow
    ensures s.flow.phase == FirstWait ==>
              (Enabled(s, Event(FlowReminderTimeout, t)) <==>
                 t.stamped >= s.approval.createdAt + 3600
                 && 2 * (t.stamped - s.approval.createdAt) >= s.approval.slaHours * 3600)
    ensures s.flow.phase == SecondWait ==>
              (Enabled(s, Event(FlowFinalTimeout, t)) <==>
                 t.stamped >= s.approval.createdAt + s.approval.slaHours * 3600)
  {
  }

  /** The workflow's own steps move its phase and leave the row alone. */
  lemma FlowExactly(s: System, t: Times, w: World)
    ensures Next(s, Event(FlowReminderTimeout, t), w) == System(s.approval, s.flow.(phase := Reminding), t.stamped)
    ensures s.flow.decision == None ==>
              Next(s, Event(FlowReminderDone, t), w) == System(s.approval, s.flow.(phase := SecondWait), t.stamped)
    ensures s.flow.decision != None ==>
              Next(s, Event(FlowReminderDone, t), w)
              == System(s.approval, Flow(s.flow.decision, Completed, Returned(s.flow.decision)), t.stamped)
    ensures Next(s, Event(FlowFinalTimeout, t), w)
         == System(s.approval, Flow(s.flow.decision, Failed, Returned(None)), t.stamped)
  {
  }

  /** The workflow of a new approval waits for the first time, without a decision. */
  lemma BeginExactly(now: int, slaHours: Option<int>, hasWorkflow: bool, fallbackMode: string, w: World)
    requires w.cfg.Valid()
    ensures var s := Begin(now, slaHours, hasWorkflow, fallbackMode, w);
            && s.flow.decision == None && s.flow.status == Running && s.flow.phase == FirstWait && s.clock == now
            && s.approval == Create(now, slaHours, hasWorkflow, fallbackMode, w.cfg)
  {
  }

  /** Looking and reminding are always possible; the workflow goes on from a reminder, and from a decision it sees. */
  lemma EnabledExactly(s: System, t: Times)
    requires s.clock <= t.entry && t.InOrder()
    ensures Enabled(s, Event(Look, t)) && Enabled(s, Event(ReminderActivity, t))
    ensures Enabled(s, Event(FlowReminderDone, t)) <==> s.approval.hasWorkflow && s.flow.phase == Reminding
    ensures Enabled(s, Event(FlowSeesDecision, t)) <==>
            && s.approval.hasWorkflow && (s.flow.phase == FirstWait || s.flow.phase == SecondWait)
            && s.flow.decision != None
  {
  }
}
