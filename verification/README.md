# Verified models of the agent-governance core

These modules model the parts of the repository that decide, record and limit what agents may do, and
prove properties of them for every input and every run. Each module follows one component:

| module | models |
|---|---|
| `ConditionScanner`, `ConditionEvaluator` | the character scanner and the recursive evaluator of Cedar `when` / `unless` text |
| `PolicyDecision` | the in-process policy engine, the Cedar path with its companion permits and second pass, and when the two agree |
| `CedarErrors` | the Cedar path again, with conditions as trees that Cedar evaluates from left to right and may err on |
| `WorkerPool` | the pool of persistent Cedar workers: semaphore, queue, pipes, crashes |
| `Decimal`, `Json`, `AuditChain`, `AuditPages` | the text that is hashed for an audit entry, the hash chain, its paged verification, cursor pagination |
| `TokenBucket`, `HardQuota` | the two rate limiters |
| `DecisionToken`, `ApprovalLifecycle` | signed one-click links and one approval request with everything that can happen to it |
| `CircuitBreaker` | the breaker in front of the workflow server |
| `PolicyHistory`, `PolicyImport` | versions, snapshots and rollback of one policy; bulk import |
| `Text`, `Wrappers` | Python string operations and small shared definitions |

Code that changes things in place is a method over the same fields or variables, proved equal to a function of
the old state; what the system promises is then proved about that function. Code made of expressions is a
function. Protocols are state machines whose runs are arbitrary sequences of enabled steps, so a theorem
about a run covers every interleaving.

`dafny verify dfyconfig.toml` checks everything.

The functions that the methods are tied to are themselves pinned by lemmas that write the answer out, with the
constants and without naming the function: what an append stores, what a link decides, what a patch leaves live.

## Results to read first

- **Printer and parser.** `PrintedMeaning`: any and/or tree over leaves, printed with any redundant
  parentheses and with any blanks or none, is read back with the tree's truth value.
- **Two engines.** `EnginesAgree`, and with Cedar's evaluation errors `EnginesAgreeWithErrors`: the in-process
  engine and the Cedar path decide alike, with the exact condition under which they do not. The second assumes
  nothing about how Cedar judges leaves.
- **Chain binding.** `ChainBinding`: two valid logs with the same last hash are entry for entry the same, or
  two named texts collide under the hash.
- **Concurrent quota.** `PassedExactly`: under every interleaving of callers, exactly
  min(increments, max(0, limit - 1 - seed)) requests pass.
- **Approval safety.** `ApprovalIsSafe`, `DecisionIsFinal`, `SupersededLinkIsDead`, `FailedIsFinalExactly`,
  over every run of every endpoint, the clock and the workflow.
- **Policy columns.** `RunSynced`: over every run, imports included, exactly when `active` mirrors `state` and
  no version is lost.
- **Worker pool.** `RepliesMatchRequests`, `QueueNeverBlocks`, `NobodyIsStuck`, for any pool size and number
  of threads, across crashes.

## Where the code and its promises differ

The model follows the code. Each difference is a theorem with its exact condition or a concrete run.

- `permit(principal, action, resource);` never matches in the in-process engine, because only a forbid with an
  unconstrained action is recognised (`policy_engine.py:770-778`), while the parity scenarios
  (`packages/agr-core/tests/test_engine_parity.py:113-119`) expect ALLOW from both: `EnginesAgree`,
  `PermitAllDiffers`.
- A plain and a gated forbid that both match give APPROVAL_REQUIRED in process and DENY on the Cedar path:
  `EnginesAgree`, `MixedForbidsDiffer`, `MixedForbidsOccur`.
- Cedar skips a rule whose condition errs, as it does on an absent attribute, where the in-process engine takes
  the leaf for false and may find the condition true: a plain forbid `when A || B` with A's attribute absent
  and B true is DENY in process and, with a matching permit, ALLOW from Cedar. The exact condition of agreement
  in terms of the rules that match and the rules that Cedar finds reached is `EnginesAgreeWithErrors`; the
  witness is `ErringForbidOccurs`.
- Where no `when` is true in process and an error in Cedar, three situations remain, the third being the bare gate
  `context.approval_status == "approved"`, on which Cedar errs without the approval: `SteadyEnginesAgree`,
  `GatesWithErrors`, `BareGateIsSkipped`. The shapes of the shipped rules (`default.cedar`) are steady and
  never err: `ShippedShapesAreSteady`.
- A hard limit of N lets N - 1 evaluations through, since the route compares with `>=` after the counter
  compared with `>`: `HardQuota.QuotaKey.Admit`, `PassedExactly`.
- Redis truncates the numbers a script returns, so a caller that obeys the truncated `retry_after` comes back
  too early unless it was whole: `TruncatedRetryIsEarly`.
- An open breaker admits again exactly from 30 seconds on (`OpenRecovers`), and until then keeps calls out exactly
  if no earlier call reports success meanwhile: `OpenKeepsCallsOut`, `StaleSuccessAdmits`.
- "The rollback itself is reversible" holds exactly if the version just left had no snapshot before; two
  patches of the name are enough to make its lookup fail: `RollbackIsReversible`, `RenamesShareAVersion`.
- "active iff state='active'" (`models.py:85-86`): an overwriting import keeps it exactly if it agrees with
  itself, an import that creates a policy exactly if the item is active, and a disagreement lasts until a step
  that writes both; activating a policy in state "active" writes neither. An overwriting import also takes no
  snapshot, so the version it replaces is lost exactly if it had none: `RunSynced`, `RunMirrored`,
  `RunCovered`, `OverwriteSynced`, `NewPolicies`, `ImportBreaksSync`.
- A workflow that returned "failed" does not close its approval: escalation extends the row's expiry but not
  the workflow's timer. The approval can still be granted exactly if it is granted already, or is pending and
  either unexpired or open to an escalation: `FailedIsFinalExactly`, `FailedFlowCanBeApproved`.
- A decision can be stamped after the expiry, since the expiry check before it and the stamp on it read the clock
  separately. On a pending approval every decision of a request that starts at n and takes at most d seconds is
  stamped in time exactly if the request is refused anyway, n is past the expiry, or n + d is not:
  `InTimeExactly`, `LateStampOccurs`.
- Escalation is to extend the SLA window (`approvals.py:571-574`), but brings the expiry forward exactly if the
  extension, counted from now, reaches less far than the expiry: `EscalationExtendsExactly`, `EscalationCanShorten`.
- Cutting off the end of an audit log is never reported; removing, inserting or moving entries before one that is
  kept is, or two named texts collide: `TruncatedVerifies`, `DisplacedIsReported`, `ChangeBeforeIsReported`.
- The columns of an audit event outside its hashed text, the stored `prev_hash` among them, are not verified:
  `DetailsAreNotVerified`.

## Model

| member | source | states |
|---|---|---|
| Text.IsSpaceExactly | packages/agr-core/policy_engine.py:894-903 | the characters that strip takes off, one by one |
| ConditionScanner.SplitTopLevel | packages/agr-core/policy_engine.py:871-903 | the loop over depth, quotes and escapes returns the trimmed pieces between the top-level operators, for every text |
| ConditionScanner.PiecesJoin | packages/agr-core/policy_engine.py:885-903 | conservation: the untrimmed pieces rejoined with the operator are the input |
| ConditionScanner.PiecesCutAtTopLevel | packages/agr-core/policy_engine.py:889-896 | every cut is made at depth 0 outside quotes |
| ConditionScanner.PiecesAreMaximal | packages/agr-core/policy_engine.py:889-896 | no piece holds a further cut |
| ConditionScanner.SplitIsFinal | packages/agr-core/policy_engine.py:871-903 | splitting a returned part again gives back that one part, trimming included |
| ConditionScanner.SplitShortens | packages/agr-core/policy_engine.py:831-837 | each part of a split into several is strictly shorter, so the recursion terminates on every text |
| ConditionScanner.SplitAbsorbsBlanks | packages/agr-core/policy_engine.py:894-903 | blanks around a condition do not change its split |
| ConditionScanner.PiecesAppend | packages/agr-core/policy_engine.py:871-903 | the cuts of a concatenation are those of its halves, the second scanned from where the first ended |
| ConditionScanner.IsOuterWrapped | packages/agr-core/policy_engine.py:849-868 | the loop with its early exit answers whether the first parenthesis closes only at the last character |
| ConditionScanner.OuterWrappedExactly | packages/agr-core/policy_engine.py:849-868 | wrapped means: level at the end, and at no closing parenthesis outside quotes before it |
| ConditionScanner.StripOuterParens | packages/agr-core/policy_engine.py:842-846 | the loop strips exactly the nested outer pairs, and terminates |
| ConditionScanner.ParenthesesWrap | packages/agr-core/policy_engine.py:842-868 | parentheses around a balanced text hide all its operators from splitting and are stripped again |
| ConditionScanner.CutIsNotStripped | packages/agr-core/policy_engine.py:827-831 | a text that is cut at top level loses no parentheses: `(a) op (b)` is not mistaken for a wrapped text |
| ConditionEvaluator.EvaluateOr | packages/agr-core/policy_engine.py:823-833 | any text holds exactly if some piece between its top-level or-operators holds |
| ConditionEvaluator.EvaluateAnd | packages/agr-core/policy_engine.py:835-837 | a text without top-level or-operator holds exactly if all pieces between its and-operators hold |
| ConditionEvaluator.EvaluateDisjunction | packages/agr-core/policy_engine.py:831-833 | joining a balanced text and any text by the or-operator, with blanks or without, means logical or, unless the first text ends in the operator's own character |
| ConditionEvaluator.EvaluateConjunction | packages/agr-core/policy_engine.py:835-837 | joining texts without top-level or-operator by the and-operator, with blanks or without, means logical and, under the same side condition |
| ConditionEvaluator.EvaluateParenthesizedConjunction | packages/agr-core/policy_engine.py:624 | for all balanced w and u, "(w) && (u)" means w and u |
| ConditionEvaluator.PrintedMeaning | packages/agr-core/policy_engine.py:823-903 | every and/or tree, printed with precedence, any redundant parentheses and any blanks or none around the operators, evaluates to its truth value |
| ConditionEvaluator.QuotedIsLeaf | packages/agr-core/policy_engine.py:879-890 | a comparison with a quoted word is a leaf, whatever parentheses, operators or escapes the word contains |
| ConditionEvaluator.EvaluateFrame | packages/agr-core/policy_engine.py:823-839 | a condition in which a name does not occur does not depend on leaves that mention it |
| ConditionEvaluator.EvaluateMonotone | packages/agr-core/policy_engine.py:823-839 | making more leaves true never makes a condition false |
| PolicyDecision.PythonEvaluator | packages/agr-core/policy_engine.py:698-757 | the loop over the policies gives deny-overrides with approval, and names the last blocking, else the last opening policy |
| PolicyDecision.CedarPolicyText | packages/agr-core/policy_engine.py:592-601 | the loop gives each rule followed by its companion permit, if it has one |
| PolicyDecision.ExpandedMembers | packages/agr-core/policy_engine.py:592-601 | the expanded set holds exactly the rules and their companions |
| PolicyDecision.CompanionMeaning | packages/agr-core/policy_engine.py:604-626 | the rewrite preserves meaning: the companion permit applies exactly where scope, when and unless of the forbid hold |
| PolicyDecision.PythonByKinds | packages/agr-core/policy_engine.py:685-757 | the in-process decision in terms of which kinds of rules match, for every context, the approval being the value "approved" of approval_status |
| PolicyDecision.BlocksExactly | packages/agr-core/policy_engine.py:710-731 | which rules block and which open: with exactly the approval only plain forbids block and gated ones open |
| PolicyDecision.OnlyApprovedOpensTheGate | packages/agr-core/policy_engine.py:714-747 | a matching gated forbid asks for approval if approval_status is absent or any other value, in every context, and only with exactly "approved" leaves the decision to plain forbids |
| PolicyDecision.PendingIsNotApproved | packages/agr-core/policy_engine.py:714-727 | one gated rule: APPROVAL_REQUIRED with "pending", ALLOW with "approved" |
| PolicyDecision.GatedExactly | packages/agr-core/policy_engine.py:712 | a gate is an unless and the text approval_status in one of the conditions |
| PolicyDecision.LastWhereIsLast | packages/agr-core/policy_engine.py:698-731 | the policy named in the answer is the last of its kind in the list |
| PolicyDecision.LeavesExactly | packages/agr-core/policy_engine.py:906-956 | a leaf is true exactly if it is understood, its attribute is present, and the value passes its test |
| PolicyDecision.CedarPassByKinds | packages/agr-core/policy_engine.py:629-638 | one Cedar pass over the expanded set in the same terms |
| PolicyDecision.InjectionKeepsKinds | packages/agr-core/policy_engine.py:650-656 | injecting the approval for the second pass changes no match of rules that do not mention it |
| PolicyDecision.EnginesAgree | packages/agr-core/policy_engine.py:592-757 | the engines decide alike if and only if neither a plain and a gated forbid match without approval, nor only a permit for any action matches; and what each answers in those two cases |
| PolicyDecision.PermitAllDiffers | packages/agr-core/policy_engine.py:770-778 | "permit(principal, action, resource);" alone: DENY in process, ALLOW from Cedar, for every request |
| PolicyDecision.MixedForbidsDiffer | packages/agr-core/policy_engine.py:707-727 | a plain and a gated forbid of one action: APPROVAL_REQUIRED in process, DENY from Cedar |
| PolicyDecision.BareGateIsCanonical | packages/agr-core/policy_engine.py:592-626 | the forbid whose unless is `context.approval_status == "approved"`, with a reader of that leaf, meets the conditions of `EnginesAgree` |
| PolicyDecision.MixedForbidsOccur | packages/agr-core/policy_engine.py:707-727 | two such rules and the empty context for which the decisions differ |
| PolicyDecision.GatesInUse | packages/agr-core/policy_engine.py:906-956 | the comparison with "approved", bare or guarded by a presence test, is an approval gate as `EnginesAgree` requires |
| PolicyDecision.MatchesGrow | packages/agr-core/policy_engine.py:760-791 | adding keys to the context never makes a matching rule stop matching |
| PolicyDecision.PlainForbidIsFinal | packages/agr-core/policy_engine.py:698-757 | once a forbid without unless matches, no extension of the context yields ALLOW on either engine |
| PolicyDecision.OrderDoesNotMatter | packages/agr-core/policy_engine.py:698-757 | both decisions are the same for every permutation of the policy list |
| CedarErrors.CedarRefinesMeaning | packages/agr-core/policy_engine.py:823-956 | on leaves that both engines read alike, where Cedar judges a tree true or false the in-process meaning is the same; they part only where Cedar errs |
| CedarErrors.ShapeIsSteady | packages/agr-core/policy_engine.py:823-956 | a condition whose alternatives follow only on guarded conditions, every test being behind a conjunct that grants its attribute, is true in Cedar exactly where it is in process |
| CedarErrors.GuardedNeverErrs | packages/agr-core/policy_engine.py:906-925 | a condition whose every test is of an attribute that the conjuncts before it grant never errs |
| CedarErrors.ShippedShapesAreSteady | packages/agr-core/policies/default.cedar:1-20 | the shapes of the shipped conditions, alternatives behind a presence test among them, are steady and never err |
| CedarErrors.CompanionIsWritten | packages/agr-core/policy_engine.py:604-626 | the companion text the program writes is the text of the tree by which Cedar is taken to evaluate it |
| CedarErrors.ExpandedIsWritten | packages/agr-core/policy_engine.py:592-601 | so is the whole expanded rule set |
| CedarErrors.CedarPassWithErrors | packages/agr-core/policy_engine.py:629-638 | one Cedar pass over the expanded set, rules that err skipped, in terms of which rules Cedar finds reached, for every judgement of leaves |
| CedarErrors.CedarFrame | packages/agr-core/policy_engine.py:650-656 | injecting the approval changes nothing in how Cedar evaluates a condition that does not mention it |
| CedarErrors.CedarByKinds | packages/agr-core/policy_engine.py:629-677 | the decision of both Cedar passes, in terms of which rules Cedar finds reached |
| CedarErrors.EnginesAgreeWithErrors | packages/agr-core/policy_engine.py:592-757 | for every judgement of leaves by Cedar, the engines decide alike if and only if the rules Cedar finds reached (plain, gated, judged, permit) and those that match in process lead to one decision, case by case |
| CedarErrors.SteadyEnginesAgree | packages/agr-core/policy_engine.py:592-757 | on steady conditions the engines decide alike if and only if none of three situations holds: a plain and a gated forbid match without approval; only a permit for any action matches; without approval a permit matches and every matching forbid has a gate that errs; and what each answers in them |
| CedarErrors.GatesWithErrors | packages/agr-core/policy_engine.py:906-925 | without the approval the bare comparison errs and the one behind `has` is false; with it both are true |
| CedarErrors.BareGateDiffers | packages/agr-core/policy_engine.py:629-677 | a permit and a forbid with a gate that errs, for one action: APPROVAL_REQUIRED in process, ALLOW from Cedar |
| CedarErrors.BareGateIsSkipped | packages/agr-core/policy_engine.py:629-677 | such a pair of rules with the bare comparison, in the empty context |
| CedarErrors.ErringForbidDiffers | packages/agr-core/policy_engine.py:629-757 | a permit and a plain forbid whose condition is true in process and an error in Cedar, in any context: DENY in process, ALLOW from Cedar |
| CedarErrors.ErringForbidOccurs | packages/agr-core/policy_engine.py:629-757 | such a pair of rules, with two alternatives of which the first tests an absent attribute |
| WorkerPool.StepKeepsInv | packages/agr-core/policy_engine.py:121-168 | every step of every thread and worker keeps the accounts, the partition of indices and the pipe discipline |
| WorkerPool.IndicesArePartitioned | packages/agr-core/policy_engine.py:90-102 | after every run each index is in the queue once or held by one thread, never both, never by two |
| WorkerPool.QueueNeverBlocks | packages/agr-core/policy_engine.py:133-134 | a permit holder always finds an index, and putting one back never overflows the queue |
| WorkerPool.RepliesMatchRequests | packages/agr-core/policy_engine.py:136-165 | each reply read answers the request its reader wrote, across crashes and replacements; a free live worker has nothing outstanding |
| WorkerPool.NobodyIsStuck | packages/agr-core/policy_engine.py:129-168 | every thread inside execute can step, or its live worker still holds exactly its request |
| WorkerPool.DeadIsReplaced | packages/agr-core/policy_engine.py:136-139 | a worker found dead is replaced by a fresh one before use, or the request fails; nothing else changes |
| WorkerPool.EofFails | packages/agr-core/policy_engine.py:149-158 | end of output fails the request and replaces an exited worker at once; nothing else changes |
| WorkerPool.RequestCanBeServed | packages/agr-core/policy_engine.py:129-165 | after any run an idle thread can, while a permit is left and the first free worker is not closing, take six enabled steps to the answer of its own request |
| Decimal.IntTextParses | services/agr-api/app/services/notification_service.py:43-77 | parsing the decimal text of an integer gives the integer, which is digits and sign only |
| Decimal.IntTextUnique | services/agr-api/app/services/audit_service.py:63 | a number in front of a text that starts with no digit can be read off unambiguously |
| Decimal.ParseDigitsExactly | services/agr-api/app/services/notification_service.py:60-79 | what parses is digits with single underscores between them, and nothing else |
| Decimal.NatTextStarts | services/agr-api/app/services/audit_service.py:63 | no leading zeros |
| Json.DumpsUnique | services/agr-api/app/services/audit_service.py:62 | a JSON text followed by anything that starts with no digit determines value and rest |
| Json.DumpsInjective | services/agr-api/app/services/audit_service.py:62 | the JSON text, escapes included, determines the value |
| Json.DumpsExactly | services/agr-api/app/services/audit_service.py:62 | the text of every form: parts joined by comma and blank in their brackets, a field as key, colon, blank and value |
| Json.EscapeExactly | services/agr-api/app/services/audit_service.py:62 | printable ASCII but quote and backslash stands for itself, everything else is escaped |
| Json.QuoteReadsBack | services/agr-api/app/services/audit_service.py:62 | a reader of strings after section 7 of RFC 8259 reads a dumped string back, unit for unit |
| Json.DumpsIsAscii | services/agr-api/app/services/audit_service.py:103 | the text is ASCII, so that its length is its size in bytes |
| AuditChain.AuditLog.CreateAuditEvent | services/agr-api/app/services/audit_service.py:84-135 | appends one event chained to the last, numbered one higher, with all columns given and its payload capped; the rest of the log is unchanged |
| AuditChain.StoredPayload | services/agr-api/app/services/audit_service.py:101-109 | an append stores the payload as given if it is no object or dumps to at most 64000 characters; otherwise exactly the marker, the size and the evaluation id or null |
| AuditChain.LookupExactly | services/agr-api/app/services/audit_service.py:108 | the value of a key is that of its first field, or null |
| AuditChain.EntryTextNests | services/agr-api/app/services/audit_service.py:62-63 | the hashed text, written as the format string of the four fields, is the text in which each field is followed by the rest |
| AuditChain.EntryTextInjective | services/agr-api/app/services/audit_service.py:62-63 | with colon-free event types, equal hashed texts come from equal number, type, payload and previous hash |
| AuditChain.VerifyAuditChain | services/agr-api/app/routes/audit.py:252-297 | for every log, page size and limit, the nested paged loop gives verdict, count and first bad number of one flat scan of the first limit events |
| AuditChain.FlatVerifyMeaning | services/agr-api/app/routes/audit.py:271-297 | the verdict names the first event, if any, whose hash is not that of its own text and predecessor |
| AuditChain.BuiltIsLinked | services/agr-api/app/services/audit_service.py:97-135 | logs built by appending are numbered 1, 2, 3, in order of the requests, with their columns and capped payloads, and linked throughout |
| AuditChain.BuiltVerifies | services/agr-api/app/services/audit_service.py:97-135 | every log built by appending verifies, truncated payloads included |
| AuditChain.TamperIsReported | services/agr-api/app/routes/audit.py:272-289 | changing the type or payload of one verified event is reported at exactly that event, or its two texts collide |
| AuditChain.DetailsAreNotVerified | services/agr-api/app/routes/audit.py:272-278 | changing the columns outside the hashed text, the stored previous hash among them, never changes the verdict |
| AuditChain.ChainBinding | services/agr-api/app/services/audit_service.py:52-64 | valid logs with equal last hash have equal length and equal number, type, payload and hash everywhere, or two named texts collide |
| AuditChain.TruncatedVerifies | services/agr-api/app/routes/audit.py:252-297 | every front part of a linked log verifies, with the exact count |
| AuditChain.DisplacedIsReported | services/agr-api/app/routes/audit.py:271-291 | entries removed, repeated or in another order: exactly the first one in another place is reported, or two named texts collide |
| AuditChain.ChangeBeforeIsReported | services/agr-api/app/routes/audit.py:271-291 | whatever is changed, forged entries inserted included, before an entry whose hash is kept: an entry between the first change and it is reported, or two named texts collide |
| AuditPages.NewestMembers | services/agr-api/app/routes/audit.py:123-140 | a page query returns exactly the matching events below the cursor |
| AuditPages.NewestDescends | services/agr-api/app/routes/audit.py:135 | strictly newest first |
| AuditPages.NewestBelow | services/agr-api/app/routes/audit.py:136-143 | the query below the number of a returned row returns exactly the rows after it |
| AuditPages.AppendedAreAbove | services/agr-api/app/routes/audit.py:136-137 | events appended later never show below an earlier cursor |
| AuditPages.FollowCollects | services/agr-api/app/routes/audit.py:135-144 | from any cursor on, following cursors terminates and collects the full query of the first log |
| AuditPages.PaginationIsExact | services/agr-api/app/routes/audit.py:135-144 | following the cursor yields every matching event of the first fetch exactly once, newest first, and nothing else, while events keep being appended |
| TokenBucket.BucketKey.CheckRateLimit | services/agr-api/app/services/redis_service.py:41-74 | the script on the stored hash: reply, new tokens and timestamp, and expiry, as the bucket law says of what HMGET sees |
| TokenBucket.CallExactly | services/agr-api/app/services/redis_service.py:51-73 | with f tokens found, written out: allowed exactly if f is at least one, tokens left, stored hash, reset and retry times |
| TokenBucket.TimeToLiveExactly | services/agr-api/app/services/redis_service.py:71 | the key lives one second longer than the least whole number of seconds that fills the bucket |
| TokenBucket.CallKeepsBounds | services/agr-api/app/services/redis_service.py:58-71 | tokens stay within 0 and capacity, whatever the clock does |
| TokenBucket.WindowBound | services/agr-api/app/services/redis_service.py:58-68 | on every run in time order, at most capacity + rate * (t1 - t0) calls are allowed between t0 and t1 |
| TokenBucket.RetryAfterIsExact | services/agr-api/app/services/redis_service.py:61-73 | with room for one token, a denied caller that returns undisturbed after d seconds is allowed if and only if d >= retry_after |
| TokenBucket.TruncatedRetryIsEarly | services/agr-api/app/services/redis_service.py:73 | the truncated value works if and only if retry_after was whole |
| TokenBucket.SmallBucketNeverAllows | services/agr-api/app/services/redis_service.py:63-67 | with capacity below one nothing is ever allowed |
| TokenBucket.IdleIsMissing | services/agr-api/app/services/redis_service.py:51-59 | after capacity / rate seconds a bucket answers, and is left, as if it had no key |
| TokenBucket.ExpiryIsInvisible | services/agr-api/app/services/redis_service.py:51-71 | however idle keys are dropped, every reply of every run is the one of a key that never expires |
| TokenBucket.ExpiredMayBeDropped | services/agr-api/app/services/redis_service.py:71 | a key past its expiry is one whose loss the previous row covers |
| HardQuota.QuotaKey.RateLimitIncr | services/agr-api/app/services/redis_service.py:283-296 | one undisturbed call: seed if missing, count, undo and refuse above the limit; the counter afterwards |
| HardQuota.QuotaKey.Admit | services/agr-api/app/routes/evaluate.py:155-171 | a request passes exactly if the count found plus one is below the limit, or the limit is off |
| HardQuota.UndisturbedIsAdmit | services/agr-api/app/routes/evaluate.py:155-171 | three uninterrupted steps of one caller of the interleaving model do what the sequential method does |
| HardQuota.CounterConserved | services/agr-api/app/services/redis_service.py:283-296 | under every interleaving, counter = seed + increments kept + undos pending; with none pending it is at most max(seed, limit) |
| HardQuota.PassedExactly | services/agr-api/app/routes/evaluate.py:155-171 | under every interleaving, exactly min(increments, max(0, limit - 1 - seed)) requests pass |
| DecisionToken.SplitJoin | services/agr-api/app/services/notification_service.py:45-54 | splitting at colons undoes joining colon-free fields |
| DecisionToken.TokenRoundTrip | services/agr-api/app/services/notification_service.py:41-86 | a minted token verifies to its id, decision and version up to and at 48 hours, and to nothing afterwards |
| DecisionToken.TokenText | services/agr-api/app/services/notification_service.py:35-45 | the text of a token and of what is signed, field by field |
| DecisionToken.LegacyRoundTrip | services/agr-api/app/services/notification_service.py:55-68 | a token of the legacy format verifies up to its expiry to its claim without a version |
| DecisionToken.AcceptedIsSigned | services/agr-api/app/services/notification_service.py:48-86 | any accepted token, in either format, carries the digest of its own claim with an unexpired time |
| DecisionToken.SignedTextInjective | services/agr-api/app/services/notification_service.py:29-38 | different claims or expiries, within and across the formats, have different signed texts |
| DecisionToken.SameSignatureSameClaim | services/agr-api/app/services/notification_service.py:48-86 | two accepted tokens with one signature make the same claim, or the digests of two named texts collide |
| ApprovalLifecycle.ResolveSlaHours | services/agr-api/app/services/approval_service.py:20-28 | the effective SLA is positive and at most the maximum, and a positive request within the maximum is kept |
| ApprovalLifecycle.SlaExactly | services/agr-api/app/services/approval_service.py:20-28 | the effective SLA in each of the four cases of a request |
| ApprovalLifecycle.CreateExactly | services/agr-api/app/services/approval_service.py:57-80 | every column of a new row |
| ApprovalLifecycle.ApprovalRow.constructor | services/agr-api/app/services/approval_service.py:57-80 | a new row is pending, running, and expires the effective SLA after its creation |
| ApprovalLifecycle.ApprovalRow.RefreshWorkflowState | services/agr-api/app/routes/approvals.py:72-102 | the whole new row of a refresh |
| ApprovalLifecycle.ApprovalRow.LoadPending | services/agr-api/app/routes/approvals.py:124-135 | refreshed row, and which error if any, each from its own reading of the clock |
| ApprovalLifecycle.ApprovalRow.ApplyDecision | services/agr-api/app/routes/approvals.py:147-170 | the whole new row of a decision, stamped with its own reading of the clock, with one audit event |
| ApprovalLifecycle.ApprovalRow.DecideApproval | services/agr-api/app/routes/approvals.py:458-526 | decides a pending unexpired row; any other call leaves the row as it was |
| ApprovalLifecycle.ApprovalRow.DecideViaEmailPost | services/agr-api/app/routes/approvals.py:317-426 | the checks of the link in the program's order, and the row afterwards |
| ApprovalLifecycle.ApprovalRow.HandleSlackInteractivity | services/agr-api/app/routes/slack.py:130-170 | as the API decision, behind the actor check and an earlier expiry check; an expiry found on loading commits the refresh |
| ApprovalLifecycle.ApprovalRow.EscalateApproval | services/agr-api/app/routes/approvals.py:557-612 | new version, expiry and audit event of a pending row; any other row unchanged |
| ApprovalLifecycle.ApprovalRow.SendReminder | services/agr-api/app/workers/activities.py:53-87 | at most one reminder, only while pending |
| ApprovalLifecycle.LookExactly | services/agr-api/app/routes/approvals.py:72-102 | a refresh completes the workflow column of a decided row, fails the open one of an expired row, and changes no other column but the fallback mode |
| ApprovalLifecycle.ApiExactly | services/agr-api/app/routes/approvals.py:105-170 | the API records exactly the decision it is told, on pending unexpired rows only, column by column |
| ApprovalLifecycle.SlackExactly | services/agr-api/app/routes/slack.py:130-170 | Slack records exactly the decision it is told, for an authorized actor on a pending row that both checks find unexpired |
| ApprovalLifecycle.EmailExactly | services/agr-api/app/routes/approvals.py:317-426 | the link's answers in the order of the checks, and that an approved word approves and a rejected one rejects |
| ApprovalLifecycle.RepliesExactly | services/agr-api/app/routes/approvals.py:124-135 | the answers of the API and of Slack |
| ApprovalLifecycle.EscalateExactly | services/agr-api/app/routes/approvals.py:557-612 | every column after an escalation |
| ApprovalLifecycle.ReminderExactly | services/agr-api/app/workers/activities.py:53-87 | the first reminder of a pending row is marked and recorded, any other is nothing |
| ApprovalLifecycle.NextKeepsInv | services/agr-api/app/routes/approvals.py:72-187 | every endpoint, reminder and workflow step keeps the safety invariant |
| ApprovalLifecycle.ApprovalIsSafe | services/agr-api/app/workflows/approval_workflow.py:43-111 | after every run: one decision event exactly if decided, and last; the expiry check before the decision read a time within the expiry; expiry within max SLA of creation; workflow "completed" exactly if decided, "failed" only if pending and expired; at most one reminder and none after the decision; a returned decision agrees with the row |
| ApprovalLifecycle.DecidedAfterCheck | services/agr-api/app/routes/approvals.py:130-148 | every decision, on every channel, passed a check that read a time within the expiry, and is stamped at a later reading |
| ApprovalLifecycle.InTimeExactly | services/agr-api/app/routes/approvals.py:130-148 | for every action on a pending approval that starts at n and takes at most d seconds: its decision is stamped within the expiry however the readings fall, if and only if the request is refused before the expiry check, n is past the expiry, or n + d is not |
| ApprovalLifecycle.LateStampOccurs | services/agr-api/app/routes/approvals.py:130-148 | from the creation of any approval, a run whose decision is checked in time and stamped a second late |
| ApprovalLifecycle.EscalationExtendsExactly | services/agr-api/app/routes/approvals.py:571-586 | on rows within the ceiling an escalation does not bring the expiry forward if and only if now plus the extension reaches it |
| ApprovalLifecycle.EscalationCanShorten | services/agr-api/app/routes/approvals.py:571-586 | at the default settings, escalating a 168-hour approval after one hour moves its expiry to 25 hours |
| ApprovalLifecycle.DecisionIsFinal | services/agr-api/app/routes/approvals.py:125-129 | once decided, no later run changes status, decision time, audit events, expiry, version or reminder |
| ApprovalLifecycle.VersionsOnlyGrow | services/agr-api/app/routes/approvals.py:566 | the token version never decreases over a run |
| ApprovalLifecycle.SupersededLinkIsDead | services/agr-api/app/routes/approvals.py:361-370 | a link minted before an escalation changes nothing at any later time, after any further run |
| ApprovalLifecycle.CurrentLinkDecides | services/agr-api/app/routes/approvals.py:361-404 | an unexpired link of the current version minted with "approved" leaves the row Approved with that event last, one minted with "rejected" Rejected with that event last |
| ApprovalLifecycle.FailedIsFinalExactly | services/agr-api/app/workflows/approval_workflow.py:84-95 | after every run that ends with the workflow returning "failed": some continuation has the approval granted if and only if it is granted already, or is pending and either unexpired or not past the ceiling with a non-negative extension |
| ApprovalLifecycle.ApprovableExactly | services/agr-api/app/routes/approvals.py:557-586 | the same equivalence for every state of the system, whatever the workflow did |
| ApprovalLifecycle.FailedFlowCanBeApproved | services/agr-api/app/workflows/approval_workflow.py:88-95 | a witness for `FailedIsFinalExactly`: the workflow returns "failed" and the row is approved afterwards |
| ApprovalLifecycle.SignalIsReturned | services/agr-api/app/workflows/approval_workflow.py:77-105 | a decision signal that reaches a waiting workflow is what the workflow then returns |
| ApprovalLifecycle.SignalsExactly | services/agr-api/app/workflows/approval_workflow.py:100-111 | on every channel what a decision and an escalation do to the workflow's own variables |
| ApprovalLifecycle.TimersExactly | services/agr-api/app/workflows/approval_workflow.py:49-87 | the reminder is due halfway but not within the first hour, the failure at the end of the SLA |
| ApprovalLifecycle.FlowExactly | services/agr-api/app/workflows/approval_workflow.py:59-98 | the workflow's own steps, which leave the row alone |
| ApprovalLifecycle.BeginExactly | services/agr-api/app/workflows/approval_workflow.py:36-40 | the workflow's variables at its start |
| ApprovalLifecycle.EnabledExactly | services/agr-api/app/workflows/approval_workflow.py:53-98 | when the workflow can go on |
| CircuitBreaker.Circuit.Allow | services/agr-api/app/services/temporal_service.py:46-62 | new fields and answer of asking for admission |
| CircuitBreaker.Circuit.Success | services/agr-api/app/services/temporal_service.py:64-72 | new fields after a reported success |
| CircuitBreaker.Circuit.Failure | services/agr-api/app/services/temporal_service.py:74-92 | new fields after a reported failure, the pruning loop included |
| CircuitBreaker.OpenAdmitsExactly | services/agr-api/app/services/temporal_service.py:50-61 | an open breaker admits a call if and only if 30 seconds have passed, and is then half-open with that call in flight |
| CircuitBreaker.OpenRecovers | services/agr-api/app/services/temporal_service.py:50-61 | after every run that ends open, an ask is admitted as the probe if and only if it comes 30 seconds after the opening or later |
| CircuitBreaker.OthersAdmitExactly | services/agr-api/app/services/temporal_service.py:57-62 | a closed breaker admits everything, a half-open one only while nothing is in flight |
| CircuitBreaker.ProbeDecides | services/agr-api/app/services/temporal_service.py:64-84 | after every run that ends half-open, the probe's success closes the breaker and its failure opens it again from now on |
| CircuitBreaker.SuccessExactly | services/agr-api/app/services/temporal_service.py:64-72 | a success clears the failures and closes |
| CircuitBreaker.FailureExactly | services/agr-api/app/services/temporal_service.py:85-90 | a failure opens a closed breaker as of now if and only if it is the fifth within 30 seconds |
| CircuitBreaker.RecentExactly | services/agr-api/app/services/temporal_service.py:85 | pruning keeps exactly the failures of the last 30 seconds |
| CircuitBreaker.NextKeepsInv | services/agr-api/app/services/temporal_service.py:46-92 | every step of every caller keeps the invariant, among it that the stored list is a pruning of the full history |
| CircuitBreaker.BreakerIsSound | services/agr-api/app/services/temporal_service.py:46-92 | after every interleaving: in flight exactly in half-open; a half-open breaker has an admitted, unreported probe; closed stores fewer than five failures |
| CircuitBreaker.TripsOnFullHistory | services/agr-api/app/services/temporal_service.py:85-90 | the pruned list trips exactly when five failures since the last clear, of the full history, lie in the window |
| CircuitBreaker.OneProbePerEpisode | services/agr-api/app/services/temporal_service.py:50-61 | a half-open episode begins with an admission and admits nothing else |
| CircuitBreaker.OpenKeepsCallsOut | services/agr-api/app/services/temporal_service.py:50-72 | for 30 seconds after opening every call is refused at every moment if and only if no call reports success in that time |
| CircuitBreaker.StaleSuccessAdmits | services/agr-api/app/services/temporal_service.py:64-70 | a run from a fresh breaker in which a late success admits a call two seconds after opening |
| PolicyHistory.PolicyRow.UpdatePolicy | services/agr-api/app/routes/policies.py:727-786 | policy and snapshots after a patch, the rejected rule and the archived policy included |
| PolicyHistory.PolicyRow.ActivatePolicy | services/agr-api/app/routes/policies.py:810-814 | state and active after activation |
| PolicyHistory.PolicyRow.ArchivePolicy | services/agr-api/app/routes/policies.py:843-847 | state and active after archiving |
| PolicyHistory.PolicyRow.DeletePolicy | services/agr-api/app/routes/policies.py:965-966 | deletion archives |
| PolicyHistory.PolicyRow.RollbackPolicy | services/agr-api/app/routes/policies.py:910-933 | policy and snapshots after a rollback, or nothing changed when the lookup raises |
| PolicyHistory.UpdateExactly | services/agr-api/app/routes/policies.py:738-781 | a patch leaves exactly the given rule live under the next version, the given name, state and active as switched, and the old policy as last snapshot |
| PolicyHistory.RefusedUpdate | services/agr-api/app/routes/policies.py:727-765 | an archived policy and an invalid rule change nothing |
| PolicyHistory.MovesExactly | services/agr-api/app/routes/policies.py:810-966 | activation, archiving and deletion, column by column |
| PolicyHistory.RollbackExactly | services/agr-api/app/routes/policies.py:924-933 | rollback to the one snapshot of a version restores its columns and saves the old policy, column by column |
| PolicyHistory.OverwriteExactly | services/agr-api/app/services/policy_import_service.py:172-181 | an overwriting import, column by column |
| PolicyHistory.CreatedExactly | services/agr-api/app/routes/policies.py:400-411 | both kinds of new policies, column by column |
| PolicyHistory.NextKeepsInv | services/agr-api/app/routes/policies.py:738-781 | every step keeps the rule history consistent, only extends it, and never lowers the version |
| PolicyHistory.VersionDeterminesRule | services/agr-api/app/routes/policies.py:65-77 | at any two moments of any history, imports and policies created by imports included, live policy or snapshots with one version carry one rule |
| PolicyHistory.RollbackRestores | services/agr-api/app/routes/policies.py:910-933 | rollback changes the policy if and only if exactly one snapshot has the version, and then restores that snapshot and the rule once live under it |
| PolicyHistory.RollbackIsReversible | services/agr-api/app/routes/policies.py:898-925 | rolling back to the version just left undoes a rollback if and only if that version had no snapshot before |
| PolicyHistory.RenamesShareAVersion | services/agr-api/app/routes/policies.py:738-744 | two patches of the name give one version two snapshots, and rollback to it fails |
| PolicyHistory.NewPolicies | services/agr-api/app/services/policy_import_service.py:188-203 | a policy created by the endpoint mirrors its state; one created by an import does if and only if the item is active |
| PolicyHistory.NextMirrored | services/agr-api/app/routes/policies.py:775-847 | after a step active mirrors the state if and only if the step wrote both in agreement, or it did before and the step is no disagreeing import |
| PolicyHistory.RunMirrored | services/agr-api/app/models.py:84-86 | after every run, imports included, active mirrors the state if and only if each disagreeing import, and a disagreement at the start, was followed by a step that writes both in agreement |
| PolicyHistory.NextCovered | services/agr-api/app/routes/policies.py:743-771 | a step loses a version if and only if it is an import whose current version has no snapshot |
| PolicyHistory.RunCovered | services/agr-api/app/services/policy_import_service.py:172-181 | after every run all superseded versions have snapshots if and only if every import found its version saved |
| PolicyHistory.OverwriteSynced | services/agr-api/app/services/policy_import_service.py:172-181 | an overwriting import keeps mirror and coverage if and only if its active and state agree and the version it replaces is saved |
| PolicyHistory.RunSynced | services/agr-api/app/models.py:84-86 | both run conditions together, from any policy that starts in sync |
| PolicyHistory.EndpointsStaySynced | services/agr-api/app/routes/policies.py:775-781 | over the policy endpoints alone, active exactly in state "active", and no superseded version lacks a snapshot |
| PolicyHistory.ImportBreaksSync | services/agr-api/app/services/policy_import_service.py:172-181 | two witnesses of a broken mirror and a lost version, one of which activation does not repair |
| PolicyImport.PolicyStore.CheckNames | services/agr-api/app/services/policy_import_service.py:123-133 | the loop refuses exactly lists in which a name occurs twice |
| PolicyImport.PolicyStore.IndexByName | services/agr-api/app/services/policy_import_service.py:136-140 | the loop maps each name to the last stored policy of that name |
| PolicyImport.PolicyStore.ImportItem | services/agr-api/app/services/policy_import_service.py:142-207 | status and store after one item, in the program's order of checks |
| PolicyImport.PolicyStore.ImportPolicies | services/agr-api/app/services/policy_import_service.py:120-217 | an error and no change on a repeated name; else store, results and the four counters for the whole list |
| PolicyImport.JudgeExactly | services/agr-api/app/services/policy_import_service.py:142-207 | when an item is skipped, an error, updated or created |
| PolicyImport.CreateIsExact | services/agr-api/app/services/policy_import_service.py:188-203 | a created policy has the item's own columns in state active, behind all others |
| PolicyImport.LastNamedIsLast | services/agr-api/app/services/policy_import_service.py:136-140 | a name stands for the last policy of that name |
| PolicyImport.CountersAreExact | services/agr-api/app/services/policy_import_service.py:209-217 | each counter is the number of results of its own status |
| PolicyImport.OneResultPerItem | services/agr-api/app/services/policy_import_service.py:209-217 | one result per item, in order, and the four counters sum to their number |
| PolicyImport.NamesAfter | services/agr-api/app/services/policy_import_service.py:188-203 | a name is stored afterwards if and only if it was before or an item of that name was created |
| PolicyImport.OthersStay | services/agr-api/app/services/policy_import_service.py:172-181 | a stored policy that no item is written over is unchanged |
| PolicyImport.OverwriteIsExact | services/agr-api/app/services/policy_import_service.py:172-181 | with distinct names, a policy that is written over has exactly that item's fields, its own project and agent ids where the item has none, and one more version |
| PolicyImport.DryRunIsFaithful | services/agr-api/app/services/policy_import_service.py:163-170 | a dry run writes nothing and reports, item by item, what the real run does when no write raises |
| PolicyImport.RepeatChangesNothing | services/agr-api/app/services/policy_import_service.py:146-149 | after a real run without raised writes, the same import without overwrite creates, updates and changes nothing |

## Left out

Assumptions of the models:

- Policy rules are abstract syntax: taking `when`, `unless` and the action out of rule text by regular
  expressions, whitespace normalisation inside the text, words such as `unless` inside a condition or head,
  and rules written `unless` before `when` are not modelled.
- The Cedar binary is represented by "some permit applies and no forbid does"; principal and resource
  constraints of rule heads are not modelled.
- CedarReader: of how Cedar judges a leaf, the type errors on present attributes and the leaves that the in-process
  patterns do not understand included (two attributes compared, a set test), only that a leaf which does not
  mention approval_status does not depend on it is assumed. What Cedar makes of a particular leaf is assumed
  where a theorem says `Reads`.
- CedarPassByKinds: takes Cedar to judge every condition without error; CedarPassWithErrors does not.
- GatesInUse: that the two gate texts read approval_status is assumed of the reader, since the leaf patterns are
  regular expressions.
- GatesWithErrors: as GatesInUse, and likewise which of the two texts asks for presence.
- How a leaf compares its attribute with its literal (numbers, booleans, `like`) is a parameter; only that an
  absent attribute makes the leaf false is fixed.
- EnginesAgree: takes Cedar to judge every condition without error; EnginesAgreeWithErrors is the statement with
  errors, over rules whose conditions are printed trees. In both, contexts whose approval_status is present but
  not "approved" are not covered, because the Cedar path skips its second pass there; conditions must not
  mention approval_status and an unless must be an approval gate on a forbid.
- CedarProcessPool.close racing with execute, and the text of the worker's errors, are not modelled.
- SHA-256 and HMAC are parameters. No injectivity is assumed, since no function to digests of one length is
  injective; the theorems exhibit the colliding texts instead.
- Audit payloads are built from null, booleans, integers, strings, lists and objects; floats, values that
  `default=str` converts, and lone surrogates (which fail to encode) are not modelled. An object is the list
  of its items in key order.
- One audit append is one atomic step per organisation, and the log is constant while it is verified.
- ChainBinding: the two logs are complete, that is numbered and linked from their first entry.
- Token bucket arithmetic is over exact reals. Call times in order are assumed where a theorem says so.
- The fallbacks when Redis is down, expiry of the quota key, the weekly reset and the soft limit are not
  modelled.
- `int()` of non-ASCII digits in tokens is not modelled.
- An approval endpoint is one atomic step whose clock readings do not go backwards; a step that raises is rolled
  back (`database.py:63-65`). Escalation takes no row lock in the program, so its atomicity is an assumption. The
  default SLA is assumed positive and at most the maximum.
- RefreshWorkflowState: the `workflow_last_error` text and the transition time are not modelled.
- ApplyDecision: as RefreshWorkflowState; webhooks are not modelled.
- LoadPending: the approval exists, so its "not found" answer is not modelled.
- HandleSlackInteractivity: parsing the payload and looking up the actor are one boolean.
- EscalateApproval: the approver's address and the escalation and transition times are not modelled.
- SupersededLinkIsDead: legacy links without a version are not superseded, by design of the program.
- DecideViaEmailPost: the id in a token is compared as text, not as a UUID with its own refusal, and its attempt
  counter is a parameter.
- The workflow's run method suspends at its waits, so it and its signals are steps on values, not a method.
  Timers fire at any time from their due time on. Retries and replays of the workflow server, webhooks, emails,
  Slack messages and the `workflow_last_error` texts are not modelled.
- Breaker calls that are cancelled between admission and report are not modelled: every admitted call reports
  at most once, and nothing forces it to.
- ImportItem: validation and failing writes are parameters, and a failing write leaves the store unchanged;
  what the database session holds after a failed flush is not modelled.
- ImportPolicies: policy ids and error texts in the results are not modelled.
- Conflict warnings, cache invalidation and, outside the import, project and agent ids are not modelled.

Parts of the repository without a model: YAML and raw Cedar parsing, policy export, risk scoring, compliance
enrichment, webhook retries, anomaly scores, usage reports, replay, audit export, approval steps, SSO, the
SDKs, the CLI, the GitHub Action and the dashboard. They would add only single-branch arithmetic, plumbing or
presentation.
