/**
  The hash-chained audit log of one organisation: appending, paged verification, and what a valid chain
  binds. The hash is a parameter; no theorem assumes that it has no collisions, the ones about tampering
  name the two texts that would have to collide.
 */
module AuditChain {
  import opened Decimal
  import opened Json
  import opened Text
  import opened Wrappers

  type Hash = string -> string

  /** The columns of an event that are not part of its hashed text. */
  datatype Details = Details(
    agentId: string,
    action: string,
    resource: string,
    decision: string,
    policyId: Option<string>,
    approvalId: Option<string>
  )

  datatype Event = Event(
    sequenceNum: int,
    eventType: string,
    details: Details,
    payload: Json,
    prevHash: Option<string>,
    entryHash: string
  )

  /** The text that is hashed for an entry; json.dumps(None) is "null", so no payload is Json.Null. */
  function EntryText(sequenceNum: int, eventType: string, payload: Json, prev: Option<string>): string {
    IntText(sequenceNum) + ":" + eventType + ":" + Dumps(payload) + ":" + PrevText(prev)
  }

  /** The same text, field after field, each followed by the rest. */
  lemma EntryTextNests(sequenceNum: int, eventType: string, payload: Json, prev: Option<string>)
    ensures EntryText(sequenceNum, eventType, payload, prev)
         == IntText(sequenceNum) + (":" + (eventType + (":" + DumpsThen(payload, ":" + PrevText(prev)))))
  {
    hide IntText, Dumps, DumpsThen;
    DumpsThenIsDumps(payload, ":" + PrevText(prev));
  }

  /** prev_hash or '' */
  function PrevText(prev: Option<string>): string {
    if prev.Some? then prev.value else ""
  }

  function ComputeEntryHash(hash: Hash, sequenceNum: int, eventType: string, payload: Json, prev: Option<string>)
    : string
  {
    hash(EntryText(sequenceNum, eventType, payload, prev))
  }

  // ---- Appending ----

  const MAX_PAYLOAD_BYTES := 64_000

  function Units(s: string): seq<Unit> {
    seq(|s|, i requires 0 <= i < |s| => s[i] as int % 0x10000)
  }

  /** dict.get(key), with None for a missing key. */
  function Lookup(fields: seq<Field>, key: seq<Unit>): Json {
    if fields == [] then Null
    else if fields[0].key == key then fields[0].value
    else Lookup(fields[1..], key)
  }

  /** A payload whose dump is too long is replaced by a marker that keeps its evaluation id. */
  function Capped(payload: Json): Json {
    if payload.Object? && |Dumps(payload)| > MAX_PAYLOAD_BYTES then
      Object([Field(Units("_original_size_bytes"), Int(|Dumps(payload)|)),
              Field(Units("_truncated"), Bool(true)),
              Field(Units("eval_id"), Lookup(payload.fields, Units("eval_id")))])
    else payload
  }

  function NextEvent(log: seq<Event>, eventType: string, details: Details, payload: Json, hash: Hash): Event {
    var prev := if log == [] then None else Some(log[|log| - 1].entryHash);
    var sequenceNum := if log == [] then 1 else log[|log| - 1].sequenceNum + 1;
    Event(sequenceNum, eventType, details, Capped(payload), prev,
          ComputeEntryHash(hash, sequenceNum, eventType, Capped(payload), prev))
  }

  /** One organisation's log, in sequence order; an append is one atomic step. */
  class AuditLog {
    var events: seq<Event>

    constructor ()
      ensures events == []
    {
      events := [];
    }

    method CreateAuditEvent(eventType: string, details: Details, payload: Json, hash: Hash) returns (event: Event)
      modifies this
      ensures event == NextEvent(old(events), eventType, details, payload, hash)
      ensures events == old(events) + [event]
    {
      var prevHash, sequenceNum := None, 1;
      if |events| > 0 {
        var last := events[|events| - 1];
        prevHash, sequenceNum := Some(last.entryHash), last.sequenceNum + 1;
      }
      var kept := payload;
      if payload.Object? {
        var size := |Dumps(payload)|;
        if size > MAX_PAYLOAD_BYTES {
          kept := Object([Field(Units("_original_size_bytes"), Int(size)),
                          Field(Units("_truncated"), Bool(true)),
                          Field(Units("eval_id"), Lookup(payload.fields, Units("eval_id")))]);
        }
      }
      var entryHash := ComputeEntryHash(hash, sequenceNum, eventType, kept, prevHash);
      event := Event(sequenceNum, eventType, details, kept, prevHash, entryHash);
      events := events + [event];
    }
  }

  // ---- Verification ----

  datatype Verdict = Verdict(valid: bool, total: nat, firstInvalid: Option<int>)

  /** One pass over a list of events, after count good ones of which the last has hash prev. */
  function Check(events: seq<Event>, hash: Hash, prev: Option<string>, count: nat): Verdict {
    if events == [] then Verdict(true, count, None)
    else
      var e := events[0];
      if ComputeEntryHash(hash, e.sequenceNum, e.eventType, e.payload, prev) != e.entryHash then
        Verdict(false, count + 1, Some(e.sequenceNum))
      else
        Check(events[1..], hash, Some(e.entryHash), count + 1)
  }

  /** A flat scan of the first limit events. */
  function FlatVerify(events: seq<Event>, limit: nat, hash: Hash): Verdict {
    Check(events[..Min(limit, |events|)], hash, None, 0)
  }

  lemma CheckNext(events: seq<Event>, i: nat, n: nat, hash: Hash, prev: Option<string>, count: nat)
    requires i < n <= |events|
    ensures var e := events[i];
            Check(events[i..n], hash, prev, count) ==
            if ComputeEntryHash(hash, e.sequenceNum, e.eventType, e.payload, prev) != e.entryHash then
              Verdict(false, count + 1, Some(e.sequenceNum))
            else Check(events[i + 1..n], hash, Some(e.entryHash), count + 1)
  {
    assert events[i..n][1..] == events[i + 1..n];
  }

  /** Paged verification gives the verdict, count and first bad sequence number of the flat scan. */
  method VerifyAuditChain(log: seq<Event>, limit: nat, pageSize: nat, hash: Hash) returns (verdict: Verdict)
    requires limit >= 1 && pageSize >= 1
    ensures verdict == FlatVerify(log, limit, hash)
  {
    hide ComputeEntryHash;
    var prevHash, totalVerified, offset := None, 0, 0;
    ghost var n := Min(limit, |log|);
    while true
      invariant offset == totalVerified <= n
      invariant FlatVerify(log, limit, hash) == Check(log[offset..n], hash, prevHash, totalVerified)
      decreases n - offset
    {
      var batchLimit := Min(pageSize, limit - totalVerified);
      var events := log[offset..Min(offset + batchLimit, |log|)];
      if |events| == 0 {
        break;
      }
      for i := 0 to |events|
        invariant totalVerified == offset + i <= n
        invariant FlatVerify(log, limit, hash) == Check(log[totalVerified..n], hash, prevHash, totalVerified)
      {
        var event := events[i];
        CheckNext(log, totalVerified, n, hash, prevHash, totalVerified);
        var expected := ComputeEntryHash(hash, event.sequenceNum, event.eventType, event.payload, prevHash);
        if expected != event.entryHash {
          return Verdict(false, totalVerified + 1, Some(event.sequenceNum));
        }
        prevHash := Some(event.entryHash);
        totalVerified := totalVerified + 1;
      }
      offset := offset + |events|;
      if |events| < batchLimit {
        break;
      }
    }
    return Verdict(true, totalVerified, None);
  }

  // ---- What a verdict means ----

  /** The hash that entry i chains to. */
  function ChainedTo(log: seq<Event>, i: nat): Option<string>
    requires i < |log|
  {
    if i == 0 then None else Some(log[i - 1].entryHash)
  }

  function TextAt(log: seq<Event>, i: nat): string
    requires i < |log|
  {
    EntryText(log[i].sequenceNum, log[i].eventType, log[i].payload, ChainedTo(log, i))
  }

  /** Entry i carries the hash of its own text. */
  predicate Intact(log: seq<Event>, i: nat, hash: Hash)
    requires i < |log|
  {
    log[i].entryHash == hash(TextAt(log, i))
  }

  ghost predicate Linked(log: seq<Event>, hash: Hash) {
    forall i: nat | i < |log| :: Intact(log, i, hash)
  }

  lemma {:induction false} CheckMeaning(log: seq<Event>, i: nat, n: nat, hash: Hash) returns (bad: nat)
    requires i <= n <= |log|
    ensures i <= bad <= n && forall k: nat | i <= k < bad :: Intact(log, k, hash)
    ensures bad < n ==> !Intact(log, bad, hash)
    ensures Check(log[i..n], hash, if i == 0 then None else Some(log[i - 1].entryHash), i)
         == if bad < n then Verdict(false, bad + 1, Some(log[bad].sequenceNum)) else Verdict(true, n, None)
    decreases n - i
  {
    hide EntryText;
    bad := i;
    if i < n {
      hide Check;
      CheckNext(log, i, n, hash, ChainedTo(log, i), i);
      if Intact(log, i, hash) {
        bad := CheckMeaning(log, i + 1, n, hash);
      }
    }
  }

  /** The verdict names the first entry, if any, among the first limit that is not intact. */
  lemma FlatVerifyMeaning(log: seq<Event>, limit: nat, hash: Hash) returns (bad: nat)
    ensures var n := Min(limit, |log|);
            && bad <= n && (forall k: nat | k < bad :: Intact(log, k, hash))
            && (bad < n ==> !Intact(log, bad, hash))
            && FlatVerify(log, limit, hash)
               == if bad < n then Verdict(false, bad + 1, Some(log[bad].sequenceNum)) else Verdict(true, n, None)
  {
    var n := Min(limit, |log|);
    bad := CheckMeaning(log, 0, n, hash);
    assert log[..n] == log[0..n];
  }

  // ---- Logs built by appending always verify ----

  datatype Request = Request(eventType: string, details: Details, payload: Json)

  function Build(requests: seq<Request>, hash: Hash): seq<Event> {
    if requests == [] then []
    else
      var n := |requests| - 1;
      var log := Build(requests[..n], hash);
      log + [NextEvent(log, requests[n].eventType, requests[n].details, requests[n].payload, hash)]
  }

  lemma NextIsIntact(log: seq<Event>, eventType: string, details: Details, payload: Json, hash: Hash)
    requires Linked(log, hash)
    ensures Linked(log + [NextEvent(log, eventType, details, payload, hash)], hash)
  {
    hide EntryText, Capped;
    var longer := log + [NextEvent(log, eventType, details, payload, hash)];
    forall i: nat | i < |longer| ensures Intact(longer, i, hash) {
      if i < |log| {
        assert Intact(log, i, hash);
      }
    }
  }

  lemma {:induction false} BuiltLinks(requests: seq<Request>, hash: Hash)
    ensures Linked(Build(requests, hash), hash)
  {
    hide Intact, NextEvent;
    if requests != [] {
      var n := |requests| - 1;
      BuiltLinks(requests[..n], hash);
      NextIsIntact(Build(requests[..n], hash), requests[n].eventType, requests[n].details, requests[n].payload, hash);
    }
  }

  /** Event i is numbered in order, holds what request i asked for, and names its predecessor's hash. */
  predicate Records(log: seq<Event>, i: nat, r: Request)
    requires i < |log|
  {
    var e := log[i];
    && e.sequenceNum == i + 1 && e.eventType == r.eventType && e.details == r.details
    && e.payload == Capped(r.payload) && e.prevHash == ChainedTo(log, i)
  }

  ghost predicate Numbered(log: seq<Event>, requests: seq<Request>) {
    |log| == |requests| && forall i: nat | i < |log| :: Records(log, i, requests[i])
  }

  lemma NextIsNumbered(log: seq<Event>, requests: seq<Request>, r: Request, hash: Hash)
    requires Numbered(log, requests)
    ensures Numbered(log + [NextEvent(log, r.eventType, r.details, r.payload, hash)], requests + [r])
  {
    hide ComputeEntryHash, Capped;
    var longer, more := log + [NextEvent(log, r.eventType, r.details, r.payload, hash)], requests + [r];
    forall i: nat | i < |longer| ensures Records(longer, i, more[i]) {
      if i < |log| {
        assert Records(log, i, requests[i]);
      } else if log != [] {
        assert Records(log, |log| - 1, requests[|log| - 1]);
      }
    }
  }

  /** Numbered 1, 2, 3, ... and linked, whatever was appended, truncated payloads included. */
  lemma {:induction false} BuiltIsLinked(requests: seq<Request>, hash: Hash)
    ensures Linked(Build(requests, hash), hash) && Numbered(Build(requests, hash), requests)
  {
    hide Linked, NextEvent;
    BuiltLinks(requests, hash);
    if requests != [] {
      var n := |requests| - 1;
      BuiltIsLinked(requests[..n], hash);
      hide Numbered;
      NextIsNumbered(Build(requests[..n], hash), requests[..n], requests[n], hash);
      assert requests == requests[..n] + [requests[n]];
    }
  }

  lemma BuiltVerifies(requests: seq<Request>, limit: nat, hash: Hash)
    ensures FlatVerify(Build(requests, hash), limit, hash) == Verdict(true, Min(limit, |requests|), None)
  {
    BuiltIsLinked(requests, hash);
    var _ := FlatVerifyMeaning(Build(requests, hash), limit, hash);
  }

  // ---- The text of an entry determines the entry ----

  lemma {:induction false} ColonFreeUnique(a: string, b: string, x: string, y: string)
    requires ColonFree(a) && ColonFree(b) && a + (":" + x) == b + (":" + y)
    ensures a == b && x == y
  {
    var s, t := a + (":" + x), b + (":" + y);
    assert s[|a|] == ':' && t[|b|] == ':';
    assert forall i | 0 <= i < |a| :: s[i] == a[i] && a[i] in a;
    assert forall i | 0 <= i < |b| :: t[i] == b[i] && b[i] in b;
    Cancel(a, b, ":" + x, ":" + y);
    Cancel(":", ":", x, y);
  }

  /** With colon-free event types, equal texts come from equal entries: the payload may contain colons. */
  lemma EntryTextInjective(m: int, s: string, p: Json, u: Option<string>, n: int, t: string, q: Json, v: Option<string>)
    requires ColonFree(s) && ColonFree(t) && EntryText(m, s, p, u) == EntryText(n, t, q, v)
    ensures m == n && s == t && p == q && PrevText(u) == PrevText(v)
  {
    hide IntText, DumpsThen, EntryText;
    EntryTextNests(m, s, p, u);
    EntryTextNests(n, t, q, v);
    var d, e := DumpsThen(p, ":" + PrevText(u)), DumpsThen(q, ":" + PrevText(v));
    IntTextUnique(m, n, ":" + (s + (":" + d)), ":" + (t + (":" + e)));
    Cancel(":", ":", s + (":" + d), t + (":" + e));
    ColonFreeUnique(s, t, d, e);
    DumpsUnique(p, q, ":" + PrevText(u), ":" + PrevText(v));
    Cancel(":", ":", PrevText(u), PrevText(v));
  }

  // ---- Tampering ----

  /** A and b are different texts with one hash. */
  ghost predicate Collision(hash: Hash, a: string, b: string) {
    a != b && hash(a) == hash(b)
  }

  /**
    Replace the type or payload of entry i of a linked log and leave its hash: verification reports
    exactly entry i, unless the old and the new text of that entry collide.
   */
  lemma TamperIsReported(log: seq<Event>, i: nat, eventType: string, payload: Json, limit: nat, hash: Hash)
    requires Linked(log, hash) && i < |log| && i < limit
    requires ColonFree(eventType) && ColonFree(log[i].eventType)
    requires eventType != log[i].eventType || payload != log[i].payload
    ensures var forged := log[i := log[i].(eventType := eventType, payload := payload)];
            || FlatVerify(forged, limit, hash) == Verdict(false, i + 1, Some(log[i].sequenceNum))
            || Collision(hash, TextAt(log, i), TextAt(forged, i))
  {
    hide EntryText;
    var forged := log[i := log[i].(eventType := eventType, payload := payload)];
    var e, prev := log[i], ChainedTo(log, i);
    assert ChainedTo(forged, i) == prev;
    if TextAt(forged, i) == TextAt(log, i) {
      EntryTextInjective(e.sequenceNum, e.eventType, e.payload, prev, e.sequenceNum, eventType, payload, prev);
    }
    forall k: nat | k < i ensures Intact(forged, k, hash) {
      assert Intact(log, k, hash);
    }
    assert Intact(log, i, hash);
    var bad := FlatVerifyMeaning(forged, limit, hash);
    if Intact(forged, i, hash) {
      assert Collision(hash, TextAt(log, i), TextAt(forged, i));
    } else {
      assert bad == i;
    }
  }

  /** The columns outside the hashed text, prev_hash among them, are not verified: no change of theirs is seen. */
  lemma DetailsAreNotVerified(log: seq<Event>, i: nat, details: Details, prevHash: Option<string>,
                              limit: nat, hash: Hash)
    requires i < |log|
    ensures FlatVerify(log[i := log[i].(details := details, prevHash := prevHash)], limit, hash)
         == FlatVerify(log, limit, hash)
  {
    var other := log[i := log[i].(details := details, prevHash := prevHash)];
    var n := Min(limit, |log|);
    SameVerdict(log[..n], other[..n], hash, None, 0);
  }

  lemma {:induction false} SameVerdict(a: seq<Event>, b: seq<Event>, hash: Hash, prev: Option<string>, count: nat)
    requires |a| == |b| && forall i | 0 <= i < |a| :: a[i].(details := b[i].details, prevHash := b[i].prevHash) == b[i]
    ensures Check(a, hash, prev, count) == Check(b, hash, prev, count)
    decreases |a|
  {
    hide ComputeEntryHash;
    if a != [] {
      assert a[0].(details := b[0].details, prevHash := b[0].prevHash) == b[0];
      SameVerdict(a[1..], b[1..], hash, Some(a[0].entryHash), count + 1);
    }
  }

  // ---- The last hash binds the whole log ----

  ghost predicate SameEntries(a: seq<Event>, b: seq<Event>) {
    && |a| == |b|
    && forall i | 0 <= i < |a| :: a[i].sequenceNum == b[i].sequenceNum && a[i].eventType == b[i].eventType
                                  && a[i].payload == b[i].payload && a[i].entryHash == b[i].entryHash
  }

  /** Counted from the end, the k-th entries of a and b collide. */
  ghost predicate CollisionAt(a: seq<Event>, b: seq<Event>, k: nat, hash: Hash) {
    k < |a| && k < |b| && Collision(hash, TextAt(a, |a| - 1 - k), TextAt(b, |b| - 1 - k))
  }

  ghost predicate SomeCollision(a: seq<Event>, b: seq<Event>, hash: Hash) {
    exists k :: CollisionAt(a, b, k, hash)
  }

  ghost predicate ColonFreeTypes(log: seq<Event>) {
    forall i | 0 <= i < |log| :: ColonFree(log[i].eventType)
  }

  /**
    Two valid logs with the same last hash have the same length and the same number, type and payload at
    every position, unless two of their entries, equally far from the end, collide. A digest is not empty.
   */
  lemma {:induction false} ChainBinding(a: seq<Event>, b: seq<Event>, hash: Hash)
    requires Linked(a, hash) && Linked(b, hash) && ColonFreeTypes(a) && ColonFreeTypes(b)
    requires a != [] && b != [] && a[|a| - 1].entryHash == b[|b| - 1].entryHash
    requires forall s :: hash(s) != ""
    ensures SameEntries(a, b) || SomeCollision(a, b, hash)
    decreases |a|
  {
    hide EntryText, ColonFree;
    var m, n := |a| - 1, |b| - 1;
    var e, f := a[m], b[n];
    assert Intact(a, m, hash) && Intact(b, n, hash);
    if TextAt(a, m) != TextAt(b, n) {
      assert CollisionAt(a, b, 0, hash);
      return;
    }
    EntryTextInjective(e.sequenceNum, e.eventType, e.payload, ChainedTo(a, m),
                       f.sequenceNum, f.eventType, f.payload, ChainedTo(b, n));
    NonEmptyHashes(a, m, hash);
    NonEmptyHashes(b, n, hash);
    if m > 0 {
      LinkedPrefix(a, hash);
      LinkedPrefix(b, hash);
      ChainBinding(a[..m], b[..n], hash);
      if !SameEntries(a[..m], b[..n]) {
        var k: nat :| CollisionAt(a[..m], b[..n], k, hash);
        TextOfPrefix(a, m, m - 1 - k);
        TextOfPrefix(b, n, n - 1 - k);
        assert CollisionAt(a, b, k + 1, hash);
      }
    }
  }

  lemma NonEmptyHashes(log: seq<Event>, i: nat, hash: Hash)
    requires Linked(log, hash) && i < |log| && forall s :: hash(s) != ""
    ensures PrevText(ChainedTo(log, i)) == "" <==> i == 0
  {
    if i > 0 {
      assert Intact(log, i - 1, hash);
    }
  }

  lemma TextOfPrefix(log: seq<Event>, m: nat, i: nat)
    requires i < m <= |log|
    ensures TextAt(log[..m], i) == TextAt(log, i)
  {
  }

  lemma LinkedPrefix(log: seq<Event>, hash: Hash)
    requires Linked(log, hash) && log != []
    ensures Linked(log[..|log| - 1], hash)
  {
    hide EntryText;
    var prefix := log[..|log| - 1];
    forall i: nat | i < |prefix| ensures Intact(prefix, i, hash) {
      assert Intact(log, i, hash);
    }
  }

  // ---- Entries removed, inserted or moved ----

  /** Cutting off the end is not seen: every front part of a linked log verifies. */
  lemma TruncatedVerifies(log: seq<Event>, k: nat, limit: nat, hash: Hash)
    requires Linked(log, hash) && k <= |log|
    ensures FlatVerify(log[..k], limit, hash) == Verdict(true, Min(limit, k), None)
  {
    hide EntryText;
    forall i: nat | i < k ensures Intact(log[..k], i, hash) {
      assert Intact(log, i, hash);
    }
    var _ := FlatVerifyMeaning(log[..k], limit, hash);
  }

  ghost predicate DistinctNumbers(log: seq<Event>) {
    forall i, j | 0 <= i < j < |log| :: log[i].sequenceNum != log[j].sequenceNum
  }

  lemma PrefixStaysIntact(a: seq<Event>, b: seq<Event>, m: nat, hash: Hash)
    requires Linked(a, hash) && m <= |a| && m <= |b| && a[..m] == b[..m]
    ensures forall i: nat | i < m :: Intact(b, i, hash)
  {
    hide EntryText;
    forall i: nat | i < m ensures Intact(b, i, hash) {
      assert Intact(a, i, hash);
      assert a[i] == a[..m][i] == b[i];
      assert i > 0 ==> a[i - 1] == a[..m][i - 1] == b[i - 1];
    }
  }

  /**
    Entries of a linked log in another order, some missing or repeated: verification reports exactly the first
    one that stands in another place than before, unless two named texts collide.
   */
  lemma DisplacedIsReported(log: seq<Event>, moved: seq<Event>, p: nat, q: nat, limit: nat, hash: Hash)
    requires Linked(log, hash) && ColonFreeTypes(log) && DistinctNumbers(log) && forall s :: hash(s) != ""
    requires p < |log| && p < |moved| && p < limit && q < |log| && p != q
    requires log[..p] == moved[..p] && moved[p] == log[q]
    ensures || FlatVerify(moved, limit, hash) == Verdict(false, p + 1, Some(log[q].sequenceNum))
            || Collision(hash, TextAt(moved, p), TextAt(log, q))
            || (p > 0 && q > 0 && Collision(hash, TextAt(log, p - 1), TextAt(log, q - 1)))
  {
    PrefixStaysIntact(log, moved, p, hash);
    var bad := FlatVerifyMeaning(moved, limit, hash);
    if Intact(moved, p, hash) && TextAt(moved, p) == TextAt(log, q) {
      SamePredecessor(log, moved, p, q, hash);
    } else if Intact(moved, p, hash) {
      assert Intact(log, q, hash);
    } else {
      assert bad == p;
    }
  }

  /** Two places of one log with the same text before them collide. */
  lemma SamePredecessor(log: seq<Event>, moved: seq<Event>, p: nat, q: nat, hash: Hash)
    requires Linked(log, hash) && ColonFreeTypes(log) && DistinctNumbers(log) && forall s :: hash(s) != ""
    requires p < |log| && p < |moved| && q < |log| && p != q && log[..p] == moved[..p] && moved[p] == log[q]
    requires TextAt(moved, p) == TextAt(log, q)
    ensures p > 0 && q > 0 && Collision(hash, TextAt(log, p - 1), TextAt(log, q - 1))
  {
    hide EntryText;
    var e := log[q];
    EntryTextInjective(e.sequenceNum, e.eventType, e.payload, ChainedTo(moved, p),
                       e.sequenceNum, e.eventType, e.payload, ChainedTo(log, q));
    assert p > 0 ==> log[p - 1] == log[..p][p - 1] == moved[p - 1];
    assert ChainedTo(moved, p) == ChainedTo(log, p);
    NonEmptyHashes(log, p, hash);
    NonEmptyHashes(log, q, hash);
    assert Intact(log, p - 1, hash) && Intact(log, q - 1, hash);
    var f, g := log[p - 1], log[q - 1];
    if TextAt(log, p - 1) == TextAt(log, q - 1) {
      EntryTextInjective(f.sequenceNum, f.eventType, f.payload, ChainedTo(log, p - 1),
                         g.sequenceNum, g.eventType, g.payload, ChainedTo(log, q - 1));
    }
  }

  /**
    Whatever is done to a log before an entry that is kept, inserting forged entries included: if what stands
    up to that entry is not what stood there, verification reports an entry between the first change and it,
    unless two named texts collide.
   */
  lemma ChangeBeforeIsReported(log: seq<Event>, forged: seq<Event>, m: nat, p: nat, q: nat, limit: nat, hash: Hash)
    requires Linked(log, hash) && ColonFreeTypes(log) && ColonFreeTypes(forged) && forall s :: hash(s) != ""
    requires m <= p < |forged| && p < limit && m <= q < |log| && log[..m] == forged[..m]
    requires forged[p].entryHash == log[q].entryHash && !SameEntries(log[..q + 1], forged[..p + 1])
    ensures || (exists k: nat | m <= k <= p ::
                  FlatVerify(forged, limit, hash) == Verdict(false, k + 1, Some(forged[k].sequenceNum)))
            || SomeCollision(log[..q + 1], forged[..p + 1], hash)
  {
    hide Intact, ColonFree, FlatVerify, CollisionAt;
    PrefixStaysIntact(log, forged, m, hash);
    var bad := FlatVerifyMeaning(forged, limit, hash);
    if bad > p {
      FrontIsLinked(log, q + 1, hash);
      FrontIsLinked(forged, p + 1, hash);
      ChainBinding(log[..q + 1], forged[..p + 1], hash);
    } else {
      assert m <= bad <= p;
    }
  }

  lemma FrontIsLinked(log: seq<Event>, k: nat, hash: Hash)
    requires k <= |log| && forall i: nat | i < k :: Intact(log, i, hash)
    ensures Linked(log[..k], hash)
  {
    hide EntryText;
    forall i: nat | i < k ensures Intact(log[..k], i, hash) {
      assert Intact(log, i, hash);
    }
  }

  // ---- What an append stores ----

  /** The value of a key: that of its first field, null if it has none. */
  lemma {:induction false} LookupExactly(fields: seq<Field>, key: seq<Unit>)
    ensures (forall i | 0 <= i < |fields| :: fields[i].key != key) ==> Lookup(fields, key) == Null
    ensures forall i | 0 <= i < |fields| && fields[i].key == key && (forall j | 0 <= j < i :: fields[j].key != key) ::
              Lookup(fields, key) == fields[i].value
  {
    if fields != [] {
      LookupExactly(fields[1..], key);
      forall i | 0 < i < |fields| && fields[i].key == key && (forall j | 0 <= j < i :: fields[j].key != key)
        ensures Lookup(fields, key) == fields[i].value
      {
        assert fields[0].key != key && fields[1..][i - 1] == fields[i];
        assert forall j | 0 <= j < i - 1 :: fields[1..][j] == fields[j + 1];
      }
      if forall i | 0 <= i < |fields| :: fields[i].key != key {
        assert fields[0].key != key;
        assert forall i | 0 <= i < |fields| - 1 :: fields[1..][i] == fields[i + 1];
      }
    }
  }

  /** The code units of a text without surrogates are its characters. */
  lemma UnitsExactly(s: string)
    requires forall c :: c in s ==> c as int < 0x10000
    ensures |Units(s)| == |s| && forall i | 0 <= i < |s| :: Units(s)[i] == s[i] as int
  {
    assert forall i | 0 <= i < |s| :: s[i] in s;
  }

  /**
    The stored payload: as given if it is no object or its dump takes at most 64000 characters, each one byte;
    otherwise an object of exactly three fields, with the size of the dump and the evaluation id it had, or null.
   */
  lemma StoredPayload(log: seq<Event>, eventType: string, details: Details, payload: Json, hash: Hash)
    ensures Ascii(Dumps(payload))
    ensures var stored := NextEvent(log, eventType, details, payload, hash).payload;
            && (!payload.Object? || |Dumps(payload)| <= 64_000 ==> stored == payload)
            && (payload.Object? && |Dumps(payload)| > 64_000 ==>
                  && stored.Object? && |stored.fields| == 3
                  && stored.fields[0] == Field(Units("_original_size_bytes"), Int(|Dumps(payload)|))
                  && stored.fields[1] == Field(Units("_truncated"), Bool(true))
                  && stored.fields[2].key == Units("eval_id")
                  && ((forall i | 0 <= i < |payload.fields| :: payload.fields[i].key != Units("eval_id")) ==>
                        stored.fields[2].value == Null)
                  && (forall i | 0 <= i < |payload.fields| && payload.fields[i].key == Units("eval_id")
                              && (forall j | 0 <= j < i :: payload.fields[j].key != Units("eval_id")) ::
                        stored.fields[2].value == payload.fields[i].value))
  {
    hide Units, Lookup, DumpsThen, ComputeEntryHash;
    DumpsIsAscii(payload, "");
    if payload.Object? {
      LookupExactly(payload.fields, Units("eval_id"));
    }
  }
}
