/**
  Bulk import of policies: duplicate check, per-item skip, validation, dry run, overwrite and create, with
  the counters and results of the response. Validation and failing writes are parameters.
 */
module PolicyImport {
  import opened Wrappers

  datatype Item = Item(
    name: string,
    level: string,
    rule: string,
    active: bool,
    state: string,
    projectId: Option<string>,
    agentId: Option<string>
  )

  datatype Stored = Stored(
    name: string,
    level: string,
    rule: string,
    active: bool,
    state: string,
    projectId: Option<string>,
    agentId: Option<string>,
    version: nat
  )

  datatype Request = Request(items: seq<Item>, dryRun: bool, overwrite: bool)

  datatype Status = Created | Updated | Skipped | Errored

  datatype Line = Line(name: string, status: Status)

  datatype Response = Response(created: nat, updated: nat, skipped: nat, errors: nat, lines: seq<Line>)

  /** valid: the rule passes validation; raises: writing the item of this name raises. */
  datatype Oracle = Oracle(valid: string -> bool, raises: string -> bool)

  /** The policy that a name stands for: the last one of that name. */
  function LastNamed(store: seq<Stored>, name: string): (r: Option<nat>)
    ensures r.Some? ==> r.value < |store| && store[r.value].name == name
    ensures r.None? <==> forall i | 0 <= i < |store| :: store[i].name != name
  {
    if store == [] then None
    else
      var n := |store| - 1;
      if store[n].name == name then Some(n) else LastNamed(store[..n], name)
  }

  predicate DistinctNames(items: seq<Item>) {
    forall i, j | 0 <= i < j < |items| :: items[i].name != items[j].name
  }

  function Judge(known: bool, item: Item, req: Request, o: Oracle): Status {
    if known && !req.overwrite then Skipped
    else if !o.valid(item.rule) then Errored
    else if !req.dryRun && o.raises(item.name) then Errored
    else if known then Updated
    else Created
  }

  /** The policy created for an item; its state is not passed on, so the column keeps its default. */
  function New(item: Item): Stored {
    Stored(item.name, item.level, item.rule, item.active, "active", item.projectId, item.agentId, 1)
  }

  /** The store after one item, which found the policy at index at, if any. */
  function Write(store: seq<Stored>, at: Option<nat>, item: Item, status: Status): seq<Stored>
    requires at.Some? ==> at.value < |store|
  {
    match status
    case Updated =>
      if at.None? then store
      else
        var p := store[at.value];
        store[at.value := p.(rule := item.rule, level := item.level, active := item.active, state := item.state,
                             projectId := item.projectId.Or(p.projectId), agentId := item.agentId.Or(p.agentId),
                             version := p.version + 1)]
    case Created => store + [New(item)]
    case _ => store
  }

  function Statuses(store: seq<Stored>, items: seq<Item>, req: Request, o: Oracle): seq<Line> {
    if items == [] then []
    else
      var n := |items| - 1;
      Statuses(store, items[..n], req, o)
      + [Line(items[n].name, Judge(LastNamed(store, items[n].name).Some?, items[n], req, o))]
  }

  /** The store after the items, all of which look up the store as it was at the start. */
  function Written(store: seq<Stored>, items: seq<Item>, req: Request, o: Oracle): (r: seq<Stored>)
    ensures |store| <= |r|
  {
    if items == [] || req.dryRun then store
    else
      var n := |items| - 1;
      var at := LastNamed(store, items[n].name);
      Write(Written(store, items[..n], req, o), at, items[n], Judge(at.Some?, items[n], req, o))
  }

  function CountOf(lines: seq<Line>, status: Status): nat {
    if lines == [] then 0
    else (if lines[|lines| - 1].status == status then 1 else 0) + CountOf(lines[..|lines| - 1], status)
  }

  class PolicyStore {
    var policies: seq<Stored>

    method CheckNames(items: seq<Item>) returns (ok: bool)
      ensures ok <==> DistinctNames(items)
      ensures !ok <==> exists i, j :: 0 <= i < j < |items| && items[i].name == items[j].name
    {
      var seen: set<string> := {};
      for i := 0 to |items|
        invariant forall s :: s in seen <==> exists k | 0 <= k < i :: items[k].name == s
        invariant forall j, k | 0 <= j < k < i :: items[j].name != items[k].name
      {
        if items[i].name in seen {
          return false;
        }
        seen := seen + {items[i].name};
      }
      return true;
    }

    /** The policies by name; a later policy of the same name takes the entry over. */
    method IndexByName() returns (existingByName: map<string, nat>)
      ensures Indexes(existingByName, policies)
    {
      existingByName := map[];
      for i := 0 to |policies|
        invariant Indexes(existingByName, policies[..i])
      {
        assert policies[..i + 1][..i] == policies[..i];
        existingByName := existingByName[policies[i].name := i];
      }
      assert policies[..|policies|] == policies;
    }

    /** One round of the import loop: what is reported for the item, and what is written. */
    method ImportItem(item: Item, at: Option<nat>, req: Request, o: Oracle) returns (status: Status)
      requires at.Some? ==> at.value < |policies|
      modifies this
      ensures status == Judge(at.Some?, item, req, o)
      ensures policies == if req.dryRun then old(policies) else Write(old(policies), at, item, status)
    {
      if at.Some? && !req.overwrite {
        return Skipped;
      }
      if !o.valid(item.rule) {
        return Errored;
      }
      if req.dryRun {
        return if at.Some? then Updated else Created;
      }
      if o.raises(item.name) {
        return Errored;
      }
      if at.Some? && req.overwrite {
        var p := policies[at.value];
        p := p.(rule := item.rule, level := item.level, active := item.active, state := item.state);
        if item.projectId.Some? {
          p := p.(projectId := item.projectId);
        }
        if item.agentId.Some? {
          p := p.(agentId := item.agentId);
        }
        p := p.(version := p.version + 1);
        policies := policies[at.value := p];
        return Updated;
      }
      policies := policies + [Stored(item.name, item.level, item.rule, item.active, "active",
                                     item.projectId, item.agentId, 1)];
      return Created;
    }

    /** None stands for the error raised on a name that occurs twice in the request. */
    method ImportPolicies(req: Request, o: Oracle) returns (response: Option<Response>)
      modifies this
      ensures response.None? <==> !DistinctNames(req.items)
      ensures response.None? ==> policies == old(policies)
      ensures response.Some? ==> policies == Written(old(policies), req.items, req, o)
                                 && response.value == Summary(Statuses(old(policies), req.items, req, o))
    {
      hide DistinctNames, LastNamed, Judge, Write, Written, Statuses;
      var distinct := CheckNames(req.items);
      if !distinct {
        return None;
      }
      var results: seq<Line> := [];
      var created, updated, skipped, errors := 0, 0, 0, 0;
      var existingByName := IndexByName();
      ghost var start := policies;
      WrittenNone(start, req, o);
      for i := 0 to |req.items|
        invariant |start| <= |policies|
        invariant policies == Written(start, req.items[..i], req, o)
        invariant results == Statuses(start, req.items[..i], req, o)
        invariant Response(created, updated, skipped, errors, results) == Summary(results)
      {
        var item := req.items[i];
        StatusesNext(start, req.items, i, req, o);
        WrittenNext(start, req.items, i, req, o);
        var at := Get(existingByName, item.name);
        IndexLooksUp(existingByName, start, item.name);
        var status := ImportItem(item, at, req, o);
        CountAppend(results, Line(item.name, status));
        results := results + [Line(item.name, status)];
        match status
        case Created => created := created + 1;
        case Updated => updated := updated + 1;
        case Skipped => skipped := skipped + 1;
        case Errored => errors := errors + 1;
      }
      assert req.items[..|req.items|] == req.items;
      return Some(Response(created, updated, skipped, errors, results));
    }
  }

  function Get(byName: map<string, nat>, name: string): Option<nat> {
    if name in byName then Some(byName[name]) else None
  }

  ghost predicate Indexes(byName: map<string, nat>, store: seq<Stored>) {
    forall name :: Get(byName, name) == LastNamed(store, name)
  }

  lemma WrittenNone(store: seq<Stored>, req: Request, o: Oracle)
    ensures Written(store, [], req, o) == store && Statuses(store, [], req, o) == []
  {
  }

  lemma StatusesNext(store: seq<Stored>, items: seq<Item>, i: nat, req: Request, o: Oracle)
    requires i < |items|
    ensures Statuses(store, items[..i + 1], req, o)
         == Statuses(store, items[..i], req, o)
            + [Line(items[i].name, Judge(LastNamed(store, items[i].name).Some?, items[i], req, o))]
  {
    assert items[..i + 1][..i] == items[..i];
  }

  lemma WrittenNext(store: seq<Stored>, items: seq<Item>, i: nat, req: Request, o: Oracle)
    requires i < |items|
    ensures var at, before := LastNamed(store, items[i].name), Written(store, items[..i], req, o);
            Written(store, items[..i + 1], req, o)
            == if req.dryRun then before else Write(before, at, items[i], Judge(at.Some?, items[i], req, o))
  {
    assert items[..i + 1][..i] == items[..i];
  }

  lemma IndexLooksUp(byName: map<string, nat>, store: seq<Stored>, name: string)
    requires Indexes(byName, store)
    ensures Get(byName, name) == LastNamed(store, name)
    ensures LastNamed(store, name).Some? ==> LastNamed(store, name).value < |store|
  {
  }

  function Summary(lines: seq<Line>): Response {
    Response(CountOf(lines, Created), CountOf(lines, Updated), CountOf(lines, Skipped), CountOf(lines, Errored), lines)
  }

  lemma CountAppend(lines: seq<Line>, line: Line)
    ensures forall s :: CountOf(lines + [line], s) == CountOf(lines, s) + (if line.status == s then 1 else 0)
  {
    assert (lines + [line])[..|lines|] == lines;
  }

  // ---- The counters add up ----

  lemma {:induction false} CountsAddUp(lines: seq<Line>)
    ensures CountOf(lines, Created) + CountOf(lines, Updated) + CountOf(lines, Skipped) + CountOf(lines, Errored)
         == |lines|
  {
    if lines != [] {
      CountsAddUp(lines[..|lines| - 1]);
    }
  }

  /** One result per item, in order, under the item's name; and the four counters sum to their number. */
  lemma {:induction false} OneResultPerItem(store: seq<Stored>, items: seq<Item>, req: Request, o: Oracle)
    ensures var lines := Statuses(store, items, req, o);
            && |lines| == |items|
            && (forall i | 0 <= i < |items| :: lines[i] ==
                  Line(items[i].name, Judge(LastNamed(store, items[i].name).Some?, items[i], req, o)))
            && CountOf(lines, Created) + CountOf(lines, Updated) + CountOf(lines, Skipped) + CountOf(lines, Errored)
               == |items|
  {
    hide Judge, LastNamed;
    if items != [] {
      OneResultPerItem(store, items[..|items| - 1], req, o);
    }
    CountsAddUp(Statuses(store, items, req, o));
  }

  // ---- What an import writes ----

  /** The names in the store after an import: those before, and those of the created items. */
  lemma {:induction false} NamesAfter(store: seq<Stored>, items: seq<Item>, req: Request, o: Oracle, name: string)
    requires !req.dryRun
    ensures LastNamed(Written(store, items, req, o), name).Some? <==>
            LastNamed(store, name).Some?
            || exists i | 0 <= i < |items| :: items[i].name == name
                 && Judge(LastNamed(store, name).Some?, items[i], req, o) == Created
  {
    hide LastNamed, Judge, Write;
    if items != [] {
      var n := |items| - 1;
      var before := Written(store, items[..n], req, o);
      NamesAfter(store, items[..n], req, o, name);
      var at := LastNamed(store, items[n].name);
      LookupIsNamed(store, items[n].name);
      NameKept(before, at, items[n], Judge(at.Some?, items[n], req, o), name);
    }
  }

  lemma NameKept(store: seq<Stored>, at: Option<nat>, item: Item, status: Status, name: string)
    requires at.Some? ==> at.value < |store|
    ensures LastNamed(Write(store, at, item, status), name).Some? <==>
            LastNamed(store, name).Some? || (status == Created && item.name == name)
  {
    var after := Write(store, at, item, status);
    if status == Created {
      assert after[..|store|] == store;
    } else {
      SameNames(store, after, name);
    }
  }

  lemma {:induction false} SameNames(a: seq<Stored>, b: seq<Stored>, name: string)
    requires |a| == |b| && forall i | 0 <= i < |a| :: a[i].name == b[i].name
    ensures LastNamed(a, name) == LastNamed(b, name)
  {
    if a != [] {
      SameNames(a[..|a| - 1], b[..|b| - 1], name);
    }
  }

  /** Item i of the request is written over the stored policy at index at. */
  ghost predicate Overwrites(store: seq<Stored>, items: seq<Item>, i: nat, at: nat, req: Request, o: Oracle) {
    i < |items| && LastNamed(store, items[i].name) == Some(at) && Judge(true, items[i], req, o) == Updated
  }

  function Overwritten(p: Stored, item: Item): Stored {
    Stored(p.name, item.level, item.rule, item.active, item.state,
           if item.projectId.Some? then item.projectId else p.projectId,
           if item.agentId.Some? then item.agentId else p.agentId,
           p.version + 1)
  }

  lemma LookupIsNamed(store: seq<Stored>, name: string)
    ensures var at := LastNamed(store, name); at.Some? ==> at.value < |store| && store[at.value].name == name
  {
  }

  lemma WriteAt(store: seq<Stored>, items: seq<Item>, at: nat, req: Request, o: Oracle)
    requires !req.dryRun && at < |store| && items != []
    ensures var n := |items| - 1;
            var before := Written(store, items[..n], req, o)[at];
            Written(store, items, req, o)[at]
            == if Overwrites(store, items, n, at, req, o) then Overwritten(before, items[n]) else before
  {
    hide LastNamed;
    LookupIsNamed(store, items[|items| - 1].name);
  }

  /** A stored policy over which no item is written stays as it is. */
  lemma {:induction false} OthersStay(store: seq<Stored>, items: seq<Item>, at: nat, req: Request, o: Oracle)
    requires !req.dryRun && at < |store|
    requires forall i: nat | i < |items| :: !Overwrites(store, items, i, at, req, o)
    ensures Written(store, items, req, o)[at] == store[at]
  {
    hide LastNamed, Judge;
    if items != [] {
      var n := |items| - 1;
      forall i: nat | i < n ensures !Overwrites(store, items[..n], i, at, req, o) {
        assert !Overwrites(store, items, i, at, req, o);
      }
      OthersStay(store, items[..n], at, req, o);
      WriteAt(store, items, at, req, o);
    }
  }

  /** With distinct names, a policy that is written over takes that item's fields and one more version. */
  lemma {:induction false} OverwriteIsExact(store: seq<Stored>, items: seq<Item>, i: nat, at: nat,
                                            req: Request, o: Oracle)
    requires DistinctNames(items) && !req.dryRun && at < |store| && Overwrites(store, items, i, at, req, o)
    ensures var p, was, item := Written(store, items, req, o)[at], store[at], items[i];
            && p == Overwritten(was, item)
            && p.name == was.name && p.level == item.level && p.rule == item.rule
            && p.active == item.active && p.state == item.state && p.version == was.version + 1
            && p.projectId == (if item.projectId == None then was.projectId else item.projectId)
            && p.agentId == (if item.agentId == None then was.agentId else item.agentId)
  {
    hide LastNamed, Judge;
    var n := |items| - 1;
    forall j: nat | j < |items| && Overwrites(store, items, j, at, req, o) ensures j == i {
      LookupIsNamed(store, items[i].name);
      LookupIsNamed(store, items[j].name);
    }
    WriteAt(store, items, at, req, o);
    if i < n {
      OverwriteIsExact(store, items[..n], i, at, req, o);
    } else {
      forall j: nat | j < n ensures !Overwrites(store, items[..n], j, at, req, o) {
        assert !Overwrites(store, items, j, at, req, o);
      }
      OthersStay(store, items[..n], at, req, o);
    }
  }

  // ---- Previews ----

  /** A dry run writes nothing and reports, item by item, what the real run does when no write raises. */
  lemma {:induction false} DryRunIsFaithful(store: seq<Stored>, items: seq<Item>, req: Request, o: Oracle)
    requires forall i | 0 <= i < |items| :: !o.raises(items[i].name)
    ensures Statuses(store, items, req.(dryRun := true), o) == Statuses(store, items, req.(dryRun := false), o)
    ensures Written(store, items, req.(dryRun := true), o) == store
  {
    if items != [] {
      var n := |items| - 1;
      assert forall i | 0 <= i < n :: items[..n][i] == items[i];
      DryRunIsFaithful(store, items[..n], req, o);
    }
  }

  /** After a real run in which no write raised, the same import without overwrite creates and updates nothing. */
  lemma RepeatChangesNothing(store: seq<Stored>, req: Request, o: Oracle)
    requires !req.dryRun && DistinctNames(req.items) && forall i | 0 <= i < |req.items| :: !o.raises(req.items[i].name)
    ensures var again := req.(overwrite := false);
            var after := Written(store, req.items, req, o);
            var response := Summary(Statuses(after, req.items, again, o));
            && response.created == 0 && response.updated == 0
            && response.skipped + response.errors == |req.items|
            && Written(after, req.items, again, o) == after
  {
    hide Written, Statuses, LastNamed;
    var again := req.(overwrite := false);
    var after := Written(store, req.items, req, o);
    OneResultPerItem(after, req.items, again, o);
    forall i | 0 <= i < |req.items|
      ensures Judge(LastNamed(after, req.items[i].name).Some?, req.items[i], again, o) in {Skipped, Errored}
    {
      NamesAfter(store, req.items, req, o, req.items[i].name);
    }
    NothingWritten(after, req.items, again, o);
    CountNone(Statuses(after, req.items, again, o), Created);
    CountNone(Statuses(after, req.items, again, o), Updated);
  }

  lemma {:induction false} CountNone(lines: seq<Line>, status: Status)
    requires forall i | 0 <= i < |lines| :: lines[i].status != status
    ensures CountOf(lines, status) == 0
  {
    if lines != [] {
      CountNone(lines[..|lines| - 1], status);
    }
  }

  lemma {:induction false} NothingWritten(store: seq<Stored>, items: seq<Item>, req: Request, o: Oracle)
    requires forall i | 0 <= i < |items| ::
               Judge(LastNamed(store, items[i].name).Some?, items[i], req, o) in {Skipped, Errored}
    ensures Written(store, items, req, o) == store
  {
    if items != [] {
      var n := |items| - 1;
      assert forall i | 0 <= i < n :: items[..n][i] == items[i];
      NothingWritten(store, items[..n], req, o);
    }
  }

  // ---- What one item does, outright ----

  /** The status of an item, in the program's order of checks. */
  lemma JudgeExactly(known: bool, item: Item, req: Request, o: Oracle)
    ensures var status := Judge(known, item, req, o);
            && (status == Skipped <==> known && !req.overwrite)
            && (status == Errored <==>
                  !(known && !req.overwrite) && (!o.valid(item.rule) || (!req.dryRun && o.raises(item.name))))
            && (status == Updated ==> known) && (status == Created ==> !known)
  {
  }

  /** A name stands for the last policy of that name. */
  lemma {:induction false} LastNamedIsLast(store: seq<Stored>, i: nat)
    requires i < |store| && forall j | i < j < |store| :: store[j].name != store[i].name
    ensures LastNamed(store, store[i].name) == Some(i)
  {
    var n := |store| - 1;
    if i < n {
      assert store[..n][i] == store[i];
      LastNamedIsLast(store[..n], i);
    }
  }

  /** A created policy: the item's own fields, in state "active", as version 1, behind all others. */
  lemma CreateIsExact(store: seq<Stored>, items: seq<Item>, req: Request, o: Oracle)
    requires items != [] && !req.dryRun
    requires LastNamed(store, items[|items| - 1].name).None?
    requires o.valid(items[|items| - 1].rule) && !o.raises(items[|items| - 1].name)
    ensures var item, before := items[|items| - 1], Written(store, items[..|items| - 1], req, o);
            Written(store, items, req, o)
            == before + [Stored(item.name, item.level, item.rule, item.active, "active",
                                item.projectId, item.agentId, 1)]
  {
    hide LastNamed;
  }

  ghost function Having(lines: seq<Line>, status: Status): set<int> {
    set i | 0 <= i < |lines| && lines[i].status == status
  }

  lemma {:induction false} CountIsCardinality(lines: seq<Line>, status: Status)
    ensures CountOf(lines, status) == |Having(lines, status)|
  {
    if lines == [] {
      assert Having(lines, status) == {};
    } else {
      var n := |lines| - 1;
      CountIsCardinality(lines[..n], status);
      if lines[n].status == status {
        assert Having(lines, status) == Having(lines[..n], status) + {n};
      } else {
        assert Having(lines, status) == Having(lines[..n], status);
      }
    }
  }

  /** Each counter of the response is the number of results of its own status. */
  lemma CountersAreExact(lines: seq<Line>)
    ensures var response := Summary(lines);
            && response.created == |Having(lines, Created)| && response.updated == |Having(lines, Updated)|
            && response.skipped == |Having(lines, Skipped)| && response.errors == |Having(lines, Errored)|
            && response.lines == lines
  {
    CountIsCardinality(lines, Created);
    CountIsCardinality(lines, Updated);
    CountIsCardinality(lines, Skipped);
    CountIsCardinality(lines, Errored);
  }
}
