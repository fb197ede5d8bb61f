/** The client-project rollup: per-day sums of usage events, and the bounded backfill that
    corrects the stored rows toward them. */
module Rollup {
  import opened Numbers
  import opened Options
  import opened Sorting
  import opened Text

  datatype Event = Event(
    client: int, project: Option<string>, reportedAt: int,
    input: Option<int>, output: Option<int>, cacheRead: Option<int>, cacheWrite: Option<int>, cost: Option<real>)

  datatype Key = Key(client: int, project: string, day: int)

  datatype Totals = Totals(input: int, output: int, cacheRead: int, cacheWrite: int, cost: real)

  type Table = map<Key, Totals>

  /** The group of an event, by UTC day; events without a project have none. */
  function KeyOf(e: Event): Option<Key> {
    if e.project.None? then None else Some(Key(e.client, e.project.value, DayOf(e.reportedAt)))
  }

  function OrZero(n: Option<int>): int {
    if n.Some? then n.value else 0
  }

  const NOTHING := Totals(0, 0, 0, 0, 0.0)

  function Plus(a: Totals, b: Totals): Totals {
    Totals(a.input + b.input, a.output + b.output, a.cacheRead + b.cacheRead, a.cacheWrite + b.cacheWrite, a.cost + b.cost)
  }

  /** What an event adds; a null amount adds nothing. */
  function Amount(e: Event): Totals {
    Totals(OrZero(e.input), OrZero(e.output), OrZero(e.cacheRead), OrZero(e.cacheWrite),
           if e.cost.Some? then e.cost.value else 0.0)
  }

  /** The sums over the events of group `k`. */
  function SumOf(events: seq<Event>, k: Key): Totals {
    if events == [] then NOTHING
    else
      var before := SumOf(events[..|events| - 1], k);
      if KeyOf(events[|events| - 1]) == Some(k) then Plus(before, Amount(events[|events| - 1])) else before
  }

  function Groups(events: seq<Event>): set<Key> {
    set e | e in events && KeyOf(e).Some? :: KeyOf(e).value
  }

  /** The grouped aggregate over the events. */
  function Sums(events: seq<Event>): Table {
    map k | k in Groups(events) :: SumOf(events, k)
  }

  /** Whether the sums of every group fit the 32-bit columns they are cast to. */
  predicate Fits(t: Totals) {
    InInt4(t.input) && InInt4(t.output) && InInt4(t.cacheRead) && InInt4(t.cacheWrite)
  }

  predicate InInt4(n: int) {
    -0x8000_0000 <= n <= 0x7fff_ffff
  }

  predicate AllFit(sums: Table) {
    forall k :: k in sums ==> Fits(sums[k])
  }

  // ----- disagreements -----

  /** The event groups whose row is missing or different. */
  function Disagreeing(rollup: Table, sums: Table): set<Key> {
    set k | k in sums && (k !in rollup || rollup[k] != sums[k])
  }

  /** The rows without an event group. */
  function Stale(rollup: Table, sums: Table): set<Key> {
    rollup.Keys - sums.Keys
  }

  function Mismatches(rollup: Table, sums: Table): nat {
    |Disagreeing(rollup, sums)| + |Stale(rollup, sums)|
  }

  lemma AgreesIffNoMismatch(rollup: Table, sums: Table)
    ensures Mismatches(rollup, sums) == 0 <==> rollup == sums
  {
    if Mismatches(rollup, sums) == 0 {
      assert Disagreeing(rollup, sums) == {} && Stale(rollup, sums) == {};
      forall k | k in sums ensures k in rollup && rollup[k] == sums[k] {
        assert k !in Disagreeing(rollup, sums);
      }
      forall k | k in rollup ensures k in sums {
        assert k !in Stale(rollup, sums);
      }
    }
  }

  // ----- one run -----

  predicate KeyLe(a: Key, b: Key) {
    if a.client != b.client then a.client < b.client
    else if a.project != b.project then TextLe(a.project, b.project)
    else a.day <= b.day
  }

  lemma KeyLeIsTotalOrder()
    ensures TotalOrder(KeyLe)
  {
    TextLeIsTotalOrder();
    forall x, y, z | KeyLe(x, y) && KeyLe(y, z) ensures KeyLe(x, z) {
      if x.client == y.client == z.client && x.project != y.project && y.project != z.project {
        assert TextLe(x.project, y.project) && TextLe(y.project, z.project);
      }
    }
  }

  function SortKeys(s: set<Key>): (r: seq<Key>)
    ensures multiset(r) == multiset(s)
  {
    KeyLeIsTotalOrder();
    SortSet(s, KeyLe)
  }

  /** The groups a run recomputes: all that disagree, or the first `limit` in key order. */
  function Chosen(rollup: Table, sums: Table, limit: Option<nat>): (r: seq<Key>)
    ensures SetOf(r) <= Disagreeing(rollup, sums) <= sums.Keys
  {
    SameMembers(SortKeys(Disagreeing(rollup, sums)), Disagreeing(rollup, sums));
    var order := SortKeys(Disagreeing(rollup, sums));
    if limit.None? then order else order[..Min(limit.value, |order|)]
  }

  /** The rows of `chosen` take their sums; the other rows stay. */
  function Upserted(rollup: Table, sums: Table, chosen: set<Key>): Table
    requires chosen <= sums.Keys
  {
    map k | k in rollup.Keys + chosen :: if k in chosen then sums[k] else rollup[k]
  }

  function WithoutStale(rollup: Table, sums: Table): Table {
    map k | k in rollup && k in sums :: rollup[k]
  }

  /** The table after a run: chosen groups recomputed, stale rows gone, all else as it was. */
  function AfterRun(rollup: Table, sums: Table, limit: Option<nat>): Table {
    WithoutStale(Upserted(rollup, sums, SetOf(Chosen(rollup, sums, limit))), sums)
  }

  datatype Outcome = Consistent | DryRun | Converged | Remaining(count: nat) | LimitTooSmall | OutOfRange

  /** What the script returns to the shell; an exception ends it with 1. */
  function ExitCode(o: Outcome): int {
    match o
    case Consistent => 0
    case DryRun => 0
    case Converged => 0
    case Remaining(_) => 1
    case LimitTooSmall => 1
    case OutOfRange => 1
  }

  lemma StaleRemoved(rollup: Table, sums: Table)
    ensures rollup - Stale(rollup, sums) == WithoutStale(rollup, sums)
  {
  }

  class Store {
    var rollup: Table

    constructor (rollup: Table)
      ensures this.rollup == rollup
    {
      this.rollup := rollup;
    }

    /** The upsert: the chosen groups, one after the other, get their sums. */
    method RunBackfill(sums: Table, limit: Option<nat>) returns (updated: nat)
      modifies this
      ensures updated == |Chosen(old(rollup), sums, limit)|
      ensures rollup == Upserted(old(rollup), sums, SetOf(Chosen(old(rollup), sums, limit)))
    {
      hide Chosen, Disagreeing;
      var chosen := Chosen(rollup, sums, limit);
      ChosenDisagree(rollup, sums, limit);
      updated := 0;
      UpsertNothing(rollup, sums);
      for i := 0 to |chosen|
        invariant updated == i
        invariant SetOf(chosen[..i]) <= sums.Keys
        invariant rollup == Upserted(old(rollup), sums, SetOf(chosen[..i]))
      {
        assert chosen[i] in SetOf(chosen);
        assert SetOf(chosen[..i + 1]) == SetOf(chosen[..i]) + {chosen[i]};
        UpsertOne(old(rollup), sums, SetOf(chosen[..i]), chosen[i]);
        rollup := rollup[chosen[i] := sums[chosen[i]]];
        updated := updated + 1;
      }
      assert chosen[..|chosen|] == chosen;
    }

    /** Deletes the rows without an event group. */
    method DeleteStaleRows(sums: Table) returns (deleted: nat)
      modifies this
      ensures rollup == WithoutStale(old(rollup), sums)
      ensures deleted == |Stale(old(rollup), sums)|
    {
      hide Stale, WithoutStale;
      var stale := Stale(rollup, sums);
      deleted := |stale|;
      rollup := rollup - stale;
      StaleRemoved(old(rollup), sums);
    }

    /** The control flow of the script: count, then nothing, a dry run, or the repair. */
    method Run(events: seq<Event>, dryRun: bool, limit: Option<int>) returns (outcome: Outcome)
      modifies this
      ensures var sums := Sums(events);
              var n := if limit.Some? && limit.value >= 0 then Some(limit.value as nat) else None;
              if !AllFit(sums) then outcome == OutOfRange && rollup == old(rollup)
              else if old(rollup) == sums then outcome == Consistent && rollup == old(rollup)
              else if dryRun then outcome == DryRun && rollup == old(rollup)
              else if limit.Some? && limit.value < 1 then outcome == LimitTooSmall && rollup == old(rollup)
              else
                && rollup == AfterRun(old(rollup), sums, n)
                && outcome == if rollup == sums then Converged else Remaining(Mismatches(rollup, sums))
      ensures dryRun && AllFit(Sums(events)) ==> ExitCode(outcome) == 0
      ensures !dryRun ==> (ExitCode(outcome) == 0 <==> AllFit(Sums(events)) && rollup == Sums(events))
    {
      hide Sums, AllFit, AfterRun, Upserted, WithoutStale, Mismatches;
      var sums := Sums(events);
      if !AllFit(sums) {
        return OutOfRange;
      }
      AgreesIffNoMismatch(rollup, sums);
      if Mismatches(rollup, sums) == 0 {
        return Consistent;
      }
      if dryRun {
        return DryRun;
      }
      if limit.Some? && limit.value < 1 {
        return LimitTooSmall;
      }
      var updated := RunBackfill(sums, if limit.Some? then Some(limit.value as nat) else None);
      var deleted := DeleteStaleRows(sums);
      assert rollup == AfterRun(old(rollup), sums, if limit.Some? then Some(limit.value as nat) else None) by {
        AfterRunIs(old(rollup), sums, if limit.Some? then Some(limit.value as nat) else None);
      }
      AgreesIffNoMismatch(rollup, sums);
      var remaining := Mismatches(rollup, sums);
      outcome := if remaining == 0 then Converged else Remaining(remaining);
    }
  }

  lemma AfterRunIs(rollup: Table, sums: Table, limit: Option<nat>)
    ensures AfterRun(rollup, sums, limit)
            == WithoutStale(Upserted(rollup, sums, SetOf(Chosen(rollup, sums, limit))), sums)
  {
  }

  lemma UpsertNothing(rollup: Table, sums: Table)
    ensures Upserted(rollup, sums, {}) == rollup
  {
  }

  lemma UpsertOne(rollup: Table, sums: Table, chosen: set<Key>, k: Key)
    requires k in sums && chosen <= sums.Keys
    ensures Upserted(rollup, sums, chosen + {k}) == Upserted(rollup, sums, chosen)[k := sums[k]]
  {
  }

  lemma ChosenDisagree(rollup: Table, sums: Table, limit: Option<nat>)
    ensures SetOf(Chosen(rollup, sums, limit)) <= Disagreeing(rollup, sums) <= sums.Keys
    ensures |SetOf(Chosen(rollup, sums, limit))| == |Chosen(rollup, sums, limit)|
    ensures |Chosen(rollup, sums, limit)|
            == if limit.None? then |Disagreeing(rollup, sums)| else Min(limit.value, |Disagreeing(rollup, sums)|)
  {
    var d := Disagreeing(rollup, sums);
    var order := SortKeys(d);
    var chosen := Chosen(rollup, sums, limit);
    SameMembers(order, d);
    assert |multiset(order)| == |order|;
    forall k | k in chosen ensures k in order {}
    forall i, j | 0 <= i < j < |chosen| ensures chosen[i] != chosen[j] {
      NoDuplicates(order, d, i, j);
    }
    DistinctSize(chosen);
  }

  /** A limited run takes the groups that come first in key order. */
  lemma ChosenComeFirst(rollup: Table, sums: Table, limit: Option<nat>, k: Key, other: Key)
    requires k in Chosen(rollup, sums, limit)
    requires other in Disagreeing(rollup, sums) && other !in Chosen(rollup, sums, limit)
    ensures KeyLe(k, other)
  {
    hide KeyLe, Disagreeing;
    var d := Disagreeing(rollup, sums);
    KeyLeIsTotalOrder();
    var order := SortKeys(d);
    assert order == SortSet(d, KeyLe);
    SameMembers(order, d);
    assert other in SetOf(order);
    var chosen := Chosen(rollup, sums, limit);
    var i :| 0 <= i < |chosen| && chosen[i] == k;
    var j :| 0 <= j < |order| && order[j] == other;
    assert forall n :: 0 <= n < |chosen| ==> chosen[n] == order[n] && chosen[n] in chosen;
    assert order[i] == k;
  }

  lemma {:induction false} DistinctSize(s: seq<Key>)
    requires forall i, j :: 0 <= i < j < |s| ==> s[i] != s[j]
    ensures |SetOf(s)| == |s|
  {
    if s != [] {
      var before, last := s[..|s| - 1], s[|s| - 1];
      DistinctSize(before);
      assert SetOf(s) == SetOf(before) + {last};
      assert last !in before;
    }
  }

  // ----- what a run promises -----

  /** One run with limit n leaves exactly max(0, D - n) disagreements, none without a limit;
      it leaves no stale row and never touches an agreeing one. */
  lemma RunShrinksDisagreement(rollup: Table, sums: Table, limit: Option<nat>)
    ensures var after := AfterRun(rollup, sums, limit);
            var d := |Disagreeing(rollup, sums)|;
            && |Disagreeing(after, sums)| == (if limit.None? || limit.value >= d then 0 else d - limit.value)
            && Stale(after, sums) == {}
            && (forall k :: k in sums && k in rollup && rollup[k] == sums[k] ==> k in after && after[k] == rollup[k])
  {
    hide Chosen, AfterRun, Upserted, WithoutStale;
    var chosen := SetOf(Chosen(rollup, sums, limit));
    var d := Disagreeing(rollup, sums);
    ChosenDisagree(rollup, sums, limit);
    AfterRunIs(rollup, sums, limit);
    RepairChosen(rollup, sums, chosen);
    assert |d - chosen| == |d| - |chosen|;
  }

  /** Recomputing any part of the disagreeing groups repairs exactly that part. */
  lemma RepairChosen(rollup: Table, sums: Table, chosen: set<Key>)
    requires chosen <= Disagreeing(rollup, sums)
    ensures var after := WithoutStale(Upserted(rollup, sums, chosen), sums);
            && Disagreeing(after, sums) == Disagreeing(rollup, sums) - chosen
            && Stale(after, sums) == {}
            && (forall k :: k in sums && k in rollup && rollup[k] == sums[k] ==> k in after && after[k] == rollup[k])
  {
  }

  /** The table after `runs` runs. */
  function AfterRuns(rollup: Table, sums: Table, n: nat, runs: nat): Table {
    if runs == 0 then rollup else AfterRun(AfterRuns(rollup, sums, n, runs - 1), sums, Some(n))
  }

  /** What is left of `d` after taking `room` away. */
  function LeftOf(d: int, room: int): int {
    if room >= d then 0 else d - room
  }

  lemma OneRunMore(rollup: Table, sums: Table, n: nat, d: int, room: int)
    requires |Disagreeing(rollup, sums)| == LeftOf(d, room)
    ensures |Disagreeing(AfterRun(rollup, sums, Some(n)), sums)| == LeftOf(d, room + n)
    ensures Stale(AfterRun(rollup, sums, Some(n)), sums) == {}
  {
    hide AfterRun, Disagreeing, Stale;
    RunShrinksDisagreement(rollup, sums, Some(n));
  }

  lemma {:induction false} RunsShrinkDisagreement(rollup: Table, sums: Table, n: nat, runs: nat)
    ensures |Disagreeing(AfterRuns(rollup, sums, n, runs), sums)| == LeftOf(|Disagreeing(rollup, sums)|, n * runs)
    ensures runs > 0 ==> Stale(AfterRuns(rollup, sums, n, runs), sums) == {}
  {
    hide AfterRun, Disagreeing, Stale, LeftOf;
    if runs == 0 {
      assert LeftOf(|Disagreeing(rollup, sums)|, 0) == |Disagreeing(rollup, sums)| by {
        NothingTaken(|Disagreeing(rollup, sums)|);
      }
    } else {
      RunsShrinkDisagreement(rollup, sums, n, runs - 1);
      OneRunMore(AfterRuns(rollup, sums, n, runs - 1), sums, n, |Disagreeing(rollup, sums)|, n * (runs - 1));
      assert n * (runs - 1) + n == n * runs;
    }
  }

  lemma NothingTaken(d: nat)
    ensures LeftOf(d, 0) == d
  {
  }

  /** Phased backfills converge: after at least one run, the table equals the event sums
      exactly when the runs together had room for every disagreement. */
  lemma BackfillConverges(rollup: Table, sums: Table, n: nat, runs: nat)
    requires runs > 0
    ensures AfterRuns(rollup, sums, n, runs) == sums <==> n * runs >= |Disagreeing(rollup, sums)|
  {
    RunsShrinkDisagreement(rollup, sums, n, runs);
    AgreesIffNoMismatch(AfterRuns(rollup, sums, n, runs), sums);
    assert |Stale(AfterRuns(rollup, sums, n, runs), sums)| == 0;
  }

  // ----- nothing is lost or counted twice -----

  function GrandTotal(keys: seq<Key>, events: seq<Event>): Totals {
    if keys == [] then NOTHING
    else Plus(GrandTotal(keys[..|keys| - 1], events), SumOf(events, keys[|keys| - 1]))
  }

  function EventTotal(events: seq<Event>): Totals {
    if events == [] then NOTHING
    else
      var before := EventTotal(events[..|events| - 1]);
      if KeyOf(events[|events| - 1]).Some? then Plus(before, Amount(events[|events| - 1])) else before
  }

  lemma {:induction false} OneMoreEvent(keys: seq<Key>, events: seq<Event>)
    requires events != [] && forall i, j :: 0 <= i < j < |keys| ==> keys[i] != keys[j]
    ensures var before, last := events[..|events| - 1], events[|events| - 1];
            GrandTotal(keys, events)
            == if KeyOf(last).Some? && KeyOf(last).value in keys then Plus(GrandTotal(keys, before), Amount(last))
               else GrandTotal(keys, before)
  {
    if keys != [] {
      OneMoreEvent(keys[..|keys| - 1], events);
      assert keys == keys[..|keys| - 1] + [keys[|keys| - 1]];
    }
  }

  lemma {:induction false} GroupsCoverEvents(keys: seq<Key>, events: seq<Event>)
    requires forall i, j :: 0 <= i < j < |keys| ==> keys[i] != keys[j]
    requires forall e :: e in events && KeyOf(e).Some? ==> KeyOf(e).value in keys
    ensures GrandTotal(keys, events) == EventTotal(events)
  {
    if events == [] {
      NoEventsNoTotal(keys);
    } else {
      var before, last := events[..|events| - 1], events[|events| - 1];
      assert events == before + [last];
      OneMoreEvent(keys, events);
      GroupsCoverEvents(keys, before);
      assert last in events;
    }
  }

  lemma {:induction false} NoEventsNoTotal(keys: seq<Key>)
    ensures GrandTotal(keys, []) == NOTHING
  {
    if keys != [] {
      NoEventsNoTotal(keys[..|keys| - 1]);
    }
  }

  /** Conservation: over all groups the sums add up to the amounts of all events that have a
      project; grouping by client, project and UTC day loses nothing and counts nothing twice. */
  lemma SumsConserveAmounts(events: seq<Event>)
    ensures GrandTotal(SortKeys(Groups(events)), events) == EventTotal(events)
  {
    var keys := SortKeys(Groups(events));
    SameMembers(keys, Groups(events));
    forall e | e in events && KeyOf(e).Some? ensures KeyOf(e).value in keys {
      assert KeyOf(e).value in SetOf(keys);
    }
    forall i, j | 0 <= i < j < |keys| ensures keys[i] != keys[j] {
      NoDuplicates(keys, Groups(events), i, j);
    }
    GroupsCoverEvents(keys, events);
  }
}
