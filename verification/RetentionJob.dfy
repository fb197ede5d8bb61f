/** The retention job: the loop of bounded batches over the three tables. */
module RetentionJob {
  import opened Numbers
  import opened Options
  import opened Retention
  import opened RetentionMeaning

  datatype Report = Report(
    now: int, dryRun: bool, cutoffs: map<Table, int>, deleted: map<Table, nat>)
  {
    function Total(): nat {
      Sum(deleted)
    }
  }

  function Cutoffs(w: Windows, now: int): map<Table, int> {
    map[ToolCalls := w.Cutoff(ToolCalls, now), Parts := w.Cutoff(Parts, now), Messages := w.Cutoff(Messages, now)]
  }

  function CountIn(deleted: map<Table, nat>, t: Table): nat {
    if t in deleted then deleted[t] else 0
  }

  function Sum(deleted: map<Table, nat>): nat {
    CountIn(deleted, ToolCalls) + CountIn(deleted, Parts) + CountIn(deleted, Messages)
  }

  function Capped(n: nat, limit: Option<nat>): nat {
    if limit.Some? then Min(n, limit.value) else n
  }

  lemma SomeRow(s: set<Id>) returns (x: Id)
    requires |s| > 0
    ensures x in s
  {
    assert (forall y :: y !in s) ==> s == {};
    x :| x in s;
  }

  lemma {:induction false} SubsetOfSize(s: set<Id>, k: nat)
    requires k <= |s|
    ensures exists r :: r <= s && |r| == k
  {
    if k < |s| {
      var x := SomeRow(s);
      assert |s - {x}| == |s| - 1;
      SubsetOfSize(s - {x}, k);
      var r :| r <= s - {x} && |r| == k;
      assert r <= s;
    } else {
      assert s <= s && |s| == k;
    }
  }

  function EligibleCount(db: Tables, t: Table, now: int, w: Windows): nat {
    |Eligible(db, t, w.Cutoff(t, now))|
  }

  function ExpiredCount(db: Tables, t: Table, now: int, w: Windows): nat {
    |Expired(db, t, now, w)|
  }

  /** Every row a complete run removes, over the three tables. */
  function ExpiredTotal(db: Tables, now: int, w: Windows): nat {
    ExpiredCount(db, ToolCalls, now, w) + ExpiredCount(db, Parts, now, w) + ExpiredCount(db, Messages, now, w)
  }

  function EligibleIn(db: Tables, now: int, w: Windows): Table -> nat {
    (t: Table) => EligibleCount(db, t, now, w)
  }

  function ExpiredIn(db: Tables, now: int, w: Windows): Table -> nat {
    (t: Table) => ExpiredCount(db, t, now, w)
  }

  /** The rows wanted in the first `n` tables, children first. */
  function UpTo(wanted: Table -> nat, n: nat): nat {
    (if n > 0 then wanted(ToolCalls) else 0) + (if n > 1 then wanted(Parts) else 0)
    + if n > 2 then wanted(Messages) else 0
  }

  function CountedIn(deleted: map<Table, nat>): Table -> nat {
    (t: Table) => CountIn(deleted, t)
  }

  /** A report under a shared budget: after each table, children first, the running total is
      every row wanted so far, or the whole budget. */
  ghost predicate FilledInOrder(deleted: map<Table, nat>, wanted: Table -> nat, limit: Option<nat>) {
    forall n: nat :: n <= |TABLES| ==> UpTo(CountedIn(deleted), n) == Capped(UpTo(wanted, n), limit)
  }

  function EligibleTotal(db: Tables, now: int, w: Windows): nat {
    EligibleCount(db, ToolCalls, now, w) + EligibleCount(db, Parts, now, w) + EligibleCount(db, Messages, now, w)
  }

  function Rank(t: Table): nat {
    match t
    case ToolCalls => 0
    case Parts => 1
    case Messages => 2
  }

  lemma AppendBatch(db: Tables, bs: seq<Batch>, b: Batch, w: Windows)
    requires AllAllowed(db, bs, w) && Allowed(AfterBatches(db, bs), b, w)
    ensures AllAllowed(db, bs + [b], w)
    ensures AfterBatches(db, bs + [b]) == AfterBatches(db, bs).Remove(b.table, b.ids)
  {
    hide Allowed;
    var all := bs + [b];
    assert all[..|bs|] == bs;
    forall i | 0 <= i < |all| ensures Allowed(AfterBatches(db, all[..i]), all[i], w) {
      if i < |bs| {
        assert all[..i] == bs[..i];
      }
    }
  }

  /** Deleting from a table leaves alone what is eligible in the tables before it, and takes
      the deleted rows out of what is eligible in its own. */
  lemma EligibleAfterRemove(db: Tables, t: Table, ids: set<Id>, u: Table, cutoff: int)
    requires Rank(u) <= Rank(t)
    ensures Eligible(db.Remove(t, ids), u, cutoff) == Eligible(db, u, cutoff) - (if u == t then ids else {})
  {
    var after := db.Remove(t, ids);
    forall c, p ensures t != ToolCalls ==> CallOf(after, c, p) == CallOf(db, c, p) && CallIn(after, c, p) == CallIn(db, c, p) {}
    forall p, m ensures t == Messages ==> PartIn(after, p, m) == PartIn(db, p, m) {}
  }

  class Database {
    var toolCalls: map<Id, ToolCall>
    var parts: map<Id, Part>
    var messages: map<Id, Message>

    function State(): Tables
      reads this
    {
      Tables(toolCalls, parts, messages)
    }

    constructor (db: Tables)
      ensures State() == db
    {
      toolCalls, parts, messages := db.toolCalls, db.parts, db.messages;
    }

    /** `run_retention`.  A dry run only counts; a write run drains the tables children first.
        With a limit both stop when the shared budget is spent. */
    method RunRetention(w: Windows, now: int, dryRun: bool, limit: Option<nat>, batchSize: nat)
      returns (report: Report, ghost history: seq<Batch>)
      requires batchSize >= 1
      modifies this
      ensures report.now == now && report.dryRun == dryRun
      ensures report.cutoffs == map[ToolCalls := now - w.toolCalls, Parts := now - w.parts, Messages := now - w.messages]
      ensures dryRun ==>
                State() == old(State()) && FilledInOrder(report.deleted, EligibleIn(old(State()), now, w), limit)
      ensures !dryRun ==>
                && TraceOf(old(State()), history, State(), now, w)
                && LostRows(old(State()), State(), now, w)
                && (limit.None? || report.Total() < limit.value ==> Survivors(old(State()), State(), now, w))
                && Removed(report.deleted, old(State()), State())
                && FilledInOrder(report.deleted, ExpiredIn(old(State()), now, w), limit)
                && report.Total() == Capped(ExpiredTotal(old(State()), now, w), limit)
                && (limit.None? || report.Total() < limit.value ==> State() == Purged(old(State()), now, w))
    {
      hide TraceOf, Took, Removed, Eligible, LostRows, Survivors, Purged, FillsUpTo, FilledInOrder, DrainedUpTo, EligibleIn, ExpiredIn;
      var deleted: map<Table, nat> := map[];
      var remaining := limit;
      ghost var start := State();
      history := [];
      NothingDone(start, now, w, limit);
      for i := 0 to |TABLES|
        invariant remaining == Left(limit, Sum(deleted)) && (limit.Some? ==> Sum(deleted) <= limit.value)
        invariant dryRun ==> State() == start && FillsUpTo(deleted, EligibleIn(start, now, w), limit, i)
        invariant !dryRun ==>
                    && TraceOf(start, history, State(), now, w)
                    && DrainedUpTo(deleted, start, State(), now, w, limit, i)
                    && FillsUpTo(deleted, ExpiredIn(start, now, w), limit, i)
      {
        var t := TABLES[i];
        if dryRun {
          var eligible := |Eligible(State(), t, w.Cutoff(t, now))|;
          if remaining.Some? {
            eligible := Min(eligible, remaining.value);
            remaining := Some(remaining.value - eligible);
          }
          CountedOne(deleted, start, now, w, limit, i, eligible);
          deleted := deleted[t := eligible];
          continue;
        }
        ghost var before := State();
        var count;
        ghost var gone;
        count, remaining, history, gone := Drain(t, now, w, remaining, batchSize, start, history);
        DrainedOne(deleted, start, before, State(), now, w, limit, i, gone);
        RunningTotal(deleted, start, State(), history, now, w, limit, i, count);
        deleted := deleted[t := count];
      }
      if !dryRun {
        RunIsComplete(deleted, start, State(), history, now, w, limit);
        PurgedMeans(start, now, w);
        TraceLoses(start, history, State(), now, w);
        FilledAtTheEnd(deleted, ExpiredIn(start, now, w), limit);
      } else {
        FilledAtTheEnd(deleted, EligibleIn(start, now, w), limit);
      }
      report := Report(now, dryRun, Cutoffs(w, now), deleted);
    }

    /** One delete statement: at most `take` eligible rows, the database's choice which. */
    method DeleteBatch(t: Table, cutoff: int, take: nat) returns (n: nat, ghost ids: set<Id>)
      modifies this
      ensures ids <= old(Eligible(State(), t, cutoff))
      ensures n == |ids| == Min(take, old(|Eligible(State(), t, cutoff)|))
      ensures State() == old(State()).Remove(t, ids)
    {
      var eligible := Eligible(State(), t, cutoff);
      n := Min(take, |eligible|);
      SubsetOfSize(eligible, n);
      var chosen :| chosen <= eligible && |chosen| == n;
      ids := chosen;
      match t {
        case ToolCalls => toolCalls := toolCalls - chosen;
        case Parts => parts := parts - chosen;
        case Messages => messages := messages - chosen;
      }
    }

    /** The inner loop over one table: batches until one comes back short or the budget is
        spent.  The ghost trace `done` is the work of the run so far. */
    method Drain(t: Table, now: int, w: Windows, budget: Option<nat>, batchSize: nat,
                 ghost start: Tables, ghost done: seq<Batch>)
      returns (count: nat, remaining: Option<nat>, ghost all: seq<Batch>, ghost gone: set<Id>)
      requires batchSize >= 1 && TraceOf(start, done, State(), now, w)
      modifies this
      ensures TraceOf(start, all, State(), now, w)
      ensures Took(old(State()), State(), t, gone) && |gone| == count
      ensures remaining == if budget.None? then None else Some(budget.value - count)
      ensures budget.Some? ==> count <= budget.value
      ensures remaining == Some(0) || EligibleCount(State(), t, now, w) == 0
    {
      hide TraceOf, Took, Eligible;
      count, remaining, all, gone := 0, budget, done, {};
      TookNothing(State(), t);
      while true
        invariant TraceOf(start, all, State(), now, w)
        invariant Took(old(State()), State(), t, gone) && |gone| == count
        invariant remaining == if budget.None? then None else Some(budget.value - count)
        invariant budget.Some? ==> count <= budget.value
        decreases EligibleCount(State(), t, now, w)
      {
        if remaining.Some? && remaining.value <= 0 {
          break;
        }
        var take := batchSize;
        if remaining.Some? {
          take := Min(take, remaining.value);
        }
        ghost var before := State();
        var n, ids := DeleteBatch(t, w.Cutoff(t, now), take);
        TookMore(old(State()), before, t, gone, ids, now, w);
        BatchStep(start, all, before, Batch(t, now, ids), w);
        all, gone := all + [Batch(t, now, ids)], gone + ids;
        count := count + n;
        if remaining.Some? {
          remaining := Some(remaining.value - n);
        }
        if n < take {
          break;
        }
      }
    }
  }

  /** `db` is where the batches `done`, each allowed when it ran and all at `now`, lead. */
  ghost predicate TraceOf(start: Tables, done: seq<Batch>, db: Tables, now: int, w: Windows) {
    && db == AfterBatches(start, done) && AllAllowed(start, done, w)
    && forall b :: b in done ==> b.now == now
  }

  /** `db` is `first` without the rows `gone` of the table `t`. */
  ghost predicate Took(first: Tables, db: Tables, t: Table, gone: set<Id>) {
    gone <= first.Keys(t) && db == first.Remove(t, gone)
  }

  lemma TraceLoses(start: Tables, done: seq<Batch>, db: Tables, now: int, w: Windows)
    requires TraceOf(start, done, db, now, w)
    ensures LostRows(start, db, now, w)
  {
    BatchesLose(start, done, now, w);
  }

  lemma TookNothing(db: Tables, t: Table)
    ensures Took(db, db, t, {})
  {
    assert db.toolCalls - {} == db.toolCalls && db.parts - {} == db.parts && db.messages - {} == db.messages;
  }

  lemma TookMore(first: Tables, db: Tables, t: Table, gone: set<Id>, ids: set<Id>, now: int, w: Windows)
    requires Took(first, db, t, gone) && ids <= Eligible(db, t, w.Cutoff(t, now))
    ensures Took(first, db.Remove(t, ids), t, gone + ids) && |gone + ids| == |gone| + |ids|
  {
    assert ids <= db.Keys(t) == first.Keys(t) - gone;
    assert ids !! gone;
  }

  lemma BatchStep(start: Tables, done: seq<Batch>, db: Tables, b: Batch, w: Windows)
    requires TraceOf(start, done, db, b.now, w) && Allowed(db, b, w)
    ensures var after := db.Remove(b.table, b.ids);
            && TraceOf(start, done + [b], after, b.now, w)
            && EligibleCount(after, b.table, b.now, w) == EligibleCount(db, b.table, b.now, w) - |b.ids|
  {
    AppendBatch(start, done, b, w);
    EligibleAfterRemove(db, b.table, b.ids, b.table, w.Cutoff(b.table, b.now));
  }

  // ----- the outer loop -----

  /** The budget left once `used` rows are gone. */
  function Left(limit: Option<nat>, used: nat): Option<nat> {
    if limit.None? then None else Some(if used <= limit.value then limit.value - used else 0)
  }

  /** The counts of a write run: how many rows each table lost. */
  ghost predicate Removed(deleted: map<Table, nat>, first: Tables, db: Tables) {
    forall t :: CountIn(deleted, t) == |first.Keys(t)| - |db.Keys(t)|
  }

  /** The report of the first `i` tables, as far as the budget reaches. */
  ghost predicate FillsUpTo(deleted: map<Table, nat>, wanted: Table -> nat, limit: Option<nat>, i: nat) {
    && (forall t :: t in deleted <==> Rank(t) < i)
    && (forall n: nat :: n <= i && n <= |TABLES| ==> UpTo(CountedIn(deleted), n) == Capped(UpTo(wanted, n), limit))
  }

  ghost predicate DrainedUpTo(deleted: map<Table, nat>, first: Tables, db: Tables, now: int, w: Windows,
                              limit: Option<nat>, i: nat)
  {
    && (forall t :: t in deleted <==> Rank(t) < i)
    && (limit.Some? ==> Sum(deleted) <= limit.value)
    && Removed(deleted, first, db)
    && (Left(limit, Sum(deleted)) == Some(0) || forall t :: t in deleted ==> EligibleCount(db, t, now, w) == 0)
  }

  lemma NothingDone(db: Tables, now: int, w: Windows, limit: Option<nat>)
    ensures TraceOf(db, [], db, now, w)
    ensures FillsUpTo(map[], EligibleIn(db, now, w), limit, 0)
    ensures FillsUpTo(map[], ExpiredIn(db, now, w), limit, 0)
    ensures DrainedUpTo(map[], db, db, now, w, limit, 0)
  {
  }

  lemma SumUpTo(deleted: map<Table, nat>, i: nat)
    requires i <= |TABLES| && forall t :: t in deleted <==> Rank(t) < i
    ensures Sum(deleted) == UpTo(CountedIn(deleted), i)
  {
  }

  lemma UpToNext(wanted: Table -> nat, i: nat)
    requires i < |TABLES|
    ensures UpTo(wanted, i + 1) == UpTo(wanted, i) + wanted(TABLES[i])
  {
  }

  /** Reporting one more table keeps the earlier running totals. */
  lemma TotalsKept(deleted: map<Table, nat>, i: nat, n: nat)
    requires i < |TABLES| && (forall t :: t in deleted <==> Rank(t) < i)
    ensures var more := deleted[TABLES[i] := n];
            && (forall t :: t in more <==> Rank(t) < i + 1)
            && (forall m: nat :: m <= i ==> UpTo(CountedIn(more), m) == UpTo(CountedIn(deleted), m))
            && UpTo(CountedIn(more), i + 1) == UpTo(CountedIn(deleted), i) + n
            && Sum(more) == Sum(deleted) + n
  {
    assert Rank(TABLES[i]) == i && TABLES[i] !in deleted;
    assert forall t :: Rank(t) == i ==> t == TABLES[i];
    var more := deleted[TABLES[i] := n];
    assert forall t :: t != TABLES[i] ==> CountIn(more, t) == CountIn(deleted, t);
    UpToNext(CountedIn(more), i);
  }

  lemma CountedOne(deleted: map<Table, nat>, db: Tables, now: int, w: Windows, limit: Option<nat>, i: nat, n: nat)
    requires i < |TABLES| && FillsUpTo(deleted, EligibleIn(db, now, w), limit, i)
    requires n == Capped(EligibleCount(db, TABLES[i], now, w), Left(limit, Sum(deleted)))
    ensures var more := deleted[TABLES[i] := n];
            && FillsUpTo(more, EligibleIn(db, now, w), limit, i + 1)
            && Sum(more) == Sum(deleted) + n
  {
    hide EligibleCount, UpTo, CountedIn, Sum, Rank;
    SumUpTo(deleted, i);
    TotalsKept(deleted, i, n);
    UpToNext(EligibleIn(db, now, w), i);
  }

  lemma DrainedOne(deleted: map<Table, nat>, first: Tables, before: Tables, after: Tables, now: int, w: Windows,
                   limit: Option<nat>, i: nat, gone: set<Id>)
    requires i < |TABLES| && DrainedUpTo(deleted, first, before, now, w, limit, i)
    requires Took(before, after, TABLES[i], gone)
    requires limit.Some? ==> |gone| <= Left(limit, Sum(deleted)).value
    requires (limit.Some? && |gone| == Left(limit, Sum(deleted)).value)
             || EligibleCount(after, TABLES[i], now, w) == 0
    ensures var more := deleted[TABLES[i] := |gone|];
            && DrainedUpTo(more, first, after, now, w, limit, i + 1)
            && Sum(more) == Sum(deleted) + |gone|
  {
    hide Took, EligibleCount, Removed;
    var t := TABLES[i];
    assert Rank(t) == i && t !in deleted;
    RemovedMore(deleted, first, before, after, t, gone);
    forall u | Rank(u) < i ensures EligibleCount(after, u, now, w) == EligibleCount(before, u, now, w) {
      TookEligible(before, after, t, gone, u, now, w);
    }
  }

  lemma RemovedMore(deleted: map<Table, nat>, first: Tables, before: Tables, after: Tables, t: Table, gone: set<Id>)
    requires Removed(deleted, first, before) && Took(before, after, t, gone) && t !in deleted
    ensures Removed(deleted[t := |gone|], first, after)
    ensures Sum(deleted[t := |gone|]) == Sum(deleted) + |gone|
  {
    hide Took;
    forall u ensures |after.Keys(u)| == |before.Keys(u)| - (if u == t then |gone| else 0) {
      TookSize(before, after, t, gone, u);
    }
    var more := deleted[t := |gone|];
    forall u ensures CountIn(more, u) == |first.Keys(u)| - |after.Keys(u)| {
      assert CountIn(deleted, u) == |first.Keys(u)| - |before.Keys(u)|;
      assert CountIn(more, u) == CountIn(deleted, u) + if u == t then |gone| else 0;
    }
  }

  lemma Difference(s: set<Id>, r: set<Id>)
    requires r <= s
    ensures |s - r| == |s| - |r|
  {
  }

  lemma TookSize(before: Tables, after: Tables, t: Table, gone: set<Id>, u: Table)
    requires Took(before, after, t, gone)
    ensures |after.Keys(u)| == |before.Keys(u)| - if u == t then |gone| else 0
  {
    if u == t {
      assert after.Keys(u) == before.Keys(u) - gone;
      Difference(before.Keys(u), gone);
    }
  }

  lemma TookEligible(before: Tables, after: Tables, t: Table, gone: set<Id>, u: Table, now: int, w: Windows)
    requires Took(before, after, t, gone) && Rank(u) < Rank(t)
    ensures EligibleCount(after, u, now, w) == EligibleCount(before, u, now, w)
  {
    EligibleAfterRemove(before, t, gone, u, w.Cutoff(u, now));
    assert Eligible(before, u, w.Cutoff(u, now)) - {} == Eligible(before, u, w.Cutoff(u, now));
  }

  lemma FilledAtTheEnd(deleted: map<Table, nat>, wanted: Table -> nat, limit: Option<nat>)
    requires FillsUpTo(deleted, wanted, limit, |TABLES|)
    ensures FilledInOrder(deleted, wanted, limit)
  {
  }

  /** With nothing eligible left in the first `i` tables, nothing is left there that a complete
      run would remove: parents wait only for children in the tables before theirs. */
  lemma NothingExpiresUpTo(db: Tables, now: int, w: Windows, i: nat)
    requires forall t :: Rank(t) < i ==> EligibleCount(db, t, now, w) == 0
    ensures forall t :: Rank(t) < i ==> ExpiredCount(db, t, now, w) == 0
  {
    hide EligibleCount;
    forall t | Rank(t) < i ensures Eligible(db, t, w.Cutoff(t, now)) == {} {
      NoneCounted(db, t, now, w);
    }
    if i > 0 {
      assert Rank(ToolCalls) < i;
      assert Expired(db, ToolCalls, now, w) == {};
    }
    if i > 1 {
      assert Rank(Parts) < i;
      NoPartExpires(db, now, w);
    }
    if i > 2 {
      assert Rank(Messages) < i;
      assert forall t :: Rank(t) < i;
      NothingExpires(db, now, w);
    }
  }

  lemma NoPartExpires(db: Tables, now: int, w: Windows)
    requires Eligible(db, ToolCalls, w.Cutoff(ToolCalls, now)) == {}
    requires Eligible(db, Parts, w.Cutoff(Parts, now)) == {}
    ensures Expired(db, Parts, now, w) == {}
  {
    assert forall p, c :: p in Expired(db, Parts, now, w) && c in db.toolCalls && CallOf(db, c, p) ==>
                            c in Eligible(db, ToolCalls, w.Cutoff(ToolCalls, now));
    assert Expired(db, Parts, now, w) <= Eligible(db, Parts, w.Cutoff(Parts, now));
  }

  /** A table has lost what expired in it, less what is still there to expire. */
  lemma LostIsExpired(deleted: map<Table, nat>, first: Tables, db: Tables, history: seq<Batch>, now: int, w: Windows)
    requires TraceOf(first, history, db, now, w) && Removed(deleted, first, db)
    ensures forall t :: CountIn(deleted, t) == ExpiredCount(first, t, now, w) - ExpiredCount(db, t, now, w)
  {
    hide Expired, Purged, ExpiredCount, AllAllowed, AfterBatches;
    EarlierWorkIsAbsorbed(first, history, now, w);
    PurgedSizes(first, now, w);
    PurgedSizes(db, now, w);
  }

  /** The running total of a write run after one more table. */
  lemma RunningTotal(deleted: map<Table, nat>, first: Tables, db: Tables, history: seq<Batch>, now: int, w: Windows,
                     limit: Option<nat>, i: nat, n: nat)
    requires i < |TABLES| && FillsUpTo(deleted, ExpiredIn(first, now, w), limit, i)
    requires TraceOf(first, history, db, now, w)
    requires DrainedUpTo(deleted[TABLES[i] := n], first, db, now, w, limit, i + 1)
    ensures FillsUpTo(deleted[TABLES[i] := n], ExpiredIn(first, now, w), limit, i + 1)
  {
    hide EligibleCount, ExpiredCount, TraceOf, Removed;
    var more := deleted[TABLES[i] := n];
    TotalsKept(deleted, i, n);
    LostIsExpired(more, first, db, history, now, w);
    SumUpTo(more, i + 1);
    if limit.None? || Sum(more) < limit.value {
      assert forall t :: Rank(t) < i + 1 ==> t in more;
      NothingExpiresUpTo(db, now, w, i + 1);
    }
    assert UpTo(CountedIn(more), i + 1) == Capped(UpTo(ExpiredIn(first, now, w), i + 1), limit);
  }

  lemma PurgedSizes(db: Tables, now: int, w: Windows)
    ensures forall t :: |Purged(db, now, w).Keys(t)| == |db.Keys(t)| - ExpiredCount(db, t, now, w)
  {
    forall t ensures |Purged(db, now, w).Keys(t)| == |db.Keys(t)| - ExpiredCount(db, t, now, w) {
      ExpiredAreRows(db, t, now, w);
      hide Expired;
      assert Purged(db, now, w).Keys(t) == db.Keys(t) - Expired(db, t, now, w);
      Difference(db.Keys(t), Expired(db, t, now, w));
    }
  }

  lemma ExpiredAreRows(db: Tables, t: Table, now: int, w: Windows)
    ensures Expired(db, t, now, w) <= db.Keys(t)
  {
  }

  /** A run removes only expired rows, and all of them unless the limit stopped it. */
  lemma RunIsComplete(deleted: map<Table, nat>, first: Tables, db: Tables, history: seq<Batch>, now: int, w: Windows,
                      limit: Option<nat>)
    requires TraceOf(first, history, db, now, w) && DrainedUpTo(deleted, first, db, now, w, limit, 3)
    ensures Removed(deleted, first, db)
    ensures Sum(deleted) == Capped(ExpiredTotal(first, now, w), limit)
    ensures limit.None? || Sum(deleted) < limit.value ==> db == Purged(first, now, w)
  {
    hide Expired, Eligible, Purged, TraceOf, ExpiredCount, EligibleCount;
    SumIsExpired(deleted, first, db, history, now, w);
    if limit.None? || Sum(deleted) < limit.value {
      forall t ensures Eligible(db, t, w.Cutoff(t, now)) == {} {
        assert Rank(t) < 3;
        NoneCounted(db, t, now, w);
      }
      PurgedIffNothingEligible(db, now, w);
    }
  }

  lemma NoneCounted(db: Tables, t: Table, now: int, w: Windows)
    ensures EligibleCount(db, t, now, w) == 0 <==> Eligible(db, t, w.Cutoff(t, now)) == {}
  {
  }

  /** What a run removed so far is at most what expires, and all of it once it is purged. */
  lemma SumIsExpired(deleted: map<Table, nat>, first: Tables, db: Tables, history: seq<Batch>, now: int, w: Windows)
    requires TraceOf(first, history, db, now, w) && Removed(deleted, first, db)
    ensures Purged(db, now, w) == Purged(first, now, w)
    ensures Sum(deleted) <= ExpiredTotal(first, now, w)
    ensures Purged(db, now, w) == db ==> Sum(deleted) == ExpiredTotal(first, now, w)
  {
    hide Expired, Purged, ExpiredCount, AllAllowed, AfterBatches;
    EarlierWorkIsAbsorbed(first, history, now, w);
    PurgedSizes(first, now, w);
    PurgedSizes(db, now, w);
    assert forall t :: |Purged(db, now, w).Keys(t)| <= |db.Keys(t)|;
  }

  // ----- what a dry run tells -----

  lemma EligibleIsExpired(db: Tables, t: Table, now: int, w: Windows)
    ensures Eligible(db, t, w.Cutoff(t, now)) <= Expired(db, t, now, w)
    ensures EligibleCount(db, t, now, w) <= ExpiredCount(db, t, now, w)
    ensures EligibleCount(db, t, now, w) == ExpiredCount(db, t, now, w)
            <==> Eligible(db, t, w.Cutoff(t, now)) == Expired(db, t, now, w)
  {
    var e, x := Eligible(db, t, w.Cutoff(t, now)), Expired(db, t, now, w);
    BatchIsExpired(db, Batch(t, now, e), now, w);
    assert |x - e| == |x| - |e|;
    if |x| == |e| {
      assert x - e == {};
    }
  }

  /** A dry run is a lower bound of the write run.  Under any limit, and after every table in
      turn, its running total is at most that of the write run, and neither exceeds the limit;
      without a limit the same holds of each table by itself. */
  lemma DryRunIsLowerBound(dry: map<Table, nat>, written: map<Table, nat>, db: Tables, now: int, w: Windows,
                           limit: Option<nat>)
    requires FilledInOrder(dry, EligibleIn(db, now, w), limit) && FilledInOrder(written, ExpiredIn(db, now, w), limit)
    ensures forall n: nat :: n <= |TABLES| ==> UpTo(CountedIn(dry), n) <= UpTo(CountedIn(written), n)
    ensures forall n: nat :: n <= |TABLES| && limit.Some? ==> UpTo(CountedIn(written), n) <= limit.value
    ensures limit.None? ==> forall t :: CountIn(dry, t) <= CountIn(written, t)
  {
    hide UpTo, CountedIn, EligibleIn, ExpiredIn;
    forall n: nat | n <= |TABLES| ensures UpTo(CountedIn(dry), n) <= UpTo(CountedIn(written), n) {
      PrefixIsExactIff(db, n, now, w);
    }
    if limit.None? {
      LowerInEachTable(dry, written, db, now, w);
    }
  }

  lemma LowerInEachTable(dry: map<Table, nat>, written: map<Table, nat>, db: Tables, now: int, w: Windows)
    requires FilledInOrder(dry, EligibleIn(db, now, w), None) && FilledInOrder(written, ExpiredIn(db, now, w), None)
    ensures forall t :: CountIn(dry, t) <= CountIn(written, t)
  {
    ByRunningTotals(dry, EligibleIn(db, now, w));
    ByRunningTotals(written, ExpiredIn(db, now, w));
    hide FilledInOrder, EligibleCount, ExpiredCount;
    forall t ensures EligibleCount(db, t, now, w) <= ExpiredCount(db, t, now, w) {
      EligibleIsExpired(db, t, now, w);
    }
  }

  /** Without a limit every table reports all that is wanted in it. */
  lemma ByRunningTotals(deleted: map<Table, nat>, wanted: Table -> nat)
    ensures FilledInOrder(deleted, wanted, None) <==> forall t :: CountIn(deleted, t) == wanted(t)
  {
    TotalsFixCounts(CountedIn(deleted), wanted);
  }

  /** The running totals determine the count of each table. */
  lemma TotalsFixCounts(a: Table -> nat, b: Table -> nat)
    ensures (forall n: nat :: n <= |TABLES| ==> UpTo(a, n) == UpTo(b, n)) <==> forall t :: a(t) == b(t)
  {
    if forall n: nat :: n <= |TABLES| ==> UpTo(a, n) == UpTo(b, n) {
      assert UpTo(a, 1) == UpTo(b, 1) && UpTo(a, 2) == UpTo(b, 2) && UpTo(a, 3) == UpTo(b, 3);
      forall t ensures a(t) == b(t) {
        match t
        case ToolCalls =>
        case Parts =>
        case Messages =>
      }
    }
  }

  /** Some parent of the table `t` expires only together with a child it still has. */
  ghost predicate WaitsIn(db: Tables, t: Table, now: int, w: Windows) {
    match t
    case ToolCalls => false
    case Parts => exists p, c :: p in db.parts && c in db.toolCalls && CallOf(db, c, p) && PartExpires(db, p, now, w)
    case Messages =>
      || (exists m, p :: m in db.messages && p in db.parts && PartIn(db, p, m) && MessageExpires(db, m, now, w))
      || (exists m, c :: m in db.messages && c in db.toolCalls && CallIn(db, c, m) && MessageExpires(db, m, now, w))
  }

  ghost predicate WaitsUpTo(db: Tables, n: nat, now: int, w: Windows) {
    exists t :: Rank(t) < n && WaitsIn(db, t, now, w)
  }

  lemma TableIsExactIff(db: Tables, t: Table, now: int, w: Windows)
    ensures EligibleCount(db, t, now, w) == ExpiredCount(db, t, now, w) <==> !WaitsIn(db, t, now, w)
  {
    EligibleIsExpired(db, t, now, w);
    match t
    case ToolCalls => assert Eligible(db, ToolCalls, w.Cutoff(ToolCalls, now)) == Expired(db, ToolCalls, now, w);
    case Parts => PartsExactIff(db, now, w);
    case Messages => MessagesExactIff(db, now, w);
  }

  /** Up to each table the dry run wants as many rows as the write run exactly when no parent
      there waits for a child. */
  lemma PrefixIsExactIff(db: Tables, n: nat, now: int, w: Windows)
    ensures UpTo(EligibleIn(db, now, w), n) <= UpTo(ExpiredIn(db, now, w), n)
    ensures UpTo(EligibleIn(db, now, w), n) == UpTo(ExpiredIn(db, now, w), n) <==> !WaitsUpTo(db, n, now, w)
  {
    hide EligibleCount, ExpiredCount, WaitsIn;
    forall t ensures EligibleCount(db, t, now, w) <= ExpiredCount(db, t, now, w)
                     && (EligibleCount(db, t, now, w) == ExpiredCount(db, t, now, w) <==> !WaitsIn(db, t, now, w)) {
      EligibleIsExpired(db, t, now, w);
      TableIsExactIff(db, t, now, w);
    }
    assert WaitsUpTo(db, n, now, w) <==>
           (n > 0 && WaitsIn(db, ToolCalls, now, w)) || (n > 1 && WaitsIn(db, Parts, now, w))
           || (n > 2 && WaitsIn(db, Messages, now, w)) by {
      assert Rank(ToolCalls) == 0 && Rank(Parts) == 1 && Rank(Messages) == 2;
    }
  }

  /** Under any limit: the dry run reports table by table what a write run deletes if and only
      if, wherever some parent waits for a child it still has, the rows counted up to that table
      have already used up the limit.  So without a limit it is exact if and only if no parent
      waits at all: the guards count children a write run would have removed first.  For the
      totals to agree the last table is what matters. */
  lemma DryRunIsExactIff(dry: map<Table, nat>, written: map<Table, nat>, db: Tables, now: int, w: Windows,
                         limit: Option<nat>)
    requires FilledInOrder(dry, EligibleIn(db, now, w), limit) && FilledInOrder(written, ExpiredIn(db, now, w), limit)
    ensures (forall t :: CountIn(dry, t) == CountIn(written, t))
            <==> forall n: nat :: n <= |TABLES| && WaitsUpTo(db, n, now, w) ==>
                                    limit.Some? && limit.value <= UpTo(EligibleIn(db, now, w), n)
    ensures Sum(dry) == Sum(written)
            <==> (WaitsUpTo(db, |TABLES|, now, w) ==>
                    limit.Some? && limit.value <= UpTo(EligibleIn(db, now, w), |TABLES|))
  {
    hide EligibleIn, ExpiredIn, WaitsUpTo;
    SameByTotals(dry, written);
    forall n: nat | n <= |TABLES|
      ensures UpTo(CountedIn(dry), n) == UpTo(CountedIn(written), n)
              <==> (WaitsUpTo(db, n, now, w) ==> limit.Some? && limit.value <= UpTo(EligibleIn(db, now, w), n)) {
      PrefixIsExactIff(db, n, now, w);
    }
  }

  lemma SameByTotals(a: map<Table, nat>, b: map<Table, nat>)
    ensures (forall t :: CountIn(a, t) == CountIn(b, t))
            <==> forall n: nat :: n <= |TABLES| ==> UpTo(CountedIn(a), n) == UpTo(CountedIn(b), n)
    ensures Sum(a) == UpTo(CountedIn(a), |TABLES|) && Sum(b) == UpTo(CountedIn(b), |TABLES|)
  {
    TotalsFixCounts(CountedIn(a), CountedIn(b));
    assert forall t :: CountedIn(a)(t) == CountIn(a, t) && CountedIn(b)(t) == CountIn(b, t);
  }

  lemma PartsExactIff(db: Tables, now: int, w: Windows)
    ensures Eligible(db, Parts, w.Cutoff(Parts, now)) == Expired(db, Parts, now, w)
            <==> !exists p, c :: p in db.parts && c in db.toolCalls && CallOf(db, c, p) && PartExpires(db, p, now, w)
  {
    var e, x := Eligible(db, Parts, w.Cutoff(Parts, now)), Expired(db, Parts, now, w);
    if p, c :| p in db.parts && c in db.toolCalls && CallOf(db, c, p) && PartExpires(db, p, now, w) {
      assert p in x && p !in e;
    }
  }

  lemma MessagesExactIff(db: Tables, now: int, w: Windows)
    ensures Eligible(db, Messages, w.Cutoff(Messages, now)) == Expired(db, Messages, now, w)
            <==> !((exists m, p :: m in db.messages && p in db.parts && PartIn(db, p, m) && MessageExpires(db, m, now, w))
                   || (exists m, c :: m in db.messages && c in db.toolCalls && CallIn(db, c, m) && MessageExpires(db, m, now, w)))
  {
    hide PartExpires;
    var e, x := Eligible(db, Messages, w.Cutoff(Messages, now)), Expired(db, Messages, now, w);
    if m, p :| m in db.messages && p in db.parts && PartIn(db, p, m) && MessageExpires(db, m, now, w) {
      assert m in x && m !in e;
    } else if m, c :| m in db.messages && c in db.toolCalls && CallIn(db, c, m) && MessageExpires(db, m, now, w) {
      assert m in x && m !in e;
    }
  }

  /** For instance, one old call in one old part: the dry run reports one row, the write run
      deletes two. */
  lemma DryRunCanUndercount()
    ensures var db := Tables(map[1 := ToolCall(2, None, Some(0))], map[2 := Part(None, Some(0))], map[]);
            var w := Windows(10, 10, 10);
            EligibleTotal(db, 100, w) == 1 && ExpiredTotal(db, 100, w) == 2
  {
    var db := Tables(map[1 := ToolCall(2, None, Some(0))], map[2 := Part(None, Some(0))], map[]);
    var w := Windows(10, 10, 10);
    assert CallOf(db, 1, 2);
    assert Eligible(db, ToolCalls, 90) == {1} && Eligible(db, Parts, 90) == {} && Eligible(db, Messages, 90) == {};
    assert Expired(db, ToolCalls, 100, w) == {1} && Expired(db, Parts, 100, w) == {2};
    assert Expired(db, Messages, 100, w) == {};
  }

  /** One old call in one old part, and one old message without children. */
  function CallPartMessage(): Tables {
    Tables(map[1 := ToolCall(2, None, Some(0))], map[2 := Part(None, Some(0))], map[3 := Message(Some(0))])
  }

  lemma CallPartMessageRows(w: Windows)
    requires w == Windows(10, 10, 10)
    ensures Eligible(CallPartMessage(), ToolCalls, 90) == {1} && Expired(CallPartMessage(), ToolCalls, 100, w) == {1}
    ensures Eligible(CallPartMessage(), Parts, 90) == {} && Expired(CallPartMessage(), Parts, 100, w) == {2}
    ensures Eligible(CallPartMessage(), Messages, 90) == {3}
  {
    var db := CallPartMessage();
    assert CallOf(db, 1, 2) && !CallIn(db, 1, 3) && !PartIn(db, 2, 3);
    assert forall m :: m in Eligible(db, Messages, 90) <==> m == 3;
  }

  /** Under a limit a single table can even be reported too high: here, with a limit of two, the
      dry run counts the message, but the write run spends its budget on the call and its part. */
  lemma DryRunCanOvercountATable(dry: map<Table, nat>, written: map<Table, nat>, w: Windows)
    requires w == Windows(10, 10, 10)
    requires FilledInOrder(dry, EligibleIn(CallPartMessage(), 100, w), Some(2))
    requires FilledInOrder(written, ExpiredIn(CallPartMessage(), 100, w), Some(2))
    ensures CountIn(dry, Messages) == 1 && CountIn(written, Messages) == 0
  {
    var db := CallPartMessage();
    CallPartMessageRows(w);
    hide Eligible, Expired, CallPartMessage;
    assert w.Cutoff(ToolCalls, 100) == w.Cutoff(Parts, 100) == w.Cutoff(Messages, 100) == 90;
    assert UpTo(CountedIn(dry), 2) == Capped(UpTo(EligibleIn(db, 100, w), 2), Some(2));
    assert UpTo(CountedIn(dry), 3) == Capped(UpTo(EligibleIn(db, 100, w), 3), Some(2));
    assert UpTo(CountedIn(written), 2) == Capped(UpTo(ExpiredIn(db, 100, w), 2), Some(2));
    assert UpTo(CountedIn(written), 3) == Capped(UpTo(ExpiredIn(db, 100, w), 3), Some(2));
  }
}
