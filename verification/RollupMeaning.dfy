/** What the rollup's rows hold, column by column, in terms of the usage events. */
module RollupMeaning {
  import opened Numbers
  import opened Options
  import opened Sorting
  import opened Text
  import opened Rollup

  /** The event belongs to the client, the project and the UTC day of the row. */
  predicate InGroup(e: Event, k: Key) {
    e.client == k.client && e.project == Some(k.project) && 86400 * k.day <= e.reportedAt < 86400 * (k.day + 1)
  }

  /** The sum of one amount over the events of a row; null amounts are passed over. */
  function Total(events: seq<Event>, k: Key, amount: Event -> Option<int>): int {
    if events == [] then 0
    else
      var last := events[|events| - 1];
      Total(events[..|events| - 1], k, amount)
      + if InGroup(last, k) && amount(last).Some? then amount(last).value else 0
  }

  function TotalCost(events: seq<Event>, k: Key): real {
    if events == [] then 0.0
    else
      var last := events[|events| - 1];
      TotalCost(events[..|events| - 1], k) + if InGroup(last, k) && last.cost.Some? then last.cost.value else 0.0
  }

  lemma GroupMeans(e: Event, k: Key)
    ensures KeyOf(e) == Some(k) <==> InGroup(e, k)
  {
  }

  lemma {:induction false} SumsByColumn(events: seq<Event>, k: Key)
    ensures SumOf(events, k).input == Total(events, k, (e: Event) => e.input)
    ensures SumOf(events, k).output == Total(events, k, (e: Event) => e.output)
    ensures SumOf(events, k).cacheRead == Total(events, k, (e: Event) => e.cacheRead)
    ensures SumOf(events, k).cacheWrite == Total(events, k, (e: Event) => e.cacheWrite)
    ensures SumOf(events, k).cost == TotalCost(events, k)
  {
    if events != [] {
      hide InGroup, KeyOf;
      var last := events[|events| - 1];
      SumsByColumn(events[..|events| - 1], k);
      GroupMeans(last, k);
    }
  }

  /** There is a row exactly for the groups some event belongs to, and each of its columns is the
      sum of that amount over the events of the group. */
  lemma RowMeans(events: seq<Event>, k: Key)
    ensures k in Sums(events) <==> exists e :: e in events && InGroup(e, k)
    ensures k in Sums(events) ==>
              && Sums(events)[k].input == Total(events, k, (e: Event) => e.input)
              && Sums(events)[k].output == Total(events, k, (e: Event) => e.output)
              && Sums(events)[k].cacheRead == Total(events, k, (e: Event) => e.cacheRead)
              && Sums(events)[k].cacheWrite == Total(events, k, (e: Event) => e.cacheWrite)
              && Sums(events)[k].cost == TotalCost(events, k)
  {
    hide InGroup, KeyOf;
    SumsByColumn(events, k);
    forall e ensures KeyOf(e) == Some(k) <==> InGroup(e, k) { GroupMeans(e, k); }
  }

  predicate IsInt4(n: int) {
    -2147483648 <= n <= 2147483647
  }

  /** A run goes through exactly if the four token sums of every group fit 32 bits. */
  lemma RangeMeans(sums: Table)
    ensures AllFit(sums) <==>
              forall k :: k in sums ==>
                && IsInt4(sums[k].input) && IsInt4(sums[k].output)
                && IsInt4(sums[k].cacheRead) && IsInt4(sums[k].cacheWrite)
  {
  }

  /** By client, then project, then day. */
  predicate RowBefore(a: Key, b: Key) {
    || a.client < b.client
    || (a.client == b.client && TextBefore(a.project, b.project))
    || (a.client == b.client && a.project == b.project && a.day < b.day)
  }

  /** One run, row by row: without a limit, or if it is chosen, a row that is missing or differs
      takes its sums; one not chosen stays as it was, or missing; rows without events go.  What is
      chosen comes first in the order of the keys, and is as much as the limit allows. */
  lemma RunMeans(rollup: Table, sums: Table, limit: Option<nat>)
    returns (chosen: set<Key>)
    ensures forall k :: k in chosen ==> k in sums && (k !in rollup || rollup[k] != sums[k])
    ensures forall k, other ::
              k in chosen && other in sums && (other !in rollup || rollup[other] != sums[other]) && other !in chosen
              ==> RowBefore(k, other)
    ensures limit.None? ==> forall k :: k in sums && (k !in rollup || rollup[k] != sums[k]) ==> k in chosen
    ensures limit.Some? ==> |chosen| <= limit.value
    ensures limit.Some? && |chosen| < limit.value ==>
              forall k :: k in sums && (k !in rollup || rollup[k] != sums[k]) ==> k in chosen
    ensures var after := AfterRun(rollup, sums, limit);
            && (forall k :: k in after <==> k in sums && (k in rollup || k in chosen))
            && (forall k :: k in after ==> after[k] == if k in chosen then sums[k] else rollup[k])
  {
    var d := Disagreeing(rollup, sums);
    chosen := SetOf(Chosen(rollup, sums, limit));
    ChosenDisagree(rollup, sums, limit);
    forall k, other | k in chosen && other in d && other !in chosen ensures RowBefore(k, other) {
      ChosenComeFirst(rollup, sums, limit, k, other);
    }
    if limit.None? || |chosen| < limit.value {
      assert |chosen| == |d| && chosen <= d;
      SameSize(chosen, d);
    }
    hide Chosen;
  }

  lemma SameSize(a: set<Key>, b: set<Key>)
    requires a <= b && |a| == |b|
    ensures a == b
  {
    assert |b - a| == |b| - |a|;
    assert b - a == {};
  }

  // ----- conservation -----

  /** The sum of one amount over all events that have a project. */
  function Everything(events: seq<Event>, amount: Event -> Option<int>): int {
    if events == [] then 0
    else
      var last := events[|events| - 1];
      Everything(events[..|events| - 1], amount)
      + if last.project.Some? && amount(last).Some? then amount(last).value else 0
  }

  function AllCost(events: seq<Event>): real {
    if events == [] then 0.0
    else
      var last := events[|events| - 1];
      AllCost(events[..|events| - 1]) + if last.project.Some? && last.cost.Some? then last.cost.value else 0.0
  }

  lemma {:induction false} EventTotalByColumn(events: seq<Event>)
    ensures EventTotal(events).input == Everything(events, (e: Event) => e.input)
    ensures EventTotal(events).output == Everything(events, (e: Event) => e.output)
    ensures EventTotal(events).cacheRead == Everything(events, (e: Event) => e.cacheRead)
    ensures EventTotal(events).cacheWrite == Everything(events, (e: Event) => e.cacheWrite)
    ensures EventTotal(events).cost == AllCost(events)
  {
    if events != [] {
      EventTotalByColumn(events[..|events| - 1]);
    }
  }

  /** Column by column the rows together hold what all events with a project hold: grouping loses
      nothing and counts nothing twice. */
  lemma ColumnsConserved(events: seq<Event>)
    ensures var total := GrandTotal(SortKeys(Groups(events)), events);
            && total.input == Everything(events, (e: Event) => e.input)
            && total.output == Everything(events, (e: Event) => e.output)
            && total.cacheRead == Everything(events, (e: Event) => e.cacheRead)
            && total.cacheWrite == Everything(events, (e: Event) => e.cacheWrite)
            && total.cost == AllCost(events)
  {
    SumsConserveAmounts(events);
    EventTotalByColumn(events);
  }
}
