/** What the chain of one issue promises, for any events. */
module EpisodeLaws {
  import opened Options
  import opened Sorting
  import opened Sequences
  import opened ClosureModel
  import opened Episodes

  function CloseTime(e: IssueEvent): Option<int> {
    if e.kind == Closed then Some(e.at) else None
  }

  function CloseTimes(s: seq<IssueEvent>): seq<int> {
    Collect(s, CloseTime)
  }

  predicate NotAfter(a: Option<int>, b: Option<int>) {
    a.Some? && b.Some? ==> a.value <= b.value
  }

  /** Intervals do not overlap and come in order. */
  ghost predicate Chronological(c: seq<Entry>) {
    && (forall i :: 0 <= i < |c| ==> NotAfter(c[i].0.openedAt, c[i].0.closedAt))
    && (forall i :: 0 <= i < |c| - 1 ==> NotAfter(c[i].0.closedAt, c[i + 1].0.openedAt))
  }

  /** The last close time is that of the event before the cut. */
  lemma {:induction false} LastCloseTime(s: seq<IssueEvent>)
    ensures CloseTimes(s) == [] <==> Cut(s) == 0
    ensures CloseTimes(s) != [] ==> CloseTimes(s)[|CloseTimes(s)| - 1] == s[Cut(s) - 1].at
  {
    if s != [] && s[|s| - 1].kind != Closed {
      LastCloseTime(s[..|s| - 1]);
    }
  }

  lemma {:induction false} IntervalStartIsAnEvent(s: seq<IssueEvent>)
    ensures IntervalStart(s).Some? ==> exists k :: 0 <= k < |s| && s[k].at == IntervalStart(s).value
    ensures (forall e :: e in s ==> e.kind != Closed) ==> (IntervalStart(s).Some? <==> s != [])
  {
    LastReopenIsAnEvent(s);
    FirstOpenIsAnEvent(s);
  }

  lemma {:induction false} LastReopenIsAnEvent(s: seq<IssueEvent>)
    ensures LastReopen(s).Some? ==> exists k :: 0 <= k < |s| && s[k].at == LastReopen(s).value
    ensures LastReopen(s).None? ==> forall e :: e in s ==> e.kind != Reopened
  {
    if s != [] && s[|s| - 1].kind != Reopened {
      LastReopenIsAnEvent(s[..|s| - 1]);
      assert s == s[..|s| - 1] + [s[|s| - 1]];
    }
  }

  lemma {:induction false} FirstOpenIsAnEvent(s: seq<IssueEvent>)
    ensures FirstOpen(s).Some? ==> exists k :: 0 <= k < |s| && s[k].at == FirstOpen(s).value
    ensures FirstOpen(s).None? ==> forall e :: e in s ==> e.kind != Opened
  {
    if s != [] && s[0].kind != Opened {
      FirstOpenIsAnEvent(s[1..]);
      assert s == [s[0]] + s[1..];
      if FirstOpen(s).Some? {
        var k :| 0 <= k < |s[1..]| && s[1..][k].at == FirstOpen(s).value;
        assert s[k + 1].at == FirstOpen(s).value;
      }
    }
  }

  /** The open interval starts after the last close and before any later event. */
  lemma IntervalStartBounds(s: seq<IssueEvent>, later: int)
    requires Sorted(s, EventLe)
    requires forall k :: 0 <= k < |s| ==> s[k].at <= later
    ensures var start := IntervalStart(SinceClose(s));
            start.Some? ==>
              && (CloseTimes(s) != [] ==> CloseTimes(s)[|CloseTimes(s)| - 1] <= start.value)
              && start.value <= later
  {
    var since := SinceClose(s);
    LastCloseTime(s);
    IntervalStartIsAnEvent(since);
    if IntervalStart(since).Some? {
      var k :| 0 <= k < |since| && since[k].at == IntervalStart(since).value;
      assert s[Cut(s) + k] == since[k];
      if Cut(s) > 0 {
        assert EventLe(s[Cut(s) - 1], s[Cut(s) + k]);
      }
    }
  }

  /** The i-th closed episode belongs to the i-th close and carries the right verdict. */
  ghost predicate MatchesCloses(c: seq<Entry>, closes: seq<int>, issue: IssueKey, d: Declarations) {
    && |c| == |closes|
    && forall i :: 0 <= i < |c| ==>
                     && c[i].0.closedAt == Some(closes[i])
                     && StatusTellsVerdict(c[i])
                     && c[i].0.issue == issue
                     && RightVerdict(c[i], closes[i], d)
  }

  lemma MatchesNextClose(c: seq<Entry>, closes: seq<int>, e: Entry, t: int, issue: IssueKey, d: Declarations)
    requires MatchesCloses(c, closes, issue, d) && RightVerdict(e, t, d)
    requires e.0.closedAt == Some(t) && StatusTellsVerdict(e) && e.0.issue == issue
    ensures MatchesCloses(c + [e], closes + [t], issue, d)
  {
    hide RightVerdict;
  }

  lemma {:induction false} ClosedChainMatches(issue: IssueKey, s: seq<IssueEvent>, d: Declarations, version: string)
    ensures MatchesCloses(ClosedChain(issue, s, d, version), CloseTimes(s), issue, d)
  {
    hide RightVerdict;
    if s != [] {
      hide ClosedEpisode, MatchesCloses, IntervalStart;
      var before, last := s[..|s| - 1], s[|s| - 1];
      ClosedChainMatches(issue, before, d, version);
      if last.kind == Closed {
        var start := IntervalStart(SinceClose(before));
        VerdictOfClose(issue, start, last.at, d, version);
        MatchesNextClose(ClosedChain(issue, before, d, version), CloseTimes(before),
                         ClosedEpisode(issue, start, last.at, d, version), last.at, issue, d);
      }
    }
  }

  lemma PrefixNotAfter(before: seq<IssueEvent>, last: IssueEvent)
    requires Sorted(before + [last], EventLe)
    ensures Sorted(before, EventLe)
    ensures forall k :: 0 <= k < |before| ==> before[k].at <= last.at
  {
    var s := before + [last];
    forall i, j | 0 <= i < j < |before| ensures EventLe(before[i], before[j]) {
      assert EventLe(s[i], s[j]);
    }
    forall k | 0 <= k < |before| ensures before[k].at <= last.at {
      assert EventLe(s[k], s[|before|]);
    }
  }

  lemma {:induction false} ClosedChainInOrder(issue: IssueKey, s: seq<IssueEvent>, d: Declarations, version: string)
    requires Sorted(s, EventLe)
    ensures Chronological(ClosedChain(issue, s, d, version))
  {
    if s != [] {
      hide ClosedEpisode, RightVerdict, StatusTellsVerdict, IntervalStart, EventLe, Sorted, Cut, SinceClose;
      var before, last := s[..|s| - 1], s[|s| - 1];
      assert s == before + [last];
      PrefixNotAfter(before, last);
      ClosedChainInOrder(issue, before, d, version);
      hide Chronological, MatchesCloses;
      if last.kind == Closed {
        NextEpisodeInOrder(issue, before, last.at, d, version);
      } else {
        assert ClosedChain(issue, before, d, version) + [] == ClosedChain(issue, before, d, version);
      }
    }
  }

  /** The episode of a close at `t` follows those of the closes before it. */
  lemma NextEpisodeInOrder(issue: IssueKey, before: seq<IssueEvent>, t: int, d: Declarations, version: string)
    requires Sorted(before, EventLe) && forall k :: 0 <= k < |before| ==> before[k].at <= t
    requires Chronological(ClosedChain(issue, before, d, version))
    ensures Chronological(ClosedChain(issue, before, d, version)
                          + [ClosedEpisode(issue, IntervalStart(SinceClose(before)), t, d, version)])
  {
    hide ClosedChain, ClosedEpisode, RightVerdict, StatusTellsVerdict, IntervalStart, EventLe, Sorted, SinceClose, CloseTimes;
    var c, start := ClosedChain(issue, before, d, version), IntervalStart(SinceClose(before));
    ClosedChainMatches(issue, before, d, version);
    IntervalStartBounds(before, t);
    hide Chronological;
    VerdictOfClose(issue, start, t, d, version);
    ChronologicalStep(c, ClosedEpisode(issue, start, t, d, version));
  }

  lemma ChronologicalStep(c: seq<Entry>, e: Entry)
    requires Chronological(c)
    requires NotAfter(e.0.openedAt, e.0.closedAt)
    requires c != [] ==> NotAfter(c[|c| - 1].0.closedAt, e.0.openedAt)
    ensures Chronological(c + [e])
  {
  }

  /** The close times of the sorted events are the delivered close times, sorted. */
  lemma CloseTimesOfSorted(events: seq<IssueEvent>)
    ensures CloseTimes(SortEvents(events)) == Sort(CloseTimes(events), IntLe)
  {
    var s := SortEvents(events);
    CollectPermutation(s, events, CloseTime);
    CloseTimesSorted(s);
    SortedUnique(CloseTimes(s), Sort(CloseTimes(events), IntLe), IntLe);
  }

  lemma {:induction false} CloseTimesSorted(s: seq<IssueEvent>)
    requires Sorted(s, EventLe)
    ensures Sorted(CloseTimes(s), IntLe)
    ensures forall t :: t in CloseTimes(s) ==> exists k :: 0 <= k < |s| && s[k].at == t
  {
    if s != [] {
      var before, last := s[..|s| - 1], s[|s| - 1];
      CloseTimesSorted(before);
      forall t | t in CloseTimes(before) ensures t <= last.at && exists k :: 0 <= k < |s| && s[k].at == t {
        var k :| 0 <= k < |before| && before[k].at == t;
        assert s[k] == before[k] && EventLe(s[k], s[|s| - 1]);
      }
      var c := CloseTimes(before);
      assert forall i :: 0 <= i < |c| ==> c[i] in c;
    }
  }

  /** Whether the chain ends in an open episode. */
  ghost predicate EndsOpen(s: seq<IssueEvent>, d: Declarations) {
    if s == [] then d.active != {}
    else s[|s| - 1].kind != Closed && (d.active != {} || CloseTimes(s) != [])
  }

  /** An open episode awaits closure once some active declaring change request has merged. */
  ghost predicate StatusTellsOpen(e: Entry, d: Declarations) {
    && (e.0.status == AwaitingClosure <==> exists cr :: cr in d.active && cr in d.merged)
    && (e.0.status == Pending <==> forall cr :: cr in d.active ==> cr !in d.merged)
  }

  /** The open episode: it exists exactly when `EndsOpen`, and carries no verdict. */
  lemma OpenTailShape(issue: IssueKey, s: seq<IssueEvent>, d: Declarations, version: string)
    ensures var tail := OpenTail(issue, s, d, version);
            && |tail| == (if EndsOpen(s, d) then 1 else 0)
            && (tail != [] ==>
                  && tail[0].0.closedAt.None? && tail[0].0.attributed.None? && tail[0].1.None?
                  && StatusTellsOpen(tail[0], d) && tail[0].0.issue == issue
                  && tail[0].0.openedAt == IntervalStart(SinceClose(s)))
  {
    hide RightVerdict;
    ClosedChainMatches(issue, s, d, version);
    IntervalStartIsAnEvent(SinceClose(s));
    LastCloseTime(s);
  }

  lemma ChainInOrder(issue: IssueKey, s: seq<IssueEvent>, d: Declarations, version: string)
    requires Sorted(s, EventLe)
    ensures Chronological(ClosedChain(issue, s, d, version) + OpenTail(issue, s, d, version))
  {
    hide RightVerdict, ClosedEpisode, IntervalStart;
    var c, tail := ClosedChain(issue, s, d, version), OpenTail(issue, s, d, version);
    ClosedChainMatches(issue, s, d, version);
    ClosedChainInOrder(issue, s, d, version);
    OpenTailShape(issue, s, d, version);
    if tail != [] {
      var latest := if s == [] then 0 else s[|s| - 1].at;
      forall k | 0 <= k < |s| ensures s[k].at <= latest {
        if k < |s| - 1 {
          assert EventLe(s[k], s[|s| - 1]);
        }
      }
      IntervalStartBounds(s, latest);
      ChronologicalStep(c, tail[0]);
      assert c + tail == c + [tail[0]];
    }
  }

  lemma SupersedingKeepsOrder(c: seq<Entry>)
    requires Chronological(c)
    ensures Chronological(SupersedeAllButLast(c))
  {
  }

  /** The shape of every chain: one closed episode per close, in order of the closes; an open
      episode at most at the end, and exactly when the last event leaves the issue open and
      there is a reason to show it; the intervals follow each other; every episode but the
      last is superseded, and the status of the last tells its verdict or its open state. */
  lemma EpisodeChainShape(issue: IssueKey, events: seq<IssueEvent>, d: Declarations, version: string)
    ensures var chain := IssueChain(issue, events, d, version);
            var closes := Sort(CloseTimes(events), IntLe);
            && |chain| == |closes| + (if EndsOpen(SortEvents(events), d) then 1 else 0)
            && Chronological(chain)
            && (forall i :: 0 <= i < |chain| ==>
                  && (chain[i].0.status == Superseded <==> i < |chain| - 1)
                  && chain[i].0.issue == issue
                  && chain[i].0.closedAt == if i < |closes| then Some(closes[i]) else None)
            && (chain != [] ==> CurrentStatus(chain[|chain| - 1], d))
  {
    hide ClosedChain, OpenTail, Chronological, Sort;
    var s := SortEvents(events);
    CloseTimesOfSorted(events);
    ClosedChainMatches(issue, s, d, version);
    OpenTailShape(issue, s, d, version);
    ChainInOrder(issue, s, d, version);
    SupersedingKeepsOrder(ClosedChain(issue, s, d, version) + OpenTail(issue, s, d, version));
    hide EndsOpen, RightVerdict, StatusTellsOpen, CloseTimes, EventLe;
    ChainParts(ClosedChain(issue, s, d, version), OpenTail(issue, s, d, version), CloseTimes(s), issue, d);
  }

  /** The status of the episode that is the current projection. */
  ghost predicate CurrentStatus(e: Entry, d: Declarations) {
    if e.0.closedAt.Some? then StatusTellsVerdict(e) else StatusTellsOpen(e, d)
  }

  lemma ChainParts(c: seq<Entry>, tail: seq<Entry>, closes: seq<int>, issue: IssueKey, d: Declarations)
    requires MatchesCloses(c, closes, issue, d) && |tail| <= 1
    requires tail != [] ==> tail[0].0.closedAt.None? && StatusTellsOpen(tail[0], d) && tail[0].0.issue == issue
    ensures var chain := SupersedeAllButLast(c + tail);
            && (forall i :: 0 <= i < |chain| ==>
                  && (chain[i].0.status == Superseded <==> i < |chain| - 1)
                  && chain[i].0.issue == issue
                  && chain[i].0.closedAt == if i < |closes| then Some(closes[i]) else None)
            && (chain != [] ==> CurrentStatus(chain[|chain| - 1], d))
  {
    hide RightVerdict;
  }

  lemma SupersedingKeepsVerdict(e: Entry, closedAt: int, d: Declarations)
    requires RightVerdict(e, closedAt, d)
    ensures RightVerdict(Supersede(e), closedAt, d)
  {
  }

  /** Exactly one verdict per close, superseded or not; an open episode has none. */
  ghost predicate OneVerdict(e: Entry, d: Declarations) {
    if e.0.closedAt.Some? then RightVerdict(e, e.0.closedAt.value, d)
    else e.0.attributed.None? && e.1.None?
  }

  lemma EveryCloseHasOneVerdict(issue: IssueKey, events: seq<IssueEvent>, d: Declarations, version: string)
    ensures forall e :: e in IssueChain(issue, events, d, version) ==> OneVerdict(e, d)
  {
    hide RightVerdict;
    var s := SortEvents(events);
    var c := ClosedChain(issue, s, d, version);
    ClosedChainMatches(issue, s, d, version);
    OpenTailShape(issue, s, d, version);
    var chain := IssueChain(issue, events, d, version);
    forall i | 0 <= i < |chain| ensures OneVerdict(chain[i], d) {
      if i < |c| {
        SupersedingKeepsVerdict(c[i], CloseTimes(s)[i], d);
      }
    }
  }

  // ----- later events -----

  lemma EventMembers(events: seq<IssueEvent>)
    ensures forall e :: e in SortEvents(events) <==> e in events
  {
    forall e ensures e in SortEvents(events) <==> e in events {
      assert e in SortEvents(events) <==> e in multiset(SortEvents(events));
      assert e in events <==> e in multiset(events);
    }
  }

  lemma UniqueOrder(events: seq<IssueEvent>, s: seq<IssueEvent>)
    requires Sorted(s, EventLe) && multiset(s) == multiset(events)
    ensures SortEvents(events) == s
  {
    SortedUnique(SortEvents(events), s, EventLe);
  }

  lemma EarlyThenLate(a: seq<IssueEvent>, b: seq<IssueEvent>)
    requires Sorted(a, EventLe) && Sorted(b, EventLe)
    requires forall x, y :: x in a && y in b ==> x.at < y.at
    ensures Sorted(a + b, EventLe)
  {
    forall i, j | 0 <= i < j < |a + b| ensures EventLe((a + b)[i], (a + b)[j]) {
      if j < |a| {
        assert EventLe(a[i], a[j]);
      } else if |a| <= i {
        assert EventLe(b[i - |a|], b[j - |a|]);
      } else {
        assert a[i] in a && b[j - |a|] in b;
      }
    }
  }

  lemma SortOfLater(early: seq<IssueEvent>, late: seq<IssueEvent>, all: seq<IssueEvent>)
    requires multiset(all) == multiset(early) + multiset(late)
    requires forall a, b :: a in early && b in late ==> a.at < b.at
    ensures SortEvents(all) == SortEvents(early) + SortEvents(late)
  {
    hide EventLe, Sorted;
    var a, b := SortEvents(early), SortEvents(late);
    EventMembers(early);
    EventMembers(late);
    EarlyThenLate(a, b);
    UniqueOrder(all, a + b);
  }

  lemma {:induction false} ClosedChainGrows(issue: IssueKey, s: seq<IssueEvent>, t: seq<IssueEvent>,
                                            d: Declarations, version: string)
    ensures ClosedChain(issue, s, d, version) <= ClosedChain(issue, s + t, d, version)
  {
    if t == [] {
      assert s + t == s;
    } else {
      assert (s + t)[..|s + t| - 1] == s + t[..|t| - 1];
      ClosedChainGrows(issue, s, t[..|t| - 1], d, version);
    }
  }

  /** Every closed episode of `was`, with its record, is still in place in `now`; at most its
      status has become superseded. */
  ghost predicate KeepsHistory(was: seq<Entry>, now: seq<Entry>) {
    forall i :: 0 <= i < |was| && was[i].0.closedAt.Some? ==>
                  && i < |now|
                  && now[i].1 == was[i].1
                  && now[i].0 == was[i].0.(status := now[i].0.status)
                  && (now[i].0.status == was[i].0.status || now[i].0.status == Superseded)
  }

  lemma ChainNeverShrinks(issue: IssueKey, a: seq<IssueEvent>, b: seq<IssueEvent>, d: Declarations, version: string)
    requires a != []
    ensures |ClosedChain(issue, a, d, version) + OpenTail(issue, a, d, version)|
            <= |ClosedChain(issue, a + b, d, version) + OpenTail(issue, a + b, d, version)|
  {
    hide RightVerdict, ClosedEpisode, IntervalStart, OpenTail;
    ClosedChainMatches(issue, a, d, version);
    ClosedChainMatches(issue, a + b, d, version);
    CollectConcat(a, b, CloseTime);
    LastCloseTime(b);
    OpenTailShape(issue, a, d, version);
    OpenTailShape(issue, a + b, d, version);
    if b == [] {
      assert a + b == a;
    } else {
      assert (a + b)[|a + b| - 1] == b[|b| - 1];
    }
  }

  lemma SupersedingKeepsHistory(raw: seq<Entry>, tail: seq<Entry>, grown: seq<Entry>, tail': seq<Entry>)
    requires raw <= grown && |raw + tail| <= |grown + tail'|
    requires forall e :: e in tail ==> e.0.closedAt.None?
    ensures KeepsHistory(SupersedeAllButLast(raw + tail), SupersedeAllButLast(grown + tail'))
  {
    var was, now := SupersedeAllButLast(raw + tail), SupersedeAllButLast(grown + tail');
    forall i | |raw| <= i < |was| ensures was[i].0.closedAt.None? {
      assert (raw + tail)[i] in tail;
    }
    forall i | 0 <= i < |raw| ensures (grown + tail')[i] == raw[i] == (raw + tail)[i] {
      assert grown[i] == raw[i];
    }
  }

  lemma StableUnderGrowth(issue: IssueKey, a: seq<IssueEvent>, b: seq<IssueEvent>, d: Declarations, version: string)
    ensures KeepsHistory(
              SupersedeAllButLast(ClosedChain(issue, a, d, version) + OpenTail(issue, a, d, version)),
              SupersedeAllButLast(ClosedChain(issue, a + b, d, version) + OpenTail(issue, a + b, d, version)))
  {
    hide RightVerdict;
    ClosedChainGrows(issue, a, b, d, version);
    OpenTailShape(issue, a, d, version);
    if a == [] {
      assert ClosedChain(issue, a, d, version) == [];
    } else {
      ChainNeverShrinks(issue, a, b, d, version);
      SupersedingKeepsHistory(ClosedChain(issue, a, d, version), OpenTail(issue, a, d, version),
                              ClosedChain(issue, a + b, d, version), OpenTail(issue, a + b, d, version));
    }
  }

  /** History is stable: events strictly later than all earlier ones, delivered in any order,
      leave every closed episode and its record in place; only its status may become
      superseded. */
  lemma HistoryIsStable(issue: IssueKey, early: seq<IssueEvent>, late: seq<IssueEvent>,
                        all: seq<IssueEvent>, d: Declarations, version: string)
    requires multiset(all) == multiset(early) + multiset(late)
    requires forall a, b :: a in early && b in late ==> a.at < b.at
    ensures KeepsHistory(IssueChain(issue, early, d, version), IssueChain(issue, all, d, version))
  {
    SortOfLater(early, late, all);
    StableUnderGrowth(issue, SortEvents(early), SortEvents(late), d, version);
  }
}
