/** A fact delivered twice.  The projector does not deduplicate facts; this says exactly
    which repeated deliveries it is immune to. */
module DuplicateFacts {
  import opened Options
  import opened Sorting
  import opened Sequences
  import opened ClosureModel
  import opened Episodes
  import opened EpisodeLaws
  import opened Projector
  import opened ProjectorLaws

  // ----- a repeated event in the fold over one issue -----

  ghost predicate SameFold(issue: IssueKey, a: seq<IssueEvent>, b: seq<IssueEvent>, d: Declarations, version: string) {
    && ClosedChain(issue, a, d, version) == ClosedChain(issue, b, d, version)
    && IntervalStart(SinceClose(a)) == IntervalStart(SinceClose(b))
  }

  lemma FoldStep(issue: IssueKey, a: seq<IssueEvent>, b: seq<IssueEvent>, e: IssueEvent, d: Declarations, version: string)
    requires SameFold(issue, a, b, d, version)
    ensures SameFold(issue, a + [e], b + [e], d, version)
  {
    assert (a + [e])[..|a|] == a && (b + [e])[..|b|] == b;
    SinceCloseStep(a, e);
    SinceCloseStep(b, e);
    if e.kind != Closed {
      IntervalStartStep(SinceClose(a), e);
      IntervalStartStep(SinceClose(b), e);
    }
  }

  lemma {:induction false} FoldSteps(issue: IssueKey, a: seq<IssueEvent>, b: seq<IssueEvent>, t: seq<IssueEvent>,
                                     d: Declarations, version: string)
    requires SameFold(issue, a, b, d, version)
    ensures SameFold(issue, a + t, b + t, d, version)
    decreases |t|
  {
    hide SameFold;
    if t == [] {
      assert a + t == a && b + t == b;
    } else {
      FoldStep(issue, a, b, t[0], d, version);
      FoldSteps(issue, a + [t[0]], b + [t[0]], t[1..], d, version);
      assert a + [t[0]] + t[1..] == a + t;
      assert b + [t[0]] + t[1..] == b + t;
    }
  }

  lemma RepeatInPlace(issue: IssueKey, p: seq<IssueEvent>, e: IssueEvent, d: Declarations, version: string)
    requires e.kind != Closed
    ensures SameFold(issue, p + [e], p + [e] + [e], d, version)
  {
    var once := p + [e];
    assert once[..|p|] == p && (once + [e])[..|once|] == once;
    SinceCloseStep(p, e);
    SinceCloseStep(once, e);
    IntervalStartStep(SinceClose(p), e);
    IntervalStartStep(SinceClose(once), e);
  }

  lemma RepeatStaysSorted(p: seq<IssueEvent>, e: IssueEvent, q: seq<IssueEvent>)
    requires Sorted(p + [e] + q, EventLe)
    ensures Sorted(p + [e] + [e] + q, EventLe)
  {
    var once, twice, i := p + [e] + q, p + [e] + [e] + q, |p|;
    forall j, k | 0 <= j < k < |twice| ensures EventLe(twice[j], twice[k]) {
      assert twice[j] == once[if j <= i then j else j - 1];
      assert twice[k] == once[if k <= i then k else k - 1];
    }
  }

  /** In sorted order the repeated event stands next to the first. */
  lemma SortedRepeat(events: seq<IssueEvent>, e: IssueEvent) returns (p: seq<IssueEvent>, q: seq<IssueEvent>)
    requires e in events
    ensures SortEvents(events) == p + [e] + q
    ensures SortEvents(events + [e]) == p + [e] + [e] + q
  {
    hide EventLe, Sorted;
    var s := SortEvents(events);
    assert e in multiset(events) && e in multiset(s);
    var i :| 0 <= i < |s| && s[i] == e;
    p, q := s[..i], s[i + 1..];
    assert s == p + [e] + q;
    assert Sorted(p + [e] + q, EventLe);
    RepeatStaysSorted(p, e, q);
    CountRepeat(p, e, q);
    UniqueOrder(events + [e], p + [e] + [e] + q);
  }

  lemma CountRepeat(p: seq<IssueEvent>, e: IssueEvent, q: seq<IssueEvent>)
    ensures multiset(p + [e] + [e] + q) == multiset(p + [e] + q) + multiset{e}
  {
    assert p + [e] + [e] + q == (p + [e]) + ([e] + q);
    MoveOut(p + [e], [e], q);
  }

  lemma RepeatedOpenIsHarmless(issue: IssueKey, events: seq<IssueEvent>, e: IssueEvent, d: Declarations, version: string)
    requires e in events && e.kind != Closed
    ensures IssueChain(issue, events + [e], d, version) == IssueChain(issue, events, d, version)
  {
    var p, q := SortedRepeat(events, e);
    RepeatInPlace(issue, p, e, d, version);
    FoldSteps(issue, p + [e], p + [e] + [e], q, d, version);
  }

  /** A repeated close is taken for a second close: the chain grows by one episode. */
  lemma RepeatedCloseAddsAnEpisode(issue: IssueKey, events: seq<IssueEvent>, e: IssueEvent, d: Declarations, version: string)
    requires e in events && e.kind == Closed
    ensures |IssueChain(issue, events + [e], d, version)| == |IssueChain(issue, events, d, version)| + 1
  {
    hide IssueChain, EventLe, Chronological, Sorted, Sort;
    var more := events + [e];
    var p, q := SortedRepeat(events, e);
    EpisodeChainShape(issue, events, d, version);
    EpisodeChainShape(issue, more, d, version);
    assert more[..|events|] == events;
    var was, now := CloseTimes(events), CloseTimes(more);
    assert now == was + [e.at];
    SortedLength(now);
    SortedLength(was);
    CloseTimesOfSorted(events);
    CloseTimesOfSorted(more);
    HasClose(events, e);
    assert (p + [e] + [e] + q)[|p + [e] + [e] + q| - 1] == (p + [e] + q)[|p + [e] + q| - 1];
  }

  lemma SortedLength(s: seq<int>)
    ensures |Sort(s, IntLe)| == |s|
  {
    assert |multiset(Sort(s, IntLe))| == |Sort(s, IntLe)| && |multiset(s)| == |s|;
  }

  lemma {:induction false} HasClose(events: seq<IssueEvent>, e: IssueEvent)
    requires e in events && e.kind == Closed
    ensures CloseTimes(events) != []
  {
    var before, last := events[..|events| - 1], events[|events| - 1];
    assert events == before + [last];
    if last != e {
      HasClose(before, e);
    }
  }

  // ----- a repeated fact in the projection -----

  /** A repeated delivery the projector takes for something new. */
  predicate CountsTwice(f: Fact, issues: Option<set<IssueKey>>) {
    && f.entityType.IssueEntity? && f.eventType == IssueLifecycle(Closed)
    && (issues.Some? ==> f.Endpoint() in issues.value)
  }

  lemma {:induction false} EventIsThere(facts: seq<Fact>, f: Fact)
    requires f in facts && f.IsIssueEvent(f.Endpoint())
    ensures IssueEvent(f.occurredAt, f.eventType.kind) in IssueEvents(facts, f.Endpoint())
  {
    var before, last := facts[..|facts| - 1], facts[|facts| - 1];
    assert facts == before + [last];
    if last != f {
      EventIsThere(before, f);
    }
  }

  lemma {:induction false} OneChainLonger(a: seq<Fact>, b: seq<Fact>, keys: seq<IssueKey>, k: IssueKey, version: string)
    requires forall other :: other != k ==> ChainFor(b, other, version) == ChainFor(a, other, version)
    requires |ChainFor(b, k, version)| == |ChainFor(a, k, version)| + 1
    requires k in keys && forall i, j :: 0 <= i < j < |keys| ==> keys[i] != keys[j]
    ensures |EntriesFor(b, keys, version)| == |EntriesFor(a, keys, version)| + 1
  {
    hide IssueChain;
    var before, last := keys[..|keys| - 1], keys[|keys| - 1];
    assert keys == before + [last];
    if last == k {
      assert k !in before;
      EntriesAgree(a, b, before, version);
    } else {
      OneChainLonger(a, b, before, k, version);
    }
  }

  lemma OtherChains(facts: seq<Fact>, f: Fact, k: IssueKey, version: string)
    requires f in facts && !f.IsIssueEvent(k)
    ensures ChainFor(facts + [f], k, version) == ChainFor(facts, k, version)
  {
    assert SetOf(facts + [f]) == SetOf(facts);
    CollectAppend(facts, f, k);
    assert IssueEvents(facts + [f], k) == IssueEvents(facts, k);
  }

  lemma OwnChain(facts: seq<Fact>, f: Fact, version: string)
    requires f in facts && f.IsIssueEvent(f.Endpoint())
    ensures var k := f.Endpoint();
            if f.eventType.kind == Closed
            then |ChainFor(facts + [f], k, version)| == |ChainFor(facts, k, version)| + 1
            else ChainFor(facts + [f], k, version) == ChainFor(facts, k, version)
  {
    hide IssueChain;
    var k, e := f.Endpoint(), IssueEvent(f.occurredAt, f.eventType.kind);
    var d := DeclarationsFor(SetOf(facts), k);
    assert SetOf(facts + [f]) == SetOf(facts);
    CollectAppend(facts, f, k);
    EventIsThere(facts, f);
    if e.kind == Closed {
      RepeatedCloseAddsAnEpisode(k, IssueEvents(facts, k), e, d, version);
    } else {
      RepeatedOpenIsHarmless(k, IssueEvents(facts, k), e, d, version);
    }
  }

  lemma RepeatedCloseShows(facts: seq<Fact>, f: Fact, issues: Option<set<IssueKey>>, version: string)
    requires f in facts && CountsTwice(f, issues)
    ensures |Project(facts + [f], issues, version).episodes| == |Project(facts, issues, version).episodes| + 1
  {
    hide ChainFor, DeclaredIssues;
    var more, k := facts + [f], f.Endpoint();
    assert SetOf(more) == SetOf(facts);
    var selected := SelectedIssues(SetOf(facts), issues);
    assert f.IsIssueEvent(k);
    assert k in IssuesWithEvents(SetOf(facts));
    forall other | other != k ensures ChainFor(more, other, version) == ChainFor(facts, other, version) {
      OtherChains(facts, f, other, version);
    }
    OwnChain(facts, f, version);
    EndpointMembers(selected);
    forall i: nat, j: nat | i < j < |SortEndpoints(selected)|
      ensures SortEndpoints(selected)[i] != SortEndpoints(selected)[j] {
      NoDuplicates(SortEndpoints(selected), selected, i, j);
    }
    OneChainLonger(facts, more, SortEndpoints(selected), k, version);
    EveryEntryAnEpisode(EntriesFor(facts, SortEndpoints(selected), version));
    EveryEntryAnEpisode(EntriesFor(more, SortEndpoints(selected), version));
  }

  lemma OtherRepeatsAreHarmless(facts: seq<Fact>, f: Fact, issues: Option<set<IssueKey>>, version: string)
    requires f in facts && !CountsTwice(f, issues)
    ensures Project(facts + [f], issues, version) == Project(facts, issues, version)
  {
    hide ChainFor, AllIssues;
    var more := facts + [f];
    assert SetOf(more) == SetOf(facts);
    var selected := SelectedIssues(SetOf(facts), issues);
    EndpointMembers(selected);
    forall k | k in SortEndpoints(selected) ensures ChainFor(more, k, version) == ChainFor(facts, k, version) {
      if f.IsIssueEvent(k) {
        OwnChain(facts, f, version);
      } else {
        OtherChains(facts, f, k, version);
      }
    }
    EntriesAgree(more, facts, SortEndpoints(selected), version);
  }

  /** Delivering a fact again leaves the projection as it is exactly when the fact is not an
      `issue.closed` of a projected issue; such a close becomes one more episode. */
  lemma RepeatIsHarmlessIff(facts: seq<Fact>, f: Fact, all: seq<Fact>, issues: Option<set<IssueKey>>, version: string)
    requires f in facts && multiset(all) == multiset(facts) + multiset{f}
    ensures Project(all, issues, version) == Project(facts, issues, version) <==> !CountsTwice(f, issues)
  {
    hide Project;
    DeliveryOrderConverges(all, facts + [f], issues, version);
    if CountsTwice(f, issues) {
      RepeatedCloseShows(facts, f, issues, version);
    } else {
      OtherRepeatsAreHarmless(facts, f, issues, version);
    }
  }
}
