/** What the projection promises across deliveries: convergence, incremental recompute,
    late arrivals. */
module ProjectorLaws {
  import opened Options
  import opened Sorting
  import opened Sequences
  import opened ClosureModel
  import opened LinkStates
  import opened Episodes
  import opened EpisodeLaws
  import opened Projector

  // ----- convergence under any delivery order -----

  /** The same facts were delivered, and every issue's events equally often. */
  ghost predicate SameHistory(a: seq<Fact>, b: seq<Fact>) {
    && SetOf(a) == SetOf(b)
    && forall k :: multiset(IssueEvents(a, k)) == multiset(IssueEvents(b, k))
  }

  lemma {:induction false} EntriesAgree(a: seq<Fact>, b: seq<Fact>, keys: seq<IssueKey>, version: string)
    requires forall k :: k in keys ==> ChainFor(a, k, version) == ChainFor(b, k, version)
    ensures EntriesFor(a, keys, version) == EntriesFor(b, keys, version)
  {
    if keys != [] {
      EntriesAgree(a, b, keys[..|keys| - 1], version);
      assert keys[|keys| - 1] in keys;
    }
  }

  lemma SameHistorySameProjection(a: seq<Fact>, b: seq<Fact>, issues: Option<set<IssueKey>>, version: string)
    requires SameHistory(a, b)
    ensures Project(a, issues, version) == Project(b, issues, version)
  {
    hide IssueChain, SelectedIssues;
    forall k ensures ChainFor(a, k, version) == ChainFor(b, k, version) {
      SameEventsSameChain(IssueEvents(a, k), IssueEvents(b, k), k, DeclarationsFor(SetOf(a), k), version);
    }
    EntriesAgree(a, b, SortEndpoints(SelectedIssues(SetOf(a), issues)), version);
  }

  lemma SameEventsSameChain(a: seq<IssueEvent>, b: seq<IssueEvent>, k: IssueKey, d: Declarations, version: string)
    requires multiset(a) == multiset(b)
    ensures IssueChain(k, a, d, version) == IssueChain(k, b, d, version)
  {
    SortPermutation(a, b, EventLe);
  }

  /** Out-of-order deliveries converge: any permutation of the facts gives the same links,
      episodes and records, element by element. */
  lemma DeliveryOrderConverges(a: seq<Fact>, b: seq<Fact>, issues: Option<set<IssueKey>>, version: string)
    requires multiset(a) == multiset(b)
    ensures Project(a, issues, version) == Project(b, issues, version)
  {
    forall f ensures f in SetOf(a) <==> f in SetOf(b) {
      assert f in a <==> f in multiset(a);
      assert f in b <==> f in multiset(b);
    }
    forall k ensures multiset(IssueEvents(a, k)) == multiset(IssueEvents(b, k)) {
      CollectPermutation(a, b, EventOf(k));
    }
    SameHistorySameProjection(a, b, issues, version);
  }

  // ----- incremental recompute -----

  predicate DeclaresInSnapshot(f: Fact, k: IssueKey) {
    f.IsSnapshot() && f.provider == k.provider && DeclarationOf(k) in ViewOf(f)
  }

  /** `part` has every fact about the issues of `scope`, and every fact about each change
      request any of whose snapshots declares one of them. */
  ghost predicate Covers(part: seq<Fact>, facts: seq<Fact>, scope: set<IssueKey>) {
    && SetOf(part) <= SetOf(facts)
    && (forall f :: f in facts && f.IsIssueEvent(f.Endpoint()) && f.Endpoint() in scope
          ==> multiset(part)[f] == multiset(facts)[f])
    && (forall f, k :: f in facts && f.entityType.ChangeRequestEntity? && k in scope && DeclaresInSnapshot(f, k)
          ==> About(SetOf(facts), f.Endpoint()) <= SetOf(part))
  }

  lemma UnionIsShown(group: set<Fact>, l: LinkKey)
    requires l in Resolve(group).Union()
    ensures exists f :: f in group && l in ViewOf(f)
  {
    var views := ViewsFrom(group, Webhook) + ViewsFrom(group, Backfill);
    var v :| v in views && l in v;
    var f :| f in group && ViewOf(f) == v;
  }

  /** A link is only ever known because some snapshot shows it. */
  lemma SeenInSnapshot(facts: set<Fact>, l: LinkKey)
    requires l in StatesOf(facts)
    ensures exists f :: f in facts && f.IsSnapshot() && l in ViewOf(f)
  {
    hide Resolve;
    var t :| t in Times(facts) && l in ResolutionAt(facts, t).Union();
    UnionIsShown(GroupAt(facts, t), l);
  }

  lemma SnapshotOf(facts: set<Fact>, cr: ChangeRequestKey, k: IssueKey) returns (f: Fact)
    requires cr.provider == k.provider && DeclarationOf(k) in StatesFor(facts, cr)
    ensures f in About(facts, cr) && DeclaresInSnapshot(f, k)
  {
    hide StatesOf;
    SeenInSnapshot(About(facts, cr), DeclarationOf(k));
    f :| f in About(facts, cr) && f.IsSnapshot() && DeclarationOf(k) in ViewOf(f);
  }

  lemma CoveredStates(part: seq<Fact>, facts: seq<Fact>, scope: set<IssueKey>, cr: ChangeRequestKey, k: IssueKey)
    requires Covers(part, facts, scope) && k in scope && cr.provider == k.provider
    requires DeclarationOf(k) in StatesFor(SetOf(facts), cr) || DeclarationOf(k) in StatesFor(SetOf(part), cr)
    ensures About(SetOf(part), cr) == About(SetOf(facts), cr)
    ensures cr in ChangeRequests(SetOf(part)) && cr in ChangeRequests(SetOf(facts))
  {
    hide StatesOf, DeclaresInSnapshot;
    var f := SnapshotOf(if DeclarationOf(k) in StatesFor(SetOf(facts), cr) then SetOf(facts) else SetOf(part), cr, k);
    assert f in SetOf(facts) && f.Endpoint() == cr;
    assert About(SetOf(facts), cr) <= SetOf(part);
    assert f in SetOf(part);
  }

  lemma CoveredDeclarations(part: seq<Fact>, facts: seq<Fact>, scope: set<IssueKey>, k: IssueKey, s: LinkState)
    requires Covers(part, facts, scope) && k in scope
    ensures Declaring(SetOf(part), k, s) == Declaring(SetOf(facts), k, s)
    ensures forall cr :: cr in Declaring(SetOf(facts), k, s) ==>
                           MergeTimes(SetOf(part), cr) == MergeTimes(SetOf(facts), cr)
                           && (cr in Merged(SetOf(part)) <==> cr in Merged(SetOf(facts)))
  {
    hide StatesOf;
    forall cr | cr in Declaring(SetOf(facts), k, s) || cr in Declaring(SetOf(part), k, s)
      ensures About(SetOf(part), cr) == About(SetOf(facts), cr)
      ensures cr in ChangeRequests(SetOf(part)) && cr in ChangeRequests(SetOf(facts))
      ensures MergeTimes(SetOf(part), cr) == MergeTimes(SetOf(facts), cr)
    {
      CoveredStates(part, facts, scope, cr, k);
      MergesFromAbout(SetOf(part), cr);
      MergesFromAbout(SetOf(facts), cr);
    }
  }

  lemma MergesFromAbout(facts: set<Fact>, cr: ChangeRequestKey)
    ensures MergeTimes(facts, cr) == set f | f in About(facts, cr) && f.eventType.ChangeRequestMerged? :: f.occurredAt
  {
  }

  /** Declarations that agree on who declares and on when those merged. */
  ghost predicate SameDeclarations(a: Declarations, b: Declarations) {
    && a.active == b.active && a.parked == b.parked
    && forall cr :: cr in a.active + a.parked ==>
                      (cr in a.merged <==> cr in b.merged) && (cr in a.merged ==> a.merged[cr] == b.merged[cr])
  }

  lemma {:induction false} SameDeclarationsSameClosed(
    issue: IssueKey, s: seq<IssueEvent>, a: Declarations, b: Declarations, version: string)
    requires SameDeclarations(a, b)
    ensures ClosedChain(issue, s, a, version) == ClosedChain(issue, s, b, version)
  {
    if s != [] {
      SameDeclarationsSameClosed(issue, s[..|s| - 1], a, b, version);
      var t := s[|s| - 1].at;
      assert Eligible(a.active, a.merged, t) == Eligible(b.active, b.merged, t);
      assert Eligible(a.parked, a.merged, t) == Eligible(b.parked, b.merged, t);
    }
  }

  lemma SameDeclarationsSameChain(
    issue: IssueKey, events: seq<IssueEvent>, a: Declarations, b: Declarations, version: string)
    requires SameDeclarations(a, b)
    ensures IssueChain(issue, events, a, version) == IssueChain(issue, events, b, version)
  {
    var s := SortEvents(events);
    SameDeclarationsSameClosed(issue, s, a, b, version);
    assert (exists cr :: cr in a.active && cr in a.merged) <==> (exists cr :: cr in b.active && cr in b.merged);
  }

  /** The events of a covered issue are delivered equally often in the part. */
  lemma CoveredEvents(part: seq<Fact>, facts: seq<Fact>, scope: set<IssueKey>, k: IssueKey)
    requires Covers(part, facts, scope) && k in scope
    ensures multiset(IssueEvents(part, k)) == multiset(IssueEvents(facts, k))
  {
    var p := (f: Fact) => f.IsIssueEvent(k);
    forall f ensures multiset(Filter(part, p))[f] == multiset(Filter(facts, p))[f] {
      FilterCount(part, p, f);
      FilterCount(facts, p, f);
      assert f in multiset(part) ==> f in SetOf(part);
      assert f in multiset(facts) ==> f in facts;
    }
    CollectAfterFilter(part, p, EventOf(k));
    CollectAfterFilter(facts, p, EventOf(k));
    CollectPermutation(Filter(part, p), Filter(facts, p), EventOf(k));
  }

  lemma CoveredChain(part: seq<Fact>, facts: seq<Fact>, scope: set<IssueKey>, k: IssueKey, version: string)
    requires Covers(part, facts, scope) && k in scope
    ensures ChainFor(part, k, version) == ChainFor(facts, k, version)
    ensures k in AllIssues(SetOf(part)) <==> k in AllIssues(SetOf(facts))
  {
    hide IssueChain, Covers, Declaring;
    CoveredEvents(part, facts, scope, k);
    CoveredDeclarations(part, facts, scope, k, Active);
    CoveredDeclarations(part, facts, scope, k, Parked);
    var a, b := DeclarationsFor(SetOf(part), k), DeclarationsFor(SetOf(facts), k);
    SameEventsSameChain(IssueEvents(part, k), IssueEvents(facts, k), k, a, version);
    SameDeclarationsSameChain(k, IssueEvents(facts, k), a, b, version);
    InAllIssues(part, k);
    InAllIssues(facts, k);
    assert |multiset(IssueEvents(part, k))| == |IssueEvents(part, k)|;
    assert |multiset(IssueEvents(facts, k))| == |IssueEvents(facts, k)|;
  }

  /** An issue is projected when it has an event or a declaration that is not revoked. */
  lemma InAllIssues(facts: seq<Fact>, k: IssueKey)
    ensures k in AllIssues(SetOf(facts)) <==>
              || IssueEvents(facts, k) != []
              || Declaring(SetOf(facts), k, Active) != {}
              || Declaring(SetOf(facts), k, Parked) != {}
  {
    DeclaredIffDeclaring(SetOf(facts), k, Active);
    DeclaredIffDeclaring(SetOf(facts), k, Parked);
    EventsExist(facts, k);
  }

  lemma {:induction false} EventsExist(facts: seq<Fact>, k: IssueKey)
    ensures IssueEvents(facts, k) != [] <==> k in IssuesWithEvents(SetOf(facts))
  {
    if facts == [] {
      assert SetOf(facts) == {};
    } else {
      var before, last := facts[..|facts| - 1], facts[|facts| - 1];
      EventsExist(before, k);
      assert facts == before + [last];
      assert SetOf(facts) == SetOf(before) + {last};
    }
  }

  // ----- restriction to a set of issues -----

  function InScope(scope: set<IssueKey>): IssueKey -> bool {
    (k: IssueKey) => k in scope
  }

  function EntryInScope(scope: set<IssueKey>): Entry -> bool {
    (e: Entry) => e.0.issue in scope
  }

  function EpisodeInScope(scope: set<IssueKey>): Episode -> bool {
    (e: Episode) => e.issue in scope
  }

  function RecordInScope(scope: set<IssueKey>): Unresolved -> bool {
    (r: Unresolved) => r.issue in scope
  }

  lemma {:induction false} FilterEntries(facts: seq<Fact>, keys: seq<IssueKey>, scope: set<IssueKey>, version: string)
    ensures Filter(EntriesFor(facts, keys, version), EntryInScope(scope))
            == EntriesFor(facts, Filter(keys, InScope(scope)), version)
  {
    if keys != [] {
      hide IssueChain;
      var before, last := keys[..|keys| - 1], keys[|keys| - 1];
      FilterEntries(facts, before, scope, version);
      var chain := ChainFor(facts, last, version);
      FilterConcat(EntriesFor(facts, before, version), chain, EntryInScope(scope));
      OwnIssue(facts, last, version);
      FilterAllOrNone(chain, EntryInScope(scope), last in scope);
      var kept := Filter(before, InScope(scope));
      if last in scope {
        assert (kept + [last])[..|kept|] == kept;
      } else {
        assert kept + [] == kept;
      }
    }
  }

  lemma OwnIssue(facts: seq<Fact>, k: IssueKey, version: string)
    ensures forall e :: e in ChainFor(facts, k, version) ==>
                          e.0.issue == k && (e.1.Some? ==> e.1.value.issue == k)
  {
    var d := DeclarationsFor(SetOf(facts), k);
    EpisodeChainShape(k, IssueEvents(facts, k), d, version);
    EveryCloseHasOneVerdict(k, IssueEvents(facts, k), d, version);
  }

  lemma {:induction false} OwnIssues(facts: seq<Fact>, keys: seq<IssueKey>, version: string)
    ensures forall e :: e in EntriesFor(facts, keys, version) && e.1.Some? ==> e.1.value.issue == e.0.issue
  {
    if keys != [] {
      hide IssueChain;
      OwnIssues(facts, keys[..|keys| - 1], version);
      OwnIssue(facts, keys[|keys| - 1], version);
    }
  }

  /** Restricting the computation to some issues restricts the output to them. */
  lemma RestrictionIsFilter(facts: seq<Fact>, scope: set<IssueKey>, version: string)
    ensures var all := Project(facts, None, version);
            var some := Project(facts, Some(scope), version);
            && some.episodes == Filter(all.episodes, EpisodeInScope(scope))
            && some.unresolved == Filter(all.unresolved, RecordInScope(scope))
            && some.links == all.links
  {
    hide ChainFor, AllIssues;
    var keys := AllIssues(SetOf(facts));
    var entries := EntriesFor(facts, SortEndpoints(keys), version);
    FilterEndpoints(keys, InScope(scope), keys * scope);
    FilterEntries(facts, SortEndpoints(keys), scope, version);
    OwnIssues(facts, SortEndpoints(keys), version);
    FilterOfCollect(entries, EpisodeIn, EntryInScope(scope), EpisodeInScope(scope));
    FilterOfCollect(entries, RecordIn, EntryInScope(scope), RecordInScope(scope));
  }

  // ----- one issue in a projection -----

  lemma {:induction false} EveryEntryAnEpisode(entries: seq<Entry>)
    ensures |Collect(entries, EpisodeIn)| == |entries|
    ensures forall i :: 0 <= i < |entries| ==> Collect(entries, EpisodeIn)[i] == entries[i].0
  {
    if entries != [] {
      EveryEntryAnEpisode(entries[..|entries| - 1]);
    }
  }

  function EpisodesOf(p: Projection, k: IssueKey): seq<Episode> {
    Filter(p.episodes, EpisodeInScope({k}))
  }

  function RecordsOf(p: Projection, k: IssueKey): seq<Unresolved> {
    Filter(p.unresolved, RecordInScope({k}))
  }

  /** What a projection holds of an issue it was asked for is the issue's chain, all of it;
      of any other issue it holds nothing. */
  lemma IssueInProjection(facts: seq<Fact>, issues: Option<set<IssueKey>>, k: IssueKey, version: string)
    ensures var p := Project(facts, issues, version);
            var chain := if issues.Some? && k !in issues.value then [] else ChainFor(facts, k, version);
            EpisodesOf(p, k) == Collect(chain, EpisodeIn) && RecordsOf(p, k) == Collect(chain, RecordIn)
  {
    hide ChainFor, AllIssues;
    var keys := SelectedIssues(SetOf(facts), issues);
    var entries := EntriesFor(facts, SortEndpoints(keys), version);
    FilterEndpoints(keys, InScope({k}), keys * {k});
    FilterEntries(facts, SortEndpoints(keys), {k}, version);
    OwnIssues(facts, SortEndpoints(keys), version);
    FilterOfCollect(entries, EpisodeIn, EntryInScope({k}), EpisodeInScope({k}));
    FilterOfCollect(entries, RecordIn, EntryInScope({k}), RecordInScope({k}));
    OneOrNone(facts, keys * {k}, k, version);
    if k !in AllIssues(SetOf(facts)) {
      NoChain(facts, k, version);
    }
  }

  lemma OneOrNone(facts: seq<Fact>, keys: set<IssueKey>, k: IssueKey, version: string)
    requires keys <= {k}
    ensures EntriesFor(facts, SortEndpoints(keys), version) == if k in keys then ChainFor(facts, k, version) else []
  {
    hide ChainFor, EndpointLe;
    var order := SortEndpoints(keys);
    assert |multiset(order)| == |order|;
    if k in keys {
      assert keys == {k};
      assert k in multiset(order);
      assert order == [k];
      assert EntriesFor(facts, [], version) == [];
    } else {
      assert keys == {};
    }
  }

  /** An issue without events and declarations has no episodes. */
  lemma NoChain(facts: seq<Fact>, k: IssueKey, version: string)
    requires k !in AllIssues(SetOf(facts))
    ensures ChainFor(facts, k, version) == []
  {
    hide Declaring, AllIssues, IssueChain;
    InAllIssues(facts, k);
    var d := DeclarationsFor(SetOf(facts), k);
    EpisodeChainShape(k, [], d, version);
    assert CloseTimes([]) == [] && SortEvents([]) == [];
  }

  /** Incremental equals full: projecting a part that covers `scope`, for `scope`, gives
      exactly the episodes and records the full projection has for those issues. */
  lemma IncrementalEqualsFull(part: seq<Fact>, facts: seq<Fact>, scope: set<IssueKey>, version: string)
    requires Covers(part, facts, scope)
    ensures var full := Project(facts, None, version);
            var incremental := Project(part, Some(scope), version);
            && incremental.episodes == Filter(full.episodes, EpisodeInScope(scope))
            && incremental.unresolved == Filter(full.unresolved, RecordInScope(scope))
  {
    hide ChainFor, Covers, AllIssues;
    RestrictionIsFilter(facts, scope, version);
    forall k | k in scope
      ensures ChainFor(part, k, version) == ChainFor(facts, k, version)
      ensures k in AllIssues(SetOf(part)) <==> k in AllIssues(SetOf(facts))
    {
      CoveredChain(part, facts, scope, k, version);
    }
    var selected := AllIssues(SetOf(facts)) * scope;
    assert AllIssues(SetOf(part)) * scope == selected;
    EndpointMembers(selected);
    EntriesAgree(part, facts, SortEndpoints(selected), version);
  }

  // ----- late arrivals -----

  /** `late` is a snapshot older than another snapshot of its change request. */
  ghost predicate IsOutdated(late: Fact, facts: set<Fact>) {
    && late.entityType.ChangeRequestEntity? && late.IsSnapshot()
    && exists f :: f in About(facts, late.Endpoint()) && f.IsSnapshot() && late.occurredAt < f.occurredAt
  }

  function Live(states: map<LinkKey, LinkState>): map<LinkKey, LinkState> {
    map l | l in states && states[l] != Revoked :: states[l]
  }

  /** The links that are not revoked depend on the last timestamp group alone. */
  lemma LiveFromLast(facts: set<Fact>, times: set<int>)
    requires times != {}
    ensures var last := ResolutionAt(facts, Latest(times));
            Live(StatesOver(facts, times)) == map l | l in last.Union() :: StateUnder(last, l)
  {
    hide Resolve;
    var last := ResolutionAt(facts, Latest(times));
    assert last.Union() <= Seen(facts, times);
    assert forall l :: StateUnder(last, l) != Revoked <==> l in last.Union();
  }

  /** An outdated snapshot is not in the last timestamp group. */
  lemma SameLastGroup(was: set<Fact>, late: Fact, f: Fact)
    requires f in was && f.IsSnapshot() && late.IsSnapshot() && late.occurredAt < f.occurredAt
    ensures var now := was + {late};
            && Times(was) != {} && Times(now) != {}
            && Latest(Times(now)) == Latest(Times(was))
            && GroupAt(now, Latest(Times(was))) == GroupAt(was, Latest(Times(was)))
  {
    var now := was + {late};
    assert f.occurredAt in Times(was);
    assert Times(now) == Times(was) + {late.occurredAt};
  }

  lemma AboutWith(facts: set<Fact>, late: Fact, cr: ChangeRequestKey)
    ensures About(facts + {late}, cr) == About(facts, cr) + if late.IsAboutChangeRequest(cr) then {late} else {}
  {
  }

  lemma LiveIgnoresOutdated(facts: set<Fact>, late: Fact, cr: ChangeRequestKey)
    requires IsOutdated(late, facts)
    ensures Live(StatesFor(facts + {late}, cr)) == Live(StatesFor(facts, cr))
    ensures MergeTimes(facts + {late}, cr) == MergeTimes(facts, cr)
  {
    MergeTimesStep(facts, late, cr);
    AboutWith(facts, late, cr);
    var f :| f in About(facts, late.Endpoint()) && f.IsSnapshot() && late.occurredAt < f.occurredAt;
    hide Resolve, About, MergeTimes, Times, GroupAt, Latest, StatesOver, StateUnder, Live;
    var was := About(facts, cr);
    if cr == late.Endpoint() {
      SameLastGroup(was, late, f);
      LiveFromLast(was, Times(was));
      LiveFromLast(was + {late}, Times(was + {late}));
    } else {
      assert was + {} == was;
    }
  }

  lemma DeclaresFromLive(cr: ChangeRequestKey, a: map<LinkKey, LinkState>, b: map<LinkKey, LinkState>,
                         k: IssueKey, s: LinkState)
    requires Live(a) == Live(b) && s != Revoked
    ensures Declares(cr, a, k, s) == Declares(cr, b, k, s)
  {
    var l := DeclarationOf(k);
    assert l in a && a[l] == s <==> l in Live(a) && Live(a)[l] == s;
    assert l in b && b[l] == s <==> l in Live(b) && Live(b)[l] == s;
  }

  function IsLive(): Link -> bool {
    (l: Link) => l.state != Revoked
  }

  function KeyIn(states: map<LinkKey, LinkState>): LinkKey -> bool {
    (l: LinkKey) => l in states
  }

  lemma LiveLinks(cr: ChangeRequestKey, states: map<LinkKey, LinkState>, version: string)
    ensures Filter(LinksOfChangeRequest(cr, states, version), IsLive())
            == LinksOfChangeRequest(cr, Live(states), version)
  {
    var keys, live := SortLinks(states.Keys), Live(states);
    LinkMembers(states.Keys);
    LinkMembers(live.Keys);
    FilterOfCollect(keys, LinkOf(cr, states, version), KeyIn(live), IsLive());
    FilterLinks(states.Keys, KeyIn(live), live.Keys);
    CollectAgrees(SortLinks(live.Keys), LinkOf(cr, states, version), LinkOf(cr, live, version));
  }

  lemma {:induction false} LiveLinksAgree(a: set<Fact>, b: set<Fact>, crs: seq<ChangeRequestKey>, version: string)
    requires forall cr :: Live(StatesFor(a, cr)) == Live(StatesFor(b, cr))
    ensures Filter(LinksFor(a, crs, version), IsLive()) == Filter(LinksFor(b, crs, version), IsLive())
  {
    if crs != [] {
      hide StatesFor, LinksOfChangeRequest, Live;
      var before, last := crs[..|crs| - 1], crs[|crs| - 1];
      LiveLinksAgree(a, b, before, version);
      LiveLinks(last, StatesFor(a, last), version);
      LiveLinks(last, StatesFor(b, last), version);
      FilterConcat(LinksFor(a, before, version), LinksOfChangeRequest(last, StatesFor(a, last), version), IsLive());
      FilterConcat(LinksFor(b, before, version), LinksOfChangeRequest(last, StatesFor(b, last), version), IsLive());
    }
  }

  lemma OutdatedChangesNothing(facts: set<Fact>, late: Fact)
    requires IsOutdated(late, facts)
    ensures ChangeRequests(facts + {late}) == ChangeRequests(facts)
    ensures Merged(facts + {late}) == Merged(facts)
    ensures forall k :: DeclarationsFor(facts + {late}, k) == DeclarationsFor(facts, k)
    ensures forall cr :: Live(StatesFor(facts + {late}, cr)) == Live(StatesFor(facts, cr))
  {
    hide StatesFor;
    var f :| f in About(facts, late.Endpoint());
    assert ChangeRequests(facts + {late}) == ChangeRequests(facts);
    forall cr ensures Live(StatesFor(facts + {late}, cr)) == Live(StatesFor(facts, cr))
                      && MergeTimes(facts + {late}, cr) == MergeTimes(facts, cr) {
      LiveIgnoresOutdated(facts, late, cr);
    }
    forall k, cr, s | s != Revoked
      ensures Declares(cr, StatesFor(facts + {late}, cr), k, s) == Declares(cr, StatesFor(facts, cr), k, s) {
      DeclaresFromLive(cr, StatesFor(facts + {late}, cr), StatesFor(facts, cr), k, s);
    }
    assert Merged(facts + {late}) == Merged(facts);
    forall k, s | s != Revoked ensures Declaring(facts + {late}, k, s) == Declaring(facts, k, s) {}
  }

  lemma OutdatedKeepsIssue(facts: seq<Fact>, late: Fact, k: IssueKey, version: string)
    requires IsOutdated(late, SetOf(facts))
    ensures ChainFor(facts + [late], k, version) == ChainFor(facts, k, version)
    ensures k in AllIssues(SetOf(facts + [late])) <==> k in AllIssues(SetOf(facts))
  {
    hide IssueChain, StatesFor, Declaring, AllIssues;
    assert SetOf(facts + [late]) == SetOf(facts) + {late};
    OutdatedChangesNothing(SetOf(facts), late);
    CollectAppend(facts, late, k);
    assert IssueEvents(facts + [late], k) == IssueEvents(facts, k);
    InAllIssues(facts + [late], k);
    InAllIssues(facts, k);
    assert DeclarationsFor(SetOf(facts + [late]), k) == DeclarationsFor(SetOf(facts), k);
  }

  lemma LateAtTheEnd(facts: seq<Fact>, late: Fact, issues: Option<set<IssueKey>>, version: string)
    requires IsOutdated(late, SetOf(facts))
    ensures var before := Project(facts, issues, version);
            var after := Project(facts + [late], issues, version);
            && after.episodes == before.episodes
            && after.unresolved == before.unresolved
            && Filter(after.links, IsLive()) == Filter(before.links, IsLive())
  {
    hide ChainFor, StatesFor, Live, AllIssues, Merged, DeclarationsFor, IsOutdated, ChangeRequests;
    var more := facts + [late];
    assert SetOf(more) == SetOf(facts) + {late};
    OutdatedChangesNothing(SetOf(facts), late);
    forall k ensures ChainFor(more, k, version) == ChainFor(facts, k, version)
                     && (k in AllIssues(SetOf(more)) <==> k in AllIssues(SetOf(facts))) {
      OutdatedKeepsIssue(facts, late, k, version);
    }
    assert AllIssues(SetOf(more)) == AllIssues(SetOf(facts));
    EntriesAgree(more, facts, SortEndpoints(SelectedIssues(SetOf(facts), issues)), version);
    LiveLinksAgree(SetOf(more), SetOf(facts), SortEndpoints(ChangeRequests(SetOf(facts))), version);
  }

  /** A late delivery is harmless end to end: a snapshot strictly older than another snapshot
      of its change request, delivered at any point, changes no episode and no record, and
      among the links it only adds or removes revoked ones. */
  lemma LateArrivalIsHarmless(facts: seq<Fact>, late: Fact, all: seq<Fact>, issues: Option<set<IssueKey>>, version: string)
    requires multiset(all) == multiset(facts) + multiset{late}
    requires IsOutdated(late, SetOf(facts))
    ensures var before := Project(facts, issues, version);
            var after := Project(all, issues, version);
            && after.episodes == before.episodes
            && after.unresolved == before.unresolved
            && Filter(after.links, IsLive()) == Filter(before.links, IsLive())
  {
    hide Project, IsOutdated;
    DeliveryOrderConverges(all, facts + [late], issues, version);
    LateAtTheEnd(facts, late, issues, version);
  }
}
