/** What a whole projection promises about closes: one verdict each, and a history that later
    issue events cannot rewrite. */
module HistoryLaws {
  import opened Options
  import opened Sorting
  import opened Sequences
  import opened ClosureModel
  import opened LinkStates
  import opened Episodes
  import opened EpisodeLaws
  import opened Projector
  import opened ProjectorLaws

  // ----- records and episodes of one projection -----

  function IsUnattributedClose(): Episode -> bool {
    (e: Episode) => e.closedAt.Some? && e.attributed.None?
  }

  /** A record stands beside exactly the closes without attribution, and names that close. */
  ghost predicate Paired(e: Entry) {
    && (e.1.Some? <==> IsUnattributedClose()(e.0))
    && (e.1.Some? ==> e.1.value.issue == e.0.issue && Some(e.1.value.closedAt) == e.0.closedAt)
  }

  lemma ChainIsPaired(facts: seq<Fact>, k: IssueKey, version: string)
    ensures forall e :: e in ChainFor(facts, k, version) ==> Paired(e)
  {
    hide IssueChain;
    EveryCloseHasOneVerdict(k, IssueEvents(facts, k), DeclarationsFor(SetOf(facts), k), version);
  }

  lemma {:induction false} EntriesArePaired(facts: seq<Fact>, keys: seq<IssueKey>, version: string)
    ensures forall e :: e in EntriesFor(facts, keys, version) ==> Paired(e)
  {
    if keys != [] {
      hide Paired, ChainFor;
      EntriesArePaired(facts, keys[..|keys| - 1], version);
      ChainIsPaired(facts, keys[|keys| - 1], version);
    }
  }

  /** Records and unattributed closes, one for one and in the same order. */
  ghost predicate OneForOne(records: seq<Unresolved>, closes: seq<Episode>) {
    && |records| == |closes|
    && forall i :: 0 <= i < |records| ==>
                     records[i].issue == closes[i].issue && Some(records[i].closedAt) == closes[i].closedAt
  }

  lemma {:induction false} PairedEntries(entries: seq<Entry>)
    requires forall e :: e in entries ==> Paired(e)
    ensures OneForOne(Collect(entries, RecordIn), Filter(Collect(entries, EpisodeIn), IsUnattributedClose()))
  {
    if entries != [] {
      var before, last := entries[..|entries| - 1], entries[|entries| - 1];
      assert entries == before + [last];
      PairedEntries(before);
      assert last in entries;
      var episodes := Collect(before, EpisodeIn);
      assert (episodes + [last.0])[..|episodes|] == episodes;
    }
  }

  /** Over a whole projection: the unresolved records and the closed episodes without an
      attributed change request correspond one for one, in order. */
  lemma OneRecordPerUnattributedClose(facts: seq<Fact>, issues: Option<set<IssueKey>>, version: string)
    ensures var p := Project(facts, issues, version);
            OneForOne(p.unresolved, Filter(p.episodes, IsUnattributedClose()))
  {
    hide Paired, SelectedIssues, ChainFor, OneForOne;
    var keys := SortEndpoints(SelectedIssues(SetOf(facts), issues));
    EntriesArePaired(facts, keys, version);
    PairedEntries(EntriesFor(facts, keys, version));
  }

  // ----- later issue events -----

  /** Only lifecycle events of issues, each later than every earlier event of its issue. */
  ghost predicate OnlyLaterIssueEvents(late: seq<Fact>, facts: seq<Fact>) {
    forall f :: f in late ==>
      && f.IsIssueEvent(f.Endpoint())
      && forall g :: g in facts && g.IsIssueEvent(f.Endpoint()) ==> g.occurredAt < f.occurredAt
  }

  lemma {:induction false} EventsComeFromFacts(facts: seq<Fact>, k: IssueKey)
    ensures forall e :: e in IssueEvents(facts, k) ==> exists f :: f in facts && f.IsIssueEvent(k) && f.occurredAt == e.at
  {
    CollectOrigins(facts, EventOf(k));
    forall e | e in IssueEvents(facts, k) ensures exists f :: f in facts && f.IsIssueEvent(k) && f.occurredAt == e.at {
      var f :| f in facts && EventOf(k)(f) == Some(e);
    }
  }

  lemma IssueEventsChangeNoDeclaration(facts: set<Fact>, late: set<Fact>, k: IssueKey)
    requires forall f :: f in late ==> f.entityType.IssueEntity?
    ensures DeclarationsFor(facts + late, k) == DeclarationsFor(facts, k)
  {
    hide StatesOf;
    assert ChangeRequests(facts + late) == ChangeRequests(facts);
    forall cr ensures About(facts + late, cr) == About(facts, cr) && MergeTimes(facts + late, cr) == MergeTimes(facts, cr) {}
    assert Merged(facts + late) == Merged(facts);
    forall s ensures Declaring(facts + late, k, s) == Declaring(facts, k, s) {}
  }

  lemma ChainKeepsHistory(facts: seq<Fact>, late: seq<Fact>, all: seq<Fact>, k: IssueKey, version: string)
    requires multiset(all) == multiset(facts) + multiset(late)
    requires OnlyLaterIssueEvents(late, facts)
    ensures KeepsHistory(ChainFor(facts, k, version), ChainFor(all, k, version))
  {
    hide IssueChain, KeepsHistory, DeclarationsFor;
    var a, b, c := IssueEvents(facts, k), IssueEvents(late, k), IssueEvents(all, k);
    assert multiset(all) == multiset(facts + late);
    CollectPermutation(all, facts + late, EventOf(k));
    CollectConcat(facts, late, EventOf(k));
    EventsComeFromFacts(facts, k);
    EventsComeFromFacts(late, k);
    forall x, y | x in a && y in b ensures x.at < y.at {
      var f :| f in facts && f.IsIssueEvent(k) && f.occurredAt == x.at;
      var g :| g in late && g.IsIssueEvent(k) && g.occurredAt == y.at;
      assert g.Endpoint() == k;
    }
    SameSet(facts, late, all);
    IssueEventsChangeNoDeclaration(SetOf(facts), SetOf(late), k);
    HistoryIsStable(k, a, b, c, DeclarationsFor(SetOf(facts), k), version);
  }

  lemma SameSet(facts: seq<Fact>, late: seq<Fact>, all: seq<Fact>)
    requires multiset(all) == multiset(facts) + multiset(late)
    ensures SetOf(all) == SetOf(facts) + SetOf(late)
  {
    forall f ensures f in all <==> f in facts || f in late {
      assert f in all <==> f in multiset(all);
      assert f in facts <==> f in multiset(facts);
      assert f in late <==> f in multiset(late);
    }
  }

  /** Every closed episode of `was` is still in place in `now`; at most its status has become
      superseded. */
  ghost predicate KeepsEpisodes(was: seq<Episode>, now: seq<Episode>) {
    forall i :: 0 <= i < |was| && was[i].closedAt.Some? ==>
                  && i < |now|
                  && now[i] == was[i].(status := now[i].status)
                  && (now[i].status == was[i].status || now[i].status == Superseded)
  }

  /** Only the last entry of a chain can be open, and an open one has no record. */
  ghost predicate ClosedButLast(c: seq<Entry>) {
    && (forall i :: 0 <= i < |c| - 1 ==> c[i].0.closedAt.Some?)
    && (forall i :: 0 <= i < |c| && c[i].0.closedAt.None? ==> c[i].1.None?)
  }

  lemma ChainIsClosedButLast(facts: seq<Fact>, k: IssueKey, version: string)
    ensures ClosedButLast(ChainFor(facts, k, version))
  {
    hide IssueChain, Chronological, RightVerdict, CurrentStatus, EndsOpen, CloseTimes, SortEvents, Sort;
    hide DeclarationsFor, IssueEvents;
    var events, d := IssueEvents(facts, k), DeclarationsFor(SetOf(facts), k);
    EpisodeChainShape(k, events, d, version);
    EveryCloseHasOneVerdict(k, events, d, version);
    OnlyLastIsOpen(IssueChain(k, events, d, version), Sort(CloseTimes(events), IntLe), d);
  }

  lemma OnlyLastIsOpen(c: seq<Entry>, closes: seq<int>, d: Declarations)
    requires |closes| <= |c| <= |closes| + 1
    requires forall i :: 0 <= i < |c| ==> c[i].0.closedAt == if i < |closes| then Some(closes[i]) else None
    requires forall e :: e in c ==> OneVerdict(e, d)
    ensures ClosedButLast(c)
  {
    hide RightVerdict;
    assert forall i :: 0 <= i < |c| ==> OneVerdict(c[i], d);
  }

  lemma {:induction false} SameRecords(a: seq<Entry>, b: seq<Entry>)
    requires |a| == |b| && forall i :: 0 <= i < |a| ==> a[i].1 == b[i].1
    ensures Collect(a, RecordIn) == Collect(b, RecordIn)
  {
    if a != [] {
      SameRecords(a[..|a| - 1], b[..|b| - 1]);
    }
  }

  lemma SameClosedRecords(was: seq<Entry>, now: seq<Entry>, n: nat)
    requires n <= |was| && KeepsHistory(was, now) && forall i :: 0 <= i < n ==> was[i].0.closedAt.Some?
    ensures n <= |now| && Collect(was[..n], RecordIn) == Collect(now[..n], RecordIn)
  {
    hide Collect;
    assert n > 0 ==> was[n - 1].0.closedAt.Some?;
    SameRecords(was[..n], now[..n]);
  }

  lemma RecordsKept(was: seq<Entry>, now: seq<Entry>)
    requires ClosedButLast(was) && KeepsHistory(was, now)
    ensures Collect(was, RecordIn) <= Collect(now, RecordIn)
  {
    hide Collect, KeepsHistory;
    var n := if was != [] && was[|was| - 1].0.closedAt.None? then |was| - 1 else |was|;
    SameClosedRecords(was, now, n);
    CollectConcat(now[..n], now[n..], RecordIn);
    assert now == now[..n] + now[n..];
    if n == |was| {
      assert was[..n] == was;
    } else {
      NoRecordLast(was);
    }
  }

  lemma NoRecordLast(c: seq<Entry>)
    requires c != [] && c[|c| - 1].1.None?
    ensures Collect(c, RecordIn) == Collect(c[..|c| - 1], RecordIn)
  {
    assert Collect(c[..|c| - 1], RecordIn) + [] == Collect(c[..|c| - 1], RecordIn);
  }

  lemma EpisodesKept(was: seq<Entry>, now: seq<Entry>)
    requires KeepsHistory(was, now)
    ensures KeepsEpisodes(Collect(was, EpisodeIn), Collect(now, EpisodeIn))
  {
    EveryEntryAnEpisode(was);
    EveryEntryAnEpisode(now);
  }

  /** History is stable: with the change-request facts unchanged, issue events strictly later
      than those of their issue, delivered at any point, keep every earlier closed episode of a
      projection and every earlier unresolved record in place; at most an episode's status
      becomes superseded. */
  lemma LaterIssueEventsKeepHistory(facts: seq<Fact>, late: seq<Fact>, all: seq<Fact>, issues: Option<set<IssueKey>>,
                                    k: IssueKey, version: string)
    requires multiset(all) == multiset(facts) + multiset(late)
    requires OnlyLaterIssueEvents(late, facts)
    ensures var before, after := Project(facts, issues, version), Project(all, issues, version);
            && KeepsEpisodes(EpisodesOf(before, k), EpisodesOf(after, k))
            && RecordsOf(before, k) <= RecordsOf(after, k)
  {
    IssueInProjection(facts, issues, k, version);
    IssueInProjection(all, issues, k, version);
    hide Project, ChainFor, KeepsHistory, KeepsEpisodes;
    ChainKeepsHistory(facts, late, all, k, version);
    ChainIsClosedButLast(facts, k, version);
    EpisodesKept(ChainFor(facts, k, version), ChainFor(all, k, version));
    RecordsKept(ChainFor(facts, k, version), ChainFor(all, k, version));
    NothingKept();
  }

  lemma NothingKept()
    ensures KeepsEpisodes(Collect([], EpisodeIn), Collect([], EpisodeIn))
  {
  }
}
