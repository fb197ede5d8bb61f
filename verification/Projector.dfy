/** The closure-episode projector: what it derives from the facts, and the source's pass
    over its dictionaries, proved to derive exactly that. */
module Projector {
  import opened Options
  import opened Sorting
  import opened Sequences
  import opened ClosureModel
  import opened LinkStates
  import opened Episodes

  // ----- what is derived -----

  function EventOf(k: IssueKey): Fact -> Option<IssueEvent> {
    (f: Fact) => if f.IsIssueEvent(k) then Some(IssueEvent(f.occurredAt, f.eventType.kind)) else None
  }

  /** The events of the issue `k`, in delivery order. */
  function IssueEvents(facts: seq<Fact>, k: IssueKey): seq<IssueEvent> {
    Collect(facts, EventOf(k))
  }

  function IssuesWithEvents(facts: set<Fact>): set<IssueKey> {
    set f | f in facts && f.IsIssueEvent(f.Endpoint()) :: f.Endpoint()
  }

  function ChangeRequests(facts: set<Fact>): set<ChangeRequestKey> {
    set f | f in facts && f.entityType.ChangeRequestEntity? :: f.Endpoint()
  }

  function About(facts: set<Fact>, cr: ChangeRequestKey): set<Fact> {
    set f | f in facts && f.IsAboutChangeRequest(cr)
  }

  function StatesFor(facts: set<Fact>, cr: ChangeRequestKey): map<LinkKey, LinkState> {
    StatesOf(About(facts, cr))
  }

  function MergeTimes(facts: set<Fact>, cr: ChangeRequestKey): set<int> {
    set f | f in facts && f.IsAboutChangeRequest(cr) && f.eventType.ChangeRequestMerged? :: f.occurredAt
  }

  /** The change requests that merged, each with its earliest merge. */
  function Merged(facts: set<Fact>): map<ChangeRequestKey, int> {
    map cr | cr in ChangeRequests(facts) && MergeTimes(facts, cr) != {} :: Least(MergeTimes(facts, cr), IntLe)
  }

  function DeclarationOf(k: IssueKey): LinkKey {
    LinkKey(DeclaresClosure, k.repository, k.externalId)
  }

  /** Whether `states`, those of `cr`, hold a declaration of `k` in state `s`. */
  predicate Declares(cr: ChangeRequestKey, states: map<LinkKey, LinkState>, k: IssueKey, s: LinkState) {
    cr.provider == k.provider && DeclarationOf(k) in states && states[DeclarationOf(k)] == s
  }

  function Declaring(facts: set<Fact>, k: IssueKey, s: LinkState): set<ChangeRequestKey> {
    set cr | cr in ChangeRequests(facts) && Declares(cr, StatesFor(facts, cr), k, s)
  }

  function IssuesOf(cr: ChangeRequestKey, states: map<LinkKey, LinkState>, s: LinkState): set<IssueKey> {
    set l | l in states && l.kind.DeclaresClosure? && states[l] == s
      :: EndpointKey(cr.provider, l.repository, l.externalId)
  }

  /** The issues with a declaration in state `s`. */
  function DeclaredIssues(facts: set<Fact>, s: LinkState): set<IssueKey> {
    set cr, k | cr in ChangeRequests(facts) && k in IssuesOf(cr, StatesFor(facts, cr), s) :: k
  }

  function AllIssues(facts: set<Fact>): set<IssueKey> {
    IssuesWithEvents(facts) + DeclaredIssues(facts, Active) + DeclaredIssues(facts, Parked)
  }

  function SelectedIssues(facts: set<Fact>, issues: Option<set<IssueKey>>): set<IssueKey> {
    if issues.Some? then AllIssues(facts) * issues.value else AllIssues(facts)
  }

  function DeclarationsFor(facts: set<Fact>, k: IssueKey): Declarations {
    Declarations(Declaring(facts, k, Active), Declaring(facts, k, Parked), Merged(facts))
  }

  function ChainFor(facts: seq<Fact>, k: IssueKey, version: string): seq<Entry> {
    IssueChain(k, IssueEvents(facts, k), DeclarationsFor(SetOf(facts), k), version)
  }

  function EntriesFor(facts: seq<Fact>, keys: seq<IssueKey>, version: string): seq<Entry> {
    if keys == [] then []
    else EntriesFor(facts, keys[..|keys| - 1], version) + ChainFor(facts, keys[|keys| - 1], version)
  }

  function EpisodeIn(e: Entry): Option<Episode> {
    Some(e.0)
  }

  function RecordIn(e: Entry): Option<Unresolved> {
    e.1
  }

  function LinkOf(cr: ChangeRequestKey, states: map<LinkKey, LinkState>, version: string): LinkKey -> Option<Link> {
    (l: LinkKey) =>
      if l in states
      then Some(Link(cr, EndpointKey(cr.provider, l.repository, l.externalId), l.kind, states[l], version))
      else None
  }

  function LinksOfChangeRequest(cr: ChangeRequestKey, states: map<LinkKey, LinkState>, version: string): seq<Link> {
    Collect(SortLinks(states.Keys), LinkOf(cr, states, version))
  }

  function LinksFor(facts: set<Fact>, crs: seq<ChangeRequestKey>, version: string): seq<Link> {
    if crs == [] then []
    else
      LinksFor(facts, crs[..|crs| - 1], version)
      + LinksOfChangeRequest(crs[|crs| - 1], StatesFor(facts, crs[|crs| - 1]), version)
  }

  function Project(facts: seq<Fact>, issues: Option<set<IssueKey>>, version: string): Projection {
    var all := SetOf(facts);
    var entries := EntriesFor(facts, SortEndpoints(SelectedIssues(all, issues)), version);
    Projection(LinksFor(all, SortEndpoints(ChangeRequests(all)), version),
               Collect(entries, EpisodeIn), Collect(entries, RecordIn), version)
  }

  // ----- the source's dictionaries -----

  function Get<K, V>(m: map<K, seq<V>>, k: K): seq<V> {
    if k in m then m[k] else []
  }

  ghost predicate HoldsEvents(m: map<IssueKey, seq<IssueEvent>>, facts: seq<Fact>) {
    && m.Keys == IssuesWithEvents(SetOf(facts))
    && forall k :: Get(m, k) == IssueEvents(facts, k)
  }

  ghost predicate HoldsFacts(m: map<ChangeRequestKey, seq<Fact>>, facts: set<Fact>) {
    && m.Keys == ChangeRequests(facts)
    && forall cr :: cr in m ==> SetOf(m[cr]) == About(facts, cr)
  }

  ghost predicate HoldsMerges(m: map<ChangeRequestKey, int>, facts: set<Fact>) {
    && (forall cr :: cr in m <==> MergeTimes(facts, cr) != {})
    && (forall cr :: cr in m ==> IsLeast(m[cr], MergeTimes(facts, cr), IntLe))
  }

  lemma MergesAreMerged(m: map<ChangeRequestKey, int>, facts: set<Fact>)
    requires HoldsMerges(m, facts)
    ensures m == Merged(facts)
  {
    forall cr | cr in m ensures cr in ChangeRequests(facts) {
      var t :| t in MergeTimes(facts, cr);
    }
    forall cr | cr in m ensures m[cr] == Merged(facts)[cr] {
      var t := Least(MergeTimes(facts, cr), IntLe);
      assert IntLe(t, m[cr]) && IntLe(m[cr], t);
    }
  }

  lemma AddEvent(m: map<IssueKey, seq<IssueEvent>>, facts: seq<Fact>, f: Fact)
    requires HoldsEvents(m, facts) && f.IsIssueEvent(f.Endpoint())
    ensures HoldsEvents(m[f.Endpoint() := Get(m, f.Endpoint()) + [IssueEvent(f.occurredAt, f.eventType.kind)]],
                        facts + [f])
  {
    assert SetOf(facts + [f]) == SetOf(facts) + {f};
    hide IssueEvents;
    forall k ensures IssueEvents(facts + [f], k)
                     == IssueEvents(facts, k) + if f.IsIssueEvent(k) then [IssueEvent(f.occurredAt, f.eventType.kind)] else []
    {
      CollectAppend(facts, f, k);
    }
  }

  lemma CollectAppend(facts: seq<Fact>, f: Fact, k: IssueKey)
    ensures IssueEvents(facts + [f], k)
            == IssueEvents(facts, k) + if f.IsIssueEvent(k) then [IssueEvent(f.occurredAt, f.eventType.kind)] else []
  {
    assert (facts + [f])[..|facts|] == facts;
  }

  lemma SkipEvent(m: map<IssueKey, seq<IssueEvent>>, facts: seq<Fact>, f: Fact)
    requires HoldsEvents(m, facts) && !f.IsIssueEvent(f.Endpoint())
    ensures HoldsEvents(m, facts + [f])
  {
    assert SetOf(facts + [f]) == SetOf(facts) + {f};
    forall k ensures IssueEvents(facts + [f], k) == IssueEvents(facts, k) {
      CollectAppend(facts, f, k);
    }
  }

  lemma AddFact(m: map<ChangeRequestKey, seq<Fact>>, facts: set<Fact>, f: Fact)
    requires HoldsFacts(m, facts) && f.entityType.ChangeRequestEntity?
    ensures HoldsFacts(m[f.Endpoint() := Get(m, f.Endpoint()) + [f]], facts + {f})
  {
    var cr := f.Endpoint();
    assert SetOf(Get(m, cr) + [f]) == SetOf(Get(m, cr)) + {f};
    assert SetOf(Get(m, cr)) == About(facts, cr);
    assert About(facts + {f}, cr) == About(facts, cr) + {f};
    forall other | other != cr ensures About(facts + {f}, other) == About(facts, other) {}
  }

  lemma SkipFact(m: map<ChangeRequestKey, seq<Fact>>, merged: map<ChangeRequestKey, int>, facts: set<Fact>, f: Fact)
    requires HoldsFacts(m, facts) && HoldsMerges(merged, facts) && !f.entityType.ChangeRequestEntity?
    ensures HoldsFacts(m, facts + {f}) && HoldsMerges(merged, facts + {f})
  {
    forall cr ensures About(facts + {f}, cr) == About(facts, cr)
                      && MergeTimes(facts + {f}, cr) == MergeTimes(facts, cr) {}
  }

  lemma MergeTimesStep(facts: set<Fact>, f: Fact, cr: ChangeRequestKey)
    ensures MergeTimes(facts + {f}, cr)
            == MergeTimes(facts, cr)
               + if f.IsAboutChangeRequest(cr) && f.eventType.ChangeRequestMerged? then {f.occurredAt} else {}
  {
  }

  lemma AddMerge(m: map<ChangeRequestKey, int>, facts: set<Fact>, f: Fact)
    requires HoldsMerges(m, facts) && f.entityType.ChangeRequestEntity?
    ensures var cr := f.Endpoint();
            if f.eventType.ChangeRequestMerged? && (cr !in m || f.occurredAt < m[cr])
            then HoldsMerges(m[cr := f.occurredAt], facts + {f})
            else HoldsMerges(m, facts + {f})
  {
    hide MergeTimes;
    forall cr ensures MergeTimes(facts + {f}, cr)
                      == MergeTimes(facts, cr)
                         + if f.eventType.ChangeRequestMerged? && cr == f.Endpoint() then {f.occurredAt} else {}
    {
      MergeTimesStep(facts, f, cr);
    }
  }

  /** The first pass of `project_closure_episodes`. */
  method ReadFacts(facts: seq<Fact>)
    returns (crFacts: map<ChangeRequestKey, seq<Fact>>, crMerged: map<ChangeRequestKey, int>,
             issueEvents: map<IssueKey, seq<IssueEvent>>)
    ensures HoldsFacts(crFacts, SetOf(facts))
    ensures crMerged == Merged(SetOf(facts))
    ensures HoldsEvents(issueEvents, facts)
  {
    crFacts, crMerged, issueEvents := map[], map[], map[];
    for i := 0 to |facts|
      invariant HoldsFacts(crFacts, SetOf(facts[..i]))
      invariant HoldsMerges(crMerged, SetOf(facts[..i]))
      invariant HoldsEvents(issueEvents, facts[..i])
    {
      hide HoldsFacts, HoldsMerges, HoldsEvents;
      var fact := facts[i];
      assert facts[..i + 1] == facts[..i] + [fact];
      assert SetOf(facts[..i + 1]) == SetOf(facts[..i]) + {fact};
      var key := fact.Endpoint();
      if fact.entityType.IssueEntity? {
        SkipFact(crFacts, crMerged, SetOf(facts[..i]), fact);
        if fact.eventType.IssueLifecycle? {
          AddEvent(issueEvents, facts[..i], fact);
          issueEvents := issueEvents[key := Get(issueEvents, key) + [IssueEvent(fact.occurredAt, fact.eventType.kind)]];
        } else {
          SkipEvent(issueEvents, facts[..i], fact);
        }
        continue;
      }
      SkipEvent(issueEvents, facts[..i], fact);
      if fact.entityType.ChangeRequestEntity? {
        AddFact(crFacts, SetOf(facts[..i]), fact);
        AddMerge(crMerged, SetOf(facts[..i]), fact);
        crFacts := crFacts[key := Get(crFacts, key) + [fact]];
        if fact.eventType.ChangeRequestMerged? {
          if key !in crMerged || fact.occurredAt < crMerged[key] {
            crMerged := crMerged[key := fact.occurredAt];
          }
        }
      } else {
        SkipFact(crFacts, crMerged, SetOf(facts[..i]), fact);
      }
    }
    assert facts[..|facts|] == facts;
    MergesAreMerged(crMerged, SetOf(facts));
  }

  ghost predicate HoldsStates(m: map<ChangeRequestKey, map<LinkKey, LinkState>>, facts: set<Fact>) {
    m.Keys == ChangeRequests(facts) && forall cr :: cr in m ==> m[cr] == StatesFor(facts, cr)
  }

  method DeriveAllStates(crFacts: map<ChangeRequestKey, seq<Fact>>, ghost facts: set<Fact>)
    returns (states: map<ChangeRequestKey, map<LinkKey, LinkState>>)
    requires HoldsFacts(crFacts, facts)
    ensures HoldsStates(states, facts)
  {
    states := map[];
    var todo := crFacts.Keys;
    while todo != {}
      invariant todo <= crFacts.Keys
      invariant states.Keys == crFacts.Keys - todo
      invariant forall cr :: cr in states ==> states[cr] == StatesFor(facts, cr)
      decreases todo
    {
      var cr :| cr in todo;
      var s := DeriveLinkStates(crFacts[cr]);
      states := states[cr := s];
      todo := todo - {cr};
    }
  }

  /** A bucket of declaring change requests lists, for every issue, exactly `wanted`. */
  ghost predicate Bucket(m: map<IssueKey, seq<ChangeRequestKey>>, wanted: IssueKey -> set<ChangeRequestKey>) {
    && (forall k :: k in m ==> m[k] != [])
    && (forall k :: SetOf(Get(m, k)) == wanted(k))
  }

  ghost function DeclaredBy(facts: set<Fact>, crs: set<ChangeRequestKey>, s: LinkState)
    : IssueKey -> set<ChangeRequestKey>
  {
    (k: IssueKey) => set cr | cr in crs && Declares(cr, StatesFor(facts, cr), k, s)
  }

  ghost function AndOne(w: IssueKey -> set<ChangeRequestKey>, cr: ChangeRequestKey,
                        states: map<LinkKey, LinkState>, links: set<LinkKey>, s: LinkState)
    : IssueKey -> set<ChangeRequestKey>
  {
    (k: IssueKey) => w(k) + if DeclarationOf(k) in links && Declares(cr, states, k, s) then {cr} else {}
  }

  /** Having read the link `l` too adds a declaration for at most the issue it names. */
  lemma OneMoreDeclaration(cr: ChangeRequestKey, states: map<LinkKey, LinkState>, done: set<LinkKey>, l: LinkKey,
                           s: LinkState, k: IssueKey)
    requires l in states
    ensures var key := EndpointKey(cr.provider, l.repository, l.externalId);
            DeclarationOf(k) in done + {l} && Declares(cr, states, k, s)
            <==> (DeclarationOf(k) in done && Declares(cr, states, k, s))
                 || (k == key && l.kind.DeclaresClosure? && states[l] == s)
  {
    if DeclarationOf(k) == l && cr.provider == k.provider {
      assert k == EndpointKey(cr.provider, l.repository, l.externalId);
    }
  }

  lemma PutInBucket(m: map<IssueKey, seq<ChangeRequestKey>>, w: IssueKey -> set<ChangeRequestKey>,
                    cr: ChangeRequestKey, states: map<LinkKey, LinkState>, done: set<LinkKey>, l: LinkKey,
                    s: LinkState)
    requires Bucket(m, AndOne(w, cr, states, done, s)) && l in states
    ensures if l.kind.DeclaresClosure? && states[l] == s
            then var k := EndpointKey(cr.provider, l.repository, l.externalId);
                 Bucket(m[k := Get(m, k) + [cr]], AndOne(w, cr, states, done + {l}, s))
            else Bucket(m, AndOne(w, cr, states, done + {l}, s))
  {
    var key := EndpointKey(cr.provider, l.repository, l.externalId);
    forall k ensures AndOne(w, cr, states, done + {l}, s)(k)
                     == AndOne(w, cr, states, done, s)(k)
                        + if k == key && l.kind.DeclaresClosure? && states[l] == s then {cr} else {}
    {
      OneMoreDeclaration(cr, states, done, l, s, k);
    }
    assert SetOf(Get(m, key) + [cr]) == SetOf(Get(m, key)) + {cr};
  }

  /** The inner loop: one change request's declarations go into the two buckets. */
  method AddDeclarations(cr: ChangeRequestKey, states: map<LinkKey, LinkState>,
                         active0: map<IssueKey, seq<ChangeRequestKey>>,
                         parked0: map<IssueKey, seq<ChangeRequestKey>>,
                         ghost w: IssueKey -> set<ChangeRequestKey>, ghost v: IssueKey -> set<ChangeRequestKey>)
    returns (active: map<IssueKey, seq<ChangeRequestKey>>, parked: map<IssueKey, seq<ChangeRequestKey>>)
    requires Bucket(active0, w) && Bucket(parked0, v)
    ensures Bucket(active, AndOne(w, cr, states, states.Keys, Active))
    ensures Bucket(parked, AndOne(v, cr, states, states.Keys, Parked))
  {
    active, parked := active0, parked0;
    var todo := states.Keys;
    while todo != {}
      invariant todo <= states.Keys
      invariant Bucket(active, AndOne(w, cr, states, states.Keys - todo, Active))
      invariant Bucket(parked, AndOne(v, cr, states, states.Keys - todo, Parked))
      decreases todo
    {
      hide Bucket, AndOne;
      var l :| l in todo;
      PutInBucket(active, w, cr, states, states.Keys - todo, l, Active);
      PutInBucket(parked, v, cr, states, states.Keys - todo, l, Parked);
      assert states.Keys - todo + {l} == states.Keys - (todo - {l});
      todo := todo - {l};
      if l.kind != DeclaresClosure || states[l] == Revoked {
        continue;
      }
      var k := EndpointKey(cr.provider, l.repository, l.externalId);
      if states[l] == Active {
        active := active[k := Get(active, k) + [cr]];
      } else {
        parked := parked[k := Get(parked, k) + [cr]];
      }
    }
    assert states.Keys - {} == states.Keys;
  }

  lemma NextChangeRequest(m: map<IssueKey, seq<ChangeRequestKey>>, facts: set<Fact>,
                          done: set<ChangeRequestKey>, cr: ChangeRequestKey, s: LinkState)
    requires var states := StatesFor(facts, cr);
             Bucket(m, AndOne(DeclaredBy(facts, done, s), cr, states, states.Keys, s))
    ensures Bucket(m, DeclaredBy(facts, done + {cr}, s))
  {
    hide StatesFor, Declares;
    var states := StatesFor(facts, cr);
    forall k ensures DeclaredBy(facts, done + {cr}, s)(k)
                     == AndOne(DeclaredBy(facts, done, s), cr, states, states.Keys, s)(k) {
      DeclaredIsKnown(cr, states, k, s);
    }
  }

  lemma DeclaredIsKnown(cr: ChangeRequestKey, states: map<LinkKey, LinkState>, k: IssueKey, s: LinkState)
    ensures Declares(cr, states, k, s) ==> DeclarationOf(k) in states.Keys
  {
  }

  /** Which change requests declare the closure of which issue. */
  method FillBuckets(states: map<ChangeRequestKey, map<LinkKey, LinkState>>, ghost facts: set<Fact>)
    returns (active: map<IssueKey, seq<ChangeRequestKey>>, parked: map<IssueKey, seq<ChangeRequestKey>>)
    requires HoldsStates(states, facts)
    ensures active.Keys == DeclaredIssues(facts, Active) && parked.Keys == DeclaredIssues(facts, Parked)
    ensures forall k :: SetOf(Get(active, k)) == Declaring(facts, k, Active)
    ensures forall k :: SetOf(Get(parked, k)) == Declaring(facts, k, Parked)
  {
    active, parked := map[], map[];
    var todo := states.Keys;
    while todo != {}
      invariant todo <= states.Keys
      invariant Bucket(active, DeclaredBy(facts, states.Keys - todo, Active))
      invariant Bucket(parked, DeclaredBy(facts, states.Keys - todo, Parked))
      decreases todo
    {
      hide Bucket, AndOne, DeclaredBy;
      var cr :| cr in todo;
      ghost var done := states.Keys - todo;
      active, parked := AddDeclarations(cr, states[cr], active, parked,
                                        DeclaredBy(facts, done, Active), DeclaredBy(facts, done, Parked));
      NextChangeRequest(active, facts, done, cr, Active);
      NextChangeRequest(parked, facts, done, cr, Parked);
      assert done + {cr} == states.Keys - (todo - {cr});
      todo := todo - {cr};
    }
    BucketOfAll(active, facts, Active);
    BucketOfAll(parked, facts, Parked);
  }

  lemma BucketOfAll(m: map<IssueKey, seq<ChangeRequestKey>>, facts: set<Fact>, s: LinkState)
    requires Bucket(m, DeclaredBy(facts, ChangeRequests(facts), s))
    ensures m.Keys == DeclaredIssues(facts, s)
    ensures forall k :: SetOf(Get(m, k)) == Declaring(facts, k, s)
  {
    forall k ensures SetOf(Get(m, k)) == Declaring(facts, k, s) && (k in m <==> Declaring(facts, k, s) != {}) {
      assert DeclaredBy(facts, ChangeRequests(facts), s)(k) == Declaring(facts, k, s);
      if k in m {
        assert m[k][0] in SetOf(m[k]);
      }
    }
    forall k ensures Declaring(facts, k, s) != {} <==> k in DeclaredIssues(facts, s) {
      DeclaredIffDeclaring(facts, k, s);
    }
  }

  lemma DeclaredIffDeclaring(facts: set<Fact>, k: IssueKey, s: LinkState)
    ensures Declaring(facts, k, s) != {} <==> k in DeclaredIssues(facts, s)
  {
    hide StatesFor, Declares, IssuesOf;
    if Declaring(facts, k, s) != {} {
      var cr :| cr in Declaring(facts, k, s);
      DeclaresIffIssue(cr, StatesFor(facts, cr), k, s);
    }
    if k in DeclaredIssues(facts, s) {
      var cr :| cr in ChangeRequests(facts) && k in IssuesOf(cr, StatesFor(facts, cr), s);
      DeclaresIffIssue(cr, StatesFor(facts, cr), k, s);
      assert cr in Declaring(facts, k, s);
    }
  }

  lemma DeclaresIffIssue(cr: ChangeRequestKey, states: map<LinkKey, LinkState>, k: IssueKey, s: LinkState)
    ensures Declares(cr, states, k, s) <==> k in IssuesOf(cr, states, s)
  {
    if Declares(cr, states, k, s) {
      assert k == EndpointKey(cr.provider, DeclarationOf(k).repository, DeclarationOf(k).externalId);
    }
  }

  /** One issue's episodes and records go to the end of the output. */
  method AppendChain(episodes0: seq<Episode>, unresolved0: seq<Unresolved>, chain: seq<Entry>)
    returns (episodes: seq<Episode>, unresolved: seq<Unresolved>)
    ensures episodes == episodes0 + Collect(chain, EpisodeIn)
    ensures unresolved == unresolved0 + Collect(chain, RecordIn)
  {
    episodes, unresolved := episodes0, unresolved0;
    for j := 0 to |chain|
      invariant episodes == episodes0 + Collect(chain[..j], EpisodeIn)
      invariant unresolved == unresolved0 + Collect(chain[..j], RecordIn)
    {
      CollectStep(chain, j, EpisodeIn);
      CollectStep(chain, j, RecordIn);
      episodes := episodes + [chain[j].0];
      if chain[j].1.Some? {
        unresolved := unresolved + [chain[j].1.value];
      }
    }
    assert chain[..|chain|] == chain;
  }

  /** The episode pass: every selected issue in order. */
  method EpisodesAndRecords(order: seq<IssueKey>, issueEvents: map<IssueKey, seq<IssueEvent>>,
                            active: map<IssueKey, seq<ChangeRequestKey>>,
                            parked: map<IssueKey, seq<ChangeRequestKey>>,
                            crMerged: map<ChangeRequestKey, int>, version: string, ghost facts: seq<Fact>)
    returns (episodes: seq<Episode>, unresolved: seq<Unresolved>)
    requires HoldsEvents(issueEvents, facts) && crMerged == Merged(SetOf(facts))
    requires forall k :: SetOf(Get(active, k)) == Declaring(SetOf(facts), k, Active)
    requires forall k :: SetOf(Get(parked, k)) == Declaring(SetOf(facts), k, Parked)
    ensures episodes == Collect(EntriesFor(facts, order, version), EpisodeIn)
    ensures unresolved == Collect(EntriesFor(facts, order, version), RecordIn)
  {
    episodes, unresolved := [], [];
    for i := 0 to |order|
      invariant episodes == Collect(EntriesFor(facts, order[..i], version), EpisodeIn)
      invariant unresolved == Collect(EntriesFor(facts, order[..i], version), RecordIn)
    {
      hide IssueChain;
      var k := order[i];
      var d := Declarations(SetOf(Get(active, k)), SetOf(Get(parked, k)), crMerged);
      var chain := ProjectIssueEpisodes(k, Get(issueEvents, k), d, version);
      assert chain == ChainFor(facts, k, version);
      assert order[..i + 1][..i] == order[..i];
      ghost var entries := EntriesFor(facts, order[..i], version);
      CollectConcat(entries, chain, EpisodeIn);
      CollectConcat(entries, chain, RecordIn);
      episodes, unresolved := AppendChain(episodes, unresolved, chain);
    }
    assert order[..|order|] == order;
  }

  method AppendLinks(links0: seq<Link>, cr: ChangeRequestKey, states: map<LinkKey, LinkState>, version: string)
    returns (links: seq<Link>)
    ensures links == links0 + LinksOfChangeRequest(cr, states, version)
  {
    hide Sorted, LinkLe, SortLinks;
    links := links0;
    var keys := SortLinks(states.Keys);
    LinkMembers(states.Keys);
    for j := 0 to |keys|
      invariant links == links0 + Collect(keys[..j], LinkOf(cr, states, version))
    {
      var l := keys[j];
      CollectStep(keys, j, LinkOf(cr, states, version));
      links := links + [Link(cr, EndpointKey(cr.provider, l.repository, l.externalId), l.kind, states[l], version)];
    }
    assert keys[..|keys|] == keys;
  }

  /** The link pass: every change request in order, every link of it in order. */
  method AllLinks(states: map<ChangeRequestKey, map<LinkKey, LinkState>>, version: string, ghost facts: set<Fact>)
    returns (links: seq<Link>)
    requires HoldsStates(states, facts)
    ensures links == LinksFor(facts, SortEndpoints(ChangeRequests(facts)), version)
  {
    hide Sorted, EndpointLe, SortEndpoints, StatesFor, LinksOfChangeRequest;
    links := [];
    var crs := SortEndpoints(states.Keys);
    EndpointMembers(states.Keys);
    for i := 0 to |crs|
      invariant links == LinksFor(facts, crs[..i], version)
    {
      var cr := crs[i];
      assert crs[..i + 1][..i] == crs[..i];
      links := AppendLinks(links, cr, states[cr], version);
    }
    assert crs[..|crs|] == crs;
  }

  method ProjectClosureEpisodes(facts: seq<Fact>, issues: Option<set<IssueKey>>, version: string)
    returns (p: Projection)
    ensures p == Project(facts, issues, version)
  {
    var crFacts, crMerged, issueEvents := ReadFacts(facts);
    ghost var all := SetOf(facts);
    var states := DeriveAllStates(crFacts, all);
    var active, parked := FillBuckets(states, all);
    var keys := issueEvents.Keys + active.Keys + parked.Keys;
    if issues.Some? {
      keys := keys * issues.value;
    }
    var episodes, unresolved :=
      EpisodesAndRecords(SortEndpoints(keys), issueEvents, active, parked, crMerged, version, facts);
    var links := AllLinks(states, version, all);
    p := Projection(links, episodes, unresolved, version);
  }
}
