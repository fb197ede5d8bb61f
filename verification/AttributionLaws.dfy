/** What one more change-request fact does to the attributions of past closes.  The models
    promise that historical attribution never changes; the final declarations decide every
    close, old ones too, and this says exactly when an attribution survives. */
module AttributionLaws {
  import opened Options
  import opened Sorting
  import opened Sequences
  import opened ClosureModel
  import opened LinkStates
  import opened Episodes
  import opened EpisodeLaws
  import opened Projector
  import opened ProjectorLaws

  // ----- the role of one change request -----

  /** The change requests that are eligible, with an active or a parked declaration of `k`, for
      a close at `t`. */
  function EligibleFor(facts: set<Fact>, k: IssueKey, s: LinkState, t: int): set<ChangeRequestKey> {
    Eligible(Declaring(facts, k, s), Merged(facts), t)
  }

  /** The role of `cr`, read from its own facts alone: its final declaration of `k` is in the
      state `s`, and it merged strictly before `t`. */
  ghost predicate EligibleAs(own: set<Fact>, cr: ChangeRequestKey, k: IssueKey, s: LinkState, t: int) {
    && Declares(cr, StatesOf(own), k, s)
    && exists f :: f in own && f.eventType.ChangeRequestMerged? && f.occurredAt < t
  }

  lemma MergedBefore(facts: set<Fact>, cr: ChangeRequestKey, t: int)
    ensures cr in Merged(facts) && Merged(facts)[cr] < t
            <==> exists f :: f in About(facts, cr) && f.eventType.ChangeRequestMerged? && f.occurredAt < t
  {
    MergesFromAbout(facts, cr);
    var times := MergeTimes(facts, cr);
    if f :| f in About(facts, cr) && f.eventType.ChangeRequestMerged? && f.occurredAt < t {
      assert f.occurredAt in times && cr in ChangeRequests(facts);
      assert IntLe(Least(times, IntLe), f.occurredAt);
    }
    if cr in Merged(facts) && Merged(facts)[cr] < t {
      assert Merged(facts)[cr] in times;
    }
  }

  lemma EligibleByOwnFacts(facts: set<Fact>, cr: ChangeRequestKey, k: IssueKey, s: LinkState, t: int)
    ensures cr in EligibleFor(facts, k, s, t) <==> EligibleAs(About(facts, cr), cr, k, s, t)
  {
    hide StatesOf, Declares, Merged;
    MergedBefore(facts, cr, t);
  }

  /** A fact about one change request leaves the role of every other one alone. */
  lemma OnlyItsOwnRoleMoves(facts: set<Fact>, f: Fact, k: IssueKey, s: LinkState, t: int)
    requires f.entityType.ChangeRequestEntity?
    ensures EligibleFor(facts + {f}, k, s, t) - {f.Endpoint()} == EligibleFor(facts, k, s, t) - {f.Endpoint()}
  {
    hide EligibleFor, EligibleAs;
    forall cr | cr != f.Endpoint() ensures cr in EligibleFor(facts + {f}, k, s, t) <==> cr in EligibleFor(facts, k, s, t) {
      AboutWith(facts, f, cr);
      assert About(facts + {f}, cr) == About(facts, cr);
      EligibleByOwnFacts(facts, cr, k, s, t);
      EligibleByOwnFacts(facts + {f}, cr, k, s, t);
    }
  }

  // ----- one close -----

  /** Whether a close of `k` at `t` keeps its attribution when the fact `f` about a change
      request arrives.  It does if the other change requests, as the old facts show them, leave
      it without one anyway: a parked one is eligible, or two active ones are.  With exactly one
      other active one, it does if the change request of `f` is eligible, in either way, after
      `f` just as before; with no other, if it is eligible as an active one after `f` just as
      before. */
  ghost predicate KeepsAttribution(facts: set<Fact>, f: Fact, k: IssueKey, t: int) {
    var cr := f.Endpoint();
    var before, after := About(facts, cr), About(facts, cr) + {f};
    var active, parked := EligibleFor(facts, k, Active, t) - {cr}, EligibleFor(facts, k, Parked, t) - {cr};
    || parked != {}
    || |active| >= 2
    || (|active| == 1
        && ((EligibleAs(before, cr, k, Active, t) || EligibleAs(before, cr, k, Parked, t))
            <==> (EligibleAs(after, cr, k, Active, t) || EligibleAs(after, cr, k, Parked, t))))
    || (active == {} && (EligibleAs(before, cr, k, Active, t) <==> EligibleAs(after, cr, k, Active, t)))
  }

  /** `a` is the attribution of a close with these eligible change requests. */
  ghost predicate AttributionOf(a: Option<ChangeRequestKey>, active: set<ChangeRequestKey>, parked: set<ChangeRequestKey>) {
    forall cr :: a == Some(cr) <==> active == {cr} && parked == {}
  }

  lemma NotOne(active: set<ChangeRequestKey>, cr: ChangeRequestKey)
    ensures |active - {cr}| >= 2 ==> forall x :: active != {x}
  {
    forall x | active == {x} ensures |active - {cr}| < 2 {
      assert active - {cr} <= {x};
      assert active - {cr} == {} || active - {cr} == {x};
    }
  }

  lemma NoAttribution(a: Option<ChangeRequestKey>, active: set<ChangeRequestKey>, parked: set<ChangeRequestKey>)
    requires AttributionOf(a, active, parked)
    requires parked != {} || forall x :: active != {x}
    ensures a == None
  {
    assert forall x :: a != Some(x);
  }

  /** With one other active candidate and no parked one, `cr` takes the attribution away by
      being eligible in either way. */
  lemma OneOther(a: Option<ChangeRequestKey>, active: set<ChangeRequestKey>, parked: set<ChangeRequestKey>,
                 cr: ChangeRequestKey, x: ChangeRequestKey)
    requires AttributionOf(a, active, parked) && active - {cr} == {x} && parked - {cr} == {}
    ensures a == if cr in active || cr in parked then None else Some(x)
  {
    assert x in active && x != cr;
    if cr in active || cr in parked {
      assert cr in active ==> forall y :: active != {y};
      NoAttribution(a, active, parked);
    } else {
      assert active == {x} && parked == {};
    }
  }

  /** With no other candidate, `cr` has the attribution exactly by being eligible as active. */
  lemma NoOther(a: Option<ChangeRequestKey>, active: set<ChangeRequestKey>, parked: set<ChangeRequestKey>,
                cr: ChangeRequestKey)
    requires AttributionOf(a, active, parked) && active - {cr} == {} && parked - {cr} == {}
    requires cr !in active || cr !in parked
    ensures a == if cr in active then Some(cr) else None
  {
    if cr in active {
      assert active == {cr} && parked == {};
    } else {
      assert active == {};
      NoAttribution(a, active, parked);
    }
  }

  lemma KeptIff(a: Option<ChangeRequestKey>, b: Option<ChangeRequestKey>, cr: ChangeRequestKey,
                active: set<ChangeRequestKey>, parked: set<ChangeRequestKey>,
                active': set<ChangeRequestKey>, parked': set<ChangeRequestKey>)
    requires AttributionOf(a, active, parked) && AttributionOf(b, active', parked')
    requires active - {cr} == active' - {cr} && parked - {cr} == parked' - {cr}
    requires (cr !in active || cr !in parked) && (cr !in active' || cr !in parked')
    ensures a == b <==>
              || parked - {cr} != {}
              || |active - {cr}| >= 2
              || (|active - {cr}| == 1 && ((cr in active || cr in parked) <==> (cr in active' || cr in parked')))
              || (active - {cr} == {} && (cr in active <==> cr in active'))
  {
    hide AttributionOf;
    var others := active - {cr};
    if parked - {cr} != {} {
      NoAttribution(a, active, parked);
      NoAttribution(b, active', parked');
    } else if |others| >= 2 {
      NotOne(active, cr);
      NotOne(active', cr);
      NoAttribution(a, active, parked);
      NoAttribution(b, active', parked');
    } else if |others| == 1 {
      var x := SomeMember(others);
      OneElement(others);
      OneOther(a, active, parked, cr, x);
      OneOther(b, active', parked', cr, x);
    } else {
      assert others == {};
      NoOther(a, active, parked, cr);
      NoOther(b, active', parked', cr);
    }
  }

  lemma SomeMember<T(!new)>(s: set<T>) returns (x: T)
    requires |s| == 1
    ensures x in s
  {
    OneElement(s);
    x :| x in s;
  }

  lemma VerdictAttribution(facts: set<Fact>, k: IssueKey, openedAt: Option<int>, t: int, version: string)
    ensures AttributionOf(ClosedEpisode(k, openedAt, t, DeclarationsFor(facts, k), version).0.attributed,
                          EligibleFor(facts, k, Active, t), EligibleFor(facts, k, Parked, t))
  {
    hide ClosedEpisode, Declaring, Merged;
    VerdictOfClose(k, openedAt, t, DeclarationsFor(facts, k), version);
  }

  lemma NotBothEligible(facts: set<Fact>, k: IssueKey, t: int, cr: ChangeRequestKey)
    ensures cr !in EligibleFor(facts, k, Active, t) || cr !in EligibleFor(facts, k, Parked, t)
  {
    hide StatesFor;
  }

  lemma CloseKeepsAttributionIff(facts: set<Fact>, f: Fact, k: IssueKey, openedAt: Option<int>, t: int, version: string)
    requires f.entityType.ChangeRequestEntity?
    ensures ClosedEpisode(k, openedAt, t, DeclarationsFor(facts, k), version).0.attributed
            == ClosedEpisode(k, openedAt, t, DeclarationsFor(facts + {f}, k), version).0.attributed
            <==> KeepsAttribution(facts, f, k, t)
  {
    hide ClosedEpisode, EligibleFor, EligibleAs, DeclarationsFor, AttributionOf, About;
    var cr := f.Endpoint();
    AboutWith(facts, f, cr);
    forall s ensures cr in EligibleFor(facts, k, s, t) <==> EligibleAs(About(facts, cr), cr, k, s, t) {
      EligibleByOwnFacts(facts, cr, k, s, t);
    }
    forall s ensures cr in EligibleFor(facts + {f}, k, s, t) <==> EligibleAs(About(facts, cr) + {f}, cr, k, s, t) {
      EligibleByOwnFacts(facts + {f}, cr, k, s, t);
    }
    OnlyItsOwnRoleMoves(facts, f, k, Active, t);
    OnlyItsOwnRoleMoves(facts, f, k, Parked, t);
    NotBothEligible(facts, k, t, cr);
    NotBothEligible(facts + {f}, k, t, cr);
    VerdictAttribution(facts, k, openedAt, t, version);
    VerdictAttribution(facts + {f}, k, openedAt, t, version);
    KeptIff(ClosedEpisode(k, openedAt, t, DeclarationsFor(facts, k), version).0.attributed,
            ClosedEpisode(k, openedAt, t, DeclarationsFor(facts + {f}, k), version).0.attributed, cr,
            EligibleFor(facts, k, Active, t), EligibleFor(facts, k, Parked, t),
            EligibleFor(facts + {f}, k, Active, t), EligibleFor(facts + {f}, k, Parked, t));
  }

  // ----- every close of an issue -----

  /** Whatever the declarations, an issue's closes give the same intervals, each with the verdict
      of that close. */
  ghost predicate SameIntervals(a: seq<Entry>, b: seq<Entry>, issue: IssueKey, d: Declarations, d': Declarations,
                                version: string)
  {
    && |a| == |b|
    && forall i :: 0 <= i < |a| ==>
                     && a[i].0.closedAt.Some?
                     && a[i] == ClosedEpisode(issue, a[i].0.openedAt, a[i].0.closedAt.value, d, version)
                     && b[i] == ClosedEpisode(issue, a[i].0.openedAt, a[i].0.closedAt.value, d', version)
                     && b[i].0.openedAt == a[i].0.openedAt && b[i].0.closedAt == a[i].0.closedAt
  }

  lemma IntervalOfClose(issue: IssueKey, openedAt: Option<int>, t: int, d: Declarations, version: string)
    ensures var e := ClosedEpisode(issue, openedAt, t, d, version);
            e.0.openedAt == openedAt && e.0.closedAt == Some(t)
  {
  }

  lemma OneMoreInterval(a: seq<Entry>, b: seq<Entry>, issue: IssueKey, openedAt: Option<int>, t: int,
                        d: Declarations, d': Declarations, version: string)
    requires SameIntervals(a, b, issue, d, d', version)
    ensures SameIntervals(a + [ClosedEpisode(issue, openedAt, t, d, version)], b + [ClosedEpisode(issue, openedAt, t, d', version)],
                          issue, d, d', version)
  {
    hide ClosedEpisode;
    IntervalOfClose(issue, openedAt, t, d, version);
    IntervalOfClose(issue, openedAt, t, d', version);
  }

  lemma {:induction false} DeclarationsMoveNoInterval(issue: IssueKey, s: seq<IssueEvent>, d: Declarations, d': Declarations,
                                                      version: string)
    ensures SameIntervals(ClosedChain(issue, s, d, version), ClosedChain(issue, s, d', version), issue, d, d', version)
  {
    if s != [] {
      hide ClosedEpisode, SameIntervals, IntervalStart, SinceClose;
      var before, last := s[..|s| - 1], s[|s| - 1];
      DeclarationsMoveNoInterval(issue, before, d, d', version);
      var c, c' := ClosedChain(issue, before, d, version), ClosedChain(issue, before, d', version);
      if last.kind == Closed {
        OneMoreInterval(c, c', issue, IntervalStart(SinceClose(before)), last.at, d, d', version);
      } else {
        assert c + [] == c && c' + [] == c';
      }
    }
  }

  /** The closed episodes of a chain before and after `f`: the same intervals, and each keeps its
      attribution exactly when `KeepsAttribution` says so. */
  ghost predicate KeptExactly(was: seq<Episode>, now: seq<Episode>, facts: set<Fact>, f: Fact, k: IssueKey) {
    forall i :: 0 <= i < |was| && was[i].closedAt.Some? ==>
                  && i < |now|
                  && now[i].openedAt == was[i].openedAt && now[i].closedAt == was[i].closedAt
                  && (now[i].attributed == was[i].attributed <==> KeepsAttribution(facts, f, k, was[i].closedAt.value))
  }

  lemma ClosedPartKept(a: seq<Entry>, tail: seq<Entry>, b: seq<Entry>, tail': seq<Entry>,
                       facts: set<Fact>, f: Fact, k: IssueKey, version: string)
    requires f.entityType.ChangeRequestEntity?
    requires SameIntervals(a, b, k, DeclarationsFor(facts, k), DeclarationsFor(facts + {f}, k), version)
    requires |tail| <= 1 && (tail != [] ==> tail[0].0.closedAt.None?)
    ensures KeptExactly(Collect(SupersedeAllButLast(a + tail), EpisodeIn), Collect(SupersedeAllButLast(b + tail'), EpisodeIn),
                        facts, f, k)
  {
    hide ClosedEpisode, KeepsAttribution, DeclarationsFor;
    var was, now := SupersedeAllButLast(a + tail), SupersedeAllButLast(b + tail');
    EveryEntryAnEpisode(was);
    EveryEntryAnEpisode(now);
    forall i | 0 <= i < |a|
      ensures (b[i].0.attributed == a[i].0.attributed) <==> KeepsAttribution(facts, f, k, a[i].0.closedAt.value)
    {
      CloseKeepsAttributionIff(facts, f, k, a[i].0.openedAt, a[i].0.closedAt.value, version);
    }
  }

  lemma ChainKept(facts: seq<Fact>, f: Fact, k: IssueKey, version: string)
    requires f.entityType.ChangeRequestEntity?
    ensures KeptExactly(Collect(ChainFor(facts, k, version), EpisodeIn), Collect(ChainFor(facts + [f], k, version), EpisodeIn),
                        SetOf(facts), f, k)
  {
    hide ClosedChain, OpenTail, SameIntervals, KeptExactly, DeclarationsFor, SupersedeAllButLast;
    assert SetOf(facts + [f]) == SetOf(facts) + {f};
    CollectAppend(facts, f, k);
    assert IssueEvents(facts + [f], k) == IssueEvents(facts, k);
    var s := SortEvents(IssueEvents(facts, k));
    var d, d' := DeclarationsFor(SetOf(facts), k), DeclarationsFor(SetOf(facts) + {f}, k);
    DeclarationsMoveNoInterval(k, s, d, d', version);
    OpenTailShape(k, s, d, version);
    ClosedPartKept(ClosedChain(k, s, d, version), OpenTail(k, s, d, version),
                   ClosedChain(k, s, d', version), OpenTail(k, s, d', version), SetOf(facts), f, k, version);
  }

  /** Exactly when attributions survive: let any one fact about a change request be delivered, at
      any point.  Every closed episode of every projected issue keeps its interval, and it keeps
      its attribution if and only if `KeepsAttribution` holds of its close: a condition on the
      other eligible change requests, read from the old facts, and on the role of this one, read
      from its own facts before and after. */
  lemma AttributionKeptIff(facts: seq<Fact>, f: Fact, all: seq<Fact>, issues: Option<set<IssueKey>>, k: IssueKey,
                           version: string)
    requires f.entityType.ChangeRequestEntity?
    requires multiset(all) == multiset(facts) + multiset{f}
    ensures KeptExactly(EpisodesOf(Project(facts, issues, version), k), EpisodesOf(Project(all, issues, version), k),
                        SetOf(facts), f, k)
  {
    hide Project, ChainFor, KeepsAttribution;
    DeliveryOrderConverges(all, facts + [f], issues, version);
    IssueInProjection(facts, issues, k, version);
    IssueInProjection(facts + [f], issues, k, version);
    ChainKept(facts, f, k, version);
  }

  // ----- a past close that gains its attribution -----

  function IssueFact(k: IssueKey, kind: Lifecycle, at: int): Fact {
    Fact(k.provider, k.repository, IssueEntity, k.externalId, IssueLifecycle(kind), at, Webhook, None)
  }

  function MergeFact(cr: ChangeRequestKey, at: int): Fact {
    Fact(cr.provider, cr.repository, ChangeRequestEntity, cr.externalId, ChangeRequestMerged, at, Webhook, None)
  }

  /** The change request was updated: it declares to close `k` and references nothing. */
  function DeclarationFact(cr: ChangeRequestKey, k: IssueKey, at: int): Fact {
    Fact(cr.provider, cr.repository, ChangeRequestEntity, cr.externalId, ChangeRequestUpdated, at, Webhook,
         Some(Snapshot([], [LinkTarget(k.repository, k.externalId)])))
  }

  /** An issue opened, a change request merged, the issue closed. */
  function OldFacts(k: IssueKey, cr: ChangeRequestKey, t: int): seq<Fact> {
    [IssueFact(k, Opened, t), MergeFact(cr, t + 1), IssueFact(k, Closed, t + 2)]
  }

  /** Two events, an open and a close. */
  function OpenedAndClosed(t: int): seq<IssueEvent> {
    [IssueEvent(t, Opened), IssueEvent(t + 2, Closed)]
  }

  lemma InOrderAlready(t: int)
    ensures SortEvents(OpenedAndClosed(t)) == OpenedAndClosed(t)
  {
    UniqueOrder(OpenedAndClosed(t), OpenedAndClosed(t));
  }

  lemma OneCloseTime(t: int)
    ensures Sort(CloseTimes(OpenedAndClosed(t)), IntLe) == [t + 2]
  {
    var events := OpenedAndClosed(t);
    CollectStep(events, 0, CloseTime);
    CollectStep(events, 1, CloseTime);
    hide Collect, Sort;
    assert events[..0] == [] && events[..2] == events;
    assert Collect([], CloseTime) == [] by { LastCloseTime([]); }
    assert CloseTimes(events) == [t + 2];
    SortedUnique(Sort([t + 2], IntLe), [t + 2], IntLe);
  }

  /** Such an issue has one closed episode, with the verdict of its close. */
  lemma OneClose(k: IssueKey, t: int, d: Declarations, version: string)
    ensures var c := IssueChain(k, OpenedAndClosed(t), d, version);
            |c| == 1 && c[0].0.closedAt == Some(t + 2) && RightVerdict(c[0], t + 2, d)
  {
    hide IssueChain, Chronological, CurrentStatus, RightVerdict, SortEvents, Sort, CloseTimes;
    InOrderAlready(t);
    OneCloseTime(t);
    assert !EndsOpen(OpenedAndClosed(t), d);
    EpisodeChainShape(k, OpenedAndClosed(t), d, version);
    EveryCloseHasOneVerdict(k, OpenedAndClosed(t), d, version);
    var c := IssueChain(k, OpenedAndClosed(t), d, version);
    assert c[0] in c && OneVerdict(c[0], d);
  }

  lemma OneAttribution(facts: seq<Fact>, k: IssueKey, t: int, version: string)
    requires IssueEvents(facts, k) == OpenedAndClosed(t)
    ensures var c := ChainFor(facts, k, version);
            && |c| == 1 && c[0].0.closedAt == Some(t + 2)
            && AttributionOf(c[0].0.attributed, EligibleFor(SetOf(facts), k, Active, t + 2),
                             EligibleFor(SetOf(facts), k, Parked, t + 2))
  {
    hide IssueChain, Declaring, Merged, Eligible, OpenedAndClosed;
    OneClose(k, t, DeclarationsFor(SetOf(facts), k), version);
  }

  lemma DeclarationIsFact(cr: ChangeRequestKey, k: IssueKey, at: int)
    ensures DeclarationFact(cr, k, at).IsAboutChangeRequest(cr)
  {
  }

  lemma OldEvents(k: IssueKey, cr: ChangeRequestKey, t: int)
    ensures IssueEvents(OldFacts(k, cr, t), k) == OpenedAndClosed(t)
    ensures IssueEvents(OldFacts(k, cr, t) + [DeclarationFact(cr, k, t + 3)], k) == OpenedAndClosed(t)
  {
    var first, second, third := IssueFact(k, Opened, t), MergeFact(cr, t + 1), IssueFact(k, Closed, t + 2);
    CollectAppend([], first, k);
    CollectAppend([first], second, k);
    CollectAppend([first, second], third, k);
    CollectAppend(OldFacts(k, cr, t), DeclarationFact(cr, k, t + 3), k);
    assert [] + [first] == [first] && [first] + [second] == [first, second];
    assert [first, second] + [third] == OldFacts(k, cr, t);
    assert IssueEvents([], k) == [];
  }

  /** Before the declaration nobody is eligible. */
  lemma NobodyEligible(facts: set<Fact>, k: IssueKey, s: LinkState, t: int)
    requires forall f :: f in facts ==> !f.IsSnapshot()
    ensures EligibleFor(facts, k, s, t) == {}
  {
    forall cr ensures StatesFor(facts, cr) == map[] {
      assert Times(About(facts, cr)) == {};
    }
  }

  /** One snapshot decides: its declaration is active. */
  lemma OneSnapshot(own: set<Fact>, f: Fact, l: LinkKey)
    requires f in own && f.IsSnapshot() && (forall g :: g in own && g.IsSnapshot() ==> g == f)
    requires l in ViewOf(f)
    ensures l in StatesOf(own) && StatesOf(own)[l] == Active
  {
    hide Resolve, ViewOf;
    assert f.occurredAt in Times(own) && Times(own) == {f.occurredAt};
    assert GroupAt(own, f.occurredAt) == {f};
    ResolveNeverGuesses({f}, ViewOf(f));
    assert Resolve({f}) == Resolved(ViewOf(f));
    assert l in ResolutionAt(own, f.occurredAt).Union();
    assert Latest(Times(own)) == f.occurredAt;
    assert l in Seen(own, Times(own));
  }

  lemma FactsNow(k: IssueKey, cr: ChangeRequestKey, t: int)
    ensures var now := SetOf(OldFacts(k, cr, t) + [DeclarationFact(cr, k, t + 3)]);
            && About(now, cr) == {MergeFact(cr, t + 1), DeclarationFact(cr, k, t + 3)}
            && ChangeRequests(now) == {cr}
  {
    var old_, f := OldFacts(k, cr, t), DeclarationFact(cr, k, t + 3);
    assert SetOf(old_ + [f]) == {old_[0], old_[1], old_[2], f} by {
      assert forall x :: x in old_ <==> x == old_[0] || x == old_[1] || x == old_[2];
    }
    assert old_[1].Endpoint() == cr;
  }

  lemma DeclaresNow(k: IssueKey, cr: ChangeRequestKey, t: int)
    requires cr.provider == k.provider
    ensures EligibleAs({MergeFact(cr, t + 1), DeclarationFact(cr, k, t + 3)}, cr, k, Active, t + 2)
  {
    var merge, f := MergeFact(cr, t + 1), DeclarationFact(cr, k, t + 3);
    assert LinkTarget(k.repository, k.externalId) in f.issueLinks.value.declaresClosure;
    assert DeclarationOf(k) in ViewOf(f);
    OneSnapshot({merge, f}, f, DeclarationOf(k));
    assert merge.eventType.ChangeRequestMerged? && merge.occurredAt < t + 2;
  }

  lemma OnlyEligible(k: IssueKey, cr: ChangeRequestKey, t: int)
    requires cr.provider == k.provider
    ensures var now := SetOf(OldFacts(k, cr, t) + [DeclarationFact(cr, k, t + 3)]);
            EligibleFor(now, k, Active, t + 2) == {cr} && EligibleFor(now, k, Parked, t + 2) == {}
  {
    hide OldFacts, DeclarationFact, MergeFact, EligibleAs, EligibleFor, About, ChangeRequests, SetOf;
    FactsNow(k, cr, t);
    DeclaresNow(k, cr, t);
    var now := SetOf(OldFacts(k, cr, t) + [DeclarationFact(cr, k, t + 3)]);
    EligibleByOwnFacts(now, cr, k, Active, t + 2);
    NotBothEligible(now, k, t + 2, cr);
    EligibleArePresent(now, k, Active, t + 2);
    EligibleArePresent(now, k, Parked, t + 2);
  }

  lemma EligibleArePresent(facts: set<Fact>, k: IssueKey, s: LinkState, t: int)
    ensures EligibleFor(facts, k, s, t) <= ChangeRequests(facts)
  {
    hide Declares;
  }

  /** Historical attribution does change: an issue was opened, a change request merged, the issue
      closed, and the close is not attributed; then one more snapshot arrives, later than all of
      that, in which the change request declares the issue, and the past close is attributed. */
  lemma DeclarationsRewriteAttribution(k: IssueKey, cr: ChangeRequestKey, t: int, version: string)
    requires cr.provider == k.provider
    ensures var facts, f := OldFacts(k, cr, t), DeclarationFact(cr, k, t + 3);
            var was := EpisodesOf(Project(facts, None, version), k);
            var now := EpisodesOf(Project(facts + [f], None, version), k);
            && |was| == 1 == |now| && was[0].closedAt == Some(t + 2) == now[0].closedAt
            && was[0].attributed == None && now[0].attributed == Some(cr)
            && !KeepsAttribution(SetOf(facts), f, k, t + 2)
  {
    var facts, f := OldFacts(k, cr, t), DeclarationFact(cr, k, t + 3);
    NobodyEligible(SetOf(facts), k, Active, t + 2);
    NobodyEligible(SetOf(facts), k, Parked, t + 2);
    OnlyEligible(k, cr, t);
    OldEvents(k, cr, t);
    DeclarationIsFact(cr, k, t + 3);
    hide EligibleFor, ChainFor, Project, KeepsAttribution, OldFacts, DeclarationFact, IssueEvents, OpenedAndClosed;
    hide AttributionOf, SetOf;
    var was, now := ChainFor(facts, k, version), ChainFor(facts + [f], k, version);
    OneAttribution(facts, k, t, version);
    OneAttribution(facts + [f], k, t, version);
    NoOther(was[0].0.attributed, {}, {}, cr);
    NoOther(now[0].0.attributed, {cr}, {}, cr);
    IssueInProjection(facts, None, k, version);
    IssueInProjection(facts + [f], None, k, version);
    EveryEntryAnEpisode(was);
    EveryEntryAnEpisode(now);
    AttributionKeptIff(facts, f, facts + [f], None, k, version);
  }
}
