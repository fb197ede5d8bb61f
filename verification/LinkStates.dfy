/** The state of every link of one change request, from its snapshots.

    The specification is a closed form over the SET of facts: which links were ever
    seen, and what the last timestamp group says of each.  The method is the source's
    fold over timestamp groups. */
module LinkStates {
  import opened Options
  import opened Sorting
  import opened ClosureModel

  type View = set<LinkKey>

  // ----- one timestamp group -----

  /** The order-independent form of a snapshot. */
  function SnapshotKey(s: Snapshot): View {
    (set t | t in s.declaresClosure :: LinkKey(DeclaresClosure, t.repository, t.number))
    + (set t | t in s.references :: LinkKey(References, t.repository, t.number))
  }

  function ViewOf(f: Fact): View {
    if f.issueLinks.Some? then SnapshotKey(f.issueLinks.value) else {}
  }

  datatype Resolution = Resolved(view: View) | Conflict(views: set<View>)
  {
    /** The links present in some candidate view. */
    function Union(): View {
      match this
      case Resolved(view) => view
      case Conflict(views) => set v, l | v in views && l in v :: l
    }

    /** The links present in every candidate view. */
    function Common(): View {
      match this
      case Resolved(view) => view
      case Conflict(views) => set l | l in Union() && forall v :: v in views ==> l in v
    }
  }

  function ViewsFrom(group: set<Fact>, source: Source): set<View> {
    set f | f in group && f.observedVia == source :: ViewOf(f)
  }

  function AllViews(group: set<Fact>): set<View> {
    ViewsFrom(group, Webhook) + ViewsFrom(group, Backfill)
  }

  lemma OneElement<T(!new)>(s: set<T>)
    requires |s| == 1
    ensures s != {} && forall x :: x in s ==> s == {x}
  {
    forall x | x in s ensures s == {x} {
      assert |s - {x}| == 0;
    }
  }

  function TheOnly(s: set<View>): (v: View)
    requires |s| == 1
    ensures s == {v}
  {
    OneElement(s);
    assert forall x, y :: x in s && y in s ==> x in {y};
    var v :| v in s;
    v
  }

  /** Ordering policy D for the snapshots of one timestamp. */
  function Resolve(group: set<Fact>): Resolution {
    var webhook := ViewsFrom(group, Webhook);
    var distinct := AllViews(group);
    if |distinct| == 1 then Resolved(TheOnly(distinct))
    else if |webhook| == 1 then Resolved(TheOnly(webhook))
    else Conflict(distinct)
  }

  /** Nothing is won arbitrarily: a group resolves to a view exactly when every snapshot
      shows that view, or every webhook snapshot does and there is one. */
  lemma ResolveNeverGuesses(group: set<Fact>, view: View)
    ensures Resolve(group) == Resolved(view) <==>
              || (group != {} && forall f :: f in group ==> ViewOf(f) == view)
              || ((exists f :: f in group && f.observedVia == Webhook)
                  && forall f :: f in group && f.observedVia == Webhook ==> ViewOf(f) == view)
  {
    var webhook := ViewsFrom(group, Webhook);
    var backfill := ViewsFrom(group, Backfill);
    var distinct := webhook + backfill;
    forall f | f in group ensures ViewOf(f) in distinct {
      assert ViewOf(f) in (if f.observedVia == Webhook then webhook else backfill);
    }
    forall f | f in group && f.observedVia == Webhook ensures ViewOf(f) in webhook {}
    if group != {} && forall f :: f in group ==> ViewOf(f) == view {
      var f :| f in group;
      assert distinct == {view};
    }
    if (exists f :: f in group && f.observedVia == Webhook)
       && forall f :: f in group && f.observedVia == Webhook ==> ViewOf(f) == view {
      var f :| f in group && f.observedVia == Webhook;
      assert webhook == {view};
      if |distinct| == 1 {
        assert view in distinct;
      }
    }
  }

  // ----- the closed form -----

  function Times(facts: set<Fact>): set<int> {
    set f | f in facts && f.IsSnapshot() :: f.occurredAt
  }

  function GroupAt(facts: set<Fact>, t: int): set<Fact> {
    set f | f in facts && f.IsSnapshot() && f.occurredAt == t
  }

  function ResolutionAt(facts: set<Fact>, t: int): Resolution {
    Resolve(GroupAt(facts, t))
  }

  function Latest(times: set<int>): (t: int)
    requires times != {}
    ensures t in times && forall u :: u in times ==> u <= t
  {
    var r := SortTimes(times);
    SameMembers(r, times);
    assert forall i :: 0 <= i < |r| ==> IntLe(r[i], r[|r| - 1]);
    assert |r| > 0;
    assert forall u :: u in times ==> u in SetOf(r);
    r[|r| - 1]
  }

  /** Every link some timestamp group put forward. */
  function Seen(facts: set<Fact>, times: set<int>): View {
    set t, l | t in times && l in ResolutionAt(facts, t).Union() :: l
  }

  function StateUnder(res: Resolution, l: LinkKey): LinkState {
    if l in res.Common() then Active
    else if l in res.Union() then Parked
    else Revoked
  }

  /** The closed form: a link is known if any group showed it, and the last group alone
      fixes its state. */
  function StatesOver(facts: set<Fact>, times: set<int>): map<LinkKey, LinkState> {
    if times == {} then map[]
    else
      var last := ResolutionAt(facts, Latest(times));
      map l | l in Seen(facts, times) :: StateUnder(last, l)
  }

  lemma ViewsAreShown(group: set<Fact>)
    ensures forall f :: f in group ==> ViewOf(f) in AllViews(group)
    ensures forall v :: v in AllViews(group) ==> exists f :: f in group && ViewOf(f) == v
  {
    hide ViewOf;
    forall f | f in group ensures ViewOf(f) in AllViews(group) {
      assert ViewOf(f) in ViewsFrom(group, f.observedVia);
      assert f.observedVia == Webhook || f.observedVia == Backfill;
    }
  }

  lemma ShownInViews(group: set<Fact>, l: LinkKey)
    ensures (exists v :: v in AllViews(group) && l in v) <==> exists f :: f in group && l in ViewOf(f)
    ensures (exists v :: v in AllViews(group) && l !in v) <==> exists f :: f in group && l !in ViewOf(f)
  {
    hide ViewOf, AllViews;
    ViewsAreShown(group);
  }

  lemma StateInConflict(views: set<View>, l: LinkKey)
    ensures StateUnder(Conflict(views), l)
            == if !(exists v :: v in views && l in v) then Revoked
               else if exists v :: v in views && l !in v then Parked else Active
  {
  }

  /** What the state of a link says of the last timestamp group: in a conflict a link is
      active if every snapshot shows it and parked if some do and some do not; a resolved
      group parks nothing; and a link no snapshot shows is never more than revoked. */
  lemma StateMeans(group: set<Fact>, l: LinkKey)
    ensures var s := StateUnder(Resolve(group), l);
            var shown := exists f :: f in group && l in ViewOf(f);
            var missing := exists f :: f in group && l !in ViewOf(f);
            && (Resolve(group).Conflict? ==> s == if !shown then Revoked else if missing then Parked else Active)
            && (Resolve(group).Resolved? ==> s == if l in Resolve(group).view then Active else Revoked)
            && (!shown ==> s == Revoked)
  {
    ShownInViews(group, l);
    hide ViewsFrom, ViewOf;
    var res, views := Resolve(group), AllViews(group);
    if res.Conflict? {
      hide StateUnder;
      StateInConflict(views, l);
    } else {
      assert res.view in views;
    }
  }

  function StatesOf(facts: set<Fact>): map<LinkKey, LinkState> {
    StatesOver(facts, Times(facts))
  }

  // ----- the fold -----

  /** What one more timestamp group does to the states. */
  function Advance(states: map<LinkKey, LinkState>, res: Resolution): map<LinkKey, LinkState> {
    map l | l in states.Keys + res.Union() :: StateUnder(res, l)
  }

  lemma AdvanceExtendsClosedForm(facts: set<Fact>, times: set<int>, t: int)
    requires forall u :: u in times ==> u < t
    ensures Advance(StatesOver(facts, times), ResolutionAt(facts, t)) == StatesOver(facts, times + {t})
  {
    hide Resolve;
    var res := ResolutionAt(facts, t);
    assert Latest(times + {t}) == t;
    assert Seen(facts, times + {t}) == Seen(facts, times) + res.Union();
    assert StatesOver(facts, times).Keys == Seen(facts, times);
  }

  /** The snapshots of `facts`, grouped by their timestamp. */
  method GroupByTime(facts: seq<Fact>) returns (groups: map<int, seq<Fact>>)
    ensures groups.Keys == Times(SetOf(facts))
    ensures forall t :: t in groups ==> SetOf(groups[t]) == GroupAt(SetOf(facts), t)
  {
    groups := map[];
    for i := 0 to |facts|
      invariant groups.Keys == Times(SetOf(facts[..i]))
      invariant forall t :: t in groups ==> SetOf(groups[t]) == GroupAt(SetOf(facts[..i]), t)
    {
      var fact := facts[i];
      assert SetOf(facts[..i + 1]) == SetOf(facts[..i]) + {fact};
      if fact.IsSnapshot() {
        var t := fact.occurredAt;
        var before := if t in groups then groups[t] else [];
        assert SetOf(before) == GroupAt(SetOf(facts[..i]), t);
        assert SetOf(before + [fact]) == SetOf(before) + {fact};
        groups := groups[t := before + [fact]];
      }
    }
    assert facts[..|facts|] == facts;
  }

  /** Gives every link of `links` the state `s`, one after the other. */
  method SetAll(states: map<LinkKey, LinkState>, links: View, s: LinkState)
    returns (r: map<LinkKey, LinkState>)
    ensures r.Keys == states.Keys + links
    ensures forall l :: l in r ==> r[l] == if l in links then s else states[l]
  {
    r := states;
    var todo := links;
    while todo != {}
      invariant todo <= links
      invariant r.Keys == states.Keys + (links - todo)
      invariant forall l :: l in r ==> r[l] == if l in links - todo then s else states[l]
      decreases todo
    {
      var l :| l in todo;
      r := r[l := s];
      todo := todo - {l};
    }
  }

  /** Revokes, one after the other, the links outside `kept` that are not revoked yet. */
  method RevokeOutside(states: map<LinkKey, LinkState>, kept: View)
    returns (r: map<LinkKey, LinkState>)
    ensures r.Keys == states.Keys
    ensures forall l :: l in r ==> r[l] == if l in kept then states[l] else Revoked
  {
    r := states;
    var todo := states.Keys;
    while todo != {}
      invariant todo <= states.Keys == r.Keys
      invariant forall l :: l in r ==>
                              r[l] == if l in todo || l in kept then states[l] else Revoked
      decreases todo
    {
      var l :| l in todo;
      if r[l] != Revoked && l !in kept {
        r := r[l := Revoked];
      }
      todo := todo - {l};
    }
  }

  /** The two branches of the fold: a resolved view, or conflicting ones. */
  method ApplyResolution(states: map<LinkKey, LinkState>, res: Resolution)
    returns (r: map<LinkKey, LinkState>)
    ensures r == Advance(states, res)
  {
    match res {
      case Resolved(current) =>
        r := SetAll(states, current, Active);
        r := RevokeOutside(r, current);
      case Conflict(_) =>
        var common, union := res.Common(), res.Union();
        assert common <= union;
        r := SetAll(states, common, Active);
        r := SetAll(r, union - common, Parked);
        r := RevokeOutside(r, union);
    }
  }

  lemma EarlierTimes(order: seq<int>, times: set<int>, i: nat)
    requires Sorted(order, IntLe) && multiset(order) == multiset(times) && i < |order|
    ensures forall u :: u in SetOf(order[..i]) ==> u < order[i]
    ensures SetOf(order[..i + 1]) == SetOf(order[..i]) + {order[i]}
  {
    forall u | u in SetOf(order[..i]) ensures u < order[i] {
      var j :| 0 <= j < i && order[j] == u;
      assert IntLe(order[j], order[i]);
      NoDuplicates(order, times, j, i);
    }
  }

  method DeriveLinkStates(facts: seq<Fact>) returns (states: map<LinkKey, LinkState>)
    ensures states == StatesOf(SetOf(facts))
  {
    var groups := GroupByTime(facts);
    ghost var all := SetOf(facts);
    var order := SortTimes(groups.Keys);
    SameMembers(order, groups.Keys);
    states := map[];
    for i := 0 to |order|
      invariant states == StatesOver(all, SetOf(order[..i]))
    {
      var t := order[i];
      assert t in SetOf(order);
      states := ApplyResolution(states, Resolve(SetOf(groups[t])));
      EarlierTimes(order, groups.Keys, i);
      AdvanceExtendsClosedForm(all, SetOf(order[..i]), t);
    }
    assert order[..|order|] == order;
  }
}
