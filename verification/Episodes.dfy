/** The chain of closure episodes of one issue. */
module Episodes {
  import opened Options
  import opened Sorting
  import opened Sequences
  import opened ClosureModel

  /** What the change requests contribute to one issue: who declares its closure, with an
      active or a parked link, and when each change request merged. */
  datatype Declarations = Declarations(
    active: set<ChangeRequestKey>, parked: set<ChangeRequestKey>, merged: map<ChangeRequestKey, int>)

  type Entry = (Episode, Option<Unresolved>)

  // ----- one close -----

  function Eligible(crs: set<ChangeRequestKey>, merged: map<ChangeRequestKey, int>, closedAt: int)
    : set<ChangeRequestKey>
  {
    set cr | cr in crs && cr in merged && merged[cr] < closedAt
  }

  function ClosedEpisode(issue: IssueKey, openedAt: Option<int>, closedAt: int, d: Declarations,
                         version: string): Entry
  {
    var eligibleActive := SortEndpoints(Eligible(d.active, d.merged, closedAt));
    var eligibleParked := SortEndpoints(Eligible(d.parked, d.merged, closedAt));
    var candidates := SortEndpoints(SetOf(eligibleActive) + SetOf(eligibleParked));
    var status :=
      if eligibleParked != [] then Ambiguous
      else if |eligibleActive| == 1 then Inferred
      else if eligibleActive == [] then Unmatched
      else Ambiguous;
    var attributed := if status == Inferred then Some(eligibleActive[0]) else None;
    var unresolved :=
      if status == Unmatched then Some(Unresolved(issue, closedAt, NoCandidate, [], version))
      else if status == Ambiguous then Some(Unresolved(issue, closedAt, ManyCandidates, candidates, version))
      else None;
    (Episode(issue, openedAt, Some(closedAt), status, attributed, version), unresolved)
  }

  /** Exactly one verdict per close.  A change request is attributed exactly when it is the
      only eligible active one and no parked one is eligible; otherwise there is exactly one
      unresolved record, and its candidates are the eligible change requests in order. */
  ghost predicate RightVerdict(e: Entry, closedAt: int, d: Declarations) {
    var active := Eligible(d.active, d.merged, closedAt);
    var parked := Eligible(d.parked, d.merged, closedAt);
    && (forall cr :: e.0.attributed == Some(cr) <==> active == {cr} && parked == {})
    && (e.1.None? <==> e.0.attributed.Some?)
    && (e.1.Some? ==>
          && e.1.value.closedAt == closedAt && e.1.value.issue == e.0.issue
          && e.1.value.candidates == SortEndpoints(active + parked)
          && (e.1.value.reason == NoCandidate <==> active + parked == {}))
  }

  /** What the status of a close says: `inferred` that it is attributed, `unmatched` that
      nothing was eligible, `ambiguous` that there was no single answer. */
  predicate StatusTellsVerdict(e: Entry) {
    e.0.status == if e.0.attributed.Some? then Inferred
                  else if e.1.Some? && e.1.value.reason == NoCandidate then Unmatched
                  else Ambiguous
  }

  lemma VerdictOfClose(issue: IssueKey, openedAt: Option<int>, closedAt: int, d: Declarations,
                       version: string)
    ensures var e := ClosedEpisode(issue, openedAt, closedAt, d, version);
            && RightVerdict(e, closedAt, d)
            && e.0.issue == issue && e.0.openedAt == openedAt && e.0.closedAt == Some(closedAt)
            && StatusTellsVerdict(e)
  {
    var active := Eligible(d.active, d.merged, closedAt);
    var parked := Eligible(d.parked, d.merged, closedAt);
    hide Eligible, SortEndpoints, Sorted, EndpointLe;
    SortedEndpoints(active);
    SortedEndpoints(parked);
  }

  /** Attribution, spelled out: the one change request with an active declaration that merged
      strictly before the close, when no other declaring one, active or parked, merged before it.
      A merge at the instant of the close does not count. */
  lemma AttributedMeans(issue: IssueKey, openedAt: Option<int>, closedAt: int, d: Declarations,
                        version: string, cr: ChangeRequestKey)
    ensures ClosedEpisode(issue, openedAt, closedAt, d, version).0.attributed == Some(cr) <==>
              && cr in d.active && cr in d.merged && d.merged[cr] < closedAt
              && (forall x :: x in d.active && x in d.merged && x != cr ==> closedAt <= d.merged[x])
              && (forall x :: x in d.parked && x in d.merged ==> closedAt <= d.merged[x])
  {
    hide ClosedEpisode;
    VerdictOfClose(issue, openedAt, closedAt, d, version);
    var active, parked := Eligible(d.active, d.merged, closedAt), Eligible(d.parked, d.merged, closedAt);
    assert forall x :: x in d.active && x in d.merged && d.merged[x] < closedAt <==> x in active;
    assert forall x :: x in d.parked && x in d.merged && d.merged[x] < closedAt <==> x in parked;
    if cr in active && (forall x :: x in active ==> x == cr) {
      assert active == {cr};
    }
  }

  lemma SortedEndpoints(s: set<EndpointKey>)
    ensures SetOf(SortEndpoints(s)) == s
    ensures s == {} <==> SortEndpoints(s) == []
    ensures |SortEndpoints(s)| == 1 ==> s == {SortEndpoints(s)[0]}
    ensures forall x :: s == {x} ==> |SortEndpoints(s)| == 1
  {
    var r := SortEndpoints(s);
    EndpointLeIsTotalOrder();
    SortSetMembers(s, EndpointLe);
    if |r| == 1 {
      assert r == [r[0]];
    }
  }

  function OpenEpisode(issue: IssueKey, openedAt: Option<int>, d: Declarations, version: string): Episode {
    var status := if exists cr :: cr in d.active && cr in d.merged then AwaitingClosure else Pending;
    Episode(issue, openedAt, None, status, None, version)
  }

  // ----- the whole chain, as a closed form over the ordered events -----

  /** The last reopen of a stretch without closes, else its first open. */
  function IntervalStart(s: seq<IssueEvent>): Option<int> {
    if LastReopen(s).Some? then LastReopen(s) else FirstOpen(s)
  }

  function LastReopen(s: seq<IssueEvent>): Option<int> {
    if s == [] then None
    else if s[|s| - 1].kind == Reopened then Some(s[|s| - 1].at)
    else LastReopen(s[..|s| - 1])
  }

  function FirstOpen(s: seq<IssueEvent>): Option<int> {
    if s == [] then None
    else if s[0].kind == Opened then Some(s[0].at)
    else FirstOpen(s[1..])
  }

  /** How many events there are up to and with the last close. */
  function Cut(s: seq<IssueEvent>): (n: nat)
    ensures n <= |s|
    ensures n > 0 ==> s[n - 1].kind == Closed
    ensures forall k :: n <= k < |s| ==> s[k].kind != Closed
  {
    if s == [] || s[|s| - 1].kind == Closed then |s| else Cut(s[..|s| - 1])
  }

  /** The events after the last close. */
  function SinceClose(s: seq<IssueEvent>): seq<IssueEvent> {
    s[Cut(s)..]
  }

  /** One closed episode per close, before any is superseded. */
  function ClosedChain(issue: IssueKey, s: seq<IssueEvent>, d: Declarations, version: string): seq<Entry> {
    if s == [] then []
    else
      var before := s[..|s| - 1];
      var last := s[|s| - 1];
      ClosedChain(issue, before, d, version)
      + if last.kind == Closed
        then [ClosedEpisode(issue, IntervalStart(SinceClose(before)), last.at, d, version)]
        else []
  }

  function OpenTail(issue: IssueKey, s: seq<IssueEvent>, d: Declarations, version: string): seq<Entry> {
    var since := SinceClose(s);
    if IntervalStart(since).Some? && (d.active != {} || ClosedChain(issue, s, d, version) != []) then
      [(OpenEpisode(issue, IntervalStart(since), d, version), None)]
    else if s == [] && d.active != {} then
      [(OpenEpisode(issue, None, d, version), None)]
    else []
  }

  function Supersede(e: Entry): Entry {
    (e.0.(status := Superseded), e.1)
  }

  function SupersedeAllButLast(chain: seq<Entry>): (r: seq<Entry>)
    ensures |r| == |chain|
    ensures forall i :: 0 <= i < |r| ==> r[i] == if i < |r| - 1 then Supersede(chain[i]) else chain[i]
  {
    seq(|chain|, i requires 0 <= i < |chain| => if i < |chain| - 1 then Supersede(chain[i]) else chain[i])
  }

  function IssueChain(issue: IssueKey, events: seq<IssueEvent>, d: Declarations, version: string): seq<Entry> {
    var s := SortEvents(events);
    SupersedeAllButLast(ClosedChain(issue, s, d, version) + OpenTail(issue, s, d, version))
  }

  // ----- the state machine -----

  lemma {:induction false} IntervalStartStep(s: seq<IssueEvent>, e: IssueEvent)
    requires e.kind != Closed
    ensures IntervalStart(s + [e]) ==
            if e.kind == Reopened || IntervalStart(s).None? then Some(e.at) else IntervalStart(s)
  {
    assert (s + [e])[..|s|] == s;
    if s == [] {
      assert s + [e] == [e];
    } else {
      assert (s + [e])[1..] == s[1..] + [e];
      FirstOpenStep(s, e);
    }
  }

  lemma {:induction false} FirstOpenStep(s: seq<IssueEvent>, e: IssueEvent)
    ensures FirstOpen(s + [e]) ==
            if FirstOpen(s).Some? then FirstOpen(s) else if e.kind == Opened then Some(e.at) else None
  {
    if s == [] {
      assert s + [e] == [e];
    } else {
      assert (s + [e])[1..] == s[1..] + [e];
      FirstOpenStep(s[1..], e);
    }
  }

  lemma SinceCloseStep(s: seq<IssueEvent>, e: IssueEvent)
    ensures SinceClose(s + [e]) == if e.kind == Closed then [] else SinceClose(s) + [e]
  {
    assert (s + [e])[..|s|] == s;
  }

  /** The pass over the ordered events: `openStart` is the start of the open interval. */
  method CloseEpisodes(issue: IssueKey, s: seq<IssueEvent>, d: Declarations, version: string)
    returns (episodes: seq<Entry>, openStart: Option<int>)
    ensures episodes == ClosedChain(issue, s, d, version)
    ensures openStart == IntervalStart(SinceClose(s))
  {
    hide ClosedEpisode, IntervalStart, SinceClose;
    NothingSinceClose();
    episodes := [];
    openStart := None;
    for i := 0 to |s|
      invariant episodes == ClosedChain(issue, s[..i], d, version)
      invariant openStart == IntervalStart(SinceClose(s[..i]))
    {
      assert s[..i + 1][..i] == s[..i];
      var e := s[i];
      assert s[..i + 1] == s[..i] + [e];
      SinceCloseStep(s[..i], e);
      if e.kind == Opened {
        IntervalStartStep(SinceClose(s[..i]), e);
        if openStart == None {
          openStart := Some(e.at);
        }
      } else if e.kind == Reopened {
        IntervalStartStep(SinceClose(s[..i]), e);
        openStart := Some(e.at);
      } else {
        episodes := episodes + [ClosedEpisode(issue, openStart, e.at, d, version)];
        openStart := None;
      }
    }
    assert s[..|s|] == s;
  }

  lemma NothingSinceClose()
    ensures SinceClose([]) == [] && IntervalStart([]) == None
  {
  }

  /** Overwrites the status of every episode but the last. */
  method MarkSuperseded(chain: seq<Entry>) returns (episodes: seq<Entry>)
    ensures episodes == SupersedeAllButLast(chain)
  {
    episodes := chain;
    var j := 0;
    while j < |chain| - 1
      invariant 0 <= j <= |chain| == |episodes|
      invariant j == 0 || j < |chain|
      invariant forall k :: 0 <= k < |chain| ==>
                              episodes[k] == if k < j then Supersede(chain[k]) else chain[k]
    {
      episodes := episodes[j := (episodes[j].0.(status := Superseded), episodes[j].1)];
      j := j + 1;
    }
  }

  /** `_project_issue_episodes`: the closed episodes, the open tail, then superseding. */
  method ProjectIssueEpisodes(issue: IssueKey, events: seq<IssueEvent>, d: Declarations, version: string)
    returns (episodes: seq<Entry>)
    ensures episodes == IssueChain(issue, events, d, version)
  {
    var s := SortEvents(events);
    assert |multiset(s)| == |s| && |multiset(events)| == |events|;
    hide ClosedChain, IntervalStart, SinceClose, SortEvents, Sorted, EventLe, ClosedEpisode, OpenEpisode;
    hide SupersedeAllButLast;
    var openStart;
    episodes, openStart := CloseEpisodes(issue, s, d, version);
    assert episodes + [] == episodes;
    if openStart.Some? && (d.active != {} || episodes != []) {
      episodes := episodes + [(OpenEpisode(issue, openStart, d, version), None)];
    } else if events == [] && d.active != {} {
      episodes := episodes + [(OpenEpisode(issue, None, d, version), None)];
    }
    episodes := MarkSuperseded(episodes);
  }
}
