/** When the first word about an entity is also the most confident one.  The engine documents
    its rules as running in descending confidence order; they do not quite, and this says
    exactly what that costs. */
module ConfidenceLaws {
  import opened Confidences
  import opened Options
  import opened Sequences
  import opened Correlation

  /** Every correlation carries the greatest confidence proposed for its entity anywhere. */
  ghost predicate BindsHighest(correlations: seq<Binding>, s: seq<Output>) {
    forall i, n :: 0 <= i < |correlations| && 0 <= n < |s| && s[n].Proposed?
                   && s[n].Entity() == correlations[i].entityId
                   ==> s[n].proposal.confidence <= correlations[i].confidence
  }

  /** The j-th output is the first one about its entity. */
  ghost predicate Opens(s: seq<Output>, j: nat) {
    j < |s| && forall m :: 0 <= m < j ==> s[m].Entity() != s[j].Entity()
  }

  /** No proposal that opens an entity meets a more confident one about it later. */
  ghost predicate NeverOutbid(s: seq<Output>) {
    forall j: nat, n :: Opens(s, j) && s[j].Proposed? && j < n < |s| && s[n].Proposed? && s[n].Entity() == s[j].Entity()
                        ==> s[n].proposal.confidence <= s[j].proposal.confidence
  }

  lemma {:induction false} OpeningIsFirst(s: seq<Output>, j: nat)
    requires Opens(s, j)
    ensures FirstAbout(s, s[j].Entity()) == Some(s[j])
  {
    var before := s[..|s| - 1];
    if j < |before| {
      assert before[j] == s[j] && Opens(before, j);
      OpeningIsFirst(before, j);
    } else {
      MentionsIffFirst(before, s[j].Entity());
      assert forall m :: 0 <= m < |before| ==> before[m] == s[m];
    }
  }

  lemma {:induction false} FirstOpens(s: seq<Output>, id: string) returns (j: nat)
    requires FirstAbout(s, id).Some?
    ensures Opens(s, j) && s[j].Entity() == id && FirstAbout(s, id) == Some(s[j])
  {
    var before := s[..|s| - 1];
    MentionsIffFirst(before, id);
    if FirstAbout(before, id).Some? {
      j := FirstOpens(before, id);
      assert before[j] == s[j] && forall m :: 0 <= m < j ==> before[m] == s[m];
    } else {
      j := |s| - 1;
      assert forall m :: 0 <= m < j ==> before[m] == s[m];
    }
  }

  /** An entity opened by a proposal is correlated by it. */
  lemma OpeningIsBound(results: seq<RuleResult>, ulids: Ulids, version: string, j: nat,
                       locked: set<string>, correlations: seq<Binding>, ambiguities: map<string, Ambiguity>)
    returns (i: nat)
    requires Resolved(locked, correlations, ambiguities, Stream(results), ulids, version)
    requires Opens(Stream(results), j) && Stream(results)[j].Proposed?
    ensures i < |correlations| && correlations[i].entityId == Stream(results)[j].Entity()
    ensures correlations[i].confidence == Stream(results)[j].proposal.confidence
  {
    var s := Stream(results);
    var id := s[j].Entity();
    OpeningIsFirst(s, j);
    FirstWordWins(results, ulids, version, locked, correlations, ambiguities);
    EveryEntityIsDecided(results, ulids, version, id, locked, correlations, ambiguities);
    i :| 0 <= i < |correlations| && correlations[i].entityId == id;
  }

  /** Exactly when the most confident proposal wins: for any rule outputs, every correlation
      carries the greatest confidence proposed for its entity if and only if no proposal that
      is the first word about its entity is outbid later in the stream. */
  lemma HighestConfidenceBoundIff(results: seq<RuleResult>, ulids: Ulids, version: string,
                                  locked: set<string>, correlations: seq<Binding>, ambiguities: map<string, Ambiguity>)
    requires Resolved(locked, correlations, ambiguities, Stream(results), ulids, version)
    ensures BindsHighest(correlations, Stream(results)) <==> NeverOutbid(Stream(results))
  {
    hide Stream, Resolved, FirstAbout;
    var s := Stream(results);
    if BindsHighest(correlations, s) {
      forall j: nat, n | Opens(s, j) && s[j].Proposed? && j < n < |s| && s[n].Proposed? && s[n].Entity() == s[j].Entity()
        ensures s[n].proposal.confidence <= s[j].proposal.confidence
      {
        var i := OpeningIsBound(results, ulids, version, j, locked, correlations, ambiguities);
      }
    }
    if NeverOutbid(s) {
      FirstWordWins(results, ulids, version, locked, correlations, ambiguities);
      forall i, n | 0 <= i < |correlations| && 0 <= n < |s| && s[n].Proposed? && s[n].Entity() == correlations[i].entityId
        ensures s[n].proposal.confidence <= correlations[i].confidence
      {
        var j := FirstOpens(s, correlations[i].entityId);
        assert correlations[i].confidence == s[j].proposal.confidence;
        assert j <= n;
      }
    }
  }

  // ----- what a caller can check of the rules -----

  /** Proposals never gain confidence along the stream. */
  ghost predicate Descending(s: seq<Output>) {
    forall m, n :: 0 <= m < n < |s| && s[m].Proposed? && s[n].Proposed? ==>
                     s[n].proposal.confidence <= s[m].proposal.confidence
  }

  /** Rules that really run in descending confidence order always bind the highest. */
  lemma DescendingBindsHighest(results: seq<RuleResult>, ulids: Ulids, version: string,
                               locked: set<string>, correlations: seq<Binding>, ambiguities: map<string, Ambiguity>)
    requires Resolved(locked, correlations, ambiguities, Stream(results), ulids, version)
    requires Descending(Stream(results))
    ensures BindsHighest(correlations, Stream(results))
  {
    hide Stream, Resolved;
    HighestConfidenceBoundIff(results, ulids, version, locked, correlations, ambiguities);
  }

  // ----- the default rules -----

  ghost predicate AllAt(ps: seq<Proposal>, confidence: real) {
    forall p :: p in ps ==> p.confidence == confidence
  }

  /** What the five default rules put out: each at its own confidence, the issue references
      first the resolved issues and then the merely mentioned ones. */
  ghost predicate FromDefaultRules(results: seq<RuleResult>) {
    && |results| == 5
    && AllAt(results[0].proposals, EXPLICIT_RUN_ID)
    && (exists k :: 0 <= k <= |results[1].proposals|
                    && AllAt(results[1].proposals[..k], ISSUE_RESOLVED) && AllAt(results[1].proposals[k..], ISSUE_MENTION))
    && AllAt(results[2].proposals, BRANCH_ISSUE)
    && AllAt(results[3].proposals, COMMIT_ISSUE)
    && AllAt(results[4].proposals, TEMPORAL)
  }

  /** Proposals never gain confidence along the stream, except over a mention. */
  ghost predicate DescendingButForMentions(s: seq<Output>) {
    forall m, n :: 0 <= m < n < |s| && s[m].Proposed? && s[n].Proposed? ==>
                     s[n].proposal.confidence <= s[m].proposal.confidence || s[m].proposal.confidence == ISSUE_MENTION
  }

  /** Every proposal so far is a mention or at least as confident as `floor`. */
  ghost predicate AtLeast(s: seq<Output>, floor: real) {
    forall m :: 0 <= m < |s| && s[m].Proposed? ==>
                  floor <= s[m].proposal.confidence || s[m].proposal.confidence == ISSUE_MENTION
  }

  lemma {:induction false} AsOutputs(as_: seq<Ambiguity>, ps: seq<Proposal>)
    ensures |Collect(as_, AsAmbiguous)| == |as_| && |Collect(ps, AsProposed)| == |ps|
    ensures forall k :: 0 <= k < |as_| ==> Collect(as_, AsAmbiguous)[k] == Ambiguous(as_[k])
    ensures forall k :: 0 <= k < |ps| ==> Collect(ps, AsProposed)[k] == Proposed(ps[k])
  {
    if as_ != [] {
      AsOutputs(as_[..|as_| - 1], ps);
    } else if ps != [] {
      AsOutputs(as_, ps[..|ps| - 1]);
    }
  }

  ghost predicate OutputsAt(o: seq<Output>, confidence: real) {
    forall n :: 0 <= n < |o| && o[n].Proposed? ==> o[n].proposal.confidence == confidence
  }

  lemma AmbiguitiesAt(as_: seq<Ambiguity>, confidence: real)
    ensures OutputsAt(Collect(as_, AsAmbiguous), confidence)
  {
    AsOutputs(as_, []);
  }

  lemma ProposalsAt(ps: seq<Proposal>, confidence: real)
    requires AllAt(ps, confidence)
    ensures OutputsAt(Collect(ps, AsProposed), confidence)
  {
    AsOutputs([], ps);
  }

  /** More outputs at one confidence, no greater than those before but for mentions. */
  lemma Append(s: seq<Output>, o: seq<Output>, floor: real, confidence: real)
    requires DescendingButForMentions(s) && AtLeast(s, floor) && OutputsAt(o, confidence) && confidence <= floor
    ensures DescendingButForMentions(s + o)
    ensures AtLeast(s + o, if confidence == ISSUE_MENTION then floor else confidence)
  {
    forall n | 0 <= n < |s + o| ensures (s + o)[n] == if n < |s| then s[n] else o[n - |s|] {}
  }

  lemma NextRule(s: seq<Output>, r: RuleResult, floor: real, confidence: real)
    requires DescendingButForMentions(s) && AtLeast(s, floor)
    requires AllAt(r.proposals, confidence) && confidence <= floor && confidence != ISSUE_MENTION
    ensures var t := s + Collect(r.ambiguities, AsAmbiguous) + Collect(r.proposals, AsProposed);
            DescendingButForMentions(t) && AtLeast(t, confidence)
  {
    hide DescendingButForMentions, AtLeast, OutputsAt, AllAt, Collect;
    AmbiguitiesAt(r.ambiguities, floor);
    ProposalsAt(r.proposals, confidence);
    AtFloor(s, Collect(r.ambiguities, AsAmbiguous), floor);
    Append(s + Collect(r.ambiguities, AsAmbiguous), Collect(r.proposals, AsProposed), floor, confidence);
  }

  lemma AtFloor(s: seq<Output>, o: seq<Output>, floor: real)
    requires DescendingButForMentions(s) && AtLeast(s, floor) && OutputsAt(o, floor)
    ensures DescendingButForMentions(s + o) && AtLeast(s + o, floor)
  {
    hide DescendingButForMentions, AtLeast, OutputsAt;
    Append(s, o, floor, floor);
  }

  lemma IssueReferences(s: seq<Output>, r: RuleResult, k: nat)
    requires DescendingButForMentions(s) && AtLeast(s, 1.0)
    requires k <= |r.proposals| && AllAt(r.proposals[..k], ISSUE_RESOLVED) && AllAt(r.proposals[k..], ISSUE_MENTION)
    ensures var t := s + Collect(r.ambiguities, AsAmbiguous) + Collect(r.proposals, AsProposed);
            DescendingButForMentions(t) && AtLeast(t, 1.0)
  {
    hide DescendingButForMentions, AtLeast, OutputsAt, AllAt, Collect;
    var resolved, mentioned := r.proposals[..k], r.proposals[k..];
    var t := s + Collect(r.ambiguities, AsAmbiguous) + Collect(resolved, AsProposed);
    NextRule(s, RuleResult(resolved, r.ambiguities), 1.0, ISSUE_RESOLVED);
    ProposalsAt(mentioned, ISSUE_MENTION);
    Append(t, Collect(mentioned, AsProposed), 1.0, ISSUE_MENTION);
    assert r.proposals == resolved + mentioned;
    CollectConcat(resolved, mentioned, AsProposed);
    assert s + Collect(r.ambiguities, AsAmbiguous) + Collect(r.proposals, AsProposed) == t + Collect(mentioned, AsProposed);
  }

  lemma DefaultRulesDescend(results: seq<RuleResult>)
    requires FromDefaultRules(results)
    ensures DescendingButForMentions(Stream(results))
  {
    hide Collect, DescendingButForMentions, AtLeast, AllAt;
    NothingProposed();
    assert results[..0] == [] && results[..5] == results;
    StreamStep(results, 0);
    NextRule(Stream(results[..0]), results[0], 1.0, EXPLICIT_RUN_ID);
    StreamStep(results, 1);
    var k :| 0 <= k <= |results[1].proposals|
             && AllAt(results[1].proposals[..k], ISSUE_RESOLVED) && AllAt(results[1].proposals[k..], ISSUE_MENTION);
    IssueReferences(Stream(results[..1]), results[1], k);
    StreamStep(results, 2);
    NextRule(Stream(results[..2]), results[2], 1.0, BRANCH_ISSUE);
    StreamStep(results, 3);
    NextRule(Stream(results[..3]), results[3], BRANCH_ISSUE, COMMIT_ISSUE);
    StreamStep(results, 4);
    NextRule(Stream(results[..4]), results[4], COMMIT_ISSUE, TEMPORAL);
  }

  lemma NothingProposed()
    ensures DescendingButForMentions(Stream([])) && AtLeast(Stream([]), 1.0)
  {
  }

  /** A mention is the first word about an entity that a later rule proposes more confidently. */
  ghost predicate MentionOutbid(s: seq<Output>, j: nat, n: nat) {
    && Opens(s, j) && s[j].Proposed? && s[j].proposal.confidence == ISSUE_MENTION
    && j < n < |s| && s[n].Proposed? && s[n].Entity() == s[j].Entity() && s[n].proposal.confidence > ISSUE_MENTION
  }

  /** The default rules bind every entity at its highest proposed confidence if and only if no
      issue that is first merely mentioned is proposed again, with more confidence, by the
      branch, commit or temporal rule: the mention is the only leak. */
  lemma DefaultRulesBindHighestIff(results: seq<RuleResult>, ulids: Ulids, version: string,
                                   locked: set<string>, correlations: seq<Binding>, ambiguities: map<string, Ambiguity>)
    requires Resolved(locked, correlations, ambiguities, Stream(results), ulids, version)
    requires FromDefaultRules(results)
    ensures BindsHighest(correlations, Stream(results)) <==> !exists j, n :: MentionOutbid(Stream(results), j, n)
  {
    hide Stream, Resolved, FromDefaultRules;
    HighestConfidenceBoundIff(results, ulids, version, locked, correlations, ambiguities);
    DefaultRulesDescend(results);
    var s := Stream(results);
    if NeverOutbid(s) {
      assert forall j, n :: !MentionOutbid(s, j, n);
    } else {
      var j: nat, n :| Opens(s, j) && s[j].Proposed? && j < n < |s| && s[n].Proposed?
                       && s[n].Entity() == s[j].Entity() && s[n].proposal.confidence > s[j].proposal.confidence;
      assert MentionOutbid(s, j, n);
    }
  }

  /** And it does leak: an issue the owning change request merely mentions, whose number is also
      in the branch name, is bound at 0.1 although the branch rule proposes it at 0.8. */
  lemma MentionLocksBeforeBranch(results: seq<RuleResult>, ulids: Ulids, version: string,
                                 locked: set<string>, correlations: seq<Binding>, ambiguities: map<string, Ambiguity>)
    requires var owner := Proposal("change_request:9", ISSUE_RESOLVED, "issue_reference", ["title=Tidy up"]);
             var mention := Proposal("issue:7", ISSUE_MENTION, "issue_reference", ["mentioned #7"]);
             var branch := Proposal("issue:7", BRANCH_ISSUE, "branch_issue_reference", ["branch=tidy-7"]);
             results == [RuleResult([], []), RuleResult([owner, mention], []), RuleResult([branch], []),
                         RuleResult([], []), RuleResult([], [])]
    requires Resolved(locked, correlations, ambiguities, Stream(results), ulids, version)
    ensures FromDefaultRules(results)
    ensures exists i :: 0 <= i < |correlations| && correlations[i].entityId == "issue:7"
                        && correlations[i].confidence == ISSUE_MENTION
    ensures !BindsHighest(correlations, Stream(results))
  {
    var owner, mention, branch := results[1].proposals[0], results[1].proposals[1], results[2].proposals[0];
    assert results[1].proposals[..1] == [owner] && results[1].proposals[1..] == [mention];
    ThreeProposals(results, owner, mention, branch);
    hide Stream, Resolved, FromDefaultRules;
    var s := Stream(results);
    assert "change_request:9"[0] != "issue:7"[0];
    var i := OpeningIsBound(results, ulids, version, 1, locked, correlations, ambiguities);
    assert s[2].Entity() == correlations[i].entityId;
  }

  lemma OnlyProposals(results: seq<RuleResult>, i: nat, os: seq<Output>)
    requires i < |results| && results[i].ambiguities == [] && |os| == |results[i].proposals|
    requires forall k :: 0 <= k < |os| ==> os[k] == Proposed(results[i].proposals[k])
    ensures Stream(results[..i + 1]) == Stream(results[..i]) + os
  {
    AsOutputs([], results[i].proposals);
    StreamStep(results, i);
    hide Collect, Stream;
    assert Collect(results[i].ambiguities, AsAmbiguous) == [];
    assert Collect(results[i].proposals, AsProposed) == os;
    assert Stream(results[..i]) + [] == Stream(results[..i]);
  }

  lemma ThreeProposals(results: seq<RuleResult>, o: Proposal, p: Proposal, q: Proposal)
    requires |results| == 5 && results[1] == RuleResult([o, p], []) && results[2] == RuleResult([q], [])
    requires results[0] == results[3] == results[4] == RuleResult([], [])
    ensures Stream(results) == [Proposed(o), Proposed(p)] + [Proposed(q)]
  {
    hide Stream;
    NothingSaid();
    assert results[..0] == [] && results[..5] == results;
    OnlyProposals(results, 0, []);
    OnlyProposals(results, 1, [Proposed(o), Proposed(p)]);
    OnlyProposals(results, 2, [Proposed(q)]);
    OnlyProposals(results, 3, []);
    OnlyProposals(results, 4, []);
    Joined([Proposed(o), Proposed(p)], [Proposed(q)]);
  }

  lemma NothingSaid()
    ensures Stream([]) == []
  {
  }

  lemma Joined<T>(a: seq<T>, b: seq<T>)
    ensures [] + [] + a + b + [] + [] == a + b
  {
  }
}
