/** Lock-wins resolution: the outputs of the correlation rules, in rule order, and who gets
    bound to the run. */
module Correlation {
  import opened Options
  import opened Sequences

  datatype Proposal = Proposal(entityId: string, confidence: real, method_: string, evidence: seq<string>)
  datatype Ambiguity = Ambiguity(entityId: string, candidates: seq<string>, evidence: seq<string>)
  datatype RuleResult = RuleResult(proposals: seq<Proposal>, ambiguities: seq<Ambiguity>)

  datatype Binding = Binding(
    correlationId: string, runId: string, entityId: string, confidence: real, method_: string,
    evidence: seq<string>, resolverVersion: string)

  // ----- the outputs as one stream -----

  /** One output of a rule, in the order the engine reads them. */
  datatype Output = Ambiguous(ambiguity: Ambiguity) | Proposed(proposal: Proposal)
  {
    function Entity(): string {
      match this
      case Ambiguous(a) => a.entityId
      case Proposed(p) => p.entityId
    }
  }

  function AsAmbiguous(a: Ambiguity): Option<Output> {
    Some(Ambiguous(a))
  }

  function AsProposed(p: Proposal): Option<Output> {
    Some(Proposed(p))
  }

  /** Per rule, the ambiguities and then the proposals. */
  function Stream(results: seq<RuleResult>): seq<Output> {
    if results == [] then []
    else
      var last := results[|results| - 1];
      Stream(results[..|results| - 1]) + Collect(last.ambiguities, AsAmbiguous) + Collect(last.proposals, AsProposed)
  }

  predicate Mentions(s: seq<Output>, id: string) {
    exists k :: 0 <= k < |s| && s[k].Entity() == id
  }

  /** The outputs that are the first about their entity, in order. */
  function Firsts(s: seq<Output>): seq<Output> {
    if s == [] then []
    else
      var before, last := s[..|s| - 1], s[|s| - 1];
      Firsts(before) + if Mentions(before, last.Entity()) then [] else [last]
  }

  function ProposalIn(o: Output): Option<Proposal> {
    if o.Proposed? then Some(o.proposal) else None
  }

  /** The first output about `id`. */
  function FirstAbout(s: seq<Output>, id: string): Option<Output> {
    if s == [] then None
    else
      var before, last := s[..|s| - 1], s[|s| - 1];
      if FirstAbout(before, id).Some? then FirstAbout(before, id)
      else if last.Entity() == id then Some(last) else None
  }

  /** The proposals that lock their entity: those that are the first word about it. */
  function Locking(s: seq<Output>): seq<Proposal> {
    Collect(Firsts(s), ProposalIn)
  }

  /** What a run gives out as identifiers: the k-th call of its ULID source. */
  type Ulids = nat -> string

  function Bind(p: Proposal, k: nat, runId: string, ulids: Ulids, version: string): Binding {
    Binding(ulids(k + 1), runId, p.entityId, p.confidence, p.method_, p.evidence, version)
  }

  /** The correlations of a stream; the run itself took the first identifier. */
  function Bindings(ps: seq<Proposal>, ulids: Ulids, version: string): (bs: seq<Binding>)
    ensures |bs| == |ps|
    ensures forall k :: 0 <= k < |ps| ==> bs[k] == Bind(ps[k], k, ulids(0), ulids, version)
  {
    seq(|ps|, k requires 0 <= k < |ps| => Bind(ps[k], k, ulids(0), ulids, version))
  }

  /** The entities whose first output is an ambiguity, with that ambiguity. */
  ghost predicate AmbiguitiesOf(m: map<string, Ambiguity>, s: seq<Output>) {
    forall id :: if FirstAbout(s, id).Some? && FirstAbout(s, id).value.Ambiguous?
                 then id in m && m[id] == FirstAbout(s, id).value.ambiguity
                 else id !in m
  }

  ghost predicate Resolved(locked: set<string>, correlations: seq<Binding>, ambiguities: map<string, Ambiguity>,
                           s: seq<Output>, ulids: Ulids, version: string)
  {
    && correlations == Bindings(Locking(s), ulids, version)
    && AmbiguitiesOf(ambiguities, s)
    && (forall id :: id in locked <==> FirstAbout(s, id).Some? && FirstAbout(s, id).value.Proposed?)
  }

  lemma {:induction false} MentionsIffFirst(s: seq<Output>, id: string)
    ensures Mentions(s, id) <==> FirstAbout(s, id).Some?
    ensures FirstAbout(s, id).Some? ==> FirstAbout(s, id).value.Entity() == id && FirstAbout(s, id).value in s
  {
    if s != [] {
      var before, last := s[..|s| - 1], s[|s| - 1];
      MentionsIffFirst(before, id);
      assert s == before + [last];
      if Mentions(s, id) && last.Entity() != id {
        var k :| 0 <= k < |s| && s[k].Entity() == id;
        assert before[k].Entity() == id;
      }
      if Mentions(before, id) {
        var k :| 0 <= k < |before| && before[k].Entity() == id;
        assert s[k].Entity() == id;
      }
    }
  }

  lemma FirstAboutStep(s: seq<Output>, o: Output, id: string)
    ensures FirstAbout(s + [o], id)
            == if FirstAbout(s, id).None? && o.Entity() == id then Some(o) else FirstAbout(s, id)
  {
    assert (s + [o])[..|s|] == s;
  }

  lemma LockingStep(s: seq<Output>, o: Output)
    ensures Locking(s + [o])
            == if o.Proposed? && FirstAbout(s, o.Entity()).None? then Locking(s) + [o.proposal] else Locking(s)
  {
    assert (s + [o])[..|s|] == s;
    MentionsIffFirst(s, o.Entity());
    var f := Firsts(s);
    if !Mentions(s, o.Entity()) {
      assert (f + [o])[..|f|] == f;
    } else {
      assert f + [] == f;
    }
  }

  lemma BindingsStep(ps: seq<Proposal>, p: Proposal, ulids: Ulids, version: string)
    ensures Bindings(ps + [p], ulids, version)
            == Bindings(ps, ulids, version) + [Bind(p, |ps|, ulids(0), ulids, version)]
  {
  }

  /** Reading one more ambiguity. */
  lemma ReadAmbiguity(locked: set<string>, correlations: seq<Binding>, ambiguities: map<string, Ambiguity>,
                      s: seq<Output>, a: Ambiguity, ulids: Ulids, version: string)
    requires Resolved(locked, correlations, ambiguities, s, ulids, version)
    ensures if a.entityId in locked || a.entityId in ambiguities
            then Resolved(locked, correlations, ambiguities, s + [Ambiguous(a)], ulids, version)
            else Resolved(locked, correlations, ambiguities[a.entityId := a], s + [Ambiguous(a)], ulids, version)
  {
    hide Locking, FirstAbout, Bindings;
    forall id { FirstAboutStep(s, Ambiguous(a), id); }
    LockingStep(s, Ambiguous(a));
  }

  /** Reading one more proposal. */
  lemma ReadProposal(locked: set<string>, correlations: seq<Binding>, ambiguities: map<string, Ambiguity>,
                     s: seq<Output>, p: Proposal, ulids: Ulids, version: string)
    requires Resolved(locked, correlations, ambiguities, s, ulids, version)
    ensures if p.entityId in locked || p.entityId in ambiguities
            then Resolved(locked, correlations, ambiguities, s + [Proposed(p)], ulids, version)
            else Resolved(locked + {p.entityId},
                          correlations + [Bind(p, |correlations|, ulids(0), ulids, version)],
                          ambiguities, s + [Proposed(p)], ulids, version)
  {
    hide Locking, FirstAbout;
    forall id { FirstAboutStep(s, Proposed(p), id); }
    LockingStep(s, Proposed(p));
    BindingsStep(Locking(s), p, ulids, version);
  }

  lemma StreamStep(results: seq<RuleResult>, i: nat)
    requires i < |results|
    ensures Stream(results[..i + 1])
            == Stream(results[..i]) + Collect(results[i].ambiguities, AsAmbiguous) + Collect(results[i].proposals, AsProposed)
  {
    assert results[..i + 1][..i] == results[..i];
  }

  /** The inner loop over the ambiguities of one rule. */
  method ReadAmbiguities(as_: seq<Ambiguity>, locks: set<string>, ambiguities0: map<string, Ambiguity>,
                         ghost correlations: seq<Binding>, ghost s: seq<Output>, ghost ulids: Ulids, ghost version: string)
    returns (ambiguities: map<string, Ambiguity>)
    requires Resolved(locks, correlations, ambiguities0, s, ulids, version)
    ensures Resolved(locks, correlations, ambiguities, s + Collect(as_, AsAmbiguous), ulids, version)
  {
    hide Resolved;
    ambiguities := ambiguities0;
    assert s + Collect(as_[..0], AsAmbiguous) == s;
    for j := 0 to |as_|
      invariant Resolved(locks, correlations, ambiguities, s + Collect(as_[..j], AsAmbiguous), ulids, version)
    {
      var a := as_[j];
      ReadAmbiguity(locks, correlations, ambiguities, s + Collect(as_[..j], AsAmbiguous), a, ulids, version);
      CollectStep(as_, j, AsAmbiguous);
      assert s + Collect(as_[..j], AsAmbiguous) + [Ambiguous(a)] == s + Collect(as_[..j + 1], AsAmbiguous);
      if a.entityId in locks || a.entityId in ambiguities {
        continue;
      }
      ambiguities := ambiguities[a.entityId := a];
    }
    assert as_[..|as_|] == as_;
  }

  /** The inner loop over the proposals of one rule. */
  method ReadProposals(ps: seq<Proposal>, locks0: set<string>, correlations0: seq<Binding>,
                       ambiguities: map<string, Ambiguity>, ghost s: seq<Output>, ulids: Ulids, version: string)
    returns (locks: set<string>, correlations: seq<Binding>)
    requires Resolved(locks0, correlations0, ambiguities, s, ulids, version)
    ensures Resolved(locks, correlations, ambiguities, s + Collect(ps, AsProposed), ulids, version)
  {
    hide Resolved;
    locks, correlations := locks0, correlations0;
    assert s + Collect(ps[..0], AsProposed) == s;
    for j := 0 to |ps|
      invariant Resolved(locks, correlations, ambiguities, s + Collect(ps[..j], AsProposed), ulids, version)
    {
      var p := ps[j];
      ReadProposal(locks, correlations, ambiguities, s + Collect(ps[..j], AsProposed), p, ulids, version);
      CollectStep(ps, j, AsProposed);
      assert s + Collect(ps[..j], AsProposed) + [Proposed(p)] == s + Collect(ps[..j + 1], AsProposed);
      if p.entityId in locks || p.entityId in ambiguities {
        continue;
      }
      correlations := correlations + [Bind(p, |correlations|, ulids(0), ulids, version)];
      locks := locks + {p.entityId};
    }
    assert ps[..|ps|] == ps;
  }

  /** `CorrelationEngine.resolve` up to the correlations: the first lock wins. */
  method Resolve(results: seq<RuleResult>, ulids: Ulids, version: string)
    returns (correlations: seq<Binding>, ambiguities: map<string, Ambiguity>, locked: set<string>)
    ensures Resolved(locked, correlations, ambiguities, Stream(results), ulids, version)
  {
    var locks: set<string> := {};
    correlations, ambiguities := [], map[];
    for i := 0 to |results|
      invariant Resolved(locks, correlations, ambiguities, Stream(results[..i]), ulids, version)
    {
      hide Resolved, Stream;
      ghost var s := Stream(results[..i]);
      ambiguities := ReadAmbiguities(results[i].ambiguities, locks, ambiguities, correlations, s, ulids, version);
      locks, correlations := ReadProposals(results[i].proposals, locks, correlations, ambiguities,
                                           s + Collect(results[i].ambiguities, AsAmbiguous), ulids, version);
      StreamStep(results, i);
    }
    assert results[..|results|] == results;
    locked := locks;
  }

  // ----- what lock-wins promises -----

  lemma {:induction false} FirstsAreFirst(s: seq<Output>)
    ensures forall o :: o in Firsts(s) <==> FirstAbout(s, o.Entity()) == Some(o)
    ensures forall i, j :: 0 <= i < j < |Firsts(s)| ==> Firsts(s)[i].Entity() != Firsts(s)[j].Entity()
  {
    if s != [] {
      var before, last := s[..|s| - 1], s[|s| - 1];
      assert s == before + [last];
      FirstsAreFirst(before);
      MentionsIffFirst(before, last.Entity());
      var f := Firsts(before);
      forall i | 0 <= i < |f| && FirstAbout(before, last.Entity()).None? ensures f[i].Entity() != last.Entity() {
        assert f[i] in f;
      }
    }
  }

  lemma {:induction false} LockingIsFirst(fs: seq<Output>, p: Proposal)
    ensures p in Collect(fs, ProposalIn) <==> Proposed(p) in fs
  {
    if fs != [] {
      var before, last := fs[..|fs| - 1], fs[|fs| - 1];
      assert fs == before + [last];
      LockingIsFirst(before, p);
    }
  }

  lemma {:induction false} LockingEntitiesDiffer(fs: seq<Output>)
    requires forall i, j :: 0 <= i < j < |fs| ==> fs[i].Entity() != fs[j].Entity()
    ensures var ps := Collect(fs, ProposalIn);
            forall i, j :: 0 <= i < j < |ps| ==> ps[i].entityId != ps[j].entityId
  {
    if fs != [] {
      var before, last := fs[..|fs| - 1], fs[|fs| - 1];
      assert fs == before + [last];
      LockingEntitiesDiffer(before);
      var ps := Collect(before, ProposalIn);
      forall i | 0 <= i < |ps| ensures ps[i].entityId != last.Entity() {
        LockingIsFirst(before, ps[i]);
        var k :| 0 <= k < |before| && before[k] == Proposed(ps[i]);
        assert fs[k].Entity() != fs[|fs| - 1].Entity();
      }
    }
  }

  /** The locking proposals are the first words that are proposals, one per entity. */
  lemma LockingProposals(s: seq<Output>)
    ensures forall i, j :: 0 <= i < j < |Locking(s)| ==> Locking(s)[i].entityId != Locking(s)[j].entityId
    ensures forall p :: p in Locking(s) <==> FirstAbout(s, p.entityId) == Some(Proposed(p))
  {
    FirstsAreFirst(s);
    LockingEntitiesDiffer(Firsts(s));
    hide Firsts, FirstAbout;
    forall p ensures p in Locking(s) <==> FirstAbout(s, p.entityId) == Some(Proposed(p)) {
      LockingIsFirst(Firsts(s), p);
      assert Proposed(p).Entity() == p.entityId;
    }
  }

  /** Lock-wins in closed form: an entity is correlated exactly when the first output about it
      is a proposal, and then by that proposal; it is ambiguous exactly when the first output
      is an ambiguity; so never both, and never correlated twice. */
  lemma FirstWordWins(results: seq<RuleResult>, ulids: Ulids, version: string,
                      locked: set<string>, correlations: seq<Binding>, ambiguities: map<string, Ambiguity>)
    requires Resolved(locked, correlations, ambiguities, Stream(results), ulids, version)
    ensures forall i, j :: 0 <= i < j < |correlations| ==> correlations[i].entityId != correlations[j].entityId
    ensures forall i :: 0 <= i < |correlations| ==>
              var first := FirstAbout(Stream(results), correlations[i].entityId);
              && first.Some? && first.value.Proposed?
              && correlations[i] == Bind(first.value.proposal, i, ulids(0), ulids, version)
              && correlations[i].entityId !in ambiguities
  {
    hide Stream, Locking, FirstAbout;
    LockingProposals(Stream(results));
    var ps := Locking(Stream(results));
    forall i | 0 <= i < |ps| ensures FirstAbout(Stream(results), ps[i].entityId) == Some(Proposed(ps[i])) {
      assert ps[i] in ps;
    }
  }

  /** No entity a rule spoke about is dropped: it is correlated or ambiguous. */
  lemma EveryEntityIsDecided(results: seq<RuleResult>, ulids: Ulids, version: string, id: string,
                             locked: set<string>, correlations: seq<Binding>, ambiguities: map<string, Ambiguity>)
    requires Resolved(locked, correlations, ambiguities, Stream(results), ulids, version)
    requires Mentions(Stream(results), id)
    ensures id in ambiguities || exists i :: 0 <= i < |correlations| && correlations[i].entityId == id
  {
    var s := Stream(results);
    MentionsIffFirst(s, id);
    hide Stream, Locking, FirstAbout;
    if id !in ambiguities {
      var p := FirstAbout(s, id).value.proposal;
      LockingProposals(s);
      assert p.entityId == id;
      var ps := Locking(s);
      var i :| 0 <= i < |ps| && ps[i] == p;
      assert correlations[i].entityId == id;
    }
  }

  lemma {:induction false} LockingGrows(s: seq<Output>, t: seq<Output>)
    ensures Locking(s) <= Locking(s + t)
  {
    if t == [] {
      assert s + t == s;
    } else {
      var before, last := t[..|t| - 1], t[|t| - 1];
      LockingGrows(s, before);
      assert s + t == (s + before) + [last];
      LockingStep(s + before, last);
    }
  }

  lemma {:induction false} StreamGrows(a: seq<RuleResult>, b: seq<RuleResult>)
    ensures Stream(a) <= Stream(a + b)
  {
    if b == [] {
      assert a + b == a;
    } else {
      assert (a + b)[..|a + b| - 1] == a + b[..|b| - 1];
      StreamGrows(a, b[..|b| - 1]);
    }
  }

  /** Rules of lower rank never override: with more rules after them, the correlations of the
      earlier rules stay, with their identifiers, as a prefix. */
  lemma LaterRulesNeverOverride(a: seq<RuleResult>, b: seq<RuleResult>, ulids: Ulids, version: string)
    ensures Bindings(Locking(Stream(a)), ulids, version) <= Bindings(Locking(Stream(a + b)), ulids, version)
  {
    StreamGrows(a, b);
    var s, t := Stream(a), Stream(a + b);
    assert t == s + t[|s|..];
    LockingGrows(s, t[|s|..]);
  }
}
