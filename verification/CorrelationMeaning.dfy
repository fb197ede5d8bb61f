/** What a resolution decides, in terms of the rules' outputs: whose word about an entity is the
    first, and what the correlation then carries. */
module CorrelationMeaning {
  import opened Options
  import opened Sequences
  import opened Correlation
  import opened ConfidenceLaws

  // ----- places in the rule outputs -----

  /** The k-th ambiguity, or the k-th proposal, of the rule `rule`. */
  datatype Place = Place(rule: nat, proposal: bool, k: nat)

  predicate IsPlace(results: seq<RuleResult>, x: Place) {
    x.rule < |results| && x.k < if x.proposal then |results[x.rule].proposals| else |results[x.rule].ambiguities|
  }

  function EntityAt(results: seq<RuleResult>, x: Place): string
    requires IsPlace(results, x)
  {
    if x.proposal then results[x.rule].proposals[x.k].entityId else results[x.rule].ambiguities[x.k].entityId
  }

  /** Rule by rule; within a rule the ambiguities before the proposals; each in its order. */
  predicate ReadBefore(x: Place, y: Place) {
    || x.rule < y.rule
    || (x.rule == y.rule && !x.proposal && y.proposal)
    || (x.rule == y.rule && x.proposal == y.proposal && x.k < y.k)
  }

  /** The first word about `id`. */
  ghost predicate FirstWord(results: seq<RuleResult>, x: Place, id: string) {
    && IsPlace(results, x) && EntityAt(results, x) == id
    && forall y :: IsPlace(results, y) && ReadBefore(y, x) ==> EntityAt(results, y) != id
  }

  // ----- the stream, place by place -----

  function OutputAt(results: seq<RuleResult>, x: Place): Output
    requires IsPlace(results, x)
  {
    if x.proposal then Proposed(results[x.rule].proposals[x.k]) else Ambiguous(results[x.rule].ambiguities[x.k])
  }

  function Position(results: seq<RuleResult>, x: Place): nat
    requires IsPlace(results, x)
  {
    |Stream(results[..x.rule])| + x.k + if x.proposal then |results[x.rule].ambiguities| else 0
  }

  lemma RuleLength(results: seq<RuleResult>, i: nat)
    requires i < |results|
    ensures |Stream(results[..i + 1])|
            == |Stream(results[..i])| + |results[i].ambiguities| + |results[i].proposals|
  {
    StreamStep(results, i);
    AsOutputs(results[i].ambiguities, results[i].proposals);
  }

  lemma {:induction false} LaterRulesLater(results: seq<RuleResult>, i: nat, j: nat)
    requires i < j <= |results|
    ensures |Stream(results[..i + 1])| <= |Stream(results[..j])|
  {
    if i + 1 < j {
      LaterRulesLater(results, i, j - 1);
      RuleLength(results, j - 1);
    }
  }

  lemma PositionsAscend(results: seq<RuleResult>, x: Place, y: Place)
    requires IsPlace(results, x) && IsPlace(results, y) && ReadBefore(x, y)
    ensures Position(results, x) < Position(results, y)
  {
    hide Stream;
    if x.rule < y.rule {
      RuleLength(results, x.rule);
      LaterRulesLater(results, x.rule, y.rule);
    }
  }

  lemma StreamSplits(results: seq<RuleResult>) returns (s: seq<Output>, a: seq<Output>, p: seq<Output>)
    requires results != []
    ensures var r := results[|results| - 1];
            && s == Stream(results[..|results| - 1]) && Stream(results) == s + a + p
            && |a| == |r.ambiguities| && |p| == |r.proposals|
            && (forall k :: 0 <= k < |a| ==> a[k] == Ambiguous(r.ambiguities[k]))
            && (forall k :: 0 <= k < |p| ==> p[k] == Proposed(r.proposals[k]))
  {
    var n := |results|;
    StreamStep(results, n - 1);
    assert results[..n] == results;
    AsOutputs(results[n - 1].ambiguities, results[n - 1].proposals);
    s := Stream(results[..n - 1]);
    a, p := Collect(results[n - 1].ambiguities, AsAmbiguous), Collect(results[n - 1].proposals, AsProposed);
  }

  lemma {:induction false} OutputThere(results: seq<RuleResult>, x: Place)
    requires IsPlace(results, x)
    ensures Position(results, x) < |Stream(results)| && Stream(results)[Position(results, x)] == OutputAt(results, x)
  {
    hide Stream;
    var s, a, p := StreamSplits(results);
    if x.rule < |results| - 1 {
      var before := results[..|results| - 1];
      OutputThere(before, x);
      assert before[..x.rule] == results[..x.rule] && before[x.rule] == results[x.rule];
      InFirstSegment(s, a, p, Position(results, x));
    } else {
      InLastSegment(s, a, p, x.k);
    }
  }

  lemma InLastSegment(s: seq<Output>, a: seq<Output>, p: seq<Output>, k: nat)
    ensures k < |a| ==> (s + a + p)[|s| + k] == a[k]
    ensures k < |p| ==> (s + a + p)[|s| + k + |a|] == p[k]
  {
  }

  lemma InFirstSegment(s: seq<Output>, a: seq<Output>, p: seq<Output>, n: nat)
    requires n < |s|
    ensures (s + a + p)[n] == s[n]
  {
  }

  lemma {:induction false} PlaceOf(results: seq<RuleResult>, n: nat) returns (x: Place)
    requires n < |Stream(results)|
    ensures IsPlace(results, x) && Position(results, x) == n
  {
    var i := |results| - 1;
    assert results[..i + 1] == results;
    RuleLength(results, i);
    var start := |Stream(results[..i])|;
    if n < start {
      var before := results[..i];
      x := PlaceOf(before, n);
      assert before[..x.rule] == results[..x.rule] && before[x.rule] == results[x.rule];
    } else if n < start + |results[i].ambiguities| {
      x := Place(i, false, n - start);
    } else {
      x := Place(i, true, n - start - |results[i].ambiguities|);
    }
  }

  lemma ReadBeforeTotal(x: Place, y: Place)
    ensures x == y || ReadBefore(x, y) || ReadBefore(y, x)
  {
  }

  lemma FirstWordOpens(results: seq<RuleResult>, x: Place, id: string)
    requires FirstWord(results, x, id)
    ensures Opens(Stream(results), Position(results, x))
    ensures FirstAbout(Stream(results), id) == Some(OutputAt(results, x))
  {
    hide Stream, Position;
    var s, n := Stream(results), Position(results, x);
    OutputThere(results, x);
    forall m: nat | m < n ensures s[m].Entity() != s[n].Entity() {
      var y := PlaceOf(results, m);
      OutputThere(results, y);
      ReadBeforeTotal(x, y);
      if ReadBefore(x, y) {
        PositionsAscend(results, x, y);
      }
    }
    OpeningIsFirst(s, n);
  }

  lemma OpeningIsFirstWord(results: seq<RuleResult>, n: nat) returns (x: Place)
    requires Opens(Stream(results), n)
    ensures FirstWord(results, x, Stream(results)[n].Entity()) && Position(results, x) == n
    ensures Stream(results)[n] == OutputAt(results, x)
  {
    hide Stream, Position;
    x := PlaceOf(results, n);
    OutputThere(results, x);
    forall y | IsPlace(results, y) && ReadBefore(y, x) ensures EntityAt(results, y) != EntityAt(results, x) {
      PositionsAscend(results, y, x);
      OutputThere(results, y);
      assert Stream(results)[Position(results, y)].Entity() == EntityAt(results, y);
    }
  }

  // ----- the fate of an entity -----

  /** A correlation made of a proposal of the run: the run's identifier is the first one drawn. */
  predicate MadeOf(c: Binding, p: Proposal, ulids: Ulids, version: string) {
    && c.entityId == p.entityId && c.confidence == p.confidence && c.method_ == p.method_ && c.evidence == p.evidence
    && c.runId == ulids(0) && c.resolverVersion == version
  }

  predicate Correlated(correlations: seq<Binding>, id: string) {
    exists i :: 0 <= i < |correlations| && correlations[i].entityId == id
  }

  lemma SomethingCorrelated(results: seq<RuleResult>, ulids: Ulids, version: string, i: nat,
                            locked: set<string>, correlations: seq<Binding>, ambiguities: map<string, Ambiguity>)
    returns (x: Place)
    requires Resolved(locked, correlations, ambiguities, Stream(results), ulids, version) && i < |correlations|
    ensures FirstWord(results, x, correlations[i].entityId) && x.proposal
    ensures MadeOf(correlations[i], results[x.rule].proposals[x.k], ulids, version)
    ensures correlations[i].correlationId == ulids(i + 1)
  {
    FirstWordWins(results, ulids, version, locked, correlations, ambiguities);
    hide Stream, Resolved, FirstAbout, Position, FirstWord;
    var s := Stream(results);
    var n := FirstOpens(s, correlations[i].entityId);
    x := OpeningIsFirstWord(results, n);
  }

  /** Lock-wins, output by output: an entity is correlated if the first word about it is a proposal,
      and by that proposal; it is ambiguous if the first word is an ambiguity, and with that one;
      and of what no rule speaks nothing is decided.  Every correlation draws its own identifier,
      in order, after the run's. */
  lemma FateOf(results: seq<RuleResult>, ulids: Ulids, version: string, id: string,
               locked: set<string>, correlations: seq<Binding>, ambiguities: map<string, Ambiguity>)
    requires Resolved(locked, correlations, ambiguities, Stream(results), ulids, version)
    ensures Correlated(correlations, id) <==> exists x :: FirstWord(results, x, id) && x.proposal
    ensures id in ambiguities <==> exists x :: FirstWord(results, x, id) && !x.proposal
    ensures forall x :: FirstWord(results, x, id) && !x.proposal ==> ambiguities[id] == results[x.rule].ambiguities[x.k]
    ensures forall i, x :: 0 <= i < |correlations| && correlations[i].entityId == id && FirstWord(results, x, id) ==>
                             x.proposal && MadeOf(correlations[i], results[x.rule].proposals[x.k], ulids, version)
    ensures forall i :: 0 <= i < |correlations| ==> correlations[i].correlationId == ulids(i + 1)
  {
    hide Stream, FirstWord, FirstAbout, Locking, Position;
    var s := Stream(results);
    forall i | 0 <= i < |correlations| && correlations[i].entityId == id
      ensures exists x :: IsPlace(results, x) && FirstWord(results, x, id) && x.proposal
                          && MadeOf(correlations[i], results[x.rule].proposals[x.k], ulids, version)
    {
      var x := SomethingCorrelated(results, ulids, version, i, locked, correlations, ambiguities);
      PlaceOfWord(results, x, id);
    }
    forall i | 0 <= i < |correlations| ensures correlations[i].correlationId == ulids(i + 1) {
      var x := SomethingCorrelated(results, ulids, version, i, locked, correlations, ambiguities);
    }
    forall x | FirstWord(results, x, id) ensures IsPlace(results, x) { PlaceOfWord(results, x, id); }
    forall x | IsPlace(results, x) && FirstWord(results, x, id)
      ensures FirstAbout(s, id) == Some(OutputAt(results, x))
      ensures x.proposal ==> Correlated(correlations, id)
    {
      PlaceOfWord(results, x, id);
      FirstWordOpens(results, x, id);
      OutputThere(results, x);
      if x.proposal {
        var i := OpeningIsBound(results, ulids, version, Position(results, x), locked, correlations, ambiguities);
      }
    }
    forall x, y | FirstWord(results, x, id) && FirstWord(results, y, id) ensures x == y { OneFirstWord(results, x, y, id); }
    if FirstAbout(s, id).Some? {
      var n := FirstOpens(s, id);
      var x := OpeningIsFirstWord(results, n);
    }
  }

  lemma PlaceOfWord(results: seq<RuleResult>, x: Place, id: string)
    requires FirstWord(results, x, id)
    ensures IsPlace(results, x) && EntityAt(results, x) == id
  {
  }

  lemma OneFirstWord(results: seq<RuleResult>, x: Place, y: Place, id: string)
    requires FirstWord(results, x, id) && FirstWord(results, y, id)
    ensures x == y
  {
    ReadBeforeTotal(x, y);
  }

  // ----- the order of the correlations -----

  lemma {:induction false} LockingPositions(s: seq<Output>, i: nat, j: nat) returns (n: nat, m: nat)
    requires i < j < |Locking(s)|
    ensures n < m < |s| && Opens(s, n) && Opens(s, m)
    ensures s[n] == Proposed(Locking(s)[i]) && s[m] == Proposed(Locking(s)[j])
  {
    var before, last := s[..|s| - 1], s[|s| - 1];
    assert s == before + [last];
    LockingStep(before, last);
    LockingProposals(s);
    if j < |Locking(before)| {
      n, m := LockingPositions(before, i, j);
      assert forall l :: 0 <= l <= m ==> before[l] == s[l];
    } else {
      n := OneLockingPosition(before, i);
      assert forall l :: 0 <= l < |before| ==> before[l] == s[l];
      m := |s| - 1;
      MentionsIffFirst(before, last.Entity());
    }
  }

  lemma OneLockingPosition(s: seq<Output>, i: nat) returns (n: nat)
    requires i < |Locking(s)|
    ensures Opens(s, n) && s[n] == Proposed(Locking(s)[i])
  {
    LockingProposals(s);
    hide Locking, FirstAbout;
    var p := Locking(s)[i];
    assert p in Locking(s);
    n := FirstOpens(s, p.entityId);
  }

  /** Correlations come in the order in which their proposals are read. */
  lemma CorrelationsInOrder(results: seq<RuleResult>, ulids: Ulids, version: string,
                            locked: set<string>, correlations: seq<Binding>, ambiguities: map<string, Ambiguity>, i: nat, j: nat)
    returns (x: Place, y: Place)
    requires Resolved(locked, correlations, ambiguities, Stream(results), ulids, version) && i < j < |correlations|
    ensures FirstWord(results, x, correlations[i].entityId) && FirstWord(results, y, correlations[j].entityId)
    ensures ReadBefore(x, y)
  {
    hide Stream, Locking, FirstAbout, FirstWord, Position;
    var s := Stream(results);
    var n, m := LockingPositions(s, i, j);
    x := OpeningIsFirstWord(results, n);
    y := OpeningIsFirstWord(results, m);
    assert IsPlace(results, x) && IsPlace(results, y) by {
      PlaceOfWord(results, x, s[n].Entity());
      PlaceOfWord(results, y, s[m].Entity());
    }
    ReadBeforeTotal(x, y);
    if ReadBefore(y, x) {
      PositionsAscend(results, y, x);
    }
  }
}
