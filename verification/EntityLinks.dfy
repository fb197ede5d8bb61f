/** Entity links of a run: duplicate entity copies collapse, then four passes link every
    entity at most once. */
module EntityLinks {
  import opened Options
  import opened Sequences
  import opened Text

  datatype EntityKind = Issue | ChangeRequest | Commit | Review | MergeEvent | OtherKind

  datatype Entity = Entity(
    id: string, kind: EntityKind, number: Option<int>, title: Option<string>, description: Option<string>,
    owner: Option<string>)

  /** The text patterns, as functions from a text to the numbers it names. */
  datatype Patterns = Patterns(issueNumbers: string -> set<int>, resolvedNumbers: string -> set<int>)

  datatype Role = ResolvedRole | ReferencedRole | NoiseRole
  datatype LinkSource = Direct | FromOwner
  datatype EntityLink = EntityLink(entityId: string, role: Role, confidence: real, source: LinkSource)

  /** A correlation, as far as links need it. */
  datatype Bound = Bound(entityId: string, confidence: real)

  /** What follows the first colon of an identifier. */
  function AfterColon(id: string): string {
    if id == [] then [] else if id[0] == ':' then id[1..] else AfterColon(id[1..])
  }

  // ----- the owning change request -----

  function Titled(title: Option<string>): Entity -> bool {
    (e: Entity) => e.kind.ChangeRequest? && e.title == title
  }

  /** The change request with the title of the run, if the fetch has exactly one. */
  function OwningChangeRequest(es: seq<Entity>, title: Option<string>): Option<Entity> {
    var matches := Filter(es, Titled(title));
    if |matches| == 1 then Some(matches[0]) else None
  }

  ghost predicate OnlyAt(es: seq<Entity>, p: Entity -> bool, i: nat) {
    i < |es| && p(es[i]) && forall j :: 0 <= j < |es| && j != i ==> !p(es[j])
  }

  lemma {:induction false} OneMatch(es: seq<Entity>, p: Entity -> bool, i: nat)
    requires OnlyAt(es, p, i)
    ensures Filter(es, p) == [es[i]]
  {
    var before := es[..|es| - 1];
    if i == |es| - 1 {
      FilterAllOrNone(before, p, false);
    } else {
      OneMatch(before, p, i);
    }
  }

  lemma {:induction false} MatchPosition(es: seq<Entity>, p: Entity -> bool) returns (i: nat)
    requires |Filter(es, p)| == 1
    ensures OnlyAt(es, p, i)
  {
    var before, last := es[..|es| - 1], es[|es| - 1];
    if p(last) {
      i := |es| - 1;
      FilterMembers(before, p);
      forall j | 0 <= j < |before| ensures !p(es[j]) {
        assert before[j] == es[j] && before[j] in before;
        assert Filter(before, p) == [];
      }
    } else {
      i := MatchPosition(before, p);
      assert before[i] == es[i];
      assert forall j :: 0 <= j < |before| ==> before[j] == es[j];
    }
  }

  /** No owner is guessed: a run has an owning change request exactly when one single fetched
      copy carries its title.  Two copies of the same change request already make it none. */
  lemma OwnerIsTheOnlyMatch(es: seq<Entity>, title: Option<string>, e: Entity)
    ensures OwningChangeRequest(es, title) == Some(e)
            <==> exists i: nat :: OnlyAt(es, Titled(title), i) && es[i] == e
  {
    hide Titled;
    if |Filter(es, Titled(title))| == 1 {
      var i := MatchPosition(es, Titled(title));
      OneMatch(es, Titled(title), i);
    }
    forall i: nat | OnlyAt(es, Titled(title), i) ensures OwningChangeRequest(es, title) == Some(es[i]) {
      OneMatch(es, Titled(title), i);
    }
  }

  // ----- collapsing duplicate copies -----

  function FirstWhere(es: seq<Entity>, p: Entity -> bool): Option<Entity> {
    if es == [] then None
    else
      var before := FirstWhere(es[..|es| - 1], p);
      if before.Some? then before else if p(es[|es| - 1]) then Some(es[|es| - 1]) else None
  }

  function HasId(id: string): Entity -> bool {
    (e: Entity) => e.id == id
  }

  function OwnedCopy(id: string, owner: Option<string>): Entity -> bool {
    (e: Entity) => e.id == id && owner.Some? && e.owner == owner
  }

  /** The copy that stays: the first one the owning change request carries, else the first. */
  function Kept(es: seq<Entity>, id: string, owner: Option<string>): Option<Entity> {
    if FirstWhere(es, OwnedCopy(id, owner)).Some? then FirstWhere(es, OwnedCopy(id, owner))
    else FirstWhere(es, HasId(id))
  }

  /** The distinct identifiers in order of first appearance. */
  function FirstIds(es: seq<Entity>): seq<string> {
    if es == [] then []
    else
      var before := FirstIds(es[..|es| - 1]);
      if es[|es| - 1].id in before then before else before + [es[|es| - 1].id]
  }

  lemma FirstWhereStep(es: seq<Entity>, e: Entity, p: Entity -> bool)
    ensures FirstWhere(es + [e], p)
            == if FirstWhere(es, p).Some? then FirstWhere(es, p) else if p(e) then Some(e) else None
  {
    assert (es + [e])[..|es|] == es;
  }

  lemma {:induction false} FirstWhereFound(es: seq<Entity>, p: Entity -> bool)
    ensures FirstWhere(es, p).Some? ==> FirstWhere(es, p).value in es && p(FirstWhere(es, p).value)
    ensures FirstWhere(es, p).Some? <==> exists e :: e in es && p(e)
  {
    if es != [] {
      var before, last := es[..|es| - 1], es[|es| - 1];
      FirstWhereFound(before, p);
      assert es == before + [last];
    }
  }

  lemma {:induction false} FirstIdsMembers(es: seq<Entity>)
    ensures forall id :: id in FirstIds(es) <==> exists e :: e in es && e.id == id
    ensures forall i, j :: 0 <= i < j < |FirstIds(es)| ==> FirstIds(es)[i] != FirstIds(es)[j]
  {
    if es != [] {
      var before, last := es[..|es| - 1], es[|es| - 1];
      FirstIdsMembers(before);
      assert es == before + [last];
    }
  }

  ghost predicate HoldsKept(order: seq<string>, table: map<string, Entity>, es: seq<Entity>, owner: Option<string>) {
    && order == FirstIds(es)
    && (forall id :: id in table <==> id in order)
    && (forall id :: id in table ==> Kept(es, id, owner) == Some(table[id]))
  }

  lemma KeptStep(es: seq<Entity>, e: Entity, id: string, owner: Option<string>)
    ensures var was, now := Kept(es, id, owner), Kept(es + [e], id, owner);
            now == if e.id != id then was
                   else if was.None? then Some(e)
                   else if owner.Some? && was.value.owner != owner && e.owner == owner then Some(e)
                   else was
  {
    FirstWhereStep(es, e, HasId(id));
    FirstWhereStep(es, e, OwnedCopy(id, owner));
    FirstWhereFound(es, HasId(id));
    FirstWhereFound(es, OwnedCopy(id, owner));
  }

  lemma HoldsNext(order: seq<string>, table: map<string, Entity>, es: seq<Entity>, e: Entity, owner: Option<string>)
    requires HoldsKept(order, table, es, owner)
    ensures if e.id !in table then HoldsKept(order + [e.id], table[e.id := e], es + [e], owner)
            else if owner.Some? && table[e.id].owner != owner && e.owner == owner
            then HoldsKept(order, table[e.id := e], es + [e], owner)
            else HoldsKept(order, table, es + [e], owner)
  {
    hide Kept, FirstIds;
    assert FirstIds(es + [e]) == if e.id in order then order else order + [e.id] by { FirstIdsStep(es, e); }
    NotYetKept(es, e.id, owner);
    forall id { KeptStep(es, e, id, owner); }
  }

  lemma FirstIdsStep(es: seq<Entity>, e: Entity)
    ensures FirstIds(es + [e]) == if e.id in FirstIds(es) then FirstIds(es) else FirstIds(es) + [e.id]
  {
    assert (es + [e])[..|es|] == es;
  }

  lemma NotYetKept(es: seq<Entity>, id: string, owner: Option<string>)
    ensures id in FirstIds(es) <==> Kept(es, id, owner).Some?
    ensures Kept(es, id, owner).Some? ==> Kept(es, id, owner).value in es && Kept(es, id, owner).value.id == id
  {
    FirstIdsMembers(es);
    FirstWhereFound(es, HasId(id));
    FirstWhereFound(es, OwnedCopy(id, owner));
    if e :| e in es && e.id == id {
      assert HasId(id)(e);
    }
  }

  /** What collapsing yields: per identifier, in order of first appearance, the kept copy. */
  ghost predicate IsDeduped(r: seq<Entity>, es: seq<Entity>, owner: Option<string>) {
    && |r| == |FirstIds(es)|
    && forall k :: 0 <= k < |r| ==> r[k].id == FirstIds(es)[k] && Kept(es, FirstIds(es)[k], owner) == Some(r[k])
  }

  /** `_dedupe_entities`, over a dictionary that remembers insertion order. */
  method DedupeEntities(es: seq<Entity>, owning: Option<Entity>) returns (r: seq<Entity>)
    ensures IsDeduped(r, es, OwnerId(owning))
  {
    var owner := OwnerId(owning);
    var order: seq<string> := [];
    var table: map<string, Entity> := map[];
    for i := 0 to |es|
      invariant HoldsKept(order, table, es[..i], owner)
    {
      hide HoldsKept;
      var e := es[i];
      assert es[..i + 1] == es[..i] + [e];
      HoldsNext(order, table, es[..i], e, owner);
      if e.id !in table {
        order := order + [e.id];
        table := table[e.id := e];
        continue;
      }
      if owner.Some? && table[e.id].owner != owner && e.owner == owner {
        table := table[e.id := e];
      }
    }
    assert es[..|es|] == es;
    r := [];
    for k := 0 to |order|
      invariant |r| == k
      invariant forall m :: 0 <= m < k ==> order[m] in table && r[m] == table[order[m]]
    {
      assert order[k] in order;
      r := r + [table[order[k]]];
    }
    forall k | 0 <= k < |r| ensures r[k].id == order[k] {
      NotYetKept(es, order[k], owner);
    }
  }

  function OwnerId(owning: Option<Entity>): Option<string> {
    if owning.Some? then Some(AfterColon(owning.value.id)) else None
  }

  ghost predicate DistinctEntities(es: seq<Entity>) {
    forall i, j :: 0 <= i < j < |es| ==> es[i].id != es[j].id
  }

  lemma DedupedIsDistinct(r: seq<Entity>, es: seq<Entity>, owner: Option<string>)
    requires IsDeduped(r, es, owner)
    ensures DistinctEntities(r)
  {
    FirstIdsMembers(es);
  }
}
