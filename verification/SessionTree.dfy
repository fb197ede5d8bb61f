/** The forest as the front end builds it: nodes whose child arrays are shared between the
    lookup table, the parents and the returned roots, and the recursion that renders it. */
module SessionTree {
  import opened Options
  import opened Sequences
  import opened Sessions

  /** A growing array of children; roots and nodes hold references to it. */
  class ChildList {
    var items: seq<Node>

    constructor ()
      ensures items == []
    {
      items := [];
    }
  }

  class Node {
    const session: Session
    const children: ChildList

    constructor (session: Session)
      ensures this.session == session && fresh(children) && children.items == []
    {
      this.session := session;
      children := new ChildList();
    }
  }

  /** A tree of the forest; `missingParent` is empty unless the parent is not in the run. */
  datatype Root = Root(node: Node, children: ChildList, missingParent: string)

  /** The last session delivered under `id`: it overwrites earlier ones. */
  function Winner(ss: seq<Session>, id: string): (s: Session)
    requires id in Ids(ss)
    ensures s in ss && s.Id() == id
  {
    var before, last := ss[..|ss| - 1], ss[|ss| - 1];
    assert ss == before + [last];
    if last.Id() == id then last else Winner(before, id)
  }

  function MissingOf(ids: set<string>): Session -> Option<string> {
    (s: Session) => if StartsTree(s, ids) then Some(s.parentId) else None
  }

  ghost function Lists(nodes: map<string, Node>): set<ChildList> {
    set id | id in nodes :: nodes[id].children
  }

  /** The lookup table: the winning session of every identifier, each with its own array. */
  ghost predicate Table(nodes: map<string, Node>, ss: seq<Session>) {
    && nodes.Keys == Ids(ss)
    && (forall id :: id in nodes ==> nodes[id].session == Winner(ss, id))
    && (forall a, b :: a in nodes && b in nodes && a != b ==> nodes[a].children != nodes[b].children)
  }

  /** `list` holds, in order, the nodes of `ids`. */
  ghost predicate Holds(nodes: map<string, Node>, items: seq<Node>, ids: seq<string>) {
    && |items| == |ids|
    && forall k :: 0 <= k < |ids| ==> ids[k] in nodes && items[k] == nodes[ids[k]]
  }

  /** Every array holds the children delivered in `ss`. */
  ghost predicate Linked(nodes: map<string, Node>, ss: seq<Session>)
    reads Lists(nodes)
  {
    forall id :: id in nodes ==> Holds(nodes, nodes[id].children.items, Children(ss, id))
  }

  ghost predicate RootsMatch(nodes: map<string, Node>, roots: seq<Root>, ids: seq<string>, missing: seq<string>) {
    && |roots| == |ids| == |missing|
    && forall k :: 0 <= k < |ids| ==>
                     && ids[k] in nodes && roots[k].node == nodes[ids[k]]
                     && roots[k].children == nodes[ids[k]].children
                     && roots[k].missingParent == missing[k]
  }

  lemma WinnerStep(ss: seq<Session>, s: Session, id: string)
    requires id in Ids(ss) || id == s.Id()
    ensures id in Ids(ss + [s])
    ensures Winner(ss + [s], id) == if id == s.Id() then s else Winner(ss, id)
  {
    assert (ss + [s])[..|ss|] == ss;
    assert Ids(ss + [s]) == Ids(ss) + {s.Id()};
  }

  lemma AddNode(nodes: map<string, Node>, ss: seq<Session>, node: Node)
    requires Table(nodes, ss) && node.children !in Lists(nodes)
    ensures Table(nodes[node.session.Id() := node], ss + [node.session])
  {
    hide Winner;
    var more, id := ss + [node.session], node.session.Id();
    assert Ids(more) == Ids(ss) + {id};
    var nodes' := nodes[id := node];
    forall other | other in nodes'
      ensures nodes'[other].session == Winner(more, other)
      ensures other != id ==> nodes'[other].children != node.children
    {
      WinnerStep(ss, node.session, other);
      if other != id {
        assert other in nodes && nodes[other].children in Lists(nodes);
      }
    }
  }

  method FillTable(ss: seq<Session>) returns (nodes: map<string, Node>)
    ensures Table(nodes, ss)
    ensures forall id :: id in nodes ==> fresh(nodes[id].children) && nodes[id].children.items == []
  {
    nodes := map[];
    for i := 0 to |ss|
      invariant Table(nodes, ss[..i])
      invariant forall id :: id in nodes ==> fresh(nodes[id].children) && nodes[id].children.items == []
    {
      hide Table;
      var node := new Node(ss[i]);
      assert ss[..i + 1] == ss[..i] + [ss[i]];
      AddNode(nodes, ss[..i], node);
      nodes := nodes[ss[i].Id() := node];
    }
    assert ss[..|ss|] == ss;
  }

  lemma ChildrenStep(done: seq<Session>, s: Session, id: string)
    ensures Children(done + [s], id)
            == if id != "" && s.parentId == id then Children(done, id) + [s.Id()] else Children(done, id)
  {
    assert (done + [s])[..|done|] == done;
  }

  lemma HoldsMore(nodes: map<string, Node>, items: seq<Node>, ids: seq<string>, id: string)
    requires Holds(nodes, items, ids) && id in nodes
    ensures Holds(nodes, items + [nodes[id]], ids + [id])
  {
  }

  lemma RootsMore(nodes: map<string, Node>, roots: seq<Root>, ids: seq<string>, missing: seq<string>,
                  id: string, parent: string)
    requires RootsMatch(nodes, roots, ids, missing) && id in nodes
    ensures RootsMatch(nodes, roots + [Root(nodes[id], nodes[id].children, parent)], ids + [id], missing + [parent])
  {
  }

  lemma NothingLinked(nodes: map<string, Node>)
    requires forall id :: id in nodes ==> nodes[id].children.items == []
    ensures Linked(nodes, [])
  {
  }

  lemma OwnList(nodes: map<string, Node>, ss: seq<Session>, a: string, b: string)
    requires Table(nodes, ss) && a in nodes && b in nodes
    ensures nodes[a].children == nodes[b].children <==> a == b
  {
  }

  /** Pushes `child` into the array of `parent`: every other array is left alone. */
  method Push(nodes: map<string, Node>, ghost ss: seq<Session>, ghost done: seq<Session>, s: Session)
    requires Table(nodes, ss) && Linked(nodes, done)
    requires s.parentId != "" && s.parentId in nodes && s.Id() in nodes
    modifies nodes[s.parentId].children
    ensures Linked(nodes, done + [s])
  {
    hide Table, Children, Holds;
    var list := nodes[s.parentId].children;
    forall id | id in nodes ensures nodes[id].children == list <==> id == s.parentId {
      OwnList(nodes, ss, id, s.parentId);
    }
    HoldsMore(nodes, list.items, Children(done, s.parentId), s.Id());
    list.items := list.items + [nodes[s.Id()]];
    forall id | id in nodes ensures Holds(nodes, nodes[id].children.items, Children(done + [s], id)) {
      ChildrenStep(done, s, id);
    }
  }

  lemma NotPushed(nodes: map<string, Node>, ss: seq<Session>, done: seq<Session>, s: Session)
    requires Table(nodes, ss) && Linked(nodes, done) && StartsTree(s, nodes.Keys)
    ensures Linked(nodes, done + [s])
  {
    hide Table, Children, Holds;
    forall id | id in nodes ensures Holds(nodes, nodes[id].children.items, Children(done + [s], id)) {
      ChildrenStep(done, s, id);
    }
  }

  method LinkChildren(ss: seq<Session>, nodes: map<string, Node>) returns (roots: seq<Root>)
    requires Table(nodes, ss)
    requires forall id :: id in nodes ==> nodes[id].children.items == []
    modifies Lists(nodes)
    ensures Linked(nodes, ss)
    ensures RootsMatch(nodes, roots, Roots(ss), Collect(ss, MissingOf(Ids(ss))))
  {
    hide Table, RootsMatch, Linked;
    TableKeys(nodes, ss);
    NothingLinked(nodes);
    NoRoots(nodes);
    roots := [];
    for i := 0 to |ss|
      invariant Linked(nodes, ss[..i])
      invariant RootsMatch(nodes, roots, Collect(ss[..i], RootOf(Ids(ss))), Collect(ss[..i], MissingOf(Ids(ss))))
    {
      var s := ss[i];
      assert s.Id() in Ids(ss);
      assert ss[..i + 1] == ss[..i] + [s];
      CollectStep(ss, i, RootOf(Ids(ss)));
      CollectStep(ss, i, MissingOf(Ids(ss)));
      if s.parentId != "" && s.parentId in nodes {
        assert nodes[s.parentId].children in Lists(nodes);
        Push(nodes, ss, ss[..i], s);
        assert Collect(ss[..i + 1], RootOf(Ids(ss))) == Collect(ss[..i], RootOf(Ids(ss)));
        assert Collect(ss[..i + 1], MissingOf(Ids(ss))) == Collect(ss[..i], MissingOf(Ids(ss)));
      } else {
        NotPushed(nodes, ss, ss[..i], s);
        RootsMore(nodes, roots, Collect(ss[..i], RootOf(Ids(ss))), Collect(ss[..i], MissingOf(Ids(ss))), s.Id(), s.parentId);
        roots := roots + [Root(nodes[s.Id()], nodes[s.Id()].children, s.parentId)];
      }
    }
    assert ss[..|ss|] == ss;
  }

  lemma NoRoots(nodes: map<string, Node>)
    ensures RootsMatch(nodes, [], [], [])
  {
  }

  lemma TableKeys(nodes: map<string, Node>, ss: seq<Session>)
    requires Table(nodes, ss)
    ensures nodes.Keys == Ids(ss)
  {
  }

  /** `buildSessionTree`: one pass fills the table, a second links children and roots. */
  method BuildSessionTree(ss: seq<Session>) returns (roots: seq<Root>, ghost nodes: map<string, Node>)
    ensures Table(nodes, ss) && Linked(nodes, ss)
    ensures forall id :: id in nodes ==> fresh(nodes[id].children)
    ensures RootsMatch(nodes, roots, Roots(ss), Collect(ss, MissingOf(Ids(ss))))
  {
    if |ss| == 0 {
      assert ss == [];
      return [], map[];
    }
    var table := FillTable(ss);
    nodes := table;
    roots := LinkChildren(ss, table);
  }

  /** `renderNestedSessionNode`, with the visited sessions for the markup. */
  method Render(ss: seq<Session>, node: Node, ghost nodes: map<string, Node>, ghost d: nat)
    returns (visited: seq<string>)
    requires DistinctIds(ss) && Table(nodes, ss) && Linked(nodes, ss)
    requires node.session.Id() in nodes && nodes[node.session.Id()] == node
    requires AtDepth(ss, node.session.Id(), d)
    ensures visited == Walk(ss, node.session.Id(), d)
    decreases |ss| - d
  {
    hide AtDepth, Table, Children;
    ghost var id := node.session.Id();
    DepthBound(ss, id, d);
    visited := [node.session.Id()];
    ghost var cs := Children(ss, id);
    assert Holds(nodes, node.children.items, cs);
    forall c | c in cs ensures AtDepth(ss, c, d + 1) { ChildDepth(ss, id, d, c); }
    for k := 0 to |node.children.items|
      invariant forall c :: c in cs[..k] ==> c in cs
      invariant visited == [id] + WalkAll(ss, cs[..k], d + 1)
    {
      var child := node.children.items[k];
      assert cs[k] in cs && cs[..k + 1][..k] == cs[..k];
      NodeOf(nodes, ss, cs[k]);
      var below := Render(ss, child, nodes, d + 1);
      visited := visited + below;
    }
    assert cs[..|cs|] == cs;
  }

  lemma NodeOf(nodes: map<string, Node>, ss: seq<Session>, id: string)
    requires Table(nodes, ss) && id in nodes
    ensures nodes[id].session.Id() == id
  {
  }

  /** The rendering of the whole forest visits exactly what the walk visits. */
  method RenderForest(ss: seq<Session>) returns (visited: seq<string>)
    requires DistinctIds(ss)
    ensures visited == WalkForest(ss)
  {
    var roots, nodes := BuildSessionTree(ss);
    hide AtDepth, Table, Holds, Roots, Children, Walk;
    ghost var ids := Roots(ss);
    forall c | c in ids ensures AtDepth(ss, c, 0) { RootDepth(ss, c); }
    visited := [];
    for k := 0 to |roots|
      invariant Linked(nodes, ss)
      invariant forall c :: c in ids[..k] ==> c in ids
      invariant visited == WalkAll(ss, ids[..k], 0)
    {
      assert ids[k] in ids && ids[..k + 1][..k] == ids[..k];
      NodeOf(nodes, ss, ids[k]);
      var below := Render(ss, roots[k].node, nodes, 0);
      visited := visited + below;
    }
    assert ids[..|ids|] == ids;
  }
}
