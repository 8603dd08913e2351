/**
 * The file explorer's tree edits (components/FileExplorer.tsx): cascading
 * delete and rename of the node a context menu was opened on.
 */
module Explorer {
  import opened Wrappers
  import opened FileTree

  /** `deleteNode`: drop every node with the id, and its whole subtree, at any depth. */
  function DeleteNode(nodes: seq<Node>, id: string): seq<Node>
    decreases nodes, 1
  {
    if nodes == [] then [] else Pruned(nodes[0], id) + DeleteNode(nodes[1..], id)
  }

  /** What `deleteNode` keeps of one node: nothing when it matches, else the node with its children pruned. */
  function Pruned(n: Node, id: string): seq<Node>
    decreases n, 0
  {
    if n.id == id then []
    else match n
      case File(_, _, _) => [n]
      case Folder(i, nm, cs) => [Folder(i, nm, DeleteNode(cs, id))]
  }

  /**
   * The nodes `deleteNode` drops, in the order it meets them: each node with the
   * id that does not lie under another such node.
   */
  function Removed(nodes: seq<Node>, id: string): seq<Node>
    decreases nodes, 1
  {
    if nodes == [] then [] else RemovedIn(nodes[0], id) + Removed(nodes[1..], id)
  }

  function RemovedIn(n: Node, id: string): seq<Node>
    decreases n, 0
  {
    if n.id == id then [n]
    else match n
      case File(_, _, _) => []
      case Folder(_, _, cs) => Removed(cs, id)
  }

  /** `renameNode`: give every node with the id the new name; its subtree is kept as it was. */
  function RenameNode(nodes: seq<Node>, id: string, newName: string): seq<Node>
    decreases nodes, 1
  {
    if nodes == [] then [] else [Renamed(nodes[0], id, newName)] + RenameNode(nodes[1..], id, newName)
  }

  function Renamed(n: Node, id: string, newName: string): Node
    decreases n, 0
  {
    if n.id == id then n.(name := newName)
    else match n
      case File(_, _, _) => n
      case Folder(i, nm, cs) => Folder(i, nm, RenameNode(cs, id, newName))
  }

  /** The forest with every name blanked: what a rename must leave alone. */
  function Unnamed(f: seq<Node>): seq<Node>
    decreases f, 1
  {
    if f == [] then [] else [Blanked(f[0])] + Unnamed(f[1..])
  }

  function Blanked(n: Node): Node
    decreases n, 0
  {
    match n
    case File(i, _, c) => File(i, "", c)
    case Folder(i, _, cs) => Folder(i, "", Unnamed(cs))
  }

  /** A header list with the headers carrying the id renamed. */
  function RenameHeaders(s: seq<Node>, id: string, newName: string): seq<Node>
  {
    if s == [] then []
    else [if s[0].id == id then s[0].(name := newName) else s[0]] + RenameHeaders(s[1..], id, newName)
  }

  /** `handleDelete`: with no context node nothing is passed on; otherwise the pruned tree is. */
  function HandleDelete(tree: seq<Node>, contextNode: Option<Node>): (updated: Option<seq<Node>>)
    ensures updated.None? <==> contextNode.None?
    ensures updated.Some? ==> contextNode.value.id !in Ids(updated.value)
    ensures updated.Some? ==> IsSubseq(Flat(updated.value), Flat(tree))
    ensures updated.Some? && contextNode.value.id !in Ids(tree) ==> updated.value == tree
  {
    match contextNode
    case None => None
    case Some(c) =>
      DeleteRemovesId(tree, c.id);
      DeleteKeepsOrder(tree, c.id);
      if c.id !in Ids(tree) then DeleteAbsent(tree, c.id); Some(DeleteNode(tree, c.id))
      else Some(DeleteNode(tree, c.id))
  }

  /** `handleRename`: with no context node nothing is passed on; otherwise the renamed tree is. */
  function HandleRename(tree: seq<Node>, contextNode: Option<Node>, newName: string): (updated: Option<seq<Node>>)
    ensures updated.None? <==> contextNode.None?
    ensures updated.Some? ==> Ids(updated.value) == Ids(tree)
    ensures updated.Some? ==> Unnamed(updated.value) == Unnamed(tree)
  {
    match contextNode
    case None => None
    case Some(c) =>
      RenameKeepsIds(tree, c.id, newName);
      RenameKeepsSkeleton(tree, c.id, newName);
      Some(RenameNode(tree, c.id, newName))
  }

  lemma {:induction false} DeleteConcat(a: seq<Node>, b: seq<Node>, id: string)
    ensures DeleteNode(a + b, id) == DeleteNode(a, id) + DeleteNode(b, id)
    ensures Removed(a + b, id) == Removed(a, id) + Removed(b, id)
    decreases a
  {
    if a == [] {
      assert a + b == b;
    } else {
      assert (a + b)[0] == a[0];
      assert (a + b)[1..] == a[1..] + b;
      DeleteConcat(a[1..], b, id);
    }
  }

  /** After a delete no node with the id remains, at any depth. */
  lemma {:induction false} DeleteRemovesId(f: seq<Node>, id: string)
    ensures id !in Ids(DeleteNode(f, id))
    decreases f
  {
    if f != [] {
      var n := f[0];
      DeleteRemovesId(f[1..], id);
      IdsConcat(Pruned(n, id), DeleteNode(f[1..], id));
      if n.id != id {
        Single(Pruned(n, id)[0]);
        if n.Folder? {
          DeleteRemovesId(n.children, id);
        }
      }
    }
  }

  /** Deleting an id that is not in the tree gives the tree back unchanged. */
  lemma {:induction false} DeleteAbsent(f: seq<Node>, id: string)
    requires id !in Ids(f)
    ensures DeleteNode(f, id) == f
    decreases f
  {
    if f != [] {
      Split(f);
      Single(f[0]);
      DeleteAbsent(f[1..], id);
      if f[0].Folder? {
        DeleteAbsent(f[0].children, id);
      }
      assert f == [f[0]] + f[1..];
    }
  }

  /**
   * The ids lost are exactly those of the dropped subtrees: the tree's id bag is the
   * result's plus the dropped nodes' (each with its whole subtree).
   */
  lemma {:induction false} DeleteIdBag(f: seq<Node>, id: string)
    ensures multiset(Ids(f)) == multiset(Ids(DeleteNode(f, id))) + multiset(Ids(Removed(f, id)))
    decreases f
  {
    if f != [] {
      var n := f[0];
      var t := f[1..];
      DeleteIdBag(t, id);
      Split(f);
      IdsConcat(Pruned(n, id), DeleteNode(t, id));
      IdsConcat(RemovedIn(n, id), Removed(t, id));
      PrunedIdBag(n, id);
    }
  }

  lemma PrunedIdBag(n: Node, id: string)
    ensures multiset(Ids([n])) == multiset(Ids(Pruned(n, id))) + multiset(Ids(RemovedIn(n, id)))
    decreases n
  {
    Single(n);
    if n.id != id {
      Single(Pruned(n, id)[0]);
      if n.Folder? {
        DeleteIdBag(n.children, id);
      }
    }
  }

  /** Every dropped node carries the id and is a node of the tree. */
  lemma {:induction false} RemovedMatch(f: seq<Node>, id: string)
    ensures forall n :: n in Removed(f, id) ==> n.id == id && n in Nodes(f)
    decreases f
  {
    if f != [] {
      Split(f);
      Single(f[0]);
      RemovedMatch(f[1..], id);
      if f[0].Folder? {
        RemovedMatch(f[0].children, id);
      }
    }
  }

  /** Surviving nodes keep their relative pre-order position and their id, name, type and content. */
  lemma {:induction false} DeleteKeepsOrder(f: seq<Node>, id: string)
    ensures IsSubseq(Flat(DeleteNode(f, id)), Flat(f))
    decreases f
  {
    if f != [] {
      var n := f[0];
      var t := f[1..];
      DeleteKeepsOrder(t, id);
      Split(f);
      FlatConcat(Pruned(n, id), DeleteNode(t, id));
      PrunedKeepsOrder(n, id);
      SubseqConcat(Flat(Pruned(n, id)), Flat([n]), Flat(DeleteNode(t, id)), Flat(t));
    }
  }

  lemma PrunedKeepsOrder(n: Node, id: string)
    ensures IsSubseq(Flat(Pruned(n, id)), Flat([n]))
    decreases n
  {
    Single(n);
    var front := if n.Folder? then Flat(n.children) else [];
    if n.id == id {
      assert Flat(Pruned(n, id)) == [];
    } else {
      var p := Pruned(n, id)[0];
      Single(p);
      var pFront := if n.Folder? then Flat(DeleteNode(n.children, id)) else [];
      assert Flat(Pruned(n, id)) == [Shallow(n)] + pFront;
      if n.Folder? {
        DeleteKeepsOrder(n.children, id);
      } else {
        SubseqRefl([]);
      }
      SubseqRefl([Shallow(n)]);
      SubseqConcat([Shallow(n)], [Shallow(n)], pFront, front);
    }
  }

  lemma UniqueParts(f: seq<Node>)
    requires UniqueIds(f) && f != []
    ensures UniqueIds(f[1..])
    ensures f[0].Folder? ==> UniqueIds(f[0].children)
    ensures f[0].id !in Ids(f[1..])
    ensures f[0].Folder? ==> f[0].id !in Ids(f[0].children)
    ensures forall x :: x in Ids([f[0]]) ==> x !in Ids(f[1..])
  {
    var n := f[0];
    var front := if n.Folder? then Ids(n.children) else [];
    Split(f);
    Single(n);
    assert Ids(f) == [n.id] + front + Ids(f[1..]);
    forall x
      ensures multiset(Ids(f))[x] == multiset([n.id])[x] + multiset(front)[x] + multiset(Ids(f[1..]))[x]
    {
    }
    forall x
      ensures multiset(Ids(f[1..]))[x] <= 1 && multiset(front)[x] <= 1
    {
      assert multiset(Ids(f))[x] <= 1;
    }
    forall x | x in Ids([n])
      ensures x !in Ids(f[1..])
    {
      assert multiset(Ids(f))[x] <= 1;
      assert multiset(Ids([n]))[x] >= 1;
      assert Ids(f) == Ids([n]) + Ids(f[1..]);
    }
  }
  /** Under unique ids, a node with the id is one of the nodes a delete drops. */
  lemma {:induction false} RemovedContains(f: seq<Node>, id: string, m: Node)
    requires UniqueIds(f) && m in Nodes(f) && m.id == id
    ensures m in Removed(f, id)
    decreases f
  {
    var n := f[0];
    UniqueParts(f);
    if n.id == id {
      var k :| 0 <= k < |Nodes(f)| && Nodes(f)[k] == m;
      UniquePosition(f, 0, k);
    } else if n.Folder? && m in Nodes(n.children) {
      RemovedContains(n.children, id, m);
    } else {
      RemovedContains(f[1..], id, m);
    }
  }

  /** The ids of one node's subtree are among the ids of any node list that holds it. */
  lemma IdsOfMember(s: seq<Node>, n: Node)
    requires n in s
    ensures multiset(Ids([n])) <= multiset(Ids(s))
  {
    var k :| 0 <= k < |s| && s[k] == n;
    assert s == s[..k] + [n] + s[k + 1..];
    IdsConcat(s[..k] + [n], s[k + 1..]);
    IdsConcat(s[..k], [n]);
  }

  /** Cascade: under unique ids, deleting a node leaves no id of its subtree behind. */
  lemma DeleteDropsSubtree(f: seq<Node>, id: string, m: Node)
    requires UniqueIds(f) && m in Nodes(f) && m.id == id
    ensures forall x :: x in Ids([m]) ==> x !in Ids(DeleteNode(f, id))
  {
    RemovedContains(f, id, m);
    IdsOfMember(Removed(f, id), m);
    DeleteIdBag(f, id);
    forall x | x in Ids([m])
      ensures x !in Ids(DeleteNode(f, id))
    {
      assert multiset(Ids(Removed(f, id)))[x] >= 1;
      assert multiset(Ids(f))[x] <= 1;
    }
  }

  /** A delete keeps ids unique. */
  lemma DeleteKeepsUnique(f: seq<Node>, id: string)
    requires UniqueIds(f)
    ensures UniqueIds(DeleteNode(f, id))
  {
    DeleteIdBag(f, id);
    forall x
      ensures multiset(Ids(DeleteNode(f, id)))[x] <= 1
    {
      assert multiset(Ids(f))[x] <= 1;
    }
  }

  lemma {:induction false} MatchingCount(s: seq<Node>, id: string)
    requires forall n :: n in s ==> n.id == id
    ensures multiset(Ids(s))[id] >= |s|
    decreases s
  {
    if s != [] {
      MatchingCount(s[1..], id);
      assert Ids(s) == [id] + (if s[0].Folder? then Ids(s[0].children) else []) + Ids(s[1..]);
    }
  }

  /** Under unique ids, a delete of an id in the tree drops exactly one node. */
  lemma RemovedSingle(f: seq<Node>, id: string)
    requires UniqueIds(f) && id in Ids(f)
    ensures |Removed(f, id)| == 1
  {
    IdInIds(f, id);
    var m :| m in Nodes(f) && m.id == id;
    RemovedContains(f, id, m);
    RemovedMatch(f, id);
    MatchingCount(Removed(f, id), id);
    DeleteIdBag(f, id);
    assert multiset(Ids(f))[id] <= 1;
  }

  lemma {:induction false} RenameKeepsIds(f: seq<Node>, id: string, newName: string)
    ensures Ids(RenameNode(f, id, newName)) == Ids(f)
    decreases f
  {
    if f != [] {
      var n := f[0];
      var r := RenameNode(f, id, newName);
      RenameKeepsIds(f[1..], id, newName);
      Split(f);
      Split(r);
      Single(n);
      Single(r[0]);
      if n.Folder? && n.id != id {
        RenameKeepsIds(n.children, id, newName);
      }
    }
  }

  /** A rename changes names only: ids, types, contents and the shape of the tree stay. */
  lemma {:induction false} RenameKeepsSkeleton(f: seq<Node>, id: string, newName: string)
    ensures Unnamed(RenameNode(f, id, newName)) == Unnamed(f)
    decreases f
  {
    if f != [] {
      var n := f[0];
      RenameKeepsSkeleton(f[1..], id, newName);
      if n.Folder? && n.id != id {
        RenameKeepsSkeleton(n.children, id, newName);
      }
    }
  }

  /** Renaming twice to the same name is renaming once. */
  lemma {:induction false} RenameIdempotent(f: seq<Node>, id: string, newName: string)
    ensures RenameNode(RenameNode(f, id, newName), id, newName) == RenameNode(f, id, newName)
    decreases f
  {
    if f != [] {
      var n := f[0];
      var r := RenameNode(f, id, newName);
      assert r[0] == Renamed(n, id, newName) && r[1..] == RenameNode(f[1..], id, newName);
      RenameIdempotent(f[1..], id, newName);
      if n.Folder? && n.id != id {
        RenameIdempotent(n.children, id, newName);
      }
    }
  }

  /** Renaming an id that is not in the tree gives the tree back unchanged. */
  lemma {:induction false} RenameAbsent(f: seq<Node>, id: string, newName: string)
    requires id !in Ids(f)
    ensures RenameNode(f, id, newName) == f
    decreases f
  {
    if f != [] {
      Split(f);
      Single(f[0]);
      RenameAbsent(f[1..], id, newName);
      if f[0].Folder? {
        RenameAbsent(f[0].children, id, newName);
      }
      assert f == [f[0]] + f[1..];
    }
  }

  lemma {:induction false} RenameHeadersConcat(a: seq<Node>, b: seq<Node>, id: string, newName: string)
    ensures RenameHeaders(a + b, id, newName) == RenameHeaders(a, id, newName) + RenameHeaders(b, id, newName)
    decreases a
  {
    if a == [] {
      assert a + b == b;
    } else {
      assert (a + b)[0] == a[0];
      assert (a + b)[1..] == a[1..] + b;
      RenameHeadersConcat(a[1..], b, id, newName);
    }
  }

  /**
   * Under unique ids a rename changes exactly the name of the node with the id:
   * in pre-order, that header gets the new name and every other header is unchanged.
   */
  lemma {:induction false} RenameFlat(f: seq<Node>, id: string, newName: string)
    requires UniqueIds(f)
    ensures Flat(RenameNode(f, id, newName)) == RenameHeaders(Flat(f), id, newName)
    decreases f
  {
    if f != [] {
      var n := f[0];
      var t := f[1..];
      var r := RenameNode(f, id, newName);
      var m := Renamed(n, id, newName);
      UniqueParts(f);
      RenameFlat(t, id, newName);
      Split(f);
      Split(r);
      Single(n);
      Single(m);
      assert r[0] == m && r[1..] == RenameNode(t, id, newName);
      var front := if n.Folder? then Flat(n.children) else [];
      RenameHeadersConcat([Shallow(n)] + front, Flat(t), id, newName);
      RenameHeadersConcat([Shallow(n)], front, id, newName);
      if n.Folder? {
        if n.id == id {
          RenameAbsent(n.children, id, newName);
          HeadersAbsent(n.children, id, newName);
        } else {
          RenameFlat(n.children, id, newName);
        }
      }
    }
  }

  lemma HeadersAbsent(f: seq<Node>, id: string, newName: string)
    requires id !in Ids(f)
    ensures RenameHeaders(Flat(f), id, newName) == Flat(f)
  {
    FlatOfNodes(f);
    IdsOfNodes(f);
    HeadersUnchanged(Flat(f), id, newName);
  }

  lemma {:induction false} HeadersUnchanged(s: seq<Node>, id: string, newName: string)
    requires forall k :: 0 <= k < |s| ==> s[k].id != id
    ensures RenameHeaders(s, id, newName) == s
    decreases s
  {
    if s != [] {
      HeadersUnchanged(s[1..], id, newName);
      assert s == [s[0]] + s[1..];
    }
  }
}
