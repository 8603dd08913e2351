/**
 * The snippet tree: an ordered forest of file and folder nodes (types/file.ts),
 * with the views of it that the contracts of the other modules are stated in:
 * the pre-order list of its nodes, of its ids and of its node headers.
 */
module FileTree {

  /** A tree node. Files carry their text, folders their ordered children. */
  datatype Node =
    | File(id: string, name: string, content: string)
    | Folder(id: string, name: string, children: seq<Node>)

  /** The `type` discriminant of a node, and the kind of item a new-item dialog creates. */
  datatype NodeKind = FileKind | FolderKind

  function KindOf(n: Node): NodeKind
  {
    if n.File? then FileKind else FolderKind
  }

  /** The node handleAddItem builds: a folder starts empty, a file with empty text. */
  function NewItem(id: string, name: string, kind: NodeKind): (n: Node)
    ensures n.id == id && n.name == name && KindOf(n) == kind
    ensures Nodes([n]) == [n]
    ensures n.File? ==> n.content == ""
  {
    match kind
    case FolderKind => Folder(id, name, [])
    case FileKind => File(id, name, "")
  }

  /** Every node of the forest, in depth-first pre-order. */
  function Nodes(f: seq<Node>): seq<Node>
    decreases f
  {
    if f == [] then []
    else [f[0]] + (if f[0].Folder? then Nodes(f[0].children) else []) + Nodes(f[1..])
  }

  /** The id of every node of the forest, in depth-first pre-order. */
  function Ids(f: seq<Node>): seq<string>
    decreases f
  {
    if f == [] then []
    else [f[0].id] + (if f[0].Folder? then Ids(f[0].children) else []) + Ids(f[1..])
  }

  /** A node without its subtree: id, name, type and content only. */
  function Shallow(n: Node): Node
  {
    if n.Folder? then n.(children := []) else n
  }

  /** The header of every node of the forest, in depth-first pre-order. */
  function Flat(f: seq<Node>): seq<Node>
    decreases f
  {
    if f == [] then []
    else [Shallow(f[0])] + (if f[0].Folder? then Flat(f[0].children) else []) + Flat(f[1..])
  }

  /** No value occurs twice. */
  ghost predicate NoDup(s: seq<string>)
  {
    forall x :: multiset(s)[x] <= 1
  }

  /** The invariant that uuid-assigned ids give: no id occurs twice anywhere in the forest. */
  ghost predicate UniqueIds(f: seq<Node>)
  {
    NoDup(Ids(f))
  }

  /** `x` is `y` with some elements left out. */
  predicate IsSubseq(x: seq<Node>, y: seq<Node>)
    decreases |x| + |y|
  {
    if x == [] then true
    else if y == [] then false
    else (x[0] == y[0] && IsSubseq(x[1..], y[1..])) || IsSubseq(x, y[1..])
  }

  lemma {:induction false} NodesConcat(a: seq<Node>, b: seq<Node>)
    ensures Nodes(a + b) == Nodes(a) + Nodes(b)
    decreases a
  {
    if a == [] {
      assert a + b == b;
    } else {
      assert (a + b)[0] == a[0];
      assert (a + b)[1..] == a[1..] + b;
      NodesConcat(a[1..], b);
    }
  }

  lemma {:induction false} IdsConcat(a: seq<Node>, b: seq<Node>)
    ensures Ids(a + b) == Ids(a) + Ids(b)
    decreases a
  {
    if a == [] {
      assert a + b == b;
    } else {
      assert (a + b)[0] == a[0];
      assert (a + b)[1..] == a[1..] + b;
      IdsConcat(a[1..], b);
    }
  }

  lemma {:induction false} FlatConcat(a: seq<Node>, b: seq<Node>)
    ensures Flat(a + b) == Flat(a) + Flat(b)
    decreases a
  {
    if a == [] {
      assert a + b == b;
    } else {
      assert (a + b)[0] == a[0];
      assert (a + b)[1..] == a[1..] + b;
      FlatConcat(a[1..], b);
    }
  }

  /** The three pre-order views of a single node. */
  lemma Single(n: Node)
    ensures Nodes([n]) == [n] + (if n.Folder? then Nodes(n.children) else [])
    ensures Ids([n]) == [n.id] + (if n.Folder? then Ids(n.children) else [])
    ensures Flat([n]) == [Shallow(n)] + (if n.Folder? then Flat(n.children) else [])
  {
    assert [n][1..] == [];
  }

  /** A forest is its first node followed by the rest. */
  lemma Split(f: seq<Node>)
    requires f != []
    ensures Nodes(f) == Nodes([f[0]]) + Nodes(f[1..])
    ensures Ids(f) == Ids([f[0]]) + Ids(f[1..])
    ensures Flat(f) == Flat([f[0]]) + Flat(f[1..])
  {
    Single(f[0]);
  }

  /** The id list is the list of the ids of the pre-order nodes. */
  lemma {:induction false} IdsOfNodes(f: seq<Node>)
    ensures |Ids(f)| == |Nodes(f)|
    ensures forall k :: 0 <= k < |Ids(f)| ==> Ids(f)[k] == Nodes(f)[k].id
    decreases f
  {
    if f != [] {
      IdsOfNodes(f[1..]);
      if f[0].Folder? {
        IdsOfNodes(f[0].children);
      }
    }
  }

  /** An id occurs in the forest exactly when some node carries it. */
  lemma IdInIds(f: seq<Node>, x: string)
    ensures x in Ids(f) <==> exists n :: n in Nodes(f) && n.id == x
  {
    IdsOfNodes(f);
    if x in Ids(f) {
      var k :| 0 <= k < |Ids(f)| && Ids(f)[k] == x;
      assert Nodes(f)[k] in Nodes(f);
    }
    if exists n :: n in Nodes(f) && n.id == x {
      var n :| n in Nodes(f) && n.id == x;
      var k :| 0 <= k < |Nodes(f)| && Nodes(f)[k] == n;
      assert Ids(f)[k] == x;
    }
  }

  /** In a sequence without duplicates, equal elements sit at one position. */
  lemma NoDupPosition(s: seq<string>, i: nat, j: nat)
    requires NoDup(s) && i < j < |s|
    ensures s[i] != s[j]
  {
    var x := s[i];
    assert s == s[..i] + [x] + s[i + 1..];
    assert s[i + 1..] == s[i + 1..j] + [s[j]] + s[j + 1..];
    assert multiset(s)[x] == multiset(s[..i])[x] + 1 + multiset(s[i + 1..])[x];
  }

  /** Under unique ids, two pre-order positions with the same id are one position. */
  lemma UniquePosition(f: seq<Node>, i: nat, j: nat)
    requires UniqueIds(f)
    requires i < |Nodes(f)| && j < |Nodes(f)|
    requires Nodes(f)[i].id == Nodes(f)[j].id
    ensures i == j
  {
    IdsOfNodes(f);
    if i < j {
      NoDupPosition(Ids(f), i, j);
    } else if j < i {
      NoDupPosition(Ids(f), j, i);
    }
  }

  lemma NoDupConcat(a: seq<string>, b: seq<string>)
    ensures NoDup(a + b) <==> NoDup(a) && NoDup(b) && forall x :: x in a ==> x !in b
  {
    assert forall x :: multiset(a + b)[x] == multiset(a)[x] + multiset(b)[x];
    if NoDup(a + b) {
      forall x | x in a
        ensures x !in b
      {
        assert multiset(a)[x] >= 1;
      }
    }
    if NoDup(a) && NoDup(b) && forall x :: x in a ==> x !in b {
      forall x
        ensures multiset(a + b)[x] <= 1
      {
        if x in a {
          assert multiset(b)[x] == 0;
        }
      }
    }
  }

  /** Unique ids in a joined forest means unique ids in each part, and no id shared. */
  lemma UniqueSplit(a: seq<Node>, b: seq<Node>)
    ensures UniqueIds(a + b) <==> UniqueIds(a) && UniqueIds(b) && forall x :: x in Ids(a) ==> x !in Ids(b)
  {
    IdsConcat(a, b);
    NoDupConcat(Ids(a), Ids(b));
  }

  /** Unique ids under a folder means unique ids among its children, none equal to the folder's. */
  lemma UniqueChildren(n: Node)
    requires UniqueIds([n]) && n.Folder?
    ensures UniqueIds(n.children) && n.id !in Ids(n.children)
  {
    Single(n);
    NoDupConcat([n.id], Ids(n.children));
  }

  lemma {:induction false} SubseqRefl(x: seq<Node>)
    ensures IsSubseq(x, x)
    decreases x
  {
    if x != [] {
      SubseqRefl(x[1..]);
    }
  }

  lemma {:induction false} SubseqConcat(x1: seq<Node>, y1: seq<Node>, x2: seq<Node>, y2: seq<Node>)
    requires IsSubseq(x1, y1) && IsSubseq(x2, y2)
    ensures IsSubseq(x1 + x2, y1 + y2)
    decreases |x1| + |y1|
  {
    if y1 == [] {
      assert x1 == [];
      assert x1 + x2 == x2 && y1 + y2 == y2;
    } else if x1 == [] {
      SubseqConcat(x1, y1[1..], x2, y2);
      assert (y1 + y2)[1..] == y1[1..] + y2;
      assert x1 + x2 == x2;
      if x2 != [] {
        assert IsSubseq(x2, (y1 + y2)[1..]);
      }
    } else if x1[0] == y1[0] && IsSubseq(x1[1..], y1[1..]) {
      SubseqConcat(x1[1..], y1[1..], x2, y2);
      assert (x1 + x2)[1..] == x1[1..] + x2;
      assert (y1 + y2)[1..] == y1[1..] + y2;
    } else {
      SubseqConcat(x1, y1[1..], x2, y2);
      assert (y1 + y2)[1..] == y1[1..] + y2;
    }
  }

  /** The headers list is the list of the headers of the pre-order nodes. */
  lemma {:induction false} FlatOfNodes(f: seq<Node>)
    ensures |Flat(f)| == |Nodes(f)|
    ensures forall k :: 0 <= k < |Flat(f)| ==> Flat(f)[k] == Shallow(Nodes(f)[k])
    decreases f
  {
    if f != [] {
      FlatOfNodes(f[1..]);
      if f[0].Folder? {
        FlatOfNodes(f[0].children);
      }
    }
  }
}
