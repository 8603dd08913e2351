/**
 * The tree operations of the editor page (app/page.tsx): lookup by id, insertion
 * of a new item into the selected folder, update of the active file's text, and
 * moving a node to the top level or into a folder.
 */
module TreeOps {
  import opened Wrappers
  import opened FileTree
  import opened Explorer

  /** JavaScript truthiness of a nullable id: null and the empty string are false. */
  predicate Truthy(o: Option<string>)
  {
    o.Some? && o.value != ""
  }

  // ---------------------------------------------------------------- lookup

  /** The position of the first node with the id, or the length when there is none. */
  function FirstIndexWithId(s: seq<Node>, id: string): (k: nat)
    ensures k <= |s|
    ensures forall j :: 0 <= j < k ==> s[j].id != id
    ensures k < |s| ==> s[k].id == id
  {
    if s == [] then 0
    else if s[0].id == id then 0
    else 1 + FirstIndexWithId(s[1..], id)
  }

  /** The first node with the id in a node list. */
  function FirstWithId(s: seq<Node>, id: string): Option<Node>
  {
    var k := FirstIndexWithId(s, id);
    if k < |s| then Some(s[k]) else None
  }

  /** `findFileById`: depth-first, children in order, first match wins. */
  method FindFileById(tree: seq<Node>, id: string) returns (found: Option<Node>)
    ensures found == FirstWithId(Nodes(tree), id)
    ensures found.Some? ==> found.value.id == id && found.value in Nodes(tree)
    ensures found.None? <==> id !in Ids(tree)
    decreases tree
  {
    FindNone(tree, id);
    var i := 0;
    assert tree[i..] == tree;
    while i < |tree|
      invariant 0 <= i <= |tree|
      invariant FirstWithId(Nodes(tree[i..]), id) == FirstWithId(Nodes(tree), id)
    {
      var node := tree[i];
      FindStep(tree[i..], id);
      assert tree[i..][0] == node;
      assert tree[i..][1..] == tree[i + 1..];
      if node.id == id {
        return Some(node);
      }
      if node.Folder? {
        var sub := FindFileById(node.children, id);
        if sub.Some? {
          return sub;
        }
      }
      i := i + 1;
    }
    return None;
  }

  /** One step of the lookup loop: what the first remaining tree decides. */
  lemma FindStep(rest: seq<Node>, id: string)
    requires rest != []
    ensures rest[0].id == id ==> FirstWithId(Nodes(rest), id) == Some(rest[0])
    ensures rest[0].id != id && rest[0].Folder? && FirstWithId(Nodes(rest[0].children), id).Some?
      ==> FirstWithId(Nodes(rest), id) == FirstWithId(Nodes(rest[0].children), id)
    ensures rest[0].id != id && (rest[0].File? || FirstWithId(Nodes(rest[0].children), id).None?)
      ==> FirstWithId(Nodes(rest), id) == FirstWithId(Nodes(rest[1..]), id)
  {
    var node := rest[0];
    Split(rest);
    Single(node);
    var kids := if node.Folder? then Nodes(node.children) else [];
    FirstWithConcat(Nodes([node]), Nodes(rest[1..]), id);
    FirstWithConcat([node], kids, id);
  }

  /** Lookup in a concatenation: the first part wins. */
  lemma FirstWithConcat(a: seq<Node>, b: seq<Node>, id: string)
    ensures FirstWithId(a + b, id) == if FirstWithId(a, id).Some? then FirstWithId(a, id) else FirstWithId(b, id)
  {
    FirstIndexConcat(a, b, id);
    var ka := FirstIndexWithId(a, id);
    if ka == |a| {
      var kb := FirstIndexWithId(b, id);
      if kb < |b| {
        assert (a + b)[|a| + kb] == b[kb];
      }
    } else {
      assert (a + b)[ka] == a[ka];
    }
  }

  /** The first-index function is pinned down by its contract. */
  lemma FirstIndexIs(s: seq<Node>, id: string, k: nat)
    requires k <= |s|
    requires forall j :: 0 <= j < k ==> s[j].id != id
    requires k < |s| ==> s[k].id == id
    ensures FirstIndexWithId(s, id) == k
  {
    var m := FirstIndexWithId(s, id);
  }

  lemma FirstIndexConcat(a: seq<Node>, b: seq<Node>, id: string)
    ensures FirstIndexWithId(a + b, id) ==
      if FirstIndexWithId(a, id) < |a| then FirstIndexWithId(a, id) else |a| + FirstIndexWithId(b, id)
  {
    var ka := FirstIndexWithId(a, id);
    var kb := FirstIndexWithId(b, id);
    if ka < |a| {
      FirstIndexIs(a + b, id, ka);
    } else {
      assert forall j :: |a| <= j < |a| + kb ==> (a + b)[j] == b[j - |a|];
      FirstIndexIs(a + b, id, |a| + kb);
    }
  }

  /** Lookup finds nothing exactly when no node of the tree carries the id. */
  lemma FindNone(f: seq<Node>, id: string)
    ensures FirstWithId(Nodes(f), id).None? <==> id !in Ids(f)
  {
    IdInIds(f, id);
    var k := FirstIndexWithId(Nodes(f), id);
    if k < |Nodes(f)| {
      assert Nodes(f)[k] in Nodes(f);
    }
  }

  /** Under unique ids, lookup returns the one node carrying the id. */
  lemma FindUnique(f: seq<Node>, n: Node)
    requires UniqueIds(f) && n in Nodes(f)
    ensures FirstWithId(Nodes(f), n.id) == Some(n)
  {
    var k := FirstIndexWithId(Nodes(f), n.id);
    var j :| 0 <= j < |Nodes(f)| && Nodes(f)[j] == n;
    assert k <= j;
    UniquePosition(f, k, j);
  }

  // ---------------------------------------------------------------- insert

  /** `insertInto`: append the item as the last child of every folder with the id (not below it). */
  function InsertInto(tree: seq<Node>, folderId: string, item: Node): seq<Node>
    decreases tree, 1
  {
    if tree == [] then [] else [WithItem(tree[0], folderId, item)] + InsertInto(tree[1..], folderId, item)
  }

  function WithItem(n: Node, folderId: string, item: Node): Node
    decreases n, 0
  {
    match n
    case File(_, _, _) => n
    case Folder(i, nm, cs) =>
      if i == folderId then Folder(i, nm, cs + [item]) else Folder(i, nm, InsertInto(cs, folderId, item))
  }

  /** Some folder of the tree carries the id. */
  ghost predicate HasFolder(f: seq<Node>, folderId: string)
  {
    exists n :: n in Nodes(f) && n.Folder? && n.id == folderId
  }

  /** The top-level form of handleAddItem adds the item at the end and changes nothing else. */
  lemma AppendTopLevel(f: seq<Node>, item: Node)
    ensures multiset(Ids(f + [item])) == multiset(Ids(f)) + multiset(Ids([item]))
    ensures item.id !in Ids(f) ==> DeleteNode(f + [item], item.id) == f
  {
    IdsConcat(f, [item]);
    if item.id !in Ids(f) {
      DeleteConcat(f, [item], item.id);
      DeleteAbsent(f, item.id);
    }
  }

  /** With no folder of that id, insertion leaves the tree unchanged and the item is dropped. */
  lemma {:induction false} InsertNoHost(f: seq<Node>, folderId: string, item: Node)
    requires !HasFolder(f, folderId)
    ensures InsertInto(f, folderId, item) == f
    decreases f
  {
    if f != [] {
      Split(f);
      Single(f[0]);
      InsertNoHost(f[1..], folderId, item);
      if f[0].Folder? {
        InsertNoHost(f[0].children, folderId, item);
      }
      assert f == [f[0]] + f[1..];
    }
  }

  lemma NoFolderWithoutId(f: seq<Node>, folderId: string)
    requires folderId !in Ids(f)
    ensures !HasFolder(f, folderId)
  {
    IdInIds(f, folderId);
  }

  lemma InsertSplit(f: seq<Node>, folderId: string, item: Node)
    requires f != []
    ensures f == [f[0]] + f[1..]
    ensures InsertInto(f, folderId, item) == [WithItem(f[0], folderId, item)] + InsertInto(f[1..], folderId, item)
  {
    assert f == [f[0]] + f[1..];
  }

  lemma HostSplit(f: seq<Node>, folderId: string)
    requires f != []
    ensures HasFolder(f, folderId) <==> HasFolder([f[0]], folderId) || HasFolder(f[1..], folderId)
  {
    assert f == [f[0]] + f[1..];
    NodesConcat([f[0]], f[1..]);
  }

  /** Under unique ids, inserting into an existing folder adds exactly the item's ids. */
  lemma {:induction false} InsertIdBag(f: seq<Node>, folderId: string, item: Node)
    requires UniqueIds(f) && HasFolder(f, folderId)
    ensures multiset(Ids(InsertInto(f, folderId, item))) == multiset(Ids(f)) + multiset(Ids([item]))
    decreases f, 1
  {
    if HasFolder([f[0]], folderId) {
      InsertIntoHead(f, folderId, item);
    } else {
      InsertIntoTail(f, folderId, item);
    }
  }

  /** The bag of ids of an insertion, split at the first tree. */
  lemma InsertBagSplit(f: seq<Node>, folderId: string, item: Node)
    requires f != []
    ensures multiset(Ids(f)) == multiset(Ids([f[0]])) + multiset(Ids(f[1..]))
    ensures multiset(Ids(InsertInto(f, folderId, item)))
      == multiset(Ids([WithItem(f[0], folderId, item)])) + multiset(Ids(InsertInto(f[1..], folderId, item)))
  {
    InsertSplit(f, folderId, item);
    IdsConcat([f[0]], f[1..]);
    IdsConcat([WithItem(f[0], folderId, item)], InsertInto(f[1..], folderId, item));
  }

  lemma {:induction false} InsertIntoHead(f: seq<Node>, folderId: string, item: Node)
    requires UniqueIds(f) && f != [] && HasFolder([f[0]], folderId)
    ensures multiset(Ids(InsertInto(f, folderId, item))) == multiset(Ids(f)) + multiset(Ids([item]))
    decreases f, 0
  {
    InsertBagSplit(f, folderId, item);
    HostOnlyInHead(f, folderId);
    WithItemIdBag(f[0], folderId, item);
    InsertNoHost(f[1..], folderId, item);
  }

  lemma {:induction false} InsertIntoTail(f: seq<Node>, folderId: string, item: Node)
    requires UniqueIds(f) && HasFolder(f, folderId) && !HasFolder([f[0]], folderId)
    ensures multiset(Ids(InsertInto(f, folderId, item))) == multiset(Ids(f)) + multiset(Ids([item]))
    decreases f, 0
  {
    InsertBagSplit(f, folderId, item);
    TailHost(f, folderId);
    WithItemNoHost(f[0], folderId, item);
    InsertIdBag(f[1..], folderId, item);
  }

  /** A folder not found in the first tree is found in the rest, whose ids are unique. */
  lemma TailHost(f: seq<Node>, folderId: string)
    requires f != [] && UniqueIds(f) && HasFolder(f, folderId) && !HasFolder([f[0]], folderId)
    ensures UniqueIds(f[1..]) && HasFolder(f[1..], folderId)
  {
    assert f == [f[0]] + f[1..];
    HostSplit(f, folderId);
    UniqueSplit([f[0]], f[1..]);
  }

  /** Under unique ids, a folder found in the first tree is not found again in the rest. */
  lemma HostOnlyInHead(f: seq<Node>, folderId: string)
    requires f != [] && UniqueIds(f) && HasFolder([f[0]], folderId)
    ensures UniqueIds([f[0]]) && !HasFolder(f[1..], folderId)
  {
    assert f == [f[0]] + f[1..];
    UniqueSplit([f[0]], f[1..]);
    IdInIds([f[0]], folderId);
    NoFolderWithoutId(f[1..], folderId);
  }

  lemma {:induction false} WithItemIdBag(h: Node, folderId: string, item: Node)
    requires UniqueIds([h]) && HasFolder([h], folderId)
    ensures multiset(Ids([WithItem(h, folderId, item)])) == multiset(Ids([h])) + multiset(Ids([item]))
    decreases h, 0
  {
    var w := WithItem(h, folderId, item);
    Single(h);
    Single(w);
    if h.id == folderId {
      IdsConcat(h.children, [item]);
    } else {
      UniqueChildren(h);
      WithItemNoHostChildren(h, folderId);
      InsertIdBag(h.children, folderId, item);
    }
  }

  lemma WithItemNoHostChildren(h: Node, folderId: string)
    requires HasFolder([h], folderId) && h.id != folderId
    ensures h.Folder? && HasFolder(h.children, folderId)
  {
    Single(h);
  }

  lemma {:induction false} WithItemNoHost(h: Node, folderId: string, item: Node)
    requires !HasFolder([h], folderId)
    ensures WithItem(h, folderId, item) == h
  {
    Single(h);
    if h.Folder? {
      InsertNoHost(h.children, folderId, item);
    }
  }

  /** Inserting an item whose ids are all new keeps ids unique. */
  lemma InsertKeepsUnique(f: seq<Node>, folderId: string, item: Node)
    requires UniqueIds(f) && NoDup(Ids([item]))
    requires forall x :: x in Ids([item]) ==> x !in Ids(f)
    ensures UniqueIds(InsertInto(f, folderId, item))
  {
    if HasFolder(f, folderId) {
      InsertIdBag(f, folderId, item);
      forall x
        ensures multiset(Ids(InsertInto(f, folderId, item)))[x] <= 1
      {
        assert multiset(Ids(f))[x] <= 1 && multiset(Ids([item]))[x] <= 1;
        if x in Ids([item]) {
          assert multiset(Ids(f))[x] == 0;
        }
      }
    } else {
      InsertNoHost(f, folderId, item);
    }
  }

  /** Any folder with the id receives the item somewhere in the tree. */
  lemma {:induction false} ItemPlaced(f: seq<Node>, folderId: string, item: Node)
    requires HasFolder(f, folderId)
    ensures item in Nodes(InsertInto(f, folderId, item))
    decreases f
  {
    var h := f[0];
    var r := InsertInto(f, folderId, item);
    var w := WithItem(h, folderId, item);
    Split(f);
    Split(r);
    Single(h);
    Single(w);
    assert r[0] == w && r[1..] == InsertInto(f[1..], folderId, item);
    if h.Folder? && h.id == folderId {
      NodesConcat(h.children, [item]);
      Single(item);
    } else if h.Folder? && HasFolder(h.children, folderId) {
      ItemPlaced(h.children, folderId, item);
    } else {
      var n :| n in Nodes(f) && n.Folder? && n.id == folderId;
      assert n in Nodes(f[1..]);
      ItemPlaced(f[1..], folderId, item);
    }
  }

  /** Under unique ids, the folder with the id reappears with the item as its last child. */
  lemma {:induction false} HostAppended(f: seq<Node>, host: Node, item: Node)
    requires UniqueIds(f) && host in Nodes(f) && host.Folder?
    ensures host.(children := host.children + [item]) in Nodes(InsertInto(f, host.id, item))
    decreases f
  {
    var h := f[0];
    var r := InsertInto(f, host.id, item);
    var w := WithItem(h, host.id, item);
    UniqueParts(f);
    Split(f);
    Split(r);
    Single(h);
    Single(w);
    assert r[0] == w && r[1..] == InsertInto(f[1..], host.id, item);
    if h.id == host.id {
      var k :| 0 <= k < |Nodes(f)| && Nodes(f)[k] == host;
      UniquePosition(f, 0, k);
    } else if h.Folder? && host in Nodes(h.children) {
      HostAppended(h.children, host, item);
    } else {
      HostAppended(f[1..], host, item);
    }
  }

  /**
   * A new item inserted into an existing folder is found by lookup afterwards, and the
   * folder is found with the item appended to its children.
   */
  lemma FindAfterInsert(f: seq<Node>, host: Node, newId: string, name: string, kind: NodeKind)
    requires UniqueIds(f) && host in Nodes(f) && host.Folder? && newId !in Ids(f)
    ensures FirstWithId(Nodes(InsertInto(f, host.id, NewItem(newId, name, kind))), newId)
      == Some(NewItem(newId, name, kind))
    ensures FirstWithId(Nodes(InsertInto(f, host.id, NewItem(newId, name, kind))), host.id)
      == Some(host.(children := host.children + [NewItem(newId, name, kind)]))
  {
    var item := NewItem(newId, name, kind);
    Single(item);
    assert Ids([item]) == [newId];
    InsertKeepsUnique(f, host.id, item);
    ItemPlaced(f, host.id, item);
    FindUnique(InsertInto(f, host.id, item), item);
    HostAppended(f, host, item);
    FindUnique(InsertInto(f, host.id, item), host.(children := host.children + [item]));
  }

  /** Deleting a freshly inserted item gives back the tree it was inserted into. */
  lemma {:induction false} DeleteUndoesInsert(f: seq<Node>, folderId: string, item: Node)
    requires item.id !in Ids(f)
    ensures DeleteNode(InsertInto(f, folderId, item), item.id) == f
    decreases f, 1
  {
    if f != [] {
      var h := f[0];
      InsertSplit(f, folderId, item);
      IdsConcat([h], f[1..]);
      DeleteUndoesInsert(f[1..], folderId, item);
      PrunedUndoesWithItem(h, folderId, item);
    }
  }

  lemma {:induction false} PrunedUndoesWithItem(h: Node, folderId: string, item: Node)
    requires item.id !in Ids([h])
    ensures Pruned(WithItem(h, folderId, item), item.id) == [h]
    decreases h, 0
  {
    Single(h);
    if h.Folder? {
      if h.id == folderId {
        var cs := h.children;
        DeleteConcat(cs, [item], item.id);
        DeleteAbsent(cs, item.id);
        assert [item][1..] == [];
        assert DeleteNode([item], item.id) == [];
        assert cs + [] == cs;
      } else {
        DeleteUndoesInsert(h.children, folderId, item);
      }
    }
  }

  // ---------------------------------------------------------------- content update

  /** `updateContent`: set the text of every file with the id; folders are left alone. */
  function UpdateContent(nodes: seq<Node>, fileId: string, value: string): seq<Node>
    decreases nodes, 1
  {
    if nodes == [] then [] else [Updated(nodes[0], fileId, value)] + UpdateContent(nodes[1..], fileId, value)
  }

  function Updated(n: Node, fileId: string, value: string): Node
    decreases n, 0
  {
    match n
    case File(i, nm, _) => if i == fileId then File(i, nm, value) else n
    case Folder(i, nm, cs) => Folder(i, nm, UpdateContent(cs, fileId, value))
  }

  /** The forest with every file's text blanked: what a content edit must leave alone. */
  function Erased(f: seq<Node>): seq<Node>
    decreases f, 1
  {
    if f == [] then [] else [ErasedNode(f[0])] + Erased(f[1..])
  }

  function ErasedNode(n: Node): Node
    decreases n, 0
  {
    match n
    case File(i, nm, _) => File(i, nm, "")
    case Folder(i, nm, cs) => Folder(i, nm, Erased(cs))
  }

  /** A header list with the text of the file headers carrying the id replaced. */
  function SetContentHeaders(s: seq<Node>, fileId: string, value: string): seq<Node>
  {
    if s == [] then []
    else
      [if s[0].File? && s[0].id == fileId then s[0].(content := value) else s[0]]
      + SetContentHeaders(s[1..], fileId, value)
  }

  /** A content edit keeps every id, name and type and the shape of the tree. */
  lemma {:induction false} UpdateKeepsShape(f: seq<Node>, fileId: string, value: string)
    ensures Erased(UpdateContent(f, fileId, value)) == Erased(f)
    ensures Ids(UpdateContent(f, fileId, value)) == Ids(f)
    decreases f
  {
    if f != [] {
      var r := UpdateContent(f, fileId, value);
      var u := Updated(f[0], fileId, value);
      assert r[0] == u && r[1..] == UpdateContent(f[1..], fileId, value);
      UpdateKeepsShape(f[1..], fileId, value);
      Split(f);
      Split(r);
      Single(f[0]);
      Single(u);
      if f[0].Folder? {
        UpdateKeepsShape(f[0].children, fileId, value);
      }
    }
  }

  lemma {:induction false} SetContentHeadersConcat(a: seq<Node>, b: seq<Node>, fileId: string, value: string)
    ensures SetContentHeaders(a + b, fileId, value)
      == SetContentHeaders(a, fileId, value) + SetContentHeaders(b, fileId, value)
    decreases a
  {
    if a == [] {
      assert a + b == b;
    } else {
      assert (a + b)[0] == a[0];
      assert (a + b)[1..] == a[1..] + b;
      SetContentHeadersConcat(a[1..], b, fileId, value);
    }
  }

  /**
   * In pre-order, every file header with the id gets the new text and every other
   * header is unchanged.
   */
  lemma {:induction false} UpdateFlat(f: seq<Node>, fileId: string, value: string)
    ensures Flat(UpdateContent(f, fileId, value)) == SetContentHeaders(Flat(f), fileId, value)
    decreases f
  {
    if f != [] {
      var n := f[0];
      var r := UpdateContent(f, fileId, value);
      var u := Updated(n, fileId, value);
      assert r[0] == u && r[1..] == UpdateContent(f[1..], fileId, value);
      UpdateFlat(f[1..], fileId, value);
      Split(f);
      Split(r);
      Single(n);
      Single(u);
      var front := if n.Folder? then Flat(n.children) else [];
      SetContentHeadersConcat([Shallow(n)] + front, Flat(f[1..]), fileId, value);
      SetContentHeadersConcat([Shallow(n)], front, fileId, value);
      if n.Folder? {
        UpdateFlat(n.children, fileId, value);
      }
    }
  }

  /** With no file of that id (none at all, or only a folder), a content edit changes nothing. */
  lemma {:induction false} UpdateNoFile(f: seq<Node>, fileId: string, value: string)
    requires forall n :: n in Nodes(f) ==> !(n.File? && n.id == fileId)
    ensures UpdateContent(f, fileId, value) == f
    decreases f
  {
    if f != [] {
      Split(f);
      Single(f[0]);
      UpdateNoFile(f[1..], fileId, value);
      if f[0].Folder? {
        UpdateNoFile(f[0].children, fileId, value);
      }
      assert f == [f[0]] + f[1..];
    }
  }

  lemma {:induction false} UpdatedMember(f: seq<Node>, file: Node, value: string)
    requires file in Nodes(f) && file.File?
    ensures file.(content := value) in Nodes(UpdateContent(f, file.id, value))
    decreases f
  {
    var r := UpdateContent(f, file.id, value);
    var u := Updated(f[0], file.id, value);
    assert r[0] == u && r[1..] == UpdateContent(f[1..], file.id, value);
    Split(f);
    Split(r);
    Single(f[0]);
    Single(u);
    if f[0] == file {
    } else if f[0].Folder? && file in Nodes(f[0].children) {
      UpdatedMember(f[0].children, file, value);
    } else {
      UpdatedMember(f[1..], file, value);
    }
  }

  /** Under unique ids, after an edit of a file, lookup returns that file with the new text. */
  lemma FindAfterUpdate(f: seq<Node>, file: Node, value: string)
    requires UniqueIds(f) && file in Nodes(f) && file.File?
    ensures FirstWithId(Nodes(UpdateContent(f, file.id, value)), file.id) == Some(file.(content := value))
  {
    UpdateKeepsShape(f, file.id, value);
    UpdatedMember(f, file, value);
    FindUnique(UpdateContent(f, file.id, value), file.(content := value));
  }

  // ---------------------------------------------------------------- move

  /** The last element of a list, or the given value for an empty list. */
  function LastOr(s: seq<Node>, d: Option<Node>): Option<Node>
  {
    if s == [] then d else Some(s[|s| - 1])
  }

  lemma LastOrConcat(a: seq<Node>, b: seq<Node>, d: Option<Node>)
    ensures LastOr(a + b, d) == LastOr(b, LastOr(a, d))
  {
    if b != [] {
      assert (a + b)[|a + b| - 1] == b[|b| - 1];
    } else {
      assert a + b == a;
    }
  }

  /**
   * `remove` inside moveNode: drop the nodes with the id, recording in `dragged` the
   * last one met; the tree that remains is the one the explorer's delete yields.
   */
  method Remove(nodes: seq<Node>, sourceId: string, dragged0: Option<Node>)
    returns (rest: seq<Node>, dragged: Option<Node>)
    ensures rest == DeleteNode(nodes, sourceId)
    ensures dragged == LastOr(Removed(nodes, sourceId), dragged0)
    decreases nodes
  {
    rest := [];
    dragged := dragged0;
    var i := 0;
    while i < |nodes|
      invariant 0 <= i <= |nodes|
      invariant rest == DeleteNode(nodes[..i], sourceId)
      invariant dragged == LastOr(Removed(nodes[..i], sourceId), dragged0)
    {
      var node := nodes[i];
      assert nodes[..i + 1] == nodes[..i] + [node];
      DeleteConcat(nodes[..i], [node], sourceId);
      LastOrConcat(Removed(nodes[..i], sourceId), Removed([node], sourceId), dragged0);
      assert Removed([node], sourceId) == RemovedIn(node, sourceId);
      assert DeleteNode([node], sourceId) == Pruned(node, sourceId);
      if node.id == sourceId {
        dragged := Some(node);
      } else if node.Folder? {
        var kids;
        kids, dragged := Remove(node.children, sourceId, dragged);
        rest := rest + [node.(children := kids)];
      } else {
        rest := rest + [node];
      }
      i := i + 1;
    }
    assert nodes[..i] == nodes;
  }

  lemma RemovedNonEmpty(f: seq<Node>, id: string)
    requires id in Ids(f)
    ensures Removed(f, id) != []
  {
    DeleteIdBag(f, id);
    DeleteRemovesId(f, id);
    assert multiset(Ids(f))[id] >= 1;
  }

  /** The node moveNode captures: the last node with the source id that a delete drops. */
  function Dragged(tree: seq<Node>, sourceId: string): (d: Node)
    requires sourceId in Ids(tree)
    ensures d.id == sourceId && d in Nodes(tree)
  {
    RemovedNonEmpty(tree, sourceId);
    RemovedMatch(tree, sourceId);
    var r := Removed(tree, sourceId);
    r[|r| - 1]
  }

  /** A folder outside every dropped subtree survives the delete. */
  lemma {:induction false} FolderSurvives(f: seq<Node>, id: string, folderId: string)
    requires HasFolder(f, folderId) && folderId !in Ids(Removed(f, id))
    ensures HasFolder(DeleteNode(f, id), folderId)
    decreases f, 1
  {
    var h, t := f[0], f[1..];
    assert f == [h] + t;
    NodesConcat([h], t);
    IdsConcat(RemovedIn(h, id), Removed(t, id));
    NodesConcat(Pruned(h, id), DeleteNode(t, id));
    if HasFolder([h], folderId) {
      PrunedKeepsFolder(h, id, folderId);
    } else {
      FolderSurvives(t, id, folderId);
    }
  }

  lemma {:induction false} PrunedKeepsFolder(h: Node, id: string, folderId: string)
    requires HasFolder([h], folderId) && folderId !in Ids(RemovedIn(h, id))
    ensures HasFolder(Pruned(h, id), folderId)
    decreases h, 0
  {
    IdInIds([h], folderId);
    Single(h);
    var p := Pruned(h, id)[0];
    Single(p);
    if h.id != folderId {
      FolderSurvives(h.children, id, folderId);
    }
  }

  /**
   * `moveNode`: remove the source node wherever it is, then append it at the top level
   * (no target) or as the last child of the target folder.
   */
  method MoveNode(tree: seq<Node>, sourceId: string, targetId: Option<string>) returns (updated: seq<Node>)
    requires sourceId in Ids(tree)
    ensures updated == if Truthy(targetId)
      then InsertInto(DeleteNode(tree, sourceId), targetId.value, Dragged(tree, sourceId))
      else DeleteNode(tree, sourceId) + [Dragged(tree, sourceId)]
    ensures UniqueIds(tree) && !Truthy(targetId) ==> multiset(Ids(updated)) == multiset(Ids(tree))
    ensures UniqueIds(tree) && Truthy(targetId) && HasFolder(tree, targetId.value)
        && targetId.value !in Ids([Dragged(tree, sourceId)])
      ==> multiset(Ids(updated)) == multiset(Ids(tree))
    ensures Truthy(targetId) && !HasFolder(DeleteNode(tree, sourceId), targetId.value)
      ==> updated == DeleteNode(tree, sourceId)
    ensures UniqueIds(tree) && Truthy(targetId) && targetId.value in Ids([Dragged(tree, sourceId)])
      ==> updated == DeleteNode(tree, sourceId)
  {
    RemovedNonEmpty(tree, sourceId);
    var rest, dragged := Remove(tree, sourceId, None);
    if Truthy(targetId) {
      updated := InsertInto(rest, targetId.value, dragged.value);
      if !HasFolder(rest, targetId.value) {
        InsertNoHost(rest, targetId.value, dragged.value);
      }
      if UniqueIds(tree) {
        MoveIntoFolder(tree, sourceId, targetId.value);
        MoveIntoOwnSubtree(tree, sourceId, targetId.value);
      }
    } else {
      updated := rest + [dragged.value];
      if UniqueIds(tree) {
        MoveToTop(tree, sourceId);
      }
    }
  }

  /** Under unique ids, a delete drops exactly the dragged node. */
  lemma DraggedIsRemoved(tree: seq<Node>, sourceId: string)
    requires UniqueIds(tree) && sourceId in Ids(tree)
    ensures Removed(tree, sourceId) == [Dragged(tree, sourceId)]
    ensures multiset(Ids(tree)) == multiset(Ids(DeleteNode(tree, sourceId))) + multiset(Ids([Dragged(tree, sourceId)]))
    ensures UniqueIds(DeleteNode(tree, sourceId))
  {
    RemovedSingle(tree, sourceId);
    DeleteIdBag(tree, sourceId);
    DeleteKeepsUnique(tree, sourceId);
  }

  /** Moving to the top level keeps the id bag. */
  lemma MoveToTop(tree: seq<Node>, sourceId: string)
    requires UniqueIds(tree) && sourceId in Ids(tree)
    ensures multiset(Ids(DeleteNode(tree, sourceId) + [Dragged(tree, sourceId)])) == multiset(Ids(tree))
  {
    DraggedIsRemoved(tree, sourceId);
    IdsConcat(DeleteNode(tree, sourceId), [Dragged(tree, sourceId)]);
  }

  /** Moving into a folder outside the moved subtree keeps the id bag. */
  lemma MoveIntoFolder(tree: seq<Node>, sourceId: string, targetId: string)
    requires UniqueIds(tree) && sourceId in Ids(tree)
    ensures HasFolder(tree, targetId) && targetId !in Ids([Dragged(tree, sourceId)]) ==>
      multiset(Ids(InsertInto(DeleteNode(tree, sourceId), targetId, Dragged(tree, sourceId))))
        == multiset(Ids(tree))
  {
    if HasFolder(tree, targetId) && targetId !in Ids([Dragged(tree, sourceId)]) {
      DraggedIsRemoved(tree, sourceId);
      FolderSurvives(tree, sourceId, targetId);
      InsertIdBag(DeleteNode(tree, sourceId), targetId, Dragged(tree, sourceId));
    }
  }

  /** A target inside the moved subtree is gone once the source is removed. */
  lemma MoveIntoOwnSubtree(tree: seq<Node>, sourceId: string, targetId: string)
    requires UniqueIds(tree) && sourceId in Ids(tree)
    ensures targetId in Ids([Dragged(tree, sourceId)]) ==> !HasFolder(DeleteNode(tree, sourceId), targetId)
  {
    if targetId in Ids([Dragged(tree, sourceId)]) {
      DraggedIsRemoved(tree, sourceId);
      assert multiset(Ids(tree))[targetId] <= 1;
      NoFolderWithoutId(DeleteNode(tree, sourceId), targetId);
    }
  }
}
