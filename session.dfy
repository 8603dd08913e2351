/**
 * The editor-session state of the page component (app/page.tsx): the snippet tree,
 * the open tabs, the active file, the selected folder and the sidebar's drag-resize.
 * React state setters become field assignments of one `EditorSession` object; every
 * handler runs to completion before the next one starts.
 */
module Session {
  import opened Wrappers
  import opened FileTree
  import opened Explorer
  import opened TreeOps

  /** The bounds of the sidebar width while dragging, and its starting value. */
  const MinWidth: int := 150
  const MaxWidth: int := 1000
  const InitialWidth: int := 300

  function Min(a: int, b: int): int { if a <= b then a else b }

  function Max(a: int, b: int): int { if a <= b then b else a }

  /** `Math.min(Math.max(start + delta, 150), 1000)`. */
  function ClampWidth(start: int, delta: int): (w: int)
    ensures MinWidth <= w <= MaxWidth
    ensures MinWidth <= start + delta <= MaxWidth ==> w == start + delta
    ensures start + delta < MinWidth ==> w == MinWidth
    ensures MaxWidth < start + delta ==> w == MaxWidth
  {
    Min(Max(start + delta, MinWidth), MaxWidth)
  }

  /** `tabs.filter((tabId) => tabId !== id)`. */
  function Without(tabs: seq<string>, id: string): (r: seq<string>)
    ensures multiset(r) == multiset(tabs)[id := 0]
    ensures |r| <= |tabs|
    ensures NoDup(tabs) ==> NoDup(r)
  {
    if tabs == [] then []
    else
      assert tabs == [tabs[0]] + tabs[1..];
      NoDupConcat([tabs[0]], tabs[1..]);
      NoDupConcat([tabs[0]], Without(tabs[1..], id));
      if tabs[0] == id then Without(tabs[1..], id)
      else [tabs[0]] + Without(tabs[1..], id)
  }

  /** Filtering distributes over concatenation, so the remaining tabs keep their order. */
  lemma {:induction false} WithoutConcat(a: seq<string>, b: seq<string>, id: string)
    ensures Without(a + b, id) == Without(a, id) + Without(b, id)
  {
    if a == [] {
      assert a + b == b;
    } else {
      assert (a + b)[0] == a[0];
      assert (a + b)[1..] == a[1..] + b;
      WithoutConcat(a[1..], b, id);
    }
  }

  /** `remaining[0] || null`: the first remaining tab, unless there is none or it is the empty string. */
  function FirstOrNull(remaining: seq<string>): (a: Option<string>)
    ensures a.Some? ==> a.value in remaining && a.value != ""
    ensures a.None? <==> remaining == [] || remaining[0] == ""
  {
    if remaining != [] && remaining[0] != "" then Some(remaining[0]) else None
  }

  /** `value || ""`: an absent or empty edit becomes the empty text. */
  function TextOf(value: Option<string>): (t: string)
    ensures t == "" <==> value.None? || value.value == ""
    ensures t != "" ==> value == Some(t)
  {
    if value.Some? then value.value else ""
  }

  /** Adding a fresh single item, under a folder or at the top level, keeps ids unique. */
  lemma AddKeepsUnique(tree: seq<Node>, selected: Option<string>, item: Node)
    requires UniqueIds(tree) && Ids([item]) == [item.id] && item.id !in Ids(tree)
    ensures UniqueIds(if Truthy(selected) then InsertInto(tree, selected.value, item) else tree + [item])
  {
    NoDupConcat([item.id], []);
    if Truthy(selected) {
      InsertKeepsUnique(tree, selected.value, item);
    } else {
      AppendTopLevel(tree, item);
      NoDupConcat(Ids(tree), [item.id]);
      IdsConcat(tree, [item]);
    }
  }

  /** Opening a tab that is not open yet keeps the tabs free of duplicates. */
  lemma AppendTab(tabs: seq<string>, id: string)
    requires NoDup(tabs) && id !in tabs
    ensures NoDup(tabs + [id])
  {
    NoDupConcat(tabs, [id]);
  }

  class EditorSession {
    var fileTree: seq<Node>
    var openTabs: seq<string>
    var activeFileId: Option<string>
    var selectedFolderId: Option<string>
    var sidebarWidth: int
    var isDragging: bool
    var dragStartX: int
    var startWidth: int

    /** Ids stay unique, a tab is open at most once, the active file is an open tab, and the width is in range. */
    ghost predicate Valid()
      reads this
    {
      && UniqueIds(fileTree)
      && NoDup(openTabs)
      && (activeFileId.Some? ==> activeFileId.value in openTabs)
      && MinWidth <= sidebarWidth <= MaxWidth
    }

    /** The page's initial state, with the tree that the backend fetch delivered. */
    constructor(loaded: seq<Node>)
      requires UniqueIds(loaded)
      ensures Valid()
      ensures fileTree == loaded && openTabs == [] && activeFileId == None && selectedFolderId == None
      ensures sidebarWidth == InitialWidth && !isDragging && dragStartX == 0 && startWidth == InitialWidth
    {
      fileTree := loaded;
      openTabs := [];
      activeFileId := None;
      selectedFolderId := None;
      sidebarWidth := InitialWidth;
      isDragging := false;
      dragStartX := 0;
      startWidth := InitialWidth;
    }

    /** `handleUpdateTree`: the tree state becomes the given tree (saving it to the backend is not modelled). */
    method UpdateTree(updated: seq<Node>)
      requires Valid() && UniqueIds(updated)
      modifies this
      ensures Valid()
      ensures fileTree == updated
      ensures openTabs == old(openTabs) && activeFileId == old(activeFileId) && selectedFolderId == old(selectedFolderId)
      ensures sidebarWidth == old(sidebarWidth) && isDragging == old(isDragging)
      ensures dragStartX == old(dragStartX) && startWidth == old(startWidth)
    {
      fileTree := updated;
    }

    /** Give the file a tab unless it already has one, and make it the active file. */
    method OpenTab(id: string)
      requires Valid()
      modifies this
      ensures Valid()
      ensures openTabs == if id in old(openTabs) then old(openTabs) else old(openTabs) + [id]
      ensures activeFileId == Some(id)
      ensures fileTree == old(fileTree) && selectedFolderId == old(selectedFolderId)
      ensures sidebarWidth == old(sidebarWidth) && isDragging == old(isDragging)
      ensures dragStartX == old(dragStartX) && startWidth == old(startWidth)
    {
      if id !in openTabs {
        AppendTab(openTabs, id);
        openTabs := openTabs + [id];
      }
      activeFileId := Some(id);
    }

    /** `setSelectedFolderId`. */
    method SelectFolder(folderId: Option<string>)
      requires Valid()
      modifies this
      ensures Valid()
      ensures selectedFolderId == folderId
      ensures fileTree == old(fileTree) && openTabs == old(openTabs) && activeFileId == old(activeFileId)
      ensures sidebarWidth == old(sidebarWidth) && isDragging == old(isDragging)
      ensures dragStartX == old(dragStartX) && startWidth == old(startWidth)
    {
      selectedFolderId := folderId;
    }

    /**
     * `handleAddItem`: build the item, put it under the selected folder (or at the end of
     * the top level when none is selected), then open a new file or select a new folder.
     * `newId` stands for the fresh `uuid()`.
     */
    method AddItem(name: string, kind: NodeKind, newId: string)
      requires Valid()
      requires newId !in Ids(fileTree) && newId !in openTabs
      modifies this
      ensures Valid()
      ensures Truthy(old(selectedFolderId)) ==>
        fileTree == InsertInto(old(fileTree), old(selectedFolderId).value, NewItem(newId, name, kind))
      ensures !Truthy(old(selectedFolderId)) ==> fileTree == old(fileTree) + [NewItem(newId, name, kind)]
      ensures kind == FileKind ==>
        openTabs == old(openTabs) + [newId] && activeFileId == Some(newId) && selectedFolderId == old(selectedFolderId)
      ensures kind == FolderKind ==>
        openTabs == old(openTabs) && activeFileId == old(activeFileId) && selectedFolderId == Some(newId)
      ensures sidebarWidth == old(sidebarWidth) && isDragging == old(isDragging)
      ensures dragStartX == old(dragStartX) && startWidth == old(startWidth)
    {
      var item := NewItem(newId, name, kind);
      Single(item);
      var updatedTree := if Truthy(selectedFolderId)
        then InsertInto(fileTree, selectedFolderId.value, item)
        else fileTree + [item];
      AddKeepsUnique(fileTree, selectedFolderId, item);
      UpdateTree(updatedTree);
      if kind == FileKind {
        // the id is fresh, so the tab is appended
        OpenTab(newId);
      } else {
        SelectFolder(Some(newId));
      }
    }

    /**
     * `handleFileSelect`: an unknown id does nothing; a folder becomes the selected folder;
     * a file clears the selection, gets a tab if it has none, and becomes active.
     */
    method FileSelect(id: string)
      requires Valid()
      modifies this
      ensures Valid()
      ensures fileTree == old(fileTree) && sidebarWidth == old(sidebarWidth) && isDragging == old(isDragging)
      ensures dragStartX == old(dragStartX) && startWidth == old(startWidth)
      ensures id !in Ids(fileTree) ==>
        openTabs == old(openTabs) && activeFileId == old(activeFileId) && selectedFolderId == old(selectedFolderId)
      ensures FirstWithId(Nodes(fileTree), id).Some? && FirstWithId(Nodes(fileTree), id).value.Folder? ==>
        openTabs == old(openTabs) && activeFileId == old(activeFileId) && selectedFolderId == Some(id)
      ensures FirstWithId(Nodes(fileTree), id).Some? && FirstWithId(Nodes(fileTree), id).value.File? ==>
        selectedFolderId == None && activeFileId == Some(id)
        && openTabs == (if id in old(openTabs) then old(openTabs) else old(openTabs) + [id])
    {
      var node := FindFileById(fileTree, id);
      if node.None? {
        return;
      }
      if node.value.Folder? {
        SelectFolder(Some(node.value.id));
        return;
      }
      SelectFolder(None);
      OpenTab(node.value.id);
    }

    /** `handleCloseTab`: drop the tab; closing the active one activates the first remaining tab, or none. */
    method CloseTab(id: string)
      requires Valid()
      modifies this
      ensures Valid()
      ensures openTabs == Without(old(openTabs), id)
      ensures old(activeFileId) == Some(id) ==> activeFileId == FirstOrNull(openTabs)
      ensures old(activeFileId) != Some(id) ==> activeFileId == old(activeFileId)
      ensures fileTree == old(fileTree) && selectedFolderId == old(selectedFolderId)
      ensures sidebarWidth == old(sidebarWidth) && isDragging == old(isDragging)
      ensures dragStartX == old(dragStartX) && startWidth == old(startWidth)
    {
      var remaining := Without(openTabs, id);
      if activeFileId.Some? && activeFileId.value != id {
        assert activeFileId.value in multiset(openTabs);
        assert activeFileId.value in multiset(remaining);
      }
      if activeFileId == Some(id) {
        activeFileId := FirstOrNull(remaining);
      }
      openTabs := remaining;
    }

    /** `handleEditorChange`: with an active file, its text becomes the new value (or empty). */
    method EditorChange(value: Option<string>)
      requires Valid()
      modifies this
      ensures Valid()
      ensures !Truthy(old(activeFileId)) ==> fileTree == old(fileTree)
      ensures Truthy(old(activeFileId)) ==>
        fileTree == UpdateContent(old(fileTree), old(activeFileId).value, TextOf(value))
      ensures openTabs == old(openTabs) && activeFileId == old(activeFileId) && selectedFolderId == old(selectedFolderId)
      ensures sidebarWidth == old(sidebarWidth) && isDragging == old(isDragging)
      ensures dragStartX == old(dragStartX) && startWidth == old(startWidth)
    {
      if !Truthy(activeFileId) {
        return;
      }
      UpdateKeepsShape(fileTree, activeFileId.value, TextOf(value));
      UpdateTree(UpdateContent(fileTree, activeFileId.value, TextOf(value)));
    }

    /** The explorer's delete action, passed on through `handleUpdateTree`. */
    method ExplorerDelete(contextNode: Option<Node>)
      requires Valid()
      modifies this
      ensures Valid()
      ensures contextNode.None? ==> fileTree == old(fileTree)
      ensures contextNode.Some? ==> fileTree == DeleteNode(old(fileTree), contextNode.value.id)
      ensures openTabs == old(openTabs) && activeFileId == old(activeFileId) && selectedFolderId == old(selectedFolderId)
      ensures sidebarWidth == old(sidebarWidth) && isDragging == old(isDragging)
      ensures dragStartX == old(dragStartX) && startWidth == old(startWidth)
    {
      var updated := HandleDelete(fileTree, contextNode);
      if updated.Some? {
        DeleteKeepsUnique(fileTree, contextNode.value.id);
        UpdateTree(updated.value);
      }
    }

    /** The explorer's rename action, passed on through `handleUpdateTree`. */
    method ExplorerRename(contextNode: Option<Node>, newName: string)
      requires Valid()
      modifies this
      ensures Valid()
      ensures contextNode.None? ==> fileTree == old(fileTree)
      ensures contextNode.Some? ==> fileTree == RenameNode(old(fileTree), contextNode.value.id, newName)
      ensures openTabs == old(openTabs) && activeFileId == old(activeFileId) && selectedFolderId == old(selectedFolderId)
      ensures sidebarWidth == old(sidebarWidth) && isDragging == old(isDragging)
      ensures dragStartX == old(dragStartX) && startWidth == old(startWidth)
    {
      var updated := HandleRename(fileTree, contextNode, newName);
      if updated.Some? {
        UpdateTree(updated.value);
      }
    }

    /** Clicking a tab makes it the active file; the tab strip only offers open tabs. */
    method TabChange(id: string)
      requires Valid() && id in openTabs
      modifies this
      ensures Valid()
      ensures activeFileId == Some(id)
      ensures fileTree == old(fileTree) && openTabs == old(openTabs) && selectedFolderId == old(selectedFolderId)
      ensures sidebarWidth == old(sidebarWidth) && isDragging == old(isDragging)
      ensures dragStartX == old(dragStartX) && startWidth == old(startWidth)
    {
      activeFileId := Some(id);
    }

    /** Pressing on the divider: remember where the drag started and the width at that moment. */
    method MouseDown(clientX: int)
      requires Valid()
      modifies this
      ensures Valid()
      ensures isDragging && dragStartX == clientX && startWidth == old(sidebarWidth)
      ensures sidebarWidth == old(sidebarWidth)
      ensures fileTree == old(fileTree) && openTabs == old(openTabs)
      ensures activeFileId == old(activeFileId) && selectedFolderId == old(selectedFolderId)
    {
      dragStartX := clientX;
      startWidth := sidebarWidth;
      isDragging := true;
    }

    /** `handleMouseMove`: while dragging, the width follows the pointer within [150, 1000]. */
    method MouseMove(clientX: int)
      requires Valid()
      modifies this
      ensures Valid()
      ensures old(isDragging) ==> sidebarWidth == ClampWidth(startWidth, clientX - dragStartX)
      ensures !old(isDragging) ==> sidebarWidth == old(sidebarWidth)
      ensures isDragging == old(isDragging) && dragStartX == old(dragStartX) && startWidth == old(startWidth)
      ensures fileTree == old(fileTree) && openTabs == old(openTabs)
      ensures activeFileId == old(activeFileId) && selectedFolderId == old(selectedFolderId)
    {
      if !isDragging {
        return;
      }
      var delta := clientX - dragStartX;
      sidebarWidth := ClampWidth(startWidth, delta);
    }

    /** Releasing the mouse anywhere ends the drag. */
    method MouseUp()
      requires Valid()
      modifies this
      ensures Valid()
      ensures !isDragging
      ensures sidebarWidth == old(sidebarWidth) && dragStartX == old(dragStartX) && startWidth == old(startWidth)
      ensures fileTree == old(fileTree) && openTabs == old(openTabs)
      ensures activeFileId == old(activeFileId) && selectedFolderId == old(selectedFolderId)
    {
      isDragging := false;
    }
  }
}
