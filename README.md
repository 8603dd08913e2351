# snip: the snippet tree and the editor session, in Dafny

snip is a small browser code-snippet editor. Its state is a **snippet tree**: an ordered forest of
files (id, name, text) and folders (id, name, children). Around it sits the page component's
editor session: the open tabs, the active file, the selected folder and the width of a
drag-resizable sidebar. This project models:

- the tree operations that rebuild the forest:
  - lookup by id (`findFileById`);
  - insertion of a new item under the selected folder or at the top level (`insertInto`, `handleAddItem`);
  - replacing a file's text (`updateContent`);
  - drag-and-drop moves (`moveNode`);
  - the explorer's cascading delete and its rename (`deleteNode`, `renameNode`);
- the session handlers that drive those operations (`handleAddItem`, `handleFileSelect`,
  `handleCloseTab`, `handleEditorChange`, `handleUpdateTree`, the divider's mouse handlers);
- the explorer's icon choice (`getFileIcon`).

Files:

- `wrappers.dfy`: `Option`.
- `file_tree.dfy` (module `FileTree`): the `Node` datatype. It also defines the pre-order views
  `Nodes` (every node), `Ids` (every id) and `Flat` (every node without its children), the
  uniqueness invariant `UniqueIds`, and the order-keeping relation `IsSubseq`.
- `explorer.dfy` (module `Explorer`): `deleteNode` and `renameNode`, and the `handleDelete` and
  `handleRename` guards.
- `tree_ops.dfy` (module `TreeOps`): lookup, insertion, content update and move.
  - `findFileById` and `moveNode`'s `remove` update variables step by step, so they are methods
    with loops. Each is proved equal to a function, and the properties are lemmas about that function.
- `session.dfy` (module `Session`): the class `EditorSession`.
  - Its fields are the page's state variables. Every React state setter becomes a field assignment.
  - Each handler is a method that states the whole new state and keeps `Valid()`. `Valid()` holds when:
    ids are unique, no tab is open twice, the active file is an open tab, and the sidebar width is
    within [150, 1000].
- `file_icons.dfy` (module `FileIcons`): the icon table, the extension rule, the icon lookup the
  code intends, and the lookup the code actually performs.

Ids come from `uuid()` and are unique by assumption; nothing in the code checks it. The model
carries it as `UniqueIds`: a precondition of the lemmas that need it and part of the session's
invariant. The new id passed to `AddItem` must be fresh, which stands for the `uuid()` call.

How JavaScript indexes the icon record is an assumption of the model, written as
`FileIcons.PropertyLookup`: a key of the record finds its own entry; otherwise one of the
members every object inherits from `Object.prototype` (`constructor`, `toString`, `__proto__`
and the others listed in `PrototypeMembers`) finds that inherited member; any other key
finds `undefined`.

A JavaScript test on a nullable id (`selectedFolderId ? …`, `targetId ? …`, `!activeFileId`)
treats the empty string like `null`. The model writes this out as `TreeOps.Truthy`.

## Model

| member | source | states |
|---|---|---|
| FileTree.NewItem | app/page.tsx:97-102 | the new item has the given id, name and type, and no descendants: a folder starts with no children and a file with empty text |
| TreeOps.InsertInto | app/page.tsx:104-113 | `insertInto` (with `WithItem` for one node), also `moveNode`'s `insert` at app/page.tsx:198-210; no contract of its own, specified by InsertNoHost, InsertIdBag, ItemPlaced, HostAppended, FindAfterInsert and DeleteUndoesInsert |
| TreeOps.WithItem | app/page.tsx:105-112 | one node of `insertInto`'s `map`; no contract of its own, specified through InsertInto's lemmas |
| TreeOps.UpdateContent | app/page.tsx:160-169 | `updateContent` (with `Updated` for one node); no contract of its own, specified by UpdateKeepsShape, UpdateFlat, UpdateNoFile, UpdatedMember and FindAfterUpdate |
| TreeOps.Updated | app/page.tsx:161-168 | one node of `updateContent`'s `map`; no contract of its own, specified through UpdateContent's lemmas |
| TreeOps.FindFileById | app/page.tsx:30-39 | the result is the first node with the id in depth-first pre-order; a result has the queried id and lies in the tree; the result is null exactly when no node at any depth has the id |
| TreeOps.FirstWithConcat | app/page.tsx:31-36 | a match among earlier siblings wins over any later match |
| TreeOps.FindNone | app/page.tsx:30-39 | the search fails exactly when the id is nowhere in the forest |
| TreeOps.FindUnique | app/page.tsx:30-39 | with unique ids, looking up the id of any node in the tree finds that very node |
| TreeOps.AppendTopLevel | app/page.tsx:115-117 | appending at the top level adds exactly the item's ids, and deleting the fresh id undoes the append |
| TreeOps.InsertNoHost | app/page.tsx:104-113 | when no folder has the selected id (a file with that id does not count), the tree comes back unchanged and the item is dropped |
| TreeOps.InsertIdBag | app/page.tsx:104-113 | when the selected folder exists and ids are unique, the ids afterwards are the old ids plus the item's ids, nothing lost or duplicated |
| TreeOps.InsertKeepsUnique | app/page.tsx:104-117 | inserting an item whose ids are fresh keeps every id unique |
| TreeOps.ItemPlaced | app/page.tsx:104-113 | when the folder exists, the item is in the rebuilt tree |
| TreeOps.HostAppended | app/page.tsx:106-108 | the selected folder reappears with the item appended as its last child, and its other children are unchanged |
| TreeOps.FindAfterInsert | app/page.tsx:104-113 | after the insert, the new id finds the new item and the folder's id finds the folder with the item last among its children |
| TreeOps.DeleteUndoesInsert | app/page.tsx:104-113 | deleting the freshly inserted id gives back the tree before the insert, whether or not the folder existed |
| TreeOps.UpdateKeepsShape | app/page.tsx:160-169 | the content update changes no id, name, type or child structure, only file texts |
| TreeOps.UpdateFlat | app/page.tsx:160-169 | in pre-order, the update sets the text of exactly the files with the id and leaves every other node as it was |
| TreeOps.UpdateNoFile | app/page.tsx:160-169 | when no file has the id (a folder with that id is left alone), the tree is unchanged |
| TreeOps.UpdatedMember | app/page.tsx:162-163 | the matching file reappears with the new text |
| TreeOps.FindAfterUpdate | app/page.tsx:160-171 | with unique ids, looking the file up afterwards finds it with the new text |
| TreeOps.Remove | app/page.tsx:184-196 | `remove` with its captured `dragged` variable gives the tree with the source deleted at every depth, and the last node with the source id that it visited |
| TreeOps.Dragged | app/page.tsx:186-189 | the captured node has the source id and is a node of the tree |
| TreeOps.MoveNode | app/page.tsx:177-215 | the result is the source removed and then appended at the top level or to the target folder. Moving to the top level, or into a folder outside the moved subtree, keeps the multiset of ids. Dropping onto a folder that is gone after the removal, including one inside the moved subtree, leaves only the removal |
| TreeOps.DraggedIsRemoved | app/page.tsx:184-196 | with unique ids, exactly one subtree is removed, and it is the dragged node; its ids plus the remaining ids are the old ids |
| TreeOps.MoveToTop | app/page.tsx:212-213 | moving to the top level keeps the multiset of ids |
| TreeOps.MoveIntoFolder | app/page.tsx:198-213 | moving into a folder outside the moved subtree keeps the multiset of ids |
| TreeOps.MoveIntoOwnSubtree | app/page.tsx:198-213 | a target inside the moved subtree has no folder left to receive the node |
| TreeOps.FolderSurvives | app/page.tsx:184-196 | a folder that is not part of the removed subtree survives the removal |
| Explorer.DeleteNode | components/FileExplorer.tsx:47-60 | `deleteNode` (with `Pruned` for one node); no contract of its own, specified by DeleteRemovesId, DeleteDropsSubtree, DeleteIdBag, DeleteKeepsOrder, DeleteAbsent and DeleteKeepsUnique |
| Explorer.Pruned | components/FileExplorer.tsx:49-57 | one node of `deleteNode`'s `map` and `filter`; no contract of its own, specified through DeleteNode's lemmas |
| Explorer.RenameNode | components/FileExplorer.tsx:71-81 | `renameNode` (with `Renamed` for one node); no contract of its own, specified by RenameFlat, RenameKeepsIds, RenameKeepsSkeleton, RenameIdempotent and RenameAbsent |
| Explorer.Renamed | components/FileExplorer.tsx:72-80 | one node of `renameNode`'s `map`; no contract of its own, specified through RenameNode's lemmas |
| Explorer.HandleDelete | components/FileExplorer.tsx:44-63 | no context node means no update. Otherwise no node with the id remains at any depth, the survivors keep their order and their fields, and an absent id gives back the tree unchanged |
| Explorer.HandleRename | components/FileExplorer.tsx:68-84 | no context node means no update; otherwise the ids in pre-order and everything but the names are unchanged |
| Explorer.DeleteRemovesId | components/FileExplorer.tsx:47-60 | after the delete, no node with the id remains at any depth |
| Explorer.DeleteDropsSubtree | components/FileExplorer.tsx:50 | with unique ids, deleting a node drops every id of its subtree |
| Explorer.DeleteIdBag | components/FileExplorer.tsx:47-60 | the old ids are the surviving ids plus the ids of the removed subtrees |
| Explorer.RemovedMatch | components/FileExplorer.tsx:50 | every removed subtree is rooted at a node of the tree with the deleted id |
| Explorer.RemovedSingle | components/FileExplorer.tsx:47-60 | with unique ids and a present id, exactly one subtree is removed |
| Explorer.DeleteKeepsOrder | components/FileExplorer.tsx:48-59 | in pre-order, the surviving nodes are a subsequence of the old ones, each with its id, name, type and text intact |
| Explorer.DeleteAbsent | components/FileExplorer.tsx:47-62 | deleting an absent id gives back an equal tree |
| Explorer.DeleteKeepsUnique | components/FileExplorer.tsx:47-62 | deletion keeps ids unique |
| Explorer.RenameKeepsIds | components/FileExplorer.tsx:71-81 | renaming keeps the pre-order id list, so the set of ids and the node count are unchanged |
| Explorer.RenameKeepsSkeleton | components/FileExplorer.tsx:71-81 | renaming changes no id, type, text or child structure |
| Explorer.RenameFlat | components/FileExplorer.tsx:72-80 | with unique ids, in pre-order, exactly the node with the id, file or folder, gets the new name and every other node is as it was |
| Explorer.RenameIdempotent | components/FileExplorer.tsx:71-83 | renaming twice to the same name equals renaming once |
| Explorer.RenameAbsent | components/FileExplorer.tsx:71-81 | renaming an absent id gives back an equal tree |
| Session.ClampWidth | app/page.tsx:226-229 | the width always lies in [150, 1000]: it follows start plus delta inside the range and sticks to the nearer bound outside it |
| Session.Without | app/page.tsx:149-151 | filtering out the id removes all of its occurrences and keeps every other tab with its multiplicity; a tab list without duplicates stays so |
| Session.WithoutConcat | app/page.tsx:149 | filtering distributes over concatenation, so the remaining tabs keep their order |
| Session.FirstOrNull | app/page.tsx:152 | the new active tab is an element of the remaining tabs; it is null exactly when none remains or the first is the empty string |
| Session.TextOf | app/page.tsx:163 | `value \|\| ""`: the file text is empty exactly when the edit is absent or empty, and a non-empty text is the edit itself |
| Session.AddKeepsUnique | app/page.tsx:115-117 | adding a fresh childless item under the selected folder or at the top level keeps ids unique |
| Session.EditorSession.constructor | app/page.tsx:54-62 | the initial session has the loaded tree, no tabs, no active file, no selected folder, width 300 and no drag |
| Session.EditorSession.UpdateTree | app/page.tsx:217-220 | the tree becomes the given tree and nothing else changes |
| Session.EditorSession.AddItem | app/page.tsx:96-128 | the item goes under the selected folder, or at the end of the top level when none is selected. A new file is appended to the tabs and becomes active; a new folder becomes the selected folder. The invariant is kept |
| Session.EditorSession.FileSelect | app/page.tsx:130-146 | an unknown id changes nothing; a folder only becomes the selected folder; a file clears the selection, gets a tab only if it has none, and becomes active |
| Session.EditorSession.CloseTab | app/page.tsx:148-154 | the tab is removed. If it was active, the first remaining tab, or none, becomes active; otherwise the active file is unchanged |
| Session.EditorSession.EditorChange | app/page.tsx:156-175 | with no active file nothing happens; otherwise the active file's text becomes the value or the empty text |
| Session.EditorSession.ExplorerDelete | components/FileExplorer.tsx:44-63 | the explorer's delete reaches the tree through `handleUpdateTree` and keeps the session invariant |
| Session.EditorSession.ExplorerRename | components/FileExplorer.tsx:68-84 | the explorer's rename reaches the tree through `handleUpdateTree` and keeps the session invariant |
| Session.EditorSession.TabChange | app/page.tsx:394-396 | clicking an open tab makes it the active file and changes nothing else |
| Session.EditorSession.MouseDown | app/page.tsx:355-358 | pressing the divider records the pointer position and the current width and starts the drag |
| Session.EditorSession.MouseMove | app/page.tsx:222-234 | while dragging, the width becomes the clamped start width plus the pointer's travel; otherwise nothing changes |
| Session.EditorSession.MouseUp | app/page.tsx:247 | releasing the mouse ends the drag and changes nothing else |
| FileIcons.SplitOnDots | components/fileIcons.ts:14 | `split(".")` gives at least one piece, none containing a dot, and only the whole name when there is no dot |
| FileIcons.Extension | components/fileIcons.ts:14 | `name.split(".").pop() \|\| ""`; no contract of its own, specified by ExtensionIsLastSegment, LastSegmentUnique, ExtensionOfJoin and DotlessName |
| FileIcons.ExtensionIsLastSegment | components/fileIcons.ts:14 | the extension ends the name, contains no dot, and is either the whole name or preceded by a dot |
| FileIcons.ExtensionOfJoin | components/fileIcons.ts:14 | the extension of `base.ext` is `ext`, whatever dots `base` holds |
| FileIcons.GetFileIcon | components/fileIcons.ts:12-16 | a folder always gets the folder icon; a file gets the table entry of its extension, or the default icon when the table has none; the icon is always a table value |
| FileIcons.IconOfJoin | components/fileIcons.ts:14-15 | the file `base.ext` gets the table entry for `ext`, or the default icon |
| FileIcons.ScriptExtensions | components/fileIcons.ts:1-10 | `js`, `ts`, `jsx` and `tsx` get their table entries |
| FileIcons.DocumentExtensions | components/fileIcons.ts:1-10 | `md` and `json` get their table entries |
| FileIcons.SurprisingExtensions | components/fileIcons.ts:8-15 | case matters (`JS` gets the default icon), and a file with extension `folder` gets the folder icon |
| FileIcons.DotlessName | components/fileIcons.ts:14-15 | a name without a dot is its own extension, so it gets the table entry of the whole name or the default icon |
| FileIcons.TrailingDot | components/fileIcons.ts:14-15 | a trailing dot leaves the empty extension, which gets the default icon |
| FileIcons.RenderedFor | components/fileIcons.ts:15 | `fileIcons[ext] \|\| fileIcons.default` for one extension, with indexing as described above; it yields a non-icon exactly for an inherited member name outside the table |
| FileIcons.GetFileIconAsWritten | components/fileIcons.ts:12-16 | the code as written returns something other than an icon exactly for a file whose extension is an inherited member name |
| FileIcons.AsWrittenPrototypeLeak | components/fileIcons.ts:15 | a file named `base.constructor` gets `Object` itself from the code as written, where the intended lookup gives the default icon |
| FileIcons.AsWrittenAgrees | components/fileIcons.ts:12-16 | away from inherited member names, the code as written and the intended lookup return the same icon |

## Left out

- Snippet execution (`handleRunCode`, the code executor) and the Monaco editor markers: dynamic evaluation and an external editor, with no meaning in Dafny.
- Persistence: the backend fetch that loads the tree becomes the constructor's `loaded` parameter; `saveTreeToBackend` in `handleUpdateTree`, the debounced save in `handleEditorChange` and the API route are not modelled (network and file I/O).
- The layout kept in `localStorage`, including the width restored on load and `isSidebarOpen`, which only feeds that storage and the rendering: browser storage and presentation.
- React rendering, dnd-kit drag-and-drop wiring, MUI dialogs, toasts, the context menu and the `contextNode` reset after an explorer action: presentation state with no effect on the tree.
- `moveNode` has no caller in the component, so the session has no move handler; the move is modelled as the function it is.
- TreeOps.MoveNode: requires the source id to be present. With an absent id, `dragged` keeps its initial `null` (app/page.tsx:182); the non-null assertions `dragged!` at app/page.tsx:203 and 213 are type-level only, so the code appends `null` to the top level or to the target folder, which the `Node` datatype cannot represent.
- TreeOps.Remove: models the result values only. In the code, `node.children = …` (app/page.tsx:192) also overwrites the children of the caller's nodes in place, so the input tree is altered as well; that aliasing is not modelled.
- `Node` is a tagged union of files and folders. The TypeScript type lets any node carry optional `children` and `content`, but the application only builds files with text and folders with children; so every `if (node.children)` test is modelled as "is a folder".
- State-setter batching: each handler reads the state it started with and its updates take effect when it returns. The model runs handlers one at a time, which gives the same result for the handlers modelled here.
- Session.EditorSession.AddItem: requires that the fresh id is not already in the tree or the tabs, which stands for `uuid()` producing a new id; otherwise it states the code's effect, including the silent drop when the selected folder no longer exists.
- Session.EditorSession.TabChange: requires the clicked id to be an open tab, since the tab strip only shows open tabs.
- Session.EditorSession.MouseMove: pointer coordinates are integers rather than JavaScript numbers, so the fractional widths of a zoomed page are not modelled.
- Names are not required to be trimmed or non-empty; no tree operation depends on the name.

## Findings

| source | as written | input that shows it | evidently intended | confidence | as-written member | corrected member |
|---|---|---|---|---|---|---|
| components/fileIcons.ts:15 | `fileIcons[ext] \|\| fileIcons.default` also finds members every object inherits from `Object.prototype`, so a non-string is returned in place of an emoji and handed to the renderer (components/FileItem.tsx:101): a function such as `Object` for `constructor` or `toString`, and the `Object.prototype` object itself for `__proto__` | a file named `notes.constructor` (likewise `a.toString`, or `a.__proto__`) | only the table's own keys count, so such a file gets the default icon | not executed | FileIcons.GetFileIconAsWritten, FileIcons.AsWrittenPrototypeLeak | FileIcons.GetFileIcon |
