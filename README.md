# File system simulator, modelled in Dafny

The simulator keeps an in-memory tree of named directory and file nodes. A
`FileSystem` object owns the root directory `/` and a stack of deleted
nodes. It offers five operations, three of them addressed by a path:

- `navigateTo` looks up a node;
- `create` adds a directory or a file under an existing parent;
- `deleteNode` detaches a subtree and pushes it on the undo stack;
- `display` prints the tree in pre-order;
- `undoDelete` pops the last deleted subtree and hangs it under the root,
  not under its old parent.

Paths are split on `/`, and empty segments are dropped.

The project is organised as follows:

- `paths.dfy` (module `Paths`) models `splitPath`. `Segments` is a
  character-by-character reference splitter. `SplitPath` is `splitPath`'s
  loop over `find` positions, proved equal to it.
- `tree.dfy` (module `Tree`) models `Node` as a value: a name, a kind, a
  content string and a map from child name to child. `Walk` follows a path
  one children-map lookup at a time. An in-place update of one node's
  children map becomes `ReplaceAt`, which rebuilds the tree along the path
  to that node.
- `operations.dfy` (module `Operations`) defines the effect of each
  operation on a snapshot (root, undo stack), plus the lemmas about those
  effects. The lemmas cover:
  - when an operation succeeds, which error it reports, and which paths
    exist afterwards;
  - undo order;
  - the invariant that the root is a directory named `/` and every node is
    named by its key.
- `display.dfy` (module `TreeDisplay`) models the recursive `display`. The
  children of a node are visited in the iteration order of the simulator's
  hash map, modelled as `Pick`: a fixed but unspecified choice among the
  remaining keys.
- `simulator.dfy` (module `Simulator`) is the class `FileSystem` with fields
  `root` and `undoStack`. Each method takes the simulator's steps and is
  proved to have exactly the effect defined in `Operations`.
- `demo.dfy` (module `Demo`) is the program's `main` scenario. It makes six
  creations, deletes `/documents/file1.txt` and undoes the deletion, with
  lookups stated as assertions.

Three behaviours of the code are easy to miss:

- `create` does not check that the parent is a directory, so a node can be
  created under a file.
- The undo holder is a real stack, so several undos in a row restore
  several deletions, last in first out (`UndoReverseOrder`).
- Restoring a node overwrites a root child of the same name
  (`UndoOutcome`).

## Model

| member | source | states |
|---|---|---|
| Paths.Segments | simulator.cpp:29-42 | every piece the splitter yields is non-empty and holds no `/` |
| Paths.Find | simulator.cpp:32 | `find('/', start)` yields the first separator position at or after `start`, or none when no separator follows |
| Paths.SplitPath | simulator.cpp:29-42 | the loop over `find` positions, skipping empty pieces and appending the tail, computes exactly the reference segments |
| Paths.SegmentsKeepText | simulator.cpp:29-42 | the segments, written one after the other, are the path with every `/` removed, so no character is lost and order is kept; each piece is a segment |
| Paths.SegmentsEmpty | simulator.cpp:29-42 | a path yields no segment exactly when it is empty or consists only of `/` |
| Paths.SplitJoin | simulator.cpp:29-42 | splitting `/s0/s1/...` gives back the segments `s0, s1, ...` |
| Paths.SegmentsAtSeparator | simulator.cpp:32-37 | a `/` splits the path: segments of `a/b` are those of `a` followed by those of `b`, so leading, trailing and repeated separators add nothing |
| Paths.RedundantSeparators | simulator.cpp:29-42 | `/a//b/` splits into `a`, `b` |
| Paths.RootPath | simulator.cpp:59 | the path `/` has no segments, so `navigateTo("/")` is the root |
| Paths.SplitStep | simulator.cpp:32-36 | one loop turn: the text from `start` up to the separator is one segment, or none when empty |
| Paths.SplitLast | simulator.cpp:38-40 | after the loop, the rest (if non-empty) is the last segment |
| Tree.Walk | simulator.cpp:44-56 | a walk that stops reports one of the path's segments |
| Tree.WalkSteps | simulator.cpp:47-53 | a walk reaches a node exactly when each segment is a child of the node reached so far; otherwise it stops at the first missing segment |
| Tree.ReplaceAt | simulator.cpp:78 | after updating the node at a path, the path leads to the new node; the nodes above keep their label and keys |
| Tree.WalkReplaceAt | simulator.cpp:78 | paths through the updated node lead into the new node, unrelated paths are unchanged, and ancestors keep their labels |
| Tree.WellNamedWalk | simulator.cpp:77-78 | in a tree where each child is named by its key, a reachable node is named by the last segment of its path |
| Operations.NavigateOutcome | simulator.cpp:44-56 | the empty path gives the root; lookup succeeds exactly when each segment is a child of the node reached so far, otherwise it fails with NotFound of the first missing segment |
| Operations.CreatePath | simulator.cpp:77-78 | inserting a fresh leaf adds exactly the path parent + name and keeps every existing node's label |
| Operations.CreateOutcome | simulator.cpp:58-80 | create succeeds exactly when the parent path resolves and the path is not taken; InvalidPathComponent names the missing parent segment, AlreadyExists the taken name; on failure nothing changes; on success the new empty node of the given kind is at the path, the reachable paths are the old ones plus this one, labels are kept, the undo stack is untouched |
| Operations.CreateTwice | simulator.cpp:72-75 | a second create of the same path always fails and changes nothing; after a successful first create it fails with AlreadyExists, whatever the kinds |
| Operations.DeletePath | simulator.cpp:101-102 | erasing a child removes exactly the paths through it and keeps the labels of the remaining nodes |
| Operations.DeleteOutcome | simulator.cpp:82-104 | delete succeeds exactly when the path names a node; the errors are InvalidPathComponent and NotFound; on failure nothing changes; on success the subtree is pushed unmodified on the stack, the path is no longer found, and exactly the paths through it disappear |
| Operations.DeleteVanishes | simulator.cpp:102 | after a delete, the path stops at its last segment |
| Operations.CreateThenDelete | simulator.cpp:58-104 | deleting what was just created restores the tree, leaving the fresh node on the stack |
| Operations.UndoOutcome | simulator.cpp:118-128 | undo fails with NothingToUndo, changing nothing, exactly when the stack is empty; otherwise it pops the top and makes it the root's child under its own name, overwriting a same-named child; the rest of the root is unchanged |
| Operations.UndoReverseOrder | simulator.cpp:118-123 | the k-th undo in a row restores the k-th node from the top of the stack; undo after the stack is used up fails |
| Operations.DeleteThenUndo | simulator.cpp:101-123 | delete then undo restores the subtree intact as `/name`; it gives back the same state for a root child; for a deeper path whose first segment differs from the name, the old path stays unreachable |
| Operations.UndoAfterDelete | simulator.cpp:101-123 | after delete then undo, the stack is back as it was and `/name` leads to the deleted subtree |
| Operations.UndoAfterDeleteAtRoot | simulator.cpp:101-123 | deleting a root child and undoing gives back the original state |
| Operations.UndoAfterDeleteDeep | simulator.cpp:101-123 | a node deleted below a root child is not found at its old path after the undo |
| Operations.CreateKeepsConsistent | simulator.cpp:77-78 | create keeps the root a directory named `/` and every node named by its key |
| Operations.DeleteKeepsConsistent | simulator.cpp:101-102 | delete keeps that invariant, for the tree and for the stacked subtrees |
| Operations.UndoKeepsConsistent | simulator.cpp:120-123 | undo keeps that invariant |
| Operations.RootKept | simulator.cpp:25-27 | no operation changes the root's name, kind or content |
| TreeDisplay.Pick | simulator.cpp:108 | the next child visited is one of the keys not yet visited |
| TreeDisplay.RenderLines | simulator.cpp:106-111 | the output has one line per visited node, in visit order: the indent plus two spaces per level, then `Dir: ` or `File: `, then the name |
| TreeDisplay.PreorderContains | simulator.cpp:106-111 | the traversal visits exactly the reachable nodes |
| TreeDisplay.PreorderShape | simulator.cpp:106-111 | the traversal starts at the node itself, lists each node once, puts ancestors before descendants, and lists each subtree contiguously |
| Simulator.FileSystem.constructor | simulator.cpp:25-27 | a new file system is the directory `/` with no children and an empty undo stack |
| Simulator.FileSystem.NavigateTo | simulator.cpp:44-56 | the loop returns the node at the path, or NotFound of the first missing segment |
| Simulator.FileSystem.Create | simulator.cpp:58-80 | the method's status and new state are exactly the create effect, and it keeps the invariant |
| Simulator.FileSystem.DeleteNode | simulator.cpp:82-104 | the method's status and new state are exactly the delete effect, and it keeps the invariant |
| Simulator.FileSystem.Display | simulator.cpp:114-116 | the first line is `Dir: /`; there is one line per node, in pre-order, indented by depth |
| Simulator.FileSystem.UndoDelete | simulator.cpp:118-128 | the method's status and new state are exactly the undo effect, and it keeps the invariant |
| Demo.Child | simulator.cpp:29-42 | appending `/name` to a path appends one segment |
| Demo.CreateChild | simulator.cpp:134-140 | a create under an existing parent, of a path not yet taken, succeeds and adds exactly that path |
| Demo.NavigateChecked | simulator.cpp:44-56 | a lookup finds exactly the paths that exist |
| Demo.DeleteChecked | simulator.cpp:145 | a delete of an existing path succeeds, removes the paths through it, and grows the stack by exactly the detached subtree, which is named by the path's last segment |
| Demo.File1Leaf | simulator.cpp:138 | in the scenario's tree, `/documents/file1.txt` is a node without children |
| Demo.UndoChecked | simulator.cpp:147 | the undo makes `/name` lead to the node that was on top of the stack, and leaves the other root children's paths as they were |
| Demo.MakeTree | simulator.cpp:131-140 | the six creations of the scenario all succeed, and the tree then holds exactly those paths |

## Left out

- Console output: every message becomes a `Status` / `FsError` value. The
  message texts are not modelled.
- Memory: `new` allocations, the nodes never freed, and pointer identity
  are not modelled. Nodes are values; a subtree on the undo stack and the
  one restored are equal values, not the same object.
- Hash-map iteration order: `Pick` is a fixed but unspecified choice, so
  `Display` and the traversal are ghost (not executable). `Pick` depends
  only on the set of keys not yet visited, so two nodes with the same child
  names visit them in the same order, which `unordered_map` does not
  promise. No proof relies on this: each uses only that the picked key is
  one of the remaining ones, so what is proved holds for any order.
- Simulator.FileSystem.Create: requires a path with at least one segment.
  For `""` or `"/"` `create` calls `back()` on an empty vector, which is
  undefined behaviour, so that case is a precondition rather than an error
  result.
- Simulator.FileSystem.DeleteNode: requires a path with at least one
  segment, for the same reason as `create`.
- The `content` field is never written by the simulator; it stays the empty
  string.
- The header lines that `main` prints and its two `display()` calls are not
  modelled. `Demo.DemoScript` replays the scenario and states which paths
  the displays would list, and that the restored `/file1.txt` has no
  children; it does not state the kind shown on each line.
- Integer widths: `size_t` positions in `splitPath` never exceed the string
  length, so no wrap-around can occur and positions are unbounded naturals.
