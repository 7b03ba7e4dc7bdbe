# Task-tree store of the todo list, in Dafny

This project models the `model` object of `js/todo.js`: the in-memory store of a
hierarchical to-do list. The store has:

- a root node with the reserved id `-1` (`TASK_LIST_ID`);
- under the root, tasks nested through their `tasks` maps, each keyed by the child's id;
- a counter `numberOfTasks` that issues ids.

Its operations are:

- lookup (`findTaskAndParent`);
- insertion (`addToTask` / `addTask`);
- toggling with completion propagation (`toggleTask`, which uses `toggleSubTasks` and `toggleParentTasks`);
- deletion (`deleteTask`);
- the read accessor `getAllTasks`.

Every mutating operation ends with `commit`.

The files follow the structure of the program:

- `tree.dfy` (module `Tree`): the task datatype. A node is reached by a path of child keys. The source assigns through a reference to a node; here that is `SetAt`, which replaces the node at a path.
- `invariants.dfy` (module `TreeInvariant`): what the store keeps true between operations:
  - each task sits under its own id and names its parent;
  - ids are unique;
  - every id is below the counter;
  - downward closure: a checked task has only checked children.
- `lookup.dfy` (module `Lookup`): the depth-first search, and `ViewAt`, which is what lookup shows of a task id.
- `propagation.dfy` (module `Propagation`): the downward cascade as a method, and the upward unwind as a specification. Together they give `ToggledView`, the view after a toggle. It also proves that downward closure survives a toggle.
- `edits.dfy` (module `Edits`): insertion and deletion on the tree, with the shape they leave, the invariant they keep, and what lookup shows afterwards.
- `model.dfy` (module `Store`): the class `TodoModel`, with the fields `listRoot` and `numberOfTasks`. It has a method for each of `commit`, `addTask`, `addToTask`, `toggleParentTasks`, `toggleTask` and `deleteTask`, and the function `GetAllTasks`. `findTaskAndParent` only reads the tree and is the function `Lookup.FindTaskAndParent`. `toggleSubTasks` assigns flags in place (js/todo.js:61). The model computes the cascaded subtree as a value in `Propagation.ToggleSubTasks`, and `ToggleTask` writes it back at the task's path. The contracts of `AddToTask`, `ToggleTask` and `DeleteTask` are stated through `ViewAt`, the id-level view. `AddTask` takes a path to the parent node and is stated as `AddChild` on the tree. `ToggleParentTasks` is stated on paths, through `Unwound`. A ghost copy of what `commit` last stored shows that storage equals the live state after every mutating operation.

Toggling the root is allowed by the code. For `toggleTask(-1)`, `findTaskAndParent` returns the root itself (js/todo.js:21-26). Line 85 turns the root's missing (`undefined`) flag into `true`, and line 88 cascades that flag to every task. The model lets the root be toggled like any task, so the root's flag is `false` only until the root itself is toggled.

## Model

| member | source | states |
|---|---|---|
| Tree.SetFlagAt | js/todo.js:85 | assigning `checked` on one node through its reference changes that node's flag and no other field, flag or path of the tree |
| Tree.SetAtPaths | js/todo.js:53 | replacing the node at a path changes only the nodes at and below that path; the nodes above it keep their fields and children keys, and nodes off the path are untouched |
| TreeInvariant.CheckedBelow | js/todo.js:57-64 | under downward closure a checked task has every descendant checked, at any depth |
| TreeInvariant.EmptyRootInvariant | js/todo.js:9-13 | the fresh store (root `-1` with no tasks, counter 0) satisfies the store invariant |
| TreeInvariant.WellFormedId | js/todo.js:46-53 | every task sits in its parent's `tasks` map under its own id, and that id is never `-1` |
| Lookup.Least | js/todo.js:36 | the key `for...in` visits first is the smallest key present |
| Lookup.FindTaskAndParent | js/todo.js:20-42 | looking up the root's id gives the root with no parent; any other successful lookup gives a task held under that id in its parent's `tasks` map, together with that parent |
| Lookup.FindBelow | js/todo.js:28-34 | a search below a node returns only a task held under the searched id in the map of the parent it returns |
| Lookup.FindAmong | js/todo.js:36-40 | the loop over the children returns only such a task, found below one of the children it visits |
| Lookup.FoundAt | js/todo.js:29-33 | the task returned by a successful lookup is the node at the returned path |
| Lookup.FindBelowComplete | js/todo.js:28-41 | the search finds every id held as a key in any node's `tasks` map |
| Lookup.FindFailsIffAbsent | js/todo.js:20-42 | for ids other than the root's, lookup returns the failure sentinel exactly when no node holds the id as a child key |
| Lookup.FindExact | js/todo.js:20-42 | with unique ids, lookup of a child key returns exactly that child, its parent and the path to it |
| Lookup.FindExactPath | js/todo.js:20-42 | lookup of the id at the end of a path returns the node at that path and its parent |
| Lookup.ViewAtFound | js/todo.js:20-42 | what lookup shows of a found task is the node at the path it returns |
| Lookup.FoundIdIssued | js/todo.js:46 | every task lookup finds, root aside, carries its id, and that id was issued by the counter (`0 <= id < numberOfTasks`) |
| Lookup.CheckedSubtree | js/todo.js:57-64 | in a store that keeps the invariant, every task in the subtree of a checked task is checked, as lookup shows them |
| Lookup.ParentFound | js/todo.js:71-73 | the id a found task names as its parent is found as well, at the parent of its path; that task holds it among its children, and it lies in that task's subtree |
| Lookup.IdsNotRoot | js/todo.js:2 | no task below the root carries the root's id `-1` |
| Propagation.ToggleSubTasks | js/todo.js:57-64 | the cascade keeps every node, path, id, text and child key, and the starting task's own flag; it gives every proper descendant the handed-down flag |
| Propagation.CascadeFlags | js/todo.js:88 | putting the cascaded subtree back at the toggled task's path gives every node at or below it that task's flag and changes nothing else |
| Propagation.ToggleSteps | js/todo.js:85-88 | flip, then upward walk, then cascade: the three phases together give each node exactly the flag `ToggledFlag` prescribes |
| Propagation.ToggleKeepsDownClosed | js/todo.js:82-90 | a toggle keeps downward closure: if every checked task had only checked children before, the same holds after |
| Propagation.ToggledFlagClosedAt | js/todo.js:82-90 | between any node and its parent, the prescribed toggled flags keep "checked parent implies checked child" |
| Propagation.ParentOnChain | js/todo.js:71-73 | a checked task with a checked parent has that parent on its checked chain, stated by id |
| Propagation.ChainExtends | js/todo.js:71-73 | a task on the checked chain above `k` whose own parent is checked puts that parent on the chain too, stated by id |
| Propagation.ToggledFlagsView | js/todo.js:82-90 | a tree carrying the prescribed toggled flags shows, through lookup, exactly `ToggledView`: the target and its subtree flipped, the unwound ancestors unchecked, all else unchanged |
| Propagation.UncheckClearsAncestors | js/todo.js:66-75 | unchecking a checked task leaves every one of its ancestors unchecked, the root included |
| Propagation.CheckedAncestorOnChain | js/todo.js:71-73 | in a store that keeps the invariant, every checked ancestor of a checked task lies on its checked chain, which is the chain the walk clears |
| Propagation.CheckLeavesOthers | js/todo.js:71 | checking an unchecked task changes no task outside its subtree: no ancestor is touched |
| Edits.AddShape | js/todo.js:53 | storing the new task adds exactly one path, to the new task; the parent gains exactly the new key and no other node changes |
| Edits.RemoveShape | js/todo.js:95 | deleting a key removes exactly the paths through it; the parent loses exactly that key and no remaining node changes |
| Edits.AddKeepsInvariant | js/todo.js:44-55 | the counter's current value is a fresh key, and adding the task with it keeps the store invariant, including downward closure, with the counter one higher |
| Edits.RemoveKeepsInvariant | js/todo.js:92-97 | deleting a subtree keeps the store invariant with the counter unchanged |
| Edits.AddView | js/todo.js:44-53 | no task had the counter's id before; afterwards lookup shows the new task with that id, the parent's id, the text, the parent's flag and no children; the parent gains that child; every other task is as it was |
| Edits.RemoveView | js/todo.js:92-97 | after deletion lookup finds neither the task nor any task below it; its parent has lost exactly that child; every other task is as it was |
| Store.TodoModel.constructor | js/todo.js:9-13 | with nothing stored the store starts from the empty root and the counter 0, and the invariant holds |
| Store.TodoModel.Commit | js/todo.js:15-18 | afterwards storage holds the live tree and counter |
| Store.TodoModel.GetAllTasks | js/todo.js:99-101 | returns the root's children: each entry is the top-level task with that id, names the root as parent, and is what lookup finds for that id |
| Store.TodoModel.AddTask | js/todo.js:44-55 | the counter goes up by one, the tree becomes the old tree with the new task stored under the old counter value in the parent's map, and the result is committed |
| Store.TodoModel.AddToTask | js/todo.js:77-80 | the new task takes the old counter value as id, names `taskId` as parent, holds the text, has no children and the parent's flag; the parent gains it; nothing else changes; the id was unused; the counter rises by exactly one |
| Store.TodoModel.ToggleParentTasks | js/todo.js:66-75 | the walk keeps every path and field, unchecks exactly the ancestors on the unbroken checked chain above the start task when that task is unchecked, and changes no other flag |
| Store.TodoModel.ToggleTask | js/todo.js:82-90 | lookup afterwards shows exactly `ToggledView`; the invariant holds, the counter is unchanged and the result is committed |
| Store.TodoModel.DeleteTask | js/todo.js:92-97 | lookup no longer finds the task or anything below it; its parent loses exactly that child; every other task and the counter are unchanged; the result is committed |

## Left out

- Loading from `localStorage` with `JSON.parse`, and writing with `JSON.stringify` (js/todo.js:9-18): this is browser storage and a library serializer. The model starts from an empty store. `commit` is a ghost copy of the live tree and counter.
- A failing `localStorage.setItem` is not modelled: no storage error exists in the model.
- The view, the controller and `printTask`: these are DOM, event and console code. The controller's `Number(...)` conversion is taken as given, so every id is an integer.
- Update in place and aliasing: a reference to a node is its path of child keys from the root, and an assignment through it rebuilds the tree along that path. The model cannot express two references to one object, and the source never creates them.
- Calls with an id lookup does not find, and `deleteTask(-1)`, are excluded by preconditions. In the source, reading `.task` or `.parentTask` of the `"failure"` string gives `undefined` without an error. The `TypeError` comes at the next dereference: `parentTask.id` at js/todo.js:47, `task.checked` at line 85, or `parentTask.tasks` at line 95 (where `deleteTask(-1)` meets the root's `null` parent). In `addToTask` the counter has already gone up at line 46 before line 47 throws. The model does not capture that lost id.
- The root has no `parentId`, `text` or `checked` in the source. The model gives it parentId `-1`, the empty text and `checked == false`, which is how the missing flag reads.
- `numberOfTasks` is a JavaScript number. The model's counter is unbounded, so precision loss above 2^53 is not modelled.
- Lookup.FindAmong: children are visited in ascending key order, as `for...in` does for integer keys. With unique ids the order does not affect the result. Rendering order is not modelled.
- Propagation.ToggleSubTasks: the flag handed down is a parameter, and the call site passes the toggled task's new flag. Each child's subtree is cascaded before the child's own flag is set, which reaches the same nodes with the same value as the source's order.
