/** The `model` object of js/todo.js:8-113: the live tree `listRoot`, the id
    counter `numberOfTasks`, and the operations the controller calls. Each
    assignment the source makes through a reference into the tree is an update
    of `listRoot` at the path lookup returned for that reference. */
module Store {
  import opened Tree
  import opened TreeInvariant
  import opened Lookup
  import opened Propagation
  import opened Edits

  class TodoModel {
    var listRoot: Task
    var numberOfTasks: int
    /** What the last commit wrote to storage under "todos" and "numberOfTasks". */
    ghost var storedRoot: Task
    ghost var storedCount: int

    ghost predicate Valid()
      reads this
    {
      StoreInvariant(listRoot, numberOfTasks)
    }

    /** Storage holds the live state. */
    ghost predicate Committed()
      reads this
    {
      storedRoot == listRoot && storedCount == numberOfTasks
    }

    /** A start with nothing stored: the empty root and the counter at 0
        (js/todo.js:9-13). */
    constructor ()
      ensures Valid() && Committed()
      ensures listRoot == EmptyRoot() && numberOfTasks == 0
    {
      listRoot := EmptyRoot();
      numberOfTasks := 0;
      storedRoot := EmptyRoot();
      storedCount := 0;
      EmptyRootInvariant();
    }

    /** commit (js/todo.js:15-18): storage receives the live state. */
    method Commit()
      modifies this`storedRoot, this`storedCount
      ensures Committed()
    {
      storedRoot := listRoot;
      storedCount := numberOfTasks;
    }

    /** getAllTasks (js/todo.js:99-101): the root's `tasks` map, each entry the
        top-level task that lookup finds under its id. */
    function GetAllTasks(): (tasks: map<int, Task>)
      reads this
      requires Valid()
      ensures forall k :: k in tasks ==> tasks[k].id == k && tasks[k].parentId == ROOT_ID
      ensures forall k :: k in tasks ==> FindTaskAndParent(listRoot, k) == Some(Found(tasks[k], Some(listRoot), [k]))
      ensures tasks.Keys == ViewAt(listRoot, ROOT_ID).value.children
    {
      TopLevelTasks(listRoot, numberOfTasks);
      listRoot.tasks
    }

    /** addTask (js/todo.js:44-55) with the parent reached through `parentPath`:
        the counter issues the new id and the task is stored in the parent's map. */
    method AddTask(parentPath: seq<int>, inputText: string)
      requires Valid() && IsPath(listRoot, parentPath)
      modifies this
      ensures Valid() && Committed()
      ensures numberOfTasks == old(numberOfTasks) + 1
      ensures listRoot == AddChild(old(listRoot), parentPath, old(numberOfTasks), inputText)
    {
      var parentTask := At(listRoot, parentPath);
      var task := Task(numberOfTasks, parentTask.id, inputText, if parentTask.checked then true else false, map[]);
      numberOfTasks := numberOfTasks + 1;
      listRoot := SetAt(listRoot, parentPath, parentTask.(tasks := parentTask.tasks[task.id := task]));
      AddKeepsInvariant(old(listRoot), old(numberOfTasks), parentPath, inputText);
      Commit();
    }

    /** addToTask (js/todo.js:77-80): a new task under the task `taskId`. It
        takes the counter's value as id, names `taskId` as its parent, holds the
        text, has no children and the parent's flag; the parent gains it as a
        child; no other task changes and no task had that id before. */
    method AddToTask(taskId: int, inputText: string)
      requires Valid() && FindTaskAndParent(listRoot, taskId).Some?
      modifies this
      ensures Valid() && Committed()
      ensures numberOfTasks == old(numberOfTasks) + 1
      ensures ViewAt(old(listRoot), old(numberOfTasks)).None?
      ensures ViewAt(listRoot, old(numberOfTasks)) ==
        Some(NodeInfo(old(numberOfTasks), taskId, inputText, ViewAt(old(listRoot), taskId).value.checked, {}))
      ensures ViewAt(listRoot, taskId) ==
        Some(ViewAt(old(listRoot), taskId).value.(children := ViewAt(old(listRoot), taskId).value.children + {old(numberOfTasks)}))
      ensures forall x :: x != taskId && x != old(numberOfTasks) ==> ViewAt(listRoot, x) == ViewAt(old(listRoot), x)
    {
      var findResult := FindTaskAndParent(listRoot, taskId);
      AddView(listRoot, numberOfTasks, taskId, inputText);
      AddTask(findResult.value.path, inputText);
    }

    /** toggleParentTasks (js/todo.js:66-75) called on the task `taskId`: while
        the task just reached is unchecked and its parent checked, the parent is
        unchecked and the walk moves up to it. */
    method ToggleParentTasks(taskId: int)
      requires ShapeInvariant(listRoot, numberOfTasks) && FindTaskAndParent(listRoot, taskId).Some?
      modifies this`listRoot
      ensures ShapeInvariant(listRoot, numberOfTasks) && SamePaths(old(listRoot), listRoot)
      ensures forall q :: IsPath(old(listRoot), q) ==> (At(listRoot, q).checked ==
        if Unwound(old(listRoot), old(FindTaskAndParent(listRoot, taskId)).value.path, q) then false
        else At(old(listRoot), q).checked)
    {
      ghost var t0 := listRoot;
      ghost var pk := FindTaskAndParent(listRoot, taskId).value.path;
      var findResult := FindTaskAndParent(listRoot, taskId);
      WalkStart(listRoot, numberOfTasks, taskId);
      while findResult.value.parent.Some? && findResult.value.parent.value.checked && !findResult.value.task.checked
        invariant Walk(t0, listRoot, numberOfTasks, pk, findResult)
        decreases |findResult.value.path|
      {
        var parentTask := findResult.value.parent.value;
        WalkStep(t0, listRoot, numberOfTasks, pk, findResult);
        listRoot := SetAt(listRoot, Parent(findResult.value.path), parentTask.(checked := false));
        findResult := FindTaskAndParent(listRoot, parentTask.id);
      }
      WalkEnd(t0, listRoot, numberOfTasks, pk, findResult);
    }

    /** toggleTask (js/todo.js:82-90): the task `taskId` is flipped, the upward
        walk runs from it and its new flag is cascaded to its subtree. Lookup then
        shows exactly ToggledView: the task and every task below it carry the
        flipped flag; when that flag is off, every ancestor on the unbroken checked
        chain above it is unchecked; every other task is as it was. */
    method ToggleTask(taskId: int)
      requires Valid() && FindTaskAndParent(listRoot, taskId).Some?
      modifies this
      ensures Valid() && Committed() && numberOfTasks == old(numberOfTasks)
      ensures forall x :: ViewAt(listRoot, x) == ToggledView(old(listRoot), taskId, x)
    {
      ghost var t0 := listRoot;
      var findResult := FindTaskAndParent(listRoot, taskId);
      var path := findResult.value.path;
      var task := findResult.value.task;
      FoundNode(listRoot, numberOfTasks, taskId);
      ViewAtFound(listRoot, taskId);
      SetFlagAt(listRoot, path, !task.checked);
      listRoot := SetAt(listRoot, path, task.(checked := if task.checked then false else true));
      ghost var t1 := listRoot;
      SamePathsInvariant(t0, t1, numberOfTasks);
      FindSamePaths(t0, t1, numberOfTasks, taskId);
      ToggleParentTasks(taskId);
      ghost var t2 := listRoot;
      var current := At(listRoot, path);
      var sub := ToggleSubTasks(current, current.checked);
      CascadeFlags(listRoot, path, sub);
      listRoot := SetAt(listRoot, path, sub);
      ToggleSteps(t0, t1, t2, listRoot, path);
      SamePathsInvariant(t0, listRoot, numberOfTasks);
      ToggleKeepsDownClosed(t0, listRoot, path);
      ToggledFlagsView(t0, listRoot, numberOfTasks, taskId, path);
      Commit();
    }

    /** deleteTask (js/todo.js:92-97): the key `taskId` leaves its parent's
        `tasks` map. Lookup then finds neither the task nor anything below it,
        the parent has lost that child, and every other task and the counter are
        as they were. */
    method DeleteTask(taskId: int)
      requires Valid() && taskId != ROOT_ID && FindTaskAndParent(listRoot, taskId).Some?
      modifies this
      ensures Valid() && Committed() && numberOfTasks == old(numberOfTasks)
      ensures var pid := ViewAt(old(listRoot), taskId).value.parentId;
        && ViewAt(old(listRoot), pid).Some?
        && ViewAt(listRoot, pid) == Some(ViewAt(old(listRoot), pid).value.(children := ViewAt(old(listRoot), pid).value.children - {taskId}))
        && (forall x :: x != pid && !InSubtree(old(listRoot), taskId, x) ==> ViewAt(listRoot, x) == ViewAt(old(listRoot), x))
      ensures forall x :: InSubtree(old(listRoot), taskId, x) ==> ViewAt(listRoot, x).None?
    {
      var findResult := FindTaskAndParent(listRoot, taskId);
      var parentTask := findResult.value.parent.value;
      var parentPath := Parent(findResult.value.path);
      RemoveView(listRoot, numberOfTasks, taskId);
      RemoveKeepsInvariant(listRoot, numberOfTasks, parentPath, taskId);
      listRoot := SetAt(listRoot, parentPath, parentTask.(tasks := parentTask.tasks - {taskId}));
      Commit();
    }
  }

  /** The node lookup returns sits at the path it returns, and its parent, when
      it has one, at the parent path. */
  lemma FoundNode(t: Task, count: int, x: int)
    requires ShapeInvariant(t, count) && FindTaskAndParent(t, x).Some?
    ensures var f := FindTaskAndParent(t, x).value;
      && IsPath(t, f.path) && f.task == At(t, f.path)
      && f.parent == (if f.path == [] then None else Some(At(t, Parent(f.path))))
  {
    var f := FindTaskAndParent(t, x).value;
    if x != t.id {
      FoundAt(t, x, f);
    }
  }

  /** Lookup finds a task at the same path in a tree with the same paths. */
  lemma FindSamePaths(t: Task, t': Task, count: int, x: int)
    requires ShapeInvariant(t, count) && ShapeInvariant(t', count) && SamePaths(t, t')
    requires FindTaskAndParent(t, x).Some?
    ensures FindTaskAndParent(t', x).Some?
    ensures FindTaskAndParent(t', x).value.path == FindTaskAndParent(t, x).value.path
  {
    var q := FindTaskAndParent(t, x).value.path;
    if x != ROOT_ID {
      FoundAt(t, x, FindTaskAndParent(t, x).value);
      FindExactPath(t', q);
    }
  }

  /** The root's children are found under their ids, directly below the root. */
  lemma TopLevelTasks(t: Task, count: int)
    requires StoreInvariant(t, count)
    ensures forall k :: k in t.tasks ==> t.tasks[k].id == k && t.tasks[k].parentId == ROOT_ID
    ensures forall k :: k in t.tasks ==> FindTaskAndParent(t, k) == Some(Found(t.tasks[k], Some(t), [k]))
  {
    forall k | k in t.tasks
      ensures t.tasks[k].id == k && t.tasks[k].parentId == ROOT_ID
      ensures FindTaskAndParent(t, k) == Some(Found(t.tasks[k], Some(t), [k]))
    {
      assert IsPath(t, []) && At(t, []) == t;
      AtChild(t, [], k);
      assert [] + [k] == [k];
      WellFormedId(t, count, [k]);
      FindExact(t, [], k);
      assert Parent([k]) == [];
    }
  }

  /** The state of the upward walk from the node at `pk` in `t0`: `t` is the
      tree so far and `f` the lookup result for the task just reached, at `cp`.
      Every node from `cp` down to, but not including, `pk` was checked and is
      now unchecked, and `pk` itself is unchecked. */
  ghost predicate Walk(t0: Task, t: Task, count: int, pk: seq<int>, f: Option<Found>)
  {
    && ShapeInvariant(t, count) && SamePaths(t0, t)
    && f.Some? && f.value.path <= pk && IsPath(t, f.value.path)
    && f.value.task == At(t, f.value.path)
    && (f.value.path == [] ==> f.value.parent.None?)
    && (f.value.path != [] ==> IsPath(t, Parent(f.value.path)) && f.value.parent == Some(At(t, Parent(f.value.path))))
    && (f.value.path < pk ==> IsPath(t0, pk) && !At(t0, pk).checked && CheckedChain(t0, pk, f.value.path))
    && forall q :: IsPath(t0, q) ==> (At(t, q).checked == if f.value.path <= q < pk then false else At(t0, q).checked)
  }

  lemma WalkStart(t: Task, count: int, k: int)
    requires ShapeInvariant(t, count) && FindTaskAndParent(t, k).Some?
    ensures Walk(t, t, count, FindTaskAndParent(t, k).value.path, FindTaskAndParent(t, k))
  {
    FoundNode(t, count, k);
    var f := FindTaskAndParent(t, k).value;
    if f.path != [] {
      ParentIsPath(t, f.path);
    }
  }

  /** One step of the walk: the parent is unchecked and looked up by its id. */
  lemma WalkStep(t0: Task, t: Task, count: int, pk: seq<int>, f: Option<Found>)
    requires Walk(t0, t, count, pk, f)
    requires f.value.parent.Some? && f.value.parent.value.checked && !f.value.task.checked
    ensures |f.value.path| > 0 && IsPath(t, Parent(f.value.path))
    ensures var t' := SetAt(t, Parent(f.value.path), f.value.parent.value.(checked := false));
      var f' := FindTaskAndParent(t', f.value.parent.value.id);
      Walk(t0, t', count, pk, f') && f'.Some? && f'.value.path == Parent(f.value.path)
  {
    var cp := f.value.path;
    var pc := Parent(cp);
    var t' := SetAt(t, pc, f.value.parent.value.(checked := false));
    SetFlagAt(t, pc, false);
    SamePathsTrans(t0, t, t');
    SamePathsInvariant(t, t', count);
    UnwindChain(t0, t, pk, cp);
    UnwindFlags(t0, t, t', pk, cp);
    UnwindFind(t, t', count, cp);
  }

  /** One step of the upward walk, started at `pk` and now at `cp`, extends the
      checked chain it has unwound to the parent of `cp`. */
  lemma UnwindChain(t0: Task, t: Task, pk: seq<int>, cp: seq<int>)
    requires SamePaths(t0, t) && cp <= pk && |cp| > 0 && IsPath(t, cp)
    requires IsPath(t, Parent(cp)) && At(t, Parent(cp)).checked && !At(t, cp).checked
    requires cp < pk ==> IsPath(t0, pk) && !At(t0, pk).checked && CheckedChain(t0, pk, cp)
    requires forall q :: IsPath(t0, q) ==> (At(t, q).checked == if cp <= q < pk then false else At(t0, q).checked)
    ensures IsPath(t0, pk) && !At(t0, pk).checked && CheckedChain(t0, pk, Parent(cp))
  {
    var pc := Parent(cp);
    assert pc == pk[..|pc|] && pc < pk;
    assert IsPath(t0, cp) && IsPath(t0, pc);
    if cp == pk {
      assert At(t, cp).checked == At(t0, cp).checked;
    } else {
      assert cp < pk;
    }
    assert !(cp <= pc);
    assert FlagAt(t0, pc);
  }

  /** The step's flags: the parent of `cp` joins the unchecked stretch. */
  lemma UnwindFlags(t0: Task, t: Task, t': Task, pk: seq<int>, cp: seq<int>)
    requires SamePaths(t0, t) && SamePaths(t, t') && cp <= pk && |cp| > 0
    requires forall q :: IsPath(t0, q) ==> (At(t, q).checked == if cp <= q < pk then false else At(t0, q).checked)
    requires forall q :: IsPath(t, q) ==> (At(t', q).checked == if q == Parent(cp) then false else At(t, q).checked)
    ensures forall q :: IsPath(t0, q) ==> (At(t', q).checked == if Parent(cp) <= q < pk then false else At(t0, q).checked)
  {
    var pc := Parent(cp);
    forall q | IsPath(t0, q)
      ensures At(t', q).checked == if pc <= q < pk then false else At(t0, q).checked
    {
      if pc <= q < pk && q != pc {
        assert |q| >= |cp|;
        assert q[..|cp|] == pk[..|cp|] == cp;
        assert cp <= q;
      }
    }
  }

  /** The step's lookup: the walk moves to the parent of `cp`, found at its own
      path with its own parent. */
  lemma UnwindFind(t: Task, t': Task, count: int, cp: seq<int>)
    requires ShapeInvariant(t', count) && SamePaths(t, t') && |cp| > 0 && IsPath(t, Parent(cp))
    ensures var f := FindTaskAndParent(t', At(t, Parent(cp)).id);
      && f.Some? && f.value.path == Parent(cp) && IsPath(t', Parent(cp))
      && f.value.task == At(t', Parent(cp))
      && (Parent(cp) == [] ==> f.value.parent.None?)
      && (Parent(cp) != [] ==> IsPath(t', Parent(Parent(cp))) && f.value.parent == Some(At(t', Parent(Parent(cp)))))
  {
    var pc := Parent(cp);
    assert IsPath(t, []) && SameFields(At(t, []), At(t', []));
    assert SameFields(At(t, pc), At(t', pc));
    if pc != [] {
      WellFormedId(t', count, pc);
      FindExactPath(t', pc);
      ParentIsPath(t', pc);
    }
  }

  /** When the walk stops, the nodes it unchecked are exactly those Unwound names. */
  lemma WalkEnd(t0: Task, t: Task, count: int, pk: seq<int>, f: Option<Found>)
    requires Walk(t0, t, count, pk, f)
    requires !(f.value.parent.Some? && f.value.parent.value.checked && !f.value.task.checked)
    ensures ShapeInvariant(t, count) && SamePaths(t0, t)
    ensures forall q :: IsPath(t0, q) ==> (At(t, q).checked == if Unwound(t0, pk, q) then false else At(t0, q).checked)
  {
    var cp := f.value.path;
    assert IsPath(t0, pk) by {
      if cp == pk {
        assert IsPath(t0, cp);
      }
    }
    UnwindExit(t0, t, pk, cp);
  }

  /** When the walk stops at `cp`, the nodes it unchecked are exactly those
      Unwound names. */
  lemma UnwindExit(t0: Task, t: Task, pk: seq<int>, cp: seq<int>)
    requires SamePaths(t0, t) && cp <= pk && IsPath(t, cp) && IsPath(t0, pk)
    requires cp < pk ==> !At(t0, pk).checked && CheckedChain(t0, pk, cp)
    requires forall q :: IsPath(t0, q) ==> (At(t, q).checked == if cp <= q < pk then false else At(t0, q).checked)
    requires |cp| > 0 && IsPath(t, Parent(cp)) && At(t, Parent(cp)).checked ==> At(t, cp).checked
    ensures forall q :: IsPath(t0, q) ==> (At(t, q).checked == if Unwound(t0, pk, q) then false else At(t0, q).checked)
  {
    forall q | IsPath(t0, q)
      ensures At(t, q).checked == if Unwound(t0, pk, q) then false else At(t0, q).checked
    {
      if Unwound(t0, pk, q) && |cp| > 0 {
        var pc := Parent(cp);
        ParentIsPath(t, cp);
        assert IsPath(t0, cp) && pc == pk[..|pc|];
        assert cp < pk || cp == pk;
        assert !At(t0, pk).checked;
        assert !At(t, cp).checked;
        assert !(cp <= pc);
        assert !FlagAt(t0, pk[..|pc|]);
        assert |q| > |pc|;
        assert q[..|cp|] == pk[..|cp|] == cp;
      }
    }
  }
}
