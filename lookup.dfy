/** findTaskAndParent (js/todo.js:20-42): a depth-first search of the tree for a
    task and the task whose `tasks` map holds it. */
module Lookup {
  import opened Tree
  import opened TreeInvariant

  lemma HasElement(s: set<int>)
    requires s != {}
    ensures exists y :: y in s
  {
    if forall y :: y !in s {
      assert false;
    }
  }

  lemma {:induction false} LeastExists(s: set<int>)
    requires s != {}
    ensures exists m :: m in s && forall x :: x in s ==> m <= x
    decreases s
  {
    HasElement(s);
    var y :| y in s;
    var rest := s - {y};
    if rest == {} {
      forall x | x in s
        ensures y <= x
      {
        assert x !in rest;
      }
    } else {
      LeastExists(rest);
      var m :| m in rest && forall x :: x in rest ==> m <= x;
      var least := if y < m then y else m;
      forall x | x in s
        ensures least <= x
      {
        if x != y {
          assert x in rest;
        }
      }
      assert least in s;
    }
  }

  /** The smallest key: `for...in` visits integer keys in ascending order. */
  function Least(s: set<int>): (m: int)
    requires s != {}
    ensures m in s && forall x :: x in s ==> m <= x
  {
    LeastExists(s);
    var m :| m in s && forall x :: x in s ==> m <= x;
    m
  }

  /** The source's `{task, parentTask}` record, with the path that locates the
      task: the reference through which later assignments reach it. */
  datatype Found = Found(task: Task, parent: Option<Task>, path: seq<int>)

  /** `f` describes a task keyed `taskId` in the `tasks` map of the node at the
      parent path of `f.path`. */
  ghost predicate FoundBelow(t: Task, taskId: int, f: Found)
  {
    && |f.path| > 0
    && Last(f.path) == taskId
    && IsPath(t, Parent(f.path))
    && taskId in At(t, Parent(f.path)).tasks
    && f.parent == Some(At(t, Parent(f.path)))
    && f.task == At(t, Parent(f.path)).tasks[taskId]
  }

  /** findTaskAndParent called on `listRoot`: the root itself for its own id,
      with no parent; otherwise the search below the root. */
  function FindTaskAndParent(root: Task, taskId: int): (r: Option<Found>)
    ensures taskId == root.id ==> r == Some(Found(root, None, []))
    ensures taskId != root.id && r.Some? ==> FoundBelow(root, taskId, r.value)
  {
    if taskId == root.id then Some(Found(root, None, []))
    else FindBelow(root, taskId)
  }

  /** The search with `this` bound to `t`: a hit in `t.tasks` first, otherwise
      each child's subtree in turn. */
  function FindBelow(t: Task, taskId: int): (r: Option<Found>)
    ensures r.Some? ==> FoundBelow(t, taskId, r.value)
    decreases t, 1
  {
    if taskId in t.tasks then
      assert Parent([taskId]) == [];
      Some(Found(t.tasks[taskId], Some(t), [taskId]))
    else
      FindAmong(t, t.tasks.Keys, taskId)
  }

  /** The `for...in` loop over the children keyed by `keys`, smallest key first;
      the first subtree that holds `taskId` gives the result. */
  function FindAmong(t: Task, keys: set<int>, taskId: int): (r: Option<Found>)
    requires keys <= t.tasks.Keys
    ensures r.Some? ==> FoundBelow(t, taskId, r.value) && r.value.path[0] in keys
    decreases t, 0, keys
  {
    if keys == {} then None
    else
      var c := Least(keys);
      match FindBelow(t.tasks[c], taskId)
      case Some(f) =>
        var path := [c] + f.path;
        assert path[1..] == f.path;
        assert Parent(path) == [c] + Parent(f.path) && Parent(path)[1..] == Parent(f.path);
        Some(f.(path := path))
      case None => FindAmong(t, keys - {c}, taskId)
  }

  /** A successful search names a node that exists, at the path it returns. */
  lemma FoundAt(t: Task, taskId: int, f: Found)
    requires FoundBelow(t, taskId, f)
    ensures IsPath(t, f.path) && At(t, f.path) == f.task
  {
    assert Parent(f.path) + [taskId] == f.path;
    AtChild(t, Parent(f.path), taskId);
  }

  lemma {:induction false} FindAmongComplete(t: Task, keys: set<int>, c: int, taskId: int)
    requires keys <= t.tasks.Keys && c in keys && FindBelow(t.tasks[c], taskId).Some?
    ensures FindAmong(t, keys, taskId).Some?
    decreases keys
  {
    var m := Least(keys);
    if FindBelow(t.tasks[m], taskId).None? {
      FindAmongComplete(t, keys - {m}, c, taskId);
    }
  }

  /** The search finds every key held in some node's `tasks` map. */
  lemma {:induction false} FindBelowComplete(t: Task, p: seq<int>, taskId: int)
    requires IsPath(t, p) && taskId in At(t, p).tasks
    ensures FindBelow(t, taskId).Some?
    decreases |p|
  {
    if taskId !in t.tasks {
      FindBelowComplete(t.tasks[p[0]], p[1..], taskId);
      FindAmongComplete(t, t.tasks.Keys, p[0], taskId);
    }
  }

  /** For an id other than the root's, the search fails exactly when no node of
      the tree has a child keyed by that id. */
  lemma FindFailsIffAbsent(t: Task, taskId: int)
    requires taskId != t.id
    ensures FindTaskAndParent(t, taskId).None? <==> forall p :: IsPath(t, p) ==> taskId !in At(t, p).tasks
  {
    if exists p :: IsPath(t, p) && taskId in At(t, p).tasks {
      var p :| IsPath(t, p) && taskId in At(t, p).tasks;
      FindBelowComplete(t, p, taskId);
    }
  }

  /** With unique ids the search returns the one node holding `taskId`, its
      parent, and the path between them. */
  lemma FindExact(t: Task, p: seq<int>, taskId: int)
    requires UniqueIds(t) && IsPath(t, p) && taskId in At(t, p).tasks && taskId != t.id
    ensures FindTaskAndParent(t, taskId) == Some(Found(At(t, p).tasks[taskId], Some(At(t, p)), p + [taskId]))
  {
    FindBelowComplete(t, p, taskId);
    var f := FindTaskAndParent(t, taskId).value;
    FoundAt(t, taskId, f);
    AtChild(t, p, taskId);
    assert Last(p + [taskId]) == taskId;
    assert f.path == p + [taskId];
    assert Parent(f.path) == p;
  }

  /** The same, for a path that ends at the task. */
  lemma FindExactPath(t: Task, q: seq<int>)
    requires UniqueIds(t) && IsPath(t, q) && |q| > 0 && Last(q) != t.id
    ensures IsPath(t, Parent(q))
    ensures FindTaskAndParent(t, Last(q)) == Some(Found(At(t, q), Some(At(t, Parent(q))), q))
  {
    ParentIsPath(t, q);
    FindExact(t, Parent(q), Last(q));
    assert Parent(q) + [Last(q)] == q;
  }

  /** What lookup shows of the task with id `x`. */
  ghost function ViewAt(t: Task, x: int): (r: Option<NodeInfo>)
  {
    match FindTaskAndParent(t, x)
    case None => None
    case Some(f) => Some(Info(f.task))
  }

  /** Lookup of a task that it finds shows the node at the path it returns. */
  lemma ViewAtFound(t: Task, x: int)
    requires FindTaskAndParent(t, x).Some?
    ensures IsPath(t, FindTaskAndParent(t, x).value.path)
    ensures ViewAt(t, x) == Some(Info(At(t, FindTaskAndParent(t, x).value.path)))
  {
    if x != t.id {
      FoundAt(t, x, FindTaskAndParent(t, x).value);
    }
  }

  /** `x` is the task `k` or lies below it: the path lookup finds for `x`
      extends the one it finds for `k`. */
  ghost predicate InSubtree(t: Task, k: int, x: int)
  {
    && FindTaskAndParent(t, k).Some?
    && FindTaskAndParent(t, x).Some?
    && FindTaskAndParent(t, k).value.path <= FindTaskAndParent(t, x).value.path
  }

  /** Every task lookup finds, the root aside, carries an id the counter has
      already issued. */
  lemma FoundIdIssued(t: Task, count: int, x: int)
    requires ShapeInvariant(t, count) && x != ROOT_ID && ViewAt(t, x).Some?
    ensures 0 <= x < count && ViewAt(t, x).value.id == x
  {
    ViewAtFound(t, x);
    var q := FindTaskAndParent(t, x).value.path;
    ParentIsPath(t, q);
  }

  /** Downward closure as lookup shows it: every task in the subtree of a
      checked task is checked. */
  lemma CheckedSubtree(t: Task, count: int, x: int, y: int)
    requires StoreInvariant(t, count) && ViewAt(t, x).Some? && ViewAt(t, x).value.checked
    requires InSubtree(t, x, y)
    ensures ViewAt(t, y).Some? && ViewAt(t, y).value.checked
  {
    ViewAtFound(t, x);
    ViewAtFound(t, y);
    var px := FindTaskAndParent(t, x).value.path;
    var py := FindTaskAndParent(t, y).value.path;
    assert px + py[|px|..] == py;
    CheckedBelow(t, px, py[|px|..]);
  }

  /** The task a found task names as its parent (js/todo.js:47) is found too, at
      the parent of its path, and holds it among its children: the step the
      upward walk of js/todo.js:71-73 takes by id. */
  lemma ParentFound(t: Task, count: int, x: int)
    requires ShapeInvariant(t, count) && x != ROOT_ID && ViewAt(t, x).Some?
    ensures var q := FindTaskAndParent(t, x).value.path;
      var pid := ViewAt(t, x).value.parentId;
      && |q| > 0
      && FindTaskAndParent(t, pid).Some?
      && FindTaskAndParent(t, pid).value.path == Parent(q)
      && ViewAt(t, pid).Some? && x in ViewAt(t, pid).value.children
      && InSubtree(t, pid, x)
  {
    ViewAtFound(t, x);
    var q := FindTaskAndParent(t, x).value.path;
    ParentIsPath(t, q);
    var pq := Parent(q);
    var pid := At(t, q).parentId;
    assert pid == At(t, pq).id;
    assert pq + [x] == q;
    AtChild(t, pq, x);
    if |pq| > 0 {
      WellFormedId(t, count, pq);
      FindExactPath(t, pq);
    }
    ViewAtFound(t, pid);
  }

  /** Ids in a tree that keeps the invariant are never the root's. */
  lemma IdsNotRoot(t: Task, count: int, q: seq<int>)
    requires ShapeInvariant(t, count) && IsPath(t, q) && |q| > 0
    ensures Last(q) != t.id
  {
  }
}
