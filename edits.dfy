/** Insertion and deletion (js/todo.js:44-55, 77-80, 92-97): what they do to the
    tree, the invariant they keep and what lookup shows afterwards. */
module Edits {
  import opened Tree
  import opened TreeInvariant
  import opened Lookup

  /** The task addTask creates under `parent` with the id `k`: it names the
      parent, holds the text, starts with no children and inherits the
      parent's flag (js/todo.js:45-51). */
  function NewTask(parent: Task, k: int, text: string): (r: Task)
  {
    Task(k, parent.id, text, parent.checked, map[])
  }

  /** `t` after the new task is stored under its id in the `tasks` map of the
      node at `pp` (js/todo.js:53). */
  function AddChild(t: Task, pp: seq<int>, k: int, text: string): (r: Task)
    requires IsPath(t, pp)
  {
    var parent := At(t, pp);
    SetAt(t, pp, parent.(tasks := parent.tasks[k := NewTask(parent, k, text)]))
  }

  /** `t` after the key `k` is deleted from the `tasks` map of the node at `pp`
      (js/todo.js:95). */
  function RemoveChild(t: Task, pp: seq<int>, k: int): (r: Task)
    requires IsPath(t, pp)
  {
    var parent := At(t, pp);
    SetAt(t, pp, parent.(tasks := parent.tasks - {k}))
  }

  /** One level of AddChild: a node with one more child. */
  lemma AddedChildPaths(o: Task, k: int, leaf: Task, r: seq<int>)
    requires k !in o.tasks
    ensures IsPath(o.(tasks := o.tasks[k := leaf]), r) <==> IsPath(o, r) || (|r| > 0 && r[0] == k && IsPath(leaf, r[1..]))
    ensures IsPath(o, r) && |r| > 0 ==> At(o.(tasks := o.tasks[k := leaf]), r) == At(o, r)
    ensures r == [k] ==> IsPath(o.(tasks := o.tasks[k := leaf]), r) && At(o.(tasks := o.tasks[k := leaf]), r) == leaf
  {
    if r == [k] {
      assert r[1..] == [];
    }
  }

  /** One level of RemoveChild: a node with one child fewer. */
  lemma RemovedChildPaths(o: Task, k: int, r: seq<int>)
    ensures IsPath(o.(tasks := o.tasks - {k}), r) <==> IsPath(o, r) && !(|r| > 0 && r[0] == k)
    ensures IsPath(o.(tasks := o.tasks - {k}), r) && |r| > 0 ==> At(o.(tasks := o.tasks - {k}), r) == At(o, r)
  {
  }

  /** Adding a child under a fresh key gives the tree exactly one more path, to
      the new task, and changes no node but the parent, which gains that key. */
  lemma {:induction false} AddShape(t: Task, pp: seq<int>, k: int, text: string)
    requires IsPath(t, pp) && k !in At(t, pp).tasks
    ensures forall q :: IsPath(AddChild(t, pp, k, text), q) <==> IsPath(t, q) || q == pp + [k]
    ensures forall q :: IsPath(t, q) ==> (Info(At(AddChild(t, pp, k, text), q)) ==
      if q == pp then Info(At(t, q)).(children := At(t, q).tasks.Keys + {k}) else Info(At(t, q)))
    ensures At(AddChild(t, pp, k, text), pp + [k]) == NewTask(At(t, pp), k, text)
  {
    var o := At(t, pp);
    var leaf := NewTask(o, k, text);
    var o' := o.(tasks := o.tasks[k := leaf]);
    var t' := AddChild(t, pp, k, text);
    assert t' == SetAt(t, pp, o');
    forall q
      ensures IsPath(t', q) <==> IsPath(t, q) || q == pp + [k]
      ensures IsPath(t, q) ==> (Info(At(t', q)) ==
        if q == pp then Info(At(t, q)).(children := At(t, q).tasks.Keys + {k}) else Info(At(t, q)))
      ensures q == pp + [k] ==> IsPath(t', q) && At(t', q) == leaf
    {
      SetAtPaths(t, pp, o', q);
      if pp <= q {
        var r := q[|pp|..];
        assert pp + r == q;
        AtConcat(t, pp, r);
        AddedChildPaths(o, k, leaf, r);
        assert q == pp + [k] <==> r == [k];
        if |r| > 0 && r[0] == k && IsPath(leaf, r[1..]) {
          assert r[1..] == [];
          assert r == [k];
        }
      }
    }
  }

  /** Deleting the key `k` under `pp` removes exactly the paths through it and
      changes no remaining node but the parent, which loses that key. */
  lemma {:induction false} RemoveShape(t: Task, pp: seq<int>, k: int)
    requires IsPath(t, pp)
    ensures forall q :: IsPath(RemoveChild(t, pp, k), q) <==> IsPath(t, q) && !(pp + [k] <= q)
    ensures forall q :: IsPath(RemoveChild(t, pp, k), q) ==> (Info(At(RemoveChild(t, pp, k), q)) ==
      if q == pp then Info(At(t, q)).(children := At(t, q).tasks.Keys - {k}) else Info(At(t, q)))
  {
    var o := At(t, pp);
    var o' := o.(tasks := o.tasks - {k});
    var t' := RemoveChild(t, pp, k);
    assert t' == SetAt(t, pp, o');
    forall q
      ensures IsPath(t', q) <==> IsPath(t, q) && !(pp + [k] <= q)
      ensures IsPath(t', q) ==> (Info(At(t', q)) ==
        if q == pp then Info(At(t, q)).(children := At(t, q).tasks.Keys - {k}) else Info(At(t, q)))
    {
      SetAtPaths(t, pp, o', q);
      if pp <= q {
        var r := q[|pp|..];
        assert pp + r == q;
        AtConcat(t, pp, r);
        RemovedChildPaths(o, k, r);
        assert pp + [k] <= q <==> |r| > 0 && r[0] == k;
      } else {
        assert !(pp + [k] <= q);
      }
    }
  }

  /** addTask keeps the store invariant and advances the counter past the id it
      issues; the new task's flag is its parent's, so downward closure holds. */
  lemma AddKeepsInvariant(t: Task, count: int, pp: seq<int>, text: string)
    requires StoreInvariant(t, count) && IsPath(t, pp)
    ensures count !in At(t, pp).tasks
    ensures StoreInvariant(AddChild(t, pp, count, text), count + 1)
  {
    if count in At(t, pp).tasks {
      AtChild(t, pp, count);
      assert false;
    }
    var t' := AddChild(t, pp, count, text);
    var kq := pp + [count];
    AddShape(t, pp, count, text);
    assert Parent(kq) == pp && Last(kq) == count;
    assert t'.id == ROOT_ID by {
      assert IsPath(t, []);
    }
    forall q | |q| > 0 && IsPath(t', q) && IsPath(t', Parent(q))
      ensures At(t', q).id == Last(q) && At(t', q).parentId == At(t', Parent(q)).id
      ensures At(t', Parent(q)).checked ==> At(t', q).checked
    {
      if q != kq {
        PrefixIsPath(t, q, |q| - 1);
      }
    }
    forall p, q | |p| > 0 && |q| > 0 && IsPath(t', p) && IsPath(t', q) && Last(p) == Last(q)
      ensures p == q
    {
      if p == kq || q == kq {
        assert Last(p) == count;
      }
    }
  }

  /** deleteTask keeps the store invariant: what remains is a part of the tree,
      with every remaining node's fields as they were. */
  lemma RemoveKeepsInvariant(t: Task, count: int, pp: seq<int>, k: int)
    requires StoreInvariant(t, count) && IsPath(t, pp)
    ensures StoreInvariant(RemoveChild(t, pp, k), count)
  {
    var t' := RemoveChild(t, pp, k);
    RemoveShape(t, pp, k);
    assert t'.id == ROOT_ID by {
      assert IsPath(t', []);
    }
    forall q | |q| > 0 && IsPath(t', q) && IsPath(t', Parent(q))
      ensures At(t', q).id == Last(q) && At(t', q).parentId == At(t', Parent(q)).id
      ensures At(t', Parent(q)).checked ==> At(t', q).checked
    {
    }
  }

  /** What lookup shows after the task with the fresh id `count` is added under
      task `taskId`: the new task, named by its parent, holding the text and the
      parent's flag; the parent with one child more; everything else as it was.
      No task had that id before. */
  lemma AddView(t: Task, count: int, taskId: int, text: string)
    requires StoreInvariant(t, count) && FindTaskAndParent(t, taskId).Some?
    ensures IsPath(t, FindTaskAndParent(t, taskId).value.path)
    ensures ViewAt(t, count).None?
    ensures var t' := AddChild(t, FindTaskAndParent(t, taskId).value.path, count, text);
      && ViewAt(t', count) == Some(NodeInfo(count, taskId, text, ViewAt(t, taskId).value.checked, {}))
      && ViewAt(t', taskId) == Some(ViewAt(t, taskId).value.(children := ViewAt(t, taskId).value.children + {count}))
      && forall x :: x != taskId && x != count ==> ViewAt(t', x) == ViewAt(t, x)
  {
    var pp := FindTaskAndParent(t, taskId).value.path;
    ViewAtFound(t, taskId);
    AddKeepsInvariant(t, count, pp, text);
    var t' := AddChild(t, pp, count, text);
    AddShape(t, pp, count, text);
    var kq := pp + [count];
    assert At(t, pp).id == taskId by {
      if taskId != ROOT_ID {
        assert |pp| > 0 && Last(pp) == taskId;
      }
    }
    if FindTaskAndParent(t, count).Some? {
      ViewAtFound(t, count);
      assert false;
    }
    assert Last(kq) == count && Parent(kq) == pp;
    FindExactPath(t', kq);
    assert Info(At(t', kq)) == NodeInfo(count, taskId, text, At(t, pp).checked, {});
    forall x | x != count
      ensures ViewAt(t', x) == if x == taskId then Some(ViewAt(t, taskId).value.(children := ViewAt(t, taskId).value.children + {count})) else ViewAt(t, x)
    {
      AddViewOther(t, count, pp, text, x);
    }
  }

  lemma AddViewOther(t: Task, count: int, pp: seq<int>, text: string, x: int)
    requires StoreInvariant(t, count) && IsPath(t, pp) && x != count
    requires StoreInvariant(AddChild(t, pp, count, text), count + 1)
    requires forall q :: IsPath(AddChild(t, pp, count, text), q) <==> IsPath(t, q) || q == pp + [count]
    requires forall q :: IsPath(t, q) ==> (Info(At(AddChild(t, pp, count, text), q)) ==
      if q == pp then Info(At(t, q)).(children := At(t, q).tasks.Keys + {count}) else Info(At(t, q)))
    ensures var t' := AddChild(t, pp, count, text);
      ViewAt(t', x) == if At(t, pp).id == x
        then Some(Info(At(t, pp)).(children := At(t, pp).tasks.Keys + {count}))
        else ViewAt(t, x)
  {
    var t' := AddChild(t, pp, count, text);
    assert IsPath(t, []);
    if x == ROOT_ID {
      assert ViewAt(t', x) == Some(Info(t')) && ViewAt(t, x) == Some(Info(t));
      if pp != [] {
        IdsNotRoot(t, count, pp);
        WellFormedId(t, count, pp);
      }
    } else if FindTaskAndParent(t, x).Some? {
      var q := FindTaskAndParent(t, x).value.path;
      ViewAtFound(t, x);
      FindExactPath(t', q);
      WellFormedId(t, count, q);
      if pp != [] {
        WellFormedId(t, count, pp);
      }
    } else {
      if FindTaskAndParent(t', x).Some? {
        var q := FindTaskAndParent(t', x).value.path;
        ViewAtFound(t', x);
        assert q != pp + [count];
        FindExactPath(t, q);
        assert false;
      }
      if pp != [] {
        WellFormedId(t, count, pp);
        FindExactPath(t, pp);
      }
    }
  }

  /** What lookup shows after deleting task `k`: neither it nor any task below
      it is found; its parent has lost it; every other task is as it was. */
  lemma RemoveView(t: Task, count: int, k: int)
    requires StoreInvariant(t, count) && k != ROOT_ID && FindTaskAndParent(t, k).Some?
    ensures |FindTaskAndParent(t, k).value.path| > 0
    ensures var pk := FindTaskAndParent(t, k).value.path;
      var t' := RemoveChild(t, Parent(pk), k);
      var pid := ViewAt(t, k).value.parentId;
      && ViewAt(t, pid).Some?
      && ViewAt(t', pid) == Some(ViewAt(t, pid).value.(children := ViewAt(t, pid).value.children - {k}))
      && (forall x :: InSubtree(t, k, x) ==> ViewAt(t', x).None?)
      && (forall x :: x != pid && !InSubtree(t, k, x) ==> ViewAt(t', x) == ViewAt(t, x))
  {
    var pk := FindTaskAndParent(t, k).value.path;
    var pp := Parent(pk);
    ViewAtFound(t, k);
    ParentIsPath(t, pk);
    assert pp + [k] == pk;
    RemoveKeepsInvariant(t, count, pp, k);
    RemoveShape(t, pp, k);
    var t' := RemoveChild(t, pp, k);
    var pid := At(t, pp).id;
    assert ViewAt(t, k).value.parentId == pid;
    RemoveViewAt(t, count, pp, k, pid);
    forall x
      ensures InSubtree(t, k, x) ==> ViewAt(t', x).None?
      ensures x != pid && !InSubtree(t, k, x) ==> ViewAt(t', x) == ViewAt(t, x)
    {
      RemoveViewAt(t, count, pp, k, x);
    }
  }

  lemma RemoveViewAt(t: Task, count: int, pp: seq<int>, k: int, x: int)
    requires StoreInvariant(t, count) && IsPath(t, pp) && IsPath(t, pp + [k])
    requires FindTaskAndParent(t, k).Some? && FindTaskAndParent(t, k).value.path == pp + [k]
    requires StoreInvariant(RemoveChild(t, pp, k), count)
    requires forall q :: IsPath(RemoveChild(t, pp, k), q) <==> IsPath(t, q) && !(pp + [k] <= q)
    requires forall q :: IsPath(RemoveChild(t, pp, k), q) ==> (Info(At(RemoveChild(t, pp, k), q)) ==
      if q == pp then Info(At(t, q)).(children := At(t, q).tasks.Keys - {k}) else Info(At(t, q)))
    ensures InSubtree(t, k, x) ==> ViewAt(RemoveChild(t, pp, k), x).None?
    ensures x != At(t, pp).id && !InSubtree(t, k, x) ==> ViewAt(RemoveChild(t, pp, k), x) == ViewAt(t, x)
    ensures x == At(t, pp).id ==> ViewAt(t, x) == Some(Info(At(t, pp)))
    ensures x == At(t, pp).id ==> ViewAt(RemoveChild(t, pp, k), x) == Some(Info(At(t, pp)).(children := At(t, pp).tasks.Keys - {k}))
  {
    var t' := RemoveChild(t, pp, k);
    var pk := pp + [k];
    assert IsPath(t', []) && IsPath(t, []);
    assert !(pk <= []);
    if pp != [] {
      WellFormedId(t, count, pp);
    }
    if x == ROOT_ID {
      assert ViewAt(t', x) == Some(Info(t')) && ViewAt(t, x) == Some(Info(t));
      assert !InSubtree(t, k, x);
    } else if FindTaskAndParent(t, x).Some? {
      var q := FindTaskAndParent(t, x).value.path;
      ViewAtFound(t, x);
      WellFormedId(t, count, q);
      if pk <= q {
        assert InSubtree(t, k, x);
        if FindTaskAndParent(t', x).Some? {
          ViewAtFound(t', x);
          assert false;
        }
        if x == At(t, pp).id {
          FindExactPath(t, pp);
          assert false;
        }
      } else {
        assert !InSubtree(t, k, x);
        FindExactPath(t', q);
        if x == At(t, pp).id {
          FindExactPath(t, pp);
        }
      }
    } else {
      assert !InSubtree(t, k, x);
      if FindTaskAndParent(t', x).Some? {
        var q := FindTaskAndParent(t', x).value.path;
        ViewAtFound(t', x);
        FindExactPath(t, q);
        assert false;
      }
      if pp != [] {
        FindExactPath(t, pp);
      }
    }
  }
}
