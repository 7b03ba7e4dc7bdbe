/** Completion propagation of toggleTask (js/todo.js:57-90): the downward cascade
    of toggleSubTasks and the upward unwind of toggleParentTasks, with what the
    whole toggle does to the tree. */
module Propagation {
  import opened Tree
  import opened TreeInvariant
  import opened Lookup

  /** toggleSubTasks (js/todo.js:57-64) with `this` bound to `t`; `checked` is
      `this.checked`, the flag that the toggled task hands down. Each child
      receives it and passes it on to its own children; the child's subtree is
      cascaded first and its flag set afterwards, which touches the same nodes. */
  method ToggleSubTasks(t: Task, checked: bool) returns (r: Task)
    ensures SamePaths(t, r) && r.checked == t.checked
    ensures forall q :: |q| > 0 && IsPath(r, q) ==> At(r, q).checked == checked
    decreases t
  {
    var keys := t.tasks.Keys;
    var tasks := t.tasks;
    while keys != {}
      invariant keys <= t.tasks.Keys && tasks.Keys == t.tasks.Keys
      invariant forall c :: c in keys ==> tasks[c] == t.tasks[c]
      invariant forall c :: c in t.tasks && c !in keys ==> SamePaths(t.tasks[c], tasks[c])
      invariant forall c, q :: c in t.tasks && c !in keys && IsPath(tasks[c], q) ==> At(tasks[c], q).checked == checked
      decreases keys
    {
      var c := Least(keys);
      var task := ToggleSubTasks(t.tasks[c], checked);
      WithFlagSamePaths(task, checked);
      SamePathsTrans(t.tasks[c], task, task.(checked := checked));
      task := task.(checked := checked);
      tasks := tasks[c := task];
      keys := keys - {c};
    }
    r := t.(tasks := tasks);
    SamePathsFromChildren(t, r);
    forall q | |q| > 0 && IsPath(r, q)
      ensures At(r, q).checked == checked
    {
      var c := q[0];
      assert c in t.tasks && IsPath(tasks[c], q[1..]);
      assert At(r, q) == At(tasks[c], q[1..]);
    }
  }

  lemma SamePathsTrans(a: Task, b: Task, c: Task)
    requires SamePaths(a, b) && SamePaths(b, c)
    ensures SamePaths(a, c)
  {
  }

  /** `q` is a prefix of `p` and every node from `q` down to, but not including,
      the node at `p` is checked. */
  ghost predicate CheckedChain(t: Task, p: seq<int>, q: seq<int>)
  {
    q <= p && forall i :: |q| <= i < |p| ==> FlagAt(t, p[..i])
  }

  /** The nodes the upward walk of toggleParentTasks unchecks, started at the
      node at `p` (js/todo.js:66-75): when that node is unchecked, each proper
      ancestor from which every node down to, but not including, `p` is checked. */
  ghost predicate Unwound(t: Task, p: seq<int>, q: seq<int>)
  {
    q < p && IsPath(t, p) && !At(t, p).checked && CheckedChain(t, p, q)
  }

  /** The flag that toggling the node at `p` leaves on the node at `q`: the
      toggled node and everything below it take the toggled node's new flag; when
      that flag is `false`, each proper ancestor from which an unbroken chain of
      checked nodes leads down to `p` is unchecked; every other node keeps its own. */
  ghost function ToggledFlag(t: Task, p: seq<int>, q: seq<int>): (r: bool)
    requires IsPath(t, p) && IsPath(t, q)
  {
    if p <= q then !At(t, p).checked
    else if q < p && At(t, p).checked && CheckedChain(t, p, q) then false
    else At(t, q).checked
  }

  /** The toggled flags keep downward closure between a node and its parent. */
  lemma ToggledFlagClosedAt(t: Task, p: seq<int>, q: seq<int>)
    requires IsPath(t, p) && IsPath(t, q) && |q| > 0 && DownClosed(t)
    ensures IsPath(t, Parent(q))
    ensures ToggledFlag(t, p, Parent(q)) ==> ToggledFlag(t, p, q)
  {
    var r := Parent(q);
    ParentIsPath(t, q);
    assert At(t, r).checked ==> At(t, q).checked;
    assert r < q;
    if p <= q {
      if !(p <= r) {
        assert p == q && r == p[..|r|];
        if At(t, p).checked && At(t, r).checked {
          assert CheckedChain(t, p, r);
        }
      }
    } else {
      assert !(p <= r);
      if q < p && At(t, p).checked && CheckedChain(t, p, q) {
        assert r < p && r == p[..|r|];
        if At(t, r).checked {
          assert CheckedChain(t, p, r);
        }
      }
    }
  }

  /** Toggling keeps downward closure: the cascade makes the subtree uniform and
      the unwind unchecks exactly the ancestors that closure would otherwise
      contradict. */
  lemma ToggleKeepsDownClosed(t: Task, t': Task, p: seq<int>)
    requires IsPath(t, p) && SamePaths(t, t') && DownClosed(t)
    requires forall q :: IsPath(t, q) ==> At(t', q).checked == ToggledFlag(t, p, q)
    ensures DownClosed(t')
  {
    forall q | |q| > 0 && IsPath(t', q) && IsPath(t', Parent(q)) && At(t', Parent(q)).checked
      ensures At(t', q).checked
    {
      ToggledFlagClosedAt(t, p, q);
    }
  }

  /** `x` is a proper ancestor of the checked task `k`, and every task from `x`
      down to `k` is checked. */
  ghost predicate OnCheckedChainAbove(t: Task, k: int, x: int)
  {
    && FindTaskAndParent(t, k).Some?
    && FindTaskAndParent(t, x).Some?
    && FindTaskAndParent(t, x).value.path < FindTaskAndParent(t, k).value.path
    && FlagAt(t, FindTaskAndParent(t, k).value.path)
    && CheckedChain(t, FindTaskAndParent(t, k).value.path, FindTaskAndParent(t, x).value.path)
  }

  /** The chain starts at a checked task whose parent is checked: the first step
      of the walk at js/todo.js:71-73, stated by id. */
  lemma ParentOnChain(t: Task, count: int, k: int)
    requires ShapeInvariant(t, count) && k != ROOT_ID
    requires ViewAt(t, k).Some? && ViewAt(t, k).value.checked
    requires ViewAt(t, ViewAt(t, k).value.parentId).Some? && ViewAt(t, ViewAt(t, k).value.parentId).value.checked
    ensures OnCheckedChainAbove(t, k, ViewAt(t, k).value.parentId)
  {
    var pid := ViewAt(t, k).value.parentId;
    ParentFound(t, count, k);
    ViewAtFound(t, k);
    ViewAtFound(t, pid);
    var pk := FindTaskAndParent(t, k).value.path;
    assert pk[..|pk| - 1] == Parent(pk);
  }

  /** The chain grows by one checked parent at a time: each further step of the
      walk, stated by id. */
  lemma ChainExtends(t: Task, count: int, k: int, x: int)
    requires ShapeInvariant(t, count) && x != ROOT_ID && OnCheckedChainAbove(t, k, x)
    requires ViewAt(t, ViewAt(t, x).value.parentId).Some? && ViewAt(t, ViewAt(t, x).value.parentId).value.checked
    ensures OnCheckedChainAbove(t, k, ViewAt(t, x).value.parentId)
  {
    var pid := ViewAt(t, x).value.parentId;
    ParentFound(t, count, x);
    ViewAtFound(t, pid);
    var pk := FindTaskAndParent(t, k).value.path;
    var px := FindTaskAndParent(t, x).value.path;
    forall i | |Parent(px)| <= i < |pk|
      ensures FlagAt(t, pk[..i])
    {
      if i == |Parent(px)| {
        assert pk[..i] == Parent(px);
      }
    }
  }

  /** What lookup shows of task `x` after toggling task `k` (js/todo.js:82-90). */
  ghost function ToggledView(t: Task, k: int, x: int): (r: Option<NodeInfo>)
  {
    match ViewAt(t, x)
    case None => None
    case Some(info) =>
      var flag := match ViewAt(t, k) case Some(target) => !target.checked case None => false;
      Some(info.(checked :=
        if InSubtree(t, k, x) then flag
        else if OnCheckedChainAbove(t, k, x) then false
        else info.checked))
  }

  /** Replacing the node at `p` by the result of the cascade gives every node
      at or below `p` the flag of the node at `p`, and changes nothing else. */
  lemma CascadeFlags(t: Task, p: seq<int>, sub: Task)
    requires IsPath(t, p) && SamePaths(At(t, p), sub) && sub.checked == At(t, p).checked
    requires forall q :: |q| > 0 && IsPath(sub, q) ==> At(sub, q).checked == At(t, p).checked
    ensures SamePaths(t, SetAt(t, p, sub))
    ensures forall q :: IsPath(t, q) ==>
      At(SetAt(t, p, sub), q).checked == if p <= q then At(t, p).checked else At(t, q).checked
  {
    SetAtSamePaths(t, p, sub);
    forall q | IsPath(t, q)
      ensures At(SetAt(t, p, sub), q).checked == if p <= q then At(t, p).checked else At(t, q).checked
    {
      SetAtPaths(t, p, sub, q);
      if p <= q {
        AtConcat(t, p, q[|p|..]);
        assert p + q[|p|..] == q;
      }
    }
  }

  /** The three phases of toggleTask (js/todo.js:85-88) compose to ToggledFlag:
      `t1` flips the node at `p`, `t2` is the upward walk from it, `t3` the
      cascade below it. */
  lemma {:induction false} ToggleSteps(t0: Task, t1: Task, t2: Task, t3: Task, p: seq<int>)
    requires IsPath(t0, p) && SamePaths(t0, t1) && SamePaths(t1, t2) && SamePaths(t2, t3)
    requires forall q :: IsPath(t0, q) ==> At(t1, q).checked == if q == p then !At(t0, p).checked else At(t0, q).checked
    requires forall q :: IsPath(t1, q) ==> At(t2, q).checked == if Unwound(t1, p, q) then false else At(t1, q).checked
    requires forall q :: IsPath(t2, q) ==> At(t3, q).checked == if p <= q then At(t2, p).checked else At(t2, q).checked
    ensures SamePaths(t0, t3)
    ensures forall q :: IsPath(t0, q) ==> At(t3, q).checked == ToggledFlag(t0, p, q)
  {
    SamePathsTrans(t0, t1, t2);
    SamePathsTrans(t0, t2, t3);
    assert At(t2, p).checked == !At(t0, p).checked by {
      assert !Unwound(t1, p, p);
    }
    forall q | IsPath(t0, q)
      ensures At(t3, q).checked == ToggledFlag(t0, p, q)
    {
      if !(p <= q) {
        assert q != p;
        if q < p {
          assert CheckedChain(t1, p, q) <==> CheckedChain(t0, p, q) by {
            forall i | |q| <= i < |p|
              ensures FlagAt(t1, p[..i]) <==> FlagAt(t0, p[..i])
            {
              PrefixIsPath(t0, p, i);
              assert p[..i] != p;
            }
          }
        }
      }
    }
  }

  /** The premises shared by the lemmas below: `t2` is `t` with the flags that
      toggling task `k`, found at `pk`, leaves. */
  ghost predicate ToggledTree(t: Task, t2: Task, count: int, k: int, pk: seq<int>)
  {
    && StoreInvariant(t, count) && UniqueIds(t2) && SamePaths(t, t2)
    && FindTaskAndParent(t, k).Some? && FindTaskAndParent(t, k).value.path == pk
    && IsPath(t, pk) && ViewAt(t, k) == Some(Info(At(t, pk)))
    && forall q :: IsPath(t, q) ==> At(t2, q).checked == ToggledFlag(t, pk, q)
  }

  lemma ToggledViewRoot(t: Task, t2: Task, count: int, k: int, pk: seq<int>)
    requires ToggledTree(t, t2, count, k, pk)
    ensures ViewAt(t2, ROOT_ID) == ToggledView(t, k, ROOT_ID)
  {
    assert IsPath(t, []) && At(t2, []) == t2 && At(t, []) == t;
    assert SameFields(t, t2);
    assert t2.checked == ToggledFlag(t, pk, []);
    assert InSubtree(t, k, ROOT_ID) <==> pk <= [];
    assert OnCheckedChainAbove(t, k, ROOT_ID) <==> [] < pk && FlagAt(t, pk) && CheckedChain(t, pk, []);
  }

  lemma ToggledViewBelow(t: Task, t2: Task, count: int, k: int, pk: seq<int>, q: seq<int>)
    requires ToggledTree(t, t2, count, k, pk)
    requires IsPath(t, q) && |q| > 0
    ensures ViewAt(t2, Last(q)) == ToggledView(t, k, Last(q))
  {
    var x := Last(q);
    IdsNotRoot(t, count, q);
    FindExactPath(t, q);
    assert t2.id == t.id by {
      assert IsPath(t, []) && SameFields(At(t, []), At(t2, []));
    }
    assert IsPath(t2, q) && At(t2, q).id == At(t, q).id;
    FindExactPath(t2, q);
    assert SameFields(At(t, q), At(t2, q));
    assert ViewAt(t2, x) == Some(Info(At(t, q)).(checked := ToggledFlag(t, pk, q)));
    assert InSubtree(t, k, x) <==> pk <= q;
    assert OnCheckedChainAbove(t, k, x) <==> q < pk && FlagAt(t, pk) && CheckedChain(t, pk, q);
  }

  lemma ToggledViewAbsent(t: Task, t2: Task, count: int, k: int, pk: seq<int>, x: int)
    requires ToggledTree(t, t2, count, k, pk)
    requires x != ROOT_ID && FindTaskAndParent(t, x).None?
    ensures ViewAt(t2, x) == ToggledView(t, k, x)
  {
    assert t2.id == t.id by {
      assert IsPath(t, []) && SameFields(At(t, []), At(t2, []));
    }
    if FindTaskAndParent(t2, x).Some? {
      var f := FindTaskAndParent(t2, x).value;
      FoundAt(t2, x, f);
      FindExactPath(t, f.path);
      assert false;
    }
  }

  /** A tree whose nodes carry the flags ToggledFlag gives shows, through lookup,
      exactly ToggledView. */
  lemma ToggledFlagsView(t: Task, t2: Task, count: int, k: int, pk: seq<int>)
    requires ToggledTree(t, t2, count, k, pk)
    ensures forall x :: ViewAt(t2, x) == ToggledView(t, k, x)
  {
    forall x
      ensures ViewAt(t2, x) == ToggledView(t, k, x)
    {
      if x == ROOT_ID {
        ToggledViewRoot(t, t2, count, k, pk);
      } else if FindTaskAndParent(t, x).Some? {
        var f := FindTaskAndParent(t, x).value;
        FoundAt(t, x, f);
        ToggledViewBelow(t, t2, count, k, pk, f.path);
      } else {
        ToggledViewAbsent(t, t2, count, k, pk, x);
      }
    }
  }

  /** Unchecking a task leaves none of its ancestors checked: with downward
      closure, every checked ancestor lies on the checked chain the unwind clears. */
  lemma UncheckClearsAncestors(t: Task, count: int, k: int, x: int)
    requires StoreInvariant(t, count)
    requires ViewAt(t, k).Some? && ViewAt(t, k).value.checked
    requires FindTaskAndParent(t, x).Some?
    requires FindTaskAndParent(t, x).value.path < FindTaskAndParent(t, k).value.path
    ensures ToggledView(t, k, x).Some? && !ToggledView(t, k, x).value.checked
  {
    assert !InSubtree(t, k, x);
    if ViewAt(t, x).value.checked {
      CheckedAncestorOnChain(t, count, k, x);
    }
  }

  /** With downward closure, a checked ancestor of a checked task lies on its
      checked chain. */
  lemma CheckedAncestorOnChain(t: Task, count: int, k: int, x: int)
    requires StoreInvariant(t, count)
    requires ViewAt(t, k).Some? && ViewAt(t, k).value.checked
    requires ViewAt(t, x).Some? && ViewAt(t, x).value.checked
    requires FindTaskAndParent(t, x).value.path < FindTaskAndParent(t, k).value.path
    ensures OnCheckedChainAbove(t, k, x)
  {
    var pk := FindTaskAndParent(t, k).value.path;
    var px := FindTaskAndParent(t, x).value.path;
    ViewAtFound(t, k);
    ViewAtFound(t, x);
    forall i | |px| <= i < |pk|
      ensures FlagAt(t, pk[..i])
    {
      PrefixIsPath(t, pk, i);
      assert px + pk[|px|..i] == pk[..i];
      CheckedBelow(t, px, pk[|px|..i]);
    }
  }

  /** Checking a task changes nothing outside its subtree. */
  lemma CheckLeavesOthers(t: Task, count: int, k: int, x: int)
    requires StoreInvariant(t, count)
    requires ViewAt(t, k).Some? && !ViewAt(t, k).value.checked
    requires !InSubtree(t, k, x)
    ensures ToggledView(t, k, x) == ViewAt(t, x)
  {
    ViewAtFound(t, k);
  }
}
