/** The task tree of js/todo.js: tasks nested through their `tasks` maps, and the
    paths of child keys by which the store reaches a node in place. */
module Tree {

  datatype Option<T> = None | Some(value: T)

  /** TASK_LIST_ID: the identifier of the list root; no task ever receives it. */
  const ROOT_ID: int := -1

  /** A task. Its children live in `tasks`, keyed by their ids. The root has no
      parent, text or flag in the source; here it carries parentId ROOT_ID, the
      empty text and `checked == false` (the source's `undefined` is falsy). */
  datatype Task = Task(id: int, parentId: int, text: string, checked: bool, tasks: map<int, Task>)

  /** The fields of one task, its children reduced to their keys. */
  datatype NodeInfo = NodeInfo(id: int, parentId: int, text: string, checked: bool, children: set<int>)

  function Info(t: Task): (r: NodeInfo)
  {
    NodeInfo(t.id, t.parentId, t.text, t.checked, t.tasks.Keys)
  }

  /** The root a list starts from when nothing was stored before. */
  function EmptyRoot(): (r: Task)
  {
    Task(ROOT_ID, ROOT_ID, "", false, map[])
  }

  function Last(p: seq<int>): (r: int)
    requires |p| > 0
  {
    p[|p| - 1]
  }

  function Parent(p: seq<int>): (r: seq<int>)
    requires |p| > 0
  {
    p[..|p| - 1]
  }

  /** `p` leads from `t` through child keys to a node. */
  ghost predicate IsPath(t: Task, p: seq<int>)
    decreases |p|
  {
    |p| == 0 || (p[0] in t.tasks && IsPath(t.tasks[p[0]], p[1..]))
  }

  /** The node `p` leads to. */
  function At(t: Task, p: seq<int>): (r: Task)
    requires IsPath(t, p)
    decreases |p|
  {
    if |p| == 0 then t else At(t.tasks[p[0]], p[1..])
  }

  /** `t` with the node at `p` replaced by `n`: what an assignment through a
      reference to that node does to the tree. */
  function SetAt(t: Task, p: seq<int>, n: Task): (r: Task)
    requires IsPath(t, p)
    decreases |p|
  {
    if |p| == 0 then n
    else t.(tasks := t.tasks[p[0] := SetAt(t.tasks[p[0]], p[1..], n)])
  }

  /** There is a node at `p` and it is checked. */
  ghost predicate FlagAt(t: Task, p: seq<int>)
  {
    IsPath(t, p) && At(t, p).checked
  }

  /** Same fields and children keys, flags aside. */
  ghost predicate SameFields(a: Task, b: Task)
  {
    a.id == b.id && a.parentId == b.parentId && a.text == b.text && a.tasks.Keys == b.tasks.Keys
  }

  /** `a` and `b` have the same nodes at the same paths and differ at most in flags. */
  ghost predicate SamePaths(a: Task, b: Task)
  {
    && (forall q :: IsPath(a, q) <==> IsPath(b, q))
    && (forall q :: IsPath(a, q) ==> SameFields(At(a, q), At(b, q)))
  }

  lemma {:induction false} AtConcat(t: Task, p: seq<int>, r: seq<int>)
    ensures IsPath(t, p + r) <==> IsPath(t, p) && IsPath(At(t, p), r)
    ensures IsPath(t, p + r) ==> At(t, p + r) == At(At(t, p), r)
    decreases |p|
  {
    if |p| == 0 {
      assert p + r == r;
    } else {
      assert (p + r)[0] == p[0];
      assert (p + r)[1..] == p[1..] + r;
      if p[0] in t.tasks {
        AtConcat(t.tasks[p[0]], p[1..], r);
      }
    }
  }

  /** A path extended by one key leads to the child under that key. */
  lemma AtChild(t: Task, p: seq<int>, c: int)
    requires IsPath(t, p)
    ensures IsPath(t, p + [c]) <==> c in At(t, p).tasks
    ensures c in At(t, p).tasks ==> At(t, p + [c]) == At(t, p).tasks[c]
  {
    AtConcat(t, p, [c]);
    assert IsPath(At(t, p), [c]) <==> c in At(t, p).tasks by {
      assert [c][1..] == [];
    }
    if c in At(t, p).tasks {
      assert [c][1..] == [];
    }
  }

  /** Paths are closed under taking prefixes. */
  lemma PrefixIsPath(t: Task, p: seq<int>, i: nat)
    requires IsPath(t, p) && i <= |p|
    ensures IsPath(t, p[..i])
  {
    AtConcat(t, p[..i], p[i..]);
    assert p[..i] + p[i..] == p;
  }

  lemma ParentIsPath(t: Task, p: seq<int>)
    requires IsPath(t, p) && |p| > 0
    ensures IsPath(t, Parent(p)) && Last(p) in At(t, Parent(p)).tasks
    ensures At(t, p) == At(t, Parent(p)).tasks[Last(p)]
  {
    PrefixIsPath(t, p, |p| - 1);
    assert Parent(p) + [Last(p)] == p;
    AtChild(t, Parent(p), Last(p));
  }

  /** Replacing the node at `p` changes the nodes at and below `p` into those of
      `n`, and leaves every other node with its fields and children keys; nodes
      off the path to `p` are left entirely as they were. */
  lemma {:induction false} SetAtPaths(t: Task, p: seq<int>, n: Task, q: seq<int>)
    requires IsPath(t, p)
    ensures p <= q ==> (IsPath(SetAt(t, p, n), q) <==> IsPath(n, q[|p|..]))
    ensures p <= q && IsPath(n, q[|p|..]) ==> At(SetAt(t, p, n), q) == At(n, q[|p|..])
    ensures !(p <= q) ==> (IsPath(SetAt(t, p, n), q) <==> IsPath(t, q))
    ensures !(p <= q) && IsPath(t, q) ==> Info(At(SetAt(t, p, n), q)) == Info(At(t, q))
    ensures !(p <= q) && !(q <= p) && IsPath(t, q) ==> At(SetAt(t, p, n), q) == At(t, q)
    decreases |p|
  {
    if |p| == 0 {
      assert q[0..] == q;
    } else if |q| == 0 {
      assert q <= p;
    } else {
      var c := p[0];
      var child := SetAt(t.tasks[c], p[1..], n);
      assert SetAt(t, p, n) == t.(tasks := t.tasks[c := child]);
      if q[0] != c {
        assert !(p <= q) && !(q <= p);
      } else {
        SetAtPaths(t.tasks[c], p[1..], n, q[1..]);
        assert p <= q <==> p[1..] <= q[1..];
        assert q <= p <==> q[1..] <= p[1..];
        if p <= q {
          assert q[|p|..] == q[1..][|p[1..]|..];
        }
      }
    }
  }

  /** Two trees have the same paths when their roots have the same fields and
      their children pairwise have the same paths. */
  lemma SamePathsFromChildren(a: Task, b: Task)
    requires SameFields(a, b)
    requires forall c :: c in a.tasks ==> SamePaths(a.tasks[c], b.tasks[c])
    ensures SamePaths(a, b)
  {
    forall q | IsPath(a, q) || IsPath(b, q)
      ensures IsPath(a, q) && IsPath(b, q) && SameFields(At(a, q), At(b, q))
    {
      if |q| > 0 {
        assert q[0] in a.tasks.Keys;
        var c := q[0];
        assert SamePaths(a.tasks[c], b.tasks[c]);
      }
    }
  }

  /** Replacing a node by one with the same paths keeps the paths of the tree. */
  lemma SetAtSamePaths(t: Task, p: seq<int>, n: Task)
    requires IsPath(t, p) && SamePaths(At(t, p), n)
    ensures SamePaths(t, SetAt(t, p, n))
  {
    var t' := SetAt(t, p, n);
    forall q | IsPath(t, q) || IsPath(t', q)
      ensures IsPath(t, q) && IsPath(t', q) && SameFields(At(t, q), At(t', q))
    {
      SetAtPaths(t, p, n, q);
      if p <= q {
        AtConcat(t, p, q[|p|..]);
        assert p + q[|p|..] == q;
      }
    }
  }

  /** Setting the flag of the node at `p` changes that flag and nothing else. */
  lemma SetFlagAt(t: Task, p: seq<int>, b: bool)
    requires IsPath(t, p)
    ensures SamePaths(t, SetAt(t, p, At(t, p).(checked := b)))
    ensures forall q :: IsPath(t, q) ==>
      At(SetAt(t, p, At(t, p).(checked := b)), q).checked == if q == p then b else At(t, q).checked
  {
    var n := At(t, p).(checked := b);
    WithFlagSamePaths(At(t, p), b);
    SetAtSamePaths(t, p, n);
    forall q | IsPath(t, q)
      ensures At(SetAt(t, p, n), q).checked == if q == p then b else At(t, q).checked
    {
      SetAtPaths(t, p, n, q);
      if p <= q {
        AtConcat(t, p, q[|p|..]);
        assert p + q[|p|..] == q;
        if q != p {
          assert |q[|p|..]| > 0;
        }
      }
    }
  }

  /** Changing one node's flag keeps every path. */
  lemma WithFlagSamePaths(n: Task, b: bool)
    ensures SamePaths(n, n.(checked := b))
  {
    var m := n.(checked := b);
    forall q | IsPath(n, q) || IsPath(m, q)
      ensures IsPath(n, q) && IsPath(m, q) && At(n, q) == if |q| == 0 then n else At(m, q)
    {
    }
  }
}
