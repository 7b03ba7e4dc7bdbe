/** The properties the store keeps of its tree between operations. */
module TreeInvariant {
  import opened Tree

  /** Every task sits under its own id in its parent's `tasks` and names that
      parent's id as its `parentId` (js/todo.js:46-47, 53). */
  ghost predicate WellFormed(t: Task)
  {
    forall q :: |q| > 0 && IsPath(t, q) && IsPath(t, Parent(q)) ==>
      At(t, q).id == Last(q) && At(t, q).parentId == At(t, Parent(q)).id
  }

  /** No id appears under two different paths: the structure is a tree in which
      each id names one node. */
  ghost predicate UniqueIds(t: Task)
  {
    forall p, q :: |p| > 0 && |q| > 0 && IsPath(t, p) && IsPath(t, q) && Last(p) == Last(q) ==> p == q
  }

  /** Every id in the tree was issued by the counter before it reached `count`. */
  ghost predicate IdsBelow(t: Task, count: int)
  {
    forall q :: |q| > 0 && IsPath(t, q) ==> 0 <= Last(q) < count
  }

  /** Downward closure: a checked task has only checked children. */
  ghost predicate DownClosed(t: Task)
  {
    forall q :: |q| > 0 && IsPath(t, q) && IsPath(t, Parent(q)) && At(t, Parent(q)).checked ==> At(t, q).checked
  }

  /** The shape of the store: a root with the reserved id over a tree of
      distinct ids, each issued by the counter. */
  ghost predicate ShapeInvariant(t: Task, count: int)
  {
    t.id == ROOT_ID && 0 <= count && WellFormed(t) && UniqueIds(t) && IdsBelow(t, count)
  }

  /** The invariant of `listRoot` and `numberOfTasks` between operations. */
  ghost predicate StoreInvariant(t: Task, count: int)
  {
    ShapeInvariant(t, count) && DownClosed(t)
  }

  /** A checked task has every descendant checked, however deep. */
  lemma {:induction false} CheckedBelow(t: Task, p: seq<int>, r: seq<int>)
    requires DownClosed(t) && FlagAt(t, p) && IsPath(t, p + r)
    ensures FlagAt(t, p + r)
    decreases |r|
  {
    if |r| > 0 {
      var q := p + r;
      assert Parent(q) == p + Parent(r);
      PrefixIsPath(t, q, |q| - 1);
      CheckedBelow(t, p, Parent(r));
    } else {
      assert p + r == p;
    }
  }

  /** Flags aside, the invariant depends only on the paths of the tree. */
  lemma SamePathsInvariant(t: Task, t': Task, count: int)
    requires SamePaths(t, t') && ShapeInvariant(t, count)
    ensures ShapeInvariant(t', count)
  {
    assert IsPath(t, []) && SameFields(At(t, []), At(t', []));
    forall q | |q| > 0 && IsPath(t', q) && IsPath(t', Parent(q))
      ensures At(t', q).id == Last(q) && At(t', q).parentId == At(t', Parent(q)).id
    {
      assert IsPath(t, q) && IsPath(t, Parent(q));
    }
  }

  /** In a tree that keeps the invariant, the node at a non-empty path carries
      the last key of the path as its id. */
  lemma WellFormedId(t: Task, count: int, q: seq<int>)
    requires ShapeInvariant(t, count) && IsPath(t, q) && |q| > 0
    ensures At(t, q).id == Last(q) && Last(q) != ROOT_ID
  {
    ParentIsPath(t, q);
  }

  lemma EmptyRootInvariant()
    ensures StoreInvariant(EmptyRoot(), 0)
  {
    forall q | |q| > 0
      ensures !IsPath(EmptyRoot(), q)
    {
    }
  }
}
