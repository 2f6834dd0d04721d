/**
 The two condition tables as a whole: what keeps them well formed, how a tree is read
 back from them, and what deleting a policy's groups (directly, or by cascade from
 its root) leaves behind.
 */
module ConditionTables {
  import opened Wrappers
  import opened ConditionTrees
  import opened ConditionRows

  datatype Tables = Tables(groups: seq<GroupRow>, conditions: seq<ConditionRow>, nextId: Id)

  ghost predicate Ascending(rows: seq<GroupRow>) {
    forall i, j :: 0 <= i < j < |rows| ==> rows[i].id < rows[j].id
  }

  /** Rows are in insertion order, and every parent was inserted before its children. */
  ghost predicate Ordered(tb: Tables) {
    && Ascending(tb.groups)
    && forall r :: r in tb.groups ==> r.id < tb.nextId && (r.parent.Some? ==> r.parent.value < r.id)
  }

  ghost predicate HasParent(groups: seq<GroupRow>, r: GroupRow)
    requires r.parent.Some?
  {
    exists q :: q in groups && q.id == r.parent.value && q.policy == r.policy
  }

  ghost predicate HasGroup(groups: seq<GroupRow>, c: ConditionRow) {
    exists q :: q in groups && q.id == c.group
  }

  /** Every parent is a row of the same policy. */
  ghost predicate ParentsPresent(groups: seq<GroupRow>) {
    forall r :: r in groups && r.parent.Some? ==> HasParent(groups, r)
  }

  ghost predicate IsRoot(groups: seq<GroupRow>, r: GroupRow) {
    r in groups && r.parent.None?
  }

  /** A policy has at most one root. */
  ghost predicate OneRoot(groups: seq<GroupRow>) {
    forall r, q :: IsRoot(groups, r) && IsRoot(groups, q) && r.policy == q.policy ==> r == q
  }

  ghost predicate GroupsPresent(tb: Tables) {
    forall c :: c in tb.conditions ==> HasGroup(tb.groups, c)
  }

  ghost predicate Valid(tb: Tables) {
    Ordered(tb) && ParentsPresent(tb.groups) && OneRoot(tb.groups) && GroupsPresent(tb)
  }

  lemma SameId(tb: Tables, r: GroupRow, q: GroupRow)
    requires Ordered(tb) && r in tb.groups && q in tb.groups && r.id == q.id
    ensures r == q
  {
  }

  /* ---------- Reading a tree ---------- */

  function LeavesOf(rows: seq<ConditionRow>): (r: seq<Leaf>)
    ensures |r| == |rows|
  {
    seq(|rows|, i requires 0 <= i < |rows| => rows[i].leaf)
  }

  function SortedConditions(tb: Tables, g: Id): seq<ConditionRow> {
    SortBy(ConditionOrder, ConditionsOf(tb.conditions, g))
  }

  function SortedChildren(tb: Tables, g: Id): (rows: seq<GroupRow>)
    ensures forall r :: r in rows <==> r in tb.groups && r.parent == Some(g)
  {
    SortKeepsRows(GroupOrder, ChildrenOf(tb.groups, g));
    ChildrenAreRows(tb.groups, g);
    var rows := SortBy(GroupOrder, ChildrenOf(tb.groups, g));
    assert forall r :: r in rows <==> r in multiset(rows);
    assert forall r :: r in ChildrenOf(tb.groups, g) <==> r in multiset(ChildrenOf(tb.groups, g));
    rows
  }

  /** Query the conditions and child groups of a row, each in order, and recurse. */
  function ReadGroup(tb: Tables, row: GroupRow): Tree
    requires Ordered(tb) && row.id < tb.nextId
    decreases tb.nextId - row.id
  {
    Tree(row.op, LeavesOf(SortedConditions(tb, row.id)), ReadAll(tb, row.id, SortedChildren(tb, row.id)))
  }

  function ReadAll(tb: Tables, above: Id, rows: seq<GroupRow>): seq<Tree>
    requires Ordered(tb) && above < tb.nextId
    requires forall r :: r in rows ==> r in tb.groups && above < r.id
    decreases tb.nextId - above, |rows|
  {
    if rows == [] then [] else [ReadGroup(tb, rows[0])] + ReadAll(tb, above, rows[1..])
  }

  /** The two queries for `g` find the same in the tables as in the given rows. */
  ghost predicate SameAt(tb: Tables, groups: seq<GroupRow>, conditions: seq<ConditionRow>, g: Id) {
    && ChildrenOf(tb.groups, g) == ChildrenOf(groups, g)
    && ConditionsOf(tb.conditions, g) == ConditionsOf(conditions, g)
  }

  /** Below every id the tree printed, the tables hold the printed rows and nothing else. */
  ghost predicate Holds(tb: Tables, base: Id, policy: Id, parent: Option<Id>, order: nat, t: Tree) {
    && base + Size(t) <= tb.nextId
    && forall g :: base <= g < base + Size(t) ==>
         SameAt(tb, GroupRows(base, policy, parent, order, t), LeafRows(base, t), g)
  }

  ghost predicate HoldsForest(tb: Tables, base: Id, policy: Id, parent: Id, order: nat, ts: seq<Tree>) {
    && base + ForestSize(ts) <= tb.nextId
    && forall g :: base <= g < base + ForestSize(ts) ==>
         SameAt(tb, ForestRows(base, policy, parent, order, ts), ForestLeafRows(base, ts), g)
  }

  lemma HoldsBelow(tb: Tables, base: Id, policy: Id, parent: Option<Id>, order: nat, t: Tree)
    requires Holds(tb, base, policy, parent, order, t) && parent != Some(base)
    requires parent.Some? ==> parent.value < base
    ensures HoldsForest(tb, base + 1, policy, base, 0, t.children)
    ensures ChildrenOf(tb.groups, base) == Roots(base + 1, policy, base, 0, t.children)
    ensures ConditionsOf(tb.conditions, base) == OwnRows(base, t.conditions)
  {
    var top := RootRow(base, policy, parent, order, t);
    var rest := ForestRows(base + 1, policy, base, 0, t.children);
    var own, below := OwnRows(base, t.conditions), ForestLeafRows(base + 1, t.children);
    assert GroupRows(base, policy, parent, order, t) == [top] + rest;
    forall g | base <= g < base + Size(t)
      ensures ChildrenOf(tb.groups, g) == ChildrenOf(rest, g)
      ensures ConditionsOf(tb.conditions, g) == ConditionsOf(own, g) + ConditionsOf(below, g)
    {
      assert SameAt(tb, GroupRows(base, policy, parent, order, t), LeafRows(base, t), g);
      ChildrenOfConcat([top], rest, g);
      ConditionsOfConcat(own, below, g);
    }
    ForestRoots(base + 1, policy, base, 0, t.children);
    forall g | base + 1 <= g < base + Size(t)
      ensures SameAt(tb, rest, below, g)
    {
      NoConditions(own, g);
    }
    ForestLeavesInRange(base + 1, t.children);
    AllConditions(own, base);
    NoConditions(below, base);
  }

  lemma HoldsSplit(tb: Tables, base: Id, policy: Id, parent: Id, order: nat, ts: seq<Tree>)
    requires HoldsForest(tb, base, policy, parent, order, ts) && parent < base && ts != []
    ensures Holds(tb, base, policy, Some(parent), order, ts[0])
    ensures HoldsForest(tb, base + Size(ts[0]), policy, parent, order + 1, ts[1..])
  {
    var mid := base + Size(ts[0]);
    var first := GroupRows(base, policy, Some(parent), order, ts[0]);
    var rest := ForestRows(mid, policy, parent, order + 1, ts[1..]);
    var firstLeaves, restLeaves := LeafRows(base, ts[0]), ForestLeafRows(mid, ts[1..]);
    LeavesInRange(base, ts[0]);
    ForestLeavesInRange(mid, ts[1..]);
    forall g | base <= g < base + ForestSize(ts)
      ensures if g < mid then SameAt(tb, first, firstLeaves, g) else SameAt(tb, rest, restLeaves, g)
    {
      assert SameAt(tb, ForestRows(base, policy, parent, order, ts), ForestLeafRows(base, ts), g);
      ChildrenOfConcat(first, rest, g);
      ConditionsOfConcat(firstLeaves, restLeaves, g);
      if g < mid {
        StrangerHasNoForest(mid, policy, parent, order + 1, ts[1..], g);
        NoConditions(restLeaves, g);
      } else {
        StrangerHasNoChildren(base, policy, Some(parent), order, ts[0], g);
        NoConditions(firstLeaves, g);
      }
    }
  }

  /** The two queries at the root of a printed tree find its own conditions and its subtrees' roots, in order. */
  lemma TopQueries(tb: Tables, base: Id, policy: Id, parent: Option<Id>, order: nat, t: Tree)
    requires Ordered(tb) && Holds(tb, base, policy, parent, order, t)
    requires parent.Some? ==> parent.value < base
    ensures LeavesOf(SortedConditions(tb, base)) == t.conditions
    ensures SortedChildren(tb, base) == Roots(base + 1, policy, base, 0, t.children)
    ensures HoldsForest(tb, base + 1, policy, base, 0, t.children)
  {
    HoldsBelow(tb, base, policy, parent, order, t);
    SortSorted(ConditionOrder, OwnRows(base, t.conditions));
    assert LeavesOf(OwnRows(base, t.conditions)) == t.conditions;
    SortSorted(GroupOrder, Roots(base + 1, policy, base, 0, t.children));
  }

  /** The positions of what those queries find are 0, 1, 2 and so on; so the order in which the database happens to
      return the rows does not matter. */
  lemma AnyOrderReads(tb: Tables, base: Id, policy: Id, parent: Option<Id>, order: nat, t: Tree,
                      conditions: seq<ConditionRow>, children: seq<GroupRow>)
    requires Ordered(tb) && Holds(tb, base, policy, parent, order, t)
    requires parent.Some? ==> parent.value < base
    requires multiset(conditions) == multiset(ConditionsOf(tb.conditions, base))
    requires multiset(children) == multiset(ChildrenOf(tb.groups, base))
    ensures forall k :: 0 <= k < |SortedConditions(tb, base)| ==> SortedConditions(tb, base)[k].order == k
    ensures forall k :: 0 <= k < |SortedChildren(tb, base)| ==> SortedChildren(tb, base)[k].order == k
    ensures SortBy(ConditionOrder, conditions) == SortedConditions(tb, base)
    ensures SortBy(GroupOrder, children) == SortedChildren(tb, base)
  {
    TopQueries(tb, base, policy, parent, order, t);
    HoldsBelow(tb, base, policy, parent, order, t);
    SortSorted(ConditionOrder, OwnRows(base, t.conditions));
    SortAnyOrder(ConditionOrder, conditions, OwnRows(base, t.conditions));
    SortAnyOrder(GroupOrder, children, Roots(base + 1, policy, base, 0, t.children));
  }

  /** Reading undoes printing, whatever else the tables hold. */
  lemma {:induction false} ReadBack(tb: Tables, base: Id, policy: Id, parent: Option<Id>, order: nat, t: Tree)
    requires Ordered(tb) && base + Size(t) <= tb.nextId && Holds(tb, base, policy, parent, order, t)
    requires parent.Some? ==> parent.value < base
    ensures ReadGroup(tb, RootRow(base, policy, parent, order, t)) == t
    decreases t, 1
  {
    TopQueries(tb, base, policy, parent, order, t);
    ReadBackForest(tb, base + 1, policy, base, 0, t.children);
  }

  lemma {:induction false} ReadBackFirst(tb: Tables, base: Id, policy: Id, parent: Id, order: nat, ts: seq<Tree>)
    requires Ordered(tb) && HoldsForest(tb, base, policy, parent, order, ts) && parent < base && ts != []
    ensures base < tb.nextId
    ensures ReadGroup(tb, RootRow(base, policy, Some(parent), order, ts[0])) == ts[0]
    ensures HoldsForest(tb, base + Size(ts[0]), policy, parent, order + 1, ts[1..])
    decreases ts, 0
  {
    HoldsSplit(tb, base, policy, parent, order, ts);
    ReadBack(tb, base, policy, Some(parent), order, ts[0]);
  }

  lemma ReadAllStep(tb: Tables, above: Id, rows: seq<GroupRow>, ts: seq<Tree>)
    requires Ordered(tb) && above < tb.nextId && rows != [] && ts != [] && Present(tb, above, rows)
    requires ReadGroup(tb, rows[0]) == ts[0] && ReadAll(tb, above, rows[1..]) == ts[1..]
    ensures ReadAll(tb, above, rows) == ts
  {
  }

  ghost predicate Present(tb: Tables, above: Id, rows: seq<GroupRow>) {
    forall r :: r in rows ==> r in tb.groups && above < r.id
  }

  lemma RootsTail(tb: Tables, base: Id, policy: Id, parent: Id, order: nat, ts: seq<Tree>)
    requires ts != [] && Present(tb, parent, Roots(base, policy, parent, order, ts))
    ensures var roots := Roots(base, policy, parent, order, ts);
            && roots[0] == RootRow(base, policy, Some(parent), order, ts[0])
            && roots[1..] == Roots(base + Size(ts[0]), policy, parent, order + 1, ts[1..])
            && Present(tb, parent, roots[1..])
  {
  }

  /** The roots of a printed forest read back as the forest. */
  lemma {:induction false} ReadBackForest(tb: Tables, base: Id, policy: Id, parent: Id, order: nat, ts: seq<Tree>)
    requires Ordered(tb) && HoldsForest(tb, base, policy, parent, order, ts) && parent < base && parent < tb.nextId
    requires Present(tb, parent, Roots(base, policy, parent, order, ts))
    ensures ReadAll(tb, parent, Roots(base, policy, parent, order, ts)) == ts
    decreases ts, 1
  {
    if ts != [] {
      ReadBackFirst(tb, base, policy, parent, order, ts);
      RootsTail(tb, base, policy, parent, order, ts);
      ReadBackForest(tb, base + Size(ts[0]), policy, parent, order + 1, ts[1..]);
      ReadAllStep(tb, parent, Roots(base, policy, parent, order, ts), ts);
    }
  }
}
