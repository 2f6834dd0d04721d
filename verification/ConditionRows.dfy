/**
 Condition trees as relational rows with parent pointers and per-level positions.
 `GroupRows` and `LeafRows` print a tree as rows; the query functions are what the
 reader uses to find them again.
 */
module ConditionRows {
  import opened Wrappers
  import opened ConditionTrees

  datatype GroupRow = GroupRow(id: Id, policy: Id, parent: Option<Id>, op: Operator, order: nat)

  datatype ConditionRow = ConditionRow(group: Id, leaf: Leaf, order: nat)

  /* ---------- Printing a tree as rows ---------- */

  /** How many group rows a tree takes. */
  function Size(t: Tree): (n: nat)
    ensures n >= 1
    decreases t, 0
  {
    1 + ForestSize(t.children)
  }

  function ForestSize(ts: seq<Tree>): nat
    decreases ts, 1
  {
    if ts == [] then 0 else Size(ts[0]) + ForestSize(ts[1..])
  }

  function RootRow(base: Id, policy: Id, parent: Option<Id>, order: nat, t: Tree): GroupRow {
    GroupRow(base, policy, parent, t.op, order)
  }

  /** The group rows of `t`, in the order they are inserted, the root taking id `base`. */
  function GroupRows(base: Id, policy: Id, parent: Option<Id>, order: nat, t: Tree): seq<GroupRow>
    decreases t, 0
  {
    [RootRow(base, policy, parent, order, t)] + ForestRows(base + 1, policy, base, 0, t.children)
  }

  function ForestRows(base: Id, policy: Id, parent: Id, order: nat, ts: seq<Tree>): seq<GroupRow>
    decreases ts, 1
  {
    if ts == [] then []
    else GroupRows(base, policy, Some(parent), order, ts[0])
         + ForestRows(base + Size(ts[0]), policy, parent, order + 1, ts[1..])
  }

  function OwnRows(group: Id, cs: seq<Leaf>): (r: seq<ConditionRow>)
    ensures |r| == |cs|
  {
    seq(|cs|, i requires 0 <= i < |cs| => ConditionRow(group, cs[i], i))
  }

  /** The condition rows of `t`, in the order they are inserted. */
  function LeafRows(base: Id, t: Tree): seq<ConditionRow>
    decreases t, 0
  {
    OwnRows(base, t.conditions) + ForestLeafRows(base + 1, t.children)
  }

  function ForestLeafRows(base: Id, ts: seq<Tree>): seq<ConditionRow>
    decreases ts, 1
  {
    if ts == [] then []
    else LeafRows(base, ts[0]) + ForestLeafRows(base + Size(ts[0]), ts[1..])
  }

  /* ---------- Queries ---------- */

  /** `filter(parent_group_id == g)` */
  function ChildrenOf(rows: seq<GroupRow>, g: Id): seq<GroupRow> {
    if rows == [] then []
    else if rows[0].parent == Some(g) then [rows[0]] + ChildrenOf(rows[1..], g)
    else ChildrenOf(rows[1..], g)
  }

  /** `filter(group_id == g)` */
  function ConditionsOf(rows: seq<ConditionRow>, g: Id): seq<ConditionRow> {
    if rows == [] then []
    else if rows[0].group == g then [rows[0]] + ConditionsOf(rows[1..], g)
    else ConditionsOf(rows[1..], g)
  }

  /** `order_by(key)`: a stable sort. */
  function SortBy<T>(key: T -> int, rows: seq<T>): seq<T> {
    if rows == [] then [] else InsertBy(key, rows[0], SortBy(key, rows[1..]))
  }

  function InsertBy<T>(key: T -> int, x: T, rows: seq<T>): seq<T> {
    if rows == [] || key(x) <= key(rows[0]) then [x] + rows
    else [rows[0]] + InsertBy(key, x, rows[1..])
  }

  function GroupOrder(r: GroupRow): int { r.order }

  function ConditionOrder(r: ConditionRow): int { r.order }

  /** Whatever the key, sorting neither loses, adds nor repeats a row. */
  lemma {:induction false} SortKeepsRows<T>(key: T -> int, rows: seq<T>)
    ensures var r := SortBy(key, rows);
            && multiset(r) == multiset(rows)
            && (forall i, j :: 0 <= i < j < |r| ==> key(r[i]) <= key(r[j]))
  {
    if rows != [] {
      SortKeepsRows(key, rows[1..]);
      var tail := SortBy(key, rows[1..]);
      assert multiset(rows[1..]) == multiset(tail);
      assert |rows[1..]| == |multiset(rows[1..])| == |tail|;
      InsertKeepsRows(key, rows[0], tail);
      assert rows == [rows[0]] + rows[1..];
    }
  }

  lemma {:induction false} InsertKeepsRows<T>(key: T -> int, x: T, rows: seq<T>)
    requires forall i, j :: 0 <= i < j < |rows| ==> key(rows[i]) <= key(rows[j])
    ensures var r := InsertBy(key, x, rows);
            && |r| == |rows| + 1
            && multiset(r) == multiset{x} + multiset(rows)
            && (forall i, j :: 0 <= i < j < |r| ==> key(r[i]) <= key(r[j]))
            && (forall i :: 0 <= i < |r| ==> r[i] == x || r[i] in rows)
  {
    if rows == [] || key(x) <= key(rows[0]) {
    } else {
      InsertKeepsRows(key, x, rows[1..]);
      assert rows == [rows[0]] + rows[1..];
      var tail := InsertBy(key, x, rows[1..]);
      forall i | 0 <= i < |tail|
        ensures key(rows[0]) <= key(tail[i])
      {
        if tail[i] != x {
          var k :| 0 <= k < |rows[1..]| && rows[1..][k] == tail[i];
          assert rows[1..][k] == rows[k + 1];
        }
      }
    }
  }

  /** Rows that come in the order of their keys are left alone. */
  lemma {:induction false} SortSorted<T>(key: T -> int, rows: seq<T>)
    requires forall i, j :: 0 <= i < j < |rows| ==> key(rows[i]) <= key(rows[j])
    ensures SortBy(key, rows) == rows
  {
    if rows != [] {
      forall i, j | 0 <= i < j < |rows[1..]|
        ensures key(rows[1..][i]) <= key(rows[1..][j])
      {
        assert rows[1..][i] == rows[i + 1] && rows[1..][j] == rows[j + 1];
      }
      SortSorted(key, rows[1..]);
      assert rows == [rows[0]] + rows[1..];
    }
  }

  /** Rows without equal keys are sorted in one way only, in whatever order they come. */
  lemma SortAnyOrder<T>(key: T -> int, rows: seq<T>, sorted: seq<T>)
    requires multiset(rows) == multiset(sorted)
    requires forall i, j :: 0 <= i < j < |sorted| ==> key(sorted[i]) < key(sorted[j])
    ensures SortBy(key, rows) == sorted
  {
    SortKeepsRows(key, rows);
    SortedOnce(key, SortBy(key, rows), sorted);
  }

  lemma {:induction false} SortedOnce<T>(key: T -> int, a: seq<T>, b: seq<T>)
    requires multiset(a) == multiset(b)
    requires forall i, j :: 0 <= i < j < |a| ==> key(a[i]) <= key(a[j])
    requires forall i, j :: 0 <= i < j < |b| ==> key(b[i]) < key(b[j])
    ensures a == b
  {
    assert |a| == |multiset(a)| == |multiset(b)| == |b|;
    if a != [] {
      SameFirst(key, a, b);
      assert a == [a[0]] + a[1..] && b == [b[0]] + b[1..];
      assert multiset(a[1..]) == multiset(a) - multiset{a[0]} == multiset(b) - multiset{b[0]} == multiset(b[1..]);
      SortedOnce(key, a[1..], b[1..]);
    }
  }

  lemma SameFirst<T>(key: T -> int, a: seq<T>, b: seq<T>)
    requires a != [] && b != [] && multiset(a) == multiset(b)
    requires forall i, j :: 0 <= i < j < |a| ==> key(a[i]) <= key(a[j])
    requires forall i, j :: 0 <= i < j < |b| ==> key(b[i]) < key(b[j])
    ensures a[0] == b[0]
  {
    assert a[0] in multiset(b) && b[0] in multiset(a);
    var i :| 0 <= i < |b| && b[i] == a[0];
    var j :| 0 <= j < |a| && a[j] == b[0];
  }

  lemma {:induction false} ChildrenOfConcat(a: seq<GroupRow>, b: seq<GroupRow>, g: Id)
    ensures ChildrenOf(a + b, g) == ChildrenOf(a, g) + ChildrenOf(b, g)
  {
    if a == [] {
      assert a + b == b;
    } else {
      assert (a + b)[1..] == a[1..] + b;
      ChildrenOfConcat(a[1..], b, g);
      var tail, other := ChildrenOf(a[1..], g), ChildrenOf(b, g);
      assert [a[0]] + (tail + other) == ([a[0]] + tail) + other;
    }
  }

  lemma {:induction false} ConditionsOfConcat(a: seq<ConditionRow>, b: seq<ConditionRow>, g: Id)
    ensures ConditionsOf(a + b, g) == ConditionsOf(a, g) + ConditionsOf(b, g)
  {
    if a == [] {
      assert a + b == b;
    } else {
      assert (a + b)[1..] == a[1..] + b;
      ConditionsOfConcat(a[1..], b, g);
      var tail, other := ConditionsOf(a[1..], g), ConditionsOf(b, g);
      assert [a[0]] + (tail + other) == ([a[0]] + tail) + other;
    }
  }

  lemma {:induction false} NoChildren(rows: seq<GroupRow>, g: Id)
    requires forall r :: r in rows ==> r.parent != Some(g)
    ensures ChildrenOf(rows, g) == []
  {
    if rows != [] {
      NoChildren(rows[1..], g);
    }
  }

  lemma {:induction false} NoConditions(rows: seq<ConditionRow>, g: Id)
    requires forall r :: r in rows ==> r.group != g
    ensures ConditionsOf(rows, g) == []
  {
    if rows != [] {
      NoConditions(rows[1..], g);
    }
  }

  lemma {:induction false} AllConditions(rows: seq<ConditionRow>, g: Id)
    requires forall r :: r in rows ==> r.group == g
    ensures ConditionsOf(rows, g) == rows
  {
    if rows != [] {
      AllConditions(rows[1..], g);
    }
  }

  lemma {:induction false} ChildrenAreRows(rows: seq<GroupRow>, g: Id)
    ensures forall r :: r in ChildrenOf(rows, g) <==> r in rows && r.parent == Some(g)
  {
    if rows != [] {
      ChildrenAreRows(rows[1..], g);
      assert rows == [rows[0]] + rows[1..];
    }
  }

  lemma {:induction false} ConditionsAreRows(rows: seq<ConditionRow>, g: Id)
    ensures forall r :: r in ConditionsOf(rows, g) <==> r in rows && r.group == g
  {
    if rows != [] {
      ConditionsAreRows(rows[1..], g);
      assert rows == [rows[0]] + rows[1..];
    }
  }

  /* ---------- Where printed rows lie ---------- */

  /** Printed rows carry the policy, take exactly the ids `base .. base + Size(t)` in order, and hang below the root. */
  lemma {:induction false} RowsInRange(base: Id, policy: Id, parent: Option<Id>, order: nat, t: Tree)
    ensures var rows := GroupRows(base, policy, parent, order, t);
            && |rows| == Size(t)
            && forall i :: 0 <= i < |rows| ==>
                 && rows[i].id == base + i && rows[i].policy == policy
                 && (i > 0 ==> rows[i].parent.Some? && base <= rows[i].parent.value < rows[i].id)
    decreases t, 0
  {
    ForestInRange(base + 1, policy, base, 0, t.children);
    var rows := GroupRows(base, policy, parent, order, t);
    var rest := ForestRows(base + 1, policy, base, 0, t.children);
    forall i | 0 < i < |rows|
      ensures rows[i].id == base + i && rows[i].policy == policy
      ensures rows[i].parent.Some? && base <= rows[i].parent.value < rows[i].id
    {
      assert rows[i] == rest[i - 1];
    }
  }

  lemma {:induction false} ForestInRange(base: Id, policy: Id, parent: Id, order: nat, ts: seq<Tree>)
    requires parent < base
    ensures var rows := ForestRows(base, policy, parent, order, ts);
            && |rows| == ForestSize(ts)
            && forall i :: 0 <= i < |rows| ==>
                 && rows[i].id == base + i && rows[i].policy == policy
                 && rows[i].parent.Some? && rows[i].parent.value < rows[i].id
                 && (rows[i].parent.value == parent || base <= rows[i].parent.value)
    decreases ts, 1
  {
    if ts != [] {
      RowsInRange(base, policy, Some(parent), order, ts[0]);
      ForestInRange(base + Size(ts[0]), policy, parent, order + 1, ts[1..]);
      var first := GroupRows(base, policy, Some(parent), order, ts[0]);
      var rest := ForestRows(base + Size(ts[0]), policy, parent, order + 1, ts[1..]);
      var rows := first + rest;
      forall i | 0 <= i < |rows|
        ensures rows[i].id == base + i && rows[i].policy == policy
        ensures rows[i].parent.Some? && rows[i].parent.value < rows[i].id
        ensures rows[i].parent.value == parent || base <= rows[i].parent.value
      {
        if i < |first| {
          assert rows[i] == first[i];
          assert i == 0 ==> rows[i] == RootRow(base, policy, Some(parent), order, ts[0]);
        } else {
          assert rows[i] == rest[i - |first|];
        }
      }
    }
  }

  lemma {:induction false} LeavesInRange(base: Id, t: Tree)
    ensures forall r :: r in LeafRows(base, t) ==> base <= r.group < base + Size(t)
    decreases t, 0
  {
    ForestLeavesInRange(base + 1, t.children);
  }

  lemma {:induction false} ForestLeavesInRange(base: Id, ts: seq<Tree>)
    ensures forall r :: r in ForestLeafRows(base, ts) ==> base <= r.group < base + ForestSize(ts)
    decreases ts, 1
  {
    if ts != [] {
      LeavesInRange(base, ts[0]);
      ForestLeavesInRange(base + Size(ts[0]), ts[1..]);
    }
  }

  /** Ids outside the printed range have no child among the rows, unless they are the given parent. */
  lemma {:induction false} StrangerHasNoChildren(base: Id, policy: Id, parent: Option<Id>, order: nat, t: Tree, g: Id)
    requires parent != Some(g) && (g < base || base + Size(t) <= g)
    ensures ChildrenOf(GroupRows(base, policy, parent, order, t), g) == []
  {
    RowsInRange(base, policy, parent, order, t);
    var rows := GroupRows(base, policy, parent, order, t);
    forall r | r in rows
      ensures r.parent != Some(g)
    {
      var i :| 0 <= i < |rows| && rows[i] == r;
      if i == 0 {
        assert rows[0] == RootRow(base, policy, parent, order, t);
      }
    }
    NoChildren(rows, g);
  }

  lemma {:induction false} StrangerHasNoForest(base: Id, policy: Id, parent: Id, order: nat, ts: seq<Tree>, g: Id)
    requires parent < base && parent != g && (g < base || base + ForestSize(ts) <= g)
    ensures ChildrenOf(ForestRows(base, policy, parent, order, ts), g) == []
  {
    ForestInRange(base, policy, parent, order, ts);
    var rows := ForestRows(base, policy, parent, order, ts);
    forall r | r in rows
      ensures r.parent != Some(g)
    {
      var i :| 0 <= i < |rows| && rows[i] == r;
    }
    NoChildren(rows, g);
  }

  /** The roots of a printed forest: what a query for the children of `parent` finds. */
  function Roots(base: Id, policy: Id, parent: Id, order: nat, ts: seq<Tree>): (r: seq<GroupRow>)
    ensures |r| == |ts|
    ensures forall i :: 0 <= i < |r| ==> r[i].order == order + i
    decreases ts
  {
    if ts == [] then []
    else [RootRow(base, policy, Some(parent), order, ts[0])]
         + Roots(base + Size(ts[0]), policy, parent, order + 1, ts[1..])
  }

  lemma {:induction false} ForestRoots(base: Id, policy: Id, parent: Id, order: nat, ts: seq<Tree>)
    requires parent < base
    ensures ChildrenOf(ForestRows(base, policy, parent, order, ts), parent) == Roots(base, policy, parent, order, ts)
    decreases ts
  {
    if ts != [] {
      var first := GroupRows(base, policy, Some(parent), order, ts[0]);
      var inner := ForestRows(base + 1, policy, base, 0, ts[0].children);
      var rest := ForestRows(base + Size(ts[0]), policy, parent, order + 1, ts[1..]);
      ChildrenOfConcat(first, rest, parent);
      StrangerHasNoForest(base + 1, policy, base, 0, ts[0].children, parent);
      assert first[1..] == inner;
      ForestRoots(base + Size(ts[0]), policy, parent, order + 1, ts[1..]);
    }
  }
}
