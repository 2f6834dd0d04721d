/**
 Inserting and deleting whole trees.  Both ways the server clears a policy's tree,
 deleting every group row of the policy and deleting the root and letting the foreign
 keys cascade, remove the same rows; and neither disturbs another policy's tree.
 */
module ConditionDeletion {
  import opened Wrappers
  import opened ConditionTrees
  import opened ConditionRows
  import opened ConditionTables

  function KeepGroups(rows: seq<GroupRow>, doomed: set<Id>): seq<GroupRow> {
    if rows == [] then []
    else if rows[0].id in doomed then KeepGroups(rows[1..], doomed)
    else [rows[0]] + KeepGroups(rows[1..], doomed)
  }

  function KeepConditions(rows: seq<ConditionRow>, doomed: set<Id>): seq<ConditionRow> {
    if rows == [] then []
    else if rows[0].group in doomed then KeepConditions(rows[1..], doomed)
    else [rows[0]] + KeepConditions(rows[1..], doomed)
  }

  /** Delete group rows; the conditions of a deleted group go with it. */
  function Delete(tb: Tables, doomed: set<Id>): Tables {
    Tables(KeepGroups(tb.groups, doomed), KeepConditions(tb.conditions, doomed), tb.nextId)
  }

  function Insert(tb: Tables, policy: Id, t: Tree): Tables {
    Tables(tb.groups + GroupRows(tb.nextId, policy, None, 0, t), tb.conditions + LeafRows(tb.nextId, t),
           tb.nextId + Size(t))
  }

  function PolicyIds(rows: seq<GroupRow>, policy: Id): set<Id> {
    set r | r in rows && r.policy == policy :: r.id
  }

  /** `r` is `root` or hangs below it. */
  ghost predicate Descends(groups: seq<GroupRow>, r: GroupRow, root: Id)
    decreases r.id
  {
    r.id == root ||
    (r.parent.Some? && exists q :: q in groups && q.id == r.parent.value && q.id < r.id && Descends(groups, q, root))
  }

  /** What deleting `root` deletes, by the cascade on the parent key. */
  ghost function CascadeIds(groups: seq<GroupRow>, root: Id): set<Id> {
    set r | r in groups && Descends(groups, r, root) :: r.id
  }

  function RootOf(rows: seq<GroupRow>, policy: Id): Option<GroupRow> {
    if rows == [] then None
    else if rows[0].policy == policy && rows[0].parent.None? then Some(rows[0])
    else RootOf(rows[1..], policy)
  }

  /* ---------- Filters ---------- */

  lemma {:induction false} KeptGroups(rows: seq<GroupRow>, doomed: set<Id>)
    ensures forall r :: r in KeepGroups(rows, doomed) <==> r in rows && r.id !in doomed
  {
    if rows != [] {
      KeptGroups(rows[1..], doomed);
      assert rows == [rows[0]] + rows[1..];
    }
  }

  lemma {:induction false} KeptConditions(rows: seq<ConditionRow>, doomed: set<Id>)
    ensures forall r :: r in KeepConditions(rows, doomed) <==> r in rows && r.group !in doomed
  {
    if rows != [] {
      KeptConditions(rows[1..], doomed);
      assert rows == [rows[0]] + rows[1..];
    }
  }

  lemma ConsAscends(x: GroupRow, tail: seq<GroupRow>)
    requires Ascending(tail) && forall r :: r in tail ==> x.id < r.id
    ensures Ascending([x] + tail)
  {
  }

  lemma {:induction false} KeptGroupsAscend(rows: seq<GroupRow>, doomed: set<Id>)
    requires Ascending(rows)
    ensures Ascending(KeepGroups(rows, doomed))
  {
    if rows != [] {
      assert forall i :: 0 <= i < |rows[1..]| ==> rows[1..][i] == rows[i + 1];
      KeptGroupsAscend(rows[1..], doomed);
      KeptGroups(rows[1..], doomed);
      if rows[0].id !in doomed {
        ConsAscends(rows[0], KeepGroups(rows[1..], doomed));
      }
    }
  }

  lemma {:induction false} ChildrenKept(rows: seq<GroupRow>, doomed: set<Id>, g: Id)
    requires forall r :: r in rows && r.parent == Some(g) ==> r.id !in doomed
    ensures ChildrenOf(KeepGroups(rows, doomed), g) == ChildrenOf(rows, g)
  {
    if rows != [] {
      ChildrenKept(rows[1..], doomed, g);
    }
  }

  lemma {:induction false} ConditionsKept(rows: seq<ConditionRow>, doomed: set<Id>, g: Id)
    requires g !in doomed
    ensures ConditionsOf(KeepConditions(rows, doomed), g) == ConditionsOf(rows, g)
  {
    if rows != [] {
      ConditionsKept(rows[1..], doomed, g);
    }
  }

  lemma {:induction false} RootOfExact(tb: Tables, policy: Id)
    requires Valid(tb)
    ensures forall r :: RootOf(tb.groups, policy) == Some(r) <==> r in tb.groups && r.policy == policy && r.parent.None?
  {
    RootOfFinds(tb.groups, policy);
  }

  lemma {:induction false} RootOfFinds(rows: seq<GroupRow>, policy: Id)
    ensures match RootOf(rows, policy)
            case Some(r) => r in rows && r.policy == policy && r.parent.None?
            case None => forall r :: r in rows && r.policy == policy ==> r.parent.Some?
  {
    if rows != [] {
      RootOfFinds(rows[1..], policy);
      assert rows == [rows[0]] + rows[1..];
    }
  }

  /* ---------- Policy and tree coincide ---------- */

  lemma ParentHasSamePolicy(tb: Tables, r: GroupRow, q: GroupRow)
    requires Valid(tb) && r in tb.groups && q in tb.groups && r.parent == Some(q.id)
    ensures q.policy == r.policy && q.id < r.id
  {
  }

  lemma {:induction false} DescendantsSharePolicy(tb: Tables, r: GroupRow, root: GroupRow)
    requires Valid(tb) && r in tb.groups && root in tb.groups && Descends(tb.groups, r, root.id)
    ensures r.policy == root.policy
    decreases r.id
  {
    if r.id == root.id {
      SameId(tb, r, root);
    } else {
      var q :| q in tb.groups && q.id == r.parent.value && q.id < r.id && Descends(tb.groups, q, root.id);
      ParentHasSamePolicy(tb, r, q);
      DescendantsSharePolicy(tb, q, root);
    }
  }

  lemma {:induction false} PolicyRowsDescend(tb: Tables, r: GroupRow, root: GroupRow)
    requires Valid(tb) && r in tb.groups && root in tb.groups && root.parent.None? && r.policy == root.policy
    ensures Descends(tb.groups, r, root.id)
    decreases r.id
  {
    if r.parent.Some? {
      var q :| q in tb.groups && q.id == r.parent.value && q.policy == r.policy;
      ParentHasSamePolicy(tb, r, q);
      PolicyRowsDescend(tb, q, root);
    }
  }

  /** Cascading from the root deletes exactly the policy's group rows. */
  lemma CascadeIsPolicy(tb: Tables, root: GroupRow)
    requires Valid(tb) && root in tb.groups && root.parent.None?
    ensures CascadeIds(tb.groups, root.id) == PolicyIds(tb.groups, root.policy)
  {
    forall r | r in tb.groups
      ensures Descends(tb.groups, r, root.id) <==> r.policy == root.policy
    {
      if r.policy == root.policy {
        PolicyRowsDescend(tb, r, root);
      } else if Descends(tb.groups, r, root.id) {
        DescendantsSharePolicy(tb, r, root);
      }
    }
  }

  /** A policy with no root has no rows at all: there are no orphans. */
  lemma {:induction false} NoOrphans(tb: Tables, r: GroupRow)
    requires Valid(tb) && r in tb.groups
    ensures RootOf(tb.groups, r.policy).Some?
    decreases r.id
  {
    RootOfExact(tb, r.policy);
    if r.parent.Some? {
      var q :| q in tb.groups && q.id == r.parent.value && q.policy == r.policy;
      ParentHasSamePolicy(tb, r, q);
      NoOrphans(tb, q);
    }
  }

  /* ---------- Deleting and inserting keep the tables well formed ---------- */

  lemma DeletedRows(tb: Tables, policy: Id)
    requires Valid(tb)
    ensures var d := Delete(tb, PolicyIds(tb.groups, policy));
            && (forall r :: r in d.groups <==> r in tb.groups && r.policy != policy)
            && (forall c :: c in d.conditions <==> c in tb.conditions && HasGroup(d.groups, c))
  {
    var doomed := PolicyIds(tb.groups, policy);
    var d := Delete(tb, doomed);
    KeptGroups(tb.groups, doomed);
    KeptConditions(tb.conditions, doomed);
    forall r | r in tb.groups
      ensures r.id in doomed <==> r.policy == policy
    {
      if r.id in doomed {
        var q :| q in tb.groups && q.policy == policy && q.id == r.id;
        SameId(tb, r, q);
      }
    }
    forall c | c in tb.conditions
      ensures c.group !in doomed <==> HasGroup(d.groups, c)
    {
      var q :| q in tb.groups && q.id == c.group;
      if HasGroup(d.groups, c) {
        var p :| p in d.groups && p.id == c.group;
        SameId(tb, p, q);
      } else {
        assert q !in d.groups;
      }
    }
  }

  lemma DeleteKeepsValid(tb: Tables, policy: Id)
    requires Valid(tb)
    ensures Valid(Delete(tb, PolicyIds(tb.groups, policy)))
  {
    var d := Delete(tb, PolicyIds(tb.groups, policy));
    DeletedRows(tb, policy);
    KeptGroupsAscend(tb.groups, PolicyIds(tb.groups, policy));
    forall r | r in d.groups && r.parent.Some?
      ensures HasParent(d.groups, r)
    {
      assert HasParent(tb.groups, r);
      var q :| q in tb.groups && q.id == r.parent.value && q.policy == r.policy;
      assert q in d.groups;
    }
    assert forall r :: IsRoot(d.groups, r) ==> IsRoot(tb.groups, r);
  }

  lemma InsertedRows(tb: Tables, policy: Id, t: Tree)
    requires Ordered(tb)
    ensures Ordered(Insert(tb, policy, t))
    ensures var rows := GroupRows(tb.nextId, policy, None, 0, t);
            forall r :: r in rows ==> r.policy == policy && r.id >= tb.nextId && (r.parent.None? <==> r == rows[0])
    ensures ParentsPresent(GroupRows(tb.nextId, policy, None, 0, t))
  {
    var base := tb.nextId;
    var rows := GroupRows(base, policy, None, 0, t);
    RowsInRange(base, policy, None, 0, t);
    assert rows[0] == RootRow(base, policy, None, 0, t);
    forall r | r in rows
      ensures r.policy == policy && r.id >= base && (r.parent.None? <==> r == rows[0])
      ensures r.parent.Some? ==> HasParent(rows, r)
    {
      var i :| 0 <= i < |rows| && rows[i] == r;
      if i > 0 {
        assert rows[r.parent.value - base] in rows;
      }
    }
  }

  lemma InsertKeepsValid(tb: Tables, policy: Id, t: Tree)
    requires Valid(tb)
    requires forall r :: r in tb.groups ==> r.policy != policy
    ensures Valid(Insert(tb, policy, t))
  {
    var rows, leaves := GroupRows(tb.nextId, policy, None, 0, t), LeafRows(tb.nextId, t);
    var u := Insert(tb, policy, t);
    InsertedRows(tb, policy, t);
    forall r | r in u.groups && r.parent.Some?
      ensures HasParent(u.groups, r)
    {
      assert r in tb.groups ==> HasParent(tb.groups, r);
      assert r in rows ==> HasParent(rows, r);
    }
    assert forall r :: IsRoot(u.groups, r) ==> IsRoot(tb.groups, r) || r == rows[0];
    forall c | c in u.conditions
      ensures HasGroup(u.groups, c)
    {
      if c in tb.conditions {
        assert HasGroup(tb.groups, c);
      } else {
        RowsInRange(tb.nextId, policy, None, 0, t);
        LeavesInRange(tb.nextId, t);
        assert rows[c.group - tb.nextId] in u.groups;
      }
    }
  }

  /* ---------- Reading after an insertion or a deletion ---------- */

  /** The tree just inserted reads back as itself. */
  lemma InsertedReads(tb: Tables, policy: Id, t: Tree)
    requires Valid(tb)
    requires forall r :: r in tb.groups ==> r.policy != policy
    ensures Ordered(Insert(tb, policy, t))
    ensures ReadGroup(Insert(tb, policy, t), RootRow(tb.nextId, policy, None, 0, t)) == t
  {
    InsertKeepsValid(tb, policy, t);
    var u := Insert(tb, policy, t);
    var rows, leaves := GroupRows(tb.nextId, policy, None, 0, t), LeafRows(tb.nextId, t);
    forall g | tb.nextId <= g
      ensures ChildrenOf(u.groups, g) == ChildrenOf(rows, g)
      ensures ConditionsOf(u.conditions, g) == ConditionsOf(leaves, g)
    {
      ChildrenOfConcat(tb.groups, rows, g);
      ConditionsOfConcat(tb.conditions, leaves, g);
      NoChildren(tb.groups, g);
      NoConditions(tb.conditions, g);
    }
    ReadBack(u, tb.nextId, policy, None, 0, t);
  }

  /** Both tables answer the two queries alike for every group of the policy. */
  ghost predicate Agree(tb: Tables, u: Tables, policy: Id) {
    forall r :: r in tb.groups && r.policy == policy ==>
      && r in u.groups
      && SortedChildren(u, r.id) == SortedChildren(tb, r.id)
      && SortedConditions(u, r.id) == SortedConditions(tb, r.id)
  }

  lemma {:induction false} ReadsAgree(tb: Tables, u: Tables, row: GroupRow)
    requires Valid(tb) && Ordered(u) && row in tb.groups && Agree(tb, u, row.policy)
    ensures row.id < u.nextId && ReadGroup(u, row) == ReadGroup(tb, row)
    decreases tb.nextId - row.id
  {
    var rows := SortedChildren(tb, row.id);
    forall r | r in rows
      ensures r.policy == row.policy && row.id < r.id
    {
      ParentHasSamePolicy(tb, r, row);
    }
    ReadAllAgree(tb, u, row.id, row.policy, rows);
  }

  lemma {:induction false} ReadAllAgree(tb: Tables, u: Tables, above: Id, policy: Id, rows: seq<GroupRow>)
    requires Valid(tb) && Ordered(u) && above < tb.nextId && above < u.nextId && Agree(tb, u, policy)
    requires forall r :: r in rows ==> r in tb.groups && r in u.groups && r.policy == policy && above < r.id
    ensures ReadAll(u, above, rows) == ReadAll(tb, above, rows)
    decreases tb.nextId - above, |rows|
  {
    if rows != [] {
      ReadsAgree(tb, u, rows[0]);
      ReadAllAgree(tb, u, above, policy, rows[1..]);
    }
  }

  lemma DeleteAgrees(tb: Tables, policy: Id, other: Id)
    requires Valid(tb) && other != policy
    ensures Agree(tb, Delete(tb, PolicyIds(tb.groups, policy)), other)
  {
    var doomed := PolicyIds(tb.groups, policy);
    DeletedRows(tb, policy);
    KeptGroups(tb.groups, doomed);
    forall r | r in tb.groups && r.policy == other
      ensures ChildrenOf(KeepGroups(tb.groups, doomed), r.id) == ChildrenOf(tb.groups, r.id)
      ensures ConditionsOf(KeepConditions(tb.conditions, doomed), r.id) == ConditionsOf(tb.conditions, r.id)
    {
      forall c | c in tb.groups && c.parent == Some(r.id)
        ensures c.id !in doomed
      {
        ParentHasSamePolicy(tb, c, r);
      }
      ChildrenKept(tb.groups, doomed, r.id);
      ConditionsKept(tb.conditions, doomed, r.id);
    }
  }

  lemma InsertAgrees(tb: Tables, policy: Id, t: Tree, other: Id)
    requires Valid(tb) && other != policy
    ensures Agree(tb, Insert(tb, policy, t), other)
  {
    var rows, leaves := GroupRows(tb.nextId, policy, None, 0, t), LeafRows(tb.nextId, t);
    forall r | r in tb.groups && r.policy == other
      ensures ChildrenOf(tb.groups + rows, r.id) == ChildrenOf(tb.groups, r.id)
      ensures ConditionsOf(tb.conditions + leaves, r.id) == ConditionsOf(tb.conditions, r.id)
    {
      var i :| 0 <= i < |tb.groups| && tb.groups[i] == r;
      StrangerHasNoChildren(tb.nextId, policy, None, 0, t, r.id);
      LeavesInRange(tb.nextId, t);
      NoConditions(leaves, r.id);
      ChildrenOfConcat(tb.groups, rows, r.id);
      ConditionsOfConcat(tb.conditions, leaves, r.id);
    }
  }
}
