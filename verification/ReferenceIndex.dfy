/**
 The reverse lookup behind the Groups page: which policies target each user group,
 through the flat column or through a condition anywhere in their tree.
 */
module ReferenceIndex {
  import opened Wrappers
  import opened ConditionTrees
  import opened ConditionRows
  import opened ConditionTables
  import opened ConditionDeletion
  import opened ConditionRequests
  import opened ConditionEngine

  predicate TargetsGroup(l: Leaf, g: Id) {
    l.objectType == UserGroup && l.ref == Some(g)
  }

  /** Some leaf, at whatever depth, targets the group. */
  predicate Refers(t: Tree, g: Id)
    decreases t, 0
  {
    (exists i :: 0 <= i < |t.conditions| && TargetsGroup(t.conditions[i], g)) || SomeRefers(t.children, g)
  }

  predicate SomeRefers(ts: seq<Tree>, g: Id)
    decreases ts, 1
  {
    ts != [] && (Refers(ts[0], g) || SomeRefers(ts[1..], g))
  }

  /** What the page should list: the forward references of a policy. */
  ghost predicate Targets(s: State, policy: Id, g: Id)
    requires ValidState(s) && policy in s.policies
  {
    var scope := Meaning(s)[policy];
    scope.legacy.group == Some(g) || (scope.tree.Some? && Refers(scope.tree.value, g))
  }

  /** The reference decides something: the tree if there is one, and the flat column otherwise. */
  ghost predicate InForce(s: State, policy: Id, g: Id)
    requires ValidState(s) && policy in s.policies
  {
    var scope := Meaning(s)[policy];
    if scope.tree.Some? then Refers(scope.tree.value, g) else scope.legacy.group == Some(g)
  }

  /** The flat column still names the group, although the policy has a tree, which does not. */
  ghost predicate LeftOver(s: State, policy: Id, g: Id)
    requires ValidState(s) && policy in s.policies
  {
    var scope := Meaning(s)[policy];
    scope.legacy.group == Some(g) && scope.tree.Some? && !Refers(scope.tree.value, g)
  }

  /** What the joined query sees: a condition in any group stamped with the policy. */
  ghost predicate JoinedTo(tb: Tables, policy: Id, g: Id) {
    exists c :: c in tb.conditions && TargetsGroup(c.leaf, g) && InPolicy(tb.groups, policy, c)
  }

  ghost predicate InPolicy(groups: seq<GroupRow>, policy: Id, c: ConditionRow) {
    exists r :: r in groups && r.policy == policy && r.id == c.group
  }

  /* ---------- Rows and tree refer alike ---------- */

  ghost predicate InSubtree(tb: Tables, row: GroupRow, c: ConditionRow) {
    exists r :: r in tb.groups && r.id == c.group && Descends(tb.groups, r, row.id)
  }

  ghost predicate SubtreeRefers(tb: Tables, row: GroupRow, g: Id) {
    exists c :: c in tb.conditions && TargetsGroup(c.leaf, g) && InSubtree(tb, row, c)
  }

  /** Descending from a row is being it, or descending from one of its children. */
  lemma {:induction false} DescendsByChild(tb: Tables, r: GroupRow, row: GroupRow)
    requires Valid(tb) && r in tb.groups && row in tb.groups
    ensures Descends(tb.groups, r, row.id) <==>
              r == row || exists k :: k in tb.groups && k.parent == Some(row.id) && Descends(tb.groups, r, k.id)
    decreases r.id
  {
    if r.id == row.id {
      SameId(tb, r, row);
    } else if r.parent.Some? {
      var q :| q in tb.groups && q.id == r.parent.value && q.policy == r.policy;
      ParentHasSamePolicy(tb, r, q);
      DescendsByChild(tb, q, row);
      forall p | p in tb.groups && p.id == r.parent.value
        ensures p == q
      {
        SameId(tb, p, q);
      }
      if q == row {
        assert Descends(tb.groups, r, r.id);
      }
      if k :| k in tb.groups && k.parent == Some(row.id) && Descends(tb.groups, r, k.id) {
        if k.id == r.id {
          SameId(tb, k, r);
          SameId(tb, q, row);
        }
      }
    }
  }

  lemma {:induction false} OwnLeaves(tb: Tables, row: GroupRow, g: Id)
    ensures (exists i :: 0 <= i < |LeavesOf(SortedConditions(tb, row.id))|
                         && TargetsGroup(LeavesOf(SortedConditions(tb, row.id))[i], g))
            <==> OwnRefers(tb, row, g)
  {
    var found, rows := ConditionsOf(tb.conditions, row.id), SortedConditions(tb, row.id);
    SortKeepsRows(ConditionOrder, found);
    ConditionsAreRows(tb.conditions, row.id);
    assert forall c :: c in rows <==> c in multiset(rows);
    assert forall c :: c in found <==> c in multiset(found);
    if c :| c in tb.conditions && c.group == row.id && TargetsGroup(c.leaf, g) {
      assert c in found && c in rows;
      var i :| 0 <= i < |rows| && rows[i] == c;
      assert TargetsGroup(LeavesOf(rows)[i], g);
    }
    if i :| 0 <= i < |rows| && TargetsGroup(LeavesOf(rows)[i], g) {
      assert rows[i] in rows && rows[i] in found;
    }
  }

  ghost predicate OwnRefers(tb: Tables, row: GroupRow, g: Id) {
    exists c :: c in tb.conditions && c.group == row.id && TargetsGroup(c.leaf, g)
  }

  ghost predicate AnyRefers(tb: Tables, rows: seq<GroupRow>, g: Id) {
    exists k :: k in rows && SubtreeRefers(tb, k, g)
  }

  /** The references below a row are its own and those below its children. */
  lemma SubtreeSplit(tb: Tables, row: GroupRow, g: Id)
    requires Valid(tb) && row in tb.groups
    ensures SubtreeRefers(tb, row, g) <==> OwnRefers(tb, row, g) || AnyRefers(tb, SortedChildren(tb, row.id), g)
  {
    if SubtreeRefers(tb, row, g) {
      var c :| c in tb.conditions && TargetsGroup(c.leaf, g) && InSubtree(tb, row, c);
      var r :| r in tb.groups && r.id == c.group && Descends(tb.groups, r, row.id);
      DescendsByChild(tb, r, row);
      if r != row {
        var k :| k in tb.groups && k.parent == Some(row.id) && Descends(tb.groups, r, k.id);
        assert InSubtree(tb, k, c) && SubtreeRefers(tb, k, g) && k in SortedChildren(tb, row.id);
      }
    }
    if OwnRefers(tb, row, g) {
      var c :| c in tb.conditions && c.group == row.id && TargetsGroup(c.leaf, g);
      assert Descends(tb.groups, row, row.id) && InSubtree(tb, row, c);
    }
    if AnyRefers(tb, SortedChildren(tb, row.id), g) {
      var k :| k in SortedChildren(tb, row.id) && SubtreeRefers(tb, k, g);
      var c :| c in tb.conditions && TargetsGroup(c.leaf, g) && InSubtree(tb, k, c);
      var r :| r in tb.groups && r.id == c.group && Descends(tb.groups, r, k.id);
      DescendsByChild(tb, r, row);
      assert InSubtree(tb, row, c);
    }
  }

  /** A subtree read from the rows refers to a group exactly when some condition row below it does. */
  lemma {:induction false} ReadRefers(tb: Tables, row: GroupRow, g: Id)
    requires Valid(tb) && row in tb.groups
    ensures Refers(ReadGroup(tb, row), g) <==> SubtreeRefers(tb, row, g)
    decreases tb.nextId - row.id
  {
    SubtreeSplit(tb, row, g);
    OwnLeaves(tb, row, g);
    ReadAllRefers(tb, row.id, SortedChildren(tb, row.id), g);
  }

  lemma {:induction false} ReadAllRefers(tb: Tables, above: Id, rows: seq<GroupRow>, g: Id)
    requires Valid(tb) && above < tb.nextId
    requires forall r :: r in rows ==> r in tb.groups && above < r.id
    ensures SomeRefers(ReadAll(tb, above, rows), g) <==> AnyRefers(tb, rows, g)
    decreases tb.nextId - above, |rows|
  {
    if rows != [] {
      ReadRefers(tb, rows[0], g);
      ReadAllRefers(tb, above, rows[1..], g);
      AnyRefersCons(tb, rows, g);
    }
  }

  lemma AnyRefersCons(tb: Tables, rows: seq<GroupRow>, g: Id)
    requires rows != []
    ensures AnyRefers(tb, rows, g) <==> SubtreeRefers(tb, rows[0], g) || AnyRefers(tb, rows[1..], g)
  {
  }

  /** The join over stamped policy ids sees exactly the references in the policy's tree. */
  lemma JoinFindsTree(s: State, policy: Id, g: Id)
    requires ValidState(s) && policy in s.policies
    ensures JoinedTo(s.tb, policy, g) <==>
              Meaning(s)[policy].tree.Some? && Refers(Meaning(s)[policy].tree.value, g)
  {
    var tb := s.tb;
    RootOfFinds(tb.groups, policy);
    match RootOf(tb.groups, policy)
    case Some(root) =>
      ReadRefers(tb, root, g);
      forall c | c in tb.conditions
        ensures InPolicy(tb.groups, policy, c) <==> InSubtree(tb, root, c)
      {
        forall r | r in tb.groups && r.id == c.group
          ensures r.policy == policy <==> Descends(tb.groups, r, root.id)
        {
          if r.policy == policy {
            PolicyRowsDescend(tb, r, root);
          } else if Descends(tb.groups, r, root.id) {
            DescendantsSharePolicy(tb, r, root);
          }
        }
      }
    case None =>
      forall r | r in tb.groups
        ensures r.policy != policy
      {
        NoOrphans(tb, r);
      }
  }

  /* ---------- The lookup ---------- */

  datatype JoinRow = JoinRow(name: string, group: Id)

  /** `Policy JOIN PolicyConditionGroup JOIN PolicyCondition`, user-group conditions only. */
  method TreeRows(s: State, listing: seq<Id>) returns (rows: seq<JoinRow>)
    requires forall p :: p in listing ==> p in s.policies
    ensures forall n: string, g: Id :: JoinRow(n, g) in rows <==>
              exists p :: p in listing && s.policies[p].name == n && JoinedTo(s.tb, p, g)
  {
    rows := [];
    for i := 0 to |listing|
      invariant forall n: string, g: Id :: JoinRow(n, g) in rows <==>
                  exists p :: p in listing[..i] && s.policies[p].name == n && JoinedTo(s.tb, p, g)
    {
      var p := listing[i];
      var mine := PolicyRows(s.tb, s.policies[p].name, p);
      assert listing[..i + 1] == listing[..i] + [p];
      rows := rows + mine;
    }
    assert listing[..|listing|] == listing;
  }

  method PolicyRows(tb: Tables, name: string, policy: Id) returns (rows: seq<JoinRow>)
    ensures forall n: string, g: Id :: JoinRow(n, g) in rows <==> n == name && JoinedTo(tb, policy, g)
  {
    rows := [];
    for i := 0 to |tb.conditions|
      invariant forall n: string, g: Id :: JoinRow(n, g) in rows <==>
                  n == name && exists c ::
                    c in tb.conditions[..i] && TargetsGroup(c.leaf, g) && InPolicy(tb.groups, policy, c)
    {
      var c := tb.conditions[i];
      assert tb.conditions[..i + 1] == tb.conditions[..i] + [c];
      if c.leaf.objectType == UserGroup && c.leaf.ref.Some? && exists r ::
           r in tb.groups && r.policy == policy && r.id == c.group {
        rows := rows + [JoinRow(name, c.leaf.ref.value)];
        assert TargetsGroup(c.leaf, c.leaf.ref.value) && InPolicy(tb.groups, policy, c);
      }
    }
    assert tb.conditions[..|tb.conditions|] == tb.conditions;
  }

  ghost predicate FlatLists(s: State, listed: seq<Id>, g: Id, name: string)
    requires forall p :: p in listed ==> p in s.policies
  {
    exists p :: p in listed && s.policies[p].name == name && s.policies[p].legacy.group == Some(g)
  }

  ghost predicate Lists(index: map<Id, seq<string>>, g: Id, name: string) {
    g in index && name in index[g]
  }

  /** Appends a name to a group's list, creating the list if need be. */
  function Listed(index: map<Id, seq<string>>, g: Id, name: string): (r: map<Id, seq<string>>)
    ensures forall h: Id, n: string :: Lists(r, h, n) <==> Lists(index, h, n) || (h == g && n == name)
    ensures forall h :: h in r && h != g ==> h in index && r[h] == index[h]
  {
    index[g := (if g in index then index[g] else []) + [name]]
  }

  lemma ListedOnce(index: map<Id, seq<string>>, g: Id, name: string)
    requires (forall h :: h in index ==> Distinct(index[h])) && !Lists(index, g, name)
    ensures forall h :: h in Listed(index, g, name) ==> Distinct(Listed(index, g, name)[h])
  {
  }

  /** The flat column: one entry per policy that sets it. */
  method FlatNames(s: State, listing: seq<Id>) returns (result: map<Id, seq<string>>)
    requires ValidState(s)
    requires forall p :: p in listing ==> p in s.policies
    requires Distinct(listing)
    ensures forall g: Id, n: string :: Lists(result, g, n) <==> FlatLists(s, listing, g, n)
    ensures forall g :: g in result ==> Distinct(result[g])
  {
    result := map[];
    for i := 0 to |listing|
      invariant forall g: Id, n: string :: Lists(result, g, n) <==> FlatLists(s, listing[..i], g, n)
      invariant forall g :: g in result ==> Distinct(result[g])
    {
      var p := listing[i];
      FlatStep(s, listing, i);
      if s.policies[p].legacy.group.Some? {
        var g, name := s.policies[p].legacy.group.value, s.policies[p].name;
        ListedOnce(result, g, name);
        result := Listed(result, g, name);
      }
    }
    assert listing[..|listing|] == listing;
  }

  lemma FlatStep(s: State, listing: seq<Id>, i: nat)
    requires ValidState(s) && i < |listing|
    requires forall p :: p in listing ==> p in s.policies
    requires Distinct(listing)
    ensures var row := s.policies[listing[i]];
            && (forall g: Id, n: string :: FlatLists(s, listing[..i + 1], g, n) <==>
                  FlatLists(s, listing[..i], g, n) || (row.legacy.group == Some(g) && row.name == n))
            && (forall g: Id :: !FlatLists(s, listing[..i], g, row.name))
  {
    var row := s.policies[listing[i]];
    forall g: Id, n: string
      ensures FlatLists(s, listing[..i + 1], g, n) <==>
                FlatLists(s, listing[..i], g, n) || (row.legacy.group == Some(g) && row.name == n)
    {
      FlatAt(s, listing, i, g, n);
    }
    forall g: Id ensures !FlatLists(s, listing[..i], g, row.name) {
      FlatFresh(s, listing, i, g);
    }
  }

  lemma FlatAt(s: State, listing: seq<Id>, i: nat, g: Id, n: string)
    requires i < |listing|
    requires forall p :: p in listing ==> p in s.policies
    ensures var row := s.policies[listing[i]];
            FlatLists(s, listing[..i + 1], g, n) <==>
              FlatLists(s, listing[..i], g, n) || (row.legacy.group == Some(g) && row.name == n)
  {
    assert listing[..i + 1] == listing[..i] + [listing[i]];
    assert listing[i] in listing[..i + 1];
    forall p | p in listing[..i] ensures p in listing[..i + 1] {
    }
  }

  lemma FlatFresh(s: State, listing: seq<Id>, i: nat, g: Id)
    requires ValidState(s) && i < |listing| && Distinct(listing)
    requires forall p :: p in listing ==> p in s.policies
    ensures !FlatLists(s, listing[..i], g, s.policies[listing[i]].name)
  {
    forall p | p in listing[..i] ensures s.policies[p].name != s.policies[listing[i]].name {
      assert p != listing[i];
    }
  }

  /** Lists every policy once under every group it targets, and under no other. */
  method ReferencingPolicyNames(s: State, listing: seq<Id>) returns (result: map<Id, seq<string>>)
    requires ValidState(s)
    requires forall p :: p in listing <==> p in s.policies
    requires Distinct(listing)
    ensures forall g: Id, n: string :: Lists(result, g, n) <==>
              exists p :: p in s.policies && s.policies[p].name == n && Targets(s, p, g)
    ensures forall g :: g in result ==> Distinct(result[g])
  {
    result := FlatNames(s, listing);
    var rows := TreeRows(s, listing);
    for i := 0 to |rows|
      invariant forall g: Id, n: string ::
                  Lists(result, g, n) <==> FlatLists(s, listing, g, n) || JoinRow(n, g) in rows[..i]
      invariant forall g :: g in result ==> Distinct(result[g])
    {
      var g, name := rows[i].group, rows[i].name;
      assert rows[..i + 1] == rows[..i] + [rows[i]] && rows[i] == JoinRow(name, g);
      if !(g in result && name in result[g]) {
        ListedOnce(result, g, name);
        result := Listed(result, g, name);
      }
    }
    assert rows[..|rows|] == rows;
    BothPathsAreTargets(s, listing, rows);
  }

  lemma BothPathsAreTargets(s: State, listing: seq<Id>, rows: seq<JoinRow>)
    requires ValidState(s)
    requires forall p :: p in listing <==> p in s.policies
    requires forall n: string, g: Id :: JoinRow(n, g) in rows <==>
               exists p :: p in listing && s.policies[p].name == n && JoinedTo(s.tb, p, g)
    ensures forall g: Id, n: string :: FlatLists(s, listing, g, n) || JoinRow(n, g) in rows <==>
              exists p :: p in s.policies && s.policies[p].name == n && Targets(s, p, g)
  {
    forall g: Id, p | p in s.policies
      ensures s.policies[p].legacy.group == Some(g) || JoinedTo(s.tb, p, g) <==> Targets(s, p, g)
    {
      JoinFindsTree(s, p, g);
    }
    forall g: Id, n: string
      ensures FlatLists(s, listing, g, n) || JoinRow(n, g) in rows <==>
                exists p :: p in s.policies && s.policies[p].name == n && Targets(s, p, g)
    {
      if FlatLists(s, listing, g, n) {
        var p :| p in listing && s.policies[p].name == n && s.policies[p].legacy.group == Some(g);
        assert Targets(s, p, g);
      }
      if JoinRow(n, g) in rows {
        var p :| p in listing && s.policies[p].name == n && JoinedTo(s.tb, p, g);
        assert Targets(s, p, g);
      }
      if p :| p in s.policies && s.policies[p].name == n && Targets(s, p, g) {
        assert p in listing;
        assert s.policies[p].legacy.group == Some(g) || JoinedTo(s.tb, p, g);
      }
    }
  }

  /* ---------- What the list says of a group ---------- */

  /** The list omits no group in force, and names one that is not exactly where it is left over in the flat column. */
  lemma ListedExactly(s: State, index: map<Id, seq<string>>, p: Id, g: Id)
    requires ValidState(s) && p in s.policies
    requires forall n: string :: Lists(index, g, n) <==>
               exists q :: q in s.policies && s.policies[q].name == n && Targets(s, q, g)
    ensures Lists(index, g, s.policies[p].name) <==> InForce(s, p, g) || LeftOver(s, p, g)
    ensures !(InForce(s, p, g) && LeftOver(s, p, g))
  {
    if q :| q in s.policies && s.policies[q].name == s.policies[p].name && Targets(s, q, g) {
      assert q == p;
    }
  }

  /** Saving a tree leaves the flat column as it is: left over exactly if the tree does not refer to its group. */
  lemma SaveTreeLeavesOver(s: State, p: Id, dir: Directory, payload: GroupInput, g: Id)
    requires ValidState(s) && p in s.policies && Accepted(dir, payload)
    ensures var n := Step(s, SaveTree(p, dir, payload));
            && ValidState(n) && p in n.policies
            && (LeftOver(n, p, g) <==> s.policies[p].legacy.group == Some(g) && !Refers(Displayed(dir, payload), g))
  {
    var q := SaveTree(p, dir, payload);
    StepRefines(s, q);
    var n := Step(s, q);
    assert Meaning(n).Keys == n.policies.Keys && Meaning(s).Keys == s.policies.Keys;
    assert p in Meaning(n);
  }

  function InGroup(ctx: Context, g: Id): Context
    requires ctx.user.Some?
  {
    ctx.(user := Some(ctx.user.value.(group := Some(g))))
  }

  /** Groups that are not in force for a policy are alike to it: it decides their members in the same way. */
  lemma OnlyInForceDecides(inside: Membership, s: State, p: Id, ctx: Context, g: Id, h: Id)
    requires ValidState(s) && p in s.policies && ctx.user.Some? && !InForce(s, p, g) && !InForce(s, p, h)
    ensures PolicyMatches(inside, s, p, InGroup(ctx, g)) == PolicyMatches(inside, s, p, InGroup(ctx, h))
  {
    PolicyMatchesMeaning(inside, s, p, InGroup(ctx, g));
    PolicyMatchesMeaning(inside, s, p, InGroup(ctx, h));
    if Meaning(s)[p].tree.Some? {
      UnreferredAlike(inside, Meaning(s)[p].tree.value, ctx, g, h);
    }
  }

  lemma {:induction false} UnreferredAlike(inside: Membership, t: Tree, ctx: Context, g: Id, h: Id)
    requires ctx.user.Some? && !Refers(t, g) && !Refers(t, h)
    ensures EvalTree(inside, t, InGroup(ctx, g)) == EvalTree(inside, t, InGroup(ctx, h))
    decreases t, 0
  {
    UnreferredAllAlike(inside, t.children, ctx, g, h);
    assert EvalLeaves(inside, t.conditions, InGroup(ctx, g)) == EvalLeaves(inside, t.conditions, InGroup(ctx, h)) by {
      forall i | 0 <= i < |t.conditions|
        ensures EvalLeaf(inside, t.conditions[i], InGroup(ctx, g)) == EvalLeaf(inside, t.conditions[i], InGroup(ctx, h))
      {
        UntargetedAlike(inside, t.conditions[i], ctx, g, h);
      }
    }
  }

  lemma {:induction false} UnreferredAllAlike(inside: Membership, ts: seq<Tree>, ctx: Context, g: Id, h: Id)
    requires ctx.user.Some? && !SomeRefers(ts, g) && !SomeRefers(ts, h)
    ensures EvalTrees(inside, ts, InGroup(ctx, g)) == EvalTrees(inside, ts, InGroup(ctx, h))
    decreases ts, 1
  {
    if ts != [] {
      UnreferredAlike(inside, ts[0], ctx, g, h);
      UnreferredAllAlike(inside, ts[1..], ctx, g, h);
    }
  }

  lemma UntargetedAlike(inside: Membership, leaf: Leaf, ctx: Context, g: Id, h: Id)
    requires ctx.user.Some? && !TargetsGroup(leaf, g) && !TargetsGroup(leaf, h)
    ensures EvalLeaf(inside, leaf, InGroup(ctx, g)) == EvalLeaf(inside, leaf, InGroup(ctx, h))
  {
  }
}
