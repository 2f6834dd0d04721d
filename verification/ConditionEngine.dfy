/**
 Evaluating conditions.  The engine walks the stored rows; its verdict is that of the
 tree the rows mean.  The migration of the legacy columns keeps every verdict.  Where
 a group can come out true although nothing is known about the request is stated
 exactly.
 */
module ConditionEngine {
  import opened Wrappers
  import opened ConditionTrees
  import opened ConditionRows
  import opened ConditionTables
  import opened ConditionDeletion
  import opened ConditionRequests

  datatype UserContext = UserContext(id: Id, group: Option<Id>)

  datatype DeviceContext = DeviceContext(id: Id, group: Option<Id>)

  datatype Context = Context(user: Option<UserContext>, device: Option<DeviceContext>, sourceIp: Option<string>)

  const EMPTY_CONTEXT := Context(None, None, None)

  /** `inside(network, address)`: both texts parse and the address is in the network. */
  type Membership = (string, string) -> bool

  function Actual(t: ObjectType, ctx: Context): Option<Id>
    requires t != SourceIp
  {
    match t
    case User => if ctx.user.Some? then Some(ctx.user.value.id) else None
    case UserGroup => if ctx.user.Some? then ctx.user.value.group else None
    case Device => if ctx.device.Some? then Some(ctx.device.value.id) else None
    case DeviceGroup => if ctx.device.Some? then ctx.device.value.group else None
  }

  predicate EvalLeaf(inside: Membership, leaf: Leaf, ctx: Context) {
    if leaf.objectType != SourceIp then
      var actual := Actual(leaf.objectType, ctx);
      if leaf.operator == "equal" then actual.Some? && leaf.ref.Some? && actual == leaf.ref
      else if leaf.operator == "not_equal" then actual.Some? && leaf.ref.Some? && actual != leaf.ref
      else false
    else if leaf.operator == "equal" then ctx.sourceIp == Some(leaf.value)
    else if leaf.operator == "not_equal" then ctx.sourceIp.Some? && ctx.sourceIp != Some(leaf.value)
    else if leaf.operator == "is_in_cidr" then ctx.sourceIp.Some? && inside(leaf.value, ctx.sourceIp.value)
    else if leaf.operator == "is_not_in_cidr" then ctx.sourceIp.Some? && !inside(leaf.value, ctx.sourceIp.value)
    else false
  }

  /** A group without results fails; NOT negates the conjunction. */
  predicate Combine(op: Operator, results: seq<bool>) {
    results != [] &&
    match op
    case AND => false !in results
    case OR => true in results
    case NOT => false in results
  }

  function EvalLeaves(inside: Membership, leaves: seq<Leaf>, ctx: Context): (r: seq<bool>)
    ensures |r| == |leaves|
  {
    seq(|leaves|, i requires 0 <= i < |leaves| => EvalLeaf(inside, leaves[i], ctx))
  }

  /** The verdict of a tree. */
  predicate EvalTree(inside: Membership, t: Tree, ctx: Context)
    decreases t, 0
  {
    Combine(t.op, EvalLeaves(inside, t.conditions, ctx) + EvalTrees(inside, t.children, ctx))
  }

  function EvalTrees(inside: Membership, ts: seq<Tree>, ctx: Context): seq<bool>
    decreases ts, 1
  {
    if ts == [] then [] else [EvalTree(inside, ts[0], ctx)] + EvalTrees(inside, ts[1..], ctx)
  }

  /** The engine: query the rows of a group, evaluate them, recurse, combine. */
  predicate EvalGroup(inside: Membership, tb: Tables, row: GroupRow, ctx: Context)
    requires Ordered(tb) && row.id < tb.nextId
    decreases tb.nextId - row.id
  {
    Combine(row.op, EvalLeaves(inside, LeavesOf(SortedConditions(tb, row.id)), ctx)
                    + EvalGroups(inside, tb, row.id, SortedChildren(tb, row.id), ctx))
  }

  function EvalGroups(inside: Membership, tb: Tables, above: Id, rows: seq<GroupRow>, ctx: Context): seq<bool>
    requires Ordered(tb) && above < tb.nextId
    requires forall r :: r in rows ==> r in tb.groups && above < r.id
    decreases tb.nextId - above, |rows|
  {
    if rows == [] then []
    else [EvalGroup(inside, tb, rows[0], ctx)] + EvalGroups(inside, tb, above, rows[1..], ctx)
  }

  /** The engine's verdict on rows is the verdict of the tree they read as. */
  lemma {:induction false} EngineFollowsTree(inside: Membership, tb: Tables, row: GroupRow, ctx: Context)
    requires Ordered(tb) && row.id < tb.nextId
    ensures EvalGroup(inside, tb, row, ctx) == EvalTree(inside, ReadGroup(tb, row), ctx)
    decreases tb.nextId - row.id
  {
    EngineFollowsTrees(inside, tb, row.id, SortedChildren(tb, row.id), ctx);
  }

  lemma {:induction false} EngineFollowsTrees(inside: Membership, tb: Tables, above: Id, rows: seq<GroupRow>,
      ctx: Context)
    requires Ordered(tb) && above < tb.nextId
    requires forall r :: r in rows ==> r in tb.groups && above < r.id
    ensures EvalGroups(inside, tb, above, rows, ctx) == EvalTrees(inside, ReadAll(tb, above, rows), ctx)
    decreases tb.nextId - above, |rows|
  {
    if rows != [] {
      EngineFollowsTree(inside, tb, rows[0], ctx);
      EngineFollowsTrees(inside, tb, above, rows[1..], ctx);
    }
  }

  /* ---------- What conditions and groups decide ---------- */

  /** The request comes from this user or a member of this group, or concerns this device or a device of this group. */
  ghost predicate Carries(ctx: Context, t: ObjectType, id: Id) {
    match t
    case User => exists u: UserContext :: ctx.user == Some(u) && u.id == id
    case UserGroup => exists u: UserContext :: ctx.user == Some(u) && u.group == Some(id)
    case Device => exists d: DeviceContext :: ctx.device == Some(d) && d.id == id
    case DeviceGroup => exists d: DeviceContext :: ctx.device == Some(d) && d.group == Some(id)
    case SourceIp => false
  }

  /** A condition on a row: `equal` matches exactly the requests that carry that row, `not_equal` exactly those that
      carry another one; without a reference nothing matches, and no other operator does. */
  lemma ReferenceVerdict(inside: Membership, leaf: Leaf, ctx: Context)
    requires leaf.objectType != SourceIp
    ensures leaf.operator == "equal" ==>
              (EvalLeaf(inside, leaf, ctx) <==> exists id :: leaf.ref == Some(id) && Carries(ctx, leaf.objectType, id))
    ensures leaf.operator == "not_equal" ==>
              (EvalLeaf(inside, leaf, ctx) <==>
                 exists id, other :: leaf.ref == Some(id) && other != id && Carries(ctx, leaf.objectType, other))
    ensures leaf.operator != "equal" && leaf.operator != "not_equal" ==> !EvalLeaf(inside, leaf, ctx)
  {
    var actual := Actual(leaf.objectType, ctx);
    CarriesActual(ctx, leaf.objectType);
    assert "equal" != "not_equal" by {
      assert |"equal"| != |"not_equal"|;
    }
    if actual.Some? && leaf.ref.Some? {
      assert Carries(ctx, leaf.objectType, actual.value);
    }
  }

  lemma CarriesActual(ctx: Context, t: ObjectType)
    requires t != SourceIp
    ensures forall id: Id :: Carries(ctx, t, id) <==> Actual(t, ctx) == Some(id)
  {
  }

  /** A condition on the source: `equal` and `not_equal` compare the texts, and the two others ask whether the address
      lies in the network; a request without a source matches none of them. */
  lemma SourceVerdict(inside: Membership, leaf: Leaf, ctx: Context)
    requires leaf.objectType == SourceIp
    ensures ctx.sourceIp == None ==> !EvalLeaf(inside, leaf, ctx)
    ensures forall a :: ctx.sourceIp == Some(a) ==>
              && (leaf.operator == "equal" ==> (EvalLeaf(inside, leaf, ctx) <==> a == leaf.value))
              && (leaf.operator == "not_equal" ==> (EvalLeaf(inside, leaf, ctx) <==> a != leaf.value))
              && (leaf.operator == "is_in_cidr" ==> (EvalLeaf(inside, leaf, ctx) <==> inside(leaf.value, a)))
              && (leaf.operator == "is_not_in_cidr" ==> (EvalLeaf(inside, leaf, ctx) <==> !inside(leaf.value, a)))
    ensures leaf.operator !in ["equal", "not_equal", "is_in_cidr", "is_not_in_cidr"] ==> !EvalLeaf(inside, leaf, ctx)
  {
    OperatorNames();
    var names := ["equal", "not_equal", "is_in_cidr", "is_not_in_cidr"];
    assert names[0] in names && names[1] in names && names[2] in names && names[3] in names;
    assert names[0] != names[1] && names[0] != names[2] && names[0] != names[3];
    assert names[1] != names[2] && names[1] != names[3] && names[2] != names[3];
  }

  /** Every condition of a group, and every subgroup, is met. */
  ghost predicate AllMet(inside: Membership, t: Tree, ctx: Context) {
    && (forall i :: 0 <= i < |t.conditions| ==> EvalLeaf(inside, t.conditions[i], ctx))
    && (forall i :: 0 <= i < |t.children| ==> EvalTree(inside, t.children[i], ctx))
  }

  ghost predicate SomeMet(inside: Membership, t: Tree, ctx: Context) {
    || (exists i :: 0 <= i < |t.conditions| && EvalLeaf(inside, t.conditions[i], ctx))
    || (exists i :: 0 <= i < |t.children| && EvalTree(inside, t.children[i], ctx))
  }

  /** A group that is not empty: AND matches exactly if all it holds is met, OR if something is, NOT if not all is. */
  lemma GroupVerdict(inside: Membership, t: Tree, ctx: Context)
    ensures t.conditions == [] && t.children == [] ==> !EvalTree(inside, t, ctx)
    ensures t.conditions != [] || t.children != [] ==>
              && (t.op == AND ==> (EvalTree(inside, t, ctx) <==> AllMet(inside, t, ctx)))
              && (t.op == OR ==> (EvalTree(inside, t, ctx) <==> SomeMet(inside, t, ctx)))
              && (t.op == NOT ==> (EvalTree(inside, t, ctx) <==> !AllMet(inside, t, ctx)))
  {
    var own, below := EvalLeaves(inside, t.conditions, ctx), EvalTrees(inside, t.children, ctx);
    EvalTreesAt(inside, t.children, ctx);
    assert forall b :: b in own + below <==> b in own || b in below;
    assert false in own <==> exists i :: 0 <= i < |t.conditions| && !EvalLeaf(inside, t.conditions[i], ctx) by {
      assert forall i :: 0 <= i < |own| ==> own[i] == EvalLeaf(inside, t.conditions[i], ctx);
    }
    assert true in own <==> exists i :: 0 <= i < |t.conditions| && EvalLeaf(inside, t.conditions[i], ctx) by {
      assert forall i :: 0 <= i < |own| ==> own[i] == EvalLeaf(inside, t.conditions[i], ctx);
    }
  }

  lemma {:induction false} EvalTreesAt(inside: Membership, ts: seq<Tree>, ctx: Context)
    ensures |EvalTrees(inside, ts, ctx)| == |ts|
    ensures forall i :: 0 <= i < |ts| ==> EvalTrees(inside, ts, ctx)[i] == EvalTree(inside, ts[i], ctx)
  {
    if ts != [] {
      EvalTreesAt(inside, ts[1..], ctx);
    }
  }

  /* ---------- Policies ---------- */

  /** The legacy columns: every one that is set must equal what the request carries. */
  predicate LegacyMatches(l: Legacy, group: Option<Id>, device: Option<Id>, deviceGroup: Option<Id>) {
    && (l.group.Some? ==> group == l.group)
    && (l.device.Some? ==> device == l.device)
    && (l.deviceGroup.Some? ==> deviceGroup == l.deviceGroup)
  }

  /** A policy with a tree is decided by it alone, one without by its columns. */
  predicate ScopeMatches(inside: Membership, s: Scope, ctx: Context) {
    match s.tree
    case Some(t) => EvalTree(inside, t, ctx)
    case None => LegacyMatches(s.legacy, Actual(UserGroup, ctx), Actual(Device, ctx), Actual(DeviceGroup, ctx))
  }

  /** Without a tree, a policy matches exactly the requests that carry every row its columns name. */
  lemma ColumnsVerdict(inside: Membership, s: Scope, ctx: Context)
    requires s.tree == None
    ensures ScopeMatches(inside, s, ctx) <==>
            && (forall g :: s.legacy.group == Some(g) ==> Carries(ctx, UserGroup, g))
            && (forall d :: s.legacy.device == Some(d) ==> Carries(ctx, Device, d))
            && (forall g :: s.legacy.deviceGroup == Some(g) ==> Carries(ctx, DeviceGroup, g))
  {
    CarriesActual(ctx, UserGroup);
    CarriesActual(ctx, Device);
    CarriesActual(ctx, DeviceGroup);
  }

  /** The same switch on rows. */
  predicate PolicyMatches(inside: Membership, s: State, policy: Id, ctx: Context)
    requires Valid(s.tb) && policy in s.policies
  {
    RootOfFinds(s.tb.groups, policy);
    match RootOf(s.tb.groups, policy)
    case Some(r) => EvalGroup(inside, s.tb, r, ctx)
    case None => LegacyMatches(s.policies[policy].legacy, Actual(UserGroup, ctx), Actual(Device, ctx),
        Actual(DeviceGroup, ctx))
  }

  lemma PolicyMatchesMeaning(inside: Membership, s: State, policy: Id, ctx: Context)
    requires ValidState(s) && policy in s.policies
    ensures PolicyMatches(inside, s, policy, ctx) == ScopeMatches(inside, Meaning(s)[policy], ctx)
  {
    RootOfFinds(s.tb.groups, policy);
    match RootOf(s.tb.groups, policy)
    case Some(r) => EngineFollowsTree(inside, s.tb, r, ctx);
    case None =>
  }

  /** Replacing one policy's tree: it now decides as the submitted tree, and every other policy as before. */
  lemma SaveTreeDecides(inside: Membership, s: State, p: Id, dir: Directory, payload: GroupInput, o: Id, ctx: Context)
    requires ValidState(s) && p in s.policies && o in s.policies && Accepted(dir, payload)
    ensures var n := Step(s, SaveTree(p, dir, payload));
            && ValidState(n) && o in n.policies
            && PolicyMatches(inside, n, o, ctx)
               == if o == p then EvalTree(inside, Displayed(dir, payload), ctx) else PolicyMatches(inside, s, o, ctx)
  {
    var q := SaveTree(p, dir, payload);
    StepRefines(s, q);
    var n := Step(s, q);
    assert Admitted(Meaning(s), q);
    assert Meaning(n).Keys == n.policies.Keys && Meaning(s).Keys == s.policies.Keys;
    assert o in Meaning(n);
    PolicyMatchesMeaning(inside, n, o, ctx);
    PolicyMatchesMeaning(inside, s, o, ctx);
  }

  /** Writing a policy: it now decides as the submitted tree, or, without one, as the submitted columns; every other
      policy as before. A refused write changes no verdict. */
  lemma SavePolicyDecides(inside: Membership, s: State, q: Request, o: Id, ctx: Context)
    requires ValidState(s) && q.SavePolicy? && (o in s.policies || o == q.policy)
    ensures var n := Step(s, q);
            && ValidState(n)
            && (Admitted(Meaning(s), q) ==>
                  && o in n.policies
                  && (o != q.policy ==> PolicyMatches(inside, n, o, ctx) == PolicyMatches(inside, s, o, ctx))
                  && (o == q.policy && q.scope.Some? ==>
                        Accepted(q.dir, q.scope.value)
                        && PolicyMatches(inside, n, o, ctx) == EvalTree(inside, Displayed(q.dir, q.scope.value), ctx))
                  && (o == q.policy && q.scope.None? ==>
                        PolicyMatches(inside, n, o, ctx)
                        == ScopeMatches(inside, Scope(q.row.name, q.row.legacy, None), ctx)))
            && (!Admitted(Meaning(s), q) ==> n == s)
  {
    StepRefines(s, q);
    var n := Step(s, q);
    if Admitted(Meaning(s), q) {
      assert Meaning(n).Keys == n.policies.Keys && Meaning(s).Keys == s.policies.Keys;
      assert o in Meaning(n);
      PolicyMatchesMeaning(inside, n, o, ctx);
      if o != q.policy {
        PolicyMatchesMeaning(inside, s, o, ctx);
      }
    }
  }

  /** Deleting a policy: it is gone, and every other policy decides as before. */
  lemma DeletePolicyDecides(inside: Membership, s: State, p: Id, o: Id, ctx: Context)
    requires ValidState(s) && p in s.policies && o in s.policies
    ensures var n := Step(s, DeletePolicy(p, true));
            && ValidState(n)
            && (o in n.policies <==> o != p)
            && (o != p ==> PolicyMatches(inside, n, o, ctx) == PolicyMatches(inside, s, o, ctx))
  {
    var q := DeletePolicy(p, true);
    StepRefines(s, q);
    var n := Step(s, q);
    assert Meaning(n).Keys == n.policies.Keys && Meaning(s).Keys == s.policies.Keys;
    if o != p {
      assert o in Meaning(n);
      PolicyMatchesMeaning(inside, n, o, ctx);
      PolicyMatchesMeaning(inside, s, o, ctx);
    }
  }

  /** One column: no verdict if it is not set, otherwise whether the request carries its value. */
  function ColumnVerdict(t: ObjectType, id: Option<Id>, ctx: Context): seq<bool>
    requires t != SourceIp
  {
    if id.Some? then [Actual(t, ctx) == id] else []
  }

  lemma LegacyLeafVerdict(inside: Membership, dir: Directory, t: ObjectType, id: Option<Id>, gone: string, ctx: Context)
    requires t != SourceIp
    ensures EvalLeaves(inside, LegacyLeaf(dir, t, id, gone), ctx) == ColumnVerdict(t, id, ctx)
  {
  }

  lemma VerdictsConcat(inside: Membership, a: seq<Leaf>, b: seq<Leaf>, ctx: Context)
    ensures EvalLeaves(inside, a + b, ctx) == EvalLeaves(inside, a, ctx) + EvalLeaves(inside, b, ctx)
  {
  }

  /** The migrated tree decides every request as the columns did. */
  lemma LegacyTreeLossless(inside: Membership, dir: Directory, l: Legacy, ctx: Context)
    requires l != ANY
    ensures EvalTree(inside, LegacyTree(dir, l), ctx)
            == LegacyMatches(l, Actual(UserGroup, ctx), Actual(Device, ctx), Actual(DeviceGroup, ctx))
  {
    var g := LegacyLeaf(dir, UserGroup, l.group, "(deleted group)");
    var d := LegacyLeaf(dir, Device, l.device, "(deleted device)");
    var e := LegacyLeaf(dir, DeviceGroup, l.deviceGroup, "(deleted device group)");
    LegacyLeafVerdict(inside, dir, UserGroup, l.group, "(deleted group)", ctx);
    LegacyLeafVerdict(inside, dir, Device, l.device, "(deleted device)", ctx);
    LegacyLeafVerdict(inside, dir, DeviceGroup, l.deviceGroup, "(deleted device group)", ctx);
    VerdictsConcat(inside, g, d, ctx);
    VerdictsConcat(inside, g + d, e, ctx);
    AllMatch(ColumnVerdict(UserGroup, l.group, ctx), ColumnVerdict(Device, l.device, ctx),
        ColumnVerdict(DeviceGroup, l.deviceGroup, ctx));
    assert EvalTrees(inside, [], ctx) == [];
  }

  lemma AllMatch(a: seq<bool>, b: seq<bool>, c: seq<bool>)
    ensures Combine(AND, a + b + c + [])
      <==> (a != [] || b != [] || c != []) && false !in a && false !in b && false !in c
  {
    assert forall x :: x in a + b + c + [] <==> x in a || x in b || x in c;
  }

  /** Migrating one policy changes no policy's verdict on any request. */
  lemma MigrationKeepsVerdicts(inside: Membership, s: State, p: Id, dir: Directory, o: Id, ctx: Context)
    requires ValidState(s) && o in s.policies
    ensures var n := Step(s, Migrate(p, dir));
            && ValidState(n) && o in n.policies
            && PolicyMatches(inside, n, o, ctx) == PolicyMatches(inside, s, o, ctx)
  {
    var q := Migrate(p, dir);
    StepRefines(s, q);
    var n := Step(s, q);
    assert Meaning(n).Keys == n.policies.Keys && Meaning(s).Keys == s.policies.Keys;
    if Admitted(Meaning(s), q) && o == p {
      LegacyTreeLossless(inside, dir, s.policies[p].legacy, ctx);
    }
    assert o in Meaning(n);
    PolicyMatchesMeaning(inside, n, o, ctx);
    PolicyMatchesMeaning(inside, s, o, ctx);
  }

  /* ---------- What forgetting facts can do ---------- */

  /** Every fact the first request carries, the second carries too. */
  predicate LessKnown(c: Context, d: Context) {
    && (c.user.Some? ==> d.user.Some? && d.user.value.id == c.user.value.id
                         && (c.user.value.group.Some? ==> d.user.value.group == c.user.value.group))
    && (c.device.Some? ==> d.device.Some? && d.device.value.id == c.device.value.id
                           && (c.device.value.group.Some? ==> d.device.value.group == c.device.value.group))
    && (c.sourceIp.Some? ==> d.sourceIp == c.sourceIp)
  }

  /** Every condition stands under an even number of NOT groups. */
  predicate Positive(t: Tree)
    decreases t, 0
  {
    if t.op == NOT then t.conditions == [] && AllNegative(t.children) else AllPositive(t.children)
  }

  predicate AllPositive(ts: seq<Tree>)
    decreases ts, 1
  {
    ts == [] || (Positive(ts[0]) && AllPositive(ts[1..]))
  }

  /** Every condition stands under an odd number of NOT groups. */
  predicate Negative(t: Tree)
    decreases t, 0
  {
    if t.op == NOT then AllPositive(t.children) else t.conditions == [] && AllNegative(t.children)
  }

  predicate AllNegative(ts: seq<Tree>)
    decreases ts, 1
  {
    ts == [] || (Negative(ts[0]) && AllNegative(ts[1..]))
  }

  /** Wherever the first list says yes, so does the second. */
  ghost predicate Implied(a: seq<bool>, b: seq<bool>) {
    |a| == |b| && forall i :: 0 <= i < |a| && a[i] ==> b[i]
  }

  lemma CombineImplied(op: Operator, a: seq<bool>, b: seq<bool>)
    requires Implied(a, b)
    ensures op != NOT ==> Combine(op, a) ==> Combine(op, b)
    ensures op == NOT ==> Combine(op, b) ==> Combine(op, a)
  {
    forall i | 0 <= i < |a|
      ensures (a[i] ==> b[i]) && a[i] in a && b[i] in b
    {
    }
  }

  lemma LeavesImplied(inside: Membership, leaves: seq<Leaf>, c: Context, d: Context)
    requires LessKnown(c, d)
    ensures Implied(EvalLeaves(inside, leaves, c), EvalLeaves(inside, leaves, d))
  {
  }

  /** Forgetting facts never opens a tree whose conditions are all positive, and never shuts one whose conditions are
      all negative: for every operator, `not_equal` and `is_not_in_cidr` among them, and every kind of missing field. */
  lemma {:induction false} ForgettingIsMonotone(inside: Membership, t: Tree, c: Context, d: Context)
    requires LessKnown(c, d)
    ensures Positive(t) ==> EvalTree(inside, t, c) ==> EvalTree(inside, t, d)
    ensures Negative(t) ==> EvalTree(inside, t, d) ==> EvalTree(inside, t, c)
    decreases t, 0
  {
    var own, ownMore := EvalLeaves(inside, t.conditions, c), EvalLeaves(inside, t.conditions, d);
    var below, belowMore := EvalTrees(inside, t.children, c), EvalTrees(inside, t.children, d);
    LeavesImplied(inside, t.conditions, c, d);
    ForgettingForest(inside, t.children, c, d);
    if AllPositive(t.children) {
      CombineImplied(t.op, own + below, ownMore + belowMore);
    }
    if t.conditions == [] && AllNegative(t.children) {
      CombineImplied(t.op, ownMore + belowMore, own + below);
    }
  }

  lemma {:induction false} ForgettingForest(inside: Membership, ts: seq<Tree>, c: Context, d: Context)
    requires LessKnown(c, d)
    ensures AllPositive(ts) ==> Implied(EvalTrees(inside, ts, c), EvalTrees(inside, ts, d))
    ensures AllNegative(ts) ==> Implied(EvalTrees(inside, ts, d), EvalTrees(inside, ts, c))
    decreases ts, 1
  {
    if ts != [] {
      ForgettingIsMonotone(inside, ts[0], c, d);
      ForgettingForest(inside, ts[1..], c, d);
    }
  }

  /** So a policy whose tree has no NOT group, or only pairs of them, or that has no tree, matches no request it would
      not match if more were known. */
  lemma ForgettingOpensNoPolicy(inside: Membership, s: State, p: Id, c: Context, d: Context)
    requires ValidState(s) && p in s.policies && LessKnown(c, d)
    requires Meaning(s)[p].tree.Some? ==> Positive(Meaning(s)[p].tree.value)
    ensures PolicyMatches(inside, s, p, c) ==> PolicyMatches(inside, s, p, d)
  {
    PolicyMatchesMeaning(inside, s, p, c);
    PolicyMatchesMeaning(inside, s, p, d);
    if Meaning(s)[p].tree.Some? {
      ForgettingIsMonotone(inside, Meaning(s)[p].tree.value, c, d);
    }
  }

  lemma {:induction false} NotFreeIsPositive(t: Tree)
    requires NotFree(t)
    ensures Positive(t)
    decreases t, 0
  {
    AllNotFreePositive(t.children);
  }

  lemma {:induction false} AllNotFreePositive(ts: seq<Tree>)
    requires AllNotFree(ts)
    ensures AllPositive(ts)
    decreases ts, 1
  {
    if ts != [] {
      NotFreeIsPositive(ts[0]);
      AllNotFreePositive(ts[1..]);
    }
  }

  lemma OneCondition(inside: Membership, op: Operator, leaf: Leaf, ctx: Context)
    ensures EvalTree(inside, Tree(op, [leaf], []), ctx)
            <==> (if op == NOT then !EvalLeaf(inside, leaf, ctx) else EvalLeaf(inside, leaf, ctx))
  {
    assert EvalLeaves(inside, [leaf], ctx) + [] == [EvalLeaf(inside, leaf, ctx)];
  }

  /** Saving a tree of one condition makes the policy decide by it. */
  lemma SavedCondition(inside: Membership, s: State, p: Id, dir: Directory, op: Operator, c: ConditionInput,
      ctx: Context)
    requires ValidState(s) && p in s.policies && MakeLeaf(dir, c).Ok?
    ensures var payload, leaf := GroupInput(op, [c], []), MakeLeaf(dir, c).value;
            var n := Step(s, SaveTree(p, dir, payload));
            && Accepted(dir, payload) && ValidState(n) && p in n.policies
            && (PolicyMatches(inside, n, p, ctx)
                <==> if op == NOT then !EvalLeaf(inside, leaf, ctx) else EvalLeaf(inside, leaf, ctx))
  {
    var payload := GroupInput(op, [c], []);
    SaveTreeDecides(inside, s, p, dir, payload, p, ctx);
    assert Displayed(dir, payload) == Tree(op, [MakeLeaf(dir, c).value], []);
    OneCondition(inside, op, MakeLeaf(dir, c).value, ctx);
  }

  /** So a policy saved with one condition on a row decides as that condition says. */
  lemma SavedReference(inside: Membership, s: State, p: Id, dir: Directory, op: Operator, c: ConditionInput,
                       ctx: Context)
    requires ValidState(s) && p in s.policies && c.objectType != SourceIp && Sayable(dir, c)
    ensures MakeLeaf(dir, c).Ok?
    ensures var n := Step(s, SaveTree(p, dir, GroupInput(op, [c], [])));
            var met := if c.operator == "equal" then Carries(ctx, c.objectType, c.ref.id)
                       else exists other :: other != c.ref.id && Carries(ctx, c.objectType, other);
            ValidState(n) && p in n.policies && (PolicyMatches(inside, n, p, ctx) <==> if op == NOT then !met else met)
  {
    ConditionExact(dir, c);
    SavedCondition(inside, s, p, dir, op, c, ctx);
    ReferenceVerdict(inside, MakeLeaf(dir, c).value, ctx);
  }

  function NamesDevice(device: Id): ConditionInput {
    ConditionInput(Device, "equal", "", To(device))
  }

  lemma NamesDeviceMeans(inside: Membership, dir: Directory, device: Id, ctx: Context)
    requires (Device, device) in dir.names
    ensures MakeLeaf(dir, NamesDevice(device)).Ok?
    ensures EvalLeaf(inside, MakeLeaf(dir, NamesDevice(device)).value, ctx) <==> Actual(Device, ctx) == Some(device)
  {
  }

  /** A NOT group can open when a fact is forgotten: saved for a policy, it refuses the device it names and admits the
      same request without its device. */
  lemma ForgettingOpensNot(inside: Membership, s: State, p: Id, dir: Directory, device: Id, user: Option<UserContext>)
    requires ValidState(s) && p in s.policies && (Device, device) in dir.names
    ensures var payload := GroupInput(NOT, [NamesDevice(device)], []);
            var n := Step(s, SaveTree(p, dir, payload));
            var known := Context(user, Some(DeviceContext(device, None)), None);
            && Accepted(dir, payload) && ValidState(n) && p in n.policies
            && LessKnown(known.(device := None), known)
            && !PolicyMatches(inside, n, p, known) && PolicyMatches(inside, n, p, known.(device := None))
  {
    var known := Context(user, Some(DeviceContext(device, None)), None);
    NamesDeviceMeans(inside, dir, device, known);
    NamesDeviceMeans(inside, dir, device, known.(device := None));
    SavedCondition(inside, s, p, dir, NOT, NamesDevice(device), known);
    SavedCondition(inside, s, p, dir, NOT, NamesDevice(device), known.(device := None));
  }

  /* ---------- What the engine concludes from nothing ---------- */

  /** The tree comes out true although every leaf is false: decided by the operators alone. */
  predicate Opens(t: Tree)
    decreases t, 0
  {
    match t.op
    case AND => t.conditions == [] && t.children != [] && AllOpen(t.children)
    case OR => SomeOpens(t.children)
    case NOT => t.conditions != [] || !AllOpen(t.children)
  }

  predicate AllOpen(ts: seq<Tree>)
    decreases ts, 1
  {
    ts == [] || (Opens(ts[0]) && AllOpen(ts[1..]))
  }

  predicate SomeOpens(ts: seq<Tree>)
    decreases ts, 1
  {
    ts != [] && (Opens(ts[0]) || SomeOpens(ts[1..]))
  }

  /** The engine admits a request about which nothing is known exactly when the operators open the tree. */
  lemma {:induction false} EmptyContextExact(inside: Membership, t: Tree)
    ensures EvalTree(inside, t, EMPTY_CONTEXT) <==> Opens(t)
    decreases t, 0
  {
    EmptyContextForest(inside, t.children);
    var own := EvalLeaves(inside, t.conditions, EMPTY_CONTEXT);
    var below := EvalTrees(inside, t.children, EMPTY_CONTEXT);
    assert forall b :: b in own + below <==> b in own || b in below;
    assert t.conditions != [] ==> own[0] == EvalLeaf(inside, t.conditions[0], EMPTY_CONTEXT);
    assert forall i :: 0 <= i < |own| ==> !own[i];
  }

  lemma {:induction false} EmptyContextForest(inside: Membership, ts: seq<Tree>)
    ensures var r := EvalTrees(inside, ts, EMPTY_CONTEXT);
            && |r| == |ts|
            && (false !in r <==> AllOpen(ts))
            && (true in r <==> SomeOpens(ts))
    decreases ts, 1
  {
    if ts != [] {
      EmptyContextExact(inside, ts[0]);
      EmptyContextForest(inside, ts[1..]);
    }
  }

  predicate NotFree(t: Tree)
    decreases t, 0
  {
    t.op != NOT && AllNotFree(t.children)
  }

  predicate AllNotFree(ts: seq<Tree>)
    decreases ts, 1
  {
    ts == [] || (NotFree(ts[0]) && AllNotFree(ts[1..]))
  }

  /** Without NOT groups the engine fails closed on a request about which nothing is known. */
  lemma {:induction false} NotFreeFailsClosed(inside: Membership, t: Tree)
    requires NotFree(t)
    ensures !EvalTree(inside, t, EMPTY_CONTEXT)
  {
    EmptyContextExact(inside, t);
    NotFreeStaysShut(t);
  }

  lemma {:induction false} NotFreeStaysShut(t: Tree)
    requires NotFree(t)
    ensures !Opens(t)
    decreases t, 0
  {
    NotFreeForest(t.children);
  }

  lemma {:induction false} NotFreeForest(ts: seq<Tree>)
    requires AllNotFree(ts)
    ensures !SomeOpens(ts) && (AllOpen(ts) ==> ts == [])
    decreases ts, 1
  {
    if ts != [] {
      NotFreeStaysShut(ts[0]);
      NotFreeForest(ts[1..]);
    }
  }
}
