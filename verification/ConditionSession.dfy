/**
 The database session as the handlers use it: rows are added and deleted one by one
 in the open transaction, which a request either commits or abandons.  Each handler
 is proved against the corresponding step on values.
 */
module ConditionSession {
  import opened Wrappers
  import opened ConditionTrees
  import opened ConditionRows
  import opened ConditionTables
  import opened ConditionDeletion
  import opened ConditionRequests

  datatype Failure = NotFound | BadRequest(reason: Rejection) | AlreadyMigrated | NothingToMigrate | Conflict

  /** The answer to a tree submission: the tree as stored, or the first fault in it. */
  function SaveReply(known: bool, dir: Directory, payload: GroupInput): Result<Tree, Failure> {
    FaultExact(dir, payload);
    if !known then Err(NotFound)
    else if Accepted(dir, payload) then Ok(Displayed(dir, payload))
    else Err(BadRequest(Fault(dir, payload).value))
  }

  /* ---------- Growing the tables, on values ---------- */

  function Grown(tb: Tables, policy: Id, parent: Option<Id>, order: nat, t: Tree): Tables {
    Tables(tb.groups + GroupRows(tb.nextId, policy, parent, order, t), tb.conditions + LeafRows(tb.nextId, t),
           tb.nextId + Size(t))
  }

  function GrownForest(tb: Tables, policy: Id, parent: Id, order: nat, ts: seq<Tree>): Tables {
    Tables(tb.groups + ForestRows(tb.nextId, policy, parent, order, ts), tb.conditions + ForestLeafRows(tb.nextId, ts),
           tb.nextId + ForestSize(ts))
  }

  lemma GrownOneByOne(tb: Tables, policy: Id, parent: Id, order: nat, ts: seq<Tree>)
    requires ts != []
    ensures GrownForest(tb, policy, parent, order, ts)
            == GrownForest(Grown(tb, policy, Some(parent), order, ts[0]), policy, parent, order + 1, ts[1..])
  {
    var mid := tb.nextId + Size(ts[0]);
    var first, rest := GroupRows(tb.nextId, policy, Some(parent), order, ts[0]),
        ForestRows(mid, policy, parent, order + 1, ts[1..]);
    var own, below := LeafRows(tb.nextId, ts[0]), ForestLeafRows(mid, ts[1..]);
    assert tb.groups + (first + rest) == (tb.groups + first) + rest;
    assert tb.conditions + (own + below) == (tb.conditions + own) + below;
  }

  lemma GrownFromTop(tb: Tables, policy: Id, parent: Option<Id>, order: nat, t: Tree)
    ensures Grown(tb, policy, parent, order, t)
            == GrownForest(Tables(tb.groups + [RootRow(tb.nextId, policy, parent, order, t)],
                                  tb.conditions + OwnRows(tb.nextId, t.conditions), tb.nextId + 1),
                           policy, tb.nextId, 0, t.children)
  {
  }

  /** A tree that is one group is one row, with its conditions. */
  lemma RootOnly(tb: Tables, policy: Id, t: Tree)
    requires t.children == []
    ensures Insert(tb, policy, t)
            == Tables(tb.groups + [RootRow(tb.nextId, policy, None, 0, t)],
                      tb.conditions + OwnRows(tb.nextId, t.conditions),
                      tb.nextId + 1)
  {
    GrownFromTop(tb, policy, None, 0, t);
  }

  ghost function CascadeUpTo(tb: Tables, i: nat, root: Id): set<Id>
    requires i <= |tb.groups|
  {
    set r | r in tb.groups[..i] && Descends(tb.groups, r, root) :: r.id
  }

  /** What the database's cascade on the parent key collects, in one pass over the table. */
  method CascadeSet(tb: Tables, root: Id) returns (doomed: set<Id>)
    requires Valid(tb)
    ensures doomed == CascadeIds(tb.groups, root)
  {
    doomed := {};
    for i := 0 to |tb.groups|
      invariant doomed == CascadeUpTo(tb, i, root)
    {
      var r := tb.groups[i];
      CascadeGrows(tb, i, root);
      if r.id == root || (r.parent.Some? && r.parent.value in doomed) {
        doomed := doomed + {r.id};
      }
    }
    assert tb.groups[..|tb.groups|] == tb.groups;
  }

  lemma CascadeGrows(tb: Tables, i: nat, root: Id)
    requires Valid(tb) && i < |tb.groups|
    ensures var r, before := tb.groups[i], CascadeUpTo(tb, i, root);
            CascadeUpTo(tb, i + 1, root)
            == before + if r.id == root || (r.parent.Some? && r.parent.value in before) then {r.id} else {}
  {
  }

  /** What a submission does to the state, without the case analysis of the general step. */
  lemma SaveTreeIs(s: State, policy: Id, dir: Directory, payload: GroupInput)
    requires ValidState(s)
    ensures ValidState(Step(s, SaveTree(policy, dir, payload)))
    ensures Step(s, SaveTree(policy, dir, payload))
            == if policy in s.policies && Accepted(dir, payload)
               then State(s.policies, Insert(ClearedFromRoot(s.tb, policy), policy, Displayed(dir, payload)))
               else s
  {
    StepRefines(s, SaveTree(policy, dir, payload));
    assert Meaning(s).Keys == s.policies.Keys;
  }

  lemma MigrateIs(s: State, policy: Id, dir: Directory)
    requires ValidState(s)
    ensures ValidState(Step(s, Migrate(policy, dir)))
    ensures Step(s, Migrate(policy, dir))
            == if policy in s.policies && RootOf(s.tb.groups, policy).None? && s.policies[policy].legacy != ANY
               then State(s.policies, Insert(s.tb, policy, LegacyTree(dir, s.policies[policy].legacy)))
               else s
  {
    StepRefines(s, Migrate(policy, dir));
    assert Meaning(s).Keys == s.policies.Keys;
    RootOfFinds(s.tb.groups, policy);
  }

  lemma SavePolicyIs(s: State, q: Request)
    requires ValidState(s) && q.SavePolicy?
    ensures ValidState(Step(s, q))
    ensures Admitted(Meaning(s), q) <==>
              && (q.creating <==> q.policy !in s.policies)
              && (forall o :: o in s.policies && o != q.policy ==> s.policies[o].name != q.row.name)
              && (q.scope.Some? ==> Accepted(q.dir, q.scope.value) && q.row.legacy == ANY)
              && q.othersPass
  {
    StepRefines(s, q);
    assert Meaning(s).Keys == s.policies.Keys;
    assert forall o :: o in s.policies ==> Meaning(s)[o].name == s.policies[o].name;
  }

  lemma DeletePolicyIs(s: State, policy: Id, othersPass: bool)
    requires ValidState(s)
    ensures ValidState(Step(s, DeletePolicy(policy, othersPass)))
    ensures Step(s, DeletePolicy(policy, othersPass))
            == if policy in s.policies && othersPass
               then State(s.policies - {policy}, Delete(s.tb, PolicyIds(s.tb.groups, policy)))
               else s
  {
    StepRefines(s, DeletePolicy(policy, othersPass));
    assert Meaning(s).Keys == s.policies.Keys;
  }

  /** The tree just inserted is the one found and read for the reply. */
  lemma ReplyReads(tb: Tables, policy: Id, t: Tree)
    requires Valid(tb) && forall r :: r in tb.groups ==> r.policy != policy
    ensures var u := Insert(tb, policy, t);
            && Ordered(u) && RootOf(u.groups, policy).Some?
            && RootOf(u.groups, policy).value.id < u.nextId
            && ReadGroup(u, RootOf(u.groups, policy).value) == t
  {
    var u := Insert(tb, policy, t);
    InsertedTrees(tb, policy, t);
    RootOfFinds(u.groups, policy);
  }

  lemma ReplacementReads(tb: Tables, policy: Id, t: Tree)
    requires Valid(tb)
    ensures var u := Insert(ClearedFromRoot(tb, policy), policy, t);
            && Ordered(u) && RootOf(u.groups, policy).Some?
            && RootOf(u.groups, policy).value.id < u.nextId
            && ReadGroup(u, RootOf(u.groups, policy).value) == t
  {
    ClearingAgrees(tb, policy);
    ClearedTrees(tb, policy);
    ReplyReads(Cleared(tb, policy), policy, t);
  }

  lemma NoRowsWithoutRoot(tb: Tables, policy: Id)
    requires Valid(tb) && RootOf(tb.groups, policy).None?
    ensures forall r :: r in tb.groups ==> r.policy != policy
  {
    forall r | r in tb.groups
      ensures r.policy != policy
    {
      NoOrphans(tb, r);
    }
  }

  class Session {
    var policies: map<Id, PolicyRow>
    var groups: seq<GroupRow>
    var conditions: seq<ConditionRow>
    var nextId: Id
    var committed: State

    constructor (s: State)
      ensures Now() == s && committed == s
    {
      policies, groups, conditions, nextId := s.policies, s.tb.groups, s.tb.conditions, s.tb.nextId;
      committed := s;
    }

    function Rows(): Tables
      reads this
    {
      Tables(groups, conditions, nextId)
    }

    /** The state the open transaction sees. */
    function Now(): State
      reads this
    {
      State(policies, Rows())
    }

    method Commit()
      modifies this`committed
      ensures committed == Now()
    {
      committed := Now();
    }

    method Rollback()
      modifies this
      ensures Now() == committed == old(committed)
    {
      policies := committed.policies;
      groups, conditions, nextId := committed.tb.groups, committed.tb.conditions, committed.tb.nextId;
    }

    /** Writes one group and everything below it, or stops at the first unacceptable node. */
    method BuildTree(dir: Directory, policy: Id, parent: Option<Id>, order: nat, t: GroupInput)
      returns (r: Result<Id, Rejection>)
      modifies this`groups, this`conditions, this`nextId
      ensures match Fault(dir, t)
              case Some(e) => r == Err(e)
              case None => r == Ok(old(nextId)) && Accepted(dir, t)
                           && Rows() == Grown(old(Rows()), policy, parent, order, Displayed(dir, t))
      decreases t, 1
    {
      FaultExact(dir, t);
      if t.conditions == [] && t.children == [] {
        return Err(EmptyGroup);
      }
      var id := nextId;
      groups := groups + [GroupRow(id, policy, parent, t.op, order)];
      nextId := nextId + 1;
      var fault := AddConditions(dir, id, t.conditions);
      if fault.Some? {
        return Err(fault.value);
      }
      fault := BuildChildren(dir, policy, id, t.children);
      if fault.Some? {
        return Err(fault.value);
      }
      GrownFromTop(old(Rows()), policy, parent, order, Displayed(dir, t));
      return Ok(id);
    }

    /** Writes the subgroups of one group, in order. */
    method BuildChildren(dir: Directory, policy: Id, group: Id, ts: seq<GroupInput>) returns (fault: Option<Rejection>)
      modifies this`groups, this`conditions, this`nextId
      ensures fault == ForestFault(dir, ts)
      ensures fault.None?
        ==> AllAccepted(dir, ts) && Rows() == GrownForest(old(Rows()), policy, group, 0, AllDisplayed(dir, ts))
      decreases ts, 0
    {
      ForestFaultExact(dir, ts);
      for i := 0 to |ts|
        invariant ForestFault(dir, ts[i..]) == ForestFault(dir, ts)
        invariant AllAccepted(dir, ts) ==>
                    && AllAccepted(dir, ts[i..])
                    && GrownForest(Rows(), policy, group, i, AllDisplayed(dir, ts[i..]))
                       == GrownForest(old(Rows()), policy, group, 0, AllDisplayed(dir, ts))
      {
        ghost var before := Rows();
        assert ts[i..][0] == ts[i] && ts[i..][1..] == ts[i + 1..];
        if AllAccepted(dir, ts) {
          GrownOneByOne(before, policy, group, i, AllDisplayed(dir, ts[i..]));
        }
        var sub := BuildTree(dir, policy, Some(group), i, ts[i]);
        if sub.Err? {
          return Some(sub.error);
        }
      }
      assert ts[|ts|..] == [];
      return None;
    }

    /** Adds the conditions of one group, or stops at the first unacceptable one. */
    method AddConditions(dir: Directory, group: Id, cs: seq<ConditionInput>) returns (fault: Option<Rejection>)
      modifies this`conditions
      ensures fault == LeafFault(dir, cs)
      ensures fault.None? ==> LeavesAccepted(dir, cs) && conditions == old(conditions) + OwnRows(group, Leaves(dir, cs))
    {
      LeafFaultExact(dir, cs);
      for i := 0 to |cs|
        invariant LeafFault(dir, cs[i..]) == LeafFault(dir, cs)
        invariant |conditions| == |old(conditions)| + i && conditions[..|old(conditions)|] == old(conditions)
        invariant forall k :: 0 <= k < i ==>
                    && MakeLeaf(dir, cs[k]).Ok?
                    && conditions[|old(conditions)| + k] == ConditionRow(group, MakeLeaf(dir, cs[k]).value, k)
      {
        assert cs[i..][0] == cs[i] && cs[i..][1..] == cs[i + 1..];
        match MakeLeaf(dir, cs[i]) {
          case Err(e) => return Some(e);
          case Ok(leaf) => conditions := conditions + [ConditionRow(group, leaf, i)];
        }
      }
      assert cs[|cs|..] == [];
      return None;
    }

    /** Deletes the root found by query, if there is one, with everything below it. */
    method DeleteExisting(policy: Id)
      requires Valid(Rows())
      modifies this`groups, this`conditions
      ensures Rows() == ClearedFromRoot(old(Rows()), policy)
    {
      var root := RootOf(groups, policy);
      if root.Some? {
        var doomed := CascadeSet(Rows(), root.value.id);
        groups, conditions := KeepGroups(groups, doomed), KeepConditions(conditions, doomed);
      }
    }

    /** PUT condition-tree: all of the new tree or nothing. */
    method ReplaceConditionTree(dir: Directory, policy: Id, payload: GroupInput) returns (r: Result<Tree, Failure>)
      requires ValidState(Now()) && committed == Now()
      modifies this
      ensures committed == Now() == Step(old(Now()), SaveTree(policy, dir, payload))
      ensures ValidState(Now())
      ensures r == SaveReply(policy in old(policies), dir, payload)
      ensures r.Ok? ==> Stores(dir, payload, r.value)
    {
      if Accepted(dir, payload) {
        StoresExact(dir, payload, Displayed(dir, payload));
      }
      SaveTreeIs(Now(), policy, dir, payload);
      if policy !in policies {
        return Err(NotFound);
      }
      r := ReplaceTree(dir, policy, payload);
    }

    method ReplaceTree(dir: Directory, policy: Id, payload: GroupInput) returns (r: Result<Tree, Failure>)
      requires ValidState(Now()) && committed == Now() && policy in policies
      modifies this
      ensures committed == Now() == if Accepted(dir, payload)
                                    then State(old(policies), Insert(ClearedFromRoot(old(Rows()), policy), policy,
                                                                     Displayed(dir, payload)))
                                    else old(Now())
      ensures r == SaveReply(true, dir, payload)
    {
      ghost var tb := Rows();
      DeleteExisting(policy);
      var built := BuildTree(dir, policy, None, 0, payload);
      FaultExact(dir, payload);
      if built.Err? {
        Rollback();
        return Err(BadRequest(built.error));
      }
      Commit();
      ReplacementReads(tb, policy, Displayed(dir, payload));
      return Ok(ReadGroup(Rows(), RootOf(groups, policy).value));
    }

    /** Every group of the policy goes, then the new tree, if there is one, comes. */
    method ReplaceScope(policy: Id, dir: Directory, scope: Option<GroupInput>) returns (fault: Option<Rejection>)
      modifies this`groups, this`conditions, this`nextId
      ensures fault == if scope.Some? then Fault(dir, scope.value) else None
      ensures fault.None? ==>
                && (scope.Some? ==> Accepted(dir, scope.value))
                && Rows() == var cleared := Cleared(old(Rows()), policy);
                             if scope.Some? then Insert(cleared, policy, Displayed(dir, scope.value)) else cleared
    {
      var doomed := PolicyIds(groups, policy);
      groups, conditions := KeepGroups(groups, doomed), KeepConditions(conditions, doomed);
      if scope.None? {
        return None;
      }
      FaultExact(dir, scope.value);
      var built := BuildTree(dir, policy, None, 0, scope.value);
      return if built.Err? then Some(built.error) else None;
    }

    /** The tree part of the one policy write. */
    method MutatePolicy(policy: Id, creating: bool, dir: Directory, row: PolicyRow, scope: Option<GroupInput>,
        othersPass: bool)
      returns (r: Result<(), Failure>)
      requires ValidState(Now()) && committed == Now()
      requires creating ==> policy !in policies
      requires scope.Some? ==> row.legacy == ANY
      modifies this
      ensures committed == Now() == Step(old(Now()), SavePolicy(policy, creating, dir, row, scope, othersPass))
      ensures ValidState(Now())
      ensures r.Ok? <==> Admitted(Meaning(old(Now())), SavePolicy(policy, creating, dir, row, scope, othersPass))
    {
      SavePolicyIs(Now(), SavePolicy(policy, creating, dir, row, scope, othersPass));
      if !creating && policy !in policies {
        return Err(NotFound);
      }
      var taken := exists o :: o in policies && o != policy && policies[o].name == row.name;
      policies := policies[policy := row];
      var fault := ReplaceScope(policy, dir, scope);
      if scope.Some? {
        FaultExact(dir, scope.value);
      }
      if fault.Some? {
        Rollback();
        return Err(BadRequest(fault.value));
      }
      if taken || !othersPass {
        Rollback();
        return Err(Conflict);
      }
      Commit();
      return Ok(());
    }

    /** DELETE policy: the row goes, and by the cascade on the policy key all of its groups with their conditions. */
    method RemovePolicy(policy: Id, othersPass: bool) returns (r: Result<(), Failure>)
      requires ValidState(Now()) && committed == Now()
      modifies this
      ensures committed == Now() == Step(old(Now()), DeletePolicy(policy, othersPass))
      ensures ValidState(Now())
      ensures r.Ok? <==> policy in old(policies) && othersPass
      ensures r.Ok? ==> policies == old(policies) - {policy}
                        && forall g :: g in groups <==> g in old(groups) && g.policy != policy
      ensures r.Err? ==> Now() == old(Now())
    {
      DeletePolicyIs(Now(), policy, othersPass);
      DeletedRows(Rows(), policy);
      if policy !in policies || !othersPass {
        return Err(Conflict);
      }
      policies := policies - {policy};
      var doomed := PolicyIds(groups, policy);
      groups, conditions := KeepGroups(groups, doomed), KeepConditions(conditions, doomed);
      Commit();
      return Ok(());
    }

    /** One leaf, if the legacy column is set, at the next position. */
    method AddLegacy(root: Id, dir: Directory, t: ObjectType, id: Option<Id>, gone: string, order: nat,
                     ghost rows: seq<ConditionRow>, ghost leaves: seq<Leaf>) returns (next: nat)
      requires conditions == rows + OwnRows(root, leaves) && order == |leaves|
      modifies this`conditions
      ensures conditions == rows + OwnRows(root, leaves + LegacyLeaf(dir, t, id, gone))
      ensures next == |leaves + LegacyLeaf(dir, t, id, gone)|
    {
      next := order;
      if id.Some? {
        conditions := conditions + [ConditionRow(root, NamedLeaf(dir, t, id.value, gone), order)];
        next := order + 1;
      } else {
        assert leaves + [] == leaves;
      }
    }

    /** Adds a root AND group with one leaf per legacy column that is set. */
    method MigrateLegacyPolicy(policy: Id, dir: Directory, l: Legacy)
      modifies this`groups, this`conditions, this`nextId
      ensures Rows() == Insert(old(Rows()), policy, LegacyTree(dir, l))
    {
      ghost var rows, leaves := conditions, [];
      var root := nextId;
      groups := groups + [GroupRow(root, policy, None, AND, 0)];
      nextId := nextId + 1;
      assert rows + OwnRows(root, []) == rows;
      var order := AddLegacy(root, dir, UserGroup, l.group, "(deleted group)", 0, rows, []);
      leaves := [] + LegacyLeaf(dir, UserGroup, l.group, "(deleted group)");
      order := AddLegacy(root, dir, Device, l.device, "(deleted device)", order, rows, leaves);
      leaves := leaves + LegacyLeaf(dir, Device, l.device, "(deleted device)");
      order := AddLegacy(root, dir, DeviceGroup, l.deviceGroup, "(deleted device group)", order, rows, leaves);
      assert [] + LegacyLeaf(dir, UserGroup, l.group, "(deleted group)")
          == LegacyLeaf(dir, UserGroup, l.group, "(deleted group)");
      RootOnly(old(Rows()), policy, LegacyTree(dir, l));
    }

    /** POST migrate-conditions. */
    method MigrateConditions(policy: Id, dir: Directory) returns (r: Result<Tree, Failure>)
      requires ValidState(Now()) && committed == Now()
      modifies this
      ensures committed == Now() == Step(old(Now()), Migrate(policy, dir))
      ensures ValidState(Now())
      ensures r == if policy !in old(policies) then Err(NotFound)
                   else if RootOf(old(groups), policy).Some? then Err(AlreadyMigrated)
                   else if old(policies)[policy].legacy == ANY then Err(NothingToMigrate)
                   else Ok(LegacyTree(dir, old(policies)[policy].legacy))
    {
      MigrateIs(Now(), policy, dir);
      if policy !in policies {
        return Err(NotFound);
      }
      if RootOf(groups, policy).Some? {
        return Err(AlreadyMigrated);
      }
      var l := policies[policy].legacy;
      if l.group.None? && l.device.None? && l.deviceGroup.None? {
        return Err(NothingToMigrate);
      }
      var t := MigrateRootless(policy, dir, l);
      return Ok(t);
    }

    method MigrateRootless(policy: Id, dir: Directory, l: Legacy) returns (t: Tree)
      requires ValidState(Now()) && RootOf(groups, policy).None?
      modifies this
      ensures committed == Now() == State(old(policies), Insert(old(Rows()), policy, LegacyTree(dir, l)))
      ensures t == LegacyTree(dir, l)
    {
      NoRowsWithoutRoot(Rows(), policy);
      MigrateLegacyPolicy(policy, dir, l);
      Commit();
      t := Reply(policy, old(Rows()), LegacyTree(dir, l));
    }

    /** The tree just written, read back for the reply. */
    method Reply(policy: Id, ghost before: Tables, ghost written: Tree) returns (t: Tree)
      requires Valid(before) && Rows() == Insert(before, policy, written)
      requires forall r :: r in before.groups ==> r.policy != policy
      ensures t == written
    {
      ReplyReads(before, policy, written);
      return ReadGroup(Rows(), RootOf(groups, policy).value);
    }
  }
}
