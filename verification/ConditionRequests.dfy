/**
 The write requests that touch condition trees, as steps on the stored rows, and the
 plain map they implement: each policy has a name, three legacy fields and at most one
 tree.  Every run of requests on the rows refines the same run on that map.
 */
module ConditionRequests {
  import opened Wrappers
  import opened ConditionTrees
  import opened ConditionRows
  import opened ConditionTables
  import opened ConditionDeletion

  /** The three flat condition columns of a policy; all that are set must match. */
  datatype Legacy = Legacy(group: Option<Id>, device: Option<Id>, deviceGroup: Option<Id>)

  const ANY := Legacy(None, None, None)

  datatype PolicyRow = PolicyRow(name: string, legacy: Legacy)

  datatype State = State(policies: map<Id, PolicyRow>, tb: Tables)

  /** What a policy's rows mean. */
  datatype Scope = Scope(name: string, legacy: Legacy, tree: Option<Tree>)

  datatype Request =
    | SaveTree(policy: Id, dir: Directory, payload: GroupInput)
    | SavePolicy(policy: Id, creating: bool, dir: Directory, row: PolicyRow, scope: Option<GroupInput>,
        othersPass: bool)
    | Migrate(policy: Id, dir: Directory)
    | DeletePolicy(policy: Id, othersPass: bool)

  ghost predicate ValidState(s: State) {
    && Valid(s.tb)
    && (forall r :: r in s.tb.groups ==> r.policy in s.policies)
    && forall p, q :: p in s.policies && q in s.policies && s.policies[p].name == s.policies[q].name ==> p == q
  }

  function TreeOf(tb: Tables, policy: Id): Option<Tree>
    requires Valid(tb)
  {
    RootOfFinds(tb.groups, policy);
    match RootOf(tb.groups, policy)
    case None => None
    case Some(r) => Some(ReadGroup(tb, r))
  }

  ghost function Meaning(s: State): map<Id, Scope>
    requires ValidState(s)
  {
    map p | p in s.policies :: Scope(s.policies[p].name, s.policies[p].legacy, TreeOf(s.tb, p))
  }

  /* ---------- Migration of the legacy columns ---------- */

  function NamedLeaf(dir: Directory, t: ObjectType, id: Id, gone: string): Leaf {
    Leaf(t, "equal", DatabaseId, if (t, id) in dir.names then dir.names[(t, id)] else gone, Some(id))
  }

  function LegacyLeaf(dir: Directory, t: ObjectType, id: Option<Id>, gone: string): seq<Leaf> {
    if id.Some? then [NamedLeaf(dir, t, id.value, gone)] else []
  }

  /** One leaf per column that is set, under a root AND group. */
  function LegacyTree(dir: Directory, l: Legacy): Tree {
    Tree(AND,
         LegacyLeaf(dir, UserGroup, l.group, "(deleted group)")
         + LegacyLeaf(dir, Device, l.device, "(deleted device)")
         + LegacyLeaf(dir, DeviceGroup, l.deviceGroup, "(deleted device group)"),
         [])
  }

  /* ---------- Requests on rows ---------- */

  /** What a request is refused for, read off the meaning of the state. */
  ghost predicate Admitted(m: map<Id, Scope>, q: Request) {
    match q
    case SaveTree(p, dir, payload) => p in m && Accepted(dir, payload)
    case SavePolicy(p, creating, dir, row, payload, othersPass) =>
      && (creating <==> p !in m)
      && (forall o :: o in m && o != p ==> m[o].name != row.name)
      && (payload.Some? ==> Accepted(dir, payload.value) && row.legacy == ANY)
      && othersPass
    case Migrate(p, dir) => p in m && m[p].tree.None? && m[p].legacy != ANY
    case DeletePolicy(p, othersPass) => p in m && othersPass
  }

  /** All of the policy's groups go, including any disconnected from its root. */
  function Cleared(tb: Tables, policy: Id): Tables {
    Delete(tb, PolicyIds(tb.groups, policy))
  }

  /** Only what cascades from the root goes. */
  ghost function ClearedFromRoot(tb: Tables, policy: Id): Tables {
    match RootOf(tb.groups, policy)
    case None => tb
    case Some(r) => Delete(tb, CascadeIds(tb.groups, r.id))
  }

  ghost function Step(s: State, q: Request): State
    requires ValidState(s)
  {
    if !Admitted(Meaning(s), q) then s
    else match q
      case SaveTree(p, dir, payload) => State(s.policies, Insert(ClearedFromRoot(s.tb, p), p, Displayed(dir, payload)))
      case SavePolicy(p, _, dir, row, payload, _) =>
        var cleared := Cleared(s.tb, p);
        State(s.policies[p := row],
              if payload.Some? then Insert(cleared, p, Displayed(dir, payload.value)) else cleared)
      case Migrate(p, dir) => State(s.policies, Insert(s.tb, p, LegacyTree(dir, s.policies[p].legacy)))
      case DeletePolicy(p, _) => State(s.policies - {p}, Cleared(s.tb, p))
  }

  /* ---------- The same requests on the map ---------- */

  ghost function SpecStep(m: map<Id, Scope>, q: Request): map<Id, Scope> {
    if !Admitted(m, q) then m
    else match q
      case SaveTree(p, dir, payload) => m[p := m[p].(tree := Some(Displayed(dir, payload)))]
      case SavePolicy(p, _, dir, row, payload, _) =>
        m[p := Scope(row.name, row.legacy, if payload.Some? then Some(Displayed(dir, payload.value)) else None)]
      case Migrate(p, dir) => m[p := m[p].(tree := Some(LegacyTree(dir, m[p].legacy)))]
      case DeletePolicy(p, _) => m - {p}
  }

  /** Deleting the root and letting the keys cascade is deleting every group of the policy. */
  lemma ClearingAgrees(tb: Tables, policy: Id)
    requires Valid(tb)
    ensures ClearedFromRoot(tb, policy) == Cleared(tb, policy)
  {
    RootOfFinds(tb.groups, policy);
    match RootOf(tb.groups, policy)
    case Some(r) => CascadeIsPolicy(tb, r);
    case None =>
      forall r | r in tb.groups
        ensures r.policy != policy
      {
        NoOrphans(tb, r);
      }
      assert PolicyIds(tb.groups, policy) == {};
      NothingDoomed(tb.groups, tb.conditions);
  }

  lemma {:induction false} NothingDoomed(groups: seq<GroupRow>, conditions: seq<ConditionRow>)
    ensures KeepGroups(groups, {}) == groups && KeepConditions(conditions, {}) == conditions
    decreases |groups| + |conditions|
  {
    if groups != [] {
      NothingDoomed(groups[1..], conditions);
    } else if conditions != [] {
      NothingDoomed(groups, conditions[1..]);
    }
  }

  lemma AgreeingTree(tb: Tables, u: Tables, policy: Id)
    requires Valid(tb) && Valid(u) && Agree(tb, u, policy)
    requires forall r :: r in u.groups && r.policy == policy ==> r in tb.groups
    ensures TreeOf(u, policy) == TreeOf(tb, policy)
  {
    RootOfFinds(tb.groups, policy);
    RootOfExact(u, policy);
    RootOfExact(tb, policy);
    match RootOf(tb.groups, policy)
    case Some(r) =>
      assert r in u.groups;
      ReadsAgree(tb, u, r);
    case None => RootOfFinds(u.groups, policy);
  }

  /** Clearing a policy removes its tree and no other. */
  lemma ClearedTrees(tb: Tables, policy: Id)
    requires Valid(tb)
    ensures var u := Cleared(tb, policy);
            && Valid(u)
            && (forall r :: r in u.groups <==> r in tb.groups && r.policy != policy)
            && TreeOf(u, policy) == None
            && forall o :: o != policy ==> TreeOf(u, o) == TreeOf(tb, o)
  {
    var u := Cleared(tb, policy);
    DeleteKeepsValid(tb, policy);
    DeletedRows(tb, policy);
    RootOfFinds(u.groups, policy);
    forall o | o != policy
      ensures TreeOf(u, o) == TreeOf(tb, o)
    {
      DeleteAgrees(tb, policy, o);
      AgreeingTree(tb, u, o);
    }
  }

  /** Inserting a tree for a policy without rows gives it that tree and changes no other. */
  lemma InsertedTrees(tb: Tables, policy: Id, t: Tree)
    requires Valid(tb) && forall r :: r in tb.groups ==> r.policy != policy
    ensures var u := Insert(tb, policy, t);
            && Valid(u)
            && (forall r :: r in u.groups ==> r in tb.groups || r.policy == policy)
            && TreeOf(u, policy) == Some(t)
            && forall o :: o != policy ==> TreeOf(u, o) == TreeOf(tb, o)
  {
    var u := Insert(tb, policy, t);
    InsertKeepsValid(tb, policy, t);
    InsertedRows(tb, policy, t);
    InsertedReads(tb, policy, t);
    RootOfExact(u, policy);
    var rows := GroupRows(tb.nextId, policy, None, 0, t);
    assert rows[0] == RootRow(tb.nextId, policy, None, 0, t) && rows[0] in u.groups;
    forall o | o != policy
      ensures TreeOf(u, o) == TreeOf(tb, o)
    {
      InsertAgrees(tb, policy, t, o);
      AgreeingTree(tb, u, o);
    }
  }

  lemma ReplacedTrees(tb: Tables, policy: Id, t: Tree)
    requires Valid(tb)
    ensures var u := Insert(Cleared(tb, policy), policy, t);
            && Valid(u)
            && (forall r :: r in u.groups ==> r in tb.groups || r.policy == policy)
            && TreeOf(u, policy) == Some(t)
            && forall o :: o != policy ==> TreeOf(u, o) == TreeOf(tb, o)
  {
    ClearedTrees(tb, policy);
    InsertedTrees(Cleared(tb, policy), policy, t);
  }

  /** At the level of rows: the policy's rows are exactly the new tree's, and nobody else's row is touched. */
  lemma ReplacedRows(tb: Tables, policy: Id, t: Tree)
    requires Valid(tb)
    ensures var u := Insert(Cleared(tb, policy), policy, t);
            && (forall r :: r in u.groups && r.policy == policy <==> r in GroupRows(tb.nextId, policy, None, 0, t))
            && (forall r: GroupRow :: r.policy != policy ==> (r in u.groups <==> r in tb.groups))
            && (forall c :: c in u.conditions <==>
                  c in LeafRows(tb.nextId, t) || (c in tb.conditions && c.group !in PolicyIds(tb.groups, policy)))
  {
    ClearedTrees(tb, policy);
    InsertedRows(Cleared(tb, policy), policy, t);
    KeptConditions(tb.conditions, PolicyIds(tb.groups, policy));
  }

  /** A write that touches only one policy changes the meaning at that policy only. */
  lemma WriteMeans(s: State, policy: Id, row: PolicyRow, u: Tables)
    requires ValidState(s) && Valid(u)
    requires forall r :: r in u.groups ==> r in s.tb.groups || r.policy == policy
    requires forall o :: o != policy ==> TreeOf(u, o) == TreeOf(s.tb, o)
    requires forall o :: o in s.policies && o != policy ==> s.policies[o].name != row.name
    ensures var n := State(s.policies[policy := row], u);
            ValidState(n) && Meaning(n) == Meaning(s)[policy := Scope(row.name, row.legacy, TreeOf(u, policy))]
  {
    var n := State(s.policies[policy := row], u);
    assert ValidState(n);
    var m, e := Meaning(n), Meaning(s)[policy := Scope(row.name, row.legacy, TreeOf(u, policy))];
    assert m.Keys == e.Keys;
    assert forall o :: o in m ==> m[o] == e[o];
  }

  lemma SameRow(s: State, policy: Id)
    requires policy in s.policies
    ensures s.policies[policy := s.policies[policy]] == s.policies
  {
  }

  lemma SaveTreeRefines(s: State, p: Id, dir: Directory, payload: GroupInput)
    requires ValidState(s) && Admitted(Meaning(s), SaveTree(p, dir, payload))
    ensures var q := SaveTree(p, dir, payload);
            ValidState(Step(s, q)) && Meaning(Step(s, q)) == SpecStep(Meaning(s), q)
  {
    ClearingAgrees(s.tb, p);
    ReplacedTrees(s.tb, p, Displayed(dir, payload));
    WriteMeans(s, p, s.policies[p], Insert(Cleared(s.tb, p), p, Displayed(dir, payload)));
    SameRow(s, p);
  }

  lemma SavePolicyRefines(s: State, q: Request)
    requires q.SavePolicy? && ValidState(s) && Admitted(Meaning(s), q)
    ensures ValidState(Step(s, q)) && Meaning(Step(s, q)) == SpecStep(Meaning(s), q)
  {
    ClearedTrees(s.tb, q.policy);
    forall o | o in s.policies && o != q.policy
      ensures s.policies[o].name != q.row.name
    {
      assert Meaning(s)[o].name == s.policies[o].name;
    }
    var u := Cleared(s.tb, q.policy);
    if q.scope.Some? {
      ReplacedTrees(s.tb, q.policy, Displayed(q.dir, q.scope.value));
      u := Insert(u, q.policy, Displayed(q.dir, q.scope.value));
    }
    WriteMeans(s, q.policy, q.row, u);
  }

  lemma MigrateRefines(s: State, p: Id, dir: Directory)
    requires ValidState(s) && Admitted(Meaning(s), Migrate(p, dir))
    ensures var q := Migrate(p, dir);
            ValidState(Step(s, q)) && Meaning(Step(s, q)) == SpecStep(Meaning(s), q)
  {
    forall r | r in s.tb.groups
      ensures r.policy != p
    {
      if r.policy == p {
        NoOrphans(s.tb, r);
      }
    }
    InsertedTrees(s.tb, p, LegacyTree(dir, s.policies[p].legacy));
    WriteMeans(s, p, s.policies[p], Insert(s.tb, p, LegacyTree(dir, s.policies[p].legacy)));
    SameRow(s, p);
  }

  lemma DeletePolicyRefines(s: State, p: Id)
    requires ValidState(s) && p in s.policies
    ensures var q := DeletePolicy(p, true);
            ValidState(Step(s, q)) && Meaning(Step(s, q)) == SpecStep(Meaning(s), q)
  {
    ClearedTrees(s.tb, p);
    var n := Step(s, DeletePolicy(p, true));
    assert n == State(s.policies - {p}, Cleared(s.tb, p));
    assert ValidState(n);
    var m, e := Meaning(n), Meaning(s) - {p};
    assert m.Keys == e.Keys;
    assert forall o :: o in m ==> m[o] == e[o];
  }

  /** One request on the rows is that request on the map, and keeps the rows well formed. */
  lemma StepRefines(s: State, q: Request)
    requires ValidState(s)
    ensures ValidState(Step(s, q))
    ensures Meaning(Step(s, q)) == SpecStep(Meaning(s), q)
  {
    if Admitted(Meaning(s), q) {
      match q
      case SaveTree(p, dir, payload) => SaveTreeRefines(s, p, dir, payload);
      case SavePolicy(_, _, _, _, _, _) => SavePolicyRefines(s, q);
      case Migrate(p, dir) => MigrateRefines(s, p, dir);
      case DeletePolicy(p, _) => DeletePolicyRefines(s, p);
    }
  }

  /* ---------- Runs ---------- */

  ghost function Run(s: State, qs: seq<Request>): State
    requires ValidState(s)
    ensures ValidState(Run(s, qs))
    decreases |qs|
  {
    if qs == [] then s
    else
      StepRefines(s, qs[0]);
      Run(Step(s, qs[0]), qs[1..])
  }

  ghost function SpecRun(m: map<Id, Scope>, qs: seq<Request>): map<Id, Scope>
    decreases |qs|
  {
    if qs == [] then m else SpecRun(SpecStep(m, qs[0]), qs[1..])
  }

  /** Every run of requests on the rows means the same run on the map. */
  lemma {:induction false} RunRefines(s: State, qs: seq<Request>)
    requires ValidState(s)
    ensures Meaning(Run(s, qs)) == SpecRun(Meaning(s), qs)
    decreases |qs|
  {
    if qs != [] {
      StepRefines(s, qs[0]);
      RunRefines(Step(s, qs[0]), qs[1..]);
    }
  }
}
