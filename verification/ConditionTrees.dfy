/**
 Condition trees: the nested payload an administrator submits, its validation, and
 the tree it denotes once every database-backed value has been looked up.
 */
module ConditionTrees {
  import opened Wrappers

  /** A database id.  Ids are issued in creation order. */
  type Id = nat

  datatype ObjectType = User | UserGroup | Device | DeviceGroup | SourceIp

  datatype Operator = AND | OR | NOT

  datatype ValueType = DatabaseId | Manual

  /** `referenced_object_id` as it arrives: absent or empty, not a UUID, or a UUID. */
  datatype Reference = NoReference | Malformed | To(id: Id)

  datatype ConditionInput = ConditionInput(objectType: ObjectType, operator: string, value: string, ref: Reference)

  datatype GroupInput = GroupInput(op: Operator, conditions: seq<ConditionInput>, children: seq<GroupInput>)

  /** What a stored condition says, apart from where it hangs. */
  datatype Leaf = Leaf(objectType: ObjectType, operator: string, valueType: ValueType, value: string, ref: Option<Id>)

  /** The tree as the API returns it. */
  datatype Tree = Tree(op: Operator, conditions: seq<Leaf>, children: seq<Tree>)

  /** The rows conditions may refer to, and the address syntax they may use. */
  datatype Directory = Directory(names: map<(ObjectType, Id), string>, idText: Id -> string,
                                 isNetwork: string -> bool, isAddress: string -> bool)

  datatype Rejection =
    | EmptyGroup
    | BadOperator
    | MissingReference
    | MalformedReference
    | DanglingReference
    | BadNetwork
    | BadAddress

  predicate OperatorAllowed(t: ObjectType, op: string) {
    op == "equal" || op == "not_equal" || (t == SourceIp && (op == "is_in_cidr" || op == "is_not_in_cidr"))
  }

  /** Validates one condition; a database-backed value is replaced by the looked-up display name. */
  function MakeLeaf(dir: Directory, c: ConditionInput): Result<Leaf, Rejection> {
    if !OperatorAllowed(c.objectType, c.operator) then Err(BadOperator)
    else if c.objectType != SourceIp then
      match c.ref
      case NoReference => Err(MissingReference)
      case Malformed => Err(MalformedReference)
      case To(id) =>
        if (c.objectType, id) !in dir.names then Err(DanglingReference)
        else
          var name := dir.names[(c.objectType, id)];
          Ok(Leaf(c.objectType, c.operator, DatabaseId, if name != "" then name else dir.idText(id), Some(id)))
    else if c.operator == "is_in_cidr" || c.operator == "is_not_in_cidr" then
      if dir.isNetwork(c.value) then Ok(Leaf(SourceIp, c.operator, Manual, c.value, None)) else Err(BadNetwork)
    else
      if dir.isAddress(c.value) then Ok(Leaf(SourceIp, c.operator, Manual, c.value, None)) else Err(BadAddress)
  }

  predicate LeavesAccepted(dir: Directory, cs: seq<ConditionInput>) {
    forall i :: 0 <= i < |cs| ==> MakeLeaf(dir, cs[i]).Ok?
  }

  /** Every node of the payload is acceptable. */
  predicate Accepted(dir: Directory, t: GroupInput)
    decreases t, 0
  {
    && (t.conditions != [] || t.children != [])
    && LeavesAccepted(dir, t.conditions)
    && AllAccepted(dir, t.children)
  }

  predicate AllAccepted(dir: Directory, ts: seq<GroupInput>)
    decreases ts, 1
  {
    ts == [] || (Accepted(dir, ts[0]) && AllAccepted(dir, ts[1..]))
  }

  function Leaves(dir: Directory, cs: seq<ConditionInput>): (r: seq<Leaf>)
    requires LeavesAccepted(dir, cs)
    ensures |r| == |cs|
  {
    seq(|cs|, i requires 0 <= i < |cs| => MakeLeaf(dir, cs[i]).value)
  }

  /** The tree an acceptable payload denotes. */
  function Displayed(dir: Directory, t: GroupInput): Tree
    requires Accepted(dir, t)
    decreases t, 0
  {
    Tree(t.op, Leaves(dir, t.conditions), AllDisplayed(dir, t.children))
  }

  function AllDisplayed(dir: Directory, ts: seq<GroupInput>): (r: seq<Tree>)
    requires AllAccepted(dir, ts)
    ensures |r| == |ts|
    decreases ts, 1
  {
    if ts == [] then [] else [Displayed(dir, ts[0])] + AllDisplayed(dir, ts[1..])
  }

  /* ---------- Which error a rejected payload reports ---------- */

  function LeafFault(dir: Directory, cs: seq<ConditionInput>): Option<Rejection> {
    if cs == [] then None
    else match MakeLeaf(dir, cs[0])
      case Err(e) => Some(e)
      case Ok(_) => LeafFault(dir, cs[1..])
  }

  /** The first fault met: the group itself, its conditions, then its subgroups, left to right. */
  function Fault(dir: Directory, t: GroupInput): Option<Rejection>
    decreases t, 0
  {
    if t.conditions == [] && t.children == [] then Some(EmptyGroup)
    else match LeafFault(dir, t.conditions)
      case Some(e) => Some(e)
      case None => ForestFault(dir, t.children)
  }

  function ForestFault(dir: Directory, ts: seq<GroupInput>): Option<Rejection>
    decreases ts, 1
  {
    if ts == [] then None
    else match Fault(dir, ts[0])
      case Some(e) => Some(e)
      case None => ForestFault(dir, ts[1..])
  }

  lemma {:induction false} LeafFaultExact(dir: Directory, cs: seq<ConditionInput>)
    ensures LeafFault(dir, cs).None? <==> LeavesAccepted(dir, cs)
  {
    if cs != [] {
      LeafFaultExact(dir, cs[1..]);
      assert forall i :: 0 < i < |cs| ==> cs[i] == cs[1..][i - 1];
    }
  }

  /** The traversal finds a fault exactly when some node, at whatever depth, is unacceptable. */
  lemma {:induction false} FaultExact(dir: Directory, t: GroupInput)
    ensures Fault(dir, t).None? <==> Accepted(dir, t)
    decreases t, 0
  {
    LeafFaultExact(dir, t.conditions);
    ForestFaultExact(dir, t.children);
  }

  lemma {:induction false} ForestFaultExact(dir: Directory, ts: seq<GroupInput>)
    ensures ForestFault(dir, ts).None? <==> AllAccepted(dir, ts)
    decreases ts, 1
  {
    if ts != [] {
      FaultExact(dir, ts[0]);
      ForestFaultExact(dir, ts[1..]);
    }
  }

  /** Of the conditions of a group the first unacceptable one is reported. */
  lemma {:induction false} FirstLeafFault(dir: Directory, cs: seq<ConditionInput>, e: Rejection)
    ensures LeafFault(dir, cs) == Some(e) <==>
            exists k :: 0 <= k < |cs| && MakeLeaf(dir, cs[k]) == Err(e) && LeavesAccepted(dir, cs[..k])
  {
    if cs != [] {
      FirstLeafFault(dir, cs[1..], e);
      if MakeLeaf(dir, cs[0]).Ok? {
        forall k | 0 < k <= |cs|
          ensures LeavesAccepted(dir, cs[..k]) <==> LeavesAccepted(dir, cs[1..][..k - 1])
        {
          assert cs[..k] == [cs[0]] + cs[1..][..k - 1];
        }
        if k :| 0 <= k < |cs[1..]| && MakeLeaf(dir, cs[1..][k]) == Err(e) && LeavesAccepted(dir, cs[1..][..k]) {
          assert cs[k + 1] == cs[1..][k] && LeavesAccepted(dir, cs[..k + 1]);
        }
        if k :| 0 <= k < |cs| && MakeLeaf(dir, cs[k]) == Err(e) && LeavesAccepted(dir, cs[..k]) {
          assert cs[k] == cs[1..][k - 1] && LeavesAccepted(dir, cs[1..][..k - 1]);
        }
      } else {
        forall k | 0 < k <= |cs|
          ensures !LeavesAccepted(dir, cs[..k])
        {
          assert cs[..k][0] == cs[0];
        }
        assert LeavesAccepted(dir, cs[..0]);
      }
    }
  }

  /** The first subgroup with a fault, and that fault. */
  ghost predicate FirstAt(dir: Directory, ts: seq<GroupInput>, k: nat, e: Rejection) {
    k < |ts| && Fault(dir, ts[k]) == Some(e) && forall j :: 0 <= j < k ==> Fault(dir, ts[j]) == None
  }

  lemma FirstAtTail(dir: Directory, ts: seq<GroupInput>, k: nat, e: Rejection)
    requires ts != [] && Fault(dir, ts[0]) == None
    ensures FirstAt(dir, ts, k + 1, e) <==> FirstAt(dir, ts[1..], k, e)
  {
    if FirstAt(dir, ts, k + 1, e) {
      assert forall j :: 0 <= j < k ==> ts[1..][j] == ts[j + 1];
    }
  }

  /** Of the subgroups the first with a fault is reported, by its own first fault. */
  lemma {:induction false} FirstForestFault(dir: Directory, ts: seq<GroupInput>, e: Rejection)
    ensures ForestFault(dir, ts) == Some(e) <==> exists k: nat :: FirstAt(dir, ts, k, e)
  {
    if ts != [] {
      FirstForestFault(dir, ts[1..], e);
      if Fault(dir, ts[0]) == None {
        if k: nat :| FirstAt(dir, ts[1..], k, e) {
          FirstAtTail(dir, ts, k, e);
        }
        if k: nat :| FirstAt(dir, ts, k, e) {
          FirstAtTail(dir, ts, k - 1, e);
        }
      } else if Fault(dir, ts[0]) == Some(e) {
        assert FirstAt(dir, ts, 0, e);
      }
    }
  }

  /* ---------- What is stored of a submission ---------- */

  /** The operator exists for the type, and what it compares with is a known row or readable address text. */
  predicate Sayable(dir: Directory, c: ConditionInput) {
    if c.objectType == SourceIp then
      || (c.operator in ["equal", "not_equal"] && dir.isAddress(c.value))
      || (c.operator in ["is_in_cidr", "is_not_in_cidr"] && dir.isNetwork(c.value))
    else
      c.operator in ["equal", "not_equal"] && c.ref.To? && (c.objectType, c.ref.id) in dir.names
  }

  /** The stored condition compares the same thing, in the same way, with what was submitted: the row referred to,
      shown by its name or else its id, or the submitted text. */
  predicate Says(dir: Directory, c: ConditionInput, l: Leaf) {
    && l.objectType == c.objectType
    && l.operator == c.operator
    && (c.objectType == SourceIp ==> l.valueType == Manual && l.value == c.value && l.ref == None)
    && (c.objectType != SourceIp ==>
          && c.ref.To? && l.ref == Some(c.ref.id) && l.valueType == DatabaseId
          && (c.objectType, c.ref.id) in dir.names
          && l.value == var name := dir.names[(c.objectType, c.ref.id)];
                        if name == "" then dir.idText(c.ref.id) else name)
  }

  /** A condition is accepted exactly if it is sayable, and is stored as what it says. */
  lemma ConditionExact(dir: Directory, c: ConditionInput)
    ensures MakeLeaf(dir, c).Ok? <==> Sayable(dir, c)
    ensures MakeLeaf(dir, c).Ok? ==> Says(dir, c, MakeLeaf(dir, c).value)
  {
    OperatorNames();
  }

  lemma OperatorNames()
    ensures Distinct(["equal", "not_equal", "is_in_cidr", "is_not_in_cidr"])
  {
    assert |"equal"| == 5 && |"not_equal"| == 9 && |"is_in_cidr"| == 10 && |"is_not_in_cidr"| == 14;
  }

  /** Why a condition is refused: the operator is looked at first, then the reference or the text. */
  lemma RefusalExact(dir: Directory, c: ConditionInput)
    ensures var r, source := MakeLeaf(dir, c), c.objectType == SourceIp;
            var cidr := c.operator in ["is_in_cidr", "is_not_in_cidr"];
            var known := c.operator in ["equal", "not_equal"] || (source && cidr);
            && (r == Err(BadOperator) <==> !known)
            && (r == Err(MissingReference) <==> known && !source && c.ref == NoReference)
            && (r == Err(MalformedReference) <==> known && !source && c.ref == Malformed)
            && (r == Err(DanglingReference) <==>
                  known && !source && c.ref.To? && (c.objectType, c.ref.id) !in dir.names)
            && (r == Err(BadNetwork) <==> source && cidr && !dir.isNetwork(c.value))
            && (r == Err(BadAddress) <==> known && source && !cidr && !dir.isAddress(c.value))
            && r != Err(EmptyGroup)
  {
    OperatorNames();
  }

  /** The tree says what the payload says: no group of the payload is empty, every condition is sayable, and operators,
      conditions and subgroups are the same, one by one, at every depth. */
  ghost predicate Stores(dir: Directory, t: GroupInput, d: Tree)
    decreases t, 0
  {
    && d.op == t.op
    && |d.conditions| + |d.children| > 0
    && |d.conditions| == |t.conditions|
    && (forall i :: 0 <= i < |t.conditions| ==>
                      Sayable(dir, t.conditions[i]) && Says(dir, t.conditions[i], d.conditions[i]))
    && StoresAll(dir, t.children, d.children)
  }

  ghost predicate StoresAll(dir: Directory, ts: seq<GroupInput>, ds: seq<Tree>)
    decreases ts, 1
  {
    |ts| == |ds| && (ts == [] || (Stores(dir, ts[0], ds[0]) && StoresAll(dir, ts[1..], ds[1..])))
  }

  lemma SaysOnce(dir: Directory, c: ConditionInput, l: Leaf)
    ensures Sayable(dir, c) && Says(dir, c, l) <==> MakeLeaf(dir, c) == Ok(l)
  {
    ConditionExact(dir, c);
  }

  /** A payload is accepted exactly if some tree says what it says, and that tree is the one it is stored as. */
  lemma {:induction false} StoresExact(dir: Directory, t: GroupInput, d: Tree)
    ensures Stores(dir, t, d) <==> Accepted(dir, t) && d == Displayed(dir, t)
    decreases t, 0
  {
    StoresAllExact(dir, t.children, d.children);
    forall i | 0 <= i < |t.conditions| && |d.conditions| == |t.conditions|
      ensures Sayable(dir, t.conditions[i]) && Says(dir, t.conditions[i], d.conditions[i])
              <==> MakeLeaf(dir, t.conditions[i]) == Ok(d.conditions[i])
    {
      SaysOnce(dir, t.conditions[i], d.conditions[i]);
    }
    if Stores(dir, t, d) {
      assert d.conditions == Leaves(dir, t.conditions);
    }
  }

  lemma {:induction false} StoresAllExact(dir: Directory, ts: seq<GroupInput>, ds: seq<Tree>)
    ensures StoresAll(dir, ts, ds) <==> AllAccepted(dir, ts) && ds == AllDisplayed(dir, ts)
    decreases ts, 1
  {
    if ts != [] && |ts| == |ds| {
      StoresExact(dir, ts[0], ds[0]);
      StoresAllExact(dir, ts[1..], ds[1..]);
      assert ds == [ds[0]] + ds[1..];
    }
  }

  /* ---------- Submitting what was read ---------- */

  /** A tree read from the server, as the editor sends it back. */
  function Resubmitted(d: Tree): GroupInput
    decreases d, 0
  {
    GroupInput(d.op, seq(|d.conditions|, i requires 0 <= i < |d.conditions| => AsInput(d.conditions[i])),
               AllResubmitted(d.children))
  }

  function AllResubmitted(ds: seq<Tree>): (r: seq<GroupInput>)
    ensures |r| == |ds|
    decreases ds, 1
  {
    if ds == [] then [] else [Resubmitted(ds[0])] + AllResubmitted(ds[1..])
  }

  function AsInput(l: Leaf): ConditionInput {
    ConditionInput(l.objectType, l.operator, l.value, if l.ref.Some? then To(l.ref.value) else NoReference)
  }

  lemma AsInputSays(dir: Directory, c: ConditionInput)
    requires MakeLeaf(dir, c).Ok?
    ensures MakeLeaf(dir, AsInput(MakeLeaf(dir, c).value)) == MakeLeaf(dir, c)
  {
  }

  /** Sending a stored tree back unchanged is accepted and stores the same tree. */
  lemma {:induction false} ResubmissionKeeps(dir: Directory, t: GroupInput)
    requires Accepted(dir, t)
    ensures Accepted(dir, Resubmitted(Displayed(dir, t)))
    ensures Displayed(dir, Resubmitted(Displayed(dir, t))) == Displayed(dir, t)
    decreases t, 0
  {
    var back := Resubmitted(Displayed(dir, t));
    AllResubmissionsKeep(dir, t.children);
    forall i | 0 <= i < |t.conditions|
      ensures MakeLeaf(dir, back.conditions[i]) == MakeLeaf(dir, t.conditions[i])
    {
      AsInputSays(dir, t.conditions[i]);
    }
    assert Leaves(dir, back.conditions) == Leaves(dir, t.conditions);
  }

  lemma {:induction false} AllResubmissionsKeep(dir: Directory, ts: seq<GroupInput>)
    requires AllAccepted(dir, ts)
    ensures AllAccepted(dir, AllResubmitted(AllDisplayed(dir, ts)))
    ensures AllDisplayed(dir, AllResubmitted(AllDisplayed(dir, ts))) == AllDisplayed(dir, ts)
    decreases ts, 1
  {
    if ts != [] {
      ResubmissionKeeps(dir, ts[0]);
      AllResubmissionsKeep(dir, ts[1..]);
    }
  }
}
