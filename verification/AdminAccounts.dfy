/** The administrator accounts: creating, changing and deleting them without locking everyone out. */
module AdminAccounts {
  import opened Wrappers

  datatype Account = Account(id: nat, username: string, active: bool, superadmin: bool)

  /** What a request asks an account to be. `hosts` says a trusted-host list is given, `admitted` that it admits the
      address the request comes from; `roleKnown` that the role, if any, exists. */
  datatype Fields = Fields(username: string, active: bool, superadmin: bool, hosts: bool, admitted: bool,
      roleKnown: bool)

  /** `requester` is the name in the session token. */
  datatype Request =
    | Create(requester: string, fields: Fields, limit: Option<nat>)
    | Update(requester: string, id: nat, fields: Fields)
    | Delete(requester: string, id: nat)

  datatype Reply = Done | Unauthenticated | Forbidden | NotFound | BadRequest | PaymentRequired | Conflict

  ghost predicate Valid(rows: seq<Account>, next: nat) {
    && (forall i, j :: 0 <= i < j < |rows| ==> rows[i].id != rows[j].id && rows[i].username != rows[j].username)
    && (forall i :: 0 <= i < |rows| ==> rows[i].id < next)
  }

  predicate Governs(a: Account) {
    a.active && a.superadmin
  }

  function Named(rows: seq<Account>, name: string): (r: Option<nat>)
    ensures r.Some? ==> r.value < |rows| && rows[r.value].username == name
    ensures r.None? ==> forall a :: a in rows ==> a.username != name
  {
    if rows == [] then None
    else if rows[0].username == name then Some(0)
    else match Named(rows[1..], name)
      case None => None
      case Some(k) => Some(k + 1)
  }

  function WithId(rows: seq<Account>, id: nat): (r: Option<nat>)
    ensures r.Some? ==> r.value < |rows| && rows[r.value].id == id
    ensures r.None? ==> forall a :: a in rows ==> a.id != id
  {
    if rows == [] then None
    else if rows[0].id == id then Some(0)
    else match WithId(rows[1..], id)
      case None => None
      case Some(k) => Some(k + 1)
  }

  /** `_active_superadmin_count` */
  function Governors(rows: seq<Account>, excluding: Option<nat>): (n: nat)
    ensures n > 0 <==> exists a :: a in rows && Governs(a) && excluding != Some(a.id)
  {
    if rows == [] then 0
    else
      assert forall a :: a in rows <==> a == rows[0] || a in rows[1..];
      (if Governs(rows[0]) && excluding != Some(rows[0].id) then 1 else 0) + Governors(rows[1..], excluding)
  }

  /** `get_current_superadmin`: the row of the account that makes the request, or why it may not. */
  function Actor(rows: seq<Account>, requester: string): (r: Result<nat, Reply>)
    ensures r.Ok? ==> r.value < |rows| && Governs(rows[r.value])
  {
    match Named(rows, requester)
    case None => Err(Unauthenticated)
    case Some(k) =>
      if !rows[k].active then Err(Unauthenticated) else if !rows[k].superadmin then Err(Forbidden) else Ok(k)
  }

  predicate NameTaken(rows: seq<Account>, name: string, id: nat) {
    exists i :: 0 <= i < |rows| && rows[i].username == name && rows[i].id != id
  }

  function AfterCreate(rows: seq<Account>, next: nat, f: Fields, limit: Option<nat>): (seq<Account>, Reply) {
    if !f.roleKnown then (rows, BadRequest)
    else if limit.Some? && |rows| + 1 > limit.value then (rows, PaymentRequired)
    else if Named(rows, f.username).Some? then (rows, Conflict)
    else (rows + [Account(next, f.username, f.active, f.superadmin)], Done)
  }

  function AfterUpdate(rows: seq<Account>, actor: Account, id: nat, f: Fields): (seq<Account>, Reply) {
    match WithId(rows, id)
    case None => (rows, NotFound)
    case Some(k) =>
      var isSelf := id == actor.id;
      if isSelf && !f.active then (rows, BadRequest)
      else if Governs(rows[k]) && !(f.superadmin && f.active) && Governors(rows, Some(id)) == 0 then (rows, BadRequest)
      else if isSelf && f.hosts && !f.admitted then (rows, BadRequest)
      else if !f.roleKnown then (rows, BadRequest)
      else if NameTaken(rows, f.username, id) then (rows, Conflict)
      else (rows[k := Account(id, f.username, f.active, f.superadmin)], Done)
  }

  function AfterDelete(rows: seq<Account>, actor: Account, id: nat): (seq<Account>, Reply) {
    match WithId(rows, id)
    case None => (rows, NotFound)
    case Some(k) =>
      if id == actor.id then (rows, BadRequest)
      else if Governs(rows[k]) && Governors(rows, Some(id)) == 0 then (rows, BadRequest)
      else (rows[..k] + rows[k + 1..], Done)
  }

  datatype State = State(rows: seq<Account>, next: nat)

  function Handled(s: State, r: Request): (seq<Account>, Reply) {
    match Actor(s.rows, r.requester)
    case Err(e) => (s.rows, e)
    case Ok(k) =>
      match r
      case Create(_, f, limit) => AfterCreate(s.rows, s.next, f, limit)
      case Update(_, id, f) => AfterUpdate(s.rows, s.rows[k], id, f)
      case Delete(_, id) => AfterDelete(s.rows, s.rows[k], id)
  }

  function Step(s: State, r: Request): State {
    State(Handled(s, r).0, s.next + 1)
  }

  function Run(s: State, requests: seq<Request>): State
    decreases |requests|
  {
    if requests == [] then s else Run(Step(s, requests[0]), requests[1..])
  }

  /* ---------- What each request does, and when ---------- */

  /** The requester is an active superadmin. */
  ghost predicate May(rows: seq<Account>, requester: string, k: nat) {
    k < |rows| && rows[k].username == requester && rows[k].active && rows[k].superadmin
  }

  /** Without such an account nothing is done. */
  lemma OnlySuperadmins(s: State, next: nat, r: Request)
    requires Valid(s.rows, next)
    ensures Actor(s.rows, r.requester).Ok? <==> exists k :: May(s.rows, r.requester, k)
    ensures forall k: nat :: May(s.rows, r.requester, k) ==> Actor(s.rows, r.requester) == Ok(k)
    ensures !(exists k :: May(s.rows, r.requester, k)) ==>
              Handled(s, r).0 == s.rows && Handled(s, r).1 in {Unauthenticated, Forbidden}
  {
    NamedOnly(s.rows, next, r.requester);
    if Actor(s.rows, r.requester).Ok? {
      assert May(s.rows, r.requester, Actor(s.rows, r.requester).value);
    }
  }

  lemma NamedOnly(rows: seq<Account>, next: nat, name: string)
    requires Valid(rows, next)
    ensures forall k: nat :: k < |rows| ==> (rows[k].username == name <==> Named(rows, name) == Some(k))
  {
  }

  lemma WithIdOnly(rows: seq<Account>, next: nat, id: nat)
    requires Valid(rows, next)
    ensures forall k: nat :: k < |rows| ==> (rows[k].id == id <==> WithId(rows, id) == Some(k))
  {
  }

  /** A creation by an active superadmin is accepted exactly if the role exists, the limit leaves room for one more and
      nobody has the name; it adds one account, with just what was asked for. */
  lemma CreateExact(s: State, actor: nat, requester: string, f: Fields, limit: Option<nat>)
    requires Valid(s.rows, s.next) && May(s.rows, requester, actor)
    ensures var (after, reply) := Handled(s, Create(requester, f, limit));
            && (reply == Done <==>
                  && f.roleKnown && (forall n :: limit == Some(n) ==> |s.rows| < n)
                  && (forall a :: a in s.rows ==> a.username != f.username))
            && (reply == Done ==> after == s.rows + [Account(s.next, f.username, f.active, f.superadmin)])
            && (reply != Done ==> after == s.rows)
  {
    OnlySuperadmins(s, s.next, Create(requester, f, limit));
    NamedOnly(s.rows, s.next, f.username);
    assert forall a :: a in s.rows ==> exists k :: 0 <= k < |s.rows| && s.rows[k] == a;
  }

  /** An update is accepted exactly if the account exists, the name is nobody else's, the role exists, and the requester
      neither deactivates itself, nor gives up the last active superadmin's rights, nor shuts its own address out; the
      account then is just what was asked for, under its old id. */
  lemma UpdateExact(s: State, actor: nat, requester: string, id: nat, f: Fields)
    requires Valid(s.rows, s.next) && May(s.rows, requester, actor)
    ensures var (after, reply) := Handled(s, Update(requester, id, f));
            var self := id == s.rows[actor].id;
            var sole := forall k :: 0 <= k < |s.rows| && s.rows[k].active && s.rows[k].superadmin ==> k == actor;
            && (reply == Done <==>
                  && (exists k :: 0 <= k < |s.rows| && s.rows[k].id == id)
                  && (forall a :: a in s.rows && a.id != id ==> a.username != f.username)
                  && f.roleKnown
                  && (self ==> f.active && (sole ==> f.superadmin) && (f.hosts ==> f.admitted)))
            && (forall k :: reply == Done && 0 <= k < |s.rows| && s.rows[k].id == id ==>
                  after == s.rows[k := Account(id, f.username, f.active, f.superadmin)])
            && (reply != Done ==> after == s.rows)
  {
    OnlySuperadmins(s, s.next, Update(requester, id, f));
    WithIdOnly(s.rows, s.next, id);
    LastGuardIsForOneself(s.rows, s.next, actor, id);
    TakenExact(s.rows, f.username, id);
    assert Governs(s.rows[actor]);
  }

  lemma TakenExact(rows: seq<Account>, name: string, id: nat)
    ensures NameTaken(rows, name, id) <==> exists a :: a in rows && a.id != id && a.username == name
  {
    if a :| a in rows && a.id != id && a.username == name {
      var i :| 0 <= i < |rows| && rows[i] == a;
    }
  }

  /** A deletion is accepted exactly if the account exists and is not the requester's own; it removes that account and
      leaves the others in order. */
  lemma DeleteExact(s: State, actor: nat, requester: string, id: nat)
    requires Valid(s.rows, s.next) && May(s.rows, requester, actor)
    ensures var (after, reply) := Handled(s, Delete(requester, id));
            && (reply == Done <==> id != s.rows[actor].id && exists k :: 0 <= k < |s.rows| && s.rows[k].id == id)
            && (forall k :: reply == Done && 0 <= k < |s.rows| && s.rows[k].id == id ==>
                  after == s.rows[..k] + s.rows[k + 1..])
            && (reply != Done ==> after == s.rows)
  {
    OnlySuperadmins(s, s.next, Delete(requester, id));
    WithIdOnly(s.rows, s.next, id);
    LastGuardIsForOneself(s.rows, s.next, actor, id);
  }

  /* ---------- What every step keeps ---------- */

  ghost predicate Governed(rows: seq<Account>) {
    exists i :: 0 <= i < |rows| && Governs(rows[i])
  }

  ghost predicate StillActive(rows: seq<Account>, id: nat) {
    exists i :: 0 <= i < |rows| && rows[i].id == id && rows[i].active
  }

  lemma CreateKeeps(s: State, f: Fields, limit: Option<nat>)
    requires Valid(s.rows, s.next)
    ensures var after := AfterCreate(s.rows, s.next, f, limit).0;
            Valid(after, s.next + 1) && s.rows <= after
  {
  }

  lemma UpdateKeeps(rows: seq<Account>, next: nat, actor: nat, id: nat, f: Fields)
    requires Valid(rows, next) && actor < |rows| && Governs(rows[actor])
    ensures var after := AfterUpdate(rows, rows[actor], id, f).0;
            Valid(after, next) && Governed(after) && StillActive(after, rows[actor].id)
  {
    var after := AfterUpdate(rows, rows[actor], id, f).0;
    assert after[actor].id == rows[actor].id && after[actor].active;
    if after != rows {
      var k := WithId(rows, id).value;
      if Governs(rows[k]) && !Governs(after[k]) {
        var a :| a in rows && Governs(a) && Some(id) != Some(a.id);
        var i :| 0 <= i < |rows| && rows[i] == a;
        assert after[i] == a;
      }
    }
  }

  lemma DeleteKeeps(rows: seq<Account>, next: nat, actor: nat, id: nat)
    requires Valid(rows, next) && actor < |rows| && Governs(rows[actor])
    ensures var after := AfterDelete(rows, rows[actor], id).0;
            Valid(after, next) && Governed(after) && StillActive(after, rows[actor].id)
  {
    var after := AfterDelete(rows, rows[actor], id).0;
    if after != rows {
      var k := WithId(rows, id).value;
      var i := if actor < k then actor else actor - 1;
      assert after[i] == rows[actor];
    }
  }

  /** The account that makes the request, if it may, is there and active after it. */
  ghost predicate RequesterStays(s: State, r: Request) {
    Actor(s.rows, r.requester).Ok? ==> StillActive(Step(s, r).rows, s.rows[Actor(s.rows, r.requester).value].id)
  }

  /** Every step: the account that makes an authorised request is still there and active, and somebody governs. */
  lemma StepKeeps(s: State, r: Request)
    requires Valid(s.rows, s.next) && Governed(s.rows)
    ensures Valid(Step(s, r).rows, Step(s, r).next) && Governed(Step(s, r).rows)
    ensures RequesterStays(s, r)
  {
    if Actor(s.rows, r.requester).Ok? {
      var k := Actor(s.rows, r.requester).value;
      match r
      case Create(_, f, limit) =>
        CreateKeeps(s, f, limit);
        assert Step(s, r).rows[k] == s.rows[k];
      case Update(_, id, f) => UpdateKeeps(s.rows, s.next, k, id, f);
      case Delete(_, id) => DeleteKeeps(s.rows, s.next, k, id);
    }
  }

  /** However requests follow each other, an active superadmin remains, and at every one of them its requester stays. */
  lemma {:induction false} RunKeepsAGovernor(s: State, requests: seq<Request>)
    requires Valid(s.rows, s.next) && Governed(s.rows)
    ensures Valid(Run(s, requests).rows, Run(s, requests).next) && Governed(Run(s, requests).rows)
    ensures forall i :: 0 <= i < |requests| ==> RequesterStays(Run(s, requests[..i]), requests[i])
    decreases |requests|
  {
    forall i | 0 <= i < |requests|
      ensures RequesterStays(Run(s, requests[..i]), requests[i])
    {
      RunKeepsAGovernor(s, requests[..i]);
      StepKeeps(Run(s, requests[..i]), requests[i]);
    }
    if requests != [] {
      StepKeeps(s, requests[0]);
      RunKeepsAGovernor(Step(s, requests[0]), requests[1..]);
    }
  }

  /** The guard for the last superadmin can only stop somebody who is that superadmin from demoting itself: whoever
      asks governs, so for any other target one remains. */
  lemma LastGuardIsForOneself(rows: seq<Account>, next: nat, actor: nat, id: nat)
    requires Valid(rows, next) && actor < |rows| && Governs(rows[actor])
    ensures Governors(rows, Some(id)) == 0 <==>
            id == rows[actor].id && forall i :: 0 <= i < |rows| && Governs(rows[i]) ==> i == actor
  {
  }

  /* ---------- The routes ---------- */

  class Accounts {
    var rows: seq<Account>
    var next: nat

    constructor (rows: seq<Account>, next: nat)
      ensures Value() == State(rows, next)
    {
      this.rows, this.next := rows, next;
    }

    function Value(): State
      reads this
    {
      State(rows, next)
    }

    /** `_active_superadmin_count` */
    method ActiveSuperadminCount(excluding: Option<nat>) returns (n: nat)
      ensures n == Governors(rows, excluding)
    {
      n := 0;
      assert rows[0..] == rows;
      for i := 0 to |rows|
        invariant n + Governors(rows[i..], excluding) == Governors(rows, excluding)
      {
        assert rows[i..][1..] == rows[i + 1..];
        if Governs(rows[i]) && excluding != Some(rows[i].id) {
          n := n + 1;
        }
      }
    }

    /** `create_admin_user` */
    method CreateAdminUser(requester: string, f: Fields, limit: Option<nat>) returns (reply: Reply)
      modifies this
      ensures Value() == Step(old(Value()), Create(requester, f, limit))
      ensures reply == Handled(old(Value()), Create(requester, f, limit)).1
    {
      next := next + 1;
      var actor := Actor(rows, requester);
      if actor.Err? {
        return actor.error;
      }
      if !f.roleKnown {
        return BadRequest;
      }
      if limit.Some? && |rows| + 1 > limit.value {
        return PaymentRequired;
      }
      var saved := rows;
      rows := rows + [Account(next - 1, f.username, f.active, f.superadmin)];
      if Named(saved, f.username).Some? {
        rows := saved;
        return Conflict;
      }
      return Done;
    }

    method WriteFields(k: nat, f: Fields)
      requires k < |rows|
      modifies this`rows
      ensures rows == old(rows)[k := Account(old(rows)[k].id, f.username, f.active, f.superadmin)]
    {
      rows := rows[k := rows[k].(username := f.username)];
      rows := rows[k := rows[k].(active := f.active)];
      rows := rows[k := rows[k].(superadmin := f.superadmin)];
    }

    /** `update_admin_user` */
    method UpdateAdminUser(requester: string, id: nat, f: Fields) returns (reply: Reply)
      modifies this
      ensures Value() == Step(old(Value()), Update(requester, id, f))
      ensures reply == Handled(old(Value()), Update(requester, id, f)).1
    {
      next := next + 1;
      var actor := Actor(rows, requester);
      if actor.Err? {
        return actor.error;
      }
      var target := WithId(rows, id);
      if target.None? {
        return NotFound;
      }
      var k, isSelf := target.value, id == rows[actor.value].id;
      if isSelf && !f.active {
        return BadRequest;
      }
      if Governs(rows[k]) && !(f.superadmin && f.active) {
        var others := ActiveSuperadminCount(Some(id));
        if others == 0 {
          return BadRequest;
        }
      }
      if isSelf && f.hosts && !f.admitted {
        return BadRequest;
      }
      var saved := rows;
      WriteFields(k, f);
      if !f.roleKnown || NameTaken(saved, f.username, id) {
        rows := saved;
        return if !f.roleKnown then BadRequest else Conflict;
      }
      return Done;
    }

    /** `delete_admin_user` */
    method DeleteAdminUser(requester: string, id: nat) returns (reply: Reply)
      modifies this
      ensures Value() == Step(old(Value()), Delete(requester, id))
      ensures reply == Handled(old(Value()), Delete(requester, id)).1
    {
      next := next + 1;
      var actor := Actor(rows, requester);
      if actor.Err? {
        return actor.error;
      }
      var target := WithId(rows, id);
      if target.None? {
        return NotFound;
      }
      if id == rows[actor.value].id {
        return BadRequest;
      }
      var k := target.value;
      if Governs(rows[k]) {
        var others := ActiveSuperadminCount(Some(id));
        if others == 0 {
          return BadRequest;
        }
      }
      rows := rows[..k] + rows[k + 1..];
      return Done;
    }
  }
}
