/**
 The device inventory: every route that checks for overlaps, as steps over the table of devices.
 How network text is read is a parameter here; `Library` gives it as the other modules model it.
 */
module DeviceInventory {
  import opened Wrappers
  import opened Networks
  import opened NetworkTexts

  /** Reading stored network text, and what the request schema makes of submitted text. */
  datatype Reader = Reader(network: string -> Option<Net>, submitted: (string, Version) -> Result<string, Invalid>)

  ghost predicate Sound(lib: Reader) {
    && (forall t :: lib.network(t).Some? ==> Canonical(lib.network(t).value))
    && (forall t, v :: lib.submitted(t, v).Ok? ==>
                         lib.network(lib.submitted(t, v).value).Some?
                         && lib.network(lib.submitted(t, v).value).value.version == v)
  }

  function Library(v6: V6Text): Reader {
    Reader((t: string) => ParseNetwork(v6, t), (t: string, v: Version) => NormalizeCidr(v6, t, v))
  }

  lemma LibrarySound(v6: V6Text)
    requires Faithful(v6)
    ensures Sound(Library(v6))
  {
    forall t: string
      ensures Library(v6).network(t).Some? ==> Canonical(Library(v6).network(t).value)
    {
      ParsedNetworkCanonical(v6, t);
    }
    forall t: string, v: Version | NormalizeCidr(v6, t, v).Ok?
      ensures ParseNetwork(v6, NormalizeCidr(v6, t, v).value).Some?
      ensures ParseNetwork(v6, NormalizeCidr(v6, t, v).value).value.version == v
    {
      NormalizeIdempotent(v6, t, v);
    }
  }

  datatype Device = Device(id: nat, name: string, ip: string, ipv6: Option<string>)

  /** One side of `_check_no_overlap`: text that cannot be read clashes with nothing. */
  predicate Clash(lib: Reader, t: string, u: string)
    requires Sound(lib)
  {
    match (lib.network(t), lib.network(u))
    case (Some(n), Some(m)) => n.version == m.version && Overlaps(n, m)
    case _ => false
  }

  function FirstClash(lib: Reader, devices: seq<Device>, text: string, excluding: Option<nat>): Option<Device>
    requires Sound(lib)
  {
    if devices == [] then None
    else if excluding != Some(devices[0].id) && Clash(lib, text, devices[0].ip) then Some(devices[0])
    else FirstClash(lib, devices[1..], text, excluding)
  }

  /** The device answers for the source address. */
  predicate Matches(lib: Reader, d: Device, a: Address)
    requires Sound(lib)
  {
    match lib.network(d.ip)
    case Some(n) => Contains(n, a)
    case None => false
  }

  predicate Apart(lib: Reader, d: Device, e: Device)
    requires Sound(lib)
  {
    d.id != e.id && d.name != e.name && !Clash(lib, d.ip, e.ip)
  }

  ghost predicate Inv(lib: Reader, devices: seq<Device>)
    requires Sound(lib)
  {
    forall i, j :: 0 <= i < j < |devices| ==> Apart(lib, devices[i], devices[j])
  }

  /** Clashing is sharing an address. */
  lemma ClashExact(lib: Reader, d: Device, e: Device)
    requires Sound(lib)
    ensures Clash(lib, d.ip, e.ip) <==> exists a :: ValidAddress(a) && Matches(lib, d, a) && Matches(lib, e, a)
    ensures Clash(lib, d.ip, e.ip) == Clash(lib, e.ip, d.ip)
  {
    match (lib.network(d.ip), lib.network(e.ip))
    case (Some(n), Some(m)) =>
      OverlapExact(n, m);
      if ShareAddress(n, m) {
        var a :| ValidAddress(a) && Contains(n, a) && Contains(m, a);
        assert Matches(lib, d, a) && Matches(lib, e, a);
      }
      if a :| ValidAddress(a) && Matches(lib, d, a) && Matches(lib, e, a) {
        assert Contains(n, a) && Contains(m, a);
      }
    case _ =>
  }

  /** No address has two devices to answer for it. */
  lemma AtMostOneMatches(lib: Reader, devices: seq<Device>, a: Address)
    requires Sound(lib) && Inv(lib, devices) && ValidAddress(a)
    ensures forall i, j :: (0 <= i < |devices| && 0 <= j < |devices|
                            && Matches(lib, devices[i], a) && Matches(lib, devices[j], a)) ==> i == j
  {
    forall i, j | 0 <= i < j < |devices|
      ensures !(Matches(lib, devices[i], a) && Matches(lib, devices[j], a))
    {
      assert Apart(lib, devices[i], devices[j]);
      ClashExact(lib, devices[i], devices[j]);
    }
  }

  lemma {:induction false} FirstClashExact(lib: Reader, devices: seq<Device>, text: string, excluding: Option<nat>)
    requires Sound(lib)
    ensures var r := FirstClash(lib, devices, text, excluding);
            && (r.None? <==> forall d :: d in devices && excluding != Some(d.id) ==> !Clash(lib, text, d.ip))
            && (r.Some? ==> r.value in devices && excluding != Some(r.value.id) && Clash(lib, text, r.value.ip))
  {
    if devices != [] {
      FirstClashExact(lib, devices[1..], text, excluding);
      assert devices == [devices[0]] + devices[1..];
    }
  }

  /* ---------- Requests ---------- */

  datatype Payload = Payload(fieldsValid: bool, name: string, ip: string, ipv6: Option<string>,
                             groupKnown: bool, secretGiven: bool)

  /** `Discovered` is one whole scan-and-apply run; `reached` says the device took the commands. */
  datatype Request =
    | Create(payload: Payload, limit: Option<nat>)
    | Update(id: nat, payload: Payload)
    | Delete(id: nat, blocked: bool)
    | Discovered(ip: string, wanted: string, reached: bool, limit: Option<nat>)

  datatype Reply = Done | Unprocessable | BadRequest | NotFound | Conflict | PaymentRequired | Failed

  datatype Schema = Schema(ip: string, ipv6: Option<string>)

  /** The request schema: `ip_address` is required, a blank `ipv6_address` is no address. */
  function Validated(lib: Reader, p: Payload): Option<Schema> {
    if !p.fieldsValid then None
    else match lib.submitted(p.ip, V4)
      case Err(_) => None
      case Ok(ip) =>
        if p.ipv6.None? || Texts.Strip(p.ipv6.value) == "" then Some(Schema(ip, None))
        else match lib.submitted(p.ipv6.value, V6)
          case Err(_) => None
          case Ok(six) => Some(Schema(ip, Some(six)))
  }

  function Find(devices: seq<Device>, id: nat): (r: Option<nat>)
    ensures r.Some? ==> r.value < |devices| && devices[r.value].id == id
  {
    if devices == [] then None
    else if devices[0].id == id then Some(0)
    else match Find(devices[1..], id)
      case None => None
      case Some(k) => Some(k + 1)
  }

  function Named(devices: seq<Device>, name: string): (r: bool)
    ensures r <==> exists i :: 0 <= i < |devices| && devices[i].name == name
  {
    devices != [] && (devices[0].name == name || Named(devices[1..], name))
  }

  function Without(devices: seq<Device>, i: nat): seq<Device>
    requires i < |devices|
  {
    devices[..i] + devices[i + 1..]
  }

  /** `check_can_add_device`: no limit known, or room for one more. */
  predicate Room(devices: seq<Device>, limit: Option<nat>) {
    limit.None? || |devices| + 1 <= limit.value
  }

  /** The name given to a discovered device: the last label of its address is added if the name is taken. */
  function Disambiguated(devices: seq<Device>, ip: string, wanted: string): string {
    if Named(devices, wanted) then var labels := Texts.Split(ip, '.'); wanted + "-" + labels[|labels| - 1]
    else wanted
  }

  function AfterCreate(lib: Reader, devices: seq<Device>, id: nat, p: Payload, limit: Option<nat>)
    : (seq<Device>, Reply)
    requires Sound(lib)
  {
    match Validated(lib, p)
    case None => (devices, Unprocessable)
    case Some(s) =>
      if !p.groupKnown then (devices, BadRequest)
      else if FirstClash(lib, devices, s.ip, None).Some? then (devices, Conflict)
      else if !p.secretGiven then (devices, BadRequest)
      else if !Room(devices, limit) then (devices, PaymentRequired)
      else if Named(devices, p.name) then (devices, Conflict)
      else (devices + [Device(id, p.name, s.ip, s.ipv6)], Done)
  }

  function AfterUpdate(lib: Reader, devices: seq<Device>, id: nat, p: Payload): (seq<Device>, Reply)
    requires Sound(lib)
  {
    match (Validated(lib, p), Find(devices, id))
    case (None, _) => (devices, Unprocessable)
    case (_, None) => (devices, NotFound)
    case (Some(s), Some(i)) =>
      if !p.groupKnown then (devices, BadRequest)
      else if FirstClash(lib, devices, s.ip, Some(id)).Some? then (devices, Conflict)
      else if Named(Without(devices, i), p.name) then (devices, Conflict)
      else (devices[i := Device(id, p.name, s.ip, s.ipv6)], Done)
  }

  function AfterDelete(devices: seq<Device>, id: nat, blocked: bool): (seq<Device>, Reply) {
    match Find(devices, id)
    case None => (devices, Conflict)
    case Some(i) => if blocked then (devices, Conflict) else (Without(devices, i), Done)
  }

  function AfterDiscovered(lib: Reader, devices: seq<Device>, id: nat, ip: string, wanted: string,
                           reached: bool, limit: Option<nat>): (seq<Device>, Reply)
    requires Sound(lib)
  {
    if FirstClash(lib, devices, ip, None).Some? then (devices, Conflict)
    else if !reached then (devices, Failed)
    else if !Room(devices, limit) then (devices, PaymentRequired)
    else if Named(devices, Disambiguated(devices, ip, wanted)) then (devices, Failed)
    else (devices + [Device(id, Disambiguated(devices, ip, wanted), ip, None)], Done)
  }

  /** The table and the next unused row id. */
  datatype State = State(devices: seq<Device>, next: nat)

  ghost predicate ValidState(lib: Reader, s: State)
    requires Sound(lib)
  {
    Inv(lib, s.devices) && forall i :: 0 <= i < |s.devices| ==> s.devices[i].id < s.next
  }

  function Handled(lib: Reader, s: State, r: Request): (seq<Device>, Reply)
    requires Sound(lib)
  {
    match r
    case Create(p, limit) => AfterCreate(lib, s.devices, s.next, p, limit)
    case Update(id, p) => AfterUpdate(lib, s.devices, id, p)
    case Delete(id, blocked) => AfterDelete(s.devices, id, blocked)
    case Discovered(ip, wanted, reached, limit) => AfterDiscovered(lib, s.devices, s.next, ip, wanted, reached, limit)
  }

  function Step(lib: Reader, s: State, r: Request): State
    requires Sound(lib)
  {
    State(Handled(lib, s, r).0, s.next + 1)
  }

  function Run(lib: Reader, s: State, requests: seq<Request>): State
    requires Sound(lib)
    decreases |requests|
  {
    if requests == [] then s else Run(lib, Step(lib, s, requests[0]), requests[1..])
  }

  /* ---------- What every step keeps ---------- */

  lemma AddedKeeps(lib: Reader, devices: seq<Device>, d: Device)
    requires Sound(lib)
    ensures Inv(lib, devices + [d]) <==>
            Inv(lib, devices) && forall i :: 0 <= i < |devices| ==> Apart(lib, devices[i], d)
  {
    var all := devices + [d];
    if Inv(lib, all) {
      forall i | 0 <= i < |devices|
        ensures Apart(lib, devices[i], d)
      {
        assert Apart(lib, all[i], all[|devices|]);
      }
      forall i, j | 0 <= i < j < |devices|
        ensures Apart(lib, devices[i], devices[j])
      {
        assert Apart(lib, all[i], all[j]);
      }
    }
  }

  lemma NewcomerApart(lib: Reader, s: State, d: Device)
    requires Sound(lib) && ValidState(lib, s) && d.id == s.next
    requires FirstClash(lib, s.devices, d.ip, None).None? && !Named(s.devices, d.name)
    ensures Inv(lib, s.devices + [d])
  {
    FirstClashExact(lib, s.devices, d.ip, None);
    forall i | 0 <= i < |s.devices|
      ensures Apart(lib, s.devices[i], d)
    {
      ClashExact(lib, s.devices[i], d);
    }
    AddedKeeps(lib, s.devices, d);
  }

  lemma ReplacedKeeps(lib: Reader, devices: seq<Device>, i: nat, d: Device)
    requires Sound(lib) && Inv(lib, devices) && i < |devices| && d.id == devices[i].id
    requires FirstClash(lib, devices, d.ip, Some(d.id)).None? && !Named(Without(devices, i), d.name)
    ensures Inv(lib, devices[i := d])
  {
    FirstClashExact(lib, devices, d.ip, Some(d.id));
    forall j | 0 <= j < |devices| && j != i
      ensures Apart(lib, devices[j], d) && Apart(lib, d, devices[j])
    {
      assert Apart(lib, devices[if i < j then i else j], devices[if i < j then j else i]);
      ClashExact(lib, devices[j], d);
      assert Without(devices, i)[if j < i then j else j - 1] == devices[j];
    }
  }

  lemma RemovedKeeps(lib: Reader, devices: seq<Device>, i: nat)
    requires Sound(lib) && Inv(lib, devices) && i < |devices|
    ensures Inv(lib, Without(devices, i))
  {
  }

  lemma StepKeepsValid(lib: Reader, s: State, r: Request)
    requires Sound(lib) && ValidState(lib, s)
    ensures ValidState(lib, Step(lib, s, r))
  {
    var after := Handled(lib, s, r).0;
    match r
    case Create(p, _) =>
      if after != s.devices {
        NewcomerApart(lib, s, after[|s.devices|]);
      }
    case Update(id, p) =>
      if after != s.devices {
        var i := Find(s.devices, id).value;
        ReplacedKeeps(lib, s.devices, i, after[i]);
      }
    case Delete(id, _) =>
      if after != s.devices {
        RemovedKeeps(lib, s.devices, Find(s.devices, id).value);
      }
    case Discovered(ip, _, _, _) =>
      if after != s.devices {
        NewcomerApart(lib, s, after[|s.devices|]);
      }
  }

  /** Every run of requests, one at a time, keeps the networks of the devices pairwise without a shared address. */
  lemma {:induction false} RunKeepsDisjoint(lib: Reader, s: State, requests: seq<Request>)
    requires Sound(lib) && ValidState(lib, s)
    ensures ValidState(lib, Run(lib, s, requests))
    ensures forall a :: ValidAddress(a) ==>
                          forall d, e :: (d in Run(lib, s, requests).devices && e in Run(lib, s, requests).devices
                                          && Matches(lib, d, a) && Matches(lib, e, a)) ==> d == e
    decreases |requests|
  {
    if requests != [] {
      StepKeepsValid(lib, s, requests[0]);
      RunKeepsDisjoint(lib, Step(lib, s, requests[0]), requests[1..]);
    } else {
      forall a | ValidAddress(a)
        ensures forall d, e :: d in s.devices && e in s.devices && Matches(lib, d, a) && Matches(lib, e, a) ==> d == e
      {
        AtMostOneMatches(lib, s.devices, a);
      }
    }
  }

  /* ---------- When a request is accepted ---------- */

  /** What the request schema makes of a payload: the fields are valid, the IPv4 text is accepted, and the IPv6 text,
      unless it is absent or blank, is accepted as IPv6; both are kept as the reader normalises them. */
  lemma ValidatedExact(lib: Reader, p: Payload, ip: string, six: Option<string>)
    ensures Validated(lib, p) == Some(Schema(ip, six)) <==>
            && p.fieldsValid && lib.submitted(p.ip, V4) == Ok(ip)
            && match six
               case None => p.ipv6 == None || Texts.Strip(p.ipv6.value) == ""
               case Some(t) => p.ipv6.Some? && Texts.Strip(p.ipv6.value) != ""
                               && lib.submitted(p.ipv6.value, V6) == Ok(t)
  {
  }

  /** A device is created exactly when its fields are valid, there is room for one more, its name is new and no device
      already answers for any address of its network; it is added, with what was submitted, under a new id. */
  lemma CreateExact(lib: Reader, s: State, p: Payload, limit: Option<nat>)
    requires Sound(lib)
    ensures var (after, reply) := Handled(lib, s, Create(p, limit));
            && (reply == Done <==>
                  && Validated(lib, p).Some? && p.groupKnown && p.secretGiven
                  && (forall n :: limit == Some(n) ==> |s.devices| < n)
                  && (forall d :: d in s.devices ==> d.name != p.name)
                  && !AnsweredFor(lib, s.devices, Validated(lib, p).value.ip, None))
            && (reply == Done ==>
                  var fields := Validated(lib, p).value;
                  after == s.devices + [Device(s.next, p.name, fields.ip, fields.ipv6)])
            && (reply != Done ==> after == s.devices)
  {
    if Validated(lib, p).Some? {
      FreeExact(lib, s.devices, Validated(lib, p).value.ip, None);
    }
  }

  /** Some device, other than the one left out, answers for some address of the network. */
  ghost predicate AnsweredFor(lib: Reader, devices: seq<Device>, text: string, excluding: Option<nat>)
    requires Sound(lib)
  {
    exists d, a :: d in devices && excluding != Some(d.id) && ValidAddress(a)
                   && Matches(lib, d, a) && Covers(lib, text, a)
  }

  predicate Covers(lib: Reader, text: string, a: Address)
    requires Sound(lib)
  {
    Matches(lib, Device(0, "", text, None), a)
  }

  lemma FreeExact(lib: Reader, devices: seq<Device>, text: string, excluding: Option<nat>)
    requires Sound(lib)
    ensures FirstClash(lib, devices, text, excluding).Some? <==> AnsweredFor(lib, devices, text, excluding)
  {
    FirstClashExact(lib, devices, text, excluding);
    forall d | d in devices
      ensures Clash(lib, text, d.ip) <==> exists a :: ValidAddress(a) && Matches(lib, d, a) && Covers(lib, text, a)
    {
      ClashExact(lib, d, Device(0, "", text, None));
    }
  }

  /** A device is changed exactly when its new name and addresses are no other device's; in particular its own
      present ones never stand in the way. It then has what was submitted, under its old id. */
  lemma UpdateExact(lib: Reader, s: State, id: nat, p: Payload)
    requires Sound(lib) && ValidState(lib, s)
    ensures var (after, reply) := Handled(lib, s, Update(id, p));
            && (reply == Done <==>
                  && Validated(lib, p).Some? && p.groupKnown && (exists d :: d in s.devices && d.id == id)
                  && (forall d :: d in s.devices && d.id != id ==> d.name != p.name)
                  && !AnsweredFor(lib, s.devices, Validated(lib, p).value.ip, Some(id)))
            && (forall i :: reply == Done && 0 <= i < |s.devices| && s.devices[i].id == id ==>
                  var fields := Validated(lib, p).value;
                  after == s.devices[i := Device(id, p.name, fields.ip, fields.ipv6)])
            && (reply != Done ==> after == s.devices)
  {
    FindExact(s.devices, id);
    FindOnly(lib, s.devices, id);
    if Validated(lib, p).Some? && Find(s.devices, id).Some? {
      FreeExact(lib, s.devices, Validated(lib, p).value.ip, Some(id));
      WithoutExact(lib, s.devices, Find(s.devices, id).value);
    }
  }

  lemma FindOnly(lib: Reader, devices: seq<Device>, id: nat)
    requires Sound(lib) && Inv(lib, devices)
    ensures forall i: nat :: i < |devices| && devices[i].id == id ==> Find(devices, id) == Some(i)
  {
    FindExact(devices, id);
    forall i, j | 0 <= i < j < |devices|
      ensures devices[i].id != devices[j].id
    {
      assert Apart(lib, devices[i], devices[j]);
    }
  }

  /** A device is deleted exactly when it exists and nothing that depends on it blocks that; then it alone goes, and the
      others stay in order. */
  lemma DeleteExact(lib: Reader, s: State, id: nat, blocked: bool)
    requires Sound(lib) && ValidState(lib, s)
    ensures var (after, reply) := Handled(lib, s, Delete(id, blocked));
            && (reply == Done <==> !blocked && exists d :: d in s.devices && d.id == id)
            && (forall i :: reply == Done && 0 <= i < |s.devices| && s.devices[i].id == id ==>
                  after == s.devices[..i] + s.devices[i + 1..])
            && (reply != Done ==> after == s.devices)
  {
    FindExact(s.devices, id);
    FindOnly(lib, s.devices, id);
  }

  /** A scan-and-apply run adds a device exactly when the device took the commands, there is room, no device answers
      for any of its addresses, and its name, or else its name with the last label of the address, is new. */
  lemma DiscoveredExact(lib: Reader, s: State, ip: string, wanted: string, reached: bool, limit: Option<nat>)
    requires Sound(lib)
    ensures var r := Handled(lib, s, Discovered(ip, wanted, reached, limit));
            var labels := Texts.Split(ip, '.');
            var name := if Unused(s.devices, wanted) then wanted else wanted + "-" + labels[|labels| - 1];
            && (r.1 == Done
                <==> reached && (forall n :: limit == Some(n) ==> |s.devices| < n)
                     && !AnsweredFor(lib, s.devices, ip, None) && Unused(s.devices, name))
            && (r.1 == Done ==> r.0 == s.devices + [Device(s.next, name, ip, None)])
            && (r.1 != Done ==> r.0 == s.devices)
  {
    FreeExact(lib, s.devices, ip, None);
    assert forall n :: Unused(s.devices, n) <==> !Named(s.devices, n);
  }

  ghost predicate Unused(devices: seq<Device>, name: string) {
    forall d :: d in devices ==> d.name != name
  }

  lemma {:induction false} FindExact(devices: seq<Device>, id: nat)
    ensures Find(devices, id).Some? <==> exists d :: d in devices && d.id == id
  {
    if devices != [] {
      FindExact(devices[1..], id);
      assert devices == [devices[0]] + devices[1..];
    }
  }

  lemma WithoutExact(lib: Reader, devices: seq<Device>, i: nat)
    requires Sound(lib) && Inv(lib, devices) && i < |devices|
    ensures forall d :: d in Without(devices, i) <==> d in devices && d.id != devices[i].id
  {
  }

  /** Saving a device again with what it already has changes nothing. */
  lemma ResaveIsFree(lib: Reader, s: State, i: nat, p: Payload)
    requires Sound(lib) && ValidState(lib, s) && i < |s.devices| && p.groupKnown && p.name == s.devices[i].name
    requires Validated(lib, p) == Some(Schema(s.devices[i].ip, s.devices[i].ipv6))
    ensures Handled(lib, s, Update(s.devices[i].id, p)) == (s.devices, Done)
  {
    var d := s.devices[i];
    FindExact(s.devices, d.id);
    var k := Find(s.devices, d.id).value;
    assert k == i;
    forall j | 0 <= j < |s.devices| && j != i
      ensures s.devices[j].name != d.name && !Clash(lib, d.ip, s.devices[j].ip)
    {
      assert Apart(lib, s.devices[if j < i then j else i], s.devices[if j < i then i else j]);
      ClashExact(lib, d, s.devices[j]);
    }
    FirstClashExact(lib, s.devices, d.ip, Some(d.id));
    WithoutExact(lib, s.devices, i);
    assert s.devices[i := d] == s.devices;
  }

  /* ---------- Where the guarantee ends ---------- */

  /** The IPv6 network plays no part in the reply to a creation or an update: with any other acceptable one the reply is
      the same and the table differs in that field alone. */
  lemma Ipv6Unchecked(lib: Reader, s: State, p: Payload, six: Option<string>, limit: Option<nat>, id: nat)
    requires Sound(lib) && Validated(lib, p).Some? && Validated(lib, p.(ipv6 := six)).Some?
    ensures var other, fields := p.(ipv6 := six), Validated(lib, p.(ipv6 := six)).value;
            && Handled(lib, s, Create(other, limit)).1 == Handled(lib, s, Create(p, limit)).1
            && Handled(lib, s, Update(id, other)).1 == Handled(lib, s, Update(id, p)).1
            && (Handled(lib, s, Create(p, limit)).1 == Done ==>
                  Handled(lib, s, Create(other, limit)).0
                      == s.devices + [Device(s.next, p.name, fields.ip, fields.ipv6)])
            && (Handled(lib, s, Update(id, p)).1 == Done ==>
                  exists i :: 0 <= i < |s.devices| && s.devices[i].id == id
                              && Handled(lib, s, Update(id, other)).0
                                == s.devices[i := Device(id, p.name, fields.ip, fields.ipv6)])
  {
    if Handled(lib, s, Update(id, p)).1 == Done {
      var i := Find(s.devices, id).value;
      assert s.devices[i].id == id;
    }
  }

  /** Two devices whose IPv6 networks, if both have one, share an address. */
  predicate Clash6(lib: Reader, t: Option<string>, u: Option<string>)
    requires Sound(lib)
  {
    t.Some? && u.Some? && Clash(lib, t.value, u.value)
  }

  ghost predicate Apart6(lib: Reader, devices: seq<Device>)
    requires Sound(lib)
  {
    forall i, j :: 0 <= i < j < |devices| ==> !Clash6(lib, devices[i].ipv6, devices[j].ipv6)
  }

  lemma Clash6Symmetric(lib: Reader, t: Option<string>, u: Option<string>)
    requires Sound(lib)
    ensures Clash6(lib, t, u) == Clash6(lib, u, t)
  {
    if t.Some? && u.Some? {
      ClashExact(lib, Device(0, "", t.value, None), Device(0, "", u.value, None));
    }
  }

  /** Some device, other than the one left out, has an IPv6 network that shares an address with this one. */
  ghost predicate Taken6(lib: Reader, devices: seq<Device>, six: Option<string>, excluding: Option<nat>)
    requires Sound(lib)
  {
    exists i :: 0 <= i < |devices| && excluding != Some(devices[i].id) && Clash6(lib, six, devices[i].ipv6)
  }

  lemma Added6(lib: Reader, devices: seq<Device>, d: Device)
    requires Sound(lib) && Apart6(lib, devices)
    ensures Apart6(lib, devices + [d]) <==> !Taken6(lib, devices, d.ipv6, None)
  {
    var all := devices + [d];
    forall i | 0 <= i < |devices|
      ensures Clash6(lib, all[i].ipv6, all[|devices|].ipv6) == Clash6(lib, d.ipv6, devices[i].ipv6)
    {
      Clash6Symmetric(lib, d.ipv6, devices[i].ipv6);
    }
  }

  lemma Replaced6(lib: Reader, devices: seq<Device>, i: nat, d: Device)
    requires Sound(lib) && Inv(lib, devices) && Apart6(lib, devices) && i < |devices| && d.id == devices[i].id
    ensures Apart6(lib, devices[i := d]) <==> !Taken6(lib, devices, d.ipv6, Some(d.id))
  {
    var all := devices[i := d];
    forall j | 0 <= j < |devices| && j != i
      ensures devices[j].id != d.id && all[j] == devices[j]
      ensures Clash6(lib, d.ipv6, devices[j].ipv6) == Clash6(lib, devices[j].ipv6, d.ipv6)
    {
      assert Apart(lib, devices[if i < j then i else j], devices[if i < j then j else i]);
      Clash6Symmetric(lib, d.ipv6, devices[j].ipv6);
    }
    forall j | 0 <= j < |devices| && j != i && Clash6(lib, d.ipv6, devices[j].ipv6)
      ensures !Apart6(lib, all)
    {
      assert Clash6(lib, all[if i < j then i else j].ipv6, all[if i < j then j else i].ipv6);
    }
  }

  /** An accepted creation or update keeps the IPv6 networks pairwise apart exactly when the submitted one is absent or
      shares no address with another device's; the code checks neither. */
  lemma Ipv6KeptExactly(lib: Reader, s: State, p: Payload, limit: Option<nat>, id: nat)
    requires Sound(lib) && ValidState(lib, s) && Apart6(lib, s.devices) && Validated(lib, p).Some?
    ensures var six := Validated(lib, p).value.ipv6;
            && (Handled(lib, s, Create(p, limit)).1 == Done ==>
                  (Apart6(lib, Handled(lib, s, Create(p, limit)).0) <==> !Taken6(lib, s.devices, six, None)))
            && (Handled(lib, s, Update(id, p)).1 == Done ==>
                  (Apart6(lib, Handled(lib, s, Update(id, p)).0) <==> !Taken6(lib, s.devices, six, Some(id))))
  {
    var fields := Validated(lib, p).value;
    Added6(lib, s.devices, Device(s.next, p.name, fields.ip, fields.ipv6));
    if Find(s.devices, id).Some? {
      Replaced6(lib, s.devices, Find(s.devices, id).value, Device(id, p.name, fields.ip, fields.ipv6));
    }
  }

  /** Refused requests, deletions and scan-and-apply runs keep them apart. */
  lemma Ipv6KeptOtherwise(lib: Reader, s: State, r: Request)
    requires Sound(lib) && Apart6(lib, s.devices)
    requires r.Delete? || r.Discovered? || Handled(lib, s, r).1 != Done
    ensures Apart6(lib, Handled(lib, s, r).0)
  {
    var after := Handled(lib, s, r).0;
    if after != s.devices && r.Discovered? {
      Added6(lib, s.devices, after[|s.devices|]);
    }
    if after != s.devices && r.Delete? {
      var i := Find(s.devices, r.id).value;
      forall j, k | 0 <= j < k < |after|
        ensures !Clash6(lib, after[j].ipv6, after[k].ipv6)
      {
        assert after[j] == s.devices[if j < i then j else j + 1] && after[k] == s.devices[if k < i then k else k + 1];
      }
    }
  }

  /** So two devices can hold the same IPv6 network, whatever it is. */
  lemma SameIpv6Twice(v6: V6Text, n: Net, m: Net, six: Net)
    requires Faithful(v6) && Canonical(n) && Canonical(m) && Canonical(six)
    requires n.version == V4 && m.version == V4 && six.version == V6 && !ShareAddress(n, m)
    ensures Sound(Library(v6))
    ensures var lib := Library(v6);
            var one := Payload(true, "one", NetText(v6, n), Some(NetText(v6, six)), true, true);
            var two := Payload(true, "two", NetText(v6, m), Some(NetText(v6, six)), true, true);
            var s := Run(lib, State([], 0), [Create(one, None), Create(two, None)]);
            |s.devices| == 2 && s.devices[0].ipv6 == s.devices[1].ipv6 == Some(NetText(v6, six))
  {
    LibrarySound(v6);
    NormalizedText(v6, n);
    NormalizedText(v6, m);
    NormalizedText(v6, six);
    OverlapExact(m, n);
    TwoCreated(Library(v6), NetText(v6, n), NetText(v6, m), NetText(v6, six), m, n);
  }

  lemma NormalizedText(v6: V6Text, n: Net)
    requires Faithful(v6) && Canonical(n)
    ensures NormalizeCidr(v6, NetText(v6, n), n.version) == Ok(NetText(v6, n))
    ensures ParseNetwork(v6, NetText(v6, n)) == Some(n) && Texts.Strip(NetText(v6, n)) != ""
  {
    NetTextReads(v6, n);
    NetTextTrimmed(v6, n);
    StripTrimmed(NetText(v6, n));
  }

  lemma TwoCreated(lib: Reader, one: string, two: string, six: string, m: Net, n: Net)
    requires Sound(lib) && lib.network(one) == Some(n) && lib.network(two) == Some(m)
    requires lib.submitted(one, V4) == Ok(one) && lib.submitted(two, V4) == Ok(two) && lib.submitted(six, V6) == Ok(six)
    requires Texts.Strip(six) != "" && !Overlaps(m, n)
    ensures var a := Create(Payload(true, "one", one, Some(six), true, true), None);
            var b := Create(Payload(true, "two", two, Some(six), true, true), None);
            Run(lib, State([], 0), [a, b]).devices
            == [Device(0, "one", one, Some(six)), Device(1, "two", two, Some(six))]
  {
    var a := Create(Payload(true, "one", one, Some(six), true, true), None);
    var b := Create(Payload(true, "two", two, Some(six), true, true), None);
    var first := Step(lib, State([], 0), a);
    assert first.devices == [Device(0, "one", one, Some(six))];
    assert "one"[0] == 'o' && "two"[0] == 't' && !Named(first.devices, "two");
    FirstClashExact(lib, first.devices, two, None);
    assert !Clash(lib, two, one);
    assert Step(lib, first, b).devices == first.devices + [Device(1, "two", two, Some(six))];
    assert [a, b][1..] == [b] && [b][1..] == [];
    assert Run(lib, first, [b]) == Run(lib, Step(lib, first, b), []);
  }

  /* ---------- Scan-and-apply runs side by side ---------- */

  /** How far a run has got: it checks, takes a name once the device has answered, and inserts at the end. */
  datatype Stage =
    | Started(ip: string, wanted: string)
    | Checked(ip: string, wanted: string)
    | Labelled(ip: string, name: string)
    | Ended(reply: Reply)

  datatype Board = Board(state: State, runs: map<nat, Stage>)

  datatype Move =
    | Check(run: nat)
    | Label(run: nat)
    | Enter(run: nat, reached: bool, limit: Option<nat>)
    | Serve(requests: seq<Request>)

  /** The last stage: insert, whatever has happened to the table since the check. */
  function AfterEnter(s: State, ip: string, name: string, reached: bool, limit: Option<nat>): (seq<Device>, Reply) {
    if !reached then (s.devices, Failed)
    else if !Room(s.devices, limit) then (s.devices, PaymentRequired)
    else if Named(s.devices, name) then (s.devices, Failed)
    else (s.devices + [Device(s.next, name, ip, None)], Done)
  }

  /** One move; a move that does not apply changes nothing. */
  function Play(lib: Reader, b: Board, m: Move): Board
    requires Sound(lib)
  {
    match m
    case Serve(requests) => Board(Run(lib, b.state, requests), b.runs)
    case Check(k) =>
      if k !in b.runs || !b.runs[k].Started? then b
      else
        var ip := b.runs[k].ip;
        var free := FirstClash(lib, b.state.devices, ip, None).None?;
        b.(runs := b.runs[k := if free then Checked(ip, b.runs[k].wanted) else Ended(Conflict)])
    case Label(k) =>
      if k !in b.runs || !b.runs[k].Checked? then b
      else
        var ip := b.runs[k].ip;
        b.(runs := b.runs[k := Labelled(ip, Disambiguated(b.state.devices, ip, b.runs[k].wanted))])
    case Enter(k, reached, limit) =>
      if k !in b.runs || !b.runs[k].Labelled? then b
      else
        var (devices, reply) := AfterEnter(b.state, b.runs[k].ip, b.runs[k].name, reached, limit);
        Board(State(devices, b.state.next + 1), b.runs[k := Ended(reply)])
  }

  function PlayAll(lib: Reader, b: Board, moves: seq<Move>): Board
    requires Sound(lib)
    decreases |moves|
  {
    if moves == [] then b else PlayAll(lib, Play(lib, b, moves[0]), moves[1..])
  }

  /** The insert of a run that has passed its check, at whatever time, keeps the guarantee exactly when it is refused or
      the same check would still pass. */
  lemma LateInsertExact(lib: Reader, b: Board, k: nat, reached: bool, limit: Option<nat>)
    requires Sound(lib) && ValidState(lib, b.state) && k in b.runs && b.runs[k].Labelled?
    ensures var n := Play(lib, b, Enter(k, reached, limit));
            k in n.runs && (ValidState(lib, n.state) <==>
                              n.runs[k] != Ended(Done) || FirstClash(lib, b.state.devices, b.runs[k].ip, None).None?)
  {
    var s, ip, name := b.state, b.runs[k].ip, b.runs[k].name;
    var d := Device(s.next, name, ip, None);
    FirstClashExact(lib, s.devices, ip, None);
    forall i | 0 <= i < |s.devices|
      ensures Clash(lib, s.devices[i].ip, ip) == Clash(lib, ip, s.devices[i].ip)
    {
      ClashExact(lib, s.devices[i], d);
    }
    AddedKeeps(lib, s.devices, d);
  }

  /** Every accepted insert comes when the check would still pass. */
  ghost predicate Timely(lib: Reader, b: Board, moves: seq<Move>)
    requires Sound(lib)
    decreases |moves|
  {
    moves != [] ==>
      && (moves[0].Enter? && moves[0].run in b.runs && b.runs[moves[0].run].Labelled? ==>
            || Play(lib, b, moves[0]).runs[moves[0].run] != Ended(Done)
            || FirstClash(lib, b.state.devices, b.runs[moves[0].run].ip, None).None?)
      && Timely(lib, Play(lib, b, moves[0]), moves[1..])
  }

  lemma MoveKeepsValid(lib: Reader, b: Board, m: Move)
    requires Sound(lib) && ValidState(lib, b.state) && Timely(lib, b, [m])
    ensures ValidState(lib, Play(lib, b, m).state)
  {
    match m
    case Serve(requests) => RunKeepsDisjoint(lib, b.state, requests);
    case Enter(k, reached, limit) =>
      if k in b.runs && b.runs[k].Labelled? {
        LateInsertExact(lib, b, k, reached, limit);
      }
    case _ =>
  }

  /** Any interleaving of runs and requests in which that is so keeps the networks pairwise disjoint. */
  lemma {:induction false} TimelyRunsKeepDisjoint(lib: Reader, b: Board, moves: seq<Move>)
    requires Sound(lib) && ValidState(lib, b.state) && Timely(lib, b, moves)
    ensures ValidState(lib, PlayAll(lib, b, moves).state)
    decreases |moves|
  {
    if moves != [] {
      assert [moves[0]][1..] == [];
      MoveKeepsValid(lib, b, moves[0]);
      TimelyRunsKeepDisjoint(lib, Play(lib, b, moves[0]), moves[1..]);
    }
  }

  lemma PlayTwo(lib: Reader, b: Board, first: Move, second: Move)
    requires Sound(lib)
    ensures PlayAll(lib, b, [first, second]) == Play(lib, Play(lib, b, first), second)
  {
    assert [first, second][1..] == [second] && [second][1..] == [];
    assert PlayAll(lib, Play(lib, b, first), [second]) == PlayAll(lib, Play(lib, Play(lib, b, first), second), []);
  }

  /** A run whose three stages follow each other is the one request. */
  lemma UninterruptedRun(lib: Reader, s: State, k: nat, ip: string, wanted: string, reached: bool, limit: Option<nat>)
    requires Sound(lib) && FirstClash(lib, s.devices, ip, None).None?
    ensures var b := Board(s, map[k := Started(ip, wanted)]);
            var n := PlayAll(lib, b, [Check(k), Label(k), Enter(k, reached, limit)]);
            && n.state == Step(lib, s, Discovered(ip, wanted, reached, limit))
            && n.runs == map[k := Ended(Handled(lib, s, Discovered(ip, wanted, reached, limit)).1)]
  {
    var b, enter := Board(s, map[k := Started(ip, wanted)]), Enter(k, reached, limit);
    var name := Disambiguated(s.devices, ip, wanted);
    var b1 := Play(lib, b, Check(k));
    assert b1 == Board(s, map[k := Checked(ip, wanted)]);
    assert Play(lib, b1, Label(k)) == Board(s, map[k := Labelled(ip, name)]);
    assert [Check(k), Label(k), enter][1..] == [Label(k), enter];
    PlayTwo(lib, b1, Label(k), enter);
  }

  /** Of two runs for one free network, with new and different names, both pass if both check before either inserts. */
  lemma BothPass(lib: Reader, s: State, ip: string, one: string, two: string)
    requires Sound(lib) && FirstClash(lib, s.devices, ip, None).None?
    requires Unused(s.devices, one) && Unused(s.devices, two)
    ensures var started := Board(s, map[0 := Started(ip, one), 1 := Started(ip, two)]);
            var checked := PlayAll(lib, started, [Check(0), Check(1)]);
            && checked == Board(s, map[0 := Checked(ip, one), 1 := Checked(ip, two)])
            && PlayAll(lib, checked, [Label(0), Label(1)])
              == Board(s, map[0 := Labelled(ip, one), 1 := Labelled(ip, two)])
  {
    PlayTwo(lib, Board(s, map[0 := Started(ip, one), 1 := Started(ip, two)]), Check(0), Check(1));
    PlayTwo(lib, Board(s, map[0 := Checked(ip, one), 1 := Checked(ip, two)]), Label(0), Label(1));
    assert !Named(s.devices, one) && !Named(s.devices, two);
  }

  lemma Entered(lib: Reader, b: Board, k: nat, ip: string, name: string)
    requires Sound(lib) && k in b.runs && b.runs[k] == Labelled(ip, name) && Unused(b.state.devices, name)
    ensures Play(lib, b, Enter(k, true, None))
            == Board(State(b.state.devices + [Device(b.state.next, name, ip, None)], b.state.next + 1),
                     b.runs[k := Ended(Done)])
  {
    assert !Named(b.state.devices, name);
  }

  lemma BothEnter(lib: Reader, b: Board, ip: string, one: string, two: string)
    requires Sound(lib) && Unused(b.state.devices, one) && Unused(b.state.devices, two) && one != two
    requires 0 in b.runs && b.runs[0] == Labelled(ip, one) && 1 in b.runs && b.runs[1] == Labelled(ip, two)
    ensures PlayAll(lib, b, [Enter(0, true, None), Enter(1, true, None)])
            == Board(State(b.state.devices
                           + [Device(b.state.next, one, ip, None)] + [Device(b.state.next + 1, two, ip, None)],
                           b.state.next + 2),
                     b.runs[0 := Ended(Done)][1 := Ended(Done)])
  {
    PlayTwo(lib, b, Enter(0, true, None), Enter(1, true, None));
    Entered(lib, b, 0, ip, one);
    Entered(lib, Play(lib, b, Enter(0, true, None)), 1, ip, two);
  }

  /** The table after both inserts. */
  function Twice(s: State, ip: string, one: string, two: string): seq<Device> {
    s.devices + [Device(s.next, one, ip, None)] + [Device(s.next + 1, two, ip, None)]
  }

  /** Then both inserts are accepted. */
  lemma BothAccepted(lib: Reader, s: State, ip: string, one: string, two: string)
    requires Sound(lib) && FirstClash(lib, s.devices, ip, None).None?
    requires Unused(s.devices, one) && Unused(s.devices, two) && one != two
    ensures var started := Board(s, map[0 := Started(ip, one), 1 := Started(ip, two)]);
            var checked := PlayAll(lib, started, [Check(0), Check(1)]);
            var labelled := PlayAll(lib, checked, [Label(0), Label(1)]);
            var n := PlayAll(lib, labelled, [Enter(0, true, None), Enter(1, true, None)]);
            && checked.runs == map[0 := Checked(ip, one), 1 := Checked(ip, two)]
            && n == Board(State(Twice(s, ip, one, two), s.next + 2), map[0 := Ended(Done), 1 := Ended(Done)])
  {
    var labelled := Board(s, map[0 := Labelled(ip, one), 1 := Labelled(ip, two)]);
    BothPass(lib, s, ip, one, two);
    BothEnter(lib, labelled, ip, one, two);
    assert labelled.runs[0 := Ended(Done)][1 := Ended(Done)] == map[0 := Ended(Done), 1 := Ended(Done)];
  }

  ghost predicate UniqueKeys(devices: seq<Device>) {
    forall i, j :: 0 <= i < j < |devices| ==> devices[i].id != devices[j].id && devices[i].name != devices[j].name
  }

  /** The table they leave has unique ids and names; the shared network alone breaks the guarantee. */
  lemma TwoRunsAtOnce(lib: Reader, s: State, ip: string, one: string, two: string)
    requires Sound(lib) && ValidState(lib, s) && lib.network(ip).Some? && FirstClash(lib, s.devices, ip, None).None?
    requires Unused(s.devices, one) && Unused(s.devices, two) && one != two
    ensures var started := Board(s, map[0 := Started(ip, one), 1 := Started(ip, two)]);
            var checked := PlayAll(lib, started, [Check(0), Check(1)]);
            var labelled := PlayAll(lib, checked, [Label(0), Label(1)]);
            var n := PlayAll(lib, labelled, [Enter(0, true, None), Enter(1, true, None)]);
            && checked.runs == map[0 := Checked(ip, one), 1 := Checked(ip, two)]
            && n.runs == map[0 := Ended(Done), 1 := Ended(Done)]
            && UniqueKeys(n.state.devices) && !Inv(lib, n.state.devices)
  {
    BothAccepted(lib, s, ip, one, two);
    TwiceBreaks(lib, s, ip, one, two);
  }

  lemma TwiceBreaks(lib: Reader, s: State, ip: string, one: string, two: string)
    requires Sound(lib) && ValidState(lib, s) && lib.network(ip).Some?
    requires Unused(s.devices, one) && Unused(s.devices, two) && one != two
    ensures UniqueKeys(Twice(s, ip, one, two)) && !Inv(lib, Twice(s, ip, one, two))
  {
    assert forall i :: 0 <= i < |s.devices| ==> s.devices[i] in s.devices;
    assert forall i, j :: 0 <= i < j < |s.devices| ==> Apart(lib, s.devices[i], s.devices[j]);
    SameNetworkTwice(lib, s.devices, Device(s.next, one, ip, None), Device(s.next + 1, two, ip, None));
  }

  lemma SameNetworkTwice(lib: Reader, devices: seq<Device>, d: Device, e: Device)
    requires Sound(lib) && lib.network(d.ip).Some? && e.ip == d.ip
    ensures !Inv(lib, devices + [d] + [e])
  {
    var n, all := lib.network(d.ip).value, devices + [d] + [e];
    OverlapExact(n, n);
    NestedOrDisjoint(n, n);
    assert all[|devices|] == d && all[|devices| + 1] == e && !Apart(lib, d, e);
  }

  /* ---------- The routes ---------- */

  class Inventory {
    const lib: Reader
    var devices: seq<Device>
    var next: nat

    constructor (lib: Reader)
      ensures this.lib == lib && Value() == State([], 0)
    {
      this.lib, devices, next := lib, [], 0;
    }

    function Value(): State
      reads this
    {
      State(devices, next)
    }

    /** `_check_no_overlap` */
    method CheckNoOverlap(text: string, excluding: Option<nat>) returns (clash: Option<Device>)
      requires Sound(lib)
      ensures clash == FirstClash(lib, devices, text, excluding)
    {
      var network := lib.network(text);
      if network.None? {
        FirstClashExact(lib, devices, text, excluding);
        return None;
      }
      assert devices[0..] == devices;
      for i := 0 to |devices|
        invariant FirstClash(lib, devices, text, excluding) == FirstClash(lib, devices[i..], text, excluding)
      {
        var existing := devices[i];
        assert devices[i..][1..] == devices[i + 1..];
        if excluding != Some(existing.id) {
          var other := lib.network(existing.ip);
          if other.Some? && network.value.version == other.value.version && Overlaps(network.value, other.value) {
            return Some(existing);
          }
        }
      }
      return None;
    }

    /** `create_device` */
    method CreateDevice(p: Payload, limit: Option<nat>) returns (reply: Reply)
      requires Sound(lib)
      modifies this
      ensures Value() == Step(lib, old(Value()), Create(p, limit))
      ensures reply == Handled(lib, old(Value()), Create(p, limit)).1
    {
      next := next + 1;
      var fields := Validated(lib, p);
      if fields.None? {
        return Unprocessable;
      }
      if !p.groupKnown {
        return BadRequest;
      }
      var clash := CheckNoOverlap(fields.value.ip, None);
      if clash.Some? {
        return Conflict;
      }
      if !p.secretGiven {
        return BadRequest;
      }
      if !Room(devices, limit) {
        return PaymentRequired;
      }
      var added := Insert(Device(next - 1, p.name, fields.value.ip, fields.value.ipv6));
      return if added then Done else Conflict;
    }

    /** `add` and `commit`, with the rollback if the name is taken. */
    method Insert(d: Device) returns (added: bool)
      modifies this`devices
      ensures added <==> !Named(old(devices), d.name)
      ensures devices == if added then old(devices) + [d] else old(devices)
    {
      var saved := devices;
      devices := devices + [d];
      added := !Named(saved, d.name);
      if !added {
        devices := saved;
      }
    }

    /** `update_device` */
    method UpdateDevice(id: nat, p: Payload) returns (reply: Reply)
      requires Sound(lib)
      modifies this
      ensures Value() == Step(lib, old(Value()), Update(id, p))
      ensures reply == Handled(lib, old(Value()), Update(id, p)).1
    {
      next := next + 1;
      var fields := Validated(lib, p);
      if fields.None? {
        return Unprocessable;
      }
      var row := Find(devices, id);
      if row.None? {
        return NotFound;
      }
      if !p.groupKnown {
        return BadRequest;
      }
      var clash := CheckNoOverlap(fields.value.ip, Some(id));
      if clash.Some? {
        return Conflict;
      }
      var i, saved := row.value, devices;
      devices := devices[i := devices[i].(name := p.name)];
      devices := devices[i := devices[i].(ip := fields.value.ip)];
      devices := devices[i := devices[i].(ipv6 := fields.value.ipv6)];
      if Named(Without(saved, i), p.name) {
        devices := saved;
        return Conflict;
      }
      assert devices == saved[i := Device(id, p.name, fields.value.ip, fields.value.ipv6)];
      return Done;
    }

    /** `delete_device`: `blocked` is the verdict of the dependency inspection. */
    method DeleteDevice(id: nat, blocked: bool) returns (reply: Reply)
      requires Sound(lib)
      modifies this
      ensures Value() == Step(lib, old(Value()), Delete(id, blocked))
      ensures reply == Handled(lib, old(Value()), Delete(id, blocked)).1
    {
      next := next + 1;
      var row := Find(devices, id);
      if row.None? {
        return Conflict;
      }
      if blocked {
        return Conflict;
      }
      devices := Without(devices, row.value);
      return Done;
    }

    /** `_apply_one` with no other write before it is done */
    method ApplyOne(ip: string, wanted: string, reached: bool, limit: Option<nat>) returns (reply: Reply)
      requires Sound(lib)
      modifies this
      ensures Value() == Step(lib, old(Value()), Discovered(ip, wanted, reached, limit))
      ensures reply == Handled(lib, old(Value()), Discovered(ip, wanted, reached, limit)).1
    {
      next := next + 1;
      var clash := CheckNoOverlap(ip, None);
      if clash.Some? {
        return Conflict;
      }
      if !reached {
        return Failed;
      }
      var name := Disambiguated(devices, ip, wanted);
      if !Room(devices, limit) {
        return PaymentRequired;
      }
      var added := Insert(Device(next - 1, name, ip, None));
      return if added then Done else Failed;
    }
  }
}
