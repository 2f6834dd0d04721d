/**
 Addresses and networks as text: what Python's `ipaddress` module reads and prints, the
 canonical form devices are stored in, and the login allowlist.  IPv4 text is written
 out; IPv6 text is a parameter of which only a faithful print is assumed.
 */
module NetworkTexts {
  import opened Wrappers
  import opened Texts
  import opened Networks
  import Decimals

  /** Reading and printing IPv6 addresses. */
  datatype V6Text = V6Text(parse: string -> Option<nat>, print6: nat -> string)

  predicate PlainV6(s: string) {
    ':' in s && '/' !in s && ',' !in s && Trimmed(s)
  }

  ghost predicate Faithful(v6: V6Text) {
    && (forall n: nat :: n < Pow2(128) ==> v6.parse(v6.print6(n)) == Some(n) && PlainV6(v6.print6(n)))
    && (forall s :: v6.parse(s).Some? ==> v6.parse(s).value < Pow2(128) && ':' in s)
  }

  /* ---------- IPv4 addresses ---------- */

  predicate IsOctet(s: string) {
    Decimals.Canonical(s) && |s| <= 3 && Decimals.Value(s) < 256
  }

  function ParseV4(s: string): Option<nat> {
    var p := Split(s, '.');
    if |p| == 4 && IsOctet(p[0]) && IsOctet(p[1]) && IsOctet(p[2]) && IsOctet(p[3])
    then Some(Decimals.Value(p[0]) * 16777216 + Decimals.Value(p[1]) * 65536 + Decimals.Value(p[2]) * 256
      + Decimals.Value(p[3]))
    else None
  }

  function OctetTexts(n: nat): (p: seq<string>)
    ensures |p| == 4
  {
    [Decimals.Print(n / 16777216), Decimals.Print(n / 65536 % 256), Decimals.Print(n / 256 % 256),
        Decimals.Print(n % 256)]
  }

  function PrintV4(n: nat): string {
    Join(OctetTexts(n), '.')
  }

  lemma OctetText(n: nat)
    requires n < 256
    ensures IsOctet(Decimals.Print(n)) && Decimals.Value(Decimals.Print(n)) == n
  {
    Decimals.ValuePrint(n);
    if n >= 10 {
      assert |Decimals.Print(n)| == |Decimals.Print(n / 10)| + 1;
      assert n / 10 >= 10 ==> |Decimals.Print(n / 10)| == |Decimals.Print(n / 100)| + 1;
    }
  }

  ghost predicate Spells(p: string, n: nat) {
    IsOctet(p) && Decimals.Value(p) == n
  }

  lemma FourOctets(p: seq<string>, a: nat, b: nat, c: nat, d: nat)
    requires |p| == 4 && Spells(p[0], a) && Spells(p[1], b) && Spells(p[2], c) && Spells(p[3], d)
    ensures ParseV4(Join(p, '.')) == Some(a * 16777216 + b * 65536 + c * 256 + d)
  {
    SplitJoin(p, '.');
  }

  lemma OctetsOf(n: nat)
    ensures n == n / 16777216 * 16777216 + n / 65536 % 256 * 65536 + n / 256 % 256 * 256 + n % 256
  {
    assert n / 256 / 256 == n / 65536;
    assert n / 65536 / 256 == n / 16777216;
  }

  lemma OctetTextsSpell(n: nat)
    requires n < 4294967296
    ensures var p := OctetTexts(n);
            Spells(p[0], n / 16777216) && Spells(p[1], n / 65536 % 256) && Spells(p[2], n / 256 % 256)
                && Spells(p[3], n % 256)
  {
    OctetText(n / 16777216);
    OctetText(n / 65536 % 256);
    OctetText(n / 256 % 256);
    OctetText(n % 256);
  }

  lemma ParsePrintV4(n: nat)
    requires n < 4294967296
    ensures ParseV4(PrintV4(n)) == Some(n)
  {
    OctetsOf(n);
    OctetTextsSpell(n);
    FourOctets(OctetTexts(n), n / 16777216, n / 65536 % 256, n / 256 % 256, n % 256);
  }

  /** What is read as an address is its one spelling: four numerals below 256 without leading zeros. */
  lemma PrintParseV4(s: string)
    ensures ParseV4(s).Some? ==> ParseV4(s).value < 4294967296 && PrintV4(ParseV4(s).value) == s
  {
    if ParseV4(s).Some? {
      var p, n := Split(s, '.'), ParseV4(s).value;
      var a, b, c, d := Decimals.Value(p[0]), Decimals.Value(p[1]), Decimals.Value(p[2]), Decimals.Value(p[3]);
      FourBytes(a, b, c, d);
      OctetTextsBack(p, a, b, c, d, n);
      JoinSplit(s, '.');
    }
  }

  lemma OctetTextsBack(p: seq<string>, a: nat, b: nat, c: nat, d: nat, n: nat)
    requires |p| == 4 && Spells(p[0], a) && Spells(p[1], b) && Spells(p[2], c) && Spells(p[3], d)
    requires n / 16777216 == a && n / 65536 % 256 == b && n / 256 % 256 == c && n % 256 == d
    ensures OctetTexts(n) == p
  {
    Decimals.PrintValue(p[0]);
    Decimals.PrintValue(p[1]);
    Decimals.PrintValue(p[2]);
    Decimals.PrintValue(p[3]);
  }

  lemma FourBytes(a: nat, b: nat, c: nat, d: nat)
    requires a < 256 && b < 256 && c < 256 && d < 256
    ensures var n := a * 16777216 + b * 65536 + c * 256 + d;
            n / 16777216 == a && n / 65536 % 256 == b && n / 256 % 256 == c && n % 256 == d && n < 4294967296
  {
    var n := a * 16777216 + b * 65536 + c * 256 + d;
    assert n / 65536 == a * 256 + b;
    assert n / 256 == a * 65536 + b * 256 + c;
  }

  lemma {:induction false} PartHolds(s: string, sep: char, c: char)
    requires c in s && c != sep
    ensures exists p :: p in Split(s, sep) && c in p
  {
    var rest := Split(s[1..], sep);
    if s[0] != c {
      PartHolds(s[1..], sep, c);
      var p :| p in rest && c in p;
      if s[0] != sep && p == rest[0] {
        assert ([s[0]] + rest[0]) in Split(s, sep) && c in [s[0]] + rest[0];
      } else {
        assert p in Split(s, sep);
      }
    } else {
      var q := [s[0]] + rest[0];
      assert q[0] == c && q in Split(s, sep);
    }
  }

  lemma ForeignNotV4(s: string, c: char)
    requires c in s && c != '.' && !Decimals.IsDigit(c)
    ensures ParseV4(s).None?
  {
    PartHolds(s, '.', c);
    var p :| p in Split(s, '.') && c in p;
    var i :| 0 <= i < |p| && p[i] == c;
    assert !Decimals.AllDigits(p);
  }

  lemma V4InRange(s: string)
    ensures ParseV4(s).Some? ==> ParseV4(s).value < 4294967296
  {
  }

  lemma Pow2Values()
    ensures Pow2(32) == 4294967296
  {
    Pow2Add(16, 16);
    Pow2Add(8, 8);
    assert Pow2(8) == 256;
  }

  /* ---------- Any address ---------- */

  /** `ip_address(s)` */
  function ParseAddress(v6: V6Text, s: string): Option<Address> {
    match ParseV4(s)
    case Some(n) => Some(Address(V4, n))
    case None =>
      match v6.parse(s)
      case Some(n) => Some(Address(V6, n))
      case None => None
  }

  function PrintAddress(v6: V6Text, a: Address): string {
    if a.version == V4 then PrintV4(a.value) else v6.print6(a.value)
  }

  lemma ParsedAddressValid(v6: V6Text, s: string)
    requires Faithful(v6)
    ensures ParseAddress(v6, s).Some? ==> ValidAddress(ParseAddress(v6, s).value)
  {
    Pow2Values();
    V4InRange(s);
  }

  /* ---------- Networks ---------- */

  /** How many IPv4 addresses there are. */
  const RANGE: nat := 4294967296

  /** The number of leading ones of a netmask, from `p` on. */
  function MaskPrefix(n: nat, p: nat): (r: Option<nat>)
    requires p <= 32
    ensures r.Some? ==> r.value <= 32
    decreases 32 - p
  {
    if n == RANGE - Pow2(32 - p) then Some(p) else if p == 32 then None else MaskPrefix(n, p + 1)
  }

  function PrefixV4(t: string): (r: Option<nat>)
    ensures r.Some? ==> r.value <= 32
  {
    if t != "" && Decimals.AllDigits(t) && Decimals.Value(t) <= 32 then Some(Decimals.Value(t))
    else match ParseV4(t)
      case None => None
      case Some(n) =>
        DottedPrefix(n)
  }

  /** A netmask, or else a hostmask. */
  function DottedPrefix(n: nat): (r: Option<nat>)
    ensures r.Some? ==> r.value <= 32
  {
    match MaskPrefix(n, 0)
    case Some(p) => Some(p)
    case None => if n < RANGE then MaskPrefix(RANGE - 1 - n, 0) else None
  }

  function PrefixV6(t: string): (r: Option<nat>)
    ensures r.Some? ==> r.value <= 128
  {
    if t != "" && Decimals.AllDigits(t) && Decimals.Value(t) <= 128 then Some(Decimals.Value(t)) else None
  }

  function NetworkV4(parts: seq<string>): Option<Net>
    requires 1 <= |parts| <= 2
  {
    match (ParseV4(parts[0]), if |parts| == 1 then Some(32) else PrefixV4(parts[1]))
    case (Some(n), Some(p)) => Some(NetworkOf(Address(V4, n), p))
    case _ => None
  }

  function NetworkV6(v6: V6Text, parts: seq<string>): Option<Net>
    requires 1 <= |parts| <= 2
  {
    match (v6.parse(parts[0]), if |parts| == 1 then Some(128) else PrefixV6(parts[1]))
    case (Some(n), Some(p)) => Some(NetworkOf(Address(V6, n), p))
    case _ => None
  }

  /** `ip_network(s, strict=False)` */
  function ParseNetwork(v6: V6Text, s: string): Option<Net> {
    var parts := Split(s, '/');
    if |parts| > 2 then None
    else if NetworkV4(parts).Some? then NetworkV4(parts)
    else NetworkV6(v6, parts)
  }

  /** `str(network)` */
  function NetText(v6: V6Text, n: Net): string {
    PrintAddress(v6, First(n)) + "/" + Decimals.Print(n.prefix)
  }

  lemma ParsedNetworkCanonical(v6: V6Text, s: string)
    requires Faithful(v6)
    ensures ParseNetwork(v6, s).Some? ==> Canonical(ParseNetwork(v6, s).value)
  {
    Pow2Values();
    var parts := Split(s, '/');
    V4InRange(parts[0]);
    match ParseNetwork(v6, s)
    case None =>
    case Some(n) =>
      if NetworkV4(parts).Some? {
        var p := if |parts| == 1 then Some(32) else PrefixV4(parts[1]);
        NetworkOfCanonical(Address(V4, ParseV4(parts[0]).value), p.value);
      } else {
        var p := if |parts| == 1 then Some(128) else PrefixV6(parts[1]);
        NetworkOfCanonical(Address(V6, v6.parse(parts[0]).value), p.value);
      }
  }

  lemma PrintedAddress(v6: V6Text, a: Address)
    requires Faithful(v6) && ValidAddress(a)
    ensures ParseAddress(v6, PrintAddress(v6, a)) == Some(a)
    ensures '/' !in PrintAddress(v6, a)
    ensures a.version == V6 ==> ParseV4(PrintAddress(v6, a)).None?
    ensures a.version == V4 ==> ParseV4(PrintAddress(v6, a)) == Some(a.value)
  {
    Pow2Values();
    var s := PrintAddress(v6, a);
    if a.version == V4 {
      ParsePrintV4(a.value);
      if '/' in s {
        ForeignNotV4(s, '/');
      }
    } else {
      ForeignNotV4(s, ':');
    }
  }

  lemma SlashSplits(addr: string, len: string)
    requires '/' !in addr && '/' !in len
    ensures Split(addr + "/" + len, '/') == [addr, len]
  {
    SplitFirst(addr, len, '/');
    SplitPlain(len, '/');
    assert addr + ['/'] + len == addr + "/" + len;
  }

  lemma PrefixReads(prefix: nat)
    ensures prefix <= 32 ==> PrefixV4(Decimals.Print(prefix)) == Some(prefix)
    ensures prefix <= 128 ==> PrefixV6(Decimals.Print(prefix)) == Some(prefix)
    ensures '/' !in Decimals.Print(prefix)
  {
    Decimals.ValuePrint(prefix);
  }

  /** The part before the slash and the part behind it, once each is read, make the network. */
  lemma TwoParts(v6: V6Text, addr: string, len: string, a: Address, prefix: nat)
    requires a.version == V4 ==> ParseV4(addr) == Some(a.value) && PrefixV4(len) == Some(prefix)
    requires a.version == V6 ==> ParseV4(addr).None? && v6.parse(addr) == Some(a.value) && PrefixV6(len) == Some(prefix)
    ensures var parts := [addr, len];
            (if NetworkV4(parts).Some? then NetworkV4(parts) else NetworkV6(v6, parts)) == Some(NetworkOf(a, prefix))
  {
  }

  lemma PartsRead(v6: V6Text, addr: string, len: string, a: Address, prefix: nat)
    requires '/' !in addr && '/' !in len
    requires a.version == V4 ==> ParseV4(addr) == Some(a.value) && PrefixV4(len) == Some(prefix)
    requires a.version == V6 ==> ParseV4(addr).None? && v6.parse(addr) == Some(a.value) && PrefixV6(len) == Some(prefix)
    ensures ParseNetwork(v6, addr + "/" + len) == Some(NetworkOf(a, prefix))
  {
    TwoParts(v6, addr, len, a, prefix);
    SlashSplits(addr, len);
  }

  /** Address, slash, prefix: read as that prefix of that address. */
  lemma ReadPrefixed(v6: V6Text, a: Address, prefix: nat)
    requires Faithful(v6) && ValidAddress(a) && prefix <= Width(a.version)
    ensures ParseNetwork(v6, PrintAddress(v6, a) + "/" + Decimals.Print(prefix)) == Some(NetworkOf(a, prefix))
  {
    var addr, len := PrintAddress(v6, a), Decimals.Print(prefix);
    PrintedAddress(v6, a);
    PrefixReads(prefix);
    PartsRead(v6, addr, len, a, prefix);
  }

  /** So an address with a prefix, whatever its host bits, is read as the network of that prefix, of exactly the
      addresses that agree with it on that many bits. */
  lemma PrefixedExact(v6: V6Text, a: Address, prefix: nat)
    requires Faithful(v6) && ValidAddress(a) && prefix <= Width(a.version)
    ensures match ParseNetwork(v6, PrintAddress(v6, a) + "/" + Decimals.Print(prefix))
            case None => false
            case Some(n) => Canonical(n) && n.version == a.version && n.prefix == prefix
                            && forall b: Address :: Contains(n, b) <==> SharesBits(a, b, prefix)
  {
    ReadPrefixed(v6, a, prefix);
    NetworkOfExact(a, prefix);
  }

  /** A bare address in place of a network is read as the network of itself alone. */
  lemma BareExact(v6: V6Text, a: Address)
    requires Faithful(v6) && ValidAddress(a)
    ensures match ParseNetwork(v6, PrintAddress(v6, a))
            case None => false
            case Some(n) => Canonical(n) && n.prefix == (if a.version == V4 then 32 else 128)
                            && forall b: Address :: Contains(n, b) <==> b == a
  {
    PrintedAddress(v6, a);
    OnePart(v6, PrintAddress(v6, a), a);
    SplitPlain(PrintAddress(v6, a), '/');
    NetworkOfExact(a, Width(a.version));
    forall b: Address
      ensures SharesBits(a, b, Width(a.version)) <==> b == a
    {
      AllBits(a, b);
    }
  }

  lemma OnePart(v6: V6Text, addr: string, a: Address)
    requires a.version == V4 ==> ParseV4(addr) == Some(a.value)
    requires a.version == V6 ==> ParseV4(addr).None? && v6.parse(addr) == Some(a.value)
    ensures (if NetworkV4([addr]).Some? then NetworkV4([addr]) else NetworkV6(v6, [addr]))
            == Some(NetworkOf(a, Width(a.version)))
  {
  }

  lemma AllBits(a: Address, b: Address)
    ensures SharesBits(a, b, Width(a.version)) <==> b == a
  {
    assert Pow2(0) == 1;
    assert SameQuotient(a.value, b.value, 1) <==> a.value == b.value;
  }

  /* ---------- Masks ---------- */

  lemma {:induction false} Pow2Rises(a: nat, b: nat)
    requires a < b
    ensures Pow2(a) < Pow2(b)
  {
    if a + 1 < b {
      Pow2Rises(a, b - 1);
    }
  }

  /** The mask of a prefix: that many ones, then zeros. */
  function Netmask(prefix: nat): nat
    requires prefix <= 32
  {
    Pow2AtMost(32 - prefix);
    RANGE - Pow2(32 - prefix)
  }

  lemma Pow2AtMost(k: nat)
    requires k <= 32
    ensures Pow2(k) <= RANGE && (k < 32 ==> Pow2(k) < RANGE)
  {
    Pow2Values();
    if k < 32 {
      Pow2Rises(k, 32);
    }
  }

  /** The complement of that mask. */
  function Hostmask(prefix: nat): nat
    requires prefix <= 32
  {
    Pow2(32 - prefix) - 1
  }

  lemma {:induction false} MaskPrefixExact(n: nat, p: nat, q: nat)
    requires p <= 32 && q <= 32
    ensures MaskPrefix(n, p) == Some(q) <==> p <= q && n == Netmask(q)
    decreases 32 - p
  {
    if p < q {
      Pow2Rises(32 - q, 32 - p);
    } else if q < p {
      Pow2Rises(32 - p, 32 - q);
    }
    if p < 32 {
      MaskPrefixExact(n, p + 1, q);
    }
  }

  lemma MasksApart(p: nat, q: nat)
    requires p <= 32 && 0 < q < 32
    ensures Netmask(p) != Hostmask(q)
  {
    Pow2Even(32 - q);
    if p < 32 {
      Pow2Even(32 - p);
    } else {
      Pow2AtMost(32 - q);
    }
  }

  lemma Pow2Even(k: nat)
    requires k > 0
    ensures Pow2(k) == 2 * Pow2(k - 1)
  {
  }

  lemma Complements(n: nat, prefix: nat)
    requires n < RANGE && prefix <= 32
    ensures RANGE - 1 - n == Netmask(prefix) <==> n == Hostmask(prefix)
  {
  }

  lemma TakenAsNetmask(n: nat, p: nat, prefix: nat)
    requires MaskPrefix(n, 0) == Some(p) && prefix <= 32
    ensures p == prefix <==> n == Netmask(prefix)
    ensures n == Hostmask(prefix) ==> !(0 < prefix < 32)
  {
    MaskPrefixExact(n, 0, prefix);
    MaskPrefixExact(n, 0, p);
    if 0 < prefix < 32 {
      MasksApart(p, prefix);
    }
  }

  lemma TakenAsHostmask(n: nat, prefix: nat)
    requires n < RANGE && MaskPrefix(n, 0) == None && prefix <= 32
    ensures n != Netmask(prefix)
    ensures MaskPrefix(RANGE - 1 - n, 0) == Some(prefix) <==> n == Hostmask(prefix) && 0 < prefix < 32
  {
    MaskPrefixExact(n, 0, prefix);
    MaskPrefixExact(RANGE - 1 - n, 0, prefix);
    Complements(n, prefix);
    NoExtremes(n, prefix);
  }

  lemma DottedExact(n: nat, prefix: nat)
    requires n < RANGE && prefix <= 32
    ensures DottedPrefix(n) == Some(prefix) <==>
            n == Netmask(prefix) || (n == Hostmask(prefix) && 0 < prefix < 32)
  {
    match MaskPrefix(n, 0)
    case Some(p) => TakenAsNetmask(n, p, prefix);
    case None => TakenAsHostmask(n, prefix);
  }

  lemma NoExtremes(n: nat, prefix: nat)
    requires MaskPrefix(n, 0) == None && prefix <= 32
    ensures n == Hostmask(prefix) ==> 0 < prefix < 32
  {
    MaskPrefixExact(n, 0, 0);
    MaskPrefixExact(n, 0, 32);
    Ends();
  }

  lemma Ends()
    ensures Pow2(32) == RANGE && Pow2(0) == 1
  {
    Pow2Values();
  }

  lemma DottedIsNoNumeral(n: nat)
    ensures !Decimals.AllDigits(PrintV4(n))
  {
    var p := OctetTexts(n);
    assert PrintV4(n)[|p[0]|] == '.';
  }

  /** A dotted text in place of a prefix length is read as the prefix it is the netmask of, or else, other than all
      zeros and all ones, the hostmask of; any other is refused. */
  lemma MaskExact(n: nat, prefix: nat)
    requires n < RANGE && prefix <= 32
    ensures PrefixV4(PrintV4(n)) == Some(prefix) <==>
            n == Netmask(prefix) || (n == Hostmask(prefix) && 0 < prefix < 32)
  {
    ParsePrintV4(n);
    DottedIsNoNumeral(n);
    DottedExact(n, prefix);
  }

  /** A network written with its netmask reads as it does with its prefix. */
  lemma NetmaskReads(v6: V6Text, a: Address, prefix: nat)
    requires Faithful(v6) && ValidAddress(a) && a.version == V4 && prefix <= 32
    ensures ParseNetwork(v6, PrintAddress(v6, a) + "/" + PrintV4(Netmask(prefix)))
            == ParseNetwork(v6, PrintAddress(v6, a) + "/" + Decimals.Print(prefix))
  {
    PrintedAddress(v6, a);
    ReadPrefixed(v6, a, prefix);
    MaskExact(Netmask(prefix), prefix);
    if '/' in PrintV4(Netmask(prefix)) {
      ParsePrintV4(Netmask(prefix));
      ForeignNotV4(PrintV4(Netmask(prefix)), '/');
    }
    PartsRead(v6, PrintAddress(v6, a), PrintV4(Netmask(prefix)), a, prefix);
  }

  /** Printing a canonical network and reading it gives it back. */
  lemma NetTextReads(v6: V6Text, n: Net)
    requires Faithful(v6) && Canonical(n)
    ensures ParseNetwork(v6, NetText(v6, n)) == Some(n)
  {
    ReadPrefixed(v6, First(n), n.prefix);
    ContainsInterval(n, First(n));
  }

  lemma NetTextTrimmed(v6: V6Text, n: Net)
    requires Faithful(v6) && Canonical(n)
    ensures Trimmed(NetText(v6, n)) && '/' in NetText(v6, n)
  {
  }

  /** One entry, with or without a prefix length: a bare address is the network of itself. */
  function EntryNetwork(v6: V6Text, part: string): Option<Net> {
    if '/' in part then ParseNetwork(v6, part)
    else match ParseAddress(v6, part)
      case None => None
      case Some(a) => ParseNetwork(v6, PrintAddress(v6, a) + "/" + Decimals.Print(Width(a.version)))
  }

  lemma EntryMeans(v6: V6Text, part: string)
    requires Faithful(v6)
    ensures EntryNetwork(v6, part).Some? ==> Canonical(EntryNetwork(v6, part).value)
    ensures '/' !in part ==>
              EntryNetwork(v6, part) == match ParseAddress(v6, part)
                                        case None => None
                                        case Some(a) => Some(NetworkOf(a, Width(a.version)))
  {
    if '/' in part {
      ParsedNetworkCanonical(v6, part);
    } else if ParseAddress(v6, part).Some? {
      var a := ParseAddress(v6, part).value;
      ParsedAddressValid(v6, part);
      ReadPrefixed(v6, a, Width(a.version));
      NetworkOfCanonical(a, Width(a.version));
    }
  }

  /* ---------- Canonical device text ---------- */

  datatype Invalid = NotANetwork | WrongVersion

  /** `_normalize_cidr` */
  function NormalizeCidr(v6: V6Text, value: string, version: Version): Result<string, Invalid> {
    match EntryNetwork(v6, Strip(value))
    case None => Err(NotANetwork)
    case Some(n) => if n.version != version then Err(WrongVersion) else Ok(NetText(v6, n))
  }

  lemma StripTrimmed(s: string)
    requires Trimmed(s)
    ensures Strip(s) == s
  {
  }

  /** Normalising accepted text: the result reads as a canonical network of the version asked for, the same
      the input stood for, and normalising it again changes nothing. */
  lemma NormalizeIdempotent(v6: V6Text, value: string, version: Version)
    requires Faithful(v6) && NormalizeCidr(v6, value, version).Ok?
    ensures var t := NormalizeCidr(v6, value, version).value;
            && NormalizeCidr(v6, t, version) == Ok(t)
            && ParseNetwork(v6, t) == EntryNetwork(v6, Strip(value))
            && ParseNetwork(v6, t).Some?
            && Canonical(ParseNetwork(v6, t).value) && ParseNetwork(v6, t).value.version == version
  {
    var n := EntryNetwork(v6, Strip(value)).value;
    EntryMeans(v6, Strip(value));
    NetTextReads(v6, n);
    NetTextTrimmed(v6, n);
    StripTrimmed(NetText(v6, n));
  }

  lemma PrefixedTrimmed(v6: V6Text, a: Address, prefix: nat)
    requires Faithful(v6) && ValidAddress(a)
    ensures var t := PrintAddress(v6, a) + "/" + Decimals.Print(prefix);
            Trimmed(t) && '/' in t
  {
  }

  /** Normalising an address with a prefix clears the host bits and keeps the prefix; the other version is refused. */
  lemma NormalizeExact(v6: V6Text, before: string, a: Address, prefix: nat, after: string, version: Version)
    requires Faithful(v6) && ValidAddress(a) && prefix <= Width(a.version) && AllSpace(before) && AllSpace(after)
    ensures var t := PrintAddress(v6, a) + "/" + Decimals.Print(prefix);
            var low := a.value % BlockSize(a.version, prefix);
            && low <= a.value
            && NormalizeCidr(v6, before + t + after, version)
               == if version == a.version
                  then Ok(PrintAddress(v6, Address(version, a.value - low)) + "/" + Decimals.Print(prefix))
                  else Err(WrongVersion)
  {
    var t := PrintAddress(v6, a) + "/" + Decimals.Print(prefix);
    ReadPrefixed(v6, a, prefix);
    PrefixedTrimmed(v6, a, prefix);
    NormalizePadded(v6, before, t, after, version, NetworkOf(a, prefix));
    NetTextOf(v6, a, prefix);
  }

  lemma NormalizePadded(v6: V6Text, before: string, t: string, after: string, version: Version, n: Net)
    requires AllSpace(before) && Trimmed(t) && AllSpace(after) && '/' in t && ParseNetwork(v6, t) == Some(n)
    ensures NormalizeCidr(v6, before + t + after, version)
            == if n.version == version then Ok(NetText(v6, n)) else Err(WrongVersion)
  {
    StripPadding(before, t, after);
  }

  lemma NetTextOf(v6: V6Text, a: Address, prefix: nat)
    requires prefix <= Width(a.version)
    ensures var low := a.value % BlockSize(a.version, prefix);
            && low <= a.value
            && NetText(v6, NetworkOf(a, prefix))
               == PrintAddress(v6, Address(a.version, a.value - low)) + "/" + Decimals.Print(prefix)
  {
    MaskedLow(a.value, BlockSize(a.version, prefix));
  }

  lemma MaskedLow(value: nat, size: nat)
    requires size >= 1
    ensures value % size <= value && Masked(value, size) == value - value % size
  {
  }

  /** The address the text gives, before any slash. */
  function GivenAddress(v6: V6Text, text: string): Option<Address> {
    ParseAddress(v6, Split(text, '/')[0])
  }

  lemma NoSlash(s: string)
    requires '/' !in s
    ensures Split(s, '/')[0] == s
  {
  }

  /** Network text is a prefix of the address it gives. */
  lemma GivenPrefix(v6: V6Text, s: string, a: Address) returns (prefix: nat)
    requires Faithful(v6) && GivenAddress(v6, s) == Some(a)
    requires ParseNetwork(v6, s).Some? && ParseNetwork(v6, s).value.version == a.version
    ensures prefix <= Width(a.version) && ParseNetwork(v6, s) == Some(NetworkOf(a, prefix))
  {
    var parts := Split(s, '/');
    prefix := if |parts| == 1 then Width(a.version)
              else if a.version == V4 then PrefixV4(parts[1]).value else PrefixV6(parts[1]).value;
  }

  /** The normalised network contains the address it was made from. */
  lemma NormalizeContains(v6: V6Text, value: string, version: Version, a: Address)
    requires Faithful(v6) && NormalizeCidr(v6, value, version).Ok?
    requires GivenAddress(v6, Strip(value)) == Some(a) && a.version == version
    ensures var n := ParseNetwork(v6, NormalizeCidr(v6, value, version).value);
            n.Some? && Canonical(n.value) && Contains(n.value, a)
  {
    NormalizeIdempotent(v6, value, version);
    var s := Strip(value);
    ParsedAddressValid(v6, Split(s, '/')[0]);
    if '/' in s {
      var prefix := GivenPrefix(v6, s, a);
      NetworkOfCanonical(a, prefix);
    } else {
      NoSlash(s);
      EntryMeans(v6, s);
      NetworkOfCanonical(a, Width(a.version));
    }
  }
}
