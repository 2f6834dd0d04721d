/** The trusted-host list of an administrator: a comma-separated text of addresses and networks. */
module Allowlist {
  import opened Wrappers
  import opened Texts
  import opened Networks
  import opened NetworkTexts
  import Decimals

  /** The entries of a list of parts: stripped, blank ones dropped. */
  function NonBlank(parts: seq<string>): seq<string> {
    if parts == [] then []
    else if Strip(parts[0]) == "" then NonBlank(parts[1..])
    else [Strip(parts[0])] + NonBlank(parts[1..])
  }

  function Entries(raw: Option<string>): seq<string> {
    if raw.None? then [] else NonBlank(Split(raw.value, ','))
  }

  /** What is read from the entries, or the first entry that cannot be read. */
  function Collected<T>(read: string -> Option<T>, entries: seq<string>): Result<seq<T>, string> {
    if entries == [] then Ok([])
    else match read(entries[0])
      case None => Err(entries[0])
      case Some(n) =>
        match Collected(read, entries[1..])
        case Err(e) => Err(e)
        case Ok(ns) => Ok([n] + ns)
  }

  function Reader(v6: V6Text): string -> Option<Net> {
    (entry: string) => EntryNetwork(v6, entry)
  }

  lemma {:induction false} BlankHasNoEntries(raw: string)
    requires Strip(raw) == ""
    ensures NonBlank(Split(raw, ',')) == []
  {
    StripEmpty(raw);
    SplitPlain(raw, ',');
  }

  lemma {:induction false} StripEmpty(s: string)
    requires Strip(s) == ""
    ensures AllSpace(s)
  {
    if s != "" {
      if IsSpace(s[0]) {
        StripEmpty(s[1..]);
        forall i | 0 <= i < |s|
          ensures IsSpace(s[i])
        {
          assert i > 0 ==> s[i] == s[1..][i - 1];
        }
      } else {
        KeepsFirst(s);
      }
    }
  }

  lemma {:induction false} KeepsFirst(s: string)
    requires s != "" && !IsSpace(s[0])
    ensures StripRight(s) != ""
  {
    if IsSpace(s[|s| - 1]) {
      KeepsFirst(s[..|s| - 1]);
    }
  }

  function After<T>(done: seq<T>, rest: Result<seq<T>, string>): Result<seq<T>, string> {
    match rest
    case Err(e) => Err(e)
    case Ok(ns) => Ok(done + ns)
  }

  /** Collecting one entry more. */
  lemma CollectEntry<T>(read: string -> Option<T>, entry: string, rest: seq<string>, done: seq<T>)
    ensures After(done, Collected(read, [entry] + rest))
            == match read(entry)
               case None => Err(entry)
               case Some(n) => After(done + [n], Collected(read, rest))
  {
    var entries := [entry] + rest;
    assert entries[0] == entry && entries[1..] == rest;
    if read(entry).Some? && Collected(read, rest).Ok? {
      var n, ns := read(entry).value, Collected(read, rest).value;
      assert done + ([n] + ns) == (done + [n]) + ns;
    }
  }

  /** `parse_allowed_source_ips` */
  method ParseAllowed(v6: V6Text, raw: Option<string>) returns (r: Result<seq<Net>, string>)
    ensures r == Collected(Reader(v6), Entries(raw))
  {
    if raw.None? {
      return Ok([]);
    }
    if Strip(raw.value) == "" {
      BlankHasNoEntries(raw.value);
      return Ok([]);
    }
    r := ParseParts(Reader(v6), Split(raw.value, ','));
  }

  method ParseParts<T>(read: string -> Option<T>, parts: seq<string>) returns (r: Result<seq<T>, string>)
    ensures r == Collected(read, NonBlank(parts))
  {
    var networks := [];
    ghost var all := Collected(read, NonBlank(parts));
    assert parts[0..] == parts && (all.Ok? ==> [] + all.value == all.value);
    for i := 0 to |parts|
      invariant all == After(networks, Collected(read, NonBlank(parts[i..])))
    {
      assert parts[i..][0] == parts[i] && parts[i..][1..] == parts[i + 1..];
      var part := Strip(parts[i]);
      if part != "" {
        CollectEntry(read, part, NonBlank(parts[i + 1..]), networks);
        match read(part) {
          case None => return Err(part);
          case Some(n) => networks := networks + [n];
        }
      }
    }
    assert parts[|parts|..] == [] && networks + [] == networks;
    return Ok(networks);
  }

  /** Some entry stands for a network that holds the address. */
  ghost predicate SomeEntryHolds(v6: V6Text, entries: seq<string>, source: string) {
    exists e, n, a :: e in entries && EntryNetwork(v6, e) == Some(n) && ParseAddress(v6, source) == Some(a)
                      && Canonical(n) && Contains(n, a)
  }

  ghost predicate Readable(v6: V6Text, entries: seq<string>) {
    forall e :: e in entries ==> EntryNetwork(v6, e).Some?
  }

  /** Collecting succeeds exactly when every entry can be read, and gives exactly what they read as. */
  lemma {:induction false} CollectedExact<T>(read: string -> Option<T>, entries: seq<string>)
    ensures var r := Collected(read, entries);
            && (r.Ok? <==> forall e :: e in entries ==> read(e).Some?)
            && (r.Ok? ==> forall n :: n in r.value <==> exists e :: e in entries && read(e) == Some(n))
            && (r.Ok? ==> |r.value| == |entries|)
  {
    if entries != [] {
      CollectedExact(read, entries[1..]);
      assert entries == [entries[0]] + entries[1..];
    }
  }

  /** `any(addr in network for network in networks)` */
  method AnyContains(networks: seq<Net>, a: Address) returns (r: bool)
    requires forall n :: n in networks ==> Canonical(n)
    ensures r <==> exists n :: n in networks && Contains(n, a)
  {
    for i := 0 to |networks|
      invariant forall k :: 0 <= k < i ==> !Contains(networks[k], a)
    {
      if Contains(networks[i], a) {
        return true;
      }
    }
    return false;
  }

  lemma CollectedCanonical(v6: V6Text, entries: seq<string>, n: Net)
    requires Faithful(v6) && Collected(Reader(v6), entries).Ok? && n in Collected(Reader(v6), entries).value
    ensures Canonical(n)
  {
    CollectedExact(Reader(v6), entries);
    var e :| e in entries && Reader(v6)(e) == Some(n);
    EntryMeans(v6, e);
  }

  lemma CollectedHolds(v6: V6Text, entries: seq<string>, source: string)
    requires Faithful(v6) && Collected(Reader(v6), entries).Ok?
    requires forall n :: n in Collected(Reader(v6), entries).value ==> Canonical(n)
    ensures SomeEntryHolds(v6, entries, source) <==>
            ParseAddress(v6, source).Some?
            && exists n :: n in Collected(Reader(v6), entries).value && Contains(n, ParseAddress(v6, source).value)
  {
    CollectedExact(Reader(v6), entries);
    var ns := Collected(Reader(v6), entries).value;
    if SomeEntryHolds(v6, entries, source) {
      var e, n, a :| e in entries && EntryNetwork(v6, e) == Some(n) && ParseAddress(v6, source) == Some(a)
                     && Canonical(n) && Contains(n, a);
      assert Reader(v6)(e) == Some(n);
      assert n in ns;
    }
    if ParseAddress(v6, source).Some? {
      var a := ParseAddress(v6, source).value;
      if n :| n in ns && Contains(n, a) {
        var e :| e in entries && Reader(v6)(e) == Some(n);
        assert EntryNetwork(v6, e) == Some(n);
      }
    }
  }

  /** `is_source_ip_allowed`: no entries, or some entry's network holds the source; an unreadable source is refused. */
  method IsSourceIpAllowed(v6: V6Text, raw: Option<string>, source: string) returns (r: Result<bool, string>)
    requires Faithful(v6)
    ensures r.Ok? <==> Readable(v6, Entries(raw))
    ensures r.Ok? ==> (r.value <==> Entries(raw) == [] || SomeEntryHolds(v6, Entries(raw), source))
  {
    CollectedExact(Reader(v6), Entries(raw));
    assert forall e: string :: Reader(v6)(e) == EntryNetwork(v6, e);
    var networks := ParseAllowed(v6, raw);
    if networks.Err? {
      return Err(networks.error);
    }
    forall n | n in networks.value
      ensures Canonical(n)
    {
      CollectedCanonical(v6, Entries(raw), n);
    }
    CollectedHolds(v6, Entries(raw), source);
    if networks.value == [] {
      return Ok(true);
    }
    var a := ParseAddress(v6, source);
    if a.None? {
      return Ok(false);
    }
    var any := AnyContains(networks.value, a.value);
    return Ok(any);
  }

  /** Joining parts with commas, however they are spaced and whatever blanks are among them, gives exactly
      their entries; so only which entries there are matters, not their order, spacing or blanks. */
  lemma EntriesOfJoin(parts: seq<string>)
    requires parts != [] && forall p :: p in parts ==> ',' !in p
    ensures Entries(Some(Join(parts, ','))) == NonBlank(parts)
    ensures forall e :: e in Entries(Some(Join(parts, ','))) <==> e != "" && exists p :: p in parts && Strip(p) == e
  {
    SplitJoin(parts, ',');
    NonBlankExact(parts);
  }

  lemma {:induction false} NonBlankExact(parts: seq<string>)
    ensures forall e :: e in NonBlank(parts) <==> e != "" && exists p :: p in parts && Strip(p) == e
  {
    if parts != [] {
      NonBlankExact(parts[1..]);
      assert parts == [parts[0]] + parts[1..];
    }
  }

  /** An entry that is an address with a prefix, spaced in any way, admits exactly the sources that agree with it on
      that many leading bits. */
  lemma PrefixAdmits(v6: V6Text, before: string, a: Address, prefix: nat, after: string, b: Address)
    requires Faithful(v6) && ValidAddress(a) && prefix <= Width(a.version) && AllSpace(before) && AllSpace(after)
    requires ValidAddress(b)
    ensures var t := PrintAddress(v6, a) + "/" + Decimals.Print(prefix);
            var raw := Some(before + t + after);
            && Entries(raw) == [t] && Readable(v6, Entries(raw))
            && (SomeEntryHolds(v6, Entries(raw), PrintAddress(v6, b)) <==> SharesBits(a, b, prefix))
  {
    var t := PrintAddress(v6, a) + "/" + Decimals.Print(prefix);
    PrefixedTrimmed(v6, a, prefix);
    StripPadding(before, t, after);
    NoComma(v6, a, prefix, before, after);
    SplitPlain(before + t + after, ',');
    assert NonBlank([before + t + after]) == [t];
    PrefixedExact(v6, a, prefix);
    PrintedAddress(v6, b);
    assert t in [t] && EntryNetwork(v6, t) == ParseNetwork(v6, t);
  }

  lemma NoComma(v6: V6Text, a: Address, prefix: nat, before: string, after: string)
    requires Faithful(v6) && ValidAddress(a) && AllSpace(before) && AllSpace(after)
    ensures ',' !in before + (PrintAddress(v6, a) + "/" + Decimals.Print(prefix)) + after
  {
    PrintedAddress(v6, a);
    if a.version == V4 && ',' in PrintAddress(v6, a) {
      ForeignNotV4(PrintAddress(v6, a), ',');
    }
    Decimals.ValuePrint(prefix);
  }

  lemma OnlyEntriesMatter(v6: V6Text, raw: Option<string>, other: Option<string>, source: string)
    requires forall e :: e in Entries(raw) <==> e in Entries(other)
    ensures Readable(v6, Entries(raw)) <==> Readable(v6, Entries(other))
    ensures Entries(raw) == [] || SomeEntryHolds(v6, Entries(raw), source)
            <==> Entries(other) == [] || SomeEntryHolds(v6, Entries(other), source)
  {
    assert Entries(raw) != [] ==> Entries(raw)[0] in Entries(other);
    assert Entries(other) != [] ==> Entries(other)[0] in Entries(raw);
  }
}
