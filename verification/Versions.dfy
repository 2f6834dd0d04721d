/** Four-part versions: text, order, and the release increments. */
module Versions {
  import opened Wrappers
  import opened Texts
  import Decimals

  datatype Version = Version(major: nat, minor: nat, patch: nat, revision: nat)

  datatype Part = Major | Minor | Patch | Revision

  function Slot(p: Part): (i: nat)
    ensures i < 4
  {
    match p case Major => 0 case Minor => 1 case Patch => 2 case Revision => 3
  }

  function Slots(v: Version): (s: seq<nat>)
    ensures |s| == 4
  {
    [v.major, v.minor, v.patch, v.revision]
  }

  function PrintAll(ns: seq<nat>): (r: seq<string>)
    ensures |r| == |ns|
  {
    seq(|ns|, i requires 0 <= i < |ns| => Decimals.Print(ns[i]))
  }

  function PrintVersion(v: Version): string {
    Join(PrintAll(Slots(v)), '.')
  }

  /** Four canonical numerals separated by dots, or nothing. */
  function ParseVersion(s: string): Option<Version> {
    var parts := Split(s, '.');
    if |parts| == 4 && Decimals.Canonical(parts[0]) && Decimals.Canonical(parts[1])
       && Decimals.Canonical(parts[2]) && Decimals.Canonical(parts[3])
    then Some(Version(Decimals.Value(parts[0]), Decimals.Value(parts[1]), Decimals.Value(parts[2]),
      Decimals.Value(parts[3])))
    else None
  }

  lemma ParsePrint(v: Version)
    ensures ParseVersion(PrintVersion(v)) == Some(v)
  {
    var s := Slots(v);
    forall i | 0 <= i < 4
      ensures '.' !in PrintAll(s)[i] && Decimals.Canonical(PrintAll(s)[i]) && Decimals.Value(PrintAll(s)[i]) == s[i]
    {
      Decimals.ValuePrint(s[i]);
    }
    SplitJoin(PrintAll(s), '.');
  }

  /** Canonical text has one spelling. */
  lemma PrintParse(s: string)
    ensures ParseVersion(s).Some? ==> PrintVersion(ParseVersion(s).value) == s
  {
    var parts := Split(s, '.');
    if ParseVersion(s).Some? {
      forall i | 0 <= i < 4
        ensures Decimals.Print(Slots(ParseVersion(s).value)[i]) == parts[i]
      {
        Decimals.PrintValue(parts[i]);
      }
      assert PrintAll(Slots(ParseVersion(s).value)) == parts;
      JoinSplit(s, '.');
    }
  }

  /** Lexicographic order of the four parts. */
  predicate Less(v: Version, w: Version) {
    || v.major < w.major
    || (v.major == w.major && v.minor < w.minor)
    || (v.major == w.major && v.minor == w.minor && v.patch < w.patch)
    || (v.major == w.major && v.minor == w.minor && v.patch == w.patch && v.revision < w.revision)
  }

  predicate AtMost(v: Version, w: Version) {
    v == w || Less(v, w)
  }

  function Bumped(v: Version, p: Part): Version {
    match p
    case Major => Version(v.major + 1, 0, 0, 0)
    case Minor => Version(v.major, v.minor + 1, 0, 0)
    case Patch => Version(v.major, v.minor, v.patch + 1, 0)
    case Revision => Version(v.major, v.minor, v.patch, v.revision + 1)
  }

  /** `v` and `w` differ in the named part or one before it. */
  predicate DifferUpTo(v: Version, w: Version, p: Part) {
    Slots(v)[..Slot(p) + 1] != Slots(w)[..Slot(p) + 1]
  }

  /** Each increment is the least version above `v` that differs from it in that part or before;
      so it increases, the revision bump is the immediate successor, and the four kinds are ordered. */
  lemma BumpedLeast(v: Version, p: Part)
    ensures Less(v, Bumped(v, p)) && DifferUpTo(v, Bumped(v, p), p)
    ensures forall w :: Less(v, w) && DifferUpTo(v, w, p) ==> AtMost(Bumped(v, p), w)
  {
    var k := Slot(p);
    assert Slots(v)[..k + 1][k] != Slots(Bumped(v, p))[..k + 1][k];
  }

  lemma BumpOrder(v: Version)
    ensures Less(Bumped(v, Revision), Bumped(v, Patch))
    ensures Less(Bumped(v, Patch), Bumped(v, Minor))
    ensures Less(Bumped(v, Minor), Bumped(v, Major))
    ensures forall w :: Less(v, w) ==> AtMost(Bumped(v, Revision), w)
  {
  }

  /** `bump`: the slots are overwritten in place, then printed. */
  method Bump(text: string, part: Part) returns (r: Option<string>)
    ensures r == match ParseVersion(text)
                 case None => None
                 case Some(v) => Some(PrintVersion(Bumped(v, part)))
  {
    var parsed := ParseVersion(text);
    if parsed.None? {
      return None;
    }
    var values := new nat[4];
    values[0], values[1], values[2], values[3] :=
      parsed.value.major, parsed.value.minor, parsed.value.patch, parsed.value.revision;
    var index := Slot(part);
    values[index] := values[index] + 1;
    for i := index + 1 to 4
      invariant forall k :: 0 <= k < index ==> values[k] == Slots(parsed.value)[k]
      invariant values[index] == Slots(parsed.value)[index] + 1
      invariant forall k :: index < k < i ==> values[k] == 0
    {
      values[i] := 0;
    }
    assert values[..] == Slots(Bumped(parsed.value, part));
    return Some(Join(PrintAll(values[..]), '.'));
  }

  /* ---------- Tagging a prepared version ---------- */

  /** `max(previous, key=...)` */
  method Latest(previous: seq<Version>) returns (latest: Version)
    requires previous != []
    ensures latest in previous && forall v :: v in previous ==> AtMost(v, latest)
  {
    latest := previous[0];
    for i := 1 to |previous|
      invariant latest in previous && forall v :: v in previous[..i] ==> AtMost(v, latest)
    {
      assert previous[..i + 1] == previous[..i] + [previous[i]];
      if Less(latest, previous[i]) {
        latest := previous[i];
      }
    }
    assert previous[..|previous|] == previous;
  }

  datatype Verdict = Malformed | AlreadyPublished | NotOneIncrement | Tagged(version: Version)

  ghost predicate OneStepAbove(v: Version, merged: seq<Version>) {
    exists l, p :: l in merged && (forall o :: o in merged ==> AtMost(o, l)) && v == Bumped(l, p)
  }

  /** The checks of the prepared mode, in order. */
  method CheckPrepared(file: string, published: set<Version>, merged: seq<Version>) returns (r: Verdict)
    ensures r == match ParseVersion(file)
                 case None => Malformed
                 case Some(v) =>
                   if v in published then AlreadyPublished
                   else if merged == [] || OneStepAbove(v, merged) then Tagged(v)
                   else NotOneIncrement
  {
    var parsed := ParseVersion(file);
    if parsed.None? {
      return Malformed;
    }
    var version := parsed.value;
    if version in published {
      return AlreadyPublished;
    }
    if merged != [] {
      var latest := Latest(merged);
      assert forall l :: l in merged && (forall o :: o in merged ==> AtMost(o, l)) ==> l == latest;
      if version != Bumped(latest, Revision) && version != Bumped(latest, Patch)
         && version != Bumped(latest, Minor) && version != Bumped(latest, Major) {
        return NotOneIncrement;
      }
    }
    return Tagged(version);
  }

  /** A version the prepared mode accepts exceeds every merged tag. */
  lemma PreparedExceeds(v: Version, merged: seq<Version>, o: Version)
    requires OneStepAbove(v, merged) && o in merged
    ensures Less(o, v)
  {
  }
}
