/**
 Base64url, section 5 of RFC 4648: the encoder with its padding, and the lenient decoder
 of CPython, which skips characters outside the alphabet and stops at a completed pad.
 */
module Base64Url {
  import opened Wrappers

  type Byte = b: nat | b < 256

  type Sextet = i: nat | i < 64

  function EncodeChar(i: Sextet): (c: char)
    ensures InAlphabet(c)
  {
    if i < 26 then 'A' + i as char
    else if i < 52 then 'a' + (i - 26) as char
    else if i < 62 then '0' + (i - 52) as char
    else if i == 62 then '-' else '_'
  }

  predicate InAlphabet(c: char) {
    'A' <= c <= 'Z' || 'a' <= c <= 'z' || '0' <= c <= '9' || c == '-' || c == '_'
  }

  /** The decoder also knows the two characters of the standard alphabet. */
  function DecodeChar(c: char): Option<Sextet> {
    if 'A' <= c <= 'Z' then Some((c - 'A') as nat)
    else if 'a' <= c <= 'z' then Some((c - 'a') as nat + 26)
    else if '0' <= c <= '9' then Some((c - '0') as nat + 52)
    else if c == '-' || c == '+' then Some(62)
    else if c == '_' || c == '/' then Some(63)
    else None
  }

  lemma CharRoundTrip(i: Sextet)
    ensures DecodeChar(EncodeChar(i)) == Some(i)
  {
  }

  /** `urlsafe_b64encode` */
  function Padded(bs: seq<Byte>): string {
    if bs == [] then ""
    else if |bs| == 1 then [EncodeChar(bs[0] / 4), EncodeChar(bs[0] % 4 * 16), '=', '=']
    else if |bs| == 2 then
      [EncodeChar(bs[0] / 4), EncodeChar(bs[0] % 4 * 16 + bs[1] / 16), EncodeChar(bs[1] % 16 * 4), '=']
    else
      Group(bs[0], bs[1], bs[2]) + Padded(bs[3..])
  }

  function Group(b0: Byte, b1: Byte, b2: Byte): (s: string)
    ensures |s| == 4 && forall i :: 0 <= i < 4 ==> InAlphabet(s[i])
  {
    [EncodeChar(b0 / 4), EncodeChar(b0 % 4 * 16 + b1 / 16), EncodeChar(b1 % 16 * 4 + b2 / 64), EncodeChar(b2 % 64)]
  }

  /** `rstrip("=")` */
  function StripPad(s: string): string {
    if s != "" && s[|s| - 1] == '=' then StripPad(s[..|s| - 1]) else s
  }

  function Pads(n: nat): string {
    seq(n, _ => '=')
  }

  /** `s + "=" * (-len(s) % 4)` */
  function Repad(s: string): string {
    s + Pads(-|s| % 4)
  }

  function Unpadded(bs: seq<Byte>): string {
    StripPad(Padded(bs))
  }

  /** The decoder's loop: position in the current group of four, bits left over, pads seen; None is an error. */
  function DecodeFrom(s: string, quad: nat, left: nat, pads: nat): Option<seq<Byte>>
    requires quad < 4
    requires if quad == 0 then left == 0 else if quad == 1 then left < 64 else if quad == 2 then left < 16 else left < 4
  {
    if s == "" then (if quad == 0 then Some([]) else None)
    else if s[0] == '=' then
      if quad >= 2 && quad + pads + 1 >= 4 then Some([])
      else DecodeFrom(s[1..], quad, left, if quad >= 2 then pads + 1 else pads)
    else match DecodeChar(s[0])
      case None => DecodeFrom(s[1..], quad, left, pads)
      case Some(i) =>
        if quad == 0 then DecodeFrom(s[1..], 1, i, 0)
        else if quad == 1 then Emit(left * 4 + i / 16, DecodeFrom(s[1..], 2, i % 16, 0))
        else if quad == 2 then Emit(left * 16 + i / 4, DecodeFrom(s[1..], 3, i % 4, 0))
        else Emit(left * 64 + i, DecodeFrom(s[1..], 0, 0, 0))
  }

  function Emit(b: Byte, rest: Option<seq<Byte>>): Option<seq<Byte>> {
    if rest.Some? then Some([b] + rest.value) else None
  }

  /** `urlsafe_b64decode` on ASCII text. */
  function Decoded(s: string): Option<seq<Byte>> {
    DecodeFrom(s, 0, 0, 0)
  }

  /* ---------- Round trip ---------- */

  predicate Means(c: char, i: Sextet) {
    c != '=' && DecodeChar(c) == Some(i)
  }

  /** One character of the alphabet, at each position of a group. */
  lemma DecodeOne(c: char, i: Sextet, rest: string, left: nat)
    requires Means(c, i)
    ensures DecodeFrom([c] + rest, 0, 0, 0) == DecodeFrom(rest, 1, i, 0)
    ensures left < 64 ==> DecodeFrom([c] + rest, 1, left, 0) == Emit(left * 4 + i / 16, DecodeFrom(rest, 2, i % 16, 0))
    ensures left < 16 ==> DecodeFrom([c] + rest, 2, left, 0) == Emit(left * 16 + i / 4, DecodeFrom(rest, 3, i % 4, 0))
    ensures left < 4 ==> DecodeFrom([c] + rest, 3, left, 0) == Emit(left * 64 + i, DecodeFrom(rest, 0, 0, 0))
  {
    assert ([c] + rest)[1..] == rest;
  }

  /** Four characters of the alphabet give three bytes and leave the decoder as it was. */
  lemma DecodeGroup(c0: char, c1: char, c2: char, c3: char, i0: Sextet, i1: Sextet, i2: Sextet, i3: Sextet,
      rest: string)
    requires Means(c0, i0) && Means(c1, i1) && Means(c2, i2) && Means(c3, i3)
    ensures Decoded([c0, c1, c2, c3] + rest)
            == Emit(i0 * 4 + i1 / 16, Emit(i1 % 16 * 16 + i2 / 4, Emit(i2 % 4 * 64 + i3, Decoded(rest))))
  {
    var s3 := [c3] + rest;
    var s2 := [c2] + s3;
    var s1 := [c1] + s2;
    DecodeOne(c0, i0, s1, 0);
    DecodeOne(c1, i1, s2, i0);
    DecodeOne(c2, i2, s3, i1 % 16);
    DecodeOne(c3, i3, rest, i2 % 4);
    assert [c0, c1, c2, c3] + rest == [c0] + s1;
  }

  /** Splitting three bytes into sextets and putting them together again. */
  lemma Regroup(b0: Byte, b1: Byte, b2: Byte)
    ensures b0 / 4 * 4 + (b0 % 4 * 16 + b1 / 16) / 16 == b0
    ensures (b0 % 4 * 16 + b1 / 16) % 16 * 16 + (b1 % 16 * 4 + b2 / 64) / 4 == b1
    ensures (b1 % 16 * 4 + b2 / 64) % 4 * 64 + b2 % 64 == b2
  {
  }

  lemma DecodePadded(bs: seq<Byte>)
    ensures Decoded(Padded(bs)) == Some(bs)
  {
    PaddedThen(bs, "");
    assert Padded(bs) + "" == Padded(bs) && bs + [] == bs;
  }

  /** Bytes in front of what is decoded, if it can be. */
  function Onto(bs: seq<Byte>, rest: Option<seq<Byte>>): Option<seq<Byte>> {
    if rest.Some? then Some(bs + rest.value) else None
  }

  /** What follows the padding is never looked at; behind an encoding without padding the decoder goes on. */
  lemma {:induction false} PaddedThen(bs: seq<Byte>, rest: string)
    ensures Decoded(Padded(bs) + rest) == if |bs| % 3 != 0 then Some(bs) else Onto(bs, Decoded(rest))
  {
    if |bs| == 0 {
      assert Padded(bs) + rest == rest;
      OntoNothing(Decoded(rest));
    } else if |bs| == 1 {
      TailOneThen(bs[0], rest);
      assert bs == [bs[0]];
    } else if |bs| == 2 {
      TailTwoThen(bs[0], bs[1], rest);
      assert bs == [bs[0], bs[1]];
    } else {
      var first := [bs[0], bs[1], bs[2]];
      PaddedThen(bs[3..], rest);
      FirstGroup(bs, rest);
      FirstBytes(bs);
      GroupThen(bs[0], bs[1], bs[2], Padded(bs[3..]) + rest);
      OntoBoth(first, bs[3..], Decoded(rest));
    }
  }

  lemma OntoNothing(rest: Option<seq<Byte>>)
    ensures Onto([], rest) == rest
  {
    assert rest.Some? ==> [] + rest.value == rest.value;
  }

  lemma OntoBoth(a: seq<Byte>, b: seq<Byte>, rest: Option<seq<Byte>>)
    ensures Onto(a, Onto(b, rest)) == Onto(a + b, rest)
  {
    assert rest.Some? ==> a + (b + rest.value) == (a + b) + rest.value;
  }

  lemma FirstGroup(bs: seq<Byte>, rest: string)
    requires |bs| >= 3
    ensures Padded(bs) + rest == Group(bs[0], bs[1], bs[2]) + (Padded(bs[3..]) + rest)
  {
    Associates(Group(bs[0], bs[1], bs[2]), Padded(bs[3..]), rest);
  }

  lemma FirstBytes(bs: seq<Byte>)
    requires |bs| >= 3
    ensures bs == [bs[0], bs[1], bs[2]] + bs[3..] && |bs| % 3 == |bs[3..]| % 3
  {
  }

  lemma Associates(a: string, b: string, c: string)
    ensures (a + b) + c == a + (b + c)
  {
  }

  /** Two characters and two pads end the text, whatever follows. */
  lemma TailOne(c0: char, c1: char, i0: Sextet, i1: Sextet, rest: string)
    requires Means(c0, i0) && Means(c1, i1)
    ensures Decoded([c0, c1, '=', '='] + rest) == Some([i0 * 4 + i1 / 16])
  {
    var pad := ['='] + rest;
    var pads := ['='] + pad;
    DecodeOne(c0, i0, [c1] + pads, 0);
    DecodeOne(c1, i1, pads, i0);
    assert [c0, c1, '=', '='] + rest == [c0] + ([c1] + pads);
    assert pads[1..] == pad;
    assert DecodeFrom(pad, 2, i1 % 16, 1) == Some([]);
    assert [i0 * 4 + i1 / 16] + [] == [i0 * 4 + i1 / 16];
  }

  /** So do three and one. */
  lemma TailTwo(c0: char, c1: char, c2: char, i0: Sextet, i1: Sextet, i2: Sextet, rest: string)
    requires Means(c0, i0) && Means(c1, i1) && Means(c2, i2)
    ensures Decoded([c0, c1, c2, '='] + rest) == Some([i0 * 4 + i1 / 16, i1 % 16 * 16 + i2 / 4])
  {
    var pad := ['='] + rest;
    DecodeOne(c0, i0, [c1] + ([c2] + pad), 0);
    DecodeOne(c1, i1, [c2] + pad, i0);
    DecodeOne(c2, i2, pad, i1 % 16);
    assert [c0, c1, c2, '='] + rest == [c0] + ([c1] + ([c2] + pad));
    assert DecodeFrom(pad, 3, i2 % 4, 0) == Some([]);
    assert [i0 * 4 + i1 / 16] + ([i1 % 16 * 16 + i2 / 4] + []) == [i0 * 4 + i1 / 16, i1 % 16 * 16 + i2 / 4];
  }

  lemma TailOneThen(b0: Byte, rest: string)
    ensures Decoded(Padded([b0]) + rest) == Some([b0])
  {
    var i0, i1 := b0 / 4, b0 % 4 * 16;
    Regroup(b0, 0, 0);
    CharRoundTrip(i0);
    CharRoundTrip(i1);
    TailOne(EncodeChar(i0), EncodeChar(i1), i0, i1, rest);
    assert Padded([b0]) == [EncodeChar(i0), EncodeChar(i1), '=', '='];
  }

  lemma TailTwoThen(b0: Byte, b1: Byte, rest: string)
    ensures Decoded(Padded([b0, b1]) + rest) == Some([b0, b1])
  {
    var i0, i1, i2 := b0 / 4, b0 % 4 * 16 + b1 / 16, b1 % 16 * 4;
    Regroup(b0, b1, 0);
    CharRoundTrip(i0);
    CharRoundTrip(i1);
    CharRoundTrip(i2);
    TailTwo(EncodeChar(i0), EncodeChar(i1), EncodeChar(i2), i0, i1, i2, rest);
    assert Padded([b0, b1]) == [EncodeChar(i0), EncodeChar(i1), EncodeChar(i2), '='];
  }

  lemma GroupThen(b0: Byte, b1: Byte, b2: Byte, rest: string)
    ensures Decoded(Group(b0, b1, b2) + rest) == Onto([b0, b1, b2], Decoded(rest))
  {
    var i0, i1, i2, i3 := b0 / 4, b0 % 4 * 16 + b1 / 16, b1 % 16 * 4 + b2 / 64, b2 % 64;
    Regroup(b0, b1, b2);
    CharRoundTrip(i0);
    CharRoundTrip(i1);
    CharRoundTrip(i2);
    CharRoundTrip(i3);
    DecodeGroup(EncodeChar(i0), EncodeChar(i1), EncodeChar(i2), EncodeChar(i3), i0, i1, i2, i3, rest);
    if Decoded(rest).Some? {
      assert [b0] + ([b1] + ([b2] + Decoded(rest).value)) == [b0, b1, b2] + Decoded(rest).value;
    }
  }

  /** Alphabet characters followed by exactly `n` pads. */
  ghost predicate Shape(s: string, n: nat) {
    && n <= |s|
    && (forall i :: 0 <= i < |s| - n ==> InAlphabet(s[i]))
    && (forall i :: |s| - n <= i < |s| ==> s[i] == '=')
  }

  function PadCount(bs: seq<Byte>): nat {
    if |bs| % 3 == 1 then 2 else if |bs| % 3 == 2 then 1 else 0
  }

  lemma ShapeGrows(a: string, t: string, n: nat)
    requires Shape(a, 0) && Shape(t, n) && |a| % 4 == |t| % 4 == 0
    ensures Shape(a + t, n) && |a + t| % 4 == 0
  {
  }

  /** The padded text is alphabet characters followed by at most two pads; its length is a multiple of four. */
  lemma {:induction false} PaddedShape(bs: seq<Byte>)
    ensures Shape(Padded(bs), PadCount(bs)) && |Padded(bs)| % 4 == 0
  {
    if |bs| == 1 {
      assert Padded(bs) == [EncodeChar(bs[0] / 4), EncodeChar(bs[0] % 4 * 16), '=', '='];
    } else if |bs| == 2 {
      assert Padded(bs)
          == [EncodeChar(bs[0] / 4), EncodeChar(bs[0] % 4 * 16 + bs[1] / 16), EncodeChar(bs[1] % 16 * 4), '='];
    } else if |bs| >= 3 {
      PaddedShape(bs[3..]);
      PadCountDrop(bs);
      ShapeGrows(Group(bs[0], bs[1], bs[2]), Padded(bs[3..]), PadCount(bs));
    }
  }

  lemma PadCountDrop(bs: seq<Byte>)
    requires |bs| >= 3
    ensures PadCount(bs) == PadCount(bs[3..])
  {
  }

  lemma {:induction false} StripPadExact(s: string, n: nat)
    requires n <= |s| && (forall i :: |s| - n <= i < |s| ==> s[i] == '=')
    requires forall i :: 0 <= i < |s| - n ==> s[i] != '='
    ensures StripPad(s) == s[..|s| - n]
  {
    if n > 0 {
      StripPadExact(s[..|s| - 1], n - 1);
      assert s[..|s| - 1][..|s| - n] == s[..|s| - n];
    } else {
      assert s[..|s|] == s;
    }
  }

  lemma NegativeMod(l: nat, n: nat)
    requires l % 4 == 0 && n <= 2 && n <= l
    ensures -(l - n) % 4 == n && (l - n) % 4 != 1
  {
  }

  lemma RepadStripped(s: string, n: nat)
    requires Shape(s, n) && n <= 2 && |s| % 4 == 0
    ensures StripPad(s) == s[..|s| - n] && Repad(StripPad(s)) == s && |StripPad(s)| % 4 != 1
  {
    StripPadExact(s, n);
    NegativeMod(|s|, n);
    assert Repad(StripPad(s)) == s[..|s| - n] + Pads(n);
    assert s[|s| - n..] == Pads(n);
  }

  /** The pads computed from the stripped length are exactly the stripped ones; that length is never 1 mod 4;
      and the stripped text is all alphabet. */
  lemma RepadRestores(bs: seq<Byte>)
    ensures Repad(Unpadded(bs)) == Padded(bs)
    ensures |Unpadded(bs)| % 4 != 1
    ensures forall i :: 0 <= i < |Unpadded(bs)| ==> InAlphabet(Unpadded(bs)[i])
  {
    PaddedShape(bs);
    RepadStripped(Padded(bs), PadCount(bs));
  }

  /* ---------- The alphabet, and text no encoder writes ---------- */

  /** Three test vectors of section 10 of RFC 4648, and the two characters in which the alphabets differ. */
  lemma TestVectors()
    ensures Padded([102]) == "Zg==" && Padded([102, 111]) == "Zm8=" && Padded([102, 111, 111]) == "Zm9v"
    ensures Padded([251, 255]) == "-_8="
  {
    assert [102, 111, 111][3..] == [] && Padded([]) == "";
  }

  /** The decoder reads that alphabet, and the standard one besides. */
  lemma DecodesAlphabet(c: char, i: Sextet)
    ensures DecodeChar(c) == Some(i) <==> c == EncodeChar(i) || (c == '+' && i == 62) || (c == '/' && i == 63)
  {
    CharRoundTrip(i);
    if DecodeChar(c) == Some(i) && c != '+' && c != '/' {
      assert c as int == EncodeChar(i) as int;
    }
  }

  ghost predicate Reachable(quad: nat, left: nat) {
    quad < 4 && left < if quad == 0 then 1 else if quad == 1 then 64 else if quad == 2 then 16 else 4
  }

  /** Where the text ends or a pad comes. A text must not end within a group. A pad among the first two characters of a
      group is skipped; behind three it ends the text; behind two it takes a second one, with nothing read between
      them, to end the text, and a single one is skipped. */
  lemma PadMeans(quad: nat, left: nat, c: char, rest: string)
    requires Reachable(quad, left) && InAlphabet(c)
    ensures DecodeFrom("", quad, left, 0) == if quad == 0 then Some([]) else None
    ensures quad < 2 ==> DecodeFrom(['='] + rest, quad, left, 0) == DecodeFrom(rest, quad, left, 0)
    ensures quad == 3 ==> DecodeFrom(['='] + rest, quad, left, 0) == Some([])
    ensures quad == 2 ==> DecodeFrom(['=', '='] + rest, quad, left, 0) == Some([])
    ensures quad == 2 ==> DecodeFrom(['=', c] + rest, quad, left, 0) == DecodeFrom([c] + rest, quad, left, 0)
    ensures quad == 2 ==> DecodeFrom("=", quad, left, 0) == None
  {
    assert (['='] + rest)[1..] == rest;
    assert (['=', '='] + rest)[1..] == ['='] + rest;
    assert (['=', c] + rest)[1..] == [c] + rest;
  }

  /** Without its padding an encoding is read only if it had none. */
  lemma {:induction false} UnpaddedReads(bs: seq<Byte>)
    ensures Decoded(Unpadded(bs)).Some? <==> |bs| % 3 == 0
  {
    PaddedShape(bs);
    RepadStripped(Padded(bs), PadCount(bs));
    RepadRestores(bs);
    var n := PadCount(bs);
    StripPadExact(Padded(bs), n);
    if n == 0 {
      assert Unpadded(bs) == Padded(bs);
      DecodePadded(bs);
    } else {
      CutTail(bs);
    }
  }

  lemma {:induction false} CutTail(bs: seq<Byte>)
    requires |bs| % 3 != 0
    ensures |Padded(bs)| >= PadCount(bs)
    ensures Decoded(Padded(bs)[..|Padded(bs)| - PadCount(bs)]) == None
  {
    if |bs| == 1 {
      CutOne(bs[0]);
      assert bs == [bs[0]];
    } else if |bs| == 2 {
      CutTwo(bs[0], bs[1]);
      assert bs == [bs[0], bs[1]];
    } else {
      CutTail(bs[3..]);
      CutMore(bs);
    }
  }

  lemma CutMore(bs: seq<Byte>)
    requires |bs| >= 3 && |Padded(bs[3..])| >= PadCount(bs)
    requires Decoded(Padded(bs[3..])[..|Padded(bs[3..])| - PadCount(bs[3..])]) == None
    ensures |Padded(bs)| >= PadCount(bs)
    ensures Decoded(Padded(bs)[..|Padded(bs)| - PadCount(bs)]) == None
  {
    PadCountDrop(bs);
    CutBehind(bs[0], bs[1], bs[2], Padded(bs[3..]), PadCount(bs));
  }

  lemma CutBehind(b0: Byte, b1: Byte, b2: Byte, q: string, n: nat)
    requires n <= |q| && Decoded(q[..|q| - n]) == None
    ensures var p := Group(b0, b1, b2) + q;
            Decoded(p[..|p| - n]) == None
  {
    var p := Group(b0, b1, b2) + q;
    GroupThen(b0, b1, b2, q[..|q| - n]);
    assert p[..|p| - n] == Group(b0, b1, b2) + q[..|q| - n];
  }

  lemma CutOne(b0: Byte)
    ensures Decoded(Padded([b0])[..2]) == None
  {
    var i0, i1 := b0 / 4, b0 % 4 * 16;
    var c0, c1 := EncodeChar(i0), EncodeChar(i1);
    CharRoundTrip(i0);
    CharRoundTrip(i1);
    DecodeOne(c0, i0, [c1], 0);
    DecodeOne(c1, i1, "", i0);
    assert Padded([b0])[..2] == [c0] + [c1] && [c1] == [c1] + "";
  }

  lemma CutTwo(b0: Byte, b1: Byte)
    ensures Decoded(Padded([b0, b1])[..3]) == None
  {
    var i0, i1, i2 := b0 / 4, b0 % 4 * 16 + b1 / 16, b1 % 16 * 4;
    var c0, c1, c2 := EncodeChar(i0), EncodeChar(i1), EncodeChar(i2);
    CharRoundTrip(i0);
    CharRoundTrip(i1);
    CharRoundTrip(i2);
    DecodeOne(c0, i0, [c1] + [c2], 0);
    DecodeOne(c1, i1, [c2], i0);
    DecodeOne(c2, i2, "", i1 % 16);
    assert Padded([b0, b1])[..3] == [c0] + ([c1] + [c2]) && [c2] == [c2] + "";
  }

  /** A character outside the alphabet that is not a pad changes nothing, wherever it is inserted. */
  lemma {:induction false} ForeignIgnored(before: string, c: char, after: string, quad: nat, left: nat, pads: nat)
    requires quad < 4
    requires if quad == 0 then left == 0 else if quad == 1 then left < 64 else if quad == 2 then left < 16 else left < 4
    requires c != '=' && DecodeChar(c).None?
    ensures DecodeFrom(before + [c] + after, quad, left, pads) == DecodeFrom(before + after, quad, left, pads)
    decreases |before|
  {
    var s, t := before + [c] + after, before + after;
    if before == "" {
      assert s[1..] == after && t == after;
    } else {
      assert s[0] == before[0] && t[0] == before[0];
      assert s[1..] == before[1..] + [c] + after && t[1..] == before[1..] + after;
      if s[0] == '=' {
        if !(quad >= 2 && quad + pads + 1 >= 4) {
          ForeignIgnored(before[1..], c, after, quad, left, if quad >= 2 then pads + 1 else pads);
        }
      } else {
        match DecodeChar(s[0])
        case None => ForeignIgnored(before[1..], c, after, quad, left, pads);
        case Some(i) =>
          if quad == 0 {
            ForeignIgnored(before[1..], c, after, 1, i, 0);
          } else if quad == 1 {
            ForeignIgnored(before[1..], c, after, 2, i % 16, 0);
          } else if quad == 2 {
            ForeignIgnored(before[1..], c, after, 3, i % 4, 0);
          } else {
            ForeignIgnored(before[1..], c, after, 0, 0, 0);
          }
      }
    }
  }
}
