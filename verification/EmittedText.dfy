/**
 Text that is emitted between delimiters: quoted attribute values, command patterns between slashes,
 and SQL string defaults. For each, a left-to-right reader that must stop at the emitted delimiter.
 */
module EmittedText {
  import opened Wrappers
  import opened Texts
  import Decimals

  /* ---------- Readers ---------- */

  /** Where the closing delimiter is, taking a backslash and the character after it as one unit. */
  function Closing(s: string, delimiter: char): Option<nat> {
    if s == "" then None
    else if s[0] == delimiter then Some(0)
    else
      var unit := if s[0] == '\\' then 2 else 1;
      if |s| < unit then None
      else match Closing(s[unit..], delimiter)
        case None => None
        case Some(k) => Some(unit + k)
  }

  /** The same for an SQL literal, in which a doubled quote stands for one. */
  function ClosingDoubled(s: string): Option<nat> {
    if s == "" then None
    else if s[0] == '\'' && (|s| == 1 || s[1] != '\'') then Some(0)
    else
      var unit := if s[0] == '\'' then 2 else 1;
      match ClosingDoubled(s[unit..])
      case None => None
      case Some(k) => Some(unit + k)
  }

  /* ---------- Quoted values ---------- */

  /** `s.replace(c, to)` for one character */
  function Replace(s: string, c: char, to: string): string {
    if s == "" then "" else (if s[0] == c then to else [s[0]]) + Replace(s[1..], c, to)
  }

  /** `value.replace("\\", "\\\\").replace('"', '\\"')` */
  function Escaped(value: string): string {
    Replace(Replace(value, '\\', "\\\\"), '"', "\\\"")
  }

  function EscapedChar(c: char): string {
    if c == '\\' || c == '"' then ['\\', c] else [c]
  }

  function EscapeEach(value: string): string {
    if value == "" then "" else EscapedChar(value[0]) + EscapeEach(value[1..])
  }

  function Unescape(s: string): string {
    if s == "" then ""
    else if s[0] == '\\' && |s| > 1 then [s[1]] + Unescape(s[2..])
    else [s[0]] + Unescape(s[1..])
  }

  lemma {:induction false} ReplaceConcat(a: string, b: string, c: char, to: string)
    ensures Replace(a + b, c, to) == Replace(a, c, to) + Replace(b, c, to)
  {
    if a == "" {
      assert a + b == b;
    } else {
      ReplaceConcat(a[1..], b, c, to);
      assert (a + b)[1..] == a[1..] + b;
    }
  }

  /** The two replacements amount to escaping each character on its own. */
  lemma {:induction false} TwoReplacesAreOne(value: string)
    ensures Escaped(value) == EscapeEach(value)
  {
    if value != "" {
      TwoReplacesAreOne(value[1..]);
      var head := if value[0] == '\\' then "\\\\" else [value[0]];
      ReplaceConcat(head, Replace(value[1..], '\\', "\\\\"), '"', "\\\"");
      OneChar(value[0]);
    }
  }

  lemma OneChar(c: char)
    ensures Replace(if c == '\\' then "\\\\" else [c], '"', "\\\"") == EscapedChar(c)
  {
    if c == '\\' {
      assert "\\\\"[1..] == "\\" && "\\"[1..] == "";
    }
  }

  /** A reader of the quoted value stops at the emitted closing quote, whatever follows. */
  lemma {:induction false} QuoteCloses(value: string, rest: string)
    ensures Closing(EscapeEach(value) + "\"" + rest, '"') == Some(|EscapeEach(value)|)
  {
    var s := EscapeEach(value) + "\"" + rest;
    if value != "" {
      var unit := EscapedChar(value[0]);
      QuoteCloses(value[1..], rest);
      assert s == unit + (EscapeEach(value[1..]) + "\"" + rest);
      assert s[|unit|..] == EscapeEach(value[1..]) + "\"" + rest;
    }
  }

  lemma {:induction false} UnescapeEach(value: string)
    ensures Unescape(EscapeEach(value)) == value
  {
    if value != "" {
      var unit, s := EscapedChar(value[0]), EscapeEach(value);
      UnescapeEach(value[1..]);
      assert s[|unit|..] == EscapeEach(value[1..]);
    }
  }

  /** `set radius[<attribute>] = "<escaped>"` */
  function AttributeLine(indent: string, attribute: string, value: string): string {
    indent + "set radius[" + attribute + "] = \"" + Escaped(value) + "\""
  }

  /** Reading an emitted line from behind its opening quote ends at its last character and gives the value back. */
  lemma AttributeLineReads(indent: string, attribute: string, value: string)
    ensures var line := AttributeLine(indent, attribute, value);
            var start := |indent + "set radius[" + attribute + "] = \""|;
            && line[..start] == indent + "set radius[" + attribute + "] = \""
            && Closing(line[start..], '"') == Some(|line| - 1 - start)
            && line[|line| - 1] == '"'
            && Unescape(line[start..|line| - 1]) == value
  {
    var line, start := AttributeLine(indent, attribute, value), |indent + "set radius[" + attribute + "] = \""|;
    TwoReplacesAreOne(value);
    QuoteCloses(value, "");
    UnescapeEach(value);
    assert line[start..] == EscapeEach(value) + "\"" + "";
    assert line[start..|line| - 1] == EscapeEach(value);
  }

  datatype Attribute = Attribute(name: string, value: string)

  /** `_preview`: every attribute has its line, in order, between a header and a footer. */
  method Preview(name: string, serviceType: Option<string>, permit: bool, attributes: seq<Attribute>)
    returns (lines: seq<string>)
    ensures var guarded := serviceType.Some? && serviceType.value != "";
            var start, indent := if guarded then 4 else 3, if guarded then "                " else "            ";
            && |lines| == start + |attributes| + (if guarded then 5 else 4)
            && (forall k :: 0 <= k < |attributes| ==>
                              lines[start + k] == AttributeLine(indent, attributes[k].name, attributes[k].value))
            && lines[start + |attributes|] == indent + (if permit then "permit" else "deny")
            && lines[..3] == ["profile rad_" + name + " {", "    script {", "        if (aaa.protocol == radius) {"]
            && (guarded ==> lines[3] == "            if (radius[Service-Type] == " + serviceType.value + ") {"
                            && lines[start + |attributes| + 1] == "            }")
            && lines[|lines| - 3..] == ["        }", "    }", "}"]
  {
    lines := ["profile rad_" + name + " {", "    script {", "        if (aaa.protocol == radius) {"];
    var indent := "            ";
    var guarded := serviceType.Some? && serviceType.value != "";
    if guarded {
      lines := lines + ["            if (radius[Service-Type] == " + serviceType.value + ") {"];
      indent := "                ";
    }
    var start, header := |lines|, lines;
    for i := 0 to |attributes|
      invariant |lines| == start + i && lines[..start] == header
      invariant forall k ::
                  0 <= k < i ==> lines[start + k] == AttributeLine(indent, attributes[k].name, attributes[k].value)
    {
      lines := lines + [AttributeLine(indent, attributes[i].name, attributes[i].value)];
    }
    lines := lines + [indent + if permit then "permit" else "deny"];
    if guarded {
      lines := lines + ["            }"];
    }
    lines := lines + ["        }", "    }", "}"];
  }

  /* ---------- Command patterns ---------- */

  predicate Forbidden(c: char) {
    c in {'/', '{', '}', '\n', '\r', '\0', '"'}
  }

  predicate Control(c: char) {
    c < ' ' || c == '\U{7f}'
  }

  /** `len(v) - len(v.rstrip("\\"))` */
  function TrailingBackslashes(v: string): nat {
    if v != "" && v[|v| - 1] == '\\' then 1 + TrailingBackslashes(v[..|v| - 1]) else 0
  }

  datatype PatternError =
    | WrongLength | Empty | ForbiddenCharacter | ControlCharacter | TrailingBackslash | NotARegex | NestedRepetition

  /** `validate_pattern`, after the length bounds of the field; whether the text compiles, and whether it nests
      repetitions, are the regex library's verdicts. */
  function Validated(v: string, compiles: string -> bool, nests: string -> bool): Result<string, PatternError> {
    if |v| < 1 || |v| > 256 then Err(WrongLength)
    else if Strip(v) == "" then Err(Empty)
    else if exists i :: 0 <= i < |v| && Forbidden(v[i]) then Err(ForbiddenCharacter)
    else if exists i :: 0 <= i < |v| && Control(v[i]) then Err(ControlCharacter)
    else if TrailingBackslashes(v) % 2 == 1 then Err(TrailingBackslash)
    else if !compiles(v) then Err(NotARegex)
    else if nests(v) then Err(NestedRepetition)
    else Ok(v)
  }

  /** The compiler's own check, `_command_pattern_is_safe`, on a stored pattern */
  predicate Safe(pattern: string) {
    && pattern != "" && Strip(pattern) != ""
    && (forall i :: 0 <= i < |pattern| ==> !Forbidden(pattern[i]) && !Control(pattern[i]))
    && TrailingBackslashes(pattern) % 2 == 0
  }

  /** Behind a text without the delimiter, the reader stops at the delimiter exactly when the run of backslashes
      before it is even; otherwise it has taken the delimiter for an escaped character. */
  lemma {:induction false} ClosesExactly(v: string, rest: string, delimiter: char)
    requires delimiter !in v && delimiter != '\\'
    ensures Closing(v + [delimiter] + rest, delimiter) == Some(|v|) <==> TrailingBackslashes(v) % 2 == 0
    ensures TrailingBackslashes(v) % 2 == 1 ==>
              Closing(v + [delimiter] + rest, delimiter) == match Closing(rest, delimiter)
                                                            case None => None
                                                            case Some(k) => Some(|v| + 1 + k)
    decreases |v|
  {
    var s := v + [delimiter] + rest;
    if v == "" {
    } else if v[0] != '\\' {
      ClosesExactly(v[1..], rest, delimiter);
      assert s[1..] == v[1..] + [delimiter] + rest;
      TrailingFront(v, 1);
    } else if |v| == 1 {
      assert TrailingBackslashes(v) == 1 by {
        assert v[..0] == "";
      }
      assert s[2..] == rest;
    } else {
      ClosesExactly(v[2..], rest, delimiter);
      assert s[2..] == v[2..] + [delimiter] + rest;
      TrailingFront(v, 2);
    }
  }

  /** Taking off a first unit keeps the parity of the trailing run. */
  lemma {:induction false} TrailingFront(v: string, unit: nat)
    requires 1 <= unit <= 2 && unit <= |v| && (unit == 1 ==> v[0] != '\\') && (unit == 2 ==> v[0] == '\\')
    ensures TrailingBackslashes(v) % 2 == TrailingBackslashes(v[unit..]) % 2
    decreases |v|
  {
    if |v| == unit {
      if unit == 2 && v[1] == '\\' {
        assert v[..1] == "\\" && v[..1][..0] == "";
        assert TrailingBackslashes(v[..1]) == 1;
      }
    } else if v[|v| - 1] == '\\' {
      TrailingFront(v[..|v| - 1], unit);
      assert v[..|v| - 1][unit..] == v[unit..][..|v| - unit - 1];
    }
  }

  const OPENING := "                if (cmd =~ /"

  /** The line a rule is emitted as. */
  function RuleLine(pattern: string, action: string): string {
    OPENING + pattern + "/) { " + action + " }"
  }

  lemma Sliced(before: string, v: string, after: string)
    ensures var line := before + v + "/" + after;
            && line[|before|..] == v + ['/'] + after && line[|before|..|before| + |v|] == v
            && line[..|before|] == before && line[|before| + |v|..] == "/" + after
  {
  }

  /** A safe pattern, emitted, ends at its own closing slash; before it stands what opens a rule, behind it the rule's
      own action. */
  lemma RuleReads(v: string, action: string)
    requires Safe(v)
    ensures var line := RuleLine(v, action); var start := |"                if (cmd =~ /"|;
            && line[..start] == "                if (cmd =~ /"
            && Closing(line[start..], '/') == Some(|v|) && line[start..start + |v|] == v
            && line[start + |v|..] == "/) { " + action + " }"
  {
    var after := ") { " + action + " }";
    assert '/' !in v;
    RuleParts(v, action);
    ClosesExactly(v, after, '/');
  }

  lemma RuleParts(v: string, action: string)
    ensures var line := RuleLine(v, action);
            && line[..|OPENING|] == OPENING && line[|OPENING|..|OPENING| + |v|] == v
            && line[|OPENING|..] == v + ['/'] + (") { " + action + " }")
            && line[|OPENING| + |v|..] == "/) { " + action + " }"
  {
    var after := ") { " + action + " }";
    assert RuleLine(v, action) == OPENING + v + "/" + after;
    Sliced(OPENING, v, after);
    assert "/" + after == "/) { " + action + " }";
  }

  /** An accepted pattern is stored as it is and ends, emitted, at its own closing slash. */
  lemma AcceptedPatternCloses(v: string, compiles: string -> bool, nests: string -> bool, action: string)
    requires Validated(v, compiles, nests).Ok?
    ensures Validated(v, compiles, nests).value == v && Safe(v)
    ensures var line := RuleLine(v, action); var start := |OPENING|;
            Closing(line[start..], '/') == Some(|v|) && line[start..start + |v|] == v
  {
    RuleReads(v, action);
  }

  /** Which patterns are safe to emit: not blank, nothing that ends the pattern, the rule or the line, no other control
      character, and no odd run of backslashes at the end. */
  lemma SafeExact(v: string)
    ensures Safe(v) <==>
            && Strip(v) != ""
            && (forall c :: c in v ==> c != '/' && c != '{' && c != '}' && c != '"' && 32 <= c as int != 127)
            && !exists n :: EndsInRun(v, n) && n % 2 == 1
  {
    TrailingExact(v);
    assert Strip("") == "" && EndsInRun(v, TrailingBackslashes(v));
    forall c: char
      ensures !Forbidden(c) && !Control(c) <==> c != '/' && c != '{' && c != '}' && c != '"' && 32 <= c as int != 127
    {
    }
    assert forall i :: 0 <= i < |v| ==> v[i] in v;
  }

  /** The text ends in exactly that many backslashes. */
  predicate EndsInRun(v: string, n: nat) {
    && n <= |v|
    && (forall i :: |v| - n <= i < |v| ==> v[i] == '\\')
    && (n < |v| ==> v[|v| - n - 1] != '\\')
  }

  lemma {:induction false} TrailingExact(v: string)
    ensures forall n :: EndsInRun(v, n) <==> n == TrailingBackslashes(v)
  {
    if v != "" && v[|v| - 1] == '\\' {
      var before := v[..|v| - 1];
      TrailingExact(before);
      forall n: nat | n > 0
        ensures EndsInRun(v, n) <==> EndsInRun(before, n - 1)
      {
      }
    }
  }

  datatype Rule = Rule(pattern: string, action: string)

  /** The profile of one policy: the shell itself is always permitted at the policy's privilege level, then come its
      rules, each on its own line in the order given, then the default action; any pattern that is not safe stops it. */
  method RenderProfile(name: string, privilege: nat, rules: seq<Rule>, defaultAction: string)
    returns (r: Result<seq<string>, string>)
    ensures r.Ok? <==> forall k :: 0 <= k < |rules| ==> Safe(rules[k].pattern)
    ensures r.Err? ==> exists k :: 0 <= k < |rules| && r.error == rules[k].pattern && !Safe(rules[k].pattern)
                                   && forall j :: 0 <= j < k ==> Safe(rules[j].pattern)
    ensures r.Ok? ==>
              && |r.value| == |rules| + 11
              && r.value[..7] == ["    profile " + name + " {",
                                  "        script {",
                                  "            if (service == shell) {",
                                  "                if (cmd == \"\") {",
                                  "                    set priv-lvl = " + Decimals.Print(privilege),
                                  "                    permit",
                                  "                }"]
              && (forall k :: 0 <= k < |rules| ==> r.value[7 + k] == RuleLine(rules[k].pattern, rules[k].action))
              && r.value[7 + |rules|..] == ["                " + defaultAction, "            }", "        }", "    }"]
  {
    var lines := ["    profile " + name + " {", "        script {", "            if (service == shell) {"];
    lines := lines + ["                if (cmd == \"\") {",
                      "                    set priv-lvl = " + Decimals.Print(privilege),
                      "                    permit", "                }"];
    ghost var header := lines;
    for i := 0 to |rules|
      invariant |lines| == 7 + i && lines[..7] == header
      invariant forall k :: 0 <= k < i ==> Safe(rules[k].pattern)
      invariant forall k :: 0 <= k < i ==> lines[7 + k] == RuleLine(rules[k].pattern, rules[k].action)
    {
      if !Safe(rules[i].pattern) {
        return Err(rules[i].pattern);
      }
      lines := lines + [OPENING + rules[i].pattern + "/) { " + rules[i].action + " }"];
    }
    lines := lines + ["                " + defaultAction, "            }", "        }", "    }"];
    return Ok(lines);
  }

  /** The two checks, written separately, differ only by the length bound and the regex library's verdicts. */
  lemma SchemaAndCompilerAgree(v: string, compiles: string -> bool, nests: string -> bool)
    ensures Validated(v, compiles, nests).Ok? <==> Safe(v) && |v| <= 256 && compiles(v) && !nests(v)
  {
  }

  /* ---------- SQL defaults ---------- */

  function Doubled(value: string): string {
    Replace(value, '\'', "''")
  }

  function Undoubled(s: string): string {
    if s == "" then ""
    else if s[0] == '\'' && |s| > 1 then ['\''] + Undoubled(s[2..])
    else [s[0]] + Undoubled(s[1..])
  }

  /** A default emitted as a literal ends at its closing quote, if no quote follows, and reads as the value. */
  lemma {:induction false} LiteralCloses(value: string, rest: string)
    requires rest == "" || rest[0] != '\''
    ensures ClosingDoubled(Doubled(value) + "'" + rest) == Some(|Doubled(value)|)
    ensures Undoubled(Doubled(value)) == value
  {
    var s := Doubled(value) + "'" + rest;
    if value != "" {
      LiteralCloses(value[1..], rest);
      var unit := if value[0] == '\'' then "''" else [value[0]];
      assert s == unit + (Doubled(value[1..]) + "'" + rest);
      assert s[|unit|..] == Doubled(value[1..]) + "'" + rest;
      assert Doubled(value)[|unit|..] == Doubled(value[1..]);
    }
  }
}
