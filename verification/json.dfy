/**
 * The fragment of JSON (RFC 8259) that a share payload uses: one object whose
 * member values are strings, integers, booleans or null. `Stringify` writes
 * text exactly as `JSON.stringify` does for such values; `Parse` reads it the
 * way `JSON.parse` does, and reports a syntax error for anything else,
 * including nested arrays and objects and non-integer numbers, which this
 * model does not represent.
 */
module Json {
  import opened Wrappers
  import opened Errors
  import opened Text

  datatype Value = Null | Bool(b: bool) | Number(n: int) | Str(s: string)

  datatype Member = Member(key: string, value: Value)

  /** A parsed document: a single scalar, or an object's members in text order (duplicates kept). */
  datatype Json = Scalar(scalar: Value) | Object(members: seq<Member>)

  // ---------------------------------------------------------------------
  // Serialisation: JSON.stringify

  /** One string character as `JSON.stringify` writes it inside quotes. */
  function EscapeChar(c: char): (t: string)
    ensures 1 <= |t| <= 6
    ensures t == [c] <==> c != '"' && c != '\\' && c as int >= 0x20
    ensures t != [c] ==> t[0] == '\\' && forall i :: 0 <= i < |t| ==> t[i] as int < 128
  {
    if c == '"' then "\\\""
    else if c == '\\' then "\\\\"
    else if c == '\U{8}' then "\\b"
    else if c == '\U{C}' then "\\f"
    else if c == '\n' then "\\n"
    else if c == '\r' then "\\r"
    else if c == '\t' then "\\t"
    else if c as int < 0x20 then ['\\', 'u', '0', '0', HexLower(c as int / 16), HexLower(c as int % 16)]
    else [c]
  }

  function Escape(s: string): string {
    if |s| == 0 then "" else EscapeChar(s[0]) + Escape(s[1..])
  }

  /** A string literal. */
  function Quote(s: string): string {
    "\"" + Escape(s) + "\""
  }

  function DigitChar(d: nat): (c: char)
    requires d < 10
    ensures IsDigit(c)
  {
    ('0' as int + d) as char
  }

  /** The decimal digits of a natural number, without leading zeros. */
  function NatText(n: nat): (t: string)
    ensures |t| >= 1
    ensures forall i :: 0 <= i < |t| ==> IsDigit(t[i])
    ensures t[0] == '0' ==> n == 0
    decreases n
  {
    if n < 10 then [DigitChar(n)] else NatText(n / 10) + [DigitChar(n % 10)]
  }

  /** An integer in the shortest decimal form `Number.prototype.toString` gives it. */
  function IntText(n: int): string {
    if n < 0 then "-" + NatText(-n) else NatText(n)
  }

  function ValueText(v: Value): string {
    match v
    case Null => "null"
    case Bool(b) => if b then "true" else "false"
    case Number(n) => IntText(n)
    case Str(s) => Quote(s)
  }

  function MemberText(m: Member): string {
    Quote(m.key) + ":" + ValueText(m.value)
  }

  /** Members separated by commas, with no whitespace. */
  function MembersText(ms: seq<Member>): string {
    if |ms| == 0 then ""
    else if |ms| == 1 then MemberText(ms[0])
    else MemberText(ms[0]) + "," + MembersText(ms[1..])
  }

  /**
   * `JSON.stringify`. Its text is a binary string (what `btoa` accepts)
   * exactly when every key and string in the document is one;
   * `ParseStringify` shows that `JSON.parse` reads it back.
   */
  function Stringify(j: Json): (text: string)
    ensures IsLatin1(text) <==> Latin1Json(j)
  {
    match j
    case Scalar(v) =>
      ValueTextLatin1(v);
      ValueText(v)
    case Object(ms) =>
      MembersTextLatin1(ms);
      Latin1Concat("{", MembersText(ms));
      Latin1Concat("{" + MembersText(ms), "}");
      "{" + MembersText(ms) + "}"
  }

  // ---------------------------------------------------------------------
  // Parsing: JSON.parse

  /** The insignificant whitespace of section 2 of RFC 8259. */
  predicate IsWhitespace(c: char) {
    c == ' ' || c == '\t' || c == '\n' || c == '\r'
  }

  function SkipWs(s: string): (t: string)
    ensures |t| <= |s|
    ensures |t| > 0 ==> !IsWhitespace(t[0])
    ensures |s| > 0 && !IsWhitespace(s[0]) ==> t == s
  {
    if |s| > 0 && IsWhitespace(s[0]) then SkipWs(s[1..]) else s
  }

  /** Four hexadecimal digits as one UTF-16 code unit. */
  function Hex4(s: string): (r: Option<nat>)
    requires |s| == 4
    ensures r.Some? ==> r.value < 0x1_0000
  {
    match (HexValue(s[0]), HexValue(s[1]), HexValue(s[2]), HexValue(s[3]))
    case (Some(a), Some(b), Some(c), Some(d)) => Some(((a * 16 + b) * 16 + c) * 16 + d)
    case _ => None
  }

  predicate IsHighSurrogate(u: nat) { 0xD800 <= u < 0xDC00 }
  predicate IsLowSurrogate(u: nat) { 0xDC00 <= u < 0xE000 }

  /**
   * The escape after a backslash. A `\u` escape naming a surrogate must be
   * the high half of a pair completed by a second `\u` escape; a lone
   * surrogate, which a JavaScript string could hold, is reported as an error
   * because a Dafny string cannot.
   */
  function ParseEscape(s: string): (r: Result<(char, string), string>)
    ensures r.Success? ==> |r.value.1| < |s|
  {
    if |s| == 0 then Failure("Bad escaped character")
    else if s[0] == '"' then Success(('"', s[1..]))
    else if s[0] == '\\' then Success(('\\', s[1..]))
    else if s[0] == '/' then Success(('/', s[1..]))
    else if s[0] == 'b' then Success(('\U{8}', s[1..]))
    else if s[0] == 'f' then Success(('\U{C}', s[1..]))
    else if s[0] == 'n' then Success(('\n', s[1..]))
    else if s[0] == 'r' then Success(('\r', s[1..]))
    else if s[0] == 't' then Success(('\t', s[1..]))
    else if s[0] == 'u' && |s| >= 5 && Hex4(s[1..5]).Some? then
      var u := Hex4(s[1..5]).value;
      if !IsHighSurrogate(u) && !IsLowSurrogate(u) then Success((u as char, s[5..]))
      else if IsHighSurrogate(u) && |s| >= 11 && s[5] == '\\' && s[6] == 'u'
        && Hex4(s[7..11]).Some? && IsLowSurrogate(Hex4(s[7..11]).value)
      then
        var lo := Hex4(s[7..11]).value;
        Success((((u - 0xD800) * 0x400 + (lo - 0xDC00) + 0x1_0000) as char, s[11..]))
      else Failure("Lone surrogate")
    else Failure("Bad escaped character")
  }

  /** The characters of a string literal after its opening quote, up to and past the closing one. */
  function ParseStringBody(s: string): (r: Result<(string, string), string>)
    ensures r.Success? ==> |r.value.1| < |s|
    decreases |s|
  {
    if |s| == 0 then Failure("Unterminated string in JSON")
    else if s[0] == '"' then Success(("", s[1..]))
    else if s[0] as int < 0x20 then Failure("Bad control character in string literal")
    else if s[0] == '\\' then
      var e :- ParseEscape(s[1..]);
      var body :- ParseStringBody(e.1);
      Success(([e.0] + body.0, body.1))
    else
      var body :- ParseStringBody(s[1..]);
      Success(([s[0]] + body.0, body.1))
  }

  /** The length of the run of digits at the front of `s`. */
  function DigitRun(s: string): (k: nat)
    ensures k <= |s|
    ensures forall i :: 0 <= i < k ==> IsDigit(s[i])
    ensures k < |s| ==> !IsDigit(s[k])
  {
    if |s| > 0 && IsDigit(s[0]) then 1 + DigitRun(s[1..]) else 0
  }

  function DigitValue(c: char): (d: nat)
    requires IsDigit(c)
    ensures d < 10 && DigitChar(d) == c
  {
    c as int - '0' as int
  }

  /** The number a run of decimal digits denotes. */
  function DigitsValue(ds: string): nat
    requires forall i :: 0 <= i < |ds| ==> IsDigit(ds[i])
    decreases |ds|
  {
    if |ds| == 0 then 0
    else DigitsValue(ds[..|ds| - 1]) * 10 + DigitValue(ds[|ds| - 1])
  }

  /**
   * An integer: an optional minus sign, then `0` or a digit run not starting
   * with `0`. A fraction or exponent is left unread, so the caller rejects it.
   */
  function ParseNumber(s: string): (r: Result<(int, string), string>)
    ensures r.Success? ==> |r.value.1| < |s|
  {
    var neg := |s| > 0 && s[0] == '-';
    var t := if neg then s[1..] else s;
    if |t| == 0 || !IsDigit(t[0]) then Failure("No number after minus sign in JSON")
    else
      var k := if t[0] == '0' then 1 else DigitRun(t);
      var magnitude: int := DigitsValue(t[..k]);
      Success((if neg then -magnitude else magnitude, t[k..]))
  }

  /** A scalar value at the front of `s`. */
  function ParseValue(s: string): (r: Result<(Value, string), string>)
    ensures r.Success? ==> |r.value.1| < |s|
  {
    if |s| == 0 then Failure("Unexpected end of JSON input")
    else if s[0] == '"' then
      var body :- ParseStringBody(s[1..]);
      Success((Str(body.0), body.1))
    else if s[0] == '-' || IsDigit(s[0]) then
      var num :- ParseNumber(s);
      Success((Number(num.0), num.1))
    else if |s| >= 4 && s[..4] == "true" then Success((Bool(true), s[4..]))
    else if |s| >= 5 && s[..5] == "false" then Success((Bool(false), s[5..]))
    else if |s| >= 4 && s[..4] == "null" then Success((Null, s[4..]))
    else if s[0] == '{' || s[0] == '[' then Failure("Nested value")
    else Failure("Unexpected token in JSON")
  }

  /** One member, `"key": value`, and the whitespace after it. */
  function ParseMember(s: string): (r: Result<(Member, string), string>)
    ensures r.Success? ==> |r.value.1| < |s|
  {
    if |s| == 0 || s[0] != '"' then Failure("Expected property name in JSON")
    else
      var key :- ParseStringBody(s[1..]);
      var afterKey := SkipWs(key.1);
      if |afterKey| == 0 || afterKey[0] != ':' then Failure("Expected ':' after property name in JSON")
      else
        var value :- ParseValue(SkipWs(afterKey[1..]));
        Success((Member(key.0, value.0), SkipWs(value.1)))
  }

  /** One or more members, then the closing brace. */
  function ParseMembers(s: string): (r: Result<(seq<Member>, string), string>)
    ensures r.Success? ==> |r.value.1| < |s|
    decreases |s|
  {
    var member :- ParseMember(s);
    var after := member.1;
    if |after| == 0 then Failure("Expected ',' or '}' after property value in JSON")
    else if after[0] == '}' then Success(([member.0], after[1..]))
    else if after[0] == ',' then
      var more :- ParseMembers(SkipWs(after[1..]));
      Success(([member.0] + more.0, more.1))
    else Failure("Expected ',' or '}' after property value in JSON")
  }

  /** An object's body after its opening brace. */
  function ParseObject(s: string): (r: Result<(seq<Member>, string), string>)
    ensures r.Success? ==> |r.value.1| < |s|
  {
    var t := SkipWs(s);
    if |t| > 0 && t[0] == '}' then Success(([], t[1..])) else ParseMembers(t)
  }

  /** `JSON.parse`, reporting a SyntaxError's message on failure. */
  function Parse(text: string): (r: Result<Json, string>)
  {
    var s := SkipWs(text);
    if |s| > 0 && s[0] == '{' then
      var obj :- ParseObject(s[1..]);
      if SkipWs(obj.1) == "" then Success(Object(obj.0))
      else Failure("Unexpected non-whitespace character after JSON")
    else if |s| > 0 && s[0] == '[' then Failure("Array")
    else
      var v :- ParseValue(s);
      if SkipWs(v.1) == "" then Success(Scalar(v.0))
      else Failure("Unexpected non-whitespace character after JSON")
  }

  // ---------------------------------------------------------------------
  // Reading a parsed value as JavaScript does

  /** `obj[key]` on the members of a parsed object: the LAST member with the key wins. */
  function Get(ms: seq<Member>, key: string): (r: Option<Value>)
    ensures r.None? <==> forall i :: 0 <= i < |ms| ==> ms[i].key != key
    ensures r.Some? ==>
      (exists i :: 0 <= i < |ms| && ms[i] == Member(key, r.value) && forall j :: i < j < |ms| ==> ms[j].key != key)
    decreases |ms|
  {
    if |ms| == 0 then None
    else if ms[|ms| - 1].key == key then Some(ms[|ms| - 1].value)
    else Get(ms[..|ms| - 1], key)
  }

  /** `data.key` on a parsed document: `null` throws, any other scalar has no such property. */
  function Property(j: Json, key: string): (r: Result<Option<Value>, Exception>)
    ensures r.Failure? <==> j == Scalar(Null)
    ensures j.Object? ==> r == Success(Get(j.members, key))
  {
    match j
    case Scalar(Null) => Failure(Exception("TypeError", "Cannot read properties of null"))
    case Scalar(_) => Success(None)
    case Object(ms) => Success(Get(ms, key))
  }

  /** JavaScript's ToBoolean on a property that may be absent (`undefined`). */
  predicate Truthy(v: Option<Value>) {
    match v
    case None => false
    case Some(Null) => false
    case Some(Bool(b)) => b
    case Some(Number(n)) => n != 0
    case Some(Str(s)) => s != ""
  }

  // ---------------------------------------------------------------------
  // JSON.parse reads back what JSON.stringify wrote

  /** Reading the digits of `n` gives `n`. */
  lemma {:induction false} DigitsValueOfNatText(n: nat)
    ensures DigitsValue(NatText(n)) == n
    decreases n
  {
    if n >= 10 {
      var t := NatText(n);
      assert t[..|t| - 1] == NatText(n / 10);
      DigitsValueOfNatText(n / 10);
    }
  }

  /** A digit run stops where the digits of a number end. */
  lemma {:induction false} DigitRunOfDigits(d: string, rest: string)
    requires forall i :: 0 <= i < |d| ==> IsDigit(d[i])
    requires rest == "" || !IsDigit(rest[0])
    ensures DigitRun(d + rest) == |d|
  {
    if |d| > 0 {
      assert (d + rest)[1..] == d[1..] + rest;
      DigitRunOfDigits(d[1..], rest);
    } else {
      assert d + rest == rest;
    }
  }

  /** An integer's text reads back as that integer, when no digit follows it. */
  lemma ParseIntText(n: int, rest: string)
    requires rest == "" || !IsDigit(rest[0])
    ensures ParseNumber(IntText(n) + rest) == Success((n, rest))
  {
    var m: nat := if n < 0 then -n else n;
    var d := NatText(m);
    DigitsValueOfNatText(m);
    if n < 0 {
      assert IntText(n) == "-" + d;
      Regroup3("-", d, rest);
      ParseDigitsAfterMinus(d, rest, m);
    } else {
      assert IntText(n) == d;
      ParseDigits(d, rest, m);
    }
  }

  lemma Regroup3(a: string, b: string, c: string)
    ensures a + b + c == a + (b + c)
  {
  }

  /** `ParseNumber` on digits without a sign. */
  lemma ParseDigits(d: string, rest: string, m: nat)
    requires |d| >= 1 && forall i :: 0 <= i < |d| ==> IsDigit(d[i])
    requires d[0] == '0' ==> |d| == 1
    requires rest == "" || !IsDigit(rest[0])
    requires DigitsValue(d) == m
    ensures var r := ParseNumber(d + rest);
      r.Success? && r.value.0 == m && r.value.1 == rest
  {
    NumberFront(d, rest);
  }

  /** `ParseNumber` on a minus sign and the digits of `m`. */
  lemma ParseDigitsAfterMinus(d: string, rest: string, m: nat)
    requires |d| >= 1 && forall i :: 0 <= i < |d| ==> IsDigit(d[i])
    requires d[0] == '0' ==> |d| == 1
    requires rest == "" || !IsDigit(rest[0])
    requires DigitsValue(d) == m
    ensures var r := ParseNumber("-" + (d + rest));
      r.Success? && r.value.0 == -(m as int) && r.value.1 == rest
  {
    var s := "-" + (d + rest);
    assert s[0] == '-' && s[1..] == d + rest;
    NumberFront(d, rest);
  }

  /** Where `ParseNumber` ends the digits of a number's text. */
  lemma NumberFront(d: string, rest: string)
    requires |d| >= 1 && forall i :: 0 <= i < |d| ==> IsDigit(d[i])
    requires d[0] == '0' ==> |d| == 1
    requires rest == "" || !IsDigit(rest[0])
    ensures var t := d + rest;
      && (if t[0] == '0' then 1 else DigitRun(t)) == |d|
      && t[..|d|] == d && t[|d|..] == rest
  {
    var t := d + rest;
    assert t[0] == d[0];
    if d[0] != '0' {
      DigitRunOfDigits(d, rest);
    }
  }

  /** The code unit `\u00XY` names, for a control character. */
  lemma Hex4OfControl(c: char)
    requires c as int < 0x20
    ensures Hex4(['0', '0', HexLower(c as int / 16), HexLower(c as int % 16)]) == Some(c as int)
  {
  }

  /** Every escape `JSON.stringify` writes is read back as its character. */
  lemma ParseEscapeOfEscapeChar(c: char, more: string)
    requires EscapeChar(c) != [c]
    ensures ParseEscape(EscapeChar(c)[1..] + more) == Success((c, more))
  {
    var e := EscapeChar(c)[1..] + more;
    if c as int < 0x20 && c != '\U{8}' && c != '\U{C}' && c != '\n' && c != '\r' && c != '\t' {
      Hex4OfControl(c);
      assert e[1..5] == ['0', '0', HexLower(c as int / 16), HexLower(c as int % 16)];
      assert e[5..] == more;
    } else {
      assert e[1..] == more;
    }
  }

  /** The body of a string literal reads back as the string. */
  lemma {:induction false} ParseEscaped(s: string, rest: string)
    ensures ParseStringBody(Escape(s) + "\"" + rest) == Success((s, rest))
  {
    if |s| == 0 {
      assert Escape(s) + "\"" + rest == "\"" + rest;
    } else {
      var c := s[0];
      var head := EscapeChar(c);
      var more := Escape(s[1..]) + "\"" + rest;
      assert Escape(s) + "\"" + rest == head + more;
      ParseEscaped(s[1..], rest);
      if head == [c] {
        assert (head + more)[1..] == more;
      } else {
        assert (head + more)[1..] == head[1..] + more;
        ParseEscapeOfEscapeChar(c, more);
      }
      assert [c] + s[1..] == s;
    }
  }

  /** A value's text reads back as the value, when no digit follows it. */
  lemma ParseValueText(v: Value, rest: string)
    requires rest == "" || !IsDigit(rest[0])
    ensures ParseValue(ValueText(v) + rest) == Success((v, rest))
  {
    match v
    case Null => ParseNullText(rest);
    case Bool(b) => ParseBoolText(b, rest);
    case Number(n) => ParseNumberText(n, rest);
    case Str(x) => ParseStrText(x, rest);
  }

  lemma ParseNullText(rest: string)
    ensures ParseValue("null" + rest) == Success((Null, rest))
  {
    var s := "null" + rest;
    assert s[0] == 'n' && s[..4] == "null" && s[4..] == rest;
  }

  lemma ParseBoolText(b: bool, rest: string)
    ensures ParseValue(ValueText(Bool(b)) + rest) == Success((Bool(b), rest))
  {
    var s := ValueText(Bool(b)) + rest;
    if b {
      assert s[0] == 't' && s[..4] == "true" && s[4..] == rest;
    } else {
      assert s[0] == 'f' && s[..4] != "true" && s[..5] == "false" && s[5..] == rest;
    }
  }

  lemma ParseNumberText(n: int, rest: string)
    requires rest == "" || !IsDigit(rest[0])
    ensures ParseValue(IntText(n) + rest) == Success((Number(n), rest))
  {
    var s := IntText(n) + rest;
    ParseIntText(n, rest);
    assert s[0] == '-' || IsDigit(s[0]);
    assert s[0] != '"';
  }

  lemma ParseStrText(x: string, rest: string)
    ensures ParseValue(Quote(x) + rest) == Success((Str(x), rest))
  {
    var s := Quote(x) + rest;
    assert s[0] == '"';
    assert s[1..] == Escape(x) + "\"" + rest;
    ParseEscaped(x, rest);
  }

  /** `ParseMember` in terms of its steps. */
  lemma ParseMemberSteps(s: string, key: string, afterKey: string, v: Value, after: string)
    requires |s| > 0 && s[0] == '"'
    requires ParseStringBody(s[1..]) == Success((key, afterKey))
    requires |afterKey| > 0 && afterKey[0] == ':' && SkipWs(afterKey) == afterKey
    requires ParseValue(SkipWs(afterKey[1..])) == Success((v, after))
    requires SkipWs(after) == after
    ensures ParseMember(s) == Success((Member(key, v), after))
  {
  }

  /** No value's text starts with whitespace. */
  lemma ValueTextStart(v: Value, after: string)
    ensures SkipWs(ValueText(v) + after) == ValueText(v) + after
  {
    var t := ValueText(v) + after;
    match v
    case Number(n) => assert t[0] == '-' || IsDigit(t[0]);
    case _ => assert t[0] in "tfn\"";
  }

  /** The key of a member's text reads back, leaving the colon and the value. */
  lemma ParseMemberKey(m: Member, after: string)
    ensures var s := MemberText(m) + after;
      ParseStringBody(s[1..]) == Success((m.key, ":" + ValueText(m.value) + after))
  {
    var afterKey := ":" + ValueText(m.value) + after;
    MemberTextAfterQuote(m, after);
    ParseEscaped(m.key, afterKey);
  }

  /** Past its opening quote, a member's text is the escaped key, the closing quote and the rest. */
  lemma MemberTextAfterQuote(m: Member, after: string)
    ensures (MemberText(m) + after)[1..] == Escape(m.key) + "\"" + (":" + ValueText(m.value) + after)
  {
    var e := Escape(m.key);
    var afterKey := ":" + ValueText(m.value) + after;
    assert MemberText(m) + after == "\"" + (e + "\"" + afterKey);
  }

  /** One member's text reads back as its key and value. */
  lemma ParseMemberText(m: Member, after: string)
    requires |after| > 0 && (after[0] == ',' || after[0] == '}')
    ensures ParseMember(MemberText(m) + after) == Success((m, after))
  {
    var s := MemberText(m) + after;
    var vt := ValueText(m.value) + after;
    var afterKey := ":" + vt;
    ParseMemberKey(m, after);
    assert ":" + ValueText(m.value) + after == afterKey;
    assert afterKey[1..] == vt;
    ValueTextStart(m.value, after);
    ParseValueText(m.value, after);
    ParseMemberSteps(s, m.key, afterKey, m.value, after);
  }

  /** The last member of an object, then its closing brace. */
  lemma ParseLastMember(m: Member, rest: string)
    ensures ParseMembers(MemberText(m) + "}" + rest) == Success(([m], rest))
  {
    ParseMemberText(m, "}" + rest);
    assert ("}" + rest)[1..] == rest;
    assert MemberText(m) + "}" + rest == MemberText(m) + ("}" + rest);
  }

  /** A member, a comma, and further members. */
  lemma ParseMemberThenMore(m: Member, tail: string, ms: seq<Member>, rest: string)
    requires |tail| > 0 && tail[0] == '"'
    requires ParseMembers(tail) == Success((ms, rest))
    ensures ParseMembers(MemberText(m) + "," + tail) == Success(([m] + ms, rest))
  {
    var after := "," + tail;
    assert MemberText(m) + "," + tail == MemberText(m) + after;
    ParseMemberText(m, after);
    CommaThenMembers(tail, ms, rest);
    ParseMembersStep(MemberText(m) + after, m, after, ms, rest);
  }

  /** The members after a comma are read from just past it. */
  lemma CommaThenMembers(tail: string, ms: seq<Member>, rest: string)
    requires |tail| > 0 && tail[0] == '"'
    requires ParseMembers(tail) == Success((ms, rest))
    ensures ParseMembers(SkipWs(("," + tail)[1..])) == Success((ms, rest))
  {
    assert ("," + tail)[1..] == tail;
  }

  /** `ParseMembers` past a member and its comma. */
  lemma ParseMembersStep(s: string, m: Member, after: string, ms: seq<Member>, rest: string)
    requires ParseMember(s) == Success((m, after))
    requires |after| > 0 && after[0] == ','
    requires ParseMembers(SkipWs(after[1..])) == Success((ms, rest))
    ensures ParseMembers(s) == Success(([m] + ms, rest))
  {
  }

  /** The members of an object, followed by its closing brace, read back as those members. */
  lemma {:induction false} ParseMembersText(ms: seq<Member>, rest: string)
    requires |ms| > 0
    ensures ParseMembers(MembersText(ms) + "}" + rest) == Success((ms, rest))
    decreases |ms|
  {
    if |ms| == 1 {
      ParseLastMember(ms[0], rest);
      assert ms == [ms[0]];
    } else {
      var tail := MembersText(ms[1..]) + "}" + rest;
      ParseMembersText(ms[1..], rest);
      MembersTextStart(ms[1..]);
      assert tail[0] == '"';
      ParseMemberThenMore(ms[0], tail, ms[1..], rest);
      MembersTextCons(ms, rest);
      assert ms == [ms[0]] + ms[1..];
    }
  }

  /** The text of a non-empty member list starts with a key's opening quote. */
  lemma MembersTextStart(ms: seq<Member>)
    requires |ms| > 0
    ensures |MembersText(ms)| > 0 && MembersText(ms)[0] == '"'
  {
    assert MembersText(ms)[0] == MemberText(ms[0])[0];
  }

  lemma MembersTextCons(ms: seq<Member>, rest: string)
    requires |ms| > 1
    ensures MembersText(ms) + "}" + rest == MemberText(ms[0]) + "," + (MembersText(ms[1..]) + "}" + rest)
  {
    var a, b := MemberText(ms[0]) + ",", MembersText(ms[1..]);
    assert MembersText(ms) == a + b;
    Regroup(a, b, "}", rest);
  }

  lemma Regroup(a: string, b: string, c: string, d: string)
    ensures a + b + c + d == a + (b + c + d)
  {
  }

  /** `JSON.parse(JSON.stringify(j))` gives `j` back, for every document the model represents. */
  lemma ParseStringify(j: Json)
    ensures Parse(Stringify(j)) == Success(j)
  {
    match j
    case Scalar(v) => ParseScalarText(v);
    case Object(ms) => ParseObjectText(ms);
  }

  lemma ParseScalarText(v: Value)
    ensures Parse(ValueText(v)) == Success(Scalar(v))
  {
    var text := ValueText(v);
    ParseValueText(v, "");
    assert text + "" == text;
    assert text[0] != '{' && text[0] != '[';
    assert SkipWs(text) == text;
  }

  lemma ParseObjectText(ms: seq<Member>)
    ensures Parse("{" + MembersText(ms) + "}") == Success(Object(ms))
  {
    var text := "{" + MembersText(ms) + "}";
    var body := MembersText(ms) + "}";
    assert text == "{" + body && text[1..] == body;
    ParseObjectOfMembers(ms);
    ParseObjectSteps(text, ms);
  }

  /** `Parse` on an opening brace followed by an object body that ends the text. */
  lemma ParseObjectSteps(text: string, ms: seq<Member>)
    requires |text| > 0 && text[0] == '{'
    requires ParseObject(text[1..]) == Success((ms, ""))
    ensures Parse(text) == Success(Object(ms))
  {
    assert SkipWs(text) == text;
  }

  /** An object body written by `JSON.stringify` reads back as its members. */
  lemma ParseObjectOfMembers(ms: seq<Member>)
    ensures ParseObject(MembersText(ms) + "}") == Success((ms, ""))
  {
    var body := MembersText(ms) + "}";
    if |ms| == 0 {
      assert body == "}";
    } else {
      MembersTextStart(ms);
      assert body[0] == '"';
      assert SkipWs(body) == body;
      ParseMembersText(ms, "");
      assert MembersText(ms) + "}" + "" == body;
    }
  }

  // ---------------------------------------------------------------------
  // Which documents `btoa` can take after JSON.stringify

  predicate Latin1Value(v: Value) {
    v.Str? ==> IsLatin1(v.s)
  }

  predicate Latin1Member(m: Member) {
    IsLatin1(m.key) && Latin1Value(m.value)
  }

  /** Every key and every string value is a binary string. */
  predicate Latin1Json(j: Json) {
    match j
    case Scalar(v) => Latin1Value(v)
    case Object(ms) => forall i :: 0 <= i < |ms| ==> Latin1Member(ms[i])
  }

  lemma Latin1Concat(a: string, b: string)
    ensures IsLatin1(a + b) <==> IsLatin1(a) && IsLatin1(b)
  {
    if IsLatin1(a) && IsLatin1(b) {
      forall i | 0 <= i < |a + b| ensures (a + b)[i] as int < 256 {
        if i >= |a| { assert (a + b)[i] == b[i - |a|]; }
      }
    }
    if IsLatin1(a + b) {
      forall i | 0 <= i < |b| ensures b[i] as int < 256 {
        assert (a + b)[|a| + i] == b[i];
      }
      forall i | 0 <= i < |a| ensures a[i] as int < 256 {
        assert (a + b)[i] == a[i];
      }
    }
  }

  /** Escaping keeps a character exactly when it could not be Latin-1-breaking: the escapes are ASCII. */
  lemma {:induction false} EscapeLatin1(s: string)
    ensures IsLatin1(Escape(s)) <==> IsLatin1(s)
  {
    if |s| > 0 {
      EscapeLatin1(s[1..]);
      Latin1Concat(EscapeChar(s[0]), Escape(s[1..]));
      Latin1Concat([s[0]], s[1..]);
      assert s == [s[0]] + s[1..];
      var e := EscapeChar(s[0]);
      if e != [s[0]] {
        assert IsLatin1(e);
        assert s[0] as int < 256;
      }
    }
  }

  lemma QuoteLatin1(s: string)
    ensures IsLatin1(Quote(s)) <==> IsLatin1(s)
  {
    EscapeLatin1(s);
    Latin1Concat("\"", Escape(s));
    Latin1Concat("\"" + Escape(s), "\"");
  }

  lemma NatTextAscii(n: nat)
    ensures IsLatin1(NatText(n))
  {
  }

  lemma ValueTextLatin1(v: Value)
    ensures IsLatin1(ValueText(v)) <==> Latin1Value(v)
  {
    match v
    case Str(x) => QuoteLatin1(x);
    case Number(n) =>
      var m: nat := if n < 0 then -n else n;
      NatTextAscii(m);
      Latin1Concat("-", NatText(m));
    case _ =>
  }

  lemma MemberTextLatin1(m: Member)
    ensures IsLatin1(MemberText(m)) <==> Latin1Member(m)
  {
    QuoteLatin1(m.key);
    ValueTextLatin1(m.value);
    Latin1Concat(Quote(m.key), ":");
    Latin1Concat(Quote(m.key) + ":", ValueText(m.value));
  }

  lemma {:induction false} MembersTextLatin1(ms: seq<Member>)
    ensures IsLatin1(MembersText(ms)) <==> forall i :: 0 <= i < |ms| ==> Latin1Member(ms[i])
    decreases |ms|
  {
    if |ms| == 1 {
      MemberTextLatin1(ms[0]);
    } else if |ms| > 1 {
      MemberTextLatin1(ms[0]);
      MembersTextLatin1(ms[1..]);
      Latin1Concat(MemberText(ms[0]), ",");
      Latin1Concat(MemberText(ms[0]) + ",", MembersText(ms[1..]));
      assert (forall i :: 0 <= i < |ms| ==> Latin1Member(ms[i]))
        <==> Latin1Member(ms[0]) && forall i :: 0 <= i < |ms[1..]| ==> Latin1Member(ms[1..][i]) by {
        if forall i :: 0 <= i < |ms[1..]| ==> Latin1Member(ms[1..][i]) {
          forall i | 1 <= i < |ms| ensures Latin1Member(ms[i]) {
            assert ms[i] == ms[1..][i - 1];
          }
        }
      }
    }
  }
}
