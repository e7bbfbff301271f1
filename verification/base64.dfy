/**
 * Base64 as `btoa` and `atob` apply it to "binary strings" (strings whose
 * code points are all at most U+00FF). Encoding is the base 64 alphabet and
 * padding of section 4 of RFC 4648; decoding is the "forgiving-base64 decode"
 * of the WHATWG Infra Standard, which the HTML Standard's `atob` calls: ASCII
 * whitespace is dropped, one or two trailing
 * `=` may be omitted, and the bits left over in a final partial quantum are
 * discarded.
 */
module Base64 {
  import opened Wrappers
  import opened Errors
  import opened Text

  /** A six-bit group: the value of one base 64 character. */
  type sextet = v: int | 0 <= v < 64

  /**
   * The DOMException both `btoa` and `atob` throw. Only its name is fixed by
   * the HTML Standard; the message stands in for whatever the runtime reports.
   */
  const InvalidCharacter: Exception := Exception("InvalidCharacterError", "Invalid character")

  /** The character table of section 4 of RFC 4648. */
  function CharOf(v: sextet): (c: char)
    ensures IsAsciiLetter(c) || IsDigit(c) || c == '+' || c == '/'
    ensures ValueOf(c) == Some(v)
  {
    if v < 26 then ('A' as int + v) as char
    else if v < 52 then ('a' as int + v - 26) as char
    else if v < 62 then ('0' as int + v - 52) as char
    else if v == 62 then '+'
    else '/'
  }

  /** The inverse of the table; `None` for a character outside the alphabet. */
  function ValueOf(c: char): (r: Option<sextet>)
    ensures r.Some? <==> IsAsciiLetter(c) || IsDigit(c) || c == '+' || c == '/'
  {
    if 'A' <= c <= 'Z' then Some(c as int - 'A' as int)
    else if 'a' <= c <= 'z' then Some(c as int - 'a' as int + 26)
    else if '0' <= c <= '9' then Some(c as int - '0' as int + 52)
    else if c == '+' then Some(62)
    else if c == '/' then Some(63)
    else None
  }

  predicate InAlphabet(c: char) {
    ValueOf(c).Some?
  }

  /** The value of an alphabet character. */
  function Val(c: char): sextet
    requires InAlphabet(c)
  {
    ValueOf(c).value
  }

  /** Three bytes as four characters. */
  function Quantum(a: byte, b: byte, c: byte): string {
    [CharOf(a / 4), CharOf((a % 4) * 16 + b / 16), CharOf((b % 16) * 4 + c / 64), CharOf(c % 64)]
  }

  /** Base 64 encoding with `=` padding of the final one- or two-byte quantum. */
  function Encode(bs: seq<byte>): (s: string)
    ensures |s| == 4 * ((|bs| + 2) / 3)
    ensures forall i :: 0 <= i < |s| ==> InAlphabet(s[i]) || (s[i] == '=' && i >= |s| - 2)
    decreases |bs|
  {
    if |bs| == 0 then ""
    else if |bs| == 1 then [CharOf(bs[0] / 4), CharOf((bs[0] % 4) * 16), '=', '=']
    else if |bs| == 2 then
      [CharOf(bs[0] / 4), CharOf((bs[0] % 4) * 16 + bs[1] / 16), CharOf((bs[1] % 16) * 4), '=']
    else Quantum(bs[0], bs[1], bs[2]) + Encode(bs[3..])
  }

  /** The encoding with the padding left off. */
  function EncodeUnpadded(bs: seq<byte>): (s: string)
    ensures |s| == (4 * |bs| + 2) / 3
    ensures |s| % 4 != 1
    ensures forall i :: 0 <= i < |s| ==> InAlphabet(s[i])
    decreases |bs|
  {
    if |bs| == 0 then ""
    else if |bs| == 1 then [CharOf(bs[0] / 4), CharOf((bs[0] % 4) * 16)]
    else if |bs| == 2 then
      [CharOf(bs[0] / 4), CharOf((bs[0] % 4) * 16 + bs[1] / 16), CharOf((bs[1] % 16) * 4)]
    else Quantum(bs[0], bs[1], bs[2]) + EncodeUnpadded(bs[3..])
  }

  /** The padding a final partial quantum of an `n`-byte input receives. */
  function Padding(n: nat): string {
    if n % 3 == 1 then "==" else if n % 3 == 2 then "=" else ""
  }

  lemma PaddingPeriodic(n: nat)
    ensures Padding(n + 3) == Padding(n)
  {
    assert (n + 3) % 3 == n % 3;
  }

  /** The encoding is the unpadded characters followed by the padding. */
  lemma {:induction false} EncodeSplitsAtPadding(bs: seq<byte>)
    ensures Encode(bs) == EncodeUnpadded(bs) + Padding(|bs|)
    decreases |bs|
  {
    if |bs| >= 3 {
      EncodeSplitsAtPadding(bs[3..]);
      var q := Quantum(bs[0], bs[1], bs[2]);
      var u := EncodeUnpadded(bs[3..]);
      PaddingPeriodic(|bs[3..]|);
      assert EncodeUnpadded(bs) == q + u;
      assert Encode(bs) == q + Encode(bs[3..]);
    }
  }

  predicate IsAsciiWhitespace(c: char) {
    c == '\t' || c == '\n' || c == '\U{C}' || c == '\r' || c == ' '
  }

  /** Step 1 of forgiving-base64 decode: drop every ASCII whitespace character. */
  function StripWhitespace(s: string): (t: string)
    ensures |t| <= |s|
    ensures forall i :: 0 <= i < |t| ==> !IsAsciiWhitespace(t[i])
    ensures (forall i :: 0 <= i < |s| ==> !IsAsciiWhitespace(s[i])) ==> t == s
    ensures forall i :: 0 <= i < |t| ==> t[i] in s
    ensures forall i :: 0 <= i < |s| && !IsAsciiWhitespace(s[i]) ==> s[i] in t
  {
    if |s| == 0 then ""
    else if IsAsciiWhitespace(s[0]) then StripWhitespace(s[1..])
    else [s[0]] + StripWhitespace(s[1..])
  }

  /**
   * Whitespace removal works character by character: it distributes over
   * concatenation, so with the one-character cases above it keeps every
   * other character, in order and as often as it occurs.
   */
  lemma {:induction false} StripWhitespaceConcat(a: string, b: string)
    ensures StripWhitespace(a + b) == StripWhitespace(a) + StripWhitespace(b)
    decreases |a|
  {
    if |a| > 0 {
      assert (a + b)[0] == a[0] && (a + b)[1..] == a[1..] + b;
      StripWhitespaceConcat(a[1..], b);
    } else {
      assert a + b == b;
    }
  }

  /** Step 2: a length divisible by four loses one or two trailing `=`. */
  function StripPadding(t: string): (u: string)
    ensures u <= t
    ensures u == t || |t| % 4 == 0
    ensures forall i :: |u| <= i < |t| ==> t[i] == '='
    ensures forall i :: 0 <= i < |t| && t[i] != '=' ==> t[i] in u
  {
    if |t| % 4 == 0 && |t| >= 2 && t[|t| - 2] == '=' && t[|t| - 1] == '=' then t[..|t| - 2]
    else if |t| % 4 == 0 && |t| >= 1 && t[|t| - 1] == '=' then t[..|t| - 1]
    else t
  }

  /** Step 5: sextets back to bytes; a trailing pair or triple yields one or two bytes. */
  function DecodeSextets(s: string): (bs: seq<byte>)
    requires |s| % 4 != 1
    requires forall i :: 0 <= i < |s| ==> InAlphabet(s[i])
    ensures |bs| <= |s|
    decreases |s|
  {
    if |s| == 0 then []
    else
      var v0, v1 := Val(s[0]), Val(s[1]);
      if |s| == 2 then [v0 * 4 + v1 / 16]
      else
        var v2 := Val(s[2]);
        if |s| == 3 then [v0 * 4 + v1 / 16, (v1 % 16) * 16 + v2 / 4]
        else
          var v3 := Val(s[3]);
          [v0 * 4 + v1 / 16, (v1 % 16) * 16 + v2 / 4, (v2 % 4) * 64 + v3] + DecodeSextets(s[4..])
  }

  /** `btoa`: fails on a code point above U+00FF, else encodes the string's bytes. */
  function Btoa(s: string): (r: Result<string, Exception>)
    ensures r.Success? <==> IsLatin1(s)
    ensures r.Failure? ==> r.error == InvalidCharacter
    ensures r.Success? ==> |r.value| == 4 * ((|s| + 2) / 3)
    ensures r.Success? ==> forall i :: 0 <= i < |r.value| ==> InAlphabet(r.value[i]) || r.value[i] == '='
  {
    if IsLatin1(s) then Success(Encode(Latin1Bytes(s))) else Failure(InvalidCharacter)
  }

  /** `atob`: forgiving-base64 decode, the bytes returned as a binary string. */
  function Atob(s: string): (r: Result<string, Exception>)
    ensures r.Success? ==> IsLatin1(r.value)
    ensures r.Failure? ==> r.error == InvalidCharacter
    ensures (exists i :: 0 <= i < |s| && !InAlphabet(s[i]) && !IsAsciiWhitespace(s[i]) && s[i] != '=')
      ==> r.Failure?
  {
    var t := StripPadding(StripWhitespace(s));
    if |t| % 4 == 1 then Failure(InvalidCharacter)
    else if forall i :: 0 <= i < |t| ==> InAlphabet(t[i]) then Success(Latin1String(DecodeSextets(t)))
    else Failure(InvalidCharacter)
  }

  /** Decoding one full quantum recovers its three bytes. */
  lemma DecodeQuantum(a: byte, b: byte, c: byte, rest: string)
    requires |rest| % 4 != 1
    requires forall i :: 0 <= i < |rest| ==> InAlphabet(rest[i])
    ensures var s := Quantum(a, b, c) + rest;
      && |s| % 4 != 1
      && (forall i :: 0 <= i < |s| ==> InAlphabet(s[i]))
      && DecodeSextets(s) == [a, b, c] + DecodeSextets(rest)
  {
    var s := Quantum(a, b, c) + rest;
    var v0, v1, v2, v3 := a / 4, (a % 4) * 16 + b / 16, (b % 16) * 4 + c / 64, c % 64;
    assert Val(s[0]) == v0 && Val(s[1]) == v1 && Val(s[2]) == v2 && Val(s[3]) == v3;
    SextetArithmetic(a, b, c);
    assert s[4..] == rest;
    forall i | 4 <= i < |s| ensures InAlphabet(s[i]) {
      assert s[i] == rest[i - 4];
    }
  }

  /** The four sextets of a quantum put back together give its three bytes. */
  lemma SextetArithmetic(a: byte, b: byte, c: byte)
    ensures var v0, v1, v2, v3 := a / 4, (a % 4) * 16 + b / 16, (b % 16) * 4 + c / 64, c % 64;
      && v0 * 4 + v1 / 16 == a
      && (v1 % 16) * 16 + v2 / 4 == b
      && (v2 % 4) * 64 + v3 == c
  {
    var v1 := (a % 4) * 16 + b / 16;
    var v2 := (b % 16) * 4 + c / 64;
    assert v1 / 16 == a % 4 && v1 % 16 == b / 16;
    assert v2 / 4 == b % 16 && v2 % 4 == c / 64;
  }

  /** Forgiving decoding of the unpadded encoding gives the bytes back. */
  lemma {:induction false} DecodeUnpadded(bs: seq<byte>)
    ensures DecodeSextets(EncodeUnpadded(bs)) == bs
    decreases |bs|
  {
    if |bs| >= 3 {
      DecodeUnpadded(bs[3..]);
      DecodeQuantum(bs[0], bs[1], bs[2], EncodeUnpadded(bs[3..]));
      assert EncodeUnpadded(bs) == Quantum(bs[0], bs[1], bs[2]) + EncodeUnpadded(bs[3..]);
      assert bs == [bs[0], bs[1], bs[2]] + bs[3..];
    } else {
      DecodeFinalQuantum(bs);
    }
  }

  /** A final quantum of fewer than three bytes comes back from its characters. */
  lemma DecodeFinalQuantum(bs: seq<byte>)
    requires |bs| < 3
    ensures DecodeSextets(EncodeUnpadded(bs)) == bs
  {
    if |bs| == 2 {
      assert bs == [bs[0], bs[1]];
      DecodeFinalPair(bs[0], bs[1]);
    } else if |bs| == 1 {
      assert bs == [bs[0]];
      DecodeFinalSingle(bs[0]);
    }
  }

  /** A final two-byte quantum comes back from its three characters. */
  lemma DecodeFinalPair(a: byte, b: byte)
    ensures DecodeSextets(EncodeUnpadded([a, b])) == [a, b]
  {
    var v1 := (a % 4) * 16 + b / 16;
    assert v1 / 16 == a % 4 && v1 % 16 == b / 16;
    assert ((b % 16) * 4) / 4 == b % 16;
  }

  /** A final one-byte quantum comes back from its two characters. */
  lemma DecodeFinalSingle(a: byte)
    ensures DecodeSextets(EncodeUnpadded([a])) == [a]
  {
    assert ((a % 4) * 16) / 16 == a % 4;
  }

  /** `atob` undoes `btoa` on every binary string. */
  lemma AtobBtoa(s: string)
    requires IsLatin1(s)
    ensures Atob(Btoa(s).value) == Success(s)
  {
    var bs := Latin1Bytes(s);
    var e := Encode(bs);
    assert Btoa(s).value == e;
    assert StripWhitespace(e) == e;
    StripPaddingOfEncoding(bs);
    var u := EncodeUnpadded(bs);
    assert StripPadding(StripWhitespace(e)) == u;
    assert |u| % 4 != 1 && forall i :: 0 <= i < |u| ==> InAlphabet(u[i]);
    DecodeUnpadded(bs);
    assert DecodeSextets(u) == bs;
  }

  /** Step 2 of forgiving decode removes exactly the padding the encoder added. */
  lemma StripPaddingOfEncoding(bs: seq<byte>)
    ensures StripPadding(Encode(bs)) == EncodeUnpadded(bs)
  {
    EncodeSplitsAtPadding(bs);
    EncodingLength(|bs|);
    StripPaddingAfterAlphabet(EncodeUnpadded(bs), Padding(|bs|));
  }

  /** Arithmetic of the encoded length: a multiple of four, and non-zero for a partial quantum. */
  lemma EncodingLength(n: nat)
    ensures (4 * ((n + 2) / 3)) % 4 == 0
    ensures n % 3 != 0 ==> (4 * n + 2) / 3 > 0
  {
    var k := (n + 2) / 3;
    assert 4 * k == k + k + k + k;
  }

  /** Alphabet characters followed by at most two `=`, four to a quantum, lose exactly the `=`. */
  lemma StripPaddingAfterAlphabet(u: string, p: string)
    requires forall i :: 0 <= i < |u| ==> InAlphabet(u[i])
    requires p == "" || p == "=" || p == "=="
    requires p != "" ==> |u| > 0
    requires p != "" ==> |u + p| % 4 == 0
    ensures StripPadding(u + p) == u
  {
    var e := u + p;
    if p == "" {
      assert e == u;
      if |u| > 0 {
        assert InAlphabet(u[|u| - 1]);
      }
    } else if p == "=" {
      assert InAlphabet(u[|u| - 1]);
      assert e[|e| - 2] == u[|u| - 1];
      assert e[..|e| - 1] == u;
    } else {
      assert e[..|e| - 2] == u;
    }
  }
}
