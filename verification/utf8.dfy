/**
 * UTF-8 as the URL machinery uses it: the encoder behind `encodeURIComponent`
 * and the "UTF-8 decode without BOM" step of the application/x-www-form-urlencoded
 * parser, which replaces every malformed sequence by U+FFFD instead of failing
 * (the "UTF-8 decoder" of the UTF-8 section of the WHATWG Encoding Standard).
 */
module Utf8 {
  import opened Text

  /** U+FFFD REPLACEMENT CHARACTER */
  const Replacement: char := '\U{FFFD}'

  /** The UTF-8 bytes of one Unicode scalar value (section 3 of RFC 3629). */
  function EncodeChar(c: char): (bs: seq<byte>)
    ensures 1 <= |bs| <= 4
    ensures |bs| == 1 <==> c as int < 0x80
    ensures |bs| == 1 ==> bs[0] == c as int
    ensures forall j :: 1 <= j < |bs| ==> 0x80 <= bs[j] <= 0xBF
  {
    var n := c as int;
    if n < 0x80 then [n]
    else if n < 0x800 then [0xC0 + n / 64, 0x80 + n % 64]
    else if n < 0x1_0000 then [0xE0 + n / 64 / 64, 0x80 + n / 64 % 64, 0x80 + n % 64]
    else [0xF0 + n / 64 / 64 / 64, 0x80 + n / 64 / 64 % 64, 0x80 + n / 64 % 64, 0x80 + n % 64]
  }

  /** The UTF-8 encoding of a string: the characters' encodings, in order. */
  function Encode(s: string): (bs: seq<byte>)
    ensures |bs| >= |s|
  {
    if |s| == 0 then [] else EncodeChar(s[0]) + Encode(s[1..])
  }

  /** An ASCII string encodes one byte per character. */
  lemma {:induction false} EncodeAscii(s: string)
    requires IsAscii(s)
    ensures Encode(s) == Latin1Bytes(s)
  {
    if |s| > 0 {
      EncodeAscii(s[1..]);
      assert Latin1Bytes(s) == [s[0] as int] + Latin1Bytes(s[1..]);
    }
  }

  /**
   * How a lead byte opens a sequence: the number of continuation bytes it
   * needs and the range its FIRST continuation byte must fall in. A needed
   * count of 0 marks a byte that cannot start a sequence.
   */
  function LeadInfo(b: byte): (info: (nat, byte, byte))
    ensures info.0 <= 3
    ensures b < 0xC2 || b > 0xF4 ==> info.0 == 0
  {
    if 0xC2 <= b <= 0xDF then (1, 0x80, 0xBF)
    else if b == 0xE0 then (2, 0xA0, 0xBF)
    else if 0xE1 <= b <= 0xEC || 0xEE <= b <= 0xEF then (2, 0x80, 0xBF)
    else if b == 0xED then (2, 0x80, 0x9F)
    else if b == 0xF0 then (3, 0x90, 0xBF)
    else if 0xF1 <= b <= 0xF3 then (3, 0x80, 0xBF)
    else if b == 0xF4 then (3, 0x80, 0x8F)
    else (0, 0x80, 0xBF)
  }

  /**
   * The number of acceptable continuation bytes at the front of `bs`, at most
   * `needed`: the first must lie in [lower, upper], the others in [0x80, 0xBF].
   */
  function ContinuationRun(bs: seq<byte>, needed: nat, lower: byte, upper: byte): (k: nat)
    ensures k <= needed && k <= |bs|
    ensures k > 0 ==> lower <= bs[0] <= upper
    ensures forall j :: 1 <= j < k ==> 0x80 <= bs[j] <= 0xBF
    ensures k < needed && k < |bs| ==>
      if k == 0 then !(lower <= bs[0] <= upper) else !(0x80 <= bs[k] <= 0xBF)
  {
    if needed == 0 || |bs| == 0 || !(lower <= bs[0] <= upper) then 0
    else 1 + ContinuationRun(bs[1..], needed - 1, 0x80, 0xBF)
  }

  /** The scalar value a well-formed multi-byte sequence stands for. */
  function Assemble(lead: byte, cont: seq<byte>): (c: char)
    requires LeadInfo(lead).0 > 0 && |cont| == LeadInfo(lead).0
    requires LeadInfo(lead).1 <= cont[0] <= LeadInfo(lead).2
    requires forall j :: 1 <= j < |cont| ==> 0x80 <= cont[j] <= 0xBF
    ensures c as int >= 0x80
  {
    var b0: int := lead;
    var b1: int := cont[0];
    if |cont| == 1 then
      ((b0 - 0xC0) * 64 + (b1 - 0x80)) as char
    else
      var b2: int := cont[1];
      if |cont| == 2 then
        (((b0 - 0xE0) * 64 + (b1 - 0x80)) * 64 + (b2 - 0x80)) as char
      else
        var b3: int := cont[2];
        ((((b0 - 0xF0) * 64 + (b1 - 0x80)) * 64 + (b2 - 0x80)) * 64 + (b3 - 0x80)) as char
  }

  /**
   * UTF-8 decoding with replacement: a byte that cannot start a sequence, or
   * a sequence cut short by a bad continuation byte or by the end of input,
   * yields one U+FFFD, and decoding resumes at the offending byte.
   */
  function Decode(bs: seq<byte>): (s: string)
    ensures |s| <= |bs|
    decreases |bs|
  {
    if |bs| == 0 then ""
    else if bs[0] < 0x80 then [bs[0] as char] + Decode(bs[1..])
    else
      var info := LeadInfo(bs[0]);
      var k := ContinuationRun(bs[1..], info.0, info.1, info.2);
      if info.0 > 0 && k == info.0 then
        [Assemble(bs[0], bs[1..1 + k])] + Decode(bs[1 + k..])
      else
        [Replacement] + Decode(bs[1 + k..])
  }

  /** Decoding the encoding of one character gives that character back and leaves the rest alone. */
  lemma DecodeEncodedChar(c: char, rest: seq<byte>)
    ensures Decode(EncodeChar(c) + rest) == [c] + Decode(rest)
  {
    var e := EncodeChar(c);
    var bs := e + rest;
    if |e| == 1 {
      assert bs[1..] == rest;
    } else {
      var info := LeadInfo(bs[0]);
      assert info.0 == |e| - 1 && info.1 <= e[1] <= info.2 && Assemble(bs[0], e[1..]) == c by {
        LeadOfEncodedChar(c);
      }
      assert bs[1..] == e[1..] + rest;
      ContinuationRunOfValid(bs[1..], info.0, info.1, info.2);
      assert bs[1..1 + info.0] == e[1..];
      assert bs[1 + info.0..] == rest;
    }
  }

  /** The lead byte of a multi-byte encoding announces the right length and admits its own continuation. */
  lemma LeadOfEncodedChar(c: char)
    requires c as int >= 0x80
    ensures var e := EncodeChar(c); var info := LeadInfo(e[0]);
      && info.0 == |e| - 1
      && info.1 <= e[1] <= info.2
      && Assemble(e[0], e[1..]) == c
  {
    var n := c as int;
    if n < 0x800 {
      LeadOfTwoByteChar(c);
    } else if n < 0x1_0000 {
      LeadOfThreeByteChar(c);
    } else {
      LeadOfFourByteChar(c);
    }
  }

  lemma LeadOfTwoByteChar(c: char)
    requires 0x80 <= c as int < 0x800
    ensures var e := EncodeChar(c); var info := LeadInfo(e[0]);
      && info.0 == |e| - 1
      && info.1 <= e[1] <= info.2
      && Assemble(e[0], e[1..]) == c
  {
    var n := c as int;
    var a, d := n / 64, n % 64;
    assert n == a * 64 + d && 2 <= a < 32;
    assert EncodeChar(c) == [0xC0 + a, 0x80 + d];
  }

  lemma LeadOfThreeByteChar(c: char)
    requires 0x800 <= c as int < 0x1_0000
    ensures var e := EncodeChar(c); var info := LeadInfo(e[0]);
      && info.0 == |e| - 1
      && info.1 <= e[1] <= info.2
      && Assemble(e[0], e[1..]) == c
  {
    var n := c as int;
    assert n < 0xD800 || n >= 0xE000;
    var t, d := n / 64, n % 64;
    var a, b := t / 64, t % 64;
    assert n == t * 64 + d && t == a * 64 + b;
    assert a == 0 ==> b >= 32;
    assert a == 13 ==> b < 32;
    assert EncodeChar(c) == [0xE0 + a, 0x80 + b, 0x80 + d];
  }

  lemma LeadOfFourByteChar(c: char)
    requires 0x1_0000 <= c as int
    ensures var e := EncodeChar(c); var info := LeadInfo(e[0]);
      && info.0 == |e| - 1
      && info.1 <= e[1] <= info.2
      && Assemble(e[0], e[1..]) == c
  {
    var n := c as int;
    assert n < 0x11_0000;
    var t, d := n / 64, n % 64;
    var u, x := t / 64, t % 64;
    var a, b := u / 64, u % 64;
    assert n == t * 64 + d && t == u * 64 + x && u == a * 64 + b;
    assert a == 0 ==> b >= 16;
    assert a == 4 ==> b < 16;
    assert EncodeChar(c) == [0xF0 + a, 0x80 + b, 0x80 + x, 0x80 + d];
  }

  /** A run of in-range continuation bytes is counted in full. */
  lemma ContinuationRunOfValid(bs: seq<byte>, needed: nat, lower: byte, upper: byte)
    requires needed <= |bs|
    requires needed > 0 ==> lower <= bs[0] <= upper
    requires forall j :: 1 <= j < needed ==> 0x80 <= bs[j] <= 0xBF
    ensures ContinuationRun(bs, needed, lower, upper) == needed
    decreases needed
  {
    if needed > 0 {
      ContinuationRunOfValid(bs[1..], needed - 1, 0x80, 0xBF);
    }
  }

  /** UTF-8 decoding undoes UTF-8 encoding for every string. */
  lemma {:induction false} DecodeEncode(s: string)
    ensures Decode(Encode(s)) == s
  {
    if |s| > 0 {
      DecodeEncodedChar(s[0], Encode(s[1..]));
      DecodeEncode(s[1..]);
    }
  }

  /** Bytes below 0x80 decode one character per byte. */
  lemma {:induction false} DecodeAscii(bs: seq<byte>)
    requires forall i :: 0 <= i < |bs| ==> bs[i] < 0x80
    ensures Decode(bs) == Latin1String(bs)
  {
    if |bs| > 0 {
      DecodeAscii(bs[1..]);
      assert Latin1String(bs) == [bs[0] as char] + Latin1String(bs[1..]);
    }
  }

  /** Encoding distributes over concatenation. */
  lemma {:induction false} EncodeConcat(a: string, b: string)
    ensures Encode(a + b) == Encode(a) + Encode(b)
  {
    if |a| > 0 {
      assert (a + b)[0] == a[0] && (a + b)[1..] == a[1..] + b;
      EncodeConcat(a[1..], b);
      calc {
        Encode(a + b);
        EncodeChar(a[0]) + Encode(a[1..] + b);
        EncodeChar(a[0]) + (Encode(a[1..]) + Encode(b));
        (EncodeChar(a[0]) + Encode(a[1..])) + Encode(b);
        Encode(a) + Encode(b);
      }
    } else {
      assert a + b == b;
    }
  }
}
