/** Characters, bytes and the small character classes the codecs share. */
module Text {
  import opened Wrappers

  /** An octet. */
  type byte = b: int | 0 <= b < 256

  /** A "binary string" in the sense of `btoa`/`atob`: every code point is at most U+00FF. */
  predicate IsLatin1(s: string) {
    forall i :: 0 <= i < |s| ==> s[i] as int < 256
  }

  /** Every code point is below U+0080. */
  predicate IsAscii(s: string) {
    forall i :: 0 <= i < |s| ==> s[i] as int < 128
  }

  /** The bytes of a binary string, one per character. */
  function Latin1Bytes(s: string): (bs: seq<byte>)
    requires IsLatin1(s)
    ensures |bs| == |s|
    ensures Latin1String(bs) == s
  {
    seq(|s|, i requires 0 <= i < |s| => s[i] as int as byte)
  }

  /** The binary string whose characters are the given bytes. */
  function Latin1String(bs: seq<byte>): (s: string)
    ensures |s| == |bs|
    ensures IsLatin1(s)
  {
    seq(|bs|, i requires 0 <= i < |bs| => bs[i] as char)
  }


  predicate IsDigit(c: char) {
    '0' <= c <= '9'
  }

  predicate IsAsciiLetter(c: char) {
    ('A' <= c <= 'Z') || ('a' <= c <= 'z')
  }

  /** The value of a hexadecimal digit of either case. */
  function HexValue(c: char): (r: Option<nat>)
    ensures r.Some? ==> r.value < 16
    ensures r.Some? <==> IsDigit(c) || ('a' <= c <= 'f') || ('A' <= c <= 'F')
  {
    if IsDigit(c) then Some(c as int - '0' as int)
    else if 'a' <= c <= 'f' then Some(c as int - 'a' as int + 10)
    else if 'A' <= c <= 'F' then Some(c as int - 'A' as int + 10)
    else None
  }

  /** The upper-case hexadecimal digit of a nibble (as `encodeURIComponent` writes it). */
  function HexUpper(n: nat): (c: char)
    requires n < 16
    ensures HexValue(c) == Some(n)
    ensures IsDigit(c) || ('A' <= c <= 'F')
  {
    if n < 10 then ('0' as int + n) as char else ('A' as int + n - 10) as char
  }

  /** The lower-case hexadecimal digit of a nibble (as `JSON.stringify` writes it). */
  function HexLower(n: nat): (c: char)
    requires n < 16
    ensures HexValue(c) == Some(n)
    ensures IsDigit(c) || ('a' <= c <= 'f')
  {
    if n < 10 then ('0' as int + n) as char else ('a' as int + n - 10) as char
  }

  /** The position of the first `c` in `s`, or `|s|` when there is none. */
  function IndexOf(s: string, c: char): (i: nat)
    ensures i <= |s|
    ensures i < |s| ==> s[i] == c
    ensures forall j :: 0 <= j < i ==> s[j] != c
  {
    if |s| == 0 then 0
    else if s[0] == c then 0
    else 1 + IndexOf(s[1..], c)
  }
}
