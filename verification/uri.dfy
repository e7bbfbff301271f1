/**
 * The two sides of the query string the share link travels in:
 * `encodeURIComponent` (section 19.2.6.5 of ECMA-262, built on the percent
 * encoding of section 2.1 of RFC 3986), and the application/x-www-form-urlencoded
 * parser behind `URLSearchParams` (section 5.1 of the WHATWG URL Standard)
 * together with its `get` method.
 */
module UriEncoding {
  import opened Wrappers
  import opened Text
  import Utf8

  /** The characters `encodeURIComponent` copies unchanged: letters, digits and `-_.!~*'()`. */
  predicate IsUnescaped(c: char) {
    IsAsciiLetter(c) || IsDigit(c) || c in "-_.!~*'()"
  }

  /** The characters `encodeURIComponent` can produce. */
  predicate IsEncodedChar(c: char) {
    IsUnescaped(c) || c == '%'
  }

  /** One byte as `%` and two upper-case hexadecimal digits. */
  function PercentByte(b: byte): (t: string)
    ensures |t| == 3 && t[0] == '%'
  {
    ['%', HexUpper(b / 16), HexUpper(b % 16)]
  }

  function PercentBytes(bs: seq<byte>): (t: string)
    ensures |t| == 3 * |bs|
    ensures forall i :: 0 <= i < |t| ==> IsEncodedChar(t[i])
  {
    if |bs| == 0 then "" else PercentByte(bs[0]) + PercentBytes(bs[1..])
  }

  /** A character as `encodeURIComponent` writes it. */
  function EncodeChar(c: char): (t: string)
    ensures forall i :: 0 <= i < |t| ==> IsEncodedChar(t[i])
  {
    if IsUnescaped(c) then [c] else PercentBytes(Utf8.EncodeChar(c))
  }

  /** `encodeURIComponent`: unescaped characters stay, every other one becomes its UTF-8 bytes, percent-encoded. */
  function EncodeUriComponent(s: string): (t: string)
    ensures |t| >= |s|
    ensures forall i :: 0 <= i < |t| ==> IsEncodedChar(t[i])
  {
    if |s| == 0 then "" else EncodeChar(s[0]) + EncodeUriComponent(s[1..])
  }

  /**
   * Percent-decoding of bytes (section 1.3 of the URL Standard): `%` and two
   * hexadecimal digits become one byte; any other `%` is kept as it is.
   */
  function PercentDecode(bs: seq<byte>): (r: seq<byte>)
    ensures |r| <= |bs|
  {
    if |bs| == 0 then []
    else if bs[0] == '%' as int && |bs| >= 3
      && HexValue(bs[1] as char).Some? && HexValue(bs[2] as char).Some?
    then [HexValue(bs[1] as char).value * 16 + HexValue(bs[2] as char).value] + PercentDecode(bs[3..])
    else [bs[0]] + PercentDecode(bs[1..])
  }

  /** Bytes without `%` pass percent-decoding unchanged. */
  lemma {:induction false} PercentDecodeWithoutPercent(bs: seq<byte>)
    requires forall i :: 0 <= i < |bs| ==> bs[i] != '%' as int
    ensures PercentDecode(bs) == bs
  {
    if |bs| > 0 {
      PercentDecodeWithoutPercent(bs[1..]);
    }
  }

  /** The form encoding writes a space as `+`: every 0x2B byte is read back as 0x20. */
  function ReplacePlus(bs: seq<byte>): (r: seq<byte>)
    ensures |r| == |bs|
    ensures forall i :: 0 <= i < |r| ==> r[i] != '+' as int
    ensures (forall i :: 0 <= i < |bs| ==> bs[i] != '+' as int) ==> r == bs
  {
    seq(|bs|, i requires 0 <= i < |bs| => if bs[i] == '+' as int then ' ' as int else bs[i])
  }

  /** How the form parser turns one name or value into a string. */
  function DecodeComponent(s: string): string {
    Utf8.Decode(PercentDecode(ReplacePlus(Utf8.Encode(s))))
  }

  /** The query split at every `&`. */
  function Segments(q: string): (segs: seq<string>)
    ensures |segs| >= 1
    ensures forall i :: 0 <= i < |segs| ==> '&' !in segs[i]
    ensures '&' !in q ==> segs == [q]
    decreases |q|
  {
    var i := IndexOf(q, '&');
    if i == |q| then [q] else [q[..i]] + Segments(q[i + 1..])
  }

  /** The segments joined back with `&`. */
  function Join(segs: seq<string>): string
    requires |segs| >= 1
  {
    if |segs| == 1 then segs[0] else segs[0] + "&" + Join(segs[1..])
  }

  /** Splitting at `&` loses nothing: joining the segments restores the query. */
  lemma {:induction false} JoinSegments(q: string)
    ensures Join(Segments(q)) == q
    decreases |q|
  {
    var i := IndexOf(q, '&');
    if i < |q| {
      JoinSegments(q[i + 1..]);
      JoinCons(q[..i], Segments(q[i + 1..]));
      SplitAround(q, i);
    }
  }

  lemma JoinCons(head: string, segs: seq<string>)
    requires |segs| >= 1
    ensures Join([head] + segs) == head + "&" + Join(segs)
  {
    assert ([head] + segs)[1..] == segs;
  }

  lemma SplitAround(q: string, i: nat)
    requires i < |q| && q[i] == '&'
    ensures q[..i] + "&" + q[i + 1..] == q
  {
  }

  /** A segment as a name and a value, split at its first `=`; with no `=` the value is empty. */
  function SplitPair(seg: string): (p: (string, string))
    ensures '=' !in p.0
    ensures '=' in seg ==> seg == p.0 + "=" + p.1
    ensures '=' !in seg ==> p == (seg, "")
  {
    var i := IndexOf(seg, '=');
    if i == |seg| then (seg, "") else (seg[..i], seg[i + 1..])
  }

  /** The decoded name of one query piece. */
  function PairName(seg: string): string {
    DecodeComponent(SplitPair(seg).0)
  }

  /** The decoded value of one query piece. */
  function PairValue(seg: string): string {
    DecodeComponent(SplitPair(seg).1)
  }

  /** The name-value list of the form parser: empty segments are skipped. */
  function Pairs(segs: seq<string>): (ps: seq<(string, string)>)
    ensures |ps| <= |segs|
  {
    if |segs| == 0 then []
    else if segs[0] == "" then Pairs(segs[1..])
    else [(PairName(segs[0]), PairValue(segs[0]))] + Pairs(segs[1..])
  }

  /** `new URLSearchParams(query)` as a list of name-value pairs. */
  function ParseQuery(q: string): seq<(string, string)> {
    Pairs(Segments(q))
  }

  /** `URLSearchParams.get`: the value of the first pair with the name, if any. */
  function Lookup(ps: seq<(string, string)>, name: string): (r: Option<string>)
    ensures r.None? <==> forall i :: 0 <= i < |ps| ==> ps[i].0 != name
    ensures r.Some? ==>
      (exists i :: 0 <= i < |ps| && ps[i] == (name, r.value) && forall j :: 0 <= j < i ==> ps[j].0 != name)
  {
    if |ps| == 0 then None
    else if ps[0].0 == name then Some(ps[0].1)
    else
      var r := Lookup(ps[1..], name);
      assert r.Some? ==>
        (exists i :: 1 <= i < |ps| && ps[i] == (name, r.value) && forall j :: 0 <= j < i ==> ps[j].0 != name) by {
        if r.Some? {
          var i :| 0 <= i < |ps[1..]| && ps[1..][i] == (name, r.value)
            && forall j :: 0 <= j < i ==> ps[1..][j].0 != name;
          assert ps[i + 1] == (name, r.value);
          assert forall j :: 0 <= j < i + 1 ==> ps[j].0 != name by {
            forall j | 0 <= j < i + 1 ensures ps[j].0 != name {
              if j > 0 { assert ps[j] == ps[1..][j - 1]; }
            }
          }
        }
      }
      r
  }

  /** No non-empty piece from `k` on has the decoded name. */
  predicate NoPieceNamed(segs: seq<string>, name: string, k: nat) {
    forall i :: k <= i < |segs| && segs[i] != "" ==> PairName(segs[i]) != name
  }

  /** Piece `i` is the first non-empty piece with the decoded name, and its decoded value is `value`. */
  predicate FirstPieceNamed(segs: seq<string>, name: string, i: nat, value: string) {
    && i < |segs| && segs[i] != "" && PairName(segs[i]) == name && PairValue(segs[i]) == value
    && forall k :: 0 <= k < i && segs[k] != "" ==> PairName(segs[k]) != name
  }

  /**
   * `searchParams.get(name)` on the query component of a URL: the decoded
   * value of the first non-empty `&`-piece whose decoded name is `name`, and
   * nothing when no piece has that name.
   */
  function SearchParam(q: string, name: string): (r: Option<string>)
    ensures r.None? <==> NoPieceNamed(Segments(q), name, 0)
    ensures r.Some? ==> exists i :: FirstPieceNamed(Segments(q), name, i, r.value)
  {
    LookupPairs(Segments(q), name);
    Lookup(ParseQuery(q), name)
  }

  /** Looking a name up in the pair list is finding the first piece with that name. */
  lemma {:induction false} LookupPairs(segs: seq<string>, name: string)
    ensures Lookup(Pairs(segs), name).None? <==> NoPieceNamed(segs, name, 0)
    ensures Lookup(Pairs(segs), name).Some? ==>
      exists i :: FirstPieceNamed(segs, name, i, Lookup(Pairs(segs), name).value)
    decreases |segs|
  {
    if |segs| > 0 {
      var tail := segs[1..];
      LookupPairs(tail, name);
      var rt := Lookup(Pairs(tail), name);
      if segs[0] != "" && PairName(segs[0]) == name {
        var p := (PairName(segs[0]), PairValue(segs[0]));
        assert Pairs(segs) == [p] + Pairs(tail);
        assert Lookup(Pairs(segs), name) == Some(PairValue(segs[0]));
        assert FirstPieceNamed(segs, name, 0, PairValue(segs[0]));
      } else {
        LookupSkipsPiece(segs, name);
        NoPieceShift(segs, name);
        if rt.Some? {
          var i :| FirstPieceNamed(tail, name, i, rt.value);
          FirstPieceShift(segs, name, i, rt.value);
        }
      }
    }
  }

  /** A piece that is empty or has another name does not affect the lookup. */
  lemma LookupSkipsPiece(segs: seq<string>, name: string)
    requires |segs| > 0 && (segs[0] == "" || PairName(segs[0]) != name)
    ensures Lookup(Pairs(segs), name) == Lookup(Pairs(segs[1..]), name)
  {
    if segs[0] != "" {
      var ps := Pairs(segs);
      assert ps == [(PairName(segs[0]), PairValue(segs[0]))] + Pairs(segs[1..]);
      assert ps[1..] == Pairs(segs[1..]);
    }
  }

  lemma NoPieceShift(segs: seq<string>, name: string)
    requires |segs| > 0 && (segs[0] == "" || PairName(segs[0]) != name)
    ensures NoPieceNamed(segs, name, 0) <==> NoPieceNamed(segs[1..], name, 0)
  {
    assert forall i :: 1 <= i < |segs| ==> segs[i] == segs[1..][i - 1];
  }

  lemma FirstPieceShift(segs: seq<string>, name: string, i: nat, value: string)
    requires |segs| > 0 && (segs[0] == "" || PairName(segs[0]) != name)
    requires FirstPieceNamed(segs[1..], name, i, value)
    ensures FirstPieceNamed(segs, name, i + 1, value)
  {
    forall k | 0 <= k < i + 1 && segs[k] != "" ensures PairName(segs[k]) != name {
      if k > 0 {
        assert segs[k] == segs[1..][k - 1];
      }
    }
  }

  /** An ASCII string with no `%` or `+` passes the form parser unchanged. */
  lemma DecodePlain(s: string)
    requires IsAscii(s)
    requires '%' !in s && '+' !in s
    ensures DecodeComponent(s) == s
  {
    var bs := Utf8.Encode(s);
    Utf8.EncodeAscii(s);
    assert ReplacePlus(bs) == bs;
    PercentDecodeWithoutPercent(bs);
    Utf8.DecodeAscii(bs);
    assert Latin1String(bs) == s;
  }

  /** The UTF-8 bytes of one percent-encoded byte decode back to that byte. */
  lemma PercentDecodeByte(b: byte, tail: seq<byte>)
    ensures PercentDecode(Utf8.Encode(PercentByte(b)) + tail) == [b] + PercentDecode(tail)
  {
    var p := PercentByte(b);
    var h, l := HexUpper(b / 16), HexUpper(b % 16);
    assert IsAscii(p);
    Utf8.EncodeAscii(p);
    var ep := Utf8.Encode(p);
    assert ep == ['%' as int, h as int, l as int];
    var x := ep + tail;
    assert x[0] == '%' as int && x[1] as char == h && x[2] as char == l;
    assert x[3..] == tail;
    assert HexValue(h).value * 16 + HexValue(l).value == b;
  }

  lemma PercentBytesBytes(bs: seq<byte>)
    requires |bs| > 0
    ensures Utf8.Encode(PercentBytes(bs)) == Utf8.Encode(PercentByte(bs[0])) + Utf8.Encode(PercentBytes(bs[1..]))
  {
    Utf8.EncodeConcat(PercentByte(bs[0]), PercentBytes(bs[1..]));
  }

  /** The UTF-8 bytes of a percent-encoded byte run decode back to that run. */
  lemma {:induction false} PercentDecodeBytes(bs: seq<byte>, rest: seq<byte>)
    ensures PercentDecode(Utf8.Encode(PercentBytes(bs)) + rest) == bs + PercentDecode(rest)
  {
    if |bs| > 0 {
      var tail := Utf8.Encode(PercentBytes(bs[1..])) + rest;
      PercentBytesBytes(bs);
      assert Utf8.Encode(PercentBytes(bs)) + rest == Utf8.Encode(PercentByte(bs[0])) + tail;
      PercentDecodeByte(bs[0], tail);
      PercentDecodeBytes(bs[1..], rest);
      calc {
        PercentDecode(Utf8.Encode(PercentBytes(bs)) + rest);
        PercentDecode(Utf8.Encode(PercentByte(bs[0])) + tail);
        [bs[0]] + PercentDecode(tail);
        [bs[0]] + (bs[1..] + PercentDecode(rest));
        { assert bs == [bs[0]] + bs[1..]; }
        bs + PercentDecode(rest);
      }
    } else {
      assert PercentBytes(bs) == "";
      assert Utf8.Encode(PercentBytes(bs)) == [];
      assert Utf8.Encode(PercentBytes(bs)) + rest == rest;
    }
  }

  /** Percent-decoding the bytes of `encodeURIComponent(s)` yields the UTF-8 bytes of `s`. */
  lemma {:induction false} PercentDecodeEncoded(s: string)
    ensures PercentDecode(Utf8.Encode(EncodeUriComponent(s))) == Utf8.Encode(s)
  {
    if |s| > 0 {
      var head := EncodeChar(s[0]);
      var tail := EncodeUriComponent(s[1..]);
      assert EncodeUriComponent(s) == head + tail;
      Utf8.EncodeConcat(head, tail);
      PercentDecodeEncodedChar(s[0], Utf8.Encode(tail));
      PercentDecodeEncoded(s[1..]);
    }
  }

  /** Percent-decoding undoes the encoding of one character in front of any bytes. */
  lemma PercentDecodeEncodedChar(c: char, rest: seq<byte>)
    ensures PercentDecode(Utf8.Encode(EncodeChar(c)) + rest) == Utf8.EncodeChar(c) + PercentDecode(rest)
  {
    if IsUnescaped(c) {
      assert Utf8.Encode(EncodeChar(c)) == [c as int];
      assert ([c as int] + rest)[1..] == rest;
    } else {
      PercentDecodeBytes(Utf8.EncodeChar(c), rest);
    }
  }

  /** The form parser undoes `encodeURIComponent` on every string. */
  lemma DecodeEncodeComponent(s: string)
    ensures DecodeComponent(EncodeUriComponent(s)) == s
  {
    var t := EncodeUriComponent(s);
    NoPlusInEncoded(t);
    PercentDecodeEncoded(s);
    Utf8.DecodeEncode(s);
  }

  /** Text made of encodeURIComponent's output characters has no `+` byte to replace. */
  lemma NoPlusInEncoded(t: string)
    requires forall i :: 0 <= i < |t| ==> IsEncodedChar(t[i])
    ensures ReplacePlus(Utf8.Encode(t)) == Utf8.Encode(t)
  {
    forall i | 0 <= i < |t| ensures t[i] as int < 128 {
      EncodedCharIsAscii(t[i]);
    }
    Utf8.EncodeAscii(t);
    var bs := Utf8.Encode(t);
    forall i | 0 <= i < |bs| ensures bs[i] != '+' as int {
      EncodedCharIsAscii(t[i]);
    }
  }

  lemma EncodedCharIsAscii(c: char)
    requires IsEncodedChar(c)
    ensures c as int < 128 && c != '+'
  {
  }

  /** `encodeURIComponent` never writes `&`, `=` or `+`. */
  lemma EncodedHasNoSeparator(value: string)
    ensures '&' !in EncodeUriComponent(value)
    ensures '=' !in EncodeUriComponent(value)
    ensures '+' !in EncodeUriComponent(value)
  {
    var t := EncodeUriComponent(value);
    forall i | 0 <= i < |t| ensures t[i] != '&' && t[i] != '=' && t[i] != '+' {
      assert IsEncodedChar(t[i]);
    }
  }

  /** A query with no `&` whose name has no `=` parses into its one pair. */
  lemma ParseSinglePair(name: string, t: string)
    requires name != ""
    requires '&' !in name && '=' !in name && '&' !in t
    ensures ParseQuery(name + "=" + t) == [(DecodeComponent(name), DecodeComponent(t))]
  {
    var q := name + "=" + t;
    assert '&' !in q by {
      forall i | 0 <= i < |q| ensures q[i] != '&' {
        if i < |name| { assert q[i] == name[i]; }
        else if i > |name| { assert q[i] == t[i - |name| - 1]; }
      }
    }
    assert Segments(q) == [q];
    assert IndexOf(q, '=') == |name| by {
      assert q[|name|] == '=';
      forall j | 0 <= j < |name| ensures q[j] != '=' {
        assert q[j] == name[j];
      }
    }
    assert q[..|name|] == name && q[|name| + 1..] == t;
    assert SplitPair(q) == (name, t);
  }

  /** A query made of one `name=` + encodeURIComponent(value) pair gives the value back. */
  lemma SearchParamOfEncoded(name: string, value: string)
    requires name != "" && IsAscii(name)
    requires '%' !in name && '+' !in name && '&' !in name && '=' !in name
    ensures SearchParam(name + "=" + EncodeUriComponent(value), name) == Some(value)
  {
    var t := EncodeUriComponent(value);
    EncodedHasNoSeparator(value);
    ParseSinglePair(name, t);
    DecodePlain(name);
    DecodeEncodeComponent(value);
  }

  /** A string with any character outside the unescaped set comes out of encodeURIComponent with a `%`. */
  lemma {:induction false} EscapedHasPercent(s: string, k: nat)
    requires k < |s| && !IsUnescaped(s[k])
    ensures '%' in EncodeUriComponent(s)
  {
    var head := EncodeChar(s[0]);
    assert EncodeUriComponent(s) == head + EncodeUriComponent(s[1..]);
    if k == 0 {
      assert head[0] == '%';
      assert EncodeUriComponent(s)[0] == '%';
    } else {
      EscapedHasPercent(s[1..], k - 1);
      var i :| 0 <= i < |EncodeUriComponent(s[1..])| && EncodeUriComponent(s[1..])[i] == '%';
      assert EncodeUriComponent(s)[|head| + i] == '%';
    }
  }
}
