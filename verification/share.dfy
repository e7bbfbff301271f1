/**
 * The share-link codec of lib/farcaster-share.ts: the shared game record,
 * the token `generateShareUrl` builds (JSON.stringify, then btoa, then
 * encodeURIComponent), `decodeShareData`, and the text `shareToFarcaster`
 * composes around the link.
 */
module ShareData {
  import opened Wrappers
  import opened Errors
  import opened Text
  import Base64
  import UriEncoding
  import Json

  // ---------------------------------------------------------------------
  // The shared record

  datatype Symbol = X | O

  datatype Outcome = Won | Lost | Draw

  /** `GameShareData`; an optional property that is absent (`undefined`) is `None`. */
  datatype GameShareData = GameShareData(
    playerName: Option<string>,
    playerPfp: Option<string>,
    opponentName: Option<string>,
    opponentPfp: Option<string>,
    playerSymbol: Symbol,
    result: Outcome,
    roomCode: string,
    timestamp: int)

  function SymbolText(s: Symbol): string {
    match s
    case X => "X"
    case O => "O"
  }

  function OutcomeText(o: Outcome): string {
    match o
    case Won => "won"
    case Lost => "lost"
    case Draw => "draw"
  }

  function OptionalText(s: Option<string>): Option<Json.Value> {
    if s.Some? then Some(Json.Str(s.value)) else None
  }

  /** A named property that may be `undefined`. */
  type Field = (string, Option<Json.Value>)

  /** The record's properties in declaration order, the absent ones as `None`. */
  function Fields(d: GameShareData): seq<Field> {
    [("playerName", OptionalText(d.playerName)),
     ("playerPfp", OptionalText(d.playerPfp)),
     ("opponentName", OptionalText(d.opponentName)),
     ("opponentPfp", OptionalText(d.opponentPfp)),
     ("playerSymbol", Some(Json.Str(SymbolText(d.playerSymbol)))),
     ("result", Some(Json.Str(OutcomeText(d.result)))),
     ("roomCode", Some(Json.Str(d.roomCode))),
     ("timestamp", Some(Json.Number(d.timestamp)))]
  }

  predicate DistinctKeys(fs: seq<Field>) {
    forall i, j :: 0 <= i < j < |fs| ==> fs[i].0 != fs[j].0
  }

  /** JSON.stringify skips `undefined` properties: the members are the present fields, in order. */
  function Present(fs: seq<Field>): (ms: seq<Json.Member>)
    ensures |ms| <= |fs|
  {
    if |fs| == 0 then []
    else if fs[0].1.Some? then [Json.Member(fs[0].0, fs[0].1.value)] + Present(fs[1..])
    else Present(fs[1..])
  }

  /**
   * The object a record is serialised from: its present fields, in the
   * interface's order. `FromJson` reads the record back from it, and its
   * strings are binary strings exactly when the record's are.
   */
  function ToJson(d: GameShareData): (j: Json.Json)
    ensures FromJson(j) == Some(d)
    ensures Json.Latin1Json(j) <==> Latin1Record(d)
  {
    FromJsonOfFields(d);
    PresentFieldsLatin1(d);
    Json.Object(Present(Fields(d)))
  }

  /** Every member of `Present(fs)` is a present field. */
  lemma {:induction false} PresentSound(fs: seq<Field>, i: nat)
    requires i < |Present(fs)|
    ensures exists j :: 0 <= j < |fs| && fs[j] == (Present(fs)[i].key, Some(Present(fs)[i].value))
  {
    if fs[0].1.Some? {
      if i == 0 {
        assert fs[0] == (Present(fs)[0].key, Some(Present(fs)[0].value));
      } else {
        PresentSound(fs[1..], i - 1);
        var j :| 0 <= j < |fs[1..]| && fs[1..][j] == (Present(fs[1..])[i - 1].key, Some(Present(fs[1..])[i - 1].value));
        assert fs[j + 1] == fs[1..][j];
      }
    } else {
      PresentSound(fs[1..], i);
      var j :| 0 <= j < |fs[1..]| && fs[1..][j] == (Present(fs[1..])[i].key, Some(Present(fs[1..])[i].value));
      assert fs[j + 1] == fs[1..][j];
    }
  }

  /** Every present field is a member of `Present(fs)`. */
  lemma {:induction false} PresentComplete(fs: seq<Field>, j: nat)
    requires j < |fs| && fs[j].1.Some?
    ensures Json.Member(fs[j].0, fs[j].1.value) in Present(fs)
  {
    if j > 0 {
      PresentComplete(fs[1..], j - 1);
      assert fs[1..][j - 1] == fs[j];
    }
  }

  /** With distinct names, reading a property of the serialised object gives the field back. */
  lemma GetPresent(fs: seq<Field>, j: nat)
    requires DistinctKeys(fs) && j < |fs|
    ensures Json.Get(Present(fs), fs[j].0) == fs[j].1
  {
    var ms := Present(fs);
    var r := Json.Get(ms, fs[j].0);
    if fs[j].1.Some? {
      PresentComplete(fs, j);
      var i :| 0 <= i < |ms| && ms[i] == Json.Member(fs[j].0, fs[j].1.value);
      assert r.Some?;
      var k :| 0 <= k < |ms| && ms[k] == Json.Member(fs[j].0, r.value);
      PresentSound(fs, k);
    } else if r.Some? {
      var k :| 0 <= k < |ms| && ms[k] == Json.Member(fs[j].0, r.value);
      PresentSound(fs, k);
    }
  }

  /** A name no field carries is absent from the serialised object. */
  lemma GetAbsent(fs: seq<Field>, key: string)
    requires forall j :: 0 <= j < |fs| ==> fs[j].0 != key
    ensures Json.Get(Present(fs), key) == None
  {
    var r := Json.Get(Present(fs), key);
    if r.Some? {
      var k :| 0 <= k < |Present(fs)| && Present(fs)[k] == Json.Member(key, r.value);
      PresentSound(fs, k);
    }
  }

  lemma FieldsDistinct(d: GameShareData)
    ensures DistinctKeys(Fields(d))
  {
  }

  /** A record's strings are binary strings, the domain of btoa. */
  predicate Latin1Text(s: Option<string>) {
    s.Some? ==> IsLatin1(s.value)
  }

  predicate Latin1Record(d: GameShareData) {
    Latin1Text(d.playerName) && Latin1Text(d.playerPfp) && Latin1Text(d.opponentName)
    && Latin1Text(d.opponentPfp) && IsLatin1(d.roomCode)
  }

  /** The serialised object has only binary strings exactly when the record has. */
  lemma PresentFieldsLatin1(d: GameShareData)
    ensures Json.Latin1Json(Json.Object(Present(Fields(d)))) <==> Latin1Record(d)
  {
    PresentLatin1(Fields(d));
    FieldsLatin1(d);
  }

  /** The present fields' values are binary strings exactly when the record's strings are. */
  lemma FieldsLatin1(d: GameShareData)
    ensures Latin1Record(d) <==>
      forall j :: 0 <= j < |Fields(d)| && Fields(d)[j].1.Some? ==> Json.Latin1Value(Fields(d)[j].1.value)
  {
    var fs := Fields(d);
    if forall j :: 0 <= j < |fs| && fs[j].1.Some? ==> Json.Latin1Value(fs[j].1.value) {
      assert fs[0].1.Some? ==> Json.Latin1Value(fs[0].1.value);
      assert fs[1].1.Some? ==> Json.Latin1Value(fs[1].1.value);
      assert fs[2].1.Some? ==> Json.Latin1Value(fs[2].1.value);
      assert fs[3].1.Some? ==> Json.Latin1Value(fs[3].1.value);
      assert Json.Latin1Value(fs[6].1.value);
    }
  }

  /** The members of `Present(fs)` are binary-string members exactly when the present fields are. */
  lemma PresentLatin1(fs: seq<Field>)
    requires forall j :: 0 <= j < |fs| ==> IsLatin1(fs[j].0)
    ensures Json.Latin1Json(Json.Object(Present(fs))) <==>
      forall j :: 0 <= j < |fs| && fs[j].1.Some? ==> Json.Latin1Value(fs[j].1.value)
  {
    if forall j :: 0 <= j < |fs| && fs[j].1.Some? ==> Json.Latin1Value(fs[j].1.value) {
      PresentLatin1If(fs);
    }
    if Json.Latin1Json(Json.Object(Present(fs))) {
      PresentLatin1OnlyIf(fs);
    }
  }

  lemma PresentLatin1If(fs: seq<Field>)
    requires forall j :: 0 <= j < |fs| ==> IsLatin1(fs[j].0)
    requires forall j :: 0 <= j < |fs| && fs[j].1.Some? ==> Json.Latin1Value(fs[j].1.value)
    ensures Json.Latin1Json(Json.Object(Present(fs)))
  {
    var ms := Present(fs);
    forall i | 0 <= i < |ms| ensures Json.Latin1Member(ms[i]) {
      PresentMemberLatin1(fs, i);
    }
  }

  lemma PresentMemberLatin1(fs: seq<Field>, i: nat)
    requires forall j :: 0 <= j < |fs| ==> IsLatin1(fs[j].0)
    requires forall j :: 0 <= j < |fs| && fs[j].1.Some? ==> Json.Latin1Value(fs[j].1.value)
    requires i < |Present(fs)|
    ensures Json.Latin1Member(Present(fs)[i])
  {
    PresentSound(fs, i);
    var j :| 0 <= j < |fs| && fs[j] == (Present(fs)[i].key, Some(Present(fs)[i].value));
    assert IsLatin1(fs[j].0) && Json.Latin1Value(fs[j].1.value);
  }

  lemma PresentLatin1OnlyIf(fs: seq<Field>)
    requires Json.Latin1Json(Json.Object(Present(fs)))
    ensures forall j :: 0 <= j < |fs| && fs[j].1.Some? ==> Json.Latin1Value(fs[j].1.value)
  {
    var ms := Present(fs);
    forall j | 0 <= j < |fs| && fs[j].1.Some? ensures Json.Latin1Value(fs[j].1.value) {
      PresentComplete(fs, j);
      var i :| 0 <= i < |ms| && ms[i] == Json.Member(fs[j].0, fs[j].1.value);
      assert Json.Latin1Member(ms[i]);
    }
  }

  // ---------------------------------------------------------------------
  // Reading a parsed object back as a record

  /** A property that must be a string. */
  function TextOf(v: Option<Json.Value>): Option<string> {
    if v.Some? && v.value.Str? then Some(v.value.s) else None
  }

  /** A property that is either absent or a string; `None` when it is something else. */
  function OptionalTextOf(v: Option<Json.Value>): Option<Option<string>> {
    match v
    case None => Some(None)
    case Some(Str(s)) => Some(Some(s))
    case Some(_) => None
  }

  function SymbolOf(v: Option<Json.Value>): (r: Option<Symbol>)
    ensures r.Some? ==> v == Some(Json.Str(SymbolText(r.value)))
  {
    if v == Some(Json.Str("X")) then Some(X)
    else if v == Some(Json.Str("O")) then Some(O)
    else None
  }

  function OutcomeOf(v: Option<Json.Value>): (r: Option<Outcome>)
    ensures r.Some? ==> v == Some(Json.Str(OutcomeText(r.value)))
  {
    if v == Some(Json.Str("won")) then Some(Won)
    else if v == Some(Json.Str("lost")) then Some(Lost)
    else if v == Some(Json.Str("draw")) then Some(Draw)
    else None
  }

  function NumberOf(v: Option<Json.Value>): Option<int> {
    if v.Some? && v.value.Number? then Some(v.value.n) else None
  }

  /** The record eight property values denote when each has the declared type. */
  function RecordOf(
    playerName: Option<Json.Value>, playerPfp: Option<Json.Value>,
    opponentName: Option<Json.Value>, opponentPfp: Option<Json.Value>,
    playerSymbol: Option<Json.Value>, result: Option<Json.Value>,
    roomCode: Option<Json.Value>, timestamp: Option<Json.Value>): (r: Option<GameShareData>)
    ensures r.Some? ==> playerSymbol == Some(Json.Str(SymbolText(r.value.playerSymbol)))
    ensures r.Some? ==> result == Some(Json.Str(OutcomeText(r.value.result)))
  {
    var playerName :- OptionalTextOf(playerName);
    var playerPfp :- OptionalTextOf(playerPfp);
    var opponentName :- OptionalTextOf(opponentName);
    var opponentPfp :- OptionalTextOf(opponentPfp);
    var symbol :- SymbolOf(playerSymbol);
    var result :- OutcomeOf(result);
    var roomCode :- TextOf(roomCode);
    var timestamp :- NumberOf(timestamp);
    Some(GameShareData(playerName, playerPfp, opponentName, opponentPfp, symbol, result, roomCode, timestamp))
  }

  /** The record a parsed object denotes when every property has the declared type. */
  function FromJson(j: Json.Json): (r: Option<GameShareData>)
    ensures r.Some? ==> j.Object?
    ensures r.Some? ==> Json.Get(j.members, "playerSymbol") == Some(Json.Str(SymbolText(r.value.playerSymbol)))
    ensures r.Some? ==> Json.Get(j.members, "result") == Some(Json.Str(OutcomeText(r.value.result)))
  {
    if !j.Object? then None
    else
      var ms := j.members;
      RecordOf(Json.Get(ms, "playerName"), Json.Get(ms, "playerPfp"),
        Json.Get(ms, "opponentName"), Json.Get(ms, "opponentPfp"),
        Json.Get(ms, "playerSymbol"), Json.Get(ms, "result"),
        Json.Get(ms, "roomCode"), Json.Get(ms, "timestamp"))
  }

  /** The record's own property values read back as the record. */
  lemma RecordOfFields(d: GameShareData)
    ensures RecordOf(OptionalText(d.playerName), OptionalText(d.playerPfp),
      OptionalText(d.opponentName), OptionalText(d.opponentPfp),
      Some(Json.Str(SymbolText(d.playerSymbol))), Some(Json.Str(OutcomeText(d.result))),
      Some(Json.Str(d.roomCode)), Some(Json.Number(d.timestamp))) == Some(d)
  {
  }

  /** Reading the serialised object gives the record back. */
  lemma FromJsonOfFields(d: GameShareData)
    ensures FromJson(Json.Object(Present(Fields(d)))) == Some(d)
  {
    var fs := Fields(d);
    var ms := Present(fs);
    FieldsDistinct(d);
    GetPresent(fs, 0);
    GetPresent(fs, 1);
    GetPresent(fs, 2);
    GetPresent(fs, 3);
    GetPresent(fs, 4);
    GetPresent(fs, 5);
    GetPresent(fs, 6);
    GetPresent(fs, 7);
    RecordOfFields(d);
  }

  // ---------------------------------------------------------------------
  // decodeShareData

  /**
   * The guard on `data.playerSymbol`: the parsed value is an object whose
   * symbol is "X" or "O". It holds exactly when reading the property succeeds
   * and yields one of the two strings; `null` throws and any other scalar has
   * no such property.
   */
  predicate ValidSymbol(j: Json.Json)
    ensures ValidSymbol(j) <==>
      Json.Property(j, "playerSymbol") in {Success(Some(Json.Str("X"))), Success(Some(Json.Str("O")))}
  {
    j.Object? && Json.Get(j.members, "playerSymbol") in {Some(Json.Str("X")), Some(Json.Str("O"))}
  }

  /** `JSON.parse`, throwing a SyntaxError on malformed text. */
  function ParseJson(text: string): (r: Result<Json.Json, Exception>)
    ensures r.Success? <==> Json.Parse(text).Success?
    ensures r.Success? ==> r.value == Json.Parse(text).value
  {
    match Json.Parse(text)
    case Success(j) => Success(j)
    case Failure(message) => Failure(Exception("SyntaxError", message))
  }

  /** The `try` block of `decodeShareData`: atob, JSON.parse, then the symbol guard. */
  function ParseShareData(encoded: string): (r: Result<Json.Json, Exception>)
    ensures r.Success? ==> ValidSymbol(r.value)
    ensures Base64.Atob(encoded).Failure? ==> r.Failure? && r.error.name == "InvalidCharacterError"
    ensures Base64.Atob(encoded).Success? ==>
      var parsed := Json.Parse(Base64.Atob(encoded).value);
      && (parsed.Failure? ==> r.Failure? && r.error.name == "SyntaxError")
      && (parsed == Success(Json.Scalar(Json.Null)) ==> r.Failure? && r.error.name == "TypeError")
      && (parsed.Success? && parsed.value != Json.Scalar(Json.Null) ==>
            r == if ValidSymbol(parsed.value) then Success(parsed.value)
                 else Failure(PlainError("Invalid player symbol")))
  {
    var text :- Base64.Atob(encoded);
    var data :- ParseJson(text);
    var symbol :- Json.Property(data, "playerSymbol");
    if symbol != Some(Json.Str("X")) && symbol != Some(Json.Str("O")) then
      Failure(PlainError("Invalid player symbol"))
    else
      Success(data)
  }

  /** The error `decodeShareData` throws for every input it rejects. */
  const InvalidShareData: Exception := PlainError("Invalid share data")

  /**
   * `decodeShareData`: succeeds exactly when the text is base64 of a JSON text
   * whose value has a valid symbol, and then returns that value unchanged;
   * every failure is the same error.
   */
  function DecodeShareData(encoded: string): (r: Result<Json.Json, Exception>)
    ensures r.Failure? ==> r.error == InvalidShareData
    ensures r.Success? <==>
      Base64.Atob(encoded).Success? && Json.Parse(Base64.Atob(encoded).value).Success?
      && ValidSymbol(Json.Parse(Base64.Atob(encoded).value).value)
    ensures r.Success? ==> r.value == Json.Parse(Base64.Atob(encoded).value).value
  {
    match ParseShareData(encoded)
    case Success(data) => Success(data)
    case Failure(_) => Failure(InvalidShareData)
  }

  // ---------------------------------------------------------------------
  // generateShareUrl

  /** The base64 text of a serialised value whose strings are binary strings. */
  function Base64Text(data: Json.Json): (b64: string)
    requires Json.Latin1Json(data)
    ensures Base64.Btoa(Json.Stringify(data)) == Success(b64)
    ensures |b64| == 4 * ((|Json.Stringify(data)| + 2) / 3)
  {
    Base64.Btoa(Json.Stringify(data)).value
  }

  /** `encodeURIComponent(btoa(JSON.stringify(data)))`; btoa throws unless every string is a binary string. */
  function ShareToken(data: Json.Json): (r: Result<string, Exception>)
    ensures r.Success? <==> Json.Latin1Json(data)
    ensures r.Failure? ==> r.error == Base64.InvalidCharacter
    ensures r.Success? ==> r.value == UriEncoding.EncodeUriComponent(Base64Text(data))
  {
    var b64 :- Base64.Btoa(Json.Stringify(data));
    Success(UriEncoding.EncodeUriComponent(b64))
  }

  /** `generateShareUrl`, with the origin it looks up passed in as `baseUrl`. */
  function GenerateShareUrl(baseUrl: string, data: Json.Json): (r: Result<string, Exception>)
    ensures r.Success? <==> Json.Latin1Json(data)
    ensures r.Failure? ==> r.error == Base64.InvalidCharacter
  {
    var token :- ShareToken(data);
    Success(baseUrl + "/share?data=" + token)
  }

  /** Letters and digits, and the escapes `%2B`, `%2F`, `%3D` of base64's other three characters. */
  predicate WellFormedToken(t: string)
    decreases |t|
  {
    if t == "" then true
    else if IsAsciiLetter(t[0]) || IsDigit(t[0]) then WellFormedToken(t[1..])
    else |t| >= 3 && t[..3] in {"%2B", "%2F", "%3D"} && WellFormedToken(t[3..])
  }

  lemma EscapeOfBase64Char(c: char)
    requires Base64.InAlphabet(c) || c == '='
    ensures UriEncoding.EncodeChar(c) ==
      if c == '+' then "%2B" else if c == '/' then "%2F" else if c == '=' then "%3D" else [c]
  {
  }

  /** encodeURIComponent of base64 text is a well-formed token. */
  lemma {:induction false} TokenOfBase64(s: string)
    requires forall i :: 0 <= i < |s| ==> Base64.InAlphabet(s[i]) || s[i] == '='
    ensures WellFormedToken(UriEncoding.EncodeUriComponent(s))
  {
    if |s| > 0 {
      var head := UriEncoding.EncodeChar(s[0]);
      var tail := UriEncoding.EncodeUriComponent(s[1..]);
      TokenOfBase64(s[1..]);
      EscapeOfBase64Char(s[0]);
      assert UriEncoding.EncodeUriComponent(s) == head + tail;
      if |head| == 1 {
        assert (head + tail)[1..] == tail;
      } else {
        assert (head + tail)[..3] == head;
        assert (head + tail)[3..] == tail;
      }
    }
  }

  /**
   * The link's shape: the base URL, `/share?data=`, then a well-formed token
   * whose base64 part has four characters for every three bytes, rounded up.
   */
  lemma ShareUrlShape(baseUrl: string, data: Json.Json)
    requires Json.Latin1Json(data)
    ensures GenerateShareUrl(baseUrl, data) == Success(baseUrl + "/share?data=" + ShareToken(data).value)
    ensures WellFormedToken(ShareToken(data).value)
    ensures |Base64Text(data)| == 4 * ((|Json.Stringify(data)| + 2) / 3)
  {
    TokenOfBase64(Base64Text(data));
  }

  // ---------------------------------------------------------------------
  // Round trips

  /** The query parser undoes encodeURIComponent: `data=<token>` yields the base64 text. */
  lemma TokenQueryRoundTrip(data: Json.Json)
    requires Json.Latin1Json(data)
    ensures UriEncoding.SearchParam("data=" + ShareToken(data).value, "data") == Some(Base64Text(data))
  {
    DataParamOfEncoded(Base64Text(data));
  }

  lemma DataParamOfEncoded(value: string)
    ensures UriEncoding.SearchParam("data=" + UriEncoding.EncodeUriComponent(value), "data") == Some(value)
  {
    var name := "data";
    assert IsAscii(name) by {
      forall i | 0 <= i < |name| ensures name[i] as int < 128 {
      }
    }
    assert '%' !in name && '+' !in name && '&' !in name && '=' !in name;
    var t := UriEncoding.EncodeUriComponent(value);
    assert "data=" + t == name + "=" + t;
    UriEncoding.SearchParamOfEncoded(name, value);
  }

  /** Decoding the base64 text of a serialised value gives the value back when its symbol is valid, and the one error otherwise. */
  lemma DecodeBase64Text(data: Json.Json)
    requires Json.Latin1Json(data)
    ensures ValidSymbol(data) ==> DecodeShareData(Base64Text(data)) == Success(data)
    ensures !ValidSymbol(data) ==> DecodeShareData(Base64Text(data)) == Failure(InvalidShareData)
  {
    Base64.AtobBtoa(Json.Stringify(data));
    Json.ParseStringify(data);
  }

  /** A record with binary strings survives the whole link: token, query parsing, decoding, typed reading. */
  lemma RecordRoundTrip(d: GameShareData)
    requires Latin1Record(d)
    ensures ShareToken(ToJson(d)).Success?
    ensures var b64 := UriEncoding.SearchParam("data=" + ShareToken(ToJson(d)).value, "data");
      b64.Some? && DecodeShareData(b64.value) == Success(ToJson(d))
    ensures FromJson(ToJson(d)) == Some(d)
  {
    TokenQueryRoundTrip(ToJson(d));
    DecodeBase64Text(ToJson(d));
  }

  /** Feeding the token to the decoder without percent-decoding it fails once base64 used `+`, `/` or `=`. */
  lemma UndecodedTokenRejected(data: Json.Json, k: nat)
    requires Json.Latin1Json(data)
    requires k < |Base64Text(data)| && Base64Text(data)[k] in {'+', '/', '='}
    ensures DecodeShareData(ShareToken(data).value) == Failure(InvalidShareData)
  {
    var b64 := Base64Text(data);
    assert !UriEncoding.IsUnescaped(b64[k]);
    UriEncoding.EscapedHasPercent(b64, k);
    AtobRejectsPercent(ShareToken(data).value);
  }

  /** `%` is neither a base64 character, nor whitespace, nor padding. */
  lemma AtobRejectsPercent(t: string)
    requires '%' in t
    ensures DecodeShareData(t) == Failure(InvalidShareData)
  {
    var i :| 0 <= i < |t| && t[i] == '%';
    assert !Base64.InAlphabet(t[i]) && !Base64.IsAsciiWhitespace(t[i]);
    assert Base64.Atob(t).Failure?;
  }

  /**
   * The decoder checks nothing but the symbol: a payload whose `result` is
   * overridden by any value at all (a later duplicate key wins in JSON.parse)
   * still decodes, to that same object.
   */
  lemma DecodeIgnoresResult(data: Json.Json, v: Json.Value)
    requires data.Object? && Json.Latin1Json(data) && ValidSymbol(data) && Json.Latin1Value(v)
    ensures var other := Json.Object(data.members + [Json.Member("result", v)]);
      Json.Latin1Json(other) && Json.Get(other.members, "result") == Some(v)
      && DecodeShareData(Base64Text(other)) == Success(other)
  {
    var ms := data.members + [Json.Member("result", v)];
    assert ms[..|ms| - 1] == data.members;
    assert Json.Get(ms, "playerSymbol") == Json.Get(data.members, "playerSymbol");
    assert forall i :: 0 <= i < |ms| ==> Json.Latin1Member(ms[i]) by {
      forall i | 0 <= i < |ms| ensures Json.Latin1Member(ms[i]) {
        if i < |data.members| {
          assert ms[i] == data.members[i];
        }
      }
    }
    DecodeBase64Text(Json.Object(ms));
  }

  // ---------------------------------------------------------------------
  // The text shareToFarcaster posts with the link

  const Header: string := "\U{1F3AE} ZeroX Party Mode!\n\n"
  const VsPrefix: string := "\U{1F19A} vs "
  const PlayedAs: string := "\n\U{26A1} Played as: "
  const Footer: string := "\n\n\U{1F3AF} Join the fun:"

  /** The headline for each outcome: one line, and a different one per outcome. */
  function ResultText(o: Outcome): (t: string)
    ensures t == "\U{1F3C6} Victory!" <==> o == Won
    ensures t == "\U{1F614} Good Game!" <==> o == Lost
    ensures t == "\U{1F91D} Draw!" <==> o == Draw
    ensures '\n' !in t
  {
    match o
    case Won => "\U{1F3C6} Victory!"
    case Lost => "\U{1F614} Good Game!"
    case Draw => "\U{1F91D} Draw!"
  }

  /** The opponent a share text names: an absent or empty name is shown as no one. */
  function ShownOpponent(name: Option<string>): Option<string> {
    if name.Some? && name.value != "" then name else None
  }

  function OpponentLine(name: Option<string>): string {
    if name.Some? && name.value != "" then VsPrefix + "@" + name.value else VsPrefix + "Anonymous"
  }

  /**
   * The cast text: headline, opponent line, the player's symbol, and the call
   * to join. It carries the outcome, the opponent it names and the player's
   * symbol, all recoverable by `ReadShareText`.
   */
  function ShareText(d: GameShareData): (t: string)
    ensures ReadShareText(t) == Some((d.result, ShownOpponent(d.opponentName), d.playerSymbol))
  {
    var middle := OpponentLine(d.opponentName) + PlayedAs + SymbolText(d.playerSymbol);
    ReadComposedText(d.result, d.opponentName, d.playerSymbol);
    Header + (ResultText(d.result) + "\n" + (middle + Footer))
  }

  // A reader for share texts, defined independently of `ShareText`.

  /** What follows prefix `p` in `s`. */
  function After(s: string, p: string): (r: Option<string>)
    ensures r.Some? <==> |p| <= |s| && s[..|p|] == p
    ensures r.Some? ==> s == p + r.value
  {
    if |p| <= |s| && s[..|p|] == p then Some(s[|p|..]) else None
  }

  /** What precedes suffix `p` in `s`. */
  function Before(s: string, p: string): (r: Option<string>)
    ensures r.Some? <==> |p| <= |s| && s[|s| - |p|..] == p
    ensures r.Some? ==> s == r.value + p
  {
    if |p| <= |s| && s[|s| - |p|..] == p then Some(s[..|s| - |p|]) else None
  }

  /** The headline and the line break after it, recognised by its first character. */
  function ReadHeadline(s: string): Option<(Outcome, string)> {
    if |s| == 0 then None
    else if s[0] == '\U{1F3C6}' then var rest :- After(s, ResultText(Won) + "\n"); Some((Won, rest))
    else if s[0] == '\U{1F614}' then var rest :- After(s, ResultText(Lost) + "\n"); Some((Lost, rest))
    else if s[0] == '\U{1F91D}' then var rest :- After(s, ResultText(Draw) + "\n"); Some((Draw, rest))
    else None
  }

  function ReadOpponent(line: string): Option<Option<string>> {
    if line == VsPrefix + "Anonymous" then Some(None)
    else
      var name :- After(line, VsPrefix + "@");
      if name == "" then None else Some(Some(name))
  }

  function SymbolOfChar(c: char): Option<Symbol> {
    if c == 'X' then Some(X) else if c == 'O' then Some(O) else None
  }

  /** The outcome, the opponent shown and the player's symbol, read from a share text. */
  function ReadShareText(t: string): Option<(Outcome, Option<string>, Symbol)> {
    var body :- After(t, Header);
    var headline :- ReadHeadline(body);
    var middle :- Before(headline.1, Footer);
    if |middle| == 0 then None
    else
      var symbol :- SymbolOfChar(middle[|middle| - 1]);
      var line :- Before(middle[..|middle| - 1], PlayedAs);
      var opponent :- ReadOpponent(line);
      Some((headline.0, opponent, symbol))
  }

  lemma AfterConcat(p: string, s: string)
    ensures After(p + s, p) == Some(s)
  {
    assert (p + s)[..|p|] == p;
    assert (p + s)[|p|..] == s;
  }

  lemma BeforeConcat(s: string, p: string)
    ensures Before(s + p, p) == Some(s)
  {
    assert (s + p)[|s|..] == p;
    assert (s + p)[..|s|] == s;
  }

  lemma ReadHeadlineOf(o: Outcome, rest: string)
    ensures ReadHeadline(ResultText(o) + "\n" + rest) == Some((o, rest))
  {
    AfterConcat(ResultText(o) + "\n", rest);
    assert (ResultText(o) + "\n" + rest)[0] == ResultText(o)[0];
  }

  lemma ReadOpponentOf(name: Option<string>)
    ensures ReadOpponent(OpponentLine(name)) == Some(ShownOpponent(name))
  {
    if name.Some? && name.value != "" {
      AfterConcat(VsPrefix + "@", name.value);
      var line := VsPrefix + "@" + name.value;
      assert line[|VsPrefix|] == '@';
      assert line != VsPrefix + "Anonymous" by {
        assert (VsPrefix + "Anonymous")[|VsPrefix|] == 'A';
      }
    }
  }

  /** The text `ShareText` composes reads back as its three parts. */
  lemma ReadComposedText(o: Outcome, name: Option<string>, symbol: Symbol)
    ensures var middle := OpponentLine(name) + PlayedAs + SymbolText(symbol);
      ReadShareText(Header + (ResultText(o) + "\n" + (middle + Footer))) == Some((o, ShownOpponent(name), symbol))
  {
    var line := OpponentLine(name);
    var sym := SymbolText(symbol);
    var middle := line + PlayedAs + sym;
    var rest := middle + Footer;
    var body := ResultText(o) + "\n" + rest;
    AfterConcat(Header, body);
    ReadHeadlineOf(o, rest);
    BeforeConcat(middle, Footer);
    assert middle[|middle| - 1] == sym[0];
    assert middle[..|middle| - 1] == line + PlayedAs;
    BeforeConcat(line, PlayedAs);
    ReadOpponentOf(name);
    ReadShareTextSteps(Header + body, body, o, rest, middle, symbol, line, ShownOpponent(name));
  }

  /** `ReadShareText` in terms of its steps. */
  lemma ReadShareTextSteps(t: string, body: string, o: Outcome, rest: string, middle: string,
                           symbol: Symbol, line: string, opponent: Option<string>)
    requires After(t, Header) == Some(body)
    requires ReadHeadline(body) == Some((o, rest))
    requires Before(rest, Footer) == Some(middle)
    requires |middle| > 0 && SymbolOfChar(middle[|middle| - 1]) == Some(symbol)
    requires Before(middle[..|middle| - 1], PlayedAs) == Some(line)
    requires ReadOpponent(line) == Some(opponent)
    ensures ReadShareText(t) == Some((o, opponent, symbol))
  {
  }
}
