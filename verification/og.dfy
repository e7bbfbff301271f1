/**
 * The decisions `GET` in app/api/og/route.tsx makes between the request and
 * the picture: the missing-parameter error, decoding, the headline, the name
 * placeholders, the opponent's symbol, and the 500 response for any failure.
 */
module OgRoute {
  import opened Wrappers
  import opened Errors
  import UriEncoding
  import Json
  import ShareData

  /** What the card shows; the values are the decoded properties, rendered as JSX renders them. */
  datatype Card = Card(
    playerLabel: Json.Value,
    playerSymbol: string,
    opponentLabel: Json.Value,
    opponentSymbol: string,
    resultText: string,
    moves: Option<Json.Value>,
    timeElapsed: Option<Json.Value>,
    roomCode: Option<Json.Value>)

  /** An `ImageResponse` of the given size, or a plain response with a status and a body. */
  datatype Response = Image(width: nat, height: nat, card: Card) | Plain(status: nat, body: string)

  const Width: nat := 1200
  const Height: nat := 630

  /** The outcome a decoded `result` value is shown as: only "won" and "lost" are recognised. */
  function ShownOutcome(result: Option<Json.Value>): (o: ShareData.Outcome)
    ensures o == ShareData.Won <==> result == Some(Json.Str("won"))
    ensures o == ShareData.Lost <==> result == Some(Json.Str("lost"))
  {
    if result == Some(Json.Str("won")) then ShareData.Won
    else if result == Some(Json.Str("lost")) then ShareData.Lost
    else ShareData.Draw
  }

  /** The headline for a decoded `result`: exactly one of three, Draw for anything unrecognised. */
  function ResultText(result: Option<Json.Value>): (t: string)
    ensures t == ShareData.ResultText(ShareData.Won) <==> result == Some(Json.Str("won"))
    ensures t == ShareData.ResultText(ShareData.Lost) <==> result == Some(Json.Str("lost"))
    ensures t == ShareData.ResultText(ShareData.Draw) <==>
      result != Some(Json.Str("won")) && result != Some(Json.Str("lost"))
  {
    var o := ShownOutcome(result);
    assert ShareData.ResultText(ShareData.Won)[0] != ShareData.ResultText(ShareData.Lost)[0];
    assert ShareData.ResultText(ShareData.Won)[0] != ShareData.ResultText(ShareData.Draw)[0];
    assert ShareData.ResultText(ShareData.Lost)[0] != ShareData.ResultText(ShareData.Draw)[0];
    ShareData.ResultText(o)
  }

  /** `value || placeholder`: a falsy or absent property shows the placeholder. */
  function Label(value: Option<Json.Value>, placeholder: string): (v: Json.Value)
    ensures Json.Truthy(value) ==> Some(v) == value
    ensures !Json.Truthy(value) ==> v == Json.Str(placeholder)
  {
    if Json.Truthy(value) then value.value else Json.Str(placeholder)
  }

  /** `playerSymbol === 'X' ? 'O' : 'X'` */
  function OpponentSymbol(playerSymbol: Option<Json.Value>): (s: string)
    ensures s in {"X", "O"}
    ensures playerSymbol == Some(Json.Str("X")) <==> s == "O"
  {
    if playerSymbol == Some(Json.Str("X")) then "O" else "X"
  }

  /** The card drawn from the properties the JSX reads. */
  function CardOfProperties(
    playerName: Option<Json.Value>, playerSymbol: Option<Json.Value>, opponentName: Option<Json.Value>,
    result: Option<Json.Value>, moves: Option<Json.Value>, timeElapsed: Option<Json.Value>,
    roomCode: Option<Json.Value>): (c: Card)
    requires playerSymbol in {Some(Json.Str("X")), Some(Json.Str("O"))}
    ensures c.playerSymbol in {"X", "O"} && c.opponentSymbol in {"X", "O"}
    ensures c.opponentSymbol != c.playerSymbol
  {
    Card(
      Label(playerName, "Player"),
      playerSymbol.value.s,
      Label(opponentName, "Opponent"),
      OpponentSymbol(playerSymbol),
      ResultText(result),
      moves,
      timeElapsed,
      roomCode)
  }

  /** The card for a decoded value; decoding guarantees an object with a valid symbol. */
  function Render(data: Json.Json): (c: Card)
    requires ShareData.ValidSymbol(data)
    ensures c.opponentSymbol != c.playerSymbol
  {
    var ms := data.members;
    CardOfProperties(
      Json.Get(ms, "playerName"), Json.Get(ms, "playerSymbol"), Json.Get(ms, "opponentName"),
      Json.Get(ms, "result"), Json.Get(ms, "moves"), Json.Get(ms, "timeElapsed"), Json.Get(ms, "roomCode"))
  }

  /** The `catch` block: status 500 and the thrown message after a fixed prefix. */
  function Failed(e: Exception): (r: Response)
    ensures r.Plain? && r.status == 500
  {
    Plain(500, "Failed to generate the image: " + e.message)
  }

  const NoShareData: Response := Failed(PlainError("No share data provided"))
  const InvalidShareData: Response := Failed(ShareData.InvalidShareData)

  /**
   * `GET`, from the request URL's query component: an image exactly when the
   * `data` parameter is present, non-empty and decodes; otherwise one of two
   * 500 responses.
   */
  function Get(query: string): (r: Response)
    ensures r.Image? ==> r.width == Width && r.height == Height
    ensures r.Plain? ==> r.status == 500
    ensures r == NoShareData <==>
      UriEncoding.SearchParam(query, "data") in {None, Some("")}
    ensures r.Image? <==>
      var p := UriEncoding.SearchParam(query, "data");
      p.Some? && p.value != "" && ShareData.DecodeShareData(p.value).Success?
    ensures r.Plain? && r != NoShareData ==> r == InvalidShareData
    ensures r.Image? ==> r.card.opponentSymbol != r.card.playerSymbol
  {
    var data := UriEncoding.SearchParam(query, "data");
    if data.None? || data.value == "" then Failed(PlainError("No share data provided"))
    else
      match ShareData.DecodeShareData(data.value)
      case Failure(e) => Failed(e)
      case Success(shareData) => Image(Width, Height, Render(shareData))
  }

  /** The route's headline agrees with the cast text's for every typed outcome. */
  lemma ResultTextAgrees(o: ShareData.Outcome)
    ensures ResultText(Some(Json.Str(ShareData.OutcomeText(o)))) == ShareData.ResultText(o)
  {
  }

  /** A label never shows as falsy: it is the truthy value or the (non-empty) placeholder. */
  lemma LabelTruthy(value: Option<Json.Value>, placeholder: string)
    requires placeholder != ""
    ensures Json.Truthy(Some(Label(value, placeholder)))
  {
  }

  /** What a name looks like on the card: the name itself, or the placeholder when absent or empty. */
  function NameShown(name: Option<string>, placeholder: string): Json.Value {
    if name.Some? && name.value != "" then Json.Str(name.value) else Json.Str(placeholder)
  }

  /** The card the route draws for a record, read off the record's fields. */
  function CardOf(d: ShareData.GameShareData): Card {
    Card(
      NameShown(d.playerName, "Player"),
      ShareData.SymbolText(d.playerSymbol),
      NameShown(d.opponentName, "Opponent"),
      ShareData.SymbolText(if d.playerSymbol == ShareData.X then ShareData.O else ShareData.X),
      ShareData.ResultText(d.result),
      None,
      None,
      Some(Json.Str(d.roomCode)))
  }

  lemma CardOfRecordProperties(d: ShareData.GameShareData)
    ensures CardOfProperties(
      ShareData.OptionalText(d.playerName), Some(Json.Str(ShareData.SymbolText(d.playerSymbol))),
      ShareData.OptionalText(d.opponentName), Some(Json.Str(ShareData.OutcomeText(d.result))),
      None, None, Some(Json.Str(d.roomCode))) == CardOf(d)
  {
    ResultTextAgrees(d.result);
  }

  lemma RenderToJson(d: ShareData.GameShareData)
    ensures ShareData.ValidSymbol(ShareData.ToJson(d))
    ensures Render(ShareData.ToJson(d)) == CardOf(d)
  {
    var fs := ShareData.Fields(d);
    ShareData.FieldsDistinct(d);
    ShareData.GetPresent(fs, 0);
    ShareData.GetPresent(fs, 2);
    ShareData.GetPresent(fs, 4);
    ShareData.GetPresent(fs, 5);
    ShareData.GetPresent(fs, 6);
    StatsAbsent(d);
    CardOfRecordProperties(d);
  }

  /** The record has no `moves` or `timeElapsed`, so the card's statistics show nothing for them. */
  lemma StatsAbsent(d: ShareData.GameShareData)
    ensures Json.Get(ShareData.ToJson(d).members, "moves") == None
    ensures Json.Get(ShareData.ToJson(d).members, "timeElapsed") == None
  {
    var fs := ShareData.Fields(d);
    ShareData.GetAbsent(fs, "moves");
    ShareData.GetAbsent(fs, "timeElapsed");
  }

  /**
   * A link built from a record with binary strings renders that record's card
   * at 1200 by 630; `moves` and `timeElapsed` are not in the record and so show
   * as absent.
   */
  lemma GetOfShareLink(d: ShareData.GameShareData)
    requires ShareData.Latin1Record(d)
    ensures ShareData.ShareToken(ShareData.ToJson(d)).Success?
    ensures Get("data=" + ShareData.ShareToken(ShareData.ToJson(d)).value) == Image(Width, Height, CardOf(d))
  {
    var data := ShareData.ToJson(d);
    ShareData.RecordRoundTrip(d);
    RenderToJson(d);
    var query := "data=" + ShareData.ShareToken(data).value;
    var b64 := UriEncoding.SearchParam(query, "data").value;
    DecodedNonEmpty(b64, data);
    GetOfDecodable(query, b64, data);
  }

  /** Only a non-empty parameter decodes: the empty text is not JSON. */
  lemma DecodedNonEmpty(b64: string, data: Json.Json)
    requires ShareData.DecodeShareData(b64) == Success(data)
    ensures b64 != ""
  {
    assert ShareData.DecodeShareData(b64).Success?;
  }

  /** A query whose `data` parameter decodes is answered with the decoded value's card. */
  lemma GetOfDecodable(query: string, b64: string, data: Json.Json)
    requires UriEncoding.SearchParam(query, "data") == Some(b64) && b64 != ""
    requires ShareData.DecodeShareData(b64) == Success(data)
    ensures Get(query) == Image(Width, Height, Render(data))
  {
  }
}
