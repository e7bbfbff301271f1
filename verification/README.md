# Share-link codec of the ZeroX tic-tac-toe app

The app lets a player share a finished game. `generateShareUrl` turns the game
record (`GameShareData`: optional player and opponent names and avatars, the
player's symbol `X`/`O`, the result `won`/`lost`/`draw`, the room code and a
timestamp) into a link `<base>/share?data=<token>`, where the token is
`encodeURIComponent(btoa(JSON.stringify(record)))`. `decodeShareData` reverses
the base64 and JSON steps and checks only the player symbol. The Open Graph
route `GET /api/og` reads the `data` query parameter, decodes it and draws a
1200×630 result card; every failure becomes a plain 500 response.
`shareToFarcaster` also composes a fixed share text around the result.

This project models that codec as pure Dafny functions and proves how its
pieces fit together:

- `Text`, `Utf8`: code points, the Latin-1 ("binary string") test, UTF-8
  encoding and decoding.
- `Base64`: `btoa` as the padded base64 of RFC 4648 section 4 over Latin-1
  strings, and `atob` as the "forgiving-base64 decode" of the WHATWG Infra
  Standard, which the HTML Standard's `atob` calls (ASCII whitespace removed,
  padding checked, every other character rejected with
  `InvalidCharacterError`).
- `UriEncoding`: `encodeURIComponent`, and the
  `application/x-www-form-urlencoded` query parser behind
  `URLSearchParams.get` (split on `&`, split at the first `=`, `+` to space,
  percent-decoding, UTF-8 decoding, the first pair with the name wins).
- `Json`: `JSON.stringify` and `JSON.parse` for flat JSON (scalars and objects
  whose members are scalars); property reads are last-wins as in `JSON.parse`,
  and reading a property of `null` is a `TypeError`.
- `ShareData`: the record, its JSON form with absent optional fields left out,
  `decodeShareData`, `generateShareUrl` and the share text.
- `OgRoute`: the decisions of `GET`: missing or empty `data`, decode failure,
  the result headline, the name placeholders, the opponent's symbol, and the
  image size.

Where the code and its description disagree, the model follows the code:

- The decoder does not percent-decode its argument. The route receives the
  token already percent-decoded by `URLSearchParams`. A token passed to the
  decoder still percent-encoded is rejected whenever it contains `%`. That is
  the case exactly when the base64 text holds `+`, `/` or `=`
  (`ShareData.UndecodedTokenRejected`).
- Only `playerSymbol` is validated. A missing symbol is rejected. Any `result`
  value, even a number, is accepted (`ShareData.DecodeIgnoresResult`). The
  route shows "Draw!" for every result other than `won` and `lost`.
- The decoder returns the parsed object unchanged, extra members included.
  The model keeps the parsed member list; every read (`Json.Get`) is
  last-wins, as `JSON.parse` resolves duplicate keys.
- `btoa` throws for any character above U+00FF. A name with an emoji makes
  `generateShareUrl` fail, so the round trip holds only for Latin-1 records
  (`ShareData.RecordRoundTrip`).
- The route reads `moves` and `timeElapsed`. `GameShareData` has neither
  field, and a record's JSON form never contains them (`OgRoute.StatsAbsent`),
  so the card's statistics are blank for every link made from a value with
  only `GameShareData`'s fields.

## Model

| member | source | states |
|---|---|---|
| Base64.Btoa | lib/farcaster-share.ts:30 | `btoa` succeeds exactly on Latin-1 strings and otherwise fails with `InvalidCharacterError`; its output has length 4·⌈n/3⌉ and holds only alphabet characters and `=` |
| Base64.Encode | lib/farcaster-share.ts:30 | base64 of n bytes has 4·⌈n/3⌉ characters, all from the alphabet except `=` in the last two places |
| Base64.EncodeSplitsAtPadding | lib/farcaster-share.ts:30 | padded base64 is the unpadded text followed by `==`, `=` or nothing according to n mod 3 |
| Base64.Atob | lib/farcaster-share.ts:17 | `atob` yields a Latin-1 string, fails only with `InvalidCharacterError`, and fails whenever a character is neither alphabet, ASCII whitespace nor `=` |
| Base64.StripWhitespace | lib/farcaster-share.ts:17 | the forgiving decoder's whitespace removal leaves no whitespace, keeps only characters of the input and every non-whitespace one, and is the identity on text without whitespace (so a single character is dropped exactly when it is whitespace) |
| Base64.StripWhitespaceConcat | lib/farcaster-share.ts:17 | whitespace removal distributes over concatenation; with the single-character cases it keeps every non-whitespace character in order and as often as it occurs |
| Base64.DecodeUnpadded | lib/farcaster-share.ts:17 | decoding the sextets of unpadded base64 gives back the bytes |
| Base64.AtobBtoa | lib/farcaster-share.ts:17 | `atob(btoa(s)) == s` for every Latin-1 string |
| Utf8.DecodeEncode | app/api/og/route.tsx:100-101 | decoding the UTF-8 encoding of any string gives back the string |
| Utf8.EncodeChar | app/api/og/route.tsx:100-101 | a code point encodes to 1–4 bytes, one byte exactly for ASCII, with continuation bytes in 0x80–0xBF |
| UriEncoding.EncodeUriComponent | lib/farcaster-share.ts:30 | `encodeURIComponent` output is at least as long as its input and contains only letters, digits, `-_.!~*'()` and `%` |
| UriEncoding.EscapedHasPercent | lib/farcaster-share.ts:30 | a string with any character other than letters, digits and `-_.!~*'()` encodes to text containing `%` |
| UriEncoding.EncodedHasNoSeparator | lib/farcaster-share.ts:31 | an encoded component contains no `&`, `=` or `+`, so it stays one query value |
| UriEncoding.DecodeEncodeComponent | app/api/og/route.tsx:100-101 | form-urlencoded decoding undoes `encodeURIComponent` for every string |
| UriEncoding.JoinSegments | app/api/og/route.tsx:100-101 | splitting a query at `&` loses nothing: joining the pieces restores it |
| UriEncoding.SplitPair | app/api/og/route.tsx:100-101 | a query piece splits at its first `=`; a piece with no `=` has an empty value |
| UriEncoding.ReplacePlus | app/api/og/route.tsx:100-101 | the form parser's `+`-to-space step keeps the length, leaves no `+`, and changes nothing in text without `+` |
| UriEncoding.SearchParam | app/api/og/route.tsx:100-101 | `searchParams.get` gives the decoded value of the first non-empty `&`-piece whose decoded name matches, and nothing exactly when no such piece has the name |
| UriEncoding.Lookup | app/api/og/route.tsx:101 | `searchParams.get` returns the value of the first pair with the name, and nothing exactly when no pair has it |
| UriEncoding.SearchParamOfEncoded | app/api/og/route.tsx:101 | the query `name=encodeURIComponent(v)` yields `v` for `name` |
| Json.EscapeChar | lib/farcaster-share.ts:30 | `JSON.stringify` escapes exactly the quote, the backslash and control characters, and every escape is ASCII starting with a backslash |
| Json.NatText | lib/farcaster-share.ts:30 | a number is printed as decimal digits with no leading zero |
| Json.ParseEscaped | lib/farcaster-share.ts:17 | the string parser reads back any escaped string and stops after its closing quote |
| Json.ParseIntText | lib/farcaster-share.ts:17 | the number parser reads back any printed integer and stops before the next non-digit |
| Json.ParseMembersText | lib/farcaster-share.ts:17 | the member parser reads back any printed non-empty member list |
| Json.Stringify | lib/farcaster-share.ts:30 | the JSON text is Latin-1 exactly when every key and string in the value is |
| Json.ParseStringify | lib/farcaster-share.ts:17 | `JSON.parse(JSON.stringify(j)) == j` for every flat value; this is what the parser `Json.Parse` is held to |
| Json.Get | lib/farcaster-share.ts:19 | reading a property returns the last member with that key, and nothing exactly when no member has it |
| Json.Property | lib/farcaster-share.ts:19 | reading a property fails exactly on `null`; on an object it is the last-wins lookup |
| ShareData.PresentSound | lib/farcaster-share.ts:4-13 | every member of the JSON form comes from a field of the record that is present |
| ShareData.PresentComplete | lib/farcaster-share.ts:4-13 | every present field of the record appears as a member of the JSON form |
| ShareData.GetPresent | lib/farcaster-share.ts:4-13 | reading a field's key from the JSON form gives the field's value, or nothing when the optional field is absent |
| ShareData.FieldsDistinct | lib/farcaster-share.ts:4-13 | the eight fields of a record have distinct keys |
| ShareData.ToJson | lib/farcaster-share.ts:4-13 | reading a record's JSON form back gives the record, and the form is Latin-1 exactly when all its names, avatars and room code are |
| ShareData.SymbolOf | lib/farcaster-share.ts:9 | a symbol is read only from the strings `X` and `O` |
| ShareData.OutcomeOf | lib/farcaster-share.ts:10 | a result is read only from the strings `won`, `lost` and `draw` |
| ShareData.FromJson | lib/farcaster-share.ts:4-13 | a record is read only from an object whose `playerSymbol` and `result` are the record's |
| ShareData.ValidSymbol | lib/farcaster-share.ts:19 | the symbol check passes exactly when reading `playerSymbol` gives the string `X` or `O`; reading it from `null` throws and a scalar has no such property, so both fail |
| ShareData.ParseShareData | lib/farcaster-share.ts:17-22 | the inner decoding step fails with `InvalidCharacterError` when `atob` does, with a `SyntaxError` on malformed JSON, with a `TypeError` on `null`, and otherwise returns the parsed value exactly when it is an object whose last `playerSymbol` is `X` or `O`, failing with `Invalid player symbol` when not |
| ShareData.DecodeShareData | lib/farcaster-share.ts:15-26 | every failure is `Invalid share data`; success holds exactly when `atob`, `JSON.parse` and the symbol check all pass, and the value is the parsed object unchanged |
| ShareData.Base64Text | lib/farcaster-share.ts:30 | for a Latin-1 value, `btoa` of its JSON text succeeds and has length 4·⌈n/3⌉ |
| ShareData.ShareToken | lib/farcaster-share.ts:30 | the token exists exactly when the JSON text is Latin-1; otherwise `InvalidCharacterError` |
| ShareData.GenerateShareUrl | lib/farcaster-share.ts:28-32 | the link exists exactly when the JSON text is Latin-1; otherwise `InvalidCharacterError` |
| ShareData.TokenOfBase64 | lib/farcaster-share.ts:30 | the token of a base64 text consists of letters, digits, `%2B`, `%2F` and `%3D` |
| ShareData.ShareUrlShape | lib/farcaster-share.ts:30-31 | the link is `<base>/share?data=<token>` with a well-formed token |
| ShareData.TokenQueryRoundTrip | app/api/og/route.tsx:100-101 | the route's query parser reads the base64 text back out of `data=<token>` |
| ShareData.DecodeBase64Text | lib/farcaster-share.ts:15-26 | decoding the base64 of a value's JSON text gives the value when its symbol is valid and `Invalid share data` otherwise |
| ShareData.RecordRoundTrip | lib/farcaster-share.ts:15-32 | for a Latin-1 record, link token → query parser → decoder gives back the record's JSON form, which reads back as the record |
| ShareData.AtobRejectsPercent | lib/farcaster-share.ts:15-26 | the decoder rejects any text containing `%` |
| ShareData.UndecodedTokenRejected | lib/farcaster-share.ts:15-30 | a token still percent-encoded is rejected whenever the base64 text holds `+`, `/` or `=` |
| ShareData.DecodeIgnoresResult | lib/farcaster-share.ts:19-22 | appending any `result` member, of any type, to a valid object still decodes, and that member is the one read |
| ShareData.ResultText | lib/farcaster-share.ts:36-38 | the cast headline is Victory exactly for a win, Good Game exactly for a loss and Draw exactly for a draw, and it is one line |
| ShareData.ShareText | lib/farcaster-share.ts:40 | an independent reader recovers from the share text the result, the opponent shown (`@name`, or Anonymous for a missing or empty name) and the player's symbol |
| OgRoute.ShownOutcome | app/api/og/route.tsx:108-110 | the headline outcome is Won exactly for `won` and Lost exactly for `lost` |
| OgRoute.ResultText | app/api/og/route.tsx:108-110 | the headline is Victory exactly for `won`, Good Game exactly for `lost`, and Draw for every other value, missing ones included |
| OgRoute.ResultTextAgrees | app/api/og/route.tsx:108-110 | the route's headline for a record's result equals the one in the share text |
| OgRoute.Label | app/api/og/route.tsx:125-140 | a truthy name is shown as it is; a falsy or missing one becomes the placeholder |
| OgRoute.LabelTruthy | app/api/og/route.tsx:125-140 | with a non-empty placeholder the shown label is always truthy |
| OgRoute.OpponentSymbol | app/api/og/route.tsx:148 | the opponent's symbol is `X` or `O`, and it is `O` exactly when the player's is `X` |
| OgRoute.CardOfProperties | app/api/og/route.tsx:122-160 | both symbols on the card are `X` or `O`, and they differ |
| OgRoute.Render | app/api/og/route.tsx:122-160 | a decoded share object gives a card whose two symbols differ |
| OgRoute.Failed | app/api/og/route.tsx:186-190 | every error becomes a plain response with status 500 |
| OgRoute.Get | app/api/og/route.tsx:98-192 | the response is a 1200×630 image exactly when `data` is present, non-empty and decodes; a missing or empty `data` gives `No share data provided`, any other failure `Invalid share data`, both with status 500 |
| OgRoute.RenderToJson | app/api/og/route.tsx:122-160 | the card for a record's JSON form shows the names (or placeholders), both symbols, the headline and the room code of the record |
| OgRoute.StatsAbsent | app/api/og/route.tsx:158-159 | a record's JSON form has no `moves` and no `timeElapsed` member |
| OgRoute.DecodedNonEmpty | app/api/og/route.tsx:103-107 | a `data` value that decodes is never empty, so the missing-data check lets every decodable link through |
| OgRoute.GetOfDecodable | app/api/og/route.tsx:98-166 | a query whose `data` decodes gives the image of that object's card |
| OgRoute.GetOfShareLink | app/api/og/route.tsx:98-166 | for a Latin-1 record, requesting the image with the app's own link token gives the 1200×630 card of that record |

## Left out

- `shareToFarcaster`'s SDK call, the clipboard fallback and the rethrow
  (lib/farcaster-share.ts:42-66): these are side effects of external services;
  only the share text it builds is modelled.
- The base URL (lib/farcaster-share.ts:29) comes from the environment or the
  window; it is a parameter of `ShareData.GenerateShareUrl`.
- The route's JSX, styles, fonts, logo and cache header
  (app/api/og/route.tsx:1-96, 112-185): rendering is modelled as a `Card`
  record holding the values shown, not as pixels.
- `console.error` calls are left out as logging.
- OgRoute.Get: takes the query component of the request URL; parsing the rest
  of the URL (scheme, host, path, fragment) is left out.
- Json.Parse: accepts flat JSON only. Nested objects, arrays, fractions,
  exponents and lone-surrogate `\u` escapes are rejected, although
  `JSON.parse` accepts them. A Dafny `char` cannot hold a lone surrogate.
- Json.IntText: numbers are unbounded integers. JavaScript's double
  precision, its exponent form for large magnitudes and non-integer
  timestamps are not modelled.
- ShareData.ToJson: a record has exactly the interface's eight fields. A
  caller may pass a runtime object with extra properties (such as `moves` or
  `timeElapsed`), which `JSON.stringify` would also write; such objects are
  not modelled. Members are written in the interface's field order.
  `JSON.stringify` follows the insertion order of the caller's object.
- OgRoute.Render: the card holds the values the route interpolates. How
  React turns `undefined`, numbers or booleans into text is not modelled.
- ShareData.DecodeShareData: the thrown `Error` is modelled by its message;
  the discarded inner error (`Invalid player symbol`, a syntax error or
  `InvalidCharacterError`) shows only in `ShareData.ParseShareData`.
