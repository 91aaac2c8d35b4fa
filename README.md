# wec: Wikipedia recent changes into InfluxDB, modelled in Dafny

`server.js` listens to the Wikimedia recent-changes stream. For every `change`
event it switches on the event's `type`:

- `edit` and `new` become an edit point;
- `log` becomes a log point;
- `categorize` becomes a generic point;
- any other type is dropped.

Each point is written at once as a one-point batch. Every point has
measurement `"event"`. A text value is stored as `"${encodeURI(x)}"`, that is,
percent-encoded and wrapped in double quotes. A numeric value is stored as
`Math.round(x)`.

The model is made of pure functions, like the code it models:

- `js_math.dfy` (`JsMath`): `Math.round` over exact reals.
- `uri_encoding.dfy` (`UriEncoding`): `encodeURI` as defined in section 15.1.3.3
  of ECMA-262 5.1, with its UTF-8 and percent-escape steps. Its partner is a
  decoder, and the round trip `Decode(EncodeURI(s)) == Some(s)` is proved.
- `recent_change.dfy` (`RecentChange`): the fields of a recent-change event
  that the handler reads.
- `influx_point.dfy` (`InfluxPoint`): points, tag and field keys, the schema
  declared when the client is constructed, and the two value conversions.
- `point_mappers.dfy` (`PointMappers`): `editPoint`, `eventPoint` and
  `logPoint`.
  - `Convert` applies the value conversions to a change.
  - `EditPointOf`, `EventPointOf` and `LogPointOf` are the three object
    literals over the converted values.
  - `EditPoint`, `EventPoint` and `LogPoint` are the builders.
- `change_handler.dfy` (`ChangeHandler`): the `change` switch, as the batch it
  hands to `writePoints`, and the sequence of writes for a stream of changes.

Two points about what the code does, as opposed to what it might be taken
to do:

- `batchSize` (server.js:12) suggests batching, but nothing reads it: each
  handled event calls `writePoints([point], …)` at once. `Writes` therefore
  produces one single-point batch per recognised change, with nothing merged
  or held back.
- `encodeURI` leaves `,` and the other uriReserved characters (`;`, `/`, `?`,
  `:`, `@`, `&`, `=`, `+`, `$`) unchanged, and `#` too. It does escape every
  double quote, space and control character (`InfluxPoint.TextValueSafe`).

## Model

| member | source | states |
|---|---|---|
| JsMath.Round | server.js:102 | `Math.round(x)` is the integer n with n − 0.5 ≤ x < n + 0.5, so a tie goes up |
| JsMath.RoundUnique | server.js:102 | that bound determines the result: no other integer satisfies it |
| JsMath.RoundOfInteger | server.js:102 | an integral input is returned unchanged |
| JsMath.RoundMonotone | server.js:102 | a larger input never rounds to a smaller integer |
| JsMath.RoundExamples | server.js:110 | 42.6 → 43, 2.5 → 3, −2.5 → −2, −2.6 → −3 |
| UriEncoding.EncodeURI | server.js:95 | encodeURI(s): each character of s in turn, copied when unescaped and otherwise written as the %XY escapes of its UTF-8 bytes; what it guarantees is stated by the lemmas in the rows below |
| UriEncoding.EncodeCharShape | server.js:95 | an unescaped character is copied; any other becomes escapes that start with "%", 3 to 12 characters long; only unescaped characters and "%" are emitted |
| UriEncoding.EncodeEmitsOnly | server.js:95 | encodeURI's output contains only unescaped characters and "%" |
| UriEncoding.EncodeKeepsUnescaped | server.js:95 | text made only of unescaped characters is returned unchanged |
| UriEncoding.EncodeLength | server.js:95 | the output is at least as long as the input and at most 12 times as long |
| UriEncoding.EncodedHasNoQuoteOrSpace | server.js:95 | no double quote and no space appears in the output |
| UriEncoding.DecodeUtf8Escapes | server.js:95 | the escaped UTF-8 bytes of any scalar value decode back to that value, whatever follows them |
| UriEncoding.DecodeEscapedChar | server.js:95 | an escaped character decodes back to itself and consumes exactly its escapes |
| UriEncoding.DecodeEncode | server.js:95 | decoding encodeURI(s) gives back s |
| UriEncoding.EncodeInjective | server.js:95 | two different strings never encode alike |
| InfluxPoint.TextValue | server.js:95 | `"${encodeURI(s)}"` is always a text value |
| InfluxPoint.TextValueSafe | server.js:95 | the quoted value starts and ends with `"`, has no `"` or space inside, and inside holds only unescaped characters and "%" (so no newline or other control character) |
| InfluxPoint.TextValueDecodes | server.js:95 | the inside of the quoted value decodes back to the input |
| InfluxPoint.TextValueOfUnescaped | server.js:96 | a value made only of unescaped characters is only quoted |
| InfluxPoint.BoolTextValue | server.js:97 | a boolean is written as `"true"` or `"false"` |
| InfluxPoint.NumberValue | server.js:102 | a numeric value is an integer within one half of its input |
| InfluxPoint.NamesDistinct | server.js:26-49 | distinct tag keys, and distinct field keys, have distinct wire names |
| PointMappers.Convert | server.js:95-158 | each input converted as the literals use it: text and the three flags through `"${encodeURI(x)}"`, numbers through `Math.round`; its guarantees are ConvertIsWellConverted, SharedTexts and SharedNumbers |
| PointMappers.ConvertIsWellConverted | server.js:95-112 | every text input becomes safely quoted text, and every numeric input becomes an integer |
| PointMappers.EditPointOf | server.js:92-114 | the object literal of editPoint over converted values; its keys and values are stated by PointsOfKeys, PointsOfTexts, PointsOfNumbers and EditPointOfExtends |
| PointMappers.EventPointOf | server.js:119-135 | the object literal of eventPoint; stated by PointsOfKeys, PointsOfTexts and PointsOfNumbers |
| PointMappers.LogPointOf | server.js:140-160 | the object literal of logPoint; stated by PointsOfKeys, PointsOfTexts, PointsOfNumbers and LogPointOfExtends |
| PointMappers.EditPoint | server.js:91-93 | the edit point has measurement "event"; its values are tied to the inputs by SharedTexts, SharedTextsDecode, SharedNumbers, FlagTags and EditPointExtendsEventPoint |
| PointMappers.EventPoint | server.js:118-120 | the generic point has measurement "event"; its values are tied to the inputs by SharedTexts, SharedTextsDecode and SharedNumbers |
| PointMappers.LogPoint | server.js:139-141 | the log point has measurement "event"; its values are tied to the inputs by SharedTexts, SharedTextsDecode, SharedNumbers and LogPointExtendsEventPoint |
| PointMappers.PointsOfKeys | server.js:91-161 | for any converted values, each literal has exactly its own tag and field key sets |
| PointMappers.BuilderKeys | server.js:91-161 | edit writes tags user, type, bot, server_name, wiki, minor, patrolled and namespace_tag, and fields title, event_id, namespace, comment and the four length and revision fields; generic writes the six shared tags and four shared fields; log writes those plus log_type, log_action, log_id and log_action_comment |
| PointMappers.EventPointOfIsShared | server.js:118-136 | for any converted values, the generic literal's tags and fields are sub-maps of the edit and log literals' |
| PointMappers.EventPointIsShared | server.js:118-136 | the generic point's tags and fields are contained, value for value, in the edit point's and in the log point's |
| PointMappers.SharedTagsAgreeOf | server.js:94-103 | for any converted values, a tag that the edit and log literals both write has the same value in all three literals |
| PointMappers.SharedFieldsAgreeOf | server.js:104-113 | for any converted values, a field that the edit and log literals both write has the same value in all three literals |
| PointMappers.SharedKeysAgree | server.js:91-161 | on every key that the edit and log builders both write, all three builders write the same value |
| PointMappers.TypeTagOf | server.js:96 | every literal's type tag is the converted type |
| PointMappers.LogPointOfExtends | server.js:139-161 | for any converted values, the log literal is the generic literal plus log_type, log_action, log_id and log_action_comment |
| PointMappers.LogPointExtendsEventPoint | server.js:139-161 | the log point is the generic point plus exactly one tag (log_type) and three fields (log_action, log_id, log_action_comment), each converted from its input |
| PointMappers.EditPointOfExtends | server.js:91-115 | for any converted values, the edit literal is the generic literal plus minor, patrolled and the four length and revision fields |
| PointMappers.EditPointExtendsEventPoint | server.js:91-115 | the edit point is the generic point plus the minor and patrolled tags and four rounded length and revision fields |
| PointMappers.EditPointOfSafe | server.js:91-115 | well-converted values give an edit literal that is safely quoted and matches the schema |
| PointMappers.EventPointOfSafe | server.js:118-136 | the same for the generic literal |
| PointMappers.LogPointOfSafe | server.js:139-161 | the same for the log literal |
| PointMappers.MappedPointsAreSafe | server.js:23-51 | every point a builder returns has measurement "event", only safely quoted text, and integer fields exactly where the schema declares INTEGER |
| PointMappers.PointsOfNumbers | server.js:102 | for any converted values, namespace_tag equals the namespace field, and event_id is the converted id |
| PointMappers.PointsOfTexts | server.js:95-112 | for any converted values, every literal's user, type, bot, server_name, wiki, title and comment are the converted user, type, bot, server name, wiki, title and comment |
| PointMappers.SharedTexts | server.js:95-112 | in every builder, user, type, bot, server_name, wiki, title and comment are each `"${encodeURI(x)}"` of their own input (also server.js:122-133, 143-155) |
| PointMappers.SharedTextsDecode | server.js:95-112 | in every builder, the inside of user, server_name, wiki, title and comment decodes back to its own input |
| PointMappers.SharedNumbers | server.js:102 | in every builder, namespace_tag equals the namespace field, namespace is the namespace input rounded, and event_id is id rounded |
| PointMappers.CategoryNumbers | server.js:105-108 | post_length_old/new and revision_id_old/new are their inputs rounded, and so is log_id (server.js:157) |
| PointMappers.EventIdExample | server.js:110 | an id of 42.6 gives event_id 43 in all three builders |
| PointMappers.FlagTags | server.js:97-101 | bot, minor and patrolled are written as the quoted words true or false |
| ChangeHandler.Recognised | server.js:72-81 | the four case labels edit, new, log and categorize; every other type falls to the default branch |
| ChangeHandler.RecognisedTypesUnescaped | server.js:72-81 | the four handled type names pass through encodeURI unchanged |
| ChangeHandler.Handle | server.js:69-88 | one point for edit, new, log and categorize, none otherwise; each point has measurement "event" and the type tag `"` + type + `"` |
| ChangeHandler.Dispatch | server.js:71-87 | edit and new go to editPoint, log to logPoint, categorize to eventPoint, and anything else to nothing |
| ChangeHandler.HandledPointsAreSafe | server.js:69-88 | every point the handler writes is safely quoted and matches the schema |
| ChangeHandler.WritesFor | server.js:73-85 | one change causes one writePoints call when its type is recognised, and none otherwise |
| ChangeHandler.Writes | server.js:69-88 | a stream causes one single-point, measurement-"event" write per recognised change, and never more writes than changes |
| ChangeHandler.WritesOne | server.js:69-88 | a single change's writes are its batch when recognised, and nothing otherwise |
| ChangeHandler.WritesAppend | server.js:69-88 | the writes for a+b are the writes for a followed by those for b, so arrival order is kept |
| ChangeHandler.UnrecognisedIsDropped | server.js:84-86 | an unrecognised change can be removed from a stream without changing its writes |
| ChangeHandler.WritesOfRecognised | server.js:69-88 | when every change is recognised, the i-th write is exactly the batch for the i-th change |

## Left out

- The socket.io connection and the `subscribe` emit (server.js:16, 58-60) are I/O. The model takes each change as a value.
- The InfluxDB client is not modelled, nor what `writePoints` does with a batch. That covers:
  - constructing the client (server.js:19-52);
  - `createDatabase('wikipedia')` (server.js:55);
  - the delivery of `writePoints` and its `writeConfig` (server.js:62-66): retention policy, precision and database.
  The model returns the batch the handler hands over. The declared schema is modelled as `InfluxPoint.ConformsToSchema`.
- Configuration read from the environment is not modelled (server.js:9-13). That includes the misspelt `DATABSE_NAME` variable, the host, the port and the stream URL.
- `batchSize` (server.js:12) is not modelled, because nothing reads it.
- `console.log` for missed event types (server.js:85) is I/O. The model returns an empty batch there.
- JavaScript coercion of missing inputs is not modelled. On a wiki without patrolling, `patrolled` is absent and `encodeURI(undefined)` writes `"undefined"` (server.js:101). An absent `length.old` makes `Math.round(undefined)` NaN (server.js:105). Each `Change` field has one type: text as strings, flags as booleans, numbers as reals.
- `UriEncoding.EncodeURI`: does not model the URIError thrown on a lone surrogate, because a Dafny string cannot hold one. It does not model UTF-16 surrogate pairs either. Characters are Unicode scalar values, so each pair is already one character.
- `JsMath.Round`: does not model IEEE-754 doubles. It works on exact reals, so NaN, infinities, −0 and the rounding error of binary fractions are outside the model.
- `InfluxPoint.NumberValue`: numbers that are integers in the model are written to InfluxDB as integers. How the client serialises a JavaScript number that is out of range is not modelled.
