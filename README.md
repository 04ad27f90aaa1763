# qrcode-generator: a Dafny model of the core

This project models the core of a small QR-code generator web application.

**Browser form (`src/app/page.tsx`).** The user picks a tab: URL, text, Wi-Fi or e-mail. The form checks the tab's required field and sends a JSON request to the generate route.

**Generate route (`src/app/api/generate/route.ts`).** The route validates the request and builds the text the QR code encodes:
- a short link `http(s)://<host>/r/<shortId>` for a URL, stored in the SQLite `links` table;
- the text as given for a text request;
- a `WIFI:T:…;S:…;P:…;;` string for Wi-Fi credentials;
- a `mailto:` URI for an e-mail link.

**Repair script (`scripts/normalize-expires.js`).** A maintenance pass over `links` that rewrites every stored expiry into canonical ISO form. It clears the expiry to NULL when the stored value does not parse as a date.

Modules:

- `JsValues`: a string member as JavaScript sees it: `undefined`, `null` or a string. It covers truthiness, `v || fallback`, template interpolation (`undefined`, `null`), member access and the sqlite driver's null for a NULL column.
- `Text`: `split`, `join` and the decimal rendering of ids.
- `Dates`: the `Date` operations the core uses, `getTime()` of `new Date(s)` and `toISOString()`. They are taken as two parameter functions. The hypothesis `WellBehaved` says that parsing an ISO rendering gives back the instant.
- `FormUrlEncoded`: the `application/x-www-form-urlencoded` serializer that `URLSearchParams.toString()` runs (WHATWG URL Standard, section 5.2), with a strict decoder as its inverse.
- `Payloads`: `formatWifi` and `formatEmail`, with readers that take their output apart again.
- `Links`: the `links` table as a class holding its rows and its AUTOINCREMENT counter. The UNIQUE constraint on `shortId` is enforced by `Insert`.
- `Generate`: the POST handler. `Expected` is the specification function. `Post` is the handler written step by step against the table.
- `NormalizeExpires`: the repair loop as a method over the table, specified by `RepairedRows`, `RepairCount` and `RepairLog`.
- `Home`: the page's state as a class, with `handleInputChange`, `handleSubmit` up to the `fetch`, and the tab, date and colour handlers.
- `EndToEnd`: lemmas that connect the page, the route and the script.

The environment comes in as parameters:
- the clock (`Date.now()`);
- the random `nanoid(8)` value;
- the `Host` header;
- `NODE_ENV`;
- the `new URL(...)` validity test;
- the QR renderer `qrcode.toDataURL`, which either gives a data URL or rejects with an error message;
- the date library.

Behaviours of the code that are easy to expect otherwise:
- **Spaces in e-mail parameters.** `URLSearchParams` writes a space as `+`, not `%20`. `Payloads.EmailSpaceAsPlus` states this.
- **No retry on a short-id collision.** `nanoid(8)` is called once. A collision makes the UNIQUE constraint fail, and the route answers with a 500; there is no retry.
- **Encryption is not validated.** The route does not check that `encryption` is `WPA`, `WEP` or `nopass`. An absent one is written as `undefined`, a null one as `null`.
- **The row stays when drawing fails.** The short link is inserted before `qrcode.toDataURL` runs; if the renderer rejects, the answer is a 500 and the row remains.

## Model

| member | source | states |
|---|---|---|
| Text.Split | src/app/page.tsx:66 | `name.split(c)` yields at least one piece and no piece contains the separator |
| Text.SplitJoin | src/app/page.tsx:66 | splitting a join of separator-free pieces gives the pieces back |
| Text.JoinSplit | src/app/page.tsx:66 | joining the pieces of a split gives the text back |
| Text.Decimal | scripts/normalize-expires.js:15 | `${row.id}` is a non-empty run of decimal digits without a leading zero |
| Text.DecimalRoundTrip | scripts/normalize-expires.js:15 | reading the decimal rendering of an id gives the id back |
| Dates.ParsedIsoIsCanonical | scripts/normalize-expires.js:18-19 | the ISO rendering of a parsed date is canonical, and a canonical string is its own rendering |
| FormUrlEncoded.Utf8 | src/app/api/generate/route.ts:18-20 | a character's UTF-8 bytes: one byte exactly for ASCII, 2 to 4 bytes otherwise, with continuation bytes in 0x80..0xBF |
| FormUrlEncoded.EncodeByte | src/app/api/generate/route.ts:18-20 | an encoded byte uses only unreserved characters, `+` and `%`; a space is `+`, an unreserved byte stays, any other byte is `%` and two upper-case hex digits whose value is the byte |
| FormUrlEncoded.DecodeCharUtf8 | src/app/api/generate/route.ts:18-20 | the UTF-8 decoder reads back the one character an encoding starts with, and the bytes after it |
| FormUrlEncoded.DecodeUtf8String | src/app/api/generate/route.ts:18-20 | decoding the UTF-8 bytes of a text gives the text back |
| FormUrlEncoded.Utf8Injective | src/app/api/generate/route.ts:18-20 | different texts have different UTF-8 bytes |
| FormUrlEncoded.BytePairsInjective | src/app/api/generate/route.ts:17-20 | the bytes of a list of names and values determine the names and values |
| FormUrlEncoded.SerializeInjective | src/app/api/generate/route.ts:17-20 | two lists of pairs serialize to the same query string only when they are the same list |
| FormUrlEncoded.EncodeBytes | src/app/api/generate/route.ts:18-20 | an encoded byte string uses only unreserved characters, `+` and `%` |
| FormUrlEncoded.DecodeEncodeBytes | src/app/api/generate/route.ts:18-20 | decoding the percent-encoding of any bytes gives the bytes back |
| FormUrlEncoded.DecodeEncode | src/app/api/generate/route.ts:18-20 | an encoded name or value decodes to the UTF-8 bytes of the original |
| FormUrlEncoded.EncodeConcat | src/app/api/generate/route.ts:18-20 | names and values are encoded character by character: the encoding of a concatenation is the concatenation of encodings |
| FormUrlEncoded.EncodeUnreserved | src/app/api/generate/route.ts:18-20 | text of ASCII alphanumerics and `*-._` is written unchanged |
| FormUrlEncoded.EncodeSpace | src/app/api/generate/route.ts:18-20 | a space is written `+` |
| FormUrlEncoded.EncodeSpaced | src/app/api/generate/route.ts:18-20 | between unreserved words only the space changes, to `+` |
| FormUrlEncoded.EncodePairSplits | src/app/api/generate/route.ts:18-20 | an encoded pair splits at `=` into exactly the encoded name and value |
| FormUrlEncoded.NoAmpersandInPair | src/app/api/generate/route.ts:18-20 | no `&` occurs inside an encoded pair |
| FormUrlEncoded.ParseEncodedPairs | src/app/api/generate/route.ts:18-20 | the encoded pairs parse back to the bytes of every name and value, in order |
| FormUrlEncoded.QueryRoundTrip | src/app/api/generate/route.ts:17-20 | `params.toString()` reads back, in order, as the UTF-8 bytes of every appended name and value |
| FormUrlEncoded.SerializedAlphabet | src/app/api/generate/route.ts:20 | a serialized list holds only encoded characters, `=` and `&` |
| Payloads.EscapeLength | src/app/api/generate/route.ts:9-10 | escaping lengthens a text by exactly its number of special characters |
| Payloads.EscapeConcat | src/app/api/generate/route.ts:9-10 | escaping is character by character: it distributes over concatenation |
| Payloads.EscapeOne | src/app/api/generate/route.ts:9-10 | each of `\ ; , : "` gains one backslash in front; every other character is unchanged |
| Payloads.EscapePlain | src/app/api/generate/route.ts:9-10 | a text without special characters is its own escape |
| Payloads.ScanEscaped | src/app/api/generate/route.ts:9-11 | un-escaping recovers every field exactly, and the field ends at the `;` written after it |
| Payloads.WifiRoundTrip | src/app/api/generate/route.ts:7-12 | a reader of the format gets back the encryption, the network name and the password (empty when none), whatever special characters they hold |
| Payloads.EscapeAroundSpecials | src/app/api/generate/route.ts:9 | in a network name of plain words around `;` and `"`, exactly those two gain a backslash |
| Payloads.EscapeExample | src/app/api/generate/route.ts:9 | `My;Net"work` escapes to `My\;Net\"work` |
| Payloads.WifiWpaNoPassword | src/app/api/generate/route.ts:7-12 | WPA without a password gives `WIFI:T:WPA;S:<escaped ssid>;P:;;` |
| Payloads.WifiNullMembers | src/app/api/generate/route.ts:10-11 | a null encryption is written `null` and a null password leaves the password segment empty |
| Payloads.EmailNullRecipient | src/app/api/generate/route.ts:21 | a null recipient is written `mailto:null` |
| Payloads.SerializeEmpty | src/app/api/generate/route.ts:17-20 | the query string is empty exactly when no parameter was appended |
| Payloads.NoQuestionMark | src/app/api/generate/route.ts:20 | the query string never contains `?` |
| Payloads.EmailParamsEmpty | src/app/api/generate/route.ts:18-19 | no parameter is appended exactly when both subject and body are empty or absent |
| Payloads.MailtoLayout | src/app/api/generate/route.ts:21 | `mailto:<to>` comes first; a `?` follows exactly when the query is non-empty, and the rest is the query |
| Payloads.EmailLayout | src/app/api/generate/route.ts:15-22 | the payload starts with `mailto:` and the recipient unencoded; `?` follows exactly when subject or body is non-empty; the rest reads back as subject then body, each only when non-empty |
| Payloads.MailtoSplits | src/app/api/generate/route.ts:21 | with no `?` in the recipient or the query, splitting at `?` gives the address and, when there is one, the query |
| Payloads.EmailSplitsAtQuestionMark | src/app/api/generate/route.ts:15-22 | with a `?`-free recipient the payload splits at `?` into two parts exactly when subject or body is set, and the second part parses back to the parameters |
| Payloads.BodyOnly | src/app/api/generate/route.ts:18-20 | with an empty subject the query is `body=` and the encoded body alone |
| Payloads.EmailSpaceAsPlus | src/app/api/generate/route.ts:15-22 | an empty subject is left out and a space in the body becomes `+` |
| Links.SameKeysWellFormed | src/lib/db.ts:35-36 | keeping every row's id and short id keeps the primary key and UNIQUE constraints |
| Links.WithExpiresAtChangesOnlyExpiry | scripts/normalize-expires.js:16-21 | `UPDATE … SET expiresAt WHERE id` changes the `expiresAt` of the row with that id and nothing else |
| Links.WithExpiresAtWellFormed | scripts/normalize-expires.js:16-21 | an update keeps the table's constraints |
| Links.AppendWellFormed | src/lib/db.ts:35-36 | appending a row with the next id and an unused short id keeps the constraints |
| Links.LinkTable.constructor | src/lib/db.ts:33-41 | a new table is empty, meets its constraints and starts ids at 1 |
| Links.LinkTable.Insert | src/lib/db.ts:34-39 | the insert succeeds exactly when the short id is unused; it then appends one row with the next id and the given columns; otherwise the table is unchanged |
| Links.LinkTable.SetExpiresAt | scripts/normalize-expires.js:16-21 | the rows become those of the update, the counter is unchanged and the constraints still hold |
| Generate.Post | src/app/api/generate/route.ts:24-114 | the handler's response and its effect on the table are those of `Expected`: one row with the next id and the request time, or no change at all; the row is inserted before the renderer runs |
| Generate.MissingFieldsRejected | src/app/api/generate/route.ts:28-32 | a 400 "Invalid request payload" exactly when the type is falsy or data or colors is missing |
| Generate.UrlRejections | src/app/api/generate/route.ts:39-53 | the 400 refusals of a `url` request in order: no URL, invalid URL, unparseable expiry, expiry not after now |
| Generate.UrlAccepted | src/app/api/generate/route.ts:54-112 | a `url` request that passes the checks gives a 500 when its short id is taken; otherwise it is stored as one row with the short id, the URL and the ISO expiry, and the renderer draws the short URL: a data URL is answered with `shortUrl` beside it, a rejection with a 500 carrying its message, the row staying in both cases |
| Generate.ShortUrlShape | src/app/api/generate/route.ts:57-60 | the short URL is `http(s)://<host>/r/<shortId>`, https only in production, `localhost:3000` when the Host header is absent or empty |
| Generate.RowOnlyForUrl | src/app/api/generate/route.ts:37-67 | a row is written exactly for a `url` request that passes the URL and expiry checks and whose short id is free, whatever the renderer does afterwards |
| Generate.ShortUrlOnlyForUrl | src/app/api/generate/route.ts:100-103 | a successful response carries `shortUrl` exactly for a `url` request |
| Generate.FailureWritesOnlyAfterInsert | src/app/api/generate/route.ts:63-112 | a failed request leaves a row exactly when it is a `url` request inserted before the renderer rejected its short URL, and the answer is then the 500 with the rejection's message |
| Generate.UnsupportedType | src/app/api/generate/route.ts:82-83 | a 400 "Unsupported QR code type" exactly for a type other than url, text, wifi and email |
| Generate.FormatWifiNonEmpty | src/app/api/generate/route.ts:11 | a Wi-Fi payload is never empty |
| Generate.FormatEmailNonEmpty | src/app/api/generate/route.ts:21 | an e-mail payload is never empty |
| Generate.EmptyPayloadOnlyForText | src/app/api/generate/route.ts:86-88 | "QR code data cannot be empty" is the answer exactly to a `text` request with empty or missing text |
| Generate.TextEncodedAsGiven | src/app/api/generate/route.ts:70-112 | a `text` request with text has the renderer draw that text as given: its data URL is answered without a short URL, its rejection with a 500; no row is written |
| Generate.QrOptions | src/app/api/generate/route.ts:90-98 | the renderer gets the text, level H, margin 2, width 256, and black on white unless truthy colours are given |
| Generate.WifiWithoutSsid | src/app/api/generate/route.ts:7-12 | a `wifi` request with an undefined or a null ssid ends in the catch with a 500 and the TypeError's message for undefined or for null; with a string ssid the renderer draws the formatted network and no row is written |
| Generate.StoredExpiryCanonical | src/app/api/generate/route.ts:45-55 | a stored expiry lies after the request time and is in canonical ISO form |
| NormalizeExpires.FixedIffNeedsRepair | scripts/normalize-expires.js:12-22 | a row is written exactly when its value is a non-empty string that is not canonical |
| NormalizeExpires.RepairedRow | scripts/normalize-expires.js:12-22 | an empty or absent value is kept, an unparseable one becomes NULL, any other becomes the ISO form of its instant; no other column changes |
| NormalizeExpires.RepairedRows | scripts/normalize-expires.js:11-24 | the pass keeps the number of rows |
| NormalizeExpires.RepairedRowsAt | scripts/normalize-expires.js:11-24 | every row after the pass is that row repaired on its own |
| NormalizeExpires.LogLengthIsRepairCount | scripts/normalize-expires.js:15-21 | one log line per write |
| NormalizeExpires.RepairCountBound | scripts/normalize-expires.js:11-24 | at most one write per row |
| NormalizeExpires.RepairedRowsWellFormed | scripts/normalize-expires.js:11-24 | the pass keeps the table's constraints |
| NormalizeExpires.AllCanonicalAfterRepair | scripts/normalize-expires.js:13-22 | after the pass every present, non-empty value is canonical |
| NormalizeExpires.NoneNeedRepair | scripts/normalize-expires.js:11-24 | on rows that need no repair the pass writes nothing and changes nothing |
| NormalizeExpires.SecondPassIsNoOp | scripts/normalize-expires.js:11-24 | a second pass writes nothing and leaves the rows as the first left them |
| NormalizeExpires.RepairRow | scripts/normalize-expires.js:12-23 | one iteration skips, clears or rewrites row `i` and logs that change, writing exactly when the value needs repair |
| NormalizeExpires.Normalize | scripts/normalize-expires.js:10-26 | the table ends as `RepairedRows` of its rows, the writes number `RepairCount`, the log is `RepairLog` then the completion line |
| Home.TopLevelUpdate | src/app/page.tsx:82-86 | a non-nested input sets the member of that name to the value; every other member keeps its value |
| Home.NestedUpdate | src/app/page.tsx:66-81 | `wifi.f` or `email.f` sets field `f` of that object only; when the member is no longer an object the state is unchanged |
| Home.SsidInputIsNested | src/app/page.tsx:211 | the `wifi.ssid` input addresses field `ssid` of `wifi` |
| Home.RequiredFields | src/app/page.tsx:99-130 | each tab refuses with its own message exactly when its required field is empty |
| Home.UnknownTab | src/app/page.tsx:131-134 | "Invalid QR Code type." exactly for a tab other than the four |
| Home.RequestShape | src/app/page.tsx:137-141 | a request sent carries the tab as its type, both colours, and the tab's own record as its data |
| Home.UrlExpiryPayload | src/app/page.tsx:105 | the URL tab sends the ISO form of the picked date, and `expiresAt: null` when none is picked |
| Home.HomePage.constructor | src/app/page.tsx:48-62 | the initial state: URL tab, empty form with WPA encryption, black on white, no error, not loading |
| Home.HomePage.SelectTab | src/app/page.tsx:179 | the tab becomes the key selected, or `url` when it is empty, null or undefined; nothing else changes |
| Home.HomePage.PickDate | src/app/page.tsx:190 | the date picker sets `expiresAt` and nothing else |
| Home.HomePage.SetColors | src/app/page.tsx:247-253 | the colour inputs set the two colours and nothing else |
| Home.HomePage.HandleInputChange | src/app/page.tsx:64-88 | the form becomes `InputChanged` of the old form; nothing else changes |
| Home.HomePage.HandleSubmit | src/app/page.tsx:90-141 | the result is that of `BuildSubmission`; QR code and short URL are cleared; a refusal shows its message and stops loading, otherwise loading is on with no error; the form is untouched |
| EndToEnd.PageRequestsPassShapeChecks | src/app/page.tsx:97-141 | a request the page sends is never refused by the route for a missing member, an unknown type, an empty payload or a missing URL, and its ssid is a non-empty string; outside the URL tab it writes nothing and fails only with a 500 |
| EndToEnd.PickedExpiryStoredAsSent | src/app/page.tsx:105 | a future date picked on the page is stored by the route as the very string sent, and the repair script leaves it alone |
| EndToEnd.InsertedRowsNeedNoRepair | scripts/normalize-expires.js:12-22 | every row the route writes is already what the repair script would make of it |

## Left out

- Drawing the QR image is not modelled: `qrcode.toDataURL` is the parameter `render` of `Generate.Env`, a function of the text and options (`QrRequest`) that gives a data URL or an error message. A rejection with a value that is not an `Error`, answered 'Internal Server Error', is not modelled.
- The database connection (`getDb`, `open`, `close`, the hot-reload cache) and the SQL text are not modelled. The table is the class `Links.LinkTable`. `createdAt` is the request instant in milliseconds, not SQLite's `CURRENT_TIMESTAMP` text.
- JavaScript date parsing and `toISOString` are parameters (`Dates.DateLib`). The proofs that need them assume `Dates.WellBehaved`. The `RangeError` that `toISOString` throws on an invalid date in the page is not modelled: a picked date is always valid.
- `nanoid(8)`, `Date.now()`, the `Host` header, `NODE_ENV`, `new URL(url)` validity (`isUrl`) and the renderer are inputs (`Generate.Env`).
- Parsing the request body (`req.json()`) is not modelled, and neither is the 500 for a body that is not JSON or is null. Data members are strings, `null` or absent (`JsValues.JsValue`); `data` and `colors` are objects or missing. Members of other JSON types (numbers, booleans, arrays) are not modelled.
- The `console.error` and `console.log` side effects are not modelled as output. The repair script's log is returned as a sequence of entries, with `NormalizeExpires.Message` giving each line's text.
- The page's `fetch` call, the handling of the response and the `finally` block (src/app/page.tsx:143-168) are not modelled, nor is the JSX rendering. `Home.HomePage.HandleSubmit` ends where the request is sent.
- The redirect page src/app/r/[shortId]/page.tsx and the script scripts/test-expiry.js are not part of this model.
- Strings are sequences of Unicode scalar values. Lone UTF-16 surrogates, which `URLSearchParams` replaces by U+FFFD, are not modelled.
- Payloads.WifiRoundTrip: it holds only for encryption values without special characters, because formatWifi does not escape that field.
- Payloads.EmailSplitsAtQuestionMark: it holds only for a recipient without `?`, because formatEmail puts the recipient in unencoded.
- Payloads.EmailSpaceAsPlus: it is stated for two unreserved words around one space, not for literal texts. On literal texts the solver unfolds the encoder without bound.
