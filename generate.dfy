/** The POST handler of src/app/api/generate/route.ts: it checks a create
    request, builds the text the QR code encodes, for a URL stores a short
    link in the `links` table, and has the QR renderer draw the code. The
    clock, the random short id, the `Host` header, the environment, `new URL`
    validity and the renderer come in as an `Env`; JavaScript dates are a
    `DateLib`. */
module Generate {
  import opened JsValues
  import opened Dates
  import opened Payloads
  import opened Links

  datatype Colors = Colors(dark: JsValue, light: JsValue)

  /** The members of the JSON body the handler reads; `data` and `colors`
      are absent or null (None) or objects whose members it reads. */
  datatype Request = Request(qrDataType: JsValue, data: Option<map<string, JsValue>>, colors: Option<Colors>)

  /** The text and options handed to the QR renderer. */
  datatype QrRequest = QrRequest(text: string, errorCorrectionLevel: string, margin: nat, width: nat, dark: string, light: string)

  /** How `qrcode.toDataURL` settles: the data URL of the image, or a
      rejection with an `Error` and its message. */
  datatype Rendered = DataUrl(url: string) | RenderError(message: string)

  /** `Date.now()`, the `nanoid(8)` result, the `Host` header (null when the
      request has none), whether `NODE_ENV` is `production`, whether
      `new URL(s)` succeeds, and the QR renderer. */
  datatype Env = Env(now: int, shortId: string, host: JsValue, production: bool,
                     isUrl: string -> bool, render: QrRequest -> Rendered)

  datatype Response = Generated(qrCode: string, shortUrl: Option<string>) | Failed(status: nat, message: string)

  /** The row an INSERT asks for; the table adds the id and the time. */
  datatype NewRow = NewRow(shortId: string, originalUrl: string, expiresAt: Option<string>)

  /** What a request leads to: the response and the row written, if any. */
  datatype Outcome = Outcome(response: Response, row: Option<NewRow>)

  const InvalidPayload: string := "Invalid request payload"
  const UrlRequired: string := "URL is required"
  const InvalidUrl: string := "Invalid URL format"
  const InvalidExpiry: string := "Invalid expiration date format"
  const PastExpiry: string := "Expiration must be a future date/time"
  const Unsupported: string := "Unsupported QR code type"
  const EmptyPayload: string := "QR code data cannot be empty"
  /** The TypeErrors V8 throws for `ssid.replace(...)` in formatWifi when the
      request's `ssid` is undefined or null; the catch turns them into a 500. */
  const MissingSsid: string := "Cannot read properties of undefined (reading 'replace')"
  const NullSsid: string := "Cannot read properties of null (reading 'replace')"
  const DefaultHost: string := "localhost:3000"

  function QrFor(text: string, colors: Colors): QrRequest {
    QrRequest(text, "H", 2, 256, OrElse(colors.dark, "#000000"), OrElse(colors.light, "#FFFFFF"))
  }

  /** `${protocol}://${host}/r/${shortId}`. */
  function ShortUrl(env: Env): string {
    (if env.production then "https" else "http") + "://" + OrElse(env.host, DefaultHost) + "/r/" + env.shortId
  }

  /** The JSON answer for the renderer's result; a rejection reaches the catch. */
  function Answer(r: Rendered, shortUrl: Option<string>): Response {
    match r
    case DataUrl(u) => Generated(u, shortUrl)
    case RenderError(m) => Failed(500, m)
  }

  /** The final check on the payload text, then the rendered response. */
  function Render(text: string, colors: Colors, shortUrl: Option<string>, env: Env): Response {
    if text == "" then Failed(400, EmptyPayload) else Answer(env.render(QrFor(text, colors)), shortUrl)
  }

  function Rejected(status: nat, message: string): Outcome {
    Outcome(Failed(status, message), None)
  }

  /** The checks of the `url` case that come before the INSERT all pass: a
      truthy URL that `new URL` accepts, and an expiry that, when truthy,
      parses to an instant after now. */
  predicate UrlChecksPass(data: map<string, JsValue>, env: Env, d: DateLib) {
    var url, e := Get(data, "url"), Get(data, "expiresAt");
    && Truthy(url) && env.isUrl(url.value)
    && (Truthy(e) ==> d.parse(e.value).Some? && d.parse(e.value).value > env.now)
  }

  /** The `url` case. */
  function UrlOutcome(data: map<string, JsValue>, colors: Colors, env: Env, d: DateLib, rows: seq<Link>): Outcome {
    var url := Get(data, "url");
    var expiresAt := Get(data, "expiresAt");
    if !Truthy(url) then Rejected(400, UrlRequired)
    else if !env.isUrl(url.value) then Rejected(400, InvalidUrl)
    else if Truthy(expiresAt) && d.parse(expiresAt.value).None? then Rejected(400, InvalidExpiry)
    else if Truthy(expiresAt) && d.parse(expiresAt.value).value <= env.now then Rejected(400, PastExpiry)
    else
      var normalized := if Truthy(expiresAt) then Some(d.toIso(d.parse(expiresAt.value).value)) else None;
      if ShortIdTaken(rows, env.shortId) then Rejected(500, UniqueViolation)
      else Outcome(Render(ShortUrl(env), colors, Some(ShortUrl(env)), env), Some(NewRow(env.shortId, url.value, normalized)))
  }

  /** The `wifi` case: formatWifi throws on an undefined or null `ssid`. */
  function WifiOutcome(data: map<string, JsValue>, colors: Colors, env: Env): Outcome {
    match Get(data, "ssid")
    case Undefined => Rejected(500, MissingSsid)
    case Null => Rejected(500, NullSsid)
    case Str(ssid) =>
      Outcome(Render(FormatWifi(ssid, Get(data, "password"), Get(data, "encryption")), colors, None, env), None)
  }

  /** What the handler does with a request, given the table's rows before it. */
  function Expected(req: Request, env: Env, d: DateLib, rows: seq<Link>): Outcome {
    if !Truthy(req.qrDataType) || req.data.None? || req.colors.None? then Rejected(400, InvalidPayload)
    else
      var kind, data, colors := req.qrDataType.value, req.data.value, req.colors.value;
      if kind == "url" then UrlOutcome(data, colors, env, d, rows)
      else if kind == "text" then Outcome(Render(OrElse(Get(data, "text"), ""), colors, None, env), None)
      else if kind == "wifi" then WifiOutcome(data, colors, env)
      else if kind == "email" then
        Outcome(Render(FormatEmail(Get(data, "to"), Get(data, "subject"), Get(data, "body")), colors, None, env), None)
      else Rejected(400, Unsupported)
  }

  /** The handler itself, step by step as the route runs it, against the
      table. Its response and its effect on the table are those of Expected:
      the row of a `url` request is inserted before the renderer runs, so it
      stays even when the renderer then rejects. */
  method Post(table: LinkTable, req: Request, env: Env, d: DateLib) returns (resp: Response)
    requires table.Valid()
    modifies table
    ensures table.Valid()
    ensures resp == Expected(req, env, d, old(table.rows)).response
    ensures match Expected(req, env, d, old(table.rows)).row
            case None => table.rows == old(table.rows) && table.nextId == old(table.nextId)
            case Some(r) => table.rows == old(table.rows) + [Link(old(table.nextId), r.shortId, r.originalUrl, r.expiresAt, env.now)]
                            && table.nextId == old(table.nextId) + 1
  {
    if !Truthy(req.qrDataType) || req.data.None? || req.colors.None? {
      return Failed(400, InvalidPayload);
    }
    var data, colors := req.data.value, req.colors.value;
    var qrDataString: string;
    var shortUrl: Option<string> := None;
    match req.qrDataType.value {
      case "url" =>
        var url := Get(data, "url");
        if !Truthy(url) {
          return Failed(400, UrlRequired);
        }
        if !env.isUrl(url.value) {
          return Failed(400, InvalidUrl);
        }
        var normalizedExpiresAt: Option<string> := None;
        var expiresAt := Get(data, "expiresAt");
        if Truthy(expiresAt) {
          var parsed := d.parse(expiresAt.value);
          if parsed.None? {
            return Failed(400, InvalidExpiry);
          }
          if parsed.value <= env.now {
            return Failed(400, PastExpiry);
          }
          normalizedExpiresAt := Some(d.toIso(parsed.value));
        }
        var host := OrElse(env.host, DefaultHost);
        var protocol := if env.production then "https" else "http";
        shortUrl := Some(protocol + "://" + host + "/r/" + env.shortId);
        qrDataString := shortUrl.value;
        var inserted := table.Insert(env.shortId, url.value, normalizedExpiresAt, env.now);
        if !inserted {
          return Failed(500, UniqueViolation);
        }
      case "text" =>
        qrDataString := OrElse(Get(data, "text"), "");
      case "wifi" =>
        var ssid := Get(data, "ssid");
        if ssid.Undefined? {
          return Failed(500, MissingSsid);
        }
        if ssid.Null? {
          return Failed(500, NullSsid);
        }
        qrDataString := FormatWifi(ssid.value, Get(data, "password"), Get(data, "encryption"));
      case "email" =>
        qrDataString := FormatEmail(Get(data, "to"), Get(data, "subject"), Get(data, "body"));
      case _ =>
        return Failed(400, Unsupported);
    }
    if qrDataString == "" {
      return Failed(400, EmptyPayload);
    }
    var qrCodeDataUrl := env.render(QrFor(qrDataString, colors));
    if qrCodeDataUrl.RenderError? {
      return Failed(500, qrCodeDataUrl.message);
    }
    resp := Generated(qrCodeDataUrl.url, shortUrl);
  }

  /** The well-formed requests, with a given type, data object and colours. */
  predicate Complete(req: Request) {
    Truthy(req.qrDataType) && req.data.Some? && req.colors.Some?
  }

  function Kind(req: Request): string
    requires Complete(req)
  {
    req.qrDataType.value
  }

  function Field(req: Request, name: string): JsValue
    requires Complete(req)
  {
    Get(req.data.value, name)
  }

  /** A request without a truthy type, without data or without colors is
      refused with 400, and nothing is written. */
  lemma MissingFieldsRejected(req: Request, env: Env, d: DateLib, rows: seq<Link>)
    ensures var o := Expected(req, env, d, rows);
            !Complete(req) <==> o == Rejected(400, InvalidPayload)
  {
    var o := Expected(req, env, d, rows);
    if Complete(req) {
      assert o.response.Failed? && o.response.status == 400 ==> o.response.message != InvalidPayload;
    }
  }

  /** The ways a `url` request is refused with 400, in the order the handler
      tries them; an expiry equal to the current instant is refused too. */
  lemma UrlRejections(req: Request, env: Env, d: DateLib, rows: seq<Link>)
    requires Complete(req) && Kind(req) == "url"
    ensures var o := Expected(req, env, d, rows);
            var url, e := Field(req, "url"), Field(req, "expiresAt");
            && (!Truthy(url) ==> o == Rejected(400, UrlRequired))
            && (Truthy(url) && !env.isUrl(url.value) ==> o == Rejected(400, InvalidUrl))
            && ((Truthy(url) && env.isUrl(url.value) && Truthy(e) && d.parse(e.value).None?)
                ==> o == Rejected(400, InvalidExpiry))
            && ((Truthy(url) && env.isUrl(url.value) && Truthy(e) && d.parse(e.value).Some? && d.parse(e.value).value <= env.now)
                ==> o == Rejected(400, PastExpiry))
  {
  }

  lemma ShortUrlNonEmpty(env: Env)
    ensures ShortUrl(env) != ""
  {
    assert |ShortUrl(env)| >= |"http"|;
  }

  /** A `url` request that passes the checks is refused with a 500 when its
      short id is taken; otherwise it stores one row with the short id, the
      URL as sent and the ISO form of the expiry (null when none was sent),
      and the renderer draws the short URL: its data URL is answered with
      the short URL beside it, its rejection with a 500 carrying the
      rejection's message, and the row stays in both cases. */
  lemma UrlAccepted(req: Request, env: Env, d: DateLib, rows: seq<Link>)
    requires Complete(req) && Kind(req) == "url" && UrlChecksPass(req.data.value, env, d)
    ensures var o := Expected(req, env, d, rows);
            var e := Field(req, "expiresAt");
            var stored := if Truthy(e) then Some(d.toIso(d.parse(e.value).value)) else None;
            var drawn := env.render(QrFor(ShortUrl(env), req.colors.value));
            && (ShortIdTaken(rows, env.shortId) ==> o == Rejected(500, UniqueViolation))
            && (!ShortIdTaken(rows, env.shortId) ==>
                  && o.row == Some(NewRow(env.shortId, Field(req, "url").value, stored))
                  && (drawn.DataUrl? ==> o.response == Generated(drawn.url, Some(ShortUrl(env))))
                  && (drawn.RenderError? ==> o.response == Failed(500, drawn.message)))
  {
    ShortUrlNonEmpty(env);
  }

  /** The short URL is `<protocol>://<host>/r/<shortId>`, https only in
      production, with `localhost:3000` when the request has no Host header. */
  lemma ShortUrlShape(env: Env)
    ensures !env.production && !Truthy(env.host) ==> ShortUrl(env) == "http://localhost:3000/r/" + env.shortId
    ensures env.production && Truthy(env.host) ==> ShortUrl(env) == "https://" + env.host.value + "/r/" + env.shortId
    ensures !env.production && Truthy(env.host) ==> ShortUrl(env) == "http://" + env.host.value + "/r/" + env.shortId
    ensures env.production && !Truthy(env.host) ==> ShortUrl(env) == "https://localhost:3000/r/" + env.shortId
  {
  }

  /** A row is written exactly for a `url` request that passes the checks
      and whose short id is free, whatever the renderer does afterwards. */
  lemma RowOnlyForUrl(req: Request, env: Env, d: DateLib, rows: seq<Link>)
    ensures var o := Expected(req, env, d, rows);
            o.row.Some? <==> Complete(req) && Kind(req) == "url" && UrlChecksPass(req.data.value, env, d)
                             && !ShortIdTaken(rows, env.shortId)
  {
  }

  /** A response carries a short URL exactly when the request was of type `url`. */
  lemma ShortUrlOnlyForUrl(req: Request, env: Env, d: DateLib, rows: seq<Link>)
    requires Expected(req, env, d, rows).response.Generated?
    ensures Expected(req, env, d, rows).response.shortUrl.Some? <==> Kind(req) == "url"
  {
  }

  /** A failed request writes a row only when it is a `url` request whose
      row was inserted and the renderer then rejected the short URL; the
      response is then the 500 with the rejection's message. */
  lemma FailureWritesOnlyAfterInsert(req: Request, env: Env, d: DateLib, rows: seq<Link>)
    requires Expected(req, env, d, rows).response.Failed?
    ensures var o := Expected(req, env, d, rows);
            o.row.Some? <==>
              && Complete(req) && Kind(req) == "url" && UrlChecksPass(req.data.value, env, d)
              && !ShortIdTaken(rows, env.shortId)
              && env.render(QrFor(ShortUrl(env), req.colors.value)).RenderError?
    ensures var o := Expected(req, env, d, rows);
            o.row.Some? ==> o.response == Failed(500, env.render(QrFor(ShortUrl(env), req.colors.value)).message)
  {
    ShortUrlNonEmpty(env);
  }

  /** A type other than the four known ones is refused with 400. */
  lemma UnsupportedType(req: Request, env: Env, d: DateLib, rows: seq<Link>)
    requires Complete(req)
    ensures Expected(req, env, d, rows) == Rejected(400, Unsupported)
            <==> Kind(req) !in {"url", "text", "wifi", "email"}
  {
  }

  lemma FormatWifiNonEmpty(ssid: string, password: JsValue, encryption: JsValue)
    ensures FormatWifi(ssid, password, encryption) != ""
  {
    assert |FormatWifi(ssid, password, encryption)| >= |"WIFI:T:"|;
  }

  lemma FormatEmailNonEmpty(to: JsValue, subject: JsValue, body: JsValue)
    ensures FormatEmail(to, subject, body) != ""
  {
    assert |FormatEmail(to, subject, body)| >= |"mailto:"|;
  }

  /** "QR code data cannot be empty" is the answer exactly to a `text`
      request whose text is missing, null or empty: the other types never
      yield an empty payload. */
  lemma EmptyPayloadOnlyForText(req: Request, env: Env, d: DateLib, rows: seq<Link>)
    ensures Expected(req, env, d, rows).response == Failed(400, EmptyPayload)
            <==> Complete(req) && Kind(req) == "text" && !Truthy(Field(req, "text"))
  {
    if Complete(req) {
      var data := req.data.value;
      if Kind(req) == "url" {
        ShortUrlNonEmpty(env);
      } else if Kind(req) == "wifi" && Get(data, "ssid").Str? {
        FormatWifiNonEmpty(Get(data, "ssid").value, Get(data, "password"), Get(data, "encryption"));
      } else if Kind(req) == "email" {
        FormatEmailNonEmpty(Get(data, "to"), Get(data, "subject"), Get(data, "body"));
      }
    }
  }

  /** A `text` request with text has the renderer draw that text as given,
      and writes nothing. */
  lemma TextEncodedAsGiven(req: Request, env: Env, d: DateLib, rows: seq<Link>)
    requires Complete(req) && Kind(req) == "text" && Truthy(Field(req, "text"))
    ensures var o := Expected(req, env, d, rows);
            var drawn := env.render(QrFor(Field(req, "text").value, req.colors.value));
            && o.row == None
            && (drawn.DataUrl? ==> o.response == Generated(drawn.url, None))
            && (drawn.RenderError? ==> o.response == Failed(500, drawn.message))
  {
  }

  /** The renderer gets the text, level H, margin 2, width 256, and black
      on white unless the request names truthy colours. */
  lemma QrOptions(text: string, colors: Colors)
    ensures var q := QrFor(text, colors);
            && q.text == text && q.errorCorrectionLevel == "H" && q.margin == 2 && q.width == 256
            && q.dark == (if Truthy(colors.dark) then colors.dark.value else "#000000")
            && q.light == (if Truthy(colors.light) then colors.light.value else "#FFFFFF")
  {
  }

  /** A `wifi` request whose `ssid` is undefined or null ends in the catch
      with a 500 and the TypeError's message; with a string `ssid` (even an
      empty one) the renderer draws the formatted network and nothing is
      written. */
  lemma WifiWithoutSsid(req: Request, env: Env, d: DateLib, rows: seq<Link>)
    requires Complete(req) && Kind(req) == "wifi"
    ensures var o, ssid := Expected(req, env, d, rows), Field(req, "ssid");
            && (ssid.Undefined? ==> o == Rejected(500, MissingSsid))
            && (ssid.Null? ==> o == Rejected(500, NullSsid))
            && (ssid.Str? ==>
                  var drawn := env.render(QrFor(FormatWifi(ssid.value, Field(req, "password"), Field(req, "encryption")),
                                                req.colors.value));
                  && o.row == None
                  && (drawn.DataUrl? ==> o.response == Generated(drawn.url, None))
                  && (drawn.RenderError? ==> o.response == Failed(500, drawn.message)))
  {
    var data := req.data.value;
    if Get(data, "ssid").Str? {
      FormatWifiNonEmpty(Get(data, "ssid").value, Get(data, "password"), Get(data, "encryption"));
    }
  }

  /** A stored expiry lies in the future and is already in canonical ISO form,
      so the repair script leaves the row alone. */
  lemma StoredExpiryCanonical(req: Request, env: Env, d: DateLib, rows: seq<Link>)
    requires WellBehaved(d)
    requires Expected(req, env, d, rows).row.Some?
    requires Expected(req, env, d, rows).row.value.expiresAt.Some?
    ensures var e := Expected(req, env, d, rows).row.value.expiresAt.value;
            Canonical(d, e) && d.parse(e).value > env.now
  {
    var e := Field(req, "expiresAt");
    ParsedIsoIsCanonical(d, e.value);
    var t := d.parse(e.value).value;
    assert IsTimeValue(t);
  }
}
