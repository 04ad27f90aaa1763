/** How the page, the generate route and the repair script fit together. */
module EndToEnd {
  import opened JsValues
  import opened Dates
  import opened Links
  import opened Generate
  import opened NormalizeExpires
  import Home

  /** A request the page sends is never refused by the route for a missing
      member, an unknown type, an empty payload or a missing URL, and its
      network name is a non-empty string, so formatWifi cannot throw: the
      page checks each of these first. Apart from the `url` tab, such a
      request writes nothing and can fail only with a 500, which is the
      renderer's rejection. */
  lemma PageRequestsPassShapeChecks(tab: string, form: Home.FormData, dark: string, light: string, d: DateLib,
                                    env: Env, rows: seq<Link>)
    requires Home.BuildSubmission(tab, form, dark, light, d).Send?
    ensures var req := Home.BuildSubmission(tab, form, dark, light, d).request;
            var o := Expected(req, env, d, rows);
            && Complete(req)
            && o.response != Failed(400, InvalidPayload)
            && o.response != Failed(400, Unsupported)
            && o.response != Failed(400, EmptyPayload)
            && o.response != Failed(400, UrlRequired)
            && (tab == "wifi" ==> Truthy(Field(req, "ssid")))
            && (tab != "url" ==> o.row == None && (o.response.Failed? ==> o.response.status == 500))
  {
    var req := Home.BuildSubmission(tab, form, dark, light, d).request;
    Home.RequestShape(tab, form, dark, light, d);
    EmptyPayloadOnlyForText(req, env, d, rows);
    UnsupportedType(req, env, d, rows);
    MissingFieldsRejected(req, env, d, rows);
    if tab == "text" {
      TextEncodedAsGiven(req, env, d, rows);
    } else if tab == "wifi" {
      WifiWithoutSsid(req, env, d, rows);
    } else if tab == "email" {
      var data := req.data.value;
      FormatEmailNonEmpty(Get(data, "to"), Get(data, "subject"), Get(data, "body"));
    }
  }

  /** A date picked on the page and lying in the future is stored by the
      route as the very string the page sent, and the repair script leaves
      it as it is. */
  lemma PickedExpiryStoredAsSent(form: Home.FormData, dark: string, light: string, d: DateLib,
                                 env: Env, rows: seq<Link>, t: int)
    requires WellBehaved(d) && IsTimeValue(t) && t > env.now
    requires form.url != "" && env.isUrl(form.url) && form.expiresAt == Home.Picked(Some(t))
    requires !ShortIdTaken(rows, env.shortId)
    ensures var req := Home.BuildSubmission("url", form, dark, light, d).request;
            var o := Expected(req, env, d, rows);
            && o.row == Some(NewRow(env.shortId, form.url, Some(d.toIso(t))))
            && Get(req.data.value, "expiresAt") == Str(d.toIso(t))
            && !NeedsRepair(d, Some(d.toIso(t)))
  {
    var req := Home.BuildSubmission("url", form, dark, light, d).request;
    Home.UrlExpiryPayload(form, dark, light, d);
    Home.RequestShape("url", form, dark, light, d);
    assert d.toIso(t) != "" && d.parse(d.toIso(t)) == Some(t);
    assert Complete(req) && Kind(req) == "url";
    assert Field(req, "expiresAt") == Str(d.toIso(t));
    UrlAccepted(req, env, d, rows);
    ParsedIsoIsCanonical(d, d.toIso(t));
  }

  /** Every row the route writes is already in the form the repair script
      produces: the script would not touch it. */
  lemma InsertedRowsNeedNoRepair(req: Request, env: Env, d: DateLib, rows: seq<Link>, id: nat)
    requires WellBehaved(d)
    requires Expected(req, env, d, rows).row.Some?
    ensures var r := Expected(req, env, d, rows).row.value;
            var link := Link(id, r.shortId, r.originalUrl, r.expiresAt, env.now);
            !NeedsRepair(d, link.expiresAt) && Repaired(d, link) == link
  {
    var r := Expected(req, env, d, rows).row.value;
    if r.expiresAt.Some? {
      StoredExpiryCanonical(req, env, d, rows);
    }
    FixedIffNeedsRepair(d, r.expiresAt);
  }
}
