/** The form of src/app/page.tsx: its state, the `handleInputChange` updater
    and the `handleSubmit` check that builds the request sent to the generate
    route. The date picker's `Date` is an instant in milliseconds. */
module Home {
  import opened JsValues
  import opened Text
  import opened Dates
  import Generate

  /** The `wifi` or `email` member of the form: an object of string fields,
      or a plain string once an input named exactly `wifi` or `email` has
      overwritten it. */
  datatype Group = Fields(fields: map<string, string>) | Replaced(text: string)

  /** The `expiresAt` member: the picker's `Date` or null, or a string once an
      input named `expiresAt` has written one. */
  datatype DateSlot = Picked(at: Option<int>) | Typed(text: string)

  /** The form state; `extra` holds the members that inputs with other names add. */
  datatype FormData = FormData(url: string, expiresAt: DateSlot, text: string, wifi: Group, email: Group,
                               extra: map<string, string>)

  function InitialForm(): FormData {
    FormData("", Picked(None), "",
             Fields(map["ssid" := "", "password" := "", "encryption" := "WPA"]),
             Fields(map["to" := "", "subject" := "", "body" := ""]),
             map[])
  }

  /** A member of the form as JavaScript sees it. */
  datatype Value = StringValue(s: string) | DateValue(at: Option<int>) | Object(fields: map<string, string>) | Absent

  function GroupValue(g: Group): Value {
    match g
    case Fields(m) => Object(m)
    case Replaced(s) => StringValue(s)
  }

  /** `formData[key]`. */
  function Member(f: FormData, key: string): Value {
    if key == "url" then StringValue(f.url)
    else if key == "text" then StringValue(f.text)
    else if key == "expiresAt" then (match f.expiresAt case Picked(at) => DateValue(at) case Typed(s) => StringValue(s))
    else if key == "wifi" then GroupValue(f.wifi)
    else if key == "email" then GroupValue(f.email)
    else if key in f.extra then StringValue(f.extra[key])
    else Absent
  }

  /** `{...prev, [name]: value}`. */
  function SetTopLevel(prev: FormData, name: string, value: string): FormData {
    if name == "url" then prev.(url := value)
    else if name == "text" then prev.(text := value)
    else if name == "expiresAt" then prev.(expiresAt := Typed(value))
    else if name == "wifi" then prev.(wifi := Replaced(value))
    else if name == "email" then prev.(email := Replaced(value))
    else prev.(extra := prev.extra[name := value])
  }

  /** Whether `name` addresses a nested field: `const [category, field] =
      name.split('.')` with a non-empty field and a category of `wifi` or `email`. */
  predicate IsNested(name: string) {
    var parts := Split(name, '.');
    |parts| > 1 && parts[1] != "" && (parts[0] == "wifi" || parts[0] == "email")
  }

  function Category(name: string): string {
    Split(name, '.')[0]
  }

  function FieldName(name: string): string
    requires IsNested(name)
  {
    Split(name, '.')[1]
  }

  /** The state `handleInputChange` leaves for an input `name` and its `value`. */
  function InputChanged(prev: FormData, name: string, value: string): FormData {
    if IsNested(name) then
      var category, field := Category(name), FieldName(name);
      var group := if category == "wifi" then prev.wifi else prev.email;
      match group
      case Replaced(_) => prev
      case Fields(m) =>
        if category == "wifi" then prev.(wifi := Fields(m[field := value]))
        else prev.(email := Fields(m[field := value]))
    else SetTopLevel(prev, name, value)
  }

  /** A name that is not nested sets the member called exactly `name` to
      the string `value`, and every other member keeps its value. */
  lemma TopLevelUpdate(prev: FormData, name: string, value: string)
    requires !IsNested(name)
    ensures Member(InputChanged(prev, name, value), name) == StringValue(value)
    ensures forall k :: k != name ==> Member(InputChanged(prev, name, value), k) == Member(prev, k)
  {
  }

  /** A nested name `wifi.f` or `email.f` sets field `f` of that object to
      `value` and leaves the other fields and every other member alone; if
      the member is no longer an object the state is returned unchanged. */
  lemma NestedUpdate(prev: FormData, name: string, value: string)
    requires IsNested(name)
    ensures var after := InputChanged(prev, name, value);
            var c := Category(name);
            && (forall k :: k != c ==> Member(after, k) == Member(prev, k))
            && (Member(prev, c).Object? ==> Member(after, c) == Object(Member(prev, c).fields[FieldName(name) := value]))
            && (!Member(prev, c).Object? ==> after == prev)
  {
  }

  /** The page's `wifi.ssid` input addresses the `ssid` field of `wifi`. */
  lemma SsidInputIsNested()
    ensures IsNested("wifi.ssid") && Category("wifi.ssid") == "wifi" && FieldName("wifi.ssid") == "ssid"
  {
    assert "wifi.ssid" == "wifi" + ['.'] + "ssid";
    assert Join(["wifi", "ssid"], '.') == "wifi.ssid";
    SplitJoin(["wifi", "ssid"], '.');
  }

  const UrlRequired: string := "URL is required."
  const TextRequired: string := "Text is required."
  const SsidRequired: string := "Network Name (SSID) is required."
  const ToRequired: string := "Recipient email is required."
  const InvalidType: string := "Invalid QR Code type."
  /** The TypeError thrown when `expiresAt` holds a string, which has no `toISOString`. */
  const NotADate: string := "formData.expiresAt.toISOString is not a function"

  /** What submitting the form leads to: a message and no request, the
      request sent, or an exception before the request. */
  datatype Submission = Refused(message: string) | Send(request: Generate.Request) | Threw(message: string)

  /** The JSON body `{ qrDataType: activeTab, data: payloadData, colors: { dark, light } }`. */
  function RequestFor(tab: string, data: map<string, JsValue>, dark: string, light: string): Generate.Request {
    Generate.Request(Str(tab), Some(data), Some(Generate.Colors(Str(dark), Str(light))))
  }

  /** The `url` tab's payload: the URL, and the picked date's ISO form or null. */
  function UrlPayload(url: string, iso: Option<string>): map<string, JsValue> {
    map["url" := Str(url), "expiresAt" := OrNull(iso)]
  }

  /** A group's `field`, falsy when the group is a string (`'…'.ssid` is undefined). */
  function GroupField(g: Group, field: string): JsValue {
    match g
    case Fields(m) => Get(Strings(m), field)
    case Replaced(_) => Undefined
  }

  /** The switch of handleSubmit. */
  function BuildSubmission(tab: string, form: FormData, dark: string, light: string, d: DateLib): Submission {
    if tab == "url" then
      if form.url == "" then Refused(UrlRequired)
      else
        match form.expiresAt
        case Picked(None) => Send(RequestFor(tab, UrlPayload(form.url, None), dark, light))
        case Picked(Some(t)) => Send(RequestFor(tab, UrlPayload(form.url, Some(d.toIso(t))), dark, light))
        case Typed(s) =>
          if s == "" then Send(RequestFor(tab, UrlPayload(form.url, None), dark, light)) else Threw(NotADate)
    else if tab == "text" then
      if form.text == "" then Refused(TextRequired) else Send(RequestFor(tab, map["text" := Str(form.text)], dark, light))
    else if tab == "wifi" then
      if !Truthy(GroupField(form.wifi, "ssid")) then Refused(SsidRequired)
      else Send(RequestFor(tab, Strings(form.wifi.fields), dark, light))
    else if tab == "email" then
      if !Truthy(GroupField(form.email, "to")) then Refused(ToRequired)
      else Send(RequestFor(tab, Strings(form.email.fields), dark, light))
    else Refused(InvalidType)
  }

  /** Each tab refuses exactly when its required field is empty, with that
      tab's message. */
  lemma RequiredFields(form: FormData, dark: string, light: string, d: DateLib)
    ensures BuildSubmission("url", form, dark, light, d) == Refused(UrlRequired) <==> form.url == ""
    ensures BuildSubmission("text", form, dark, light, d) == Refused(TextRequired) <==> form.text == ""
    ensures BuildSubmission("wifi", form, dark, light, d) == Refused(SsidRequired) <==> !Truthy(GroupField(form.wifi, "ssid"))
    ensures BuildSubmission("email", form, dark, light, d) == Refused(ToRequired) <==> !Truthy(GroupField(form.email, "to"))
  {
  }

  /** Any other tab is refused as an invalid type; the known tabs never are. */
  lemma UnknownTab(tab: string, form: FormData, dark: string, light: string, d: DateLib)
    ensures BuildSubmission(tab, form, dark, light, d) == Refused(InvalidType)
            <==> tab !in {"url", "text", "wifi", "email"}
  {
  }

  /** A sent request carries the tab as its type, the two colours, and the
      tab's own record as its data. */
  lemma RequestShape(tab: string, form: FormData, dark: string, light: string, d: DateLib)
    requires BuildSubmission(tab, form, dark, light, d).Send?
    ensures var r := BuildSubmission(tab, form, dark, light, d).request;
            && r.qrDataType == Str(tab)
            && r.colors == Some(Generate.Colors(Str(dark), Str(light)))
            && r.data.Some?
            && (tab == "text" ==> r.data.value == map["text" := Str(form.text)])
            && (tab == "wifi" ==> form.wifi.Fields? && r.data.value == Strings(form.wifi.fields))
            && (tab == "email" ==> form.email.Fields? && r.data.value == Strings(form.email.fields))
            && (tab == "url" ==> Get(r.data.value, "url") == Str(form.url))
  {
  }

  /** For the `url` tab the request's `expiresAt` is the ISO form of the
      picked date, and null when none is picked. */
  lemma UrlExpiryPayload(form: FormData, dark: string, light: string, d: DateLib)
    requires form.url != "" && form.expiresAt.Picked?
    ensures var s := BuildSubmission("url", form, dark, light, d);
            && s.Send?
            && (form.expiresAt.at.None? ==> Get(s.request.data.value, "expiresAt") == Null)
            && (form.expiresAt.at.Some? ==> Get(s.request.data.value, "expiresAt") == Str(d.toIso(form.expiresAt.at.value)))
  {
  }

  /** The page's state. */
  class HomePage {
    var activeTab: string
    var form: FormData
    var darkColor: string
    var lightColor: string
    var isLoading: bool
    var error: string
    var qrCode: string
    var shortUrl: string

    constructor ()
      ensures activeTab == "url" && form == InitialForm()
      ensures darkColor == "#000000" && lightColor == "#FFFFFF"
      ensures !isLoading && error == "" && qrCode == "" && shortUrl == ""
    {
      activeTab := "url";
      form := InitialForm();
      darkColor := "#000000";
      lightColor := "#FFFFFF";
      isLoading := false;
      error := "";
      qrCode := "";
      shortUrl := "";
    }

    /** The tabs' `onSelect`: `setActiveTab(k || 'url')`. */
    method SelectTab(k: JsValue)
      modifies this
      ensures activeTab == OrElse(k, "url") && activeTab != ""
      ensures form == old(form) && darkColor == old(darkColor) && lightColor == old(lightColor)
      ensures isLoading == old(isLoading) && error == old(error) && qrCode == old(qrCode) && shortUrl == old(shortUrl)
    {
      activeTab := if Truthy(k) then k.value else "url";
    }

    /** The date picker's `onChange`. */
    method PickDate(at: Option<int>)
      modifies this
      ensures form == old(form).(expiresAt := Picked(at))
      ensures activeTab == old(activeTab) && darkColor == old(darkColor) && lightColor == old(lightColor)
      ensures isLoading == old(isLoading) && error == old(error) && qrCode == old(qrCode) && shortUrl == old(shortUrl)
    {
      form := form.(expiresAt := Picked(at));
    }

    /** The colour inputs' `onChange`. */
    method SetColors(dark: string, light: string)
      modifies this
      ensures darkColor == dark && lightColor == light
      ensures activeTab == old(activeTab) && form == old(form)
      ensures isLoading == old(isLoading) && error == old(error) && qrCode == old(qrCode) && shortUrl == old(shortUrl)
    {
      darkColor, lightColor := dark, light;
    }

    /** handleInputChange. */
    method HandleInputChange(name: string, value: string)
      modifies this
      ensures form == InputChanged(old(form), name, value)
      ensures activeTab == old(activeTab) && darkColor == old(darkColor) && lightColor == old(lightColor)
      ensures isLoading == old(isLoading) && error == old(error) && qrCode == old(qrCode) && shortUrl == old(shortUrl)
    {
      var parts := Split(name, '.');
      var category := parts[0];
      var field := if |parts| > 1 then Str(parts[1]) else Undefined;
      if Truthy(field) && (category == "wifi" || category == "email") {
        var prevCategory := if category == "wifi" then form.wifi else form.email;
        if prevCategory.Fields? {
          var g := Fields(prevCategory.fields[field.value := value]);
          form := if category == "wifi" then form.(wifi := g) else form.(email := g);
        }
      } else {
        form := SetTopLevel(form, name, value);
      }
    }

    /** handleSubmit up to the `fetch`: the messages and results are reset
        and loading starts; a refusal shows its message and stops loading;
        otherwise the request of BuildSubmission goes out (or the expiry
        conversion throws) with loading still on. The form is not touched. */
    method HandleSubmit(d: DateLib) returns (result: Submission)
      modifies this
      ensures result == BuildSubmission(old(activeTab), old(form), old(darkColor), old(lightColor), d)
      ensures qrCode == "" && shortUrl == ""
      ensures result.Refused? ==> error == result.message && !isLoading
      ensures !result.Refused? ==> error == "" && isLoading
      ensures activeTab == old(activeTab) && form == old(form) && darkColor == old(darkColor) && lightColor == old(lightColor)
    {
      isLoading := true;
      error := "";
      qrCode := "";
      shortUrl := "";
      var payloadData: map<string, JsValue>;
      match activeTab {
        case "url" =>
          if form.url == "" {
            error := UrlRequired;
            isLoading := false;
            return Refused(UrlRequired);
          }
          match form.expiresAt {
            case Picked(at) =>
              payloadData := UrlPayload(form.url, if at.Some? then Some(d.toIso(at.value)) else None);
            case Typed(s) =>
              if s != "" {
                return Threw(NotADate);
              }
              payloadData := UrlPayload(form.url, None);
          }
        case "text" =>
          if form.text == "" {
            error := TextRequired;
            isLoading := false;
            return Refused(TextRequired);
          }
          payloadData := map["text" := Str(form.text)];
        case "wifi" =>
          if !Truthy(GroupField(form.wifi, "ssid")) {
            error := SsidRequired;
            isLoading := false;
            return Refused(SsidRequired);
          }
          payloadData := Strings(form.wifi.fields);
        case "email" =>
          if !Truthy(GroupField(form.email, "to")) {
            error := ToRequired;
            isLoading := false;
            return Refused(ToRequired);
          }
          payloadData := Strings(form.email.fields);
        case _ =>
          error := InvalidType;
          isLoading := false;
          return Refused(InvalidType);
      }
      result := Send(RequestFor(activeTab, payloadData, darkColor, lightColor));
    }
  }
}
