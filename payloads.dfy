/** The payload strings the generate route encodes for Wi-Fi credentials and
    for e-mail links (src/app/api/generate/route.ts, formatWifi and
    formatEmail), with readers that take them apart again. */
module Payloads {
  import opened JsValues
  import opened Text
  import opened FormUrlEncoded

  /** The characters the Wi-Fi format escapes: backslash, `;`, `,`, `:` and `"`. */
  predicate Special(ch: char) {
    ch == '\\' || ch == ';' || ch == ',' || ch == ':' || ch == '"'
  }

  function CountSpecial(s: string): nat {
    if s == [] then 0 else (if Special(s[0]) then 1 else 0) + CountSpecial(s[1..])
  }

  /** `s.replace(/([\\;,:"])/g, '\\$1')`: a backslash in front of every
      special character. */
  function Escape(s: string): string {
    if s == [] then ""
    else (if Special(s[0]) then ['\\', s[0]] else [s[0]]) + Escape(s[1..])
  }

  /** The escaped text is longer by the number of special characters. */
  lemma {:induction false} EscapeLength(s: string)
    ensures |Escape(s)| == |s| + CountSpecial(s)
  {
    if s != [] {
      EscapeLength(s[1..]);
    }
  }

  /** Escaping works character by character. */
  lemma {:induction false} EscapeConcat(a: string, b: string)
    ensures Escape(a + b) == Escape(a) + Escape(b)
  {
    if a == [] {
      assert a + b == b;
    } else {
      assert (a + b)[0] == a[0];
      assert (a + b)[1..] == a[1..] + b;
      EscapeConcat(a[1..], b);
    }
  }

  /** One character: a special one gains a backslash, any other is unchanged. */
  lemma EscapeOne(ch: char)
    ensures Escape([ch]) == if Special(ch) then ['\\', ch] else [ch]
  {
    assert [ch][1..] == [];
  }

  /** A text without special characters is its own escape. */
  lemma {:induction false} EscapePlain(s: string)
    requires forall i :: 0 <= i < |s| ==> !Special(s[i])
    ensures Escape(s) == s
  {
    if s != [] {
      EscapePlain(s[1..]);
      assert s == [s[0]] + s[1..];
    }
  }

  /** Reads one field of a Wi-Fi payload: the text up to the first `;` that
      is not escaped, with one backslash removed before each escaped
      character, and what follows that `;`. None if no `;` ends the field. */
  function ScanField(s: string): Option<(string, string)>
    decreases |s|
  {
    if s == [] then None
    else if s[0] == ';' then Some(("", s[1..]))
    else if s[0] == '\\' && |s| >= 2 then
      match ScanField(s[2..])
      case Some((v, rest)) => Some(([s[1]] + v, rest))
      case None => None
    else
      match ScanField(s[1..])
      case Some((v, rest)) => Some(([s[0]] + v, rest))
      case None => None
  }

  /** Removing the escapes recovers every field exactly, whatever it contains,
      and the field ends at the `;` the format puts after it. */
  lemma {:induction false} ScanEscaped(x: string, rest: string)
    ensures ScanField(Escape(x) + ";" + rest) == Some((x, rest))
  {
    var t := Escape(x) + ";" + rest;
    if x == [] {
      assert t == ";" + rest;
    } else {
      ScanEscaped(x[1..], rest);
      var tail := Escape(x[1..]) + ";" + rest;
      if Special(x[0]) {
        assert t == ['\\', x[0]] + tail;
        assert t[2..] == tail;
      } else {
        assert t == [x[0]] + tail;
        assert t[1..] == tail;
      }
      assert [x[0]] + x[1..] == x;
    }
  }

  /** The password segment is the escaped password, or empty when the
      password is absent or empty. */
  function PasswordField(password: JsValue): string {
    if Truthy(password) then Escape(password.value) else ""
  }

  /** formatWifi: `WIFI:T:<encryption>;S:<escaped ssid>;P:<escaped password>;;`. */
  function FormatWifi(ssid: string, password: JsValue, encryption: JsValue): string {
    "WIFI:T:" + Interpolate(encryption) + ";S:" + Escape(ssid) + ";P:" + PasswordField(password) + ";;"
  }

  /** The rest of `s` after `tag`, if `s` starts with it. */
  function Expect(tag: string, s: string): Option<string> {
    if |tag| <= |s| && s[..|tag|] == tag then Some(s[|tag|..]) else None
  }

  /** Reads a field that follows `tag`. */
  function TaggedField(tag: string, s: string): Option<(string, string)> {
    match Expect(tag, s)
    case Some(r) => ScanField(r)
    case None => None
  }

  lemma TaggedEscaped(tag: string, x: string, rest: string)
    ensures TaggedField(tag, tag + Escape(x) + ";" + rest) == Some((x, rest))
  {
    var s := tag + Escape(x) + ";" + rest;
    assert s == tag + (Escape(x) + ";" + rest);
    assert s[..|tag|] == tag && s[|tag|..] == Escape(x) + ";" + rest;
    ScanEscaped(x, rest);
  }

  /** Reads a Wi-Fi payload back into its encryption, network name and password. */
  function ParseWifi(p: string): Option<(string, string, string)> {
    match TaggedField("WIFI:T:", p)
    case None => None
    case Some((enc, r1)) =>
      match TaggedField("S:", r1)
      case None => None
      case Some((ssid, r2)) =>
        match TaggedField("P:", r2)
        case None => None
        case Some((pass, r3)) => if r3 == ";" then Some((enc, ssid, pass)) else None
  }

  /** ParseWifi reads the three fields in turn. */
  lemma ParseWifiSteps(p: string, r1: string, r2: string, enc: string, ssid: string, pass: string)
    requires TaggedField("WIFI:T:", p) == Some((enc, r1))
    requires TaggedField("S:", r1) == Some((ssid, r2))
    requires TaggedField("P:", r2) == Some((pass, ";"))
    ensures ParseWifi(p) == Some((enc, ssid, pass))
  {
  }

  lemma PasswordFieldEscapes(password: JsValue, pass: string)
    requires pass == if Truthy(password) then password.value else ""
    ensures PasswordField(password) == Escape(pass)
  {
    assert Escape("") == "";
  }

  /** formatWifi writes each field escaped and closed by `;`. */
  lemma FormatWifiLayout(ssid: string, password: JsValue, encryption: JsValue, pass: string)
    requires Escape(Interpolate(encryption)) == Interpolate(encryption)
    requires pass == if Truthy(password) then password.value else ""
    ensures FormatWifi(ssid, password, encryption)
         == "WIFI:T:" + Escape(Interpolate(encryption)) + ";"
            + ("S:" + Escape(ssid) + ";" + ("P:" + Escape(pass) + ";" + ";"))
  {
    PasswordFieldEscapes(password, pass);
    var enc := Interpolate(encryption);
    assert "WIFI:T:" + enc + ";S:" + Escape(ssid) + ";P:" + Escape(pass) + ";;"
        == "WIFI:T:" + enc + ";" + ("S:" + Escape(ssid) + ";" + ("P:" + Escape(pass) + ";" + ";"));
  }

  /** Round trip of formatWifi: a reader of the format gets back the
      encryption as given, the network name and the password (empty when
      none was supplied), whatever special characters they hold. */
  lemma WifiRoundTrip(ssid: string, password: JsValue, encryption: JsValue)
    requires forall i :: 0 <= i < |Interpolate(encryption)| ==> !Special(Interpolate(encryption)[i])
    ensures ParseWifi(FormatWifi(ssid, password, encryption))
         == Some((Interpolate(encryption), ssid, if Truthy(password) then password.value else ""))
  {
    var enc := Interpolate(encryption);
    var pass := if Truthy(password) then password.value else "";
    var r2 := "P:" + Escape(pass) + ";" + ";";
    var r1 := "S:" + Escape(ssid) + ";" + r2;
    EscapePlain(enc);
    FormatWifiLayout(ssid, password, encryption, pass);
    TaggedEscaped("WIFI:T:", enc, r1);
    TaggedEscaped("S:", ssid, r2);
    TaggedEscaped("P:", pass, ";");
    ParseWifiSteps(FormatWifi(ssid, password, encryption), r1, r2, enc, ssid, pass);
  }

  /** The query pairs formatEmail appends: subject first, then body, each only
      when it is non-empty. */
  function EmailParams(subject: JsValue, body: JsValue): seq<(string, string)> {
    (if Truthy(subject) then [(SubjectKey, subject.value)] else [])
    + (if Truthy(body) then [(BodyKey, body.value)] else [])
  }

  const SubjectKey: string := "subject"
  const BodyKey: string := "body"

  /** A `mailto:` address for `to`, followed by `?` and `query` when the
      query is non-empty. */
  function Mailto(to: string, query: string): string {
    "mailto:" + to + (if query != "" then "?" + query else "")
  }

  /** formatEmail: the recipient as given, then the serialized parameters. */
  function FormatEmail(to: JsValue, subject: JsValue, body: JsValue): string {
    Mailto(Interpolate(to), Serialize(EmailParams(subject, body)))
  }

  lemma SerializeEmpty(pairs: seq<(string, string)>)
    ensures Serialize(pairs) == "" <==> pairs == []
  {
    if pairs != [] {
      var first := EncodePair(pairs[0]);
      assert first[|Encode(pairs[0].0)|] == '=';
      assert |Serialize(pairs)| >= |first|;
    }
  }

  lemma NoQuestionMark(pairs: seq<(string, string)>)
    ensures '?' !in Serialize(pairs)
  {
    SerializedAlphabet(pairs);
    var q := Serialize(pairs);
    assert forall i :: 0 <= i < |q| ==> q[i] != '?';
  }

  /** The address comes first; a `?` follows exactly when the query is
      non-empty, and the rest is the query. */
  lemma MailtoLayout(to: string, query: string)
    ensures var r := Mailto(to, query);
            var head := "mailto:" + to;
            && |r| >= |head| && r[..|head|] == head
            && (|r| > |head| <==> query != "")
            && (query != "" ==> r[|head|] == '?' && r[|head| + 1..] == query)
  {
    var head := "mailto:" + to;
    if query != "" {
      var r := head + (['?'] + query);
      assert Mailto(to, query) == r;
      assert r[..|head|] == head;
      assert r[|head| + 1..] == query;
    }
  }

  lemma EmailParamsEmpty(subject: JsValue, body: JsValue)
    ensures EmailParams(subject, body) == [] <==> !Truthy(subject) && !Truthy(body)
  {
  }

  /** Shape of an e-mail payload: it starts with `mailto:` and the recipient
      as given, unencoded; a `?` follows exactly when subject or body is
      non-empty; and the text after it reads back as `subject` and then
      `body`, each present only when non-empty, with their UTF-8 bytes. */
  lemma EmailLayout(to: JsValue, subject: JsValue, body: JsValue)
    ensures var r := FormatEmail(to, subject, body);
            var head := "mailto:" + Interpolate(to);
            && |r| >= |head| && r[..|head|] == head
            && (|r| > |head| <==> Truthy(subject) || Truthy(body))
            && (|r| > |head| ==> r[|head|] == '?' && ParseQuery(r[|head| + 1..]) == Some(BytePairs(EmailParams(subject, body))))
  {
    var pairs := EmailParams(subject, body);
    MailtoLayout(Interpolate(to), Serialize(pairs));
    SerializeEmpty(pairs);
    EmailParamsEmpty(subject, body);
    QueryRoundTrip(pairs);
  }

  lemma JoinPair(a: string, b: string, c: char)
    ensures Join([a, b], c) == a + ([c] + b)
  {
    assert [a, b][1..] == [b];
  }

  lemma AbsentFromConcat(a: string, b: string, c: char)
    requires c !in a && c !in b
    ensures c !in a + b
  {
    forall j | 0 <= j < |a + b| ensures (a + b)[j] != c {
      if j >= |a| {
        assert (a + b)[j] == b[j - |a|];
      } else {
        assert (a + b)[j] == a[j];
      }
    }
  }

  /** With no `?` in the recipient or the query, splitting at `?` gives back
      the address and, when there is one, the query. */
  lemma MailtoSplits(to: string, query: string)
    requires '?' !in to && '?' !in query
    ensures Split(Mailto(to, query), '?') == ["mailto:" + to] + (if query != "" then [query] else [])
  {
    var head := "mailto:" + to;
    assert '?' !in "mailto:";
    AbsentFromConcat("mailto:", to, '?');
    var pieces := [head] + (if query != "" then [query] else []);
    if query != "" {
      assert pieces == [head, query];
      JoinPair(head, query, '?');
    } else {
      assert pieces == [head];
    }
    assert Mailto(to, query) == Join(pieces, '?');
    SplitJoin(pieces, '?');
  }

  /** With a recipient free of `?`, the `?` splits the payload into exactly
      the recipient part and the parameters. */
  lemma EmailSplitsAtQuestionMark(to: JsValue, subject: JsValue, body: JsValue)
    requires '?' !in Interpolate(to)
    ensures var parts := Split(FormatEmail(to, subject, body), '?');
            && parts[0] == "mailto:" + Interpolate(to)
            && (|parts| == 2 <==> Truthy(subject) || Truthy(body))
            && (|parts| == 1 <==> !Truthy(subject) && !Truthy(body))
            && (|parts| == 2 ==> ParseQuery(parts[1]) == Some(BytePairs(EmailParams(subject, body))))
  {
    var pairs := EmailParams(subject, body);
    NoQuestionMark(pairs);
    MailtoSplits(Interpolate(to), Serialize(pairs));
    SerializeEmpty(pairs);
    EmailParamsEmpty(subject, body);
    QueryRoundTrip(pairs);
  }

  /** With an empty subject, the query is the body pair alone. */
  lemma BodyOnly(v: string)
    requires v != ""
    ensures Serialize(EmailParams(Str(""), Str(v))) == "body=" + Encode(v)
  {
    EncodeUnreserved(BodyKey);
    var pairs := EmailParams(Str(""), Str(v));
    assert pairs == [(BodyKey, v)];
    assert EncodePairs(pairs) == [EncodePair((BodyKey, v))];
  }

  /** An empty subject is left out and a space in the body is written `+`,
      as URLSearchParams does: `to` = `a@example.com` with body `hello world`
      gives `mailto:a@example.com?body=hello+world`. */
  lemma EmailSpaceAsPlus(to: string, a: string, b: string)
    requires forall i :: 0 <= i < |a| ==> Unreserved(a[i] as int)
    requires forall i :: 0 <= i < |b| ==> Unreserved(b[i] as int)
    ensures FormatEmail(Str(to), Str(""), Str(a + " " + b)) == "mailto:" + to + "?body=" + a + "+" + b
  {
    EncodeSpaced(a, b);
    BodyOnly(a + " " + b);
  }

  lemma EscapeCons(ch: char, rest: string)
    ensures Escape([ch] + rest) == (if Special(ch) then ['\\', ch] else [ch]) + Escape(rest)
  {
    assert ([ch] + rest)[0] == ch;
    assert ([ch] + rest)[1..] == rest;
  }

  /** The shape of the Wi-Fi example's network name: words that escape to
      themselves around a `;` and a `"`. */
  lemma EscapeAroundSpecials(a: string, b: string, c: string)
    requires Escape(a) == a && Escape(b) == b && Escape(c) == c
    ensures Escape(a + ([';'] + (b + (['"'] + c)))) == a + (['\\', ';'] + (b + (['\\', '"'] + c)))
  {
    EscapeCons('"', c);
    EscapeConcat(b, ['"'] + c);
    EscapeCons(';', b + (['"'] + c));
    EscapeConcat(a, [';'] + (b + (['"'] + c)));
  }

  lemma ExampleTexts()
    ensures "My" + ([';'] + ("Net" + (['"'] + "work"))) == "My;Net\"work"
    ensures "My" + (['\\', ';'] + ("Net" + (['\\', '"'] + "work"))) == "My\\;Net\\\"work"
  {
  }

  lemma EscapeExample()
    ensures Escape("My;Net\"work") == "My\\;Net\\\"work"
  {
    EscapePlain("My");
    EscapePlain("Net");
    EscapePlain("work");
    EscapeAroundSpecials("My", "Net", "work");
    ExampleTexts();
  }

  /** A WPA network without a password has an empty P segment. */
  lemma WifiWpaNoPassword(ssid: string)
    ensures FormatWifi(ssid, Undefined, Str("WPA")) == "WIFI:T:WPA;S:" + Escape(ssid) + ";P:;;"
  {
    assert PasswordField(Undefined) == "";
  }

  /** A null encryption is written `null`, as `${null}` is, and a null
      password, being falsy, leaves the P segment empty. */
  lemma WifiNullMembers(ssid: string)
    ensures FormatWifi(ssid, Null, Null) == "WIFI:T:null;S:" + Escape(ssid) + ";P:;;"
  {
    assert PasswordField(Null) == "";
  }

  /** A null recipient is written `mailto:null`. */
  lemma EmailNullRecipient(subject: JsValue, body: JsValue)
    ensures var r := FormatEmail(Null, subject, body);
            |r| >= 11 && r[..11] == "mailto:null"
  {
    EmailLayout(Null, subject, body);
  }
}
