/** The application/x-www-form-urlencoded serializer of the WHATWG URL
    Standard (section 5.2), which `URLSearchParams.prototype.toString` runs:
    each name and value is UTF-8 encoded, every byte outside ASCII
    alphanumerics and `*-._` is percent-encoded with upper-case hex digits,
    except the space, which becomes `+`; pairs are written `name=value` and
    joined with `&`. A strict decoder is given beside it as its inverse. */
module FormUrlEncoded {
  import opened JsValues
  import opened Text

  type byte = b: int | 0 <= b < 256

  /** The UTF-8 encoding of one Unicode scalar value. */
  function Utf8(c: char): (bs: seq<byte>)
    ensures 1 <= |bs| <= 4
    ensures |bs| == 1 <==> (c as int) < 0x80
    ensures |bs| == 1 ==> bs[0] == c as int
    ensures forall i :: 0 < i < |bs| ==> 0x80 <= bs[i] < 0xC0
    ensures |bs| > 1 ==> 0xC2 <= bs[0] <= 0xF4
  {
    var n := c as int;
    if n < 0x80 then [n]
    else if n < 0x800 then [0xC0 + n / 64, 0x80 + n % 64]
    else if n < 0x10000 then [0xE0 + n / 4096, 0x80 + (n / 64) % 64, 0x80 + n % 64]
    else [0xF0 + n / 262144, 0x80 + (n / 4096) % 64, 0x80 + (n / 64) % 64, 0x80 + n % 64]
  }

  function Utf8String(s: string): (bs: seq<byte>)
    ensures |bs| >= |s|
  {
    if s == [] then [] else Utf8(s[0]) + Utf8String(s[1..])
  }

  /** Bytes left as they are: ASCII alphanumerics, `*`, `-`, `.` and `_`. */
  predicate Unreserved(b: int) {
    || 0x30 <= b <= 0x39 || 0x41 <= b <= 0x5A || 0x61 <= b <= 0x7A
    || b == 0x2A || b == 0x2D || b == 0x2E || b == 0x5F
  }

  /** Characters an encoded name or value can contain. */
  predicate EncodedChar(ch: char) {
    Unreserved(ch as int) || ch == '+' || ch == '%'
  }

  /** The upper-case hexadecimal digit of `n`. */
  function HexDigit(n: int): (ch: char)
    requires 0 <= n < 16
    ensures UpperHex(ch) && HexValue(ch) == Some(n)
  {
    if n < 10 then ('0' as int + n) as char else ('A' as int + n - 10) as char
  }

  /** The value of a hexadecimal digit of either case. */
  function HexValue(ch: char): Option<int> {
    if '0' <= ch <= '9' then Some(ch as int - '0' as int)
    else if 'A' <= ch <= 'F' then Some(ch as int - 'A' as int + 10)
    else if 'a' <= ch <= 'f' then Some(ch as int - 'a' as int + 10)
    else None
  }

  /** Upper-case hexadecimal digits, the ones the serializer writes. */
  predicate UpperHex(ch: char) {
    '0' <= ch <= '9' || 'A' <= ch <= 'F'
  }

  /** A space becomes `+`, an unreserved byte stays, any other byte becomes
      `%` and two upper-case hex digits whose value is the byte. */
  function EncodeByte(b: byte): (r: string)
    ensures forall i :: 0 <= i < |r| ==> EncodedChar(r[i])
    ensures b == 0x20 ==> r == "+"
    ensures Unreserved(b) ==> |r| == 1 && r[0] as int == b
    ensures b != 0x20 && !Unreserved(b) ==>
              && |r| == 3 && r[0] == '%' && UpperHex(r[1]) && UpperHex(r[2])
              && HexValue(r[1]).Some? && HexValue(r[2]).Some?
              && 16 * HexValue(r[1]).value + HexValue(r[2]).value == b
  {
    if b == 0x20 then "+"
    else if Unreserved(b) then [b as char]
    else
      assert 16 * (b / 16) + b % 16 == b;
      ['%', HexDigit(b / 16), HexDigit(b % 16)]
  }

  function EncodeBytes(bs: seq<byte>): (r: string)
    ensures forall i :: 0 <= i < |r| ==> EncodedChar(r[i])
  {
    if bs == [] then "" else EncodeByte(bs[0]) + EncodeBytes(bs[1..])
  }

  /** The encoding of one name or value. */
  function Encode(s: string): string {
    EncodeBytes(Utf8String(s))
  }

  function EncodePair(p: (string, string)): string {
    Encode(p.0) + "=" + Encode(p.1)
  }

  function EncodePairs(pairs: seq<(string, string)>): (parts: seq<string>)
    ensures |parts| == |pairs|
    ensures forall i :: 0 <= i < |parts| ==> parts[i] == EncodePair(pairs[i])
  {
    if pairs == [] then [] else [EncodePair(pairs[0])] + EncodePairs(pairs[1..])
  }

  /** `new URLSearchParams(pairs).toString()`. */
  function Serialize(pairs: seq<(string, string)>): string {
    Join(EncodePairs(pairs), '&')
  }

  function Prepend(b: byte, rest: Option<seq<byte>>): Option<seq<byte>> {
    if rest.Some? then Some([b] + rest.value) else None
  }

  /** Decodes an encoded name or value back to its bytes: `+` is a space,
      `%XX` a byte, an ASCII character itself; anything else is malformed. */
  function DecodeBytes(t: string): Option<seq<byte>>
    decreases |t|
  {
    if t == [] then Some([])
    else if t[0] == '+' then Prepend(0x20, DecodeBytes(t[1..]))
    else if t[0] == '%' then
      if |t| >= 3 && HexValue(t[1]).Some? && HexValue(t[2]).Some? then
        Prepend(16 * HexValue(t[1]).value + HexValue(t[2]).value, DecodeBytes(t[3..]))
      else None
    else if (t[0] as int) < 0x80 then Prepend(t[0] as int, DecodeBytes(t[1..]))
    else None
  }

  /** The bytes of every name and value, in order. */
  function BytePairs(pairs: seq<(string, string)>): (r: seq<(seq<byte>, seq<byte>)>)
    ensures |r| == |pairs|
  {
    if pairs == [] then [] else [(Utf8String(pairs[0].0), Utf8String(pairs[0].1))] + BytePairs(pairs[1..])
  }

  function ParsePairs(parts: seq<string>): Option<seq<(seq<byte>, seq<byte>)>> {
    if parts == [] then Some([])
    else
      var kv := Split(parts[0], '=');
      if |kv| != 2 then None
      else
        match (DecodeBytes(kv[0]), DecodeBytes(kv[1]), ParsePairs(parts[1..]))
        case (Some(k), Some(v), Some(rest)) => Some([(k, v)] + rest)
        case _ => None
  }

  /** Reads a serialized list back as the bytes of its names and values. */
  function ParseQuery(q: string): Option<seq<(seq<byte>, seq<byte>)>> {
    if q == "" then Some([]) else ParsePairs(Split(q, '&'))
  }

  /** Decoding one encoded byte in front of more text. */
  lemma DecodeEncodedByte(b: byte, rest: string)
    ensures DecodeBytes(EncodeByte(b) + rest) == Prepend(b, DecodeBytes(rest))
  {
    var t := EncodeByte(b) + rest;
    if b == 0x20 || Unreserved(b) {
      assert t[0] == EncodeByte(b)[0];
      assert t[1..] == rest;
    } else {
      assert t[0] == '%' && t[1] == HexDigit(b / 16) && t[2] == HexDigit(b % 16);
      assert t[3..] == rest;
    }
  }

  /** Decoding the encoding of any bytes gives the bytes back. */
  lemma {:induction false} DecodeEncodeBytes(bs: seq<byte>)
    ensures DecodeBytes(EncodeBytes(bs)) == Some(bs)
  {
    if bs != [] {
      DecodeEncodeBytes(bs[1..]);
      DecodeEncodedByte(bs[0], EncodeBytes(bs[1..]));
      assert [bs[0]] + bs[1..] == bs;
    }
  }

  /** An encoded name or value decodes to the UTF-8 bytes of the original. */
  lemma DecodeEncode(s: string)
    ensures DecodeBytes(Encode(s)) == Some(Utf8String(s))
  {
    DecodeEncodeBytes(Utf8String(s));
  }

  lemma EncodePairSplits(p: (string, string))
    ensures Split(EncodePair(p), '=') == [Encode(p.0), Encode(p.1)]
  {
    var a, b := Encode(p.0), Encode(p.1);
    assert forall j :: 0 <= j < |a| ==> a[j] != '=';
    assert forall j :: 0 <= j < |b| ==> b[j] != '=';
    assert Join([a, b], '=') == EncodePair(p);
    SplitJoin([a, b], '=');
  }

  lemma {:induction false} ParseEncodedPairs(pairs: seq<(string, string)>)
    ensures ParsePairs(EncodePairs(pairs)) == Some(BytePairs(pairs))
  {
    if pairs != [] {
      var parts := EncodePairs(pairs);
      assert parts[1..] == EncodePairs(pairs[1..]);
      ParseEncodedPairs(pairs[1..]);
      EncodePairSplits(pairs[0]);
      DecodeEncode(pairs[0].0);
      DecodeEncode(pairs[0].1);
    }
  }

  /** No `&` occurs inside an encoded pair, so `&` splits the list exactly. */
  lemma NoAmpersandInPair(p: (string, string))
    ensures '&' !in EncodePair(p)
  {
    var a, b := Encode(p.0), Encode(p.1);
    forall j | 0 <= j < |EncodePair(p)| ensures EncodePair(p)[j] != '&' {
      if j < |a| {
        assert EncodePair(p)[j] == a[j];
      } else if j > |a| {
        assert EncodePair(p)[j] == b[j - |a| - 1];
      }
    }
  }

  /** Round trip of the serializer: reading back a serialized list yields, in
      order, the UTF-8 bytes of every name and value that went in. */
  lemma QueryRoundTrip(pairs: seq<(string, string)>)
    ensures ParseQuery(Serialize(pairs)) == Some(BytePairs(pairs))
  {
    var parts := EncodePairs(pairs);
    if pairs != [] {
      forall i | 0 <= i < |parts| ensures '&' !in parts[i] {
        NoAmpersandInPair(pairs[i]);
      }
      SplitJoin(parts, '&');
      assert |parts[0]| >= 1 by { assert EncodePair(pairs[0])[|Encode(pairs[0].0)|] == '='; }
      assert Serialize(pairs) != "";
      ParseEncodedPairs(pairs);
    }
  }

  lemma {:induction false} Utf8Concat(a: string, b: string)
    ensures Utf8String(a + b) == Utf8String(a) + Utf8String(b)
  {
    if a == [] {
      assert a + b == b;
    } else {
      assert (a + b)[0] == a[0] && (a + b)[1..] == a[1..] + b;
      Utf8Concat(a[1..], b);
    }
  }

  lemma {:induction false} EncodeBytesConcat(x: seq<byte>, y: seq<byte>)
    ensures EncodeBytes(x + y) == EncodeBytes(x) + EncodeBytes(y)
  {
    if x == [] {
      assert x + y == y;
    } else {
      assert (x + y)[0] == x[0] && (x + y)[1..] == x[1..] + y;
      EncodeBytesConcat(x[1..], y);
    }
  }

  /** Names and values are encoded character by character. */
  lemma EncodeConcat(a: string, b: string)
    ensures Encode(a + b) == Encode(a) + Encode(b)
  {
    Utf8Concat(a, b);
    EncodeBytesConcat(Utf8String(a), Utf8String(b));
  }

  /** Text made only of unreserved characters is written as it is. */
  lemma {:induction false} EncodeUnreserved(s: string)
    requires forall i :: 0 <= i < |s| ==> Unreserved(s[i] as int)
    ensures Encode(s) == s
  {
    if s != [] {
      EncodeUnreserved(s[1..]);
      assert Utf8String(s) == Utf8(s[0]) + Utf8String(s[1..]);
      assert Utf8(s[0]) == [s[0] as int];
      assert EncodeBytes(Utf8String(s)) == EncodeByte(s[0] as int) + EncodeBytes(Utf8String(s[1..]));
      assert [s[0]] + s[1..] == s;
    }
  }

  /** A space is written `+`. */
  lemma EncodeSpace()
    ensures Encode(" ") == "+"
  {
    assert Utf8String(" ") == [0x20];
  }

  /** Two unreserved words around a space: the space alone changes, to `+`. */
  lemma EncodeSpaced(a: string, b: string)
    requires forall i :: 0 <= i < |a| ==> Unreserved(a[i] as int)
    requires forall i :: 0 <= i < |b| ==> Unreserved(b[i] as int)
    ensures Encode(a + " " + b) == a + "+" + b
  {
    EncodeUnreserved(a);
    EncodeUnreserved(b);
    EncodeSpace();
    EncodeConcat(a, " ");
    EncodeConcat(a + " ", b);
  }

  predicate Continuation(b: byte) {
    0x80 <= b < 0xC0
  }

  /** The character with scalar value `n`, if there is one. */
  function Scalar(n: int, rest: seq<byte>): (r: Option<(char, seq<byte>)>)
    ensures r.Some? ==> r.value.1 == rest
  {
    if 0 <= n < 0xD800 || 0xE000 <= n < 0x11_0000 then Some((n as char, rest)) else None
  }

  /** Reads one UTF-8 encoded character at the front of `bs`: the lead byte
      gives the length, each continuation byte six more bits. */
  function DecodeChar(bs: seq<byte>): (r: Option<(char, seq<byte>)>)
    ensures r.Some? ==> |r.value.1| < |bs|
  {
    if bs == [] then None
    else
      var b0 := bs[0] as int;
      if b0 < 0x80 then Some((b0 as char, bs[1..]))
      else if b0 < 0xC0 then None
      else if b0 < 0xE0 then
        if |bs| >= 2 && Continuation(bs[1]) then Scalar((b0 - 0xC0) * 64 + (bs[1] as int - 0x80), bs[2..]) else None
      else if b0 < 0xF0 then
        if |bs| >= 3 && Continuation(bs[1]) && Continuation(bs[2])
        then Scalar((b0 - 0xE0) * 4096 + (bs[1] as int - 0x80) * 64 + (bs[2] as int - 0x80), bs[3..])
        else None
      else if |bs| >= 4 && Continuation(bs[1]) && Continuation(bs[2]) && Continuation(bs[3])
      then Scalar((b0 - 0xF0) * 262144 + (bs[1] as int - 0x80) * 4096 + (bs[2] as int - 0x80) * 64 + (bs[3] as int - 0x80), bs[4..])
      else None
  }

  /** Reads UTF-8 bytes back as text. */
  function DecodeUtf8(bs: seq<byte>): Option<string>
    decreases |bs|
  {
    if bs == [] then Some("")
    else
      match DecodeChar(bs)
      case None => None
      case Some((c, rest)) =>
        match DecodeUtf8(rest)
        case None => None
        case Some(t) => Some([c] + t)
  }

  lemma DecodeTwo(c: char, rest: seq<byte>)
    requires 0x80 <= c as int < 0x800
    ensures DecodeChar(Utf8(c) + rest) == Some((c, rest))
  {
    var n := c as int;
    var bs := Utf8(c) + rest;
    assert bs[0] == 0xC0 + n / 64 && bs[1] == 0x80 + n % 64 && bs[2..] == rest;
    assert (n / 64) * 64 + n % 64 == n;
  }

  lemma DecodeThree(c: char, rest: seq<byte>)
    requires 0x800 <= c as int < 0x10000
    ensures DecodeChar(Utf8(c) + rest) == Some((c, rest))
  {
    var n := c as int;
    var bs := Utf8(c) + rest;
    assert bs[0] == 0xE0 + n / 4096 && bs[1] == 0x80 + (n / 64) % 64 && bs[2] == 0x80 + n % 64;
    assert bs[3..] == rest;
    assert n / 64 == (n / 4096) * 64 + (n / 64) % 64;
    assert n == (n / 64) * 64 + n % 64;
  }

  lemma DecodeFour(c: char, rest: seq<byte>)
    requires 0x10000 <= c as int
    ensures DecodeChar(Utf8(c) + rest) == Some((c, rest))
  {
    var n := c as int;
    var bs := Utf8(c) + rest;
    assert bs[0] == 0xF0 + n / 262144 && bs[1] == 0x80 + (n / 4096) % 64;
    assert bs[2] == 0x80 + (n / 64) % 64 && bs[3] == 0x80 + n % 64;
    assert bs[4..] == rest;
    assert n / 4096 == (n / 262144) * 64 + (n / 4096) % 64;
    assert n / 64 == (n / 4096) * 64 + (n / 64) % 64;
    assert n == (n / 64) * 64 + n % 64;
  }

  /** The decoder reads back the character the encoder wrote. */
  lemma DecodeCharUtf8(c: char, rest: seq<byte>)
    ensures DecodeChar(Utf8(c) + rest) == Some((c, rest))
  {
    var n := c as int;
    if n < 0x80 {
      var bs := Utf8(c) + rest;
      assert bs[0] == n && bs[1..] == rest;
    } else if n < 0x800 {
      DecodeTwo(c, rest);
    } else if n < 0x10000 {
      DecodeThree(c, rest);
    } else {
      DecodeFour(c, rest);
    }
  }

  /** Decoding UTF-8 inverts encoding. */
  lemma {:induction false} DecodeUtf8String(s: string)
    ensures DecodeUtf8(Utf8String(s)) == Some(s)
  {
    if s != [] {
      DecodeUtf8String(s[1..]);
      DecodeCharUtf8(s[0], Utf8String(s[1..]));
      assert [s[0]] + s[1..] == s;
    }
  }

  /** Different texts have different UTF-8 encodings. */
  lemma Utf8Injective(a: string, b: string)
    requires Utf8String(a) == Utf8String(b)
    ensures a == b
  {
    DecodeUtf8String(a);
    DecodeUtf8String(b);
  }

  /** The bytes of the names and values determine the names and values. */
  lemma {:induction false} BytePairsInjective(p: seq<(string, string)>, q: seq<(string, string)>)
    requires BytePairs(p) == BytePairs(q)
    ensures p == q
  {
    if p != [] {
      assert BytePairs(p)[0] == BytePairs(q)[0];
      Utf8Injective(p[0].0, q[0].0);
      Utf8Injective(p[0].1, q[0].1);
      assert BytePairs(p)[1..] == BytePairs(q)[1..];
      BytePairsInjective(p[1..], q[1..]);
      assert p == [p[0]] + p[1..] && q == [q[0]] + q[1..];
    }
  }

  /** Two lists of pairs serialize alike only when they are the same list:
      the query string determines every name and value, in order. */
  lemma SerializeInjective(p: seq<(string, string)>, q: seq<(string, string)>)
    requires Serialize(p) == Serialize(q)
    ensures p == q
  {
    QueryRoundTrip(p);
    QueryRoundTrip(q);
    BytePairsInjective(p, q);
  }

  predicate SerializedChar(ch: char) {
    EncodedChar(ch) || ch == '=' || ch == '&'
  }

  lemma PairAlphabet(p: (string, string))
    ensures forall j :: 0 <= j < |EncodePair(p)| ==> SerializedChar(EncodePair(p)[j])
  {
    var a, b := Encode(p.0), Encode(p.1);
    forall j | 0 <= j < |EncodePair(p)| ensures SerializedChar(EncodePair(p)[j]) {
      if j < |a| {
        assert EncodePair(p)[j] == a[j];
      } else if j > |a| {
        assert EncodePair(p)[j] == b[j - |a| - 1];
      }
    }
  }

  /** A serialized list holds only encoded characters, `=` and `&`. */
  lemma SerializedAlphabet(pairs: seq<(string, string)>)
    ensures forall i :: 0 <= i < |Serialize(pairs)| ==> SerializedChar(Serialize(pairs)[i])
  {
    var parts := EncodePairs(pairs);
    forall i, j | 0 <= i < |parts| && 0 <= j < |parts[i]| ensures SerializedChar(parts[i][j]) {
      PairAlphabet(pairs[i]);
    }
    JoinAlphabet(parts);
  }

  lemma {:induction false} JoinAlphabet(parts: seq<string>)
    requires forall i, j :: 0 <= i < |parts| && 0 <= j < |parts[i]| ==> SerializedChar(parts[i][j])
    ensures forall k :: 0 <= k < |Join(parts, '&')| ==> SerializedChar(Join(parts, '&')[k])
  {
    if |parts| > 1 {
      JoinAlphabet(parts[1..]);
      var tail := Join(parts[1..], '&');
      forall k | 0 <= k < |Join(parts, '&')| ensures SerializedChar(Join(parts, '&')[k]) {
        if k < |parts[0]| {
          assert Join(parts, '&')[k] == parts[0][k];
        } else if k > |parts[0]| {
          assert Join(parts, '&')[k] == tail[k - |parts[0]| - 1];
        }
      }
    }
  }
}
