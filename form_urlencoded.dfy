/** The application/x-www-form-urlencoded format of the WHATWG URL Standard,
    which `URLSearchParams.prototype.toString` produces: the serializer of
    section 5.2, and the parser of section 5.1 as its inverse. */
module FormUrlEncoded {
  import opened Wrappers
  import Utf8

  type Byte = Utf8.Byte
  type Pairs = seq<(string, string)>

  /** Bytes written as themselves: ASCII alphanumerics and `*`, `-`, `.`, `_`,
      the complement of the application/x-www-form-urlencoded percent-encode set. */
  predicate IsUnreserved(b: int) {
    || '0' as int <= b <= '9' as int
    || 'A' as int <= b <= 'Z' as int
    || 'a' as int <= b <= 'z' as int
    || b == '*' as int || b == '-' as int || b == '.' as int || b == '_' as int
  }

  /** The characters an encoded name or value can contain. */
  predicate IsEncodedChar(c: char) {
    c == '+' || c == '%' || IsUnreserved(c as int)
  }

  /** The uppercase hex digit for a value below 16. */
  function UpperDigit(x: nat): (c: char)
    requires x < 16
    ensures HexValue(c as int) == Some(x) && IsUnreserved(c as int)
  {
    if x < 10 then ('0' as int + x) as char else ('A' as int + x - 10) as char
  }

  /** Space becomes `+`, unreserved bytes stay, every other byte is `%XX`. */
  function EncodeByte(b: Byte): string {
    if b == 0x20 then "+"
    else if IsUnreserved(b) then [b as char]
    else ['%', UpperDigit(b / 16), UpperDigit(b % 16)]
  }

  function EncodeBytes(bs: seq<Byte>): string
    decreases |bs|
  {
    if bs == [] then [] else EncodeByte(bs[0]) + EncodeBytes(bs[1..])
  }

  /** The form-urlencoded byte serializer applied to a string's UTF-8 bytes. */
  function EncodeComponent(s: string): string {
    EncodeBytes(Utf8.Encode(s))
  }

  function EncodePair(p: (string, string)): string {
    EncodeComponent(p.0) + "=" + EncodeComponent(p.1)
  }

  /** The serializer: the encoded `name=value` of each pair, joined by `&`. */
  function Serialize(pairs: Pairs): string
    decreases |pairs|
  {
    if pairs == [] then ""
    else if |pairs| == 1 then EncodePair(pairs[0])
    else EncodePair(pairs[0]) + "&" + Serialize(pairs[1..])
  }

  // ---- the parser (section 5.1), used as the serializer's inverse ----

  function HexValue(b: int): Option<nat> {
    if '0' as int <= b <= '9' as int then Some(b - '0' as int)
    else if 'A' as int <= b <= 'F' as int then Some(b - 'A' as int + 10)
    else if 'a' as int <= b <= 'f' as int then Some(b - 'a' as int + 10)
    else None
  }

  /** Replaces `+` by a space and percent-decodes; a `%` that is not followed
      by two hex digits stays as it is. */
  function PercentDecode(bs: seq<Byte>): seq<Byte>
    decreases |bs|
  {
    if bs == [] then []
    else if bs[0] == '%' as int && |bs| >= 3 && HexValue(bs[1]).Some? && HexValue(bs[2]).Some? then
      [HexValue(bs[1]).value * 16 + HexValue(bs[2]).value] + PercentDecode(bs[3..])
    else if bs[0] == '+' as int then [0x20] + PercentDecode(bs[1..])
    else [bs[0]] + PercentDecode(bs[1..])
  }

  /** Decoding of a name or value; `None` where the standard would substitute
      U+FFFD for bytes that are not UTF-8. */
  function DecodeComponent(s: string): Option<string> {
    Utf8.Decode(PercentDecode(Utf8.Encode(s)))
  }

  /** Position of the first `c` in `s`, or `|s|`. */
  function IndexOf(s: string, c: char): (i: nat)
    ensures i <= |s|
    ensures i < |s| ==> s[i] == c
    ensures forall j :: 0 <= j < i ==> s[j] != c
    decreases |s|
  {
    if s == [] then 0 else if s[0] == c then 0 else 1 + IndexOf(s[1..], c)
  }

  function SplitOn(s: string, sep: char): (r: seq<string>)
    decreases |s|
  {
    var i := IndexOf(s, sep);
    if i == |s| then [s] else [s[..i]] + SplitOn(s[i + 1..], sep)
  }

  /** One `&`-separated sequence: name up to the first `=`, value after it. */
  function ParsePair(seg: string): Option<(string, string)> {
    var i := IndexOf(seg, '=');
    var name := DecodeComponent(seg[..i]);
    var value := DecodeComponent(if i < |seg| then seg[i + 1..] else "");
    if name.None? || value.None? then None else Some((name.value, value.value))
  }

  function ParseSegments(segs: seq<string>): Option<Pairs>
    decreases |segs|
  {
    if segs == [] then Some([])
    else if segs[0] == "" then ParseSegments(segs[1..])
    else
      var p := ParsePair(segs[0]);
      var ps := ParseSegments(segs[1..]);
      if p.None? || ps.None? then None else Some([p.value] + ps.value)
  }

  function Parse(s: string): Option<Pairs> {
    ParseSegments(SplitOn(s, '&'))
  }

  // ---- properties ----

  lemma {:induction false} EncodeBytesChars(bs: seq<Byte>)
    ensures forall i :: 0 <= i < |EncodeBytes(bs)| ==> IsEncodedChar(EncodeBytes(bs)[i])
    decreases |bs|
  {
    if bs != [] {
      EncodeBytesChars(bs[1..]);
      var e := EncodeByte(bs[0]);
      assert forall i :: 0 <= i < |e| ==> IsEncodedChar(e[i]);
    }
  }

  /** An encoded name or value consists of unreserved characters, `+` and `%`
      only: never `&`, `=`, `:` or `/`. */
  lemma EncodeComponentChars(s: string)
    ensures forall i :: 0 <= i < |EncodeComponent(s)| ==> IsEncodedChar(EncodeComponent(s)[i])
  {
    EncodeBytesChars(Utf8.Encode(s));
  }

  /** Every character of a serialized query is an encoded character, `=` or `&`. */
  lemma {:induction false} SerializeChars(pairs: Pairs)
    ensures forall i :: 0 <= i < |Serialize(pairs)| ==>
      IsEncodedChar(Serialize(pairs)[i]) || Serialize(pairs)[i] in "=&"
    decreases |pairs|
  {
    if pairs != [] {
      EncodeComponentChars(pairs[0].0);
      EncodeComponentChars(pairs[0].1);
      if |pairs| > 1 { SerializeChars(pairs[1..]); }
    }
  }

  lemma Utf8OfEncodedByte(b: Byte)
    ensures b == 0x20 ==> Utf8.Encode(EncodeByte(b)) == ['+' as int]
    ensures b != 0x20 && IsUnreserved(b) ==> Utf8.Encode(EncodeByte(b)) == [b]
    ensures b != 0x20 && !IsUnreserved(b) ==>
      Utf8.Encode(EncodeByte(b)) == ['%' as int, UpperDigit(b / 16) as int, UpperDigit(b % 16) as int]
  {
    var e := EncodeByte(b);
    if b == 0x20 || IsUnreserved(b) {
      assert Utf8.Encode(e) == Utf8.EncodeChar(e[0]) + Utf8.Encode([]);
    } else {
      assert e[1..][1..] == [e[2]] && [e[2]][1..] == [];
      assert Utf8.Encode([e[2]]) == Utf8.EncodeChar(e[2]);
      assert Utf8.Encode(e[1..]) == Utf8.EncodeChar(e[1]) + Utf8.Encode([e[2]]);
      assert Utf8.Encode(e) == Utf8.EncodeChar(e[0]) + Utf8.Encode(e[1..]);
    }
  }

  lemma PercentDecodeEncodeByte(b: Byte, rest: seq<Byte>)
    ensures PercentDecode(Utf8.Encode(EncodeByte(b)) + rest) == [b] + PercentDecode(rest)
  {
    Utf8OfEncodedByte(b);
    var bs := Utf8.Encode(EncodeByte(b)) + rest;
    if b == 0x20 || IsUnreserved(b) {
      assert bs[1..] == rest;
    } else {
      assert bs[3..] == rest;
      assert HexValue(bs[1]) == Some(b / 16) && HexValue(bs[2]) == Some(b % 16);
    }
  }

  lemma {:induction false} PercentDecodeEncodeBytes(bs: seq<Byte>)
    ensures PercentDecode(Utf8.Encode(EncodeBytes(bs))) == bs
    decreases |bs|
  {
    if bs != [] {
      Utf8.EncodeAppend(EncodeByte(bs[0]), EncodeBytes(bs[1..]));
      PercentDecodeEncodeByte(bs[0], Utf8.Encode(EncodeBytes(bs[1..])));
      PercentDecodeEncodeBytes(bs[1..]);
    } else {
      assert Utf8.Encode(EncodeBytes(bs)) == [];
    }
  }

  /** Decoding an encoded name or value gives it back. */
  lemma ComponentRoundTrip(s: string)
    ensures DecodeComponent(EncodeComponent(s)) == Some(s)
  {
    PercentDecodeEncodeBytes(Utf8.Encode(s));
    Utf8.RoundTrip(s);
  }

  lemma IndexOfAfter(a: string, c: char, b: string)
    requires c !in a
    ensures IndexOf(a + [c] + b, c) == |a|
  {
    var s := a + [c] + b;
    var i := IndexOf(s, c);
    assert s[|a|] == c;
  }

  lemma IndexOfAbsent(a: string, c: char)
    requires c !in a
    ensures IndexOf(a, c) == |a|
  {
  }

  lemma NoCharInComponent(s: string, c: char)
    requires !IsEncodedChar(c)
    ensures c !in EncodeComponent(s)
  {
    EncodeComponentChars(s);
  }

  lemma PairRoundTrip(p: (string, string))
    ensures '&' !in EncodePair(p)
    ensures EncodePair(p) != ""
    ensures ParsePair(EncodePair(p)) == Some(p)
  {
    var k, v := EncodeComponent(p.0), EncodeComponent(p.1);
    NoCharInComponent(p.0, '='); NoCharInComponent(p.1, '=');
    NoCharInComponent(p.0, '&'); NoCharInComponent(p.1, '&');
    var seg := EncodePair(p);
    IndexOfAfter(k, '=', v);
    assert seg[..|k|] == k && seg[|k| + 1..] == v;
    ComponentRoundTrip(p.0);
    ComponentRoundTrip(p.1);
  }

  lemma ParseOne(p: (string, string))
    ensures Parse(EncodePair(p)) == Some([p])
  {
    var seg := EncodePair(p);
    PairRoundTrip(p);
    IndexOfAbsent(seg, '&');
    assert SplitOn(seg, '&') == [seg];
    assert [seg][1..] == [] && ParseSegments([]) == Some([]);
    assert [seg][0] == seg;
    assert [p] + [] == [p];
  }

  lemma ParseCons(p: (string, string), rest: string)
    ensures Parse(EncodePair(p) + "&" + rest) ==
      (match Parse(rest) case None => None case Some(ps) => Some([p] + ps))
  {
    var seg := EncodePair(p);
    PairRoundTrip(p);
    IndexOfAfter(seg, '&', rest);
    var s := seg + "&" + rest;
    assert s[..|seg|] == seg && s[|seg| + 1..] == rest;
    assert SplitOn(s, '&') == [seg] + SplitOn(rest, '&');
    assert ([seg] + SplitOn(rest, '&'))[1..] == SplitOn(rest, '&');
  }

  /** Parsing a serialized query gives back exactly the pairs, in order. */
  lemma {:induction false} QueryRoundTrip(pairs: Pairs)
    ensures Parse(Serialize(pairs)) == Some(pairs)
    decreases |pairs|
  {
    if pairs == [] {
      assert SplitOn("", '&') == [""];
    } else if |pairs| == 1 {
      ParseOne(pairs[0]);
      assert pairs == [pairs[0]];
    } else {
      ParseCons(pairs[0], Serialize(pairs[1..]));
      QueryRoundTrip(pairs[1..]);
      assert pairs == [pairs[0]] + pairs[1..];
    }
  }

  lemma {:induction false} EncodeBytesAppend(a: seq<Byte>, b: seq<Byte>)
    ensures EncodeBytes(a + b) == EncodeBytes(a) + EncodeBytes(b)
    decreases |a|
  {
    if a == [] {
      assert a + b == b;
    } else {
      assert (a + b)[0] == a[0] && (a + b)[1..] == a[1..] + b;
      EncodeBytesAppend(a[1..], b);
    }
  }

  /** Encoding works character by character. */
  lemma EncodeComponentAppend(s: string, t: string)
    ensures EncodeComponent(s + t) == EncodeComponent(s) + EncodeComponent(t)
  {
    Utf8.EncodeAppend(s, t);
    EncodeBytesAppend(Utf8.Encode(s), Utf8.Encode(t));
  }

  /** A string of unreserved ASCII characters is its own encoding. */
  lemma {:induction false} EncodeUnreserved(s: string)
    requires forall i :: 0 <= i < |s| ==> IsUnreserved(s[i] as int)
    ensures EncodeComponent(s) == s
    decreases |s|
  {
    if s != [] {
      EncodeComponentAppend([s[0]], s[1..]);
      assert [s[0]] + s[1..] == s;
      assert Utf8.Encode([s[0]]) == [s[0] as int] + Utf8.Encode([]);
      EncodeUnreserved(s[1..]);
    }
  }

  lemma EncodeColonSlash()
    ensures EncodeComponent(":") == "%3A"
    ensures EncodeComponent("/") == "%2F"
  {
    assert Utf8.Encode(":") == [0x3A] + Utf8.Encode([]);
    assert Utf8.Encode("/") == [0x2F] + Utf8.Encode([]);
  }

  /** `scheme://host` with an unreserved scheme and host encodes as
      `scheme%3A%2F%2Fhost`. */
  lemma EncodeSchemeHost(scheme: string, host: string)
    requires forall i :: 0 <= i < |scheme| ==> IsUnreserved(scheme[i] as int)
    requires forall i :: 0 <= i < |host| ==> IsUnreserved(host[i] as int)
    ensures EncodeComponent(scheme + "://" + host) == scheme + "%3A%2F%2F" + host
  {
    EncodeSeparator();
    EncodeUnreserved(scheme);
    EncodeUnreserved(host);
    EncodeComponentAppend(scheme, "://");
    EncodeComponentAppend(scheme + "://", host);
  }

  /** The `://` after a scheme encodes as `%3A%2F%2F`. */
  lemma EncodeSeparator()
    ensures EncodeComponent("://") == "%3A%2F%2F"
  {
    EncodeColonSlash();
    EncodeComponentAppend(":", "/");
    assert ":" + "/" == ":/";
    EncodeComponentAppend(":/", "/");
    assert ":/" + "/" == "://";
    assert "%3A" + "%2F" + "%2F" == "%3A%2F%2F";
  }

  /** `https://example.com`, the target of the credential probe, serializes
      with its `:` and `/` percent-encoded. */
  lemma EncodeExampleUrl(url: string)
    requires url == "https://example.com"
    ensures EncodeComponent(url) == "https" + "%3A%2F%2F" + "example.com"
  {
    var scheme, host := "https", "example.com";
    assert scheme + "://" + host == url;
    EncodeSchemeHost(scheme, host);
  }
}
