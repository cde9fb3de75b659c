/** The signed-URL builder of the Capture node (nodes/Capture/GenericFunctions.ts):
    the canonical query string, its MD5 token and the CDN request URL. */
module GenericFunctions {
  import opened Wrappers
  import opened Bags
  import Utf8
  import Decimal
  import Hex
  import FormUrlEncoded

  const CDN_URL := "https://cdn.capture.page"
  const MissingCredentials := "API key and secret are required"
  const MissingUrl := "URL is required"

  /** A value of an option bag (`IDataObject`): numbers are integral. */
  datatype Value = Null | Undefined | Str(s: string) | Num(n: int) | Bool(b: bool)

  /** The `type` argument of `buildCaptureUrl`. */
  datatype CaptureType = Image | Pdf | Content | Metadata

  function PathSegment(t: CaptureType): string {
    match t
    case Image => "image"
    case Pdf => "pdf"
    case Content => "content"
    case Metadata => "metadata"
  }

  /** A 128-bit MD5 digest. The compression function itself is not modelled:
      every operation that hashes takes the digest function as a parameter. */
  type Digest = d: seq<Utf8.Byte> | |d| == 16 witness [0, 0, 0, 0, 0, 0, 0, 0, 0, 0, 0, 0, 0, 0, 0, 0]
  type Md5 = seq<Utf8.Byte> -> Digest

  /** `generateToken`: MD5 over the UTF-8 bytes of `secret + queryString`,
      written as lowercase hex. */
  function GenerateToken(md5: Md5, secret: string, queryString: string): (token: string)
    ensures |token| == 32
    ensures forall i :: 0 <= i < |token| ==> Hex.IsLowerHexDigit(token[i])
    ensures Hex.Decode(token) == Some(md5(Utf8.Encode(secret + queryString)))
  {
    var digest := md5(Utf8.Encode(secret + queryString));
    Hex.RoundTrip(digest);
    Hex.Encode(digest)
  }

  /** The text `buildQueryString` sends for a value, or `None` when it drops
      the entry: null, undefined and the empty string are dropped, booleans
      become "true"/"false", other values pass through as their string form. */
  function Render(v: Value): (r: Option<string>)
    ensures r.None? <==> v.Null? || v.Undefined? || v == Str("")
    ensures v.Bool? ==> r == Some(if v.b then "true" else "false")
    ensures v.Str? && v.s != "" ==> r == Some(v.s)
    ensures v.Num? ==> r.Some? && Decimal.ParseInt(r.value) == Some(v.n)
  {
    match v
    case Null => None
    case Undefined => None
    case Str(s) => if s == "" then None else Some(s)
    case Bool(b) => Some(if b then "true" else "false")
    case Num(n) => Decimal.IntRoundTrip(n); Some(Decimal.IntToString(n))
  }

  /** What one entry contributes to the canonical query. */
  function Kept(e: (string, Value)): Bag<string> {
    if e.0 == "format" then []
    else match Render(e.1)
      case None => []
      case Some(text) => [(e.0, text)]
  }

  /** The entries `buildQueryString` keeps, in the bag's order. */
  function CanonicalPairs(opts: Bag<Value>): Bag<string>
    decreases |opts|
  {
    if opts == [] then [] else CanonicalPairs(opts[..|opts| - 1]) + Kept(opts[|opts| - 1])
  }

  /** The canonical query string: the kept entries, form-urlencoded. */
  function CanonicalQuery(opts: Bag<Value>): string {
    FormUrlEncoded.Serialize(CanonicalPairs(opts))
  }

  /** `buildQueryString`: fills a fresh object with the kept entries in the
      order `Object.entries` yields them, then serializes it. */
  method BuildQueryString(options: Bag<Value>) returns (queryString: string)
    requires UniqueKeys(options)
    ensures queryString == CanonicalQuery(options)
  {
    var filtered: Bag<string> := [];
    for i := 0 to |options|
      invariant filtered == CanonicalPairs(options[..i])
    {
      var (key, value) := options[i];
      assert options[..i + 1][..i] == options[..i];
      if key == "format" {
        continue;
      }
      if value == Null || value == Undefined || value == Str("") {
        continue;
      }
      KeyNotYetKept(options, i);
      assert CanonicalPairs(options[..i + 1]) == filtered + Kept(options[i]);
      if value.Bool? {
        var text := if value.b then "true" else "false";
        PutFacts(filtered, key, text);
        filtered := Put(filtered, key, text);
      } else {
        var text := if value.Str? then value.s else Decimal.IntToString(value.n);
        PutFacts(filtered, key, text);
        filtered := Put(filtered, key, text);
      }
    }
    assert options[..|options|] == options;
    queryString := FormUrlEncoded.Serialize(filtered);
  }

  /** The object `{ url, ...options }` that `buildCaptureUrl` canonicalizes. */
  function RequestOptions(url: string, options: Bag<Value>): Bag<Value> {
    Spread([("url", Str(url))], options)
  }

  function SignedUrl(apiKey: string, token: string, t: CaptureType, queryString: string): string {
    CDN_URL + "/" + apiKey + "/" + token + "/" + PathSegment(t) + "?" + queryString
  }

  /** `buildCaptureUrl`: the credential check comes first, then the URL check,
      and a URL is produced exactly when both pass. */
  function CaptureUrl(md5: Md5, apiKey: string, apiSecret: string, t: CaptureType, url: string,
                      options: Bag<Value>): (r: Result<string>)
    ensures apiKey == "" || apiSecret == "" ==> r == Failure(MissingCredentials)
    ensures apiKey != "" && apiSecret != "" && url == "" ==> r == Failure(MissingUrl)
    ensures r.Success? <==> apiKey != "" && apiSecret != "" && url != ""
  {
    if apiKey == "" || apiSecret == "" then Failure(MissingCredentials)
    else if url == "" then Failure(MissingUrl)
    else
      var queryString := CanonicalQuery(RequestOptions(url, options));
      Success(SignedUrl(apiKey, GenerateToken(md5, apiSecret, queryString), t, queryString))
  }

  method BuildCaptureUrl(md5: Md5, apiKey: string, apiSecret: string, t: CaptureType, url: string,
                         options: Bag<Value>) returns (r: Result<string>)
    ensures r == CaptureUrl(md5, apiKey, apiSecret, t, url, options)
  {
    if apiKey == "" || apiSecret == "" {
      return Failure(MissingCredentials);
    }
    if url == "" {
      return Failure(MissingUrl);
    }
    var requestOptions := Spread([("url", Str(url))], options);
    RequestOptionsFacts(url, options);
    var queryString := BuildQueryString(requestOptions);
    var token := GenerateToken(md5, apiSecret, queryString);
    return Success(CDN_URL + "/" + apiKey + "/" + token + "/" + PathSegment(t) + "?" + queryString);
  }

  // ---- lemmas ----

  /** Canonicalization works entry by entry: it distributes over concatenation. */
  lemma {:induction false} CanonicalAppend(a: Bag<Value>, b: Bag<Value>)
    ensures CanonicalPairs(a + b) == CanonicalPairs(a) + CanonicalPairs(b)
    decreases |b|
  {
    if b == [] {
      assert a + b == a;
    } else {
      var b' := b[..|b| - 1];
      assert (a + b)[..|a + b| - 1] == a + b';
      assert (a + b)[|a + b| - 1] == b[|b| - 1];
      CanonicalAppend(a, b');
    }
  }

  /** A key the bag does not have is never kept. */
  lemma {:induction false} CanonicalKeysFromBag(opts: Bag<Value>, k: string)
    requires Get(opts, k).None?
    ensures Get(CanonicalPairs(opts), k).None?
    decreases |opts|
  {
    if opts != [] {
      var init := opts[..|opts| - 1];
      GetAppend(init, [opts[|opts| - 1]], k);
      assert init + [opts[|opts| - 1]] == opts;
      CanonicalKeysFromBag(init, k);
      GetAppend(CanonicalPairs(init), Kept(opts[|opts| - 1]), k);
    }
  }

  lemma KeyNotYetKept(options: Bag<Value>, i: nat)
    requires UniqueKeys(options) && i < |options|
    ensures Get(CanonicalPairs(options[..i]), options[i].0).None?
  {
    GetPresent(options[..i], options[i].0);
    CanonicalKeysFromBag(options[..i], options[i].0);
  }

  /** A pair is in the canonical query exactly when the bag has an entry with
      that key, the key is not `format`, and the entry's value renders to
      that text. */
  lemma {:induction false} CanonicalMembers(opts: Bag<Value>, k: string, text: string)
    ensures (k, text) in CanonicalPairs(opts) <==>
      k != "format" && exists i :: 0 <= i < |opts| && opts[i].0 == k && Render(opts[i].1) == Some(text)
    decreases |opts|
  {
    if opts != [] {
      var init := opts[..|opts| - 1];
      var last := opts[|opts| - 1];
      CanonicalMembers(init, k, text);
      assert forall i :: 0 <= i < |init| ==> init[i] == opts[i];
      if (k, text) in Kept(last) {
        assert opts[|opts| - 1].0 == k;
      }
    }
  }

  /** The canonical query never carries a `format` key, whatever its value. */
  lemma NoFormatKey(opts: Bag<Value>)
    ensures forall p :: p in CanonicalPairs(opts) ==> p.0 != "format"
  {
    forall p | p in CanonicalPairs(opts) ensures p.0 != "format" {
      CanonicalMembers(opts, p.0, p.1);
    }
  }

  /** The query string decodes (WHATWG form-urlencoded parsing) to exactly the
      kept entries, in the bag's order. */
  lemma QueryDecodes(opts: Bag<Value>)
    ensures FormUrlEncoded.Parse(CanonicalQuery(opts)) == Some(CanonicalPairs(opts))
  {
    FormUrlEncoded.QueryRoundTrip(CanonicalPairs(opts));
  }

  /** Bags that differ at most in the values of their `format` entries. */
  ghost predicate SameExceptFormat(a: Bag<Value>, b: Bag<Value>) {
    && |a| == |b|
    && forall i :: 0 <= i < |a| ==> a[i].0 == b[i].0 && (a[i].0 != "format" ==> a[i].1 == b[i].1)
  }

  /** Changing the value of `format` never changes the canonical query. */
  lemma {:induction false} CanonicalIgnoresFormat(a: Bag<Value>, b: Bag<Value>)
    requires SameExceptFormat(a, b)
    ensures CanonicalPairs(a) == CanonicalPairs(b)
    decreases |a|
  {
    if a != [] {
      CanonicalIgnoresFormat(a[..|a| - 1], b[..|b| - 1]);
    }
  }

  /** Assigning the same value, or any value to `format`, keeps two bags
      equal up to their `format` values. */
  lemma {:induction false} PutSameExceptFormat(a: Bag<Value>, b: Bag<Value>, k: string, v: Value, w: Value)
    requires SameExceptFormat(a, b)
    requires k == "format" || v == w
    ensures SameExceptFormat(Put(a, k, v), Put(b, k, w))
    decreases |a|
  {
    if a != [] && a[0].0 != k {
      PutSameExceptFormat(a[1..], b[1..], k, v, w);
      var ra, rb := Put(a[1..], k, v), Put(b[1..], k, w);
      assert forall i :: 0 < i <= |ra| ==> ([a[0]] + ra)[i] == ra[i - 1];
      assert forall i :: 0 < i <= |rb| ==> ([b[0]] + rb)[i] == rb[i - 1];
    }
  }

  /** Spreading bags equal up to their `format` values gives bags equal up
      to their `format` values. */
  lemma {:induction false} SpreadSameExceptFormat(a: Bag<Value>, b: Bag<Value>, c: Bag<Value>, d: Bag<Value>)
    requires SameExceptFormat(a, b) && SameExceptFormat(c, d)
    ensures SameExceptFormat(Spread(a, c), Spread(b, d))
    decreases |c|
  {
    if c != [] {
      PutSameExceptFormat(a, b, c[0].0, c[0].1, d[0].1);
      assert SameExceptFormat(c[1..], d[1..]);
      SpreadSameExceptFormat(Put(a, c[0].0, c[0].1), Put(b, d[0].0, d[0].1), c[1..], d[1..]);
    }
  }

  /** The object `{ url, ...options }` has distinct keys, `url` first; `url`
      holds the last `url` value of `options` if it has one, and every other
      key holds the last value `options` gives it. */
  lemma RequestOptionsFacts(url: string, options: Bag<Value>)
    ensures UniqueKeys(RequestOptions(url, options))
    ensures |RequestOptions(url, options)| >= 1 && RequestOptions(url, options)[0].0 == "url"
    ensures Get(RequestOptions(url, options), "url") ==
      if GetLast(options, "url").Some? then GetLast(options, "url") else Some(Str(url))
    ensures forall k :: k != "url" ==> Get(RequestOptions(url, options), k) == GetLast(options, k)
    ensures Keys(RequestOptions(url, options)) == ["url"] + FreshKeys(["url"], options)
  {
    var base := [("url", Str(url))];
    SpreadFacts(base, options);
    assert Keys(base) == ["url"];
    GetPresent(options, "url");
    var r := RequestOptions(url, options);
    KeysAt(r, 0);
    forall k | k != "url" ensures Get(r, k) == GetLast(options, k) {
      assert Get(base, k) == None;
      GetLastPresent(options, k);
    }
  }

  /** A bag that already starts with `url` set to the URL, with distinct
      keys, comes out of `{ url, ...options }` unchanged, order included. */
  lemma RequestOptionsOfOrdered(url: string, options: Bag<Value>)
    requires UniqueKeys(options) && |options| >= 1 && options[0] == ("url", Str(url))
    ensures RequestOptions(url, options) == options
  {
    var base := [("url", Str(url))];
    assert Put(base, "url", Str(url)) == base;
    assert RequestOptions(url, options) == Spread(base, options[1..]);
    forall i | 0 <= i < |options[1..]| ensures Get(base, options[1..][i].0).None? {
      assert options[1..][i] == options[i + 1];
    }
    SpreadFresh(base, options[1..]);
    assert base + options[1..] == options;
  }

  lemma {:induction false} GetLastPresent<V>(c: Bag<V>, k: string)
    ensures GetLast(c, k).Some? <==> Get(c, k).Some?
    decreases |c|
  {
    if c != [] { GetLastPresent(c[1..], k); }
  }

  /** A successful `buildCaptureUrl` signs exactly the query string it
      appends; that string decodes to the kept entries of `{ url, ...options }`
      and has no `format` key. */
  lemma SignedQuery(md5: Md5, apiKey: string, apiSecret: string, t: CaptureType, url: string,
                    options: Bag<Value>)
    requires apiKey != "" && apiSecret != "" && url != ""
    ensures var pairs := CanonicalPairs(RequestOptions(url, options));
            var qs := FormUrlEncoded.Serialize(pairs);
            && CaptureUrl(md5, apiKey, apiSecret, t, url, options)
               == Success(SignedUrl(apiKey, GenerateToken(md5, apiSecret, qs), t, qs))
            && FormUrlEncoded.Parse(qs) == Some(pairs)
            && (forall p :: p in pairs ==> p.0 != "format")
  {
    var r := RequestOptions(url, options);
    QueryDecodes(r);
    NoFormatKey(r);
  }

  /** A single string entry with a non-empty value, other than `format`, is
      kept as it is. */
  lemma KeptSingle(k: string, text: string)
    requires k != "format" && text != ""
    ensures CanonicalPairs([(k, Str(text))]) == [(k, text)]
  {
    assert [(k, Str(text))][..0] == [];
    assert Kept((k, Str(text))) == [(k, text)];
  }

  /** The canonical query of `{ url, ...options }` starts with `url=<url>`
      unless `options` assigns `url` a different value. */
  lemma UrlKeptFirst(url: string, options: Bag<Value>)
    requires url != ""
    requires GetLast(options, "url").None? || GetLast(options, "url") == Some(Str(url))
    ensures var pairs := CanonicalPairs(RequestOptions(url, options));
            |pairs| >= 1 && pairs[0] == ("url", url)
  {
    var r := RequestOptions(url, options);
    RequestOptionsFacts(url, options);
    assert Get(r, "url") == Some(Str(url));
    assert r[0] == ("url", Str(url));
    CanonicalAppend([r[0]], r[1..]);
    assert [r[0]] + r[1..] == r;
    KeptSingle("url", url);
  }

  lemma EncodeUrlKey()
    ensures FormUrlEncoded.EncodeComponent("url") == "url"
  {
    FormUrlEncoded.EncodeUnreserved("url");
  }

  /** With no options the canonical query is the single pair `url=<url>`. */
  lemma SingleUrlQuery(url: string)
    requires url != ""
    ensures CanonicalQuery(RequestOptions(url, [])) == "url=" + FormUrlEncoded.EncodeComponent(url)
  {
    assert RequestOptions(url, []) == [("url", Str(url))];
    KeptSingle("url", url);
    EncodeUrlKey();
    assert "url" + "=" == "url=";
  }

  /** The canonical query of `{ url: "https://example.com" }`. */
  lemma ExampleQuery(url: string)
    requires url == "https://example.com"
    ensures CanonicalQuery(RequestOptions(url, [])) == "url=" + "https" + "%3A%2F%2F" + "example.com"
  {
    SingleUrlQuery(url);
    FormUrlEncoded.EncodeExampleUrl(url);
  }

  /** `buildCaptureUrl(key, secret, "image", "https://example.com", {})` is
      `https://cdn.capture.page/<key>/<token>/image?url=https%3A%2F%2Fexample.com`,
      the token signing exactly that encoded query. */
  lemma ExampleScreenshotUrl(md5: Md5, apiKey: string, apiSecret: string, url: string)
    requires apiKey != "" && apiSecret != "" && url == "https://example.com"
    ensures var qs := "url=" + "https" + "%3A%2F%2F" + "example.com";
      CaptureUrl(md5, apiKey, apiSecret, Image, url, [])
      == Success(CDN_URL + "/" + apiKey + "/" + GenerateToken(md5, apiSecret, qs) + "/image?" + qs)
  {
    ExampleQuery(url);
    var qs := "url=" + "https" + "%3A%2F%2F" + "example.com";
    var token := GenerateToken(md5, apiSecret, qs);
    var prefix := CDN_URL + "/" + apiKey + "/" + token;
    assert CaptureUrl(md5, apiKey, apiSecret, Image, url, []) == Success(SignedUrl(apiKey, token, Image, qs));
    assert SignedUrl(apiKey, token, Image, qs) == prefix + "/" + "image" + "?" + qs;
    assert prefix + "/" + "image" + "?" + qs == prefix + "/image?" + qs;
  }
}
