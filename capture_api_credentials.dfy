/** The `captureApi` credential type (credentials/CaptureApi.credentials.ts):
    the signed probe request the host sends to check a key and secret. */
module CaptureApiCredentials {
  import opened Wrappers
  import opened Bags
  import Utf8
  import FormUrlEncoded
  import GenericFunctions

  /** The query string the probe signs and sends. It is a literal, written
      without form-encoding. */
  const ProbeQuery := "url=https://example.com"

  datatype Credentials = Credentials(apiKey: string, apiSecret: string)

  /** The part of `IHttpRequestOptions` the probe touches, the rest summarized
      as headers and query parameters. */
  class HttpRequestOptions {
    var url: string
    var baseURL: string
    var httpMethod: string
    var headers: Bag<string>
    var qs: Bag<string>

    constructor (url: string, baseURL: string, httpMethod: string, headers: Bag<string>, qs: Bag<string>)
      ensures this.url == url && this.baseURL == baseURL && this.httpMethod == httpMethod
      ensures this.headers == headers && this.qs == qs
    {
      this.url, this.baseURL, this.httpMethod := url, baseURL, httpMethod;
      this.headers, this.qs := headers, qs;
    }
  }

  /** The relative URL `authenticate` writes: `/<apiKey>/<token>/image?<ProbeQuery>`,
      whose token is the lowercase-hex MD5 of `apiSecret + ProbeQuery`. */
  function ProbePath(md5: GenericFunctions.Md5, credentials: Credentials): string {
    "/" + credentials.apiKey + "/" + GenericFunctions.GenerateToken(md5, credentials.apiSecret, ProbeQuery)
      + "/image?" + ProbeQuery
  }

  /** `authenticate`: rewrites `requestOptions.url` in place, leaves every
      other field as it was, and returns the same object. */
  method Authenticate(md5: GenericFunctions.Md5, credentials: Credentials, requestOptions: HttpRequestOptions)
      returns (r: HttpRequestOptions)
    modifies requestOptions`url
    ensures r == requestOptions
    ensures requestOptions.url == ProbePath(md5, credentials)
  {
    var apiKey := credentials.apiKey;
    var apiSecret := credentials.apiSecret;
    var queryString := ProbeQuery;
    var token := GenericFunctions.GenerateToken(md5, apiSecret, queryString);
    requestOptions.url := "/" + apiKey + "/" + token + "/image?" + queryString;
    return requestOptions;
  }

  /** The credential test request: the URL is left empty for `authenticate`
      to fill in. */
  datatype TestRequest = TestRequest(baseURL: string, url: string, httpMethod: string)

  const Test := TestRequest("https://cdn.capture.page", "", "HEAD")

  /** The probe is a HEAD request to the CDN host, and the URL it requests has
      the shape of a signed `image` URL over the literal probe query. */
  lemma ProbeIsSignedImageUrl(md5: GenericFunctions.Md5, credentials: Credentials)
    ensures Test.httpMethod == "HEAD" && Test.url == ""
    ensures Test.baseURL == GenericFunctions.CDN_URL
    ensures Test.baseURL + ProbePath(md5, credentials) ==
      GenericFunctions.SignedUrl(credentials.apiKey,
        GenericFunctions.GenerateToken(md5, credentials.apiSecret, ProbeQuery),
        GenericFunctions.Image, ProbeQuery)
  {
    var token := GenericFunctions.GenerateToken(md5, credentials.apiSecret, ProbeQuery);
    var pre := GenericFunctions.CDN_URL + "/" + credentials.apiKey + "/" + token;
    assert Test.baseURL + ProbePath(md5, credentials) == pre + "/image?" + ProbeQuery;
    assert pre + "/image?" + ProbeQuery == pre + "/" + "image" + "?" + ProbeQuery;
  }

  /** No option bag canonicalizes to the probe's query string: the probe's
      `:` and `/` would be percent-encoded by `buildQueryString`. */
  lemma ProbeQueryIsNotCanonical(opts: Bag<GenericFunctions.Value>)
    ensures GenericFunctions.CanonicalQuery(opts) != ProbeQuery
  {
    var q := GenericFunctions.CanonicalQuery(opts);
    FormUrlEncoded.SerializeChars(GenericFunctions.CanonicalPairs(opts));
    assert ProbeQuery[9] == ':';
    assert |q| <= 9 || q[9] != ':';
  }

  /** For the probe's own target the builder yields the encoded
      `url=https%3A%2F%2Fexample.com`, not the literal the probe signs. */
  lemma ProbeDiffersFromBuilder(url: string)
    requires url == "https://example.com"
    ensures GenericFunctions.CanonicalQuery(GenericFunctions.RequestOptions(url, [])) == "url=" + "https" + "%3A%2F%2F" + "example.com"
    ensures GenericFunctions.CanonicalQuery(GenericFunctions.RequestOptions(url, [])) != ProbeQuery
  {
    GenericFunctions.ExampleQuery(url);
    ProbeQueryIsNotCanonical(GenericFunctions.RequestOptions(url, []));
  }

  /** The probe hashes a different message than any URL `buildCaptureUrl`
      signs with the same secret. */
  lemma ProbeSignsDifferentMessage(apiSecret: string, opts: Bag<GenericFunctions.Value>)
    ensures Utf8.Encode(apiSecret + ProbeQuery)
      != Utf8.Encode(apiSecret + GenericFunctions.CanonicalQuery(opts))
  {
    var q := GenericFunctions.CanonicalQuery(opts);
    ProbeQueryIsNotCanonical(opts);
    Utf8.RoundTrip(apiSecret + ProbeQuery);
    Utf8.RoundTrip(apiSecret + q);
    assert (apiSecret + ProbeQuery)[|apiSecret|..] == ProbeQuery;
    assert (apiSecret + q)[|apiSecret|..] == q;
  }
}
