# Capture node: signed CDN URLs, per-item dispatch, credential probe

This project models the n8n Capture node (techulus/n8n-nodes-capture) in Dafny.
The node turns workflow items into requests to the Capture CDN
(`https://cdn.capture.page`). Each request URL has the form
`CDN_URL/<apiKey>/<token>/<type>?<query>`:

- the query is the canonical form of an ordered option bag;
- the token is the lowercase-hex MD5 of `apiSecret + query`.

Three parts are modelled.

- **The URL builder** (`GenericFunctions`): `generateToken`, `buildQueryString`,
  `buildCaptureUrl` and `CDN_URL`.
  - `buildQueryString` drops `format` and empty values, renders booleans as
    `"true"`/`"false"` and serializes what is left with `URLSearchParams`. That
    is the application/x-www-form-urlencoded serializer of section 5.2 of the
    WHATWG URL Standard.
  - The serializer is written out concretely: UTF-8 encoding, byte-wise
    percent-encoding with `+` for space (`FormUrlEncoded`, `Utf8`). Its partner
    is the parser of section 5.1 of the same standard. The round trip
    `Parse(Serialize(pairs)) == Some(pairs)` is proved.
  - JavaScript objects are ordered bags (`Bags`). Assigning to a key keeps that
    key's position. `{ url, ...options }` assigns from left to right, so the
    last value wins and each key stays where it first appeared.
- **The dispatcher** `Capture.execute` (`CaptureNode`).
  - `RunItem` is the body of the per-item `try`. It mutates the option bag field
    by field, as the node does.
  - `Execute` is the `for` loop. It appends to the output list and applies the
    continue-on-fail policy.
  - `RunItem` is proved to compute item i's outcome, `ItemResult`; `Execute`
    is proved to compute `Batch`, the specification of the loop over those
    outcomes, and the continue-on-fail and abort properties are lemmas about
    `Batch`. The host
    services are fields of a `Runtime` value: MD5, `validateUrl`, the binary
    download, `prepareBinaryData`, the JSON request and `Date.now()`.
- **The credential type** `CaptureApi` (`CaptureApiCredentials`).
  - `authenticate` writes the probe path into `requestOptions.url` of a mutable
    request object and returns that same object.
  - The `test` request is a constant.
  - The probe signs the literal `url=https://example.com`. It is
    not form-encoded, so no option bag canonicalizes to it, and the probe's token
    is derived from a different message than any URL the node itself builds.

MD5 is a parameter `md5: seq<Byte> -> Digest` with 16-byte digests. The hex
encoding of the digest and the UTF-8 encoding of the hashed string are written
out concretely, each with a proved round trip.

## Model

| member | source | states |
|---|---|---|
| `Bags.PutFacts` | nodes/Capture/GenericFunctions.ts:33-35 | assignment stores the value under the key, changes no other key, keeps existing keys in place and appends a new key at the end |
| `Bags.SpreadFacts` | nodes/Capture/GenericFunctions.ts:57-60 | `{...b, ...c}` keeps b's keys as a prefix followed by c's new keys in the order of their first occurrence in c, gives each key c's last value for it if there is one and b's value otherwise, and keeps keys distinct |
| `Bags.SpreadFresh` | nodes/Capture/Capture.node.ts:79-82 | spreading distinct keys that the target lacks appends them in their order |
| `Decimal.IntToString` | nodes/Capture/GenericFunctions.ts:35-39 | the text of a number option is canonical: a '-' exactly when negative, then decimal digits that start with '0' only for zero, so never "-0" and no leading zeros |
| `Decimal.IntRoundTrip` | nodes/Capture/GenericFunctions.ts:35-39 | the decimal string a number option becomes parses back to that number |
| `Utf8.RoundTrip` | nodes/Capture/GenericFunctions.ts:18 | the UTF-8 bytes hashed for a string decode back to that string, so hashing inputs are injective in the string |
| `Hex.RoundTrip` | nodes/Capture/GenericFunctions.ts:18 | the lowercase hex form of a digest decodes back to the digest |
| `FormUrlEncoded.SerializeChars` | nodes/Capture/GenericFunctions.ts:39 | a serialized query contains only unreserved bytes, `+`, `%`, hex digits, `=` and `&`; in particular no `:` or `/` |
| `FormUrlEncoded.QueryRoundTrip` | nodes/Capture/GenericFunctions.ts:39 | parsing the serialized pairs gives back exactly the pairs in their order |
| `GenericFunctions.GenerateToken` | nodes/Capture/GenericFunctions.ts:17-19 | the token is 32 lowercase hex digits and decodes to the MD5 digest of the UTF-8 bytes of `secret + queryString` |
| `GenericFunctions.Render` | nodes/Capture/GenericFunctions.ts:28-36 | a value is dropped exactly when it is null, undefined or `""`; booleans become `"true"`/`"false"`; other strings pass unchanged; numbers become a string that parses back to them, so `false` and `0` are kept |
| `GenericFunctions.BuildQueryString` | nodes/Capture/GenericFunctions.ts:21-40 | the loop over the entries produces the serialized canonical query of the bag |
| `GenericFunctions.CanonicalAppend` | nodes/Capture/GenericFunctions.ts:24-37 | canonicalization works entry by entry in the bag's order, with no re-sorting |
| `GenericFunctions.CanonicalMembers` | nodes/Capture/GenericFunctions.ts:24-37 | a pair is in the canonical query exactly when the bag has an entry with that key, the key is not `format` and the entry renders to that text |
| `GenericFunctions.NoFormatKey` | nodes/Capture/GenericFunctions.ts:25-27 | no canonical pair has the key `format` |
| `GenericFunctions.CanonicalIgnoresFormat` | nodes/Capture/GenericFunctions.ts:25-27 | bags that differ only in their `format` values have the same canonical query |
| `GenericFunctions.QueryDecodes` | nodes/Capture/GenericFunctions.ts:39 | the canonical query string parses back to the kept pairs |
| `GenericFunctions.CaptureUrl` | nodes/Capture/GenericFunctions.ts:42-66 | an empty key or secret fails with "API key and secret are required" before the URL is checked; an empty URL then fails with "URL is required"; a URL is produced exactly when all three are non-empty |
| `GenericFunctions.BuildCaptureUrl` | nodes/Capture/GenericFunctions.ts:42-66 | the method computes `CaptureUrl` |
| `GenericFunctions.RequestOptionsFacts` | nodes/Capture/GenericFunctions.ts:57-60 | `{ url, ...options }` has distinct keys: `url` first, then options' other keys in the order of their first occurrence; `url` is overridden by the last `url` in `options`; every other key holds options' last value |
| `GenericFunctions.RequestOptionsOfOrdered` | nodes/Capture/GenericFunctions.ts:57-60 | a bag with distinct keys that already starts with `url` set to the URL comes out of `{ url, ...options }` unchanged, order included |
| `GenericFunctions.SignedQuery` | nodes/Capture/GenericFunctions.ts:57-65 | a successful URL is `CDN_URL/apiKey/token/type?qs`, the token signs exactly that `qs`, and `qs` decodes to the kept pairs, none of which has the key `format` |
| `GenericFunctions.UrlKeptFirst` | nodes/Capture/GenericFunctions.ts:57-62 | unless `options` assigns `url` a different value, the first kept pair is `url` with the item's URL |
| `GenericFunctions.SingleUrlQuery` | nodes/Capture/GenericFunctions.ts:57-62 | with no options the canonical query is `url=` followed by the encoded URL |
| `GenericFunctions.ExampleQuery` | nodes/Capture/GenericFunctions.ts:57-62 | for `https://example.com` with no options the canonical query is `url=https%3A%2F%2Fexample.com` |
| `GenericFunctions.ExampleScreenshotUrl` | nodes/Capture/GenericFunctions.ts:42-66 | the image URL for `https://example.com` is `CDN_URL/<key>/<token>/image?url=https%3A%2F%2Fexample.com`, signed over that query |
| `CaptureNode.ItemResult` | nodes/Capture/Capture.node.ts:64-285 | an invalid URL throws "Invalid URL: <url>" whatever the operation and credentials; a valid URL with any operation other than screenshot, pdf, content or metadata throws "Unsupported operation: <op>"; a produced record is paired with its item index |
| `CaptureNode.OutcomeAt` | nodes/Capture/Capture.node.ts:63-285 | item i's entry in the list of outcomes is `ItemResult` of item i |
| `CaptureNode.RunItem` | nodes/Capture/Capture.node.ts:64-285 | the body of the `try`, with the option bag mutated in place, computes item i's outcome |
| `CaptureNode.ErrorRecord` | nodes/Capture/Capture.node.ts:288-297 | the error record has no binary data; its fields are exactly `error`, `operation` and `url`, in that order; `error` is the thrown Error's message or "Unknown error", and `operation` and `url` are the item's |
| `CaptureNode.Execute` | nodes/Capture/Capture.node.ts:63-304 | the loop, appending to `returnData` and continuing or rethrowing per item, computes `Batch` over the items' outcomes |
| `CaptureNode.Batch` | nodes/Capture/Capture.node.ts:63-304 | a batch that has not thrown holds one record per item processed |
| `CaptureNode.BatchStaysThrown` | nodes/Capture/Capture.node.ts:286-301 | once an item has rethrown, later items do not change the batch's outcome |
| `CaptureNode.ContinueOnFailBatch` | nodes/Capture/Capture.node.ts:280-298 | with continue-on-fail the batch never throws and holds exactly one record per item, in order: a successful item's own record, or a failed item's error record |
| `CaptureNode.AbortBatchDone` | nodes/Capture/Capture.node.ts:286-301 | without continue-on-fail the batch succeeds exactly when every item does, and then holds their records in order |
| `CaptureNode.AbortBatchThrown` | nodes/Capture/Capture.node.ts:286-301 | without continue-on-fail a failed batch rethrows what the first failing item threw, every earlier item having succeeded |
| `CaptureNode.ExecutePaired` | nodes/Capture/Capture.node.ts:154-296 | every record of a successful batch is paired with its item's index |
| `CaptureNode.ImageMimeType` | nodes/Capture/Capture.node.ts:131-136 | png is image/png, jpg is image/jpeg, every other format is image/webp |
| `CaptureNode.ScreenshotFileName` | nodes/Capture/Capture.node.ts:130 | the name is `screenshot-`, then text that parses back to the timestamp, then `.` and the format |
| `CaptureNode.PdfFileName` | nodes/Capture/Capture.node.ts:202 | the name is `document-`, then text that parses back to the timestamp, then `.pdf` |
| `CaptureNode.Attach` | nodes/Capture/Capture.node.ts:126-162 | a download item succeeds exactly when the download and `prepareBinaryData` both do; it keeps the record and index and attaches the stored binary; a failing download or `prepareBinaryData` rethrows exactly what it threw |
| `CaptureNode.Fetch` | nodes/Capture/Capture.node.ts:240-251 | a content or metadata item succeeds exactly when the JSON request does, and its record spreads the response after `url` and `operation`; a failing request rethrows exactly what it threw |
| `CaptureNode.BaseOptionsFacts` | nodes/Capture/Capture.node.ts:79-82 | `{ url, ...additionalOptions }` has distinct keys with `url` first, and the additional options may override `url` |
| `CaptureNode.ScreenshotOptionsFacts` | nodes/Capture/Capture.node.ts:98-105 | the screenshot bag holds `vw`, `vh`, `full` and `format` from the parameters, and `delay` only when it is positive; every other key holds only what the additional options give it |
| `CaptureNode.ScreenshotOptionsOrder` | nodes/Capture/Capture.node.ts:79-105 | with additional options that avoid the node's keys, the bag is `url`, then the additional options in order, then `vw`, `vh`, `full`, `format`, and `delay` only when positive |
| `CaptureNode.PdfOptionsFacts` | nodes/Capture/Capture.node.ts:175-181 | the PDF bag holds `format` = pdfFormat, `orientation`, `full` = pdfFullPage, and `delay` only when pdfDelay is positive; every other key holds only what the additional options give it |
| `CaptureNode.PdfOptionsOrder` | nodes/Capture/Capture.node.ts:175-181 | with additional options that avoid the node's keys, the bag is `url`, then the additional options, then `format`, `orientation`, `full`, and `delay` only when positive |
| `CaptureNode.ScreenshotSignedQuery` | nodes/Capture/Capture.node.ts:79-113 | with credentials, a URL and additional options that avoid the node's keys, the screenshot URL signs the query string that serializes the canonical pairs of `url`, the additional options in order, `vw`, `vh`, `full`, `format` and the positive delay |
| `CaptureNode.PdfSignedQuery` | nodes/Capture/Capture.node.ts:166-189 | likewise, the PDF URL signs the serialization of `url`, the additional options in order, `format`, `orientation`, `full` and the positive PDF delay |
| `CaptureNode.FetchedRecordFacts` | nodes/Capture/Capture.node.ts:247-251 | the content or metadata record starts with `url` and `operation`, the response's own fields of those names override them, and every other field is the response's |
| `CaptureNode.OperationType` | nodes/Capture/Capture.node.ts:84-278 | exactly the four operations sign a URL; screenshot signs the `image` path and the others their own name |
| `CaptureNode.SignedRequest` | nodes/Capture/Capture.node.ts:84-278 | a signing error becomes the item's error; content and metadata fetch exactly the signed URL; screenshot and PDF records carry it |
| `CaptureNode.UrlOutputNoDownload` | nodes/Capture/Capture.node.ts:115-123 | with output `url`, a screenshot or PDF item succeeds exactly when the key, secret and URL are non-empty; it has no binary data, its record is the screenshot or PDF record built from the signed URL and the item's parameters, and it does not depend on the download, the binary store or the clock |
| `CaptureNode.ScreenshotDownload` | nodes/Capture/Capture.node.ts:124-163 | a downloaded screenshot stores the downloaded bytes under `screenshot-<ms>.<format>` with the format's MIME type, beside the screenshot record |
| `CaptureNode.PdfDownload` | nodes/Capture/Capture.node.ts:199-229 | a downloaded PDF stores the downloaded bytes under `document-<ms>.pdf` as application/pdf, beside the PDF record |
| `CaptureNode.ScreenshotFormatNotSigned` | nodes/Capture/Capture.node.ts:94-113 | the chosen screenshot format never changes the signed URL |
| `CaptureNode.PdfFormatNotSigned` | nodes/Capture/Capture.node.ts:166-189 | the chosen PDF page format never changes the signed URL |
| `CaptureApiCredentials.Authenticate` | credentials/CaptureApi.credentials.ts:39-57 | only `requestOptions.url` changes; it becomes `/<apiKey>/<token>/image?url=https://example.com`, with the token the MD5 hex of `apiSecret + "url=https://example.com"`; the same object is returned |
| `CaptureApiCredentials.ProbeIsSignedImageUrl` | credentials/CaptureApi.credentials.ts:48-65 | the test request is a HEAD to `CDN_URL` with an empty URL, and base plus probe path is a signed `image` URL over the literal query |
| `CaptureApiCredentials.ProbeQueryIsNotCanonical` | credentials/CaptureApi.credentials.ts:48 | no option bag canonicalizes to the probe's literal query |
| `CaptureApiCredentials.ProbeDiffersFromBuilder` | credentials/CaptureApi.credentials.ts:48-51 | for the probe's own target the URL builder signs `url=https%3A%2F%2Fexample.com`, which is not the probe's query |
| `CaptureApiCredentials.ProbeSignsDifferentMessage` | credentials/CaptureApi.credentials.ts:48-51 | with the same secret, the bytes the probe hashes differ from those of every URL the builder signs |

## Left out

- The MD5 compression function is a parameter. Digests are 16 bytes but otherwise unconstrained, so no lemma claims that two tokens differ.
- `validateUrl` (the WHATWG URL parser behind `new URL`, nodes/Capture/GenericFunctions.ts:94-101) is the abstract predicate `Runtime.validateUrl`.
- `downloadBinaryContent`, `createBinaryData`, `prepareBinaryData` and `this.helpers.httpRequest` are the oracles `download`, `prepareBinary` and `fetchJson`.
  - Their request options (method, `encoding`, the 120 s download timeout) and the Buffer conversion are not modelled.
  - The `contentType` the download reports is unused by the node and not modelled.
- The JSON response of content and metadata is modelled as an object. A response that is an array, a string or null would spread differently; that is not modelled.
- `captureApiRequest` is not called by the node and is not modelled.
- `getNodeParameter` and `getCredentials` are replaced by the values `ItemParams` and `Credentials`.
  - Their failures, such as a missing parameter, or credentials missing before the loop starts, are not modelled.
  - In the `catch` block the node reads `operation` and `url` again; the model uses the same values.
- `Date.now()` is the input `Runtime.now(i)`, the clock as read while handling item i.
- Numbers are integers. JavaScript's formatting of non-integral numbers is not modelled.
- Numeric options are assumed to be safe integers (magnitude below 2^53). `GF.Num` accepts any integer, but JavaScript numbers cannot hold larger integers exactly, and `String(n)` uses exponent form from 10^21 on. The node's UI bounds the numbers it sets: viewport width and height 100–3000, delay and PDF delay 0–30 (nodes/Capture/CaptureDescription.ts:55-58, 71-74, 126-129, 283-286).
- Option values that are objects or arrays are not modelled; `URLSearchParams` would stringify them.
- `Object.entries` and object spread list integer-like keys first, in numeric order. This is not modelled. The node's own option keys are not integer-like; the model assumes the same of the keys in `additionalOptions` and in the JSON response of content and metadata, which `{ url, operation, ...response }` spreads (nodes/Capture/Capture.node.ts:247-251). `FetchedRecordFacts` relies on this to put `url` first.
- Dafny characters are Unicode scalar values, so the replacement of lone surrogates that `URLSearchParams` performs does not arise.
- The parser used as the serializer's partner returns `None` on malformed percent-encoded UTF-8, where the standard substitutes U+FFFD. It is only applied to serializer output.
- `HttpRequestOptions` carries only `url`, `baseURL`, the method, headers and query parameters. The probe touches only `url`.
- The node `description` (display names, icon, request defaults), the credential `properties`, nodes/Capture/CaptureDescription.ts (the UI schema) and gulpfile.js (an icon copy task) hold no logic and are not modelled.
- `execute` returns `[returnData]`. `Execute` returns the single output list.

## Code notes

- The screenshot MIME type: every format other than png and jpg maps to image/webp (nodes/Capture/Capture.node.ts:131-136).
- Timeouts: the content and metadata requests set no timeout (nodes/Capture/Capture.node.ts:241-245, 262-266). A 60 s timeout appears only in `captureApiRequest`, which the node does not call. Timeouts are not modelled.
