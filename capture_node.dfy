/** The Capture node's `execute` (nodes/Capture/Capture.node.ts): for each
    input item it validates the URL, assembles the option bag of the chosen
    operation, signs a CDN URL and produces one output record, or applies the
    continue-on-fail policy when something throws. */
module CaptureNode {
  import opened Wrappers
  import opened Bags
  import Utf8
  import Decimal
  import GF = GenericFunctions
  import FormUrlEncoded
  import opened CaptureApiCredentials

  const InvalidUrl := "Invalid URL: "
  const UnsupportedOperation := "Unsupported operation: "
  const UnknownError := "Unknown error"
  const PdfMimeType := "application/pdf"

  /** What a `throw` carries to the `catch`: an `Error` with its message, or
      some other value. */
  datatype Thrown = ErrorWith(message: string) | NonError

  /** The outcome of code that may throw. */
  datatype Outcome<+T> = Done(value: T) | Threw(thrown: Thrown)

  /** A JSON value; numbers are integral. */
  datatype Json = JNull | JBool(b: bool) | JNum(n: int) | JStr(s: string)
                | JArr(elems: seq<Json>) | JObj(fields: Bag<Json>)

  /** The binary attachment `prepareBinaryData` returns. */
  datatype BinaryData = BinaryData(data: seq<Utf8.Byte>, fileName: string, mimeType: string)

  /** An `INodeExecutionData`: its `json`, its `binary.data` if any, and
      `pairedItem.item`. */
  datatype ExecutionData = ExecutionData(json: Bag<Json>, binary: Option<BinaryData>, pairedItem: nat)

  /** The node parameters `getNodeParameter` yields for one item. */
  datatype ItemParams = ItemParams(
    operation: string, url: string, additionalOptions: Bag<GF.Value>,
    viewportWidth: int, viewportHeight: int, fullPage: bool, format: string, delay: int, output: string,
    pdfFormat: string, orientation: string, pdfFullPage: bool, pdfDelay: int, pdfOutput: string)

  /** The host services the node calls: the MD5 digest, `validateUrl`, the
      binary download, `prepareBinaryData`, the JSON GET request and the
      clock `Date.now()` as read while handling item i. */
  datatype Runtime = Runtime(
    md5: GF.Md5,
    validateUrl: string -> bool,
    download: string -> Outcome<seq<Utf8.Byte>>,
    prepareBinary: (seq<Utf8.Byte>, string, string) -> Outcome<BinaryData>,
    fetchJson: string -> Outcome<Bag<Json>>,
    now: nat -> int)

  // ---- option bags ----

  /** `{ url, ...additionalOptions }`. */
  function BaseOptions(p: ItemParams): Bag<GF.Value> {
    Spread([("url", GF.Str(p.url))], p.additionalOptions)
  }

  function WithDelay(options: Bag<GF.Value>, delay: int): Bag<GF.Value> {
    if delay > 0 then Put(options, "delay", GF.Num(delay)) else options
  }

  /** The screenshot bag: base, then `vw`, `vh`, `full`, `format`, and `delay`
      when positive. */
  function ScreenshotOptions(p: ItemParams): Bag<GF.Value> {
    var o1 := Put(BaseOptions(p), "vw", GF.Num(p.viewportWidth));
    var o2 := Put(o1, "vh", GF.Num(p.viewportHeight));
    var o3 := Put(o2, "full", GF.Bool(p.fullPage));
    var o4 := Put(o3, "format", GF.Str(p.format));
    WithDelay(o4, p.delay)
  }

  /** The PDF bag: base, then `format`, `orientation`, `full`, and `delay`
      when positive. */
  function PdfOptions(p: ItemParams): Bag<GF.Value> {
    var o1 := Put(BaseOptions(p), "format", GF.Str(p.pdfFormat));
    var o2 := Put(o1, "orientation", GF.Str(p.orientation));
    var o3 := Put(o2, "full", GF.Bool(p.pdfFullPage));
    WithDelay(o3, p.pdfDelay)
  }

  // ---- records, file names, MIME types ----

  function ScreenshotRecord(signed: string, p: ItemParams): Bag<Json> {
    [("url", JStr(signed)), ("operation", JStr("screenshot")), ("format", JStr(p.format)),
     ("viewportWidth", JNum(p.viewportWidth)), ("viewportHeight", JNum(p.viewportHeight)),
     ("fullPage", JBool(p.fullPage))]
  }

  function PdfRecord(signed: string, p: ItemParams): Bag<Json> {
    [("url", JStr(signed)), ("operation", JStr("pdf")), ("format", JStr(p.pdfFormat)),
     ("orientation", JStr(p.orientation)), ("fullPage", JBool(p.pdfFullPage))]
  }

  /** `{ url, operation, ...response }`. */
  function FetchedRecord(signed: string, operation: string, response: Bag<Json>): Bag<Json> {
    Spread([("url", JStr(signed)), ("operation", JStr(operation))], response)
  }

  /** The record pushed for an item that threw under continue-on-fail. */
  function ErrorRecord(t: Thrown, p: ItemParams, i: nat): (d: ExecutionData)
    ensures d.pairedItem == i && d.binary.None?
    ensures Get(d.json, "error") == Some(JStr(if t.ErrorWith? then t.message else UnknownError))
    ensures Get(d.json, "operation") == Some(JStr(p.operation)) && Get(d.json, "url") == Some(JStr(p.url))
    ensures Keys(d.json) == ["error", "operation", "url"]
  {
    var text := if t.ErrorWith? then t.message else UnknownError;
    var json := [("error", JStr(text)), ("operation", JStr(p.operation)), ("url", JStr(p.url))];
    assert json[1..][1..] == [("url", JStr(p.url))];
    assert json[0].0 != "url" && json[1..][0].0 != "url";
    assert Get(json, "url") == Get(json[1..], "url") == Get(json[1..][1..], "url");
    assert Keys(json[1..][1..][1..]) == [];
    assert Keys(json[1..][1..]) == ["url"];
    assert Keys(json[1..]) == ["operation"] + ["url"];
    ExecutionData(json, None, i)
  }

  /** png and jpg have their own image types; every other format is webp. */
  function ImageMimeType(format: string): (mime: string)
    ensures format == "png" ==> mime == "image/png"
    ensures format == "jpg" ==> mime == "image/jpeg"
    ensures format != "png" && format != "jpg" ==> mime == "image/webp"
  {
    if format == "png" then "image/png"
    else if format == "jpg" then "image/jpeg"
    else "image/webp"
  }

  /** The three parts of a file name can be cut back out of it. */
  lemma ConcatParts(a: string, b: string, c: string)
    ensures var s := a + b + c;
      |s| == |a| + |b| + |c| && s[..|a|] == a && s[|a|..|s| - |c|] == b && s[|s| - |c|..] == c
  {
  }

  /** `screenshot-<ms>.<format>`: the timestamp can be read back from the name. */
  function ScreenshotFileName(ms: int, format: string): (name: string)
    ensures |name| >= 13 + |format|
    ensures name[..11] == "screenshot-" && name[|name| - |format| - 1..] == "." + format
    ensures Decimal.ParseInt(name[11..|name| - |format| - 1]) == Some(ms)
  {
    var digits := Decimal.IntToString(ms);
    Decimal.IntRoundTrip(ms);
    ConcatParts("screenshot-", digits, "." + format);
    "screenshot-" + digits + ("." + format)
  }

  /** `document-<ms>.pdf`: the timestamp can be read back from the name. */
  function PdfFileName(ms: int): (name: string)
    ensures |name| >= 14
    ensures name[..9] == "document-" && name[|name| - 4..] == ".pdf"
    ensures Decimal.ParseInt(name[9..|name| - 4]) == Some(ms)
  {
    var digits := Decimal.IntToString(ms);
    Decimal.IntRoundTrip(ms);
    ConcatParts("document-", digits, ".pdf");
    "document-" + digits + ".pdf"
  }

  // ---- one item ----

  /** Downloads a signed URL and attaches it as binary data. */
  function Attach(rt: Runtime, signed: string, fileName: string, mimeType: string,
                  record: Bag<Json>, i: nat): (r: Outcome<ExecutionData>)
    ensures r.Done? ==> r.value == ExecutionData(record, r.value.binary, i)
    ensures r.Done? <==> rt.download(signed).Done? &&
                         rt.prepareBinary(rt.download(signed).value, fileName, mimeType).Done?
    ensures r.Done? ==> r.value.binary == Some(rt.prepareBinary(rt.download(signed).value, fileName, mimeType).value)
    ensures rt.download(signed).Threw? ==> r == Threw(rt.download(signed).thrown)
    ensures rt.download(signed).Done? &&
            rt.prepareBinary(rt.download(signed).value, fileName, mimeType).Threw? ==>
              r == Threw(rt.prepareBinary(rt.download(signed).value, fileName, mimeType).thrown)
  {
    match rt.download(signed)
    case Threw(t) => Threw(t)
    case Done(data) =>
      match rt.prepareBinary(data, fileName, mimeType)
      case Threw(t) => Threw(t)
      case Done(binary) => Done(ExecutionData(record, Some(binary), i))
  }

  /** Requests a signed URL as JSON and spreads the response into the record. */
  function Fetch(rt: Runtime, signed: string, operation: string, i: nat): (r: Outcome<ExecutionData>)
    ensures r.Done? <==> rt.fetchJson(signed).Done?
    ensures rt.fetchJson(signed).Threw? ==> r == Threw(rt.fetchJson(signed).thrown)
    ensures r.Done? ==> r.value == ExecutionData(FetchedRecord(signed, operation, rt.fetchJson(signed).value), None, i)
  {
    match rt.fetchJson(signed)
    case Threw(t) => Threw(t)
    case Done(response) => Done(ExecutionData(FetchedRecord(signed, operation, response), None, i))
  }

  /** The four operations the node dispatches on. */
  predicate IsOperation(operation: string) {
    operation == "screenshot" || operation == "pdf" || operation == "content" || operation == "metadata"
  }

  /** The path segment each operation signs: screenshot uses `image`, the
      others their own name. */
  function OperationType(operation: string): (t: Option<GF.CaptureType>)
    ensures t.Some? <==> IsOperation(operation)
    ensures t.Some? ==> GF.PathSegment(t.value) == (if operation == "screenshot" then "image" else operation)
  {
    if operation == "screenshot" then Some(GF.Image)
    else if operation == "pdf" then Some(GF.Pdf)
    else if operation == "content" then Some(GF.Content)
    else if operation == "metadata" then Some(GF.Metadata)
    else None
  }

  /** The option bag each operation signs. */
  function OperationOptions(p: ItemParams): Bag<GF.Value> {
    if p.operation == "screenshot" then ScreenshotOptions(p)
    else if p.operation == "pdf" then PdfOptions(p)
    else BaseOptions(p)
  }

  /** What a supported operation makes of its signed URL: the screenshot
      and PDF records, downloaded unless the output is `url`, or the fetched
      content or metadata. */
  function Deliver(rt: Runtime, p: ItemParams, signed: string, i: nat): (r: Outcome<ExecutionData>)
    ensures r.Done? ==> r.value.pairedItem == i
  {
    if p.operation == "screenshot" then
      var record := ScreenshotRecord(signed, p);
      if p.output == "url" then Done(ExecutionData(record, None, i))
      else Attach(rt, signed, ScreenshotFileName(rt.now(i), p.format), ImageMimeType(p.format), record, i)
    else if p.operation == "pdf" then
      var record := PdfRecord(signed, p);
      if p.pdfOutput == "url" then Done(ExecutionData(record, None, i))
      else Attach(rt, signed, PdfFileName(rt.now(i)), PdfMimeType, record, i)
    else Fetch(rt, signed, p.operation, i)
  }

  /** What the body of the `try` does with item i. */
  function ItemResult(rt: Runtime, creds: Credentials, p: ItemParams, i: nat): (r: Outcome<ExecutionData>)
    ensures !rt.validateUrl(p.url) ==> r == Threw(ErrorWith(InvalidUrl + p.url))
    ensures rt.validateUrl(p.url) && !IsOperation(p.operation) ==>
              r == Threw(ErrorWith(UnsupportedOperation + p.operation))
    ensures r.Done? ==> r.value.pairedItem == i
  {
    if !rt.validateUrl(p.url) then Threw(ErrorWith(InvalidUrl + p.url))
    else match OperationType(p.operation)
      case None => Threw(ErrorWith(UnsupportedOperation + p.operation))
      case Some(t) =>
        match GF.CaptureUrl(rt.md5, creds.apiKey, creds.apiSecret, t, p.url, OperationOptions(p))
        case Failure(e) => Threw(ErrorWith(e))
        case Success(signed) => Deliver(rt, p, signed, i)
  }

  /** The record an item with outcome `o` contributes under
      continue-on-fail: its own record, or the error record. */
  function Collected(o: Outcome<ExecutionData>, p: ItemParams, i: nat): (d: ExecutionData)
    ensures o.Done? ==> d == o.value
    ensures o.Threw? ==> d == ErrorRecord(o.thrown, p, i)
  {
    match o
    case Done(d) => d
    case Threw(t) => ErrorRecord(t, p, i)
  }

  /** The outcome of every item, in order. */
  function Outcomes(rt: Runtime, creds: Credentials, items: seq<ItemParams>): (os: seq<Outcome<ExecutionData>>)
    ensures |os| == |items|
    decreases |items|
  {
    if items == [] then []
    else Outcomes(rt, creds, items[..|items| - 1]) + [ItemResult(rt, creds, items[|items| - 1], |items| - 1)]
  }

  /** Item i's outcome is what the `try` body makes of item i. */
  lemma {:induction false} OutcomeAt(rt: Runtime, creds: Credentials, items: seq<ItemParams>, i: nat)
    requires i < |items|
    ensures Outcomes(rt, creds, items)[i] == ItemResult(rt, creds, items[i], i)
    decreases |items|
  {
    if i < |items| - 1 {
      var init := items[..|items| - 1];
      OutcomeAt(rt, creds, init, i);
      assert init[i] == items[i];
    }
  }

  // ---- the loop ----

  /** The body of the `try` for item i, mutating its option bag field by
      field as the node does. */
  method RunItem(rt: Runtime, creds: Credentials, items: seq<ItemParams>, i: nat) returns (r: Outcome<ExecutionData>)
    requires i < |items|
    ensures r == Outcomes(rt, creds, items)[i]
  {
    OutcomeAt(rt, creds, items, i);
    var p := items[i];
    var operation := p.operation;
    var url := p.url;
    if !rt.validateUrl(url) {
      return Threw(ErrorWith(InvalidUrl + url));
    }
    var options := Spread([("url", GF.Str(url))], p.additionalOptions);
    if operation == "screenshot" {
      options := Put(options, "vw", GF.Num(p.viewportWidth));
      options := Put(options, "vh", GF.Num(p.viewportHeight));
      options := Put(options, "full", GF.Bool(p.fullPage));
      options := Put(options, "format", GF.Str(p.format));
      if p.delay > 0 {
        options := Put(options, "delay", GF.Num(p.delay));
      }
      var screenshotUrl := GF.BuildCaptureUrl(rt.md5, creds.apiKey, creds.apiSecret, GF.Image, url, options);
      if screenshotUrl.Failure? {
        return Threw(ErrorWith(screenshotUrl.error));
      }
      var responseData := ScreenshotRecord(screenshotUrl.value, p);
      if p.output == "url" {
        return Done(ExecutionData(responseData, None, i));
      }
      var download := rt.download(screenshotUrl.value);
      if download.Threw? {
        return Threw(download.thrown);
      }
      var filename := ScreenshotFileName(rt.now(i), p.format);
      var mimeType := ImageMimeType(p.format);
      var binaryData := rt.prepareBinary(download.value, filename, mimeType);
      if binaryData.Threw? {
        return Threw(binaryData.thrown);
      }
      return Done(ExecutionData(responseData, Some(binaryData.value), i));
    } else if operation == "pdf" {
      options := Put(options, "format", GF.Str(p.pdfFormat));
      options := Put(options, "orientation", GF.Str(p.orientation));
      options := Put(options, "full", GF.Bool(p.pdfFullPage));
      if p.pdfDelay > 0 {
        options := Put(options, "delay", GF.Num(p.pdfDelay));
      }
      var pdfUrl := GF.BuildCaptureUrl(rt.md5, creds.apiKey, creds.apiSecret, GF.Pdf, url, options);
      if pdfUrl.Failure? {
        return Threw(ErrorWith(pdfUrl.error));
      }
      var responseData := PdfRecord(pdfUrl.value, p);
      if p.pdfOutput == "url" {
        return Done(ExecutionData(responseData, None, i));
      }
      var download := rt.download(pdfUrl.value);
      if download.Threw? {
        return Threw(download.thrown);
      }
      var binaryData := rt.prepareBinary(download.value, PdfFileName(rt.now(i)), PdfMimeType);
      if binaryData.Threw? {
        return Threw(binaryData.thrown);
      }
      return Done(ExecutionData(responseData, Some(binaryData.value), i));
    } else if operation == "content" || operation == "metadata" {
      var t := if operation == "content" then GF.Content else GF.Metadata;
      var signed := GF.BuildCaptureUrl(rt.md5, creds.apiKey, creds.apiSecret, t, url, options);
      if signed.Failure? {
        return Threw(ErrorWith(signed.error));
      }
      var response := rt.fetchJson(signed.value);
      if response.Threw? {
        return Threw(response.thrown);
      }
      return Done(ExecutionData(FetchedRecord(signed.value, operation, response.value), None, i));
    } else {
      return Threw(ErrorWith(UnsupportedOperation + operation));
    }
  }

  /** What the loop makes of the first n outcomes: each successful item
      appends its record; a failing item appends its error record under
      continue-on-fail and otherwise ends the batch with what it threw. */
  function Batch(os: seq<Outcome<ExecutionData>>, items: seq<ItemParams>, continueOnFail: bool, n: nat)
      : (r: Outcome<seq<ExecutionData>>)
    requires n <= |os| == |items|
    ensures r.Done? ==> |r.value| == n
  {
    if n == 0 then Done([])
    else
      match Batch(os, items, continueOnFail, n - 1)
      case Threw(t) => Threw(t)
      case Done(prev) =>
        match os[n - 1]
        case Done(d) => Done(prev + [d])
        case Threw(t) =>
          if continueOnFail then Done(prev + [ErrorRecord(t, items[n - 1], n - 1)]) else Threw(t)
  }

  /** `execute`: one pass over the items, rethrowing or recording each
      failure as the continue-on-fail setting says. */
  method Execute(rt: Runtime, creds: Credentials, items: seq<ItemParams>, continueOnFail: bool)
      returns (r: Outcome<seq<ExecutionData>>)
    ensures r == Batch(Outcomes(rt, creds, items), items, continueOnFail, |items|)
  {
    ghost var os := Outcomes(rt, creds, items);
    var returnData: seq<ExecutionData> := [];
    for i := 0 to |items|
      invariant Batch(os, items, continueOnFail, i) == Done(returnData)
    {
      var res := RunItem(rt, creds, items, i);
      BatchStep(os, items, continueOnFail, i);
      if res.Done? {
        returnData := returnData + [res.value];
      } else if continueOnFail {
        returnData := returnData + [ErrorRecord(res.thrown, items[i], i)];
        continue;
      } else {
        BatchStaysThrown(os, items, continueOnFail, i + 1, |items|);
        return Threw(res.thrown);
      }
    }
    return Done(returnData);
  }

  /** One more item: the batch so far grows by that item's record, its error
      record, or ends with what it threw. */
  lemma BatchStep(os: seq<Outcome<ExecutionData>>, items: seq<ItemParams>, continueOnFail: bool, n: nat)
    requires n < |os| == |items|
    requires Batch(os, items, continueOnFail, n).Done?
    ensures var prev := Batch(os, items, continueOnFail, n).value;
      Batch(os, items, continueOnFail, n + 1) ==
        if os[n].Done? then Done(prev + [os[n].value])
        else if continueOnFail then Done(prev + [ErrorRecord(os[n].thrown, items[n], n)])
        else Threw(os[n].thrown)
  {
  }

  /** Once the batch has thrown, later items do not change what it threw. */
  lemma {:induction false} BatchStaysThrown(os: seq<Outcome<ExecutionData>>, items: seq<ItemParams>,
                                            continueOnFail: bool, m: nat, n: nat)
    requires m <= n <= |os| == |items|
    requires Batch(os, items, continueOnFail, m).Threw?
    ensures Batch(os, items, continueOnFail, n) == Batch(os, items, continueOnFail, m)
    decreases n
  {
    if m < n {
      BatchStaysThrown(os, items, continueOnFail, m, n - 1);
    }
  }

  /** With continue-on-fail the batch never throws and holds one record per
      item, in order: the item's own record, or its error record. */
  lemma {:induction false} ContinueOnFailBatch(os: seq<Outcome<ExecutionData>>, items: seq<ItemParams>, n: nat)
    requires n <= |os| == |items|
    ensures Batch(os, items, true, n).Done?
    ensures forall i :: 0 <= i < n ==> Batch(os, items, true, n).value[i] == Collected(os[i], items[i], i)
    decreases n
  {
    if n > 0 {
      ContinueOnFailBatch(os, items, n - 1);
    }
  }

  /** Without continue-on-fail the batch succeeds exactly when every item
      does, and then holds their records in order. */
  lemma {:induction false} AbortBatchDone(os: seq<Outcome<ExecutionData>>, items: seq<ItemParams>, n: nat)
    requires n <= |os| == |items|
    ensures Batch(os, items, false, n).Done? <==> forall i :: 0 <= i < n ==> os[i].Done?
    ensures Batch(os, items, false, n).Done? ==>
              forall i :: 0 <= i < n ==> Batch(os, items, false, n).value[i] == os[i].value
    decreases n
  {
    if n > 0 {
      AbortBatchDone(os, items, n - 1);
    }
  }

  /** Without continue-on-fail a thrown batch rethrows what the first
      failing item threw. */
  lemma {:induction false} AbortBatchThrown(os: seq<Outcome<ExecutionData>>, items: seq<ItemParams>, n: nat)
    requires n <= |os| == |items|
    requires Batch(os, items, false, n).Threw?
    ensures exists k :: 0 <= k < n && os[k] == Threw(Batch(os, items, false, n).thrown) &&
                        forall j :: 0 <= j < k ==> os[j].Done?
    decreases n
  {
    var prev := Batch(os, items, false, n - 1);
    if prev.Threw? {
      assert Batch(os, items, false, n) == prev;
      AbortBatchThrown(os, items, n - 1);
    } else {
      BatchStep(os, items, false, n - 1);
      AbortBatchDone(os, items, n - 1);
      assert os[n - 1].Threw? && os[n - 1] == Threw(Batch(os, items, false, n).thrown);
    }
  }

  /** Every record an item's own outcome carries is paired with its index. */
  lemma OutcomesPaired(rt: Runtime, creds: Credentials, items: seq<ItemParams>, i: nat)
    requires i < |items|
    ensures Outcomes(rt, creds, items)[i].Done? ==> Outcomes(rt, creds, items)[i].value.pairedItem == i
  {
    OutcomeAt(rt, creds, items, i);
  }

  /** Every record of a successful batch is paired with its item's index,
      provided each item's own record is. */
  lemma {:induction false} BatchPaired(os: seq<Outcome<ExecutionData>>, items: seq<ItemParams>,
                                       continueOnFail: bool, n: nat)
    requires n <= |os| == |items|
    requires forall i :: 0 <= i < |os| && os[i].Done? ==> os[i].value.pairedItem == i
    requires Batch(os, items, continueOnFail, n).Done?
    ensures forall i :: 0 <= i < n ==> Batch(os, items, continueOnFail, n).value[i].pairedItem == i
    decreases n
  {
    if n > 0 {
      BatchPaired(os, items, continueOnFail, n - 1);
    }
  }

  /** The records `execute` returns are paired with their items' indices. */
  lemma ExecutePaired(rt: Runtime, creds: Credentials, items: seq<ItemParams>, continueOnFail: bool)
    ensures var r := Batch(Outcomes(rt, creds, items), items, continueOnFail, |items|);
      r.Done? ==> forall i :: 0 <= i < |items| ==> r.value[i].pairedItem == i
  {
    var os := Outcomes(rt, creds, items);
    forall i | 0 <= i < |os|
      ensures os[i].Done? ==> os[i].value.pairedItem == i
    {
      OutcomesPaired(rt, creds, items, i);
    }
    if Batch(os, items, continueOnFail, |items|).Done? {
      BatchPaired(os, items, continueOnFail, |items|);
    }
  }

  // ---- properties ----

  /** `{ url, ...additionalOptions }` has distinct keys, `url` first, `url`
      overridable by the additional options and every other key taken from
      them. */
  lemma BaseOptionsFacts(p: ItemParams)
    ensures var o := BaseOptions(p);
      && UniqueKeys(o) && |o| >= 1 && o[0].0 == "url"
      && Get(o, "url") == (if GetLast(p.additionalOptions, "url").Some? then GetLast(p.additionalOptions, "url")
                           else Some(GF.Str(p.url)))
      && forall k :: k != "url" ==> Get(o, k) == GetLast(p.additionalOptions, k)
  {
    GF.RequestOptionsFacts(p.url, p.additionalOptions);
  }

  /** Assigning a key other than the first keeps the first entry, and
      assignment keeps keys distinct. */
  lemma PutKeepsShape<V>(b: Bag<V>, k: string, v: V)
    requires UniqueKeys(b) && |b| >= 1 && b[0].0 != k
    ensures UniqueKeys(Put(b, k, v)) && |Put(b, k, v)| >= 1 && Put(b, k, v)[0] == b[0]
  {
    PutUnique(b, k, v);
  }

  /** The keys the node itself sets on a screenshot bag. */
  predicate ScreenshotKey(k: string) {
    k == "url" || k == "vw" || k == "vh" || k == "full" || k == "format" || k == "delay"
  }

  /** The keys the node itself sets on a PDF bag. */
  predicate PdfKey(k: string) {
    k == "url" || k == "format" || k == "orientation" || k == "full" || k == "delay"
  }

  /** The screenshot bag has distinct keys with `url` first; `vw`, `vh`,
      `full` and `format` hold the item's parameters, `delay` holds the delay
      when it is positive, and every other key, the screenshot UI fields
      included, holds only what `additionalOptions` gives it. */
  lemma ScreenshotOptionsFacts(p: ItemParams)
    ensures var o := ScreenshotOptions(p);
      && UniqueKeys(o) && |o| >= 1 && o[0].0 == "url"
      && Get(o, "url") == (if GetLast(p.additionalOptions, "url").Some? then GetLast(p.additionalOptions, "url")
                           else Some(GF.Str(p.url)))
      && Get(o, "vw") == Some(GF.Num(p.viewportWidth))
      && Get(o, "vh") == Some(GF.Num(p.viewportHeight))
      && Get(o, "full") == Some(GF.Bool(p.fullPage))
      && Get(o, "format") == Some(GF.Str(p.format))
      && Get(o, "delay") == (if p.delay > 0 then Some(GF.Num(p.delay)) else GetLast(p.additionalOptions, "delay"))
      && forall k :: !ScreenshotKey(k) ==> Get(o, k) == GetLast(p.additionalOptions, k)
  {
    ScreenshotOptionsShape(p);
    ScreenshotOptionsValues(p);
  }

  lemma ScreenshotOptionsShape(p: ItemParams)
    ensures var o := ScreenshotOptions(p); UniqueKeys(o) && |o| >= 1 && o[0].0 == "url"
  {
    var o0 := BaseOptions(p);
    BaseOptionsFacts(p);
    var o1 := Put(o0, "vw", GF.Num(p.viewportWidth));
    PutKeepsShape(o0, "vw", GF.Num(p.viewportWidth));
    var o2 := Put(o1, "vh", GF.Num(p.viewportHeight));
    PutKeepsShape(o1, "vh", GF.Num(p.viewportHeight));
    var o3 := Put(o2, "full", GF.Bool(p.fullPage));
    PutKeepsShape(o2, "full", GF.Bool(p.fullPage));
    var o4 := Put(o3, "format", GF.Str(p.format));
    PutKeepsShape(o3, "format", GF.Str(p.format));
    PutKeepsShape(o4, "delay", GF.Num(p.delay));
  }

  lemma ScreenshotOptionsValues(p: ItemParams)
    ensures var o := ScreenshotOptions(p);
      && Get(o, "url") == (if GetLast(p.additionalOptions, "url").Some? then GetLast(p.additionalOptions, "url")
                           else Some(GF.Str(p.url)))
      && Get(o, "vw") == Some(GF.Num(p.viewportWidth))
      && Get(o, "vh") == Some(GF.Num(p.viewportHeight))
      && Get(o, "full") == Some(GF.Bool(p.fullPage))
      && Get(o, "format") == Some(GF.Str(p.format))
      && Get(o, "delay") == (if p.delay > 0 then Some(GF.Num(p.delay)) else GetLast(p.additionalOptions, "delay"))
      && forall k :: !ScreenshotKey(k) ==> Get(o, k) == GetLast(p.additionalOptions, k)
  {
    var o0 := BaseOptions(p);
    BaseOptionsFacts(p);
    var o1 := Put(o0, "vw", GF.Num(p.viewportWidth));
    var o2 := Put(o1, "vh", GF.Num(p.viewportHeight));
    var o3 := Put(o2, "full", GF.Bool(p.fullPage));
    var o4 := Put(o3, "format", GF.Str(p.format));
    var o := ScreenshotOptions(p);
    assert o == WithDelay(o4, p.delay);
    forall k
      ensures Get(o, k) == if k == "delay" && p.delay > 0 then Some(GF.Num(p.delay))
                           else if k == "format" then Some(GF.Str(p.format))
                           else if k == "full" then Some(GF.Bool(p.fullPage))
                           else if k == "vh" then Some(GF.Num(p.viewportHeight))
                           else if k == "vw" then Some(GF.Num(p.viewportWidth))
                           else Get(o0, k)
    {
      PutGet(o0, "vw", GF.Num(p.viewportWidth), k);
      PutGet(o1, "vh", GF.Num(p.viewportHeight), k);
      PutGet(o2, "full", GF.Bool(p.fullPage), k);
      PutGet(o3, "format", GF.Str(p.format), k);
      PutGet(o4, "delay", GF.Num(p.delay), k);
    }
  }

  /** The PDF bag has distinct keys with `url` first; `format`,
      `orientation` and `full` hold the PDF parameters, `delay` the PDF delay
      when it is positive, and every other key holds only what
      `additionalOptions` gives it. */
  lemma PdfOptionsFacts(p: ItemParams)
    ensures var o := PdfOptions(p);
      && UniqueKeys(o) && |o| >= 1 && o[0].0 == "url"
      && Get(o, "url") == (if GetLast(p.additionalOptions, "url").Some? then GetLast(p.additionalOptions, "url")
                           else Some(GF.Str(p.url)))
      && Get(o, "format") == Some(GF.Str(p.pdfFormat))
      && Get(o, "orientation") == Some(GF.Str(p.orientation))
      && Get(o, "full") == Some(GF.Bool(p.pdfFullPage))
      && Get(o, "delay") == (if p.pdfDelay > 0 then Some(GF.Num(p.pdfDelay)) else GetLast(p.additionalOptions, "delay"))
      && forall k :: !PdfKey(k) ==> Get(o, k) == GetLast(p.additionalOptions, k)
  {
    PdfOptionsShape(p);
    PdfOptionsValues(p);
  }

  lemma PdfOptionsShape(p: ItemParams)
    ensures var o := PdfOptions(p); UniqueKeys(o) && |o| >= 1 && o[0].0 == "url"
  {
    var o0 := BaseOptions(p);
    BaseOptionsFacts(p);
    var o1 := Put(o0, "format", GF.Str(p.pdfFormat));
    PutKeepsShape(o0, "format", GF.Str(p.pdfFormat));
    var o2 := Put(o1, "orientation", GF.Str(p.orientation));
    PutKeepsShape(o1, "orientation", GF.Str(p.orientation));
    var o3 := Put(o2, "full", GF.Bool(p.pdfFullPage));
    PutKeepsShape(o2, "full", GF.Bool(p.pdfFullPage));
    PutKeepsShape(o3, "delay", GF.Num(p.pdfDelay));
  }

  lemma PdfOptionsValues(p: ItemParams)
    ensures var o := PdfOptions(p);
      && Get(o, "url") == (if GetLast(p.additionalOptions, "url").Some? then GetLast(p.additionalOptions, "url")
                           else Some(GF.Str(p.url)))
      && Get(o, "format") == Some(GF.Str(p.pdfFormat))
      && Get(o, "orientation") == Some(GF.Str(p.orientation))
      && Get(o, "full") == Some(GF.Bool(p.pdfFullPage))
      && Get(o, "delay") == (if p.pdfDelay > 0 then Some(GF.Num(p.pdfDelay)) else GetLast(p.additionalOptions, "delay"))
      && forall k :: !PdfKey(k) ==> Get(o, k) == GetLast(p.additionalOptions, k)
  {
    var o0 := BaseOptions(p);
    BaseOptionsFacts(p);
    var o1 := Put(o0, "format", GF.Str(p.pdfFormat));
    var o2 := Put(o1, "orientation", GF.Str(p.orientation));
    var o3 := Put(o2, "full", GF.Bool(p.pdfFullPage));
    var o := PdfOptions(p);
    assert o == WithDelay(o3, p.pdfDelay);
    forall k
      ensures Get(o, k) == if k == "delay" && p.pdfDelay > 0 then Some(GF.Num(p.pdfDelay))
                           else if k == "full" then Some(GF.Bool(p.pdfFullPage))
                           else if k == "orientation" then Some(GF.Str(p.orientation))
                           else if k == "format" then Some(GF.Str(p.pdfFormat))
                           else Get(o0, k)
    {
      PutGet(o0, "format", GF.Str(p.pdfFormat), k);
      PutGet(o1, "orientation", GF.Str(p.orientation), k);
      PutGet(o2, "full", GF.Bool(p.pdfFullPage), k);
      PutGet(o3, "delay", GF.Num(p.pdfDelay), k);
    }
  }

  /** When the additional options have no `url`, the base bag is `url`
      followed by them, in their order. */
  lemma FreshBaseOptions(p: ItemParams)
    requires UniqueKeys(p.additionalOptions)
    requires forall i :: 0 <= i < |p.additionalOptions| ==> p.additionalOptions[i].0 != "url"
    ensures BaseOptions(p) == [("url", GF.Str(p.url))] + p.additionalOptions
  {
    SpreadFresh([("url", GF.Str(p.url))], p.additionalOptions);
  }

  /** A key neither `url` nor among the additional options is absent from
      the base bag. */
  lemma AbsentFromBase(p: ItemParams, k: string)
    requires k != "url"
    requires forall i :: 0 <= i < |p.additionalOptions| ==> p.additionalOptions[i].0 != k
    ensures Get(BaseOptions(p), k).None?
  {
    BaseOptionsFacts(p);
    GF.GetLastPresent(p.additionalOptions, k);
    GetPresent(p.additionalOptions, k);
  }

  /** Assigning a key the bag lacks appends it and keeps another absent key
      absent. */
  lemma PutFresh<V>(b: Bag<V>, k: string, v: V, other: string)
    requires Get(b, k).None? && Get(b, other).None? && other != k
    ensures Put(b, k, v) == b + [(k, v)]
    ensures Get(Put(b, k, v), other).None?
  {
    PutFacts(b, k, v);
  }

  /** With additional options that avoid the node's keys, the screenshot
      bag is exactly `url`, the additional options in order, `vw`, `vh`,
      `full`, `format`, and `delay` only when the delay is positive. */
  lemma ScreenshotOptionsOrder(p: ItemParams)
    requires UniqueKeys(p.additionalOptions)
    requires forall i :: 0 <= i < |p.additionalOptions| ==> !ScreenshotKey(p.additionalOptions[i].0)
    ensures ScreenshotOptions(p) ==
      [("url", GF.Str(p.url))] + p.additionalOptions
      + [("vw", GF.Num(p.viewportWidth)), ("vh", GF.Num(p.viewportHeight)),
         ("full", GF.Bool(p.fullPage)), ("format", GF.Str(p.format))]
      + (if p.delay > 0 then [("delay", GF.Num(p.delay))] else [])
  {
    FreshBaseOptions(p);
    var o0 := BaseOptions(p);
    AbsentFromBase(p, "vw"); AbsentFromBase(p, "vh"); AbsentFromBase(p, "full");
    AbsentFromBase(p, "format"); AbsentFromBase(p, "delay");
    var e1, e2, e3, e4 := ("vw", GF.Num(p.viewportWidth)), ("vh", GF.Num(p.viewportHeight)),
                          ("full", GF.Bool(p.fullPage)), ("format", GF.Str(p.format));
    var o1 := Put(o0, e1.0, e1.1);
    PutFresh(o0, e1.0, e1.1, "vh"); PutGet(o0, e1.0, e1.1, "full");
    PutGet(o0, e1.0, e1.1, "format"); PutGet(o0, e1.0, e1.1, "delay");
    var o2 := Put(o1, e2.0, e2.1);
    PutFresh(o1, e2.0, e2.1, "full"); PutGet(o1, e2.0, e2.1, "format"); PutGet(o1, e2.0, e2.1, "delay");
    var o3 := Put(o2, e3.0, e3.1);
    PutFresh(o2, e3.0, e3.1, "format"); PutGet(o2, e3.0, e3.1, "delay");
    var o4 := Put(o3, e4.0, e4.1);
    PutFresh(o3, e4.0, e4.1, "delay");
    PutFacts(o4, "delay", GF.Num(p.delay));
    assert ScreenshotOptions(p) == WithDelay(o4, p.delay);
    assert o4 == [("url", GF.Str(p.url))] + p.additionalOptions + [e1, e2, e3, e4];
  }

  /** With additional options that avoid the node's keys, the PDF bag is
      exactly `url`, the additional options in order, `format`,
      `orientation`, `full`, and `delay` only when the PDF delay is positive. */
  lemma PdfOptionsOrder(p: ItemParams)
    requires UniqueKeys(p.additionalOptions)
    requires forall i :: 0 <= i < |p.additionalOptions| ==> !PdfKey(p.additionalOptions[i].0)
    ensures PdfOptions(p) ==
      [("url", GF.Str(p.url))] + p.additionalOptions
      + [("format", GF.Str(p.pdfFormat)), ("orientation", GF.Str(p.orientation)),
         ("full", GF.Bool(p.pdfFullPage))]
      + (if p.pdfDelay > 0 then [("delay", GF.Num(p.pdfDelay))] else [])
  {
    FreshBaseOptions(p);
    var o0 := BaseOptions(p);
    AbsentFromBase(p, "format"); AbsentFromBase(p, "orientation");
    AbsentFromBase(p, "full"); AbsentFromBase(p, "delay");
    var e1, e2, e3 := ("format", GF.Str(p.pdfFormat)), ("orientation", GF.Str(p.orientation)),
                      ("full", GF.Bool(p.pdfFullPage));
    var o1 := Put(o0, e1.0, e1.1);
    PutFresh(o0, e1.0, e1.1, "orientation"); PutGet(o0, e1.0, e1.1, "full"); PutGet(o0, e1.0, e1.1, "delay");
    var o2 := Put(o1, e2.0, e2.1);
    PutFresh(o1, e2.0, e2.1, "full"); PutGet(o1, e2.0, e2.1, "delay");
    var o3 := Put(o2, e3.0, e3.1);
    PutFresh(o2, e3.0, e3.1, "delay");
    PutFacts(o3, "delay", GF.Num(p.pdfDelay));
    assert PdfOptions(p) == WithDelay(o3, p.pdfDelay);
    assert o3 == [("url", GF.Str(p.url))] + p.additionalOptions + [e1, e2, e3];
  }

  /** The record of a content or metadata item: `url` and `operation` come
      first, and the response's own `url` or `operation` fields override
      them; every other field is the response's. */
  /** The signed screenshot URL, written out: with additional options that
      avoid the node's keys, the query string is the canonical serialization
      of `url`, the additional options in order, `vw`, `vh`, `full`,
      `format` and the positive delay, and the token signs that string. */
  lemma ScreenshotSignedQuery(md5: GF.Md5, creds: Credentials, p: ItemParams)
    requires creds.apiKey != "" && creds.apiSecret != "" && p.url != ""
    requires UniqueKeys(p.additionalOptions)
    requires forall i :: 0 <= i < |p.additionalOptions| ==> !ScreenshotKey(p.additionalOptions[i].0)
    ensures var qs := FormUrlEncoded.Serialize(GF.CanonicalPairs(
              [("url", GF.Str(p.url))] + p.additionalOptions
              + [("vw", GF.Num(p.viewportWidth)), ("vh", GF.Num(p.viewportHeight)),
                 ("full", GF.Bool(p.fullPage)), ("format", GF.Str(p.format))]
              + (if p.delay > 0 then [("delay", GF.Num(p.delay))] else [])));
      GF.CaptureUrl(md5, creds.apiKey, creds.apiSecret, GF.Image, p.url, ScreenshotOptions(p))
      == Success(GF.SignedUrl(creds.apiKey, GF.GenerateToken(md5, creds.apiSecret, qs), GF.Image, qs))
  {
    ScreenshotOptionsOrder(p);
    ScreenshotOptionsShape(p);
    BaseOptionsFacts(p);
    FreshBaseOptions(p);
    var o := ScreenshotOptions(p);
    assert o[0] == ("url", GF.Str(p.url));
    GF.RequestOptionsOfOrdered(p.url, o);
  }

  /** The signed PDF URL, written out: the query string is the canonical
      serialization of `url`, the additional options in order, `format`,
      `orientation`, `full` and the positive PDF delay. */
  lemma PdfSignedQuery(md5: GF.Md5, creds: Credentials, p: ItemParams)
    requires creds.apiKey != "" && creds.apiSecret != "" && p.url != ""
    requires UniqueKeys(p.additionalOptions)
    requires forall i :: 0 <= i < |p.additionalOptions| ==> !PdfKey(p.additionalOptions[i].0)
    ensures var qs := FormUrlEncoded.Serialize(GF.CanonicalPairs(
              [("url", GF.Str(p.url))] + p.additionalOptions
              + [("format", GF.Str(p.pdfFormat)), ("orientation", GF.Str(p.orientation)),
                 ("full", GF.Bool(p.pdfFullPage))]
              + (if p.pdfDelay > 0 then [("delay", GF.Num(p.pdfDelay))] else [])));
      GF.CaptureUrl(md5, creds.apiKey, creds.apiSecret, GF.Pdf, p.url, PdfOptions(p))
      == Success(GF.SignedUrl(creds.apiKey, GF.GenerateToken(md5, creds.apiSecret, qs), GF.Pdf, qs))
  {
    PdfOptionsOrder(p);
    PdfOptionsShape(p);
    FreshBaseOptions(p);
    var o := PdfOptions(p);
    assert o[0] == ("url", GF.Str(p.url));
    GF.RequestOptionsOfOrdered(p.url, o);
  }

  lemma FetchedRecordFacts(signed: string, operation: string, response: Bag<Json>)
    ensures var r := FetchedRecord(signed, operation, response);
      && UniqueKeys(r) && |r| >= 2 && r[0].0 == "url" && r[1].0 == "operation"
      && Get(r, "url") == (if GetLast(response, "url").Some? then GetLast(response, "url") else Some(JStr(signed)))
      && Get(r, "operation") == (if GetLast(response, "operation").Some? then GetLast(response, "operation")
                                 else Some(JStr(operation)))
      && forall k :: k != "url" && k != "operation" ==> Get(r, k) == GetLast(response, k)
  {
    var base := [("url", JStr(signed)), ("operation", JStr(operation))];
    SpreadFacts(base, response);
    assert Keys(base) == ["url", "operation"];
    var r := FetchedRecord(signed, operation, response);
    KeysAt(r, 0);
    KeysAt(r, 1);
    assert Get(base, "operation") == Get(base[1..], "operation") == Some(JStr(operation));
    forall k | k != "url" && k != "operation" ensures Get(r, k) == GetLast(response, k) {
      assert Get(base, k) == Get(base[1..], k) == Get(base[1..][1..], k) == None;
    }
  }

  /** A supported operation with a valid URL signs its own path segment over
      its own option bag: a signing error becomes the item's error, content
      and metadata then fetch exactly the signed URL, and a screenshot or PDF
      record carries the signed URL. */
  lemma SignedRequest(rt: Runtime, creds: Credentials, p: ItemParams, i: nat)
    requires rt.validateUrl(p.url) && OperationType(p.operation).Some?
    ensures var signed := GF.CaptureUrl(rt.md5, creds.apiKey, creds.apiSecret,
                                        OperationType(p.operation).value, p.url, OperationOptions(p));
      var r := ItemResult(rt, creds, p, i);
      && (signed.Failure? ==> r == Threw(ErrorWith(signed.error)))
      && (signed.Success? && (p.operation == "content" || p.operation == "metadata") ==>
            r == Fetch(rt, signed.value, p.operation, i))
      && (signed.Success? && (p.operation == "screenshot" || p.operation == "pdf") && r.Done? ==>
            Get(r.value.json, "url") == Some(JStr(signed.value)))
  {
  }

  /** With output `url` a screenshot or PDF item succeeds exactly when the
      credentials and the URL are non-empty, carries no binary data, its
      record is the screenshot or PDF record of the signed URL and the item's
      parameters, and it does not depend on the download, the binary store or
      the clock. */
  lemma UrlOutputNoDownload(rt: Runtime, rt2: Runtime, creds: Credentials, p: ItemParams, i: nat)
    requires rt.validateUrl(p.url) && rt2.validateUrl == rt.validateUrl && rt2.md5 == rt.md5
    requires (p.operation == "screenshot" && p.output == "url") || (p.operation == "pdf" && p.pdfOutput == "url")
    ensures ItemResult(rt, creds, p, i) == ItemResult(rt2, creds, p, i)
    ensures ItemResult(rt, creds, p, i).Done? <==> creds.apiKey != "" && creds.apiSecret != "" && p.url != ""
    ensures ItemResult(rt, creds, p, i).Done? ==> ItemResult(rt, creds, p, i).value.binary.None?
    ensures var s := GF.CaptureUrl(rt.md5, creds.apiKey, creds.apiSecret,
                                   OperationType(p.operation).value, p.url, OperationOptions(p));
      ItemResult(rt, creds, p, i).Done? ==>
        ItemResult(rt, creds, p, i).value.json ==
          (if p.operation == "screenshot" then ScreenshotRecord(s.value, p) else PdfRecord(s.value, p))
  {
  }

  /** A downloaded screenshot is stored under `screenshot-<ms>.<format>` with
      the format's image MIME type. */
  lemma ScreenshotDownload(rt: Runtime, creds: Credentials, p: ItemParams, i: nat)
    requires rt.validateUrl(p.url) && p.operation == "screenshot" && p.output != "url"
    ensures var signed := GF.CaptureUrl(rt.md5, creds.apiKey, creds.apiSecret, GF.Image, p.url, ScreenshotOptions(p));
      var r := ItemResult(rt, creds, p, i);
      r.Done? ==>
        && signed.Success? && rt.download(signed.value).Done?
        && r.value.json == ScreenshotRecord(signed.value, p)
        && r.value.binary == Some(rt.prepareBinary(rt.download(signed.value).value,
                                    ScreenshotFileName(rt.now(i), p.format), ImageMimeType(p.format)).value)
  {
  }

  /** A downloaded PDF is stored under `document-<ms>.pdf` as
      `application/pdf`. */
  lemma PdfDownload(rt: Runtime, creds: Credentials, p: ItemParams, i: nat)
    requires rt.validateUrl(p.url) && p.operation == "pdf" && p.pdfOutput != "url"
    ensures var signed := GF.CaptureUrl(rt.md5, creds.apiKey, creds.apiSecret, GF.Pdf, p.url, PdfOptions(p));
      var r := ItemResult(rt, creds, p, i);
      r.Done? ==>
        && signed.Success? && rt.download(signed.value).Done?
        && r.value.json == PdfRecord(signed.value, p)
        && r.value.binary == Some(rt.prepareBinary(rt.download(signed.value).value,
                                    PdfFileName(rt.now(i)), PdfMimeType).value)
  {
  }

  /** The chosen screenshot format never reaches the signed URL: items that
      differ only in `format` sign the same URL. */
  lemma ScreenshotFormatNotSigned(md5: GF.Md5, creds: Credentials, p: ItemParams, f: string)
    ensures GF.CaptureUrl(md5, creds.apiKey, creds.apiSecret, GF.Image, p.url, ScreenshotOptions(p))
         == GF.CaptureUrl(md5, creds.apiKey, creds.apiSecret, GF.Image, p.url, ScreenshotOptions(p.(format := f)))
  {
    var q := p.(format := f);
    var o0 := BaseOptions(p);
    assert BaseOptions(q) == o0;
    assert GF.SameExceptFormat(o0, o0);
    var a1, b1 := Put(o0, "vw", GF.Num(p.viewportWidth)), Put(o0, "vw", GF.Num(q.viewportWidth));
    GF.PutSameExceptFormat(o0, o0, "vw", GF.Num(p.viewportWidth), GF.Num(q.viewportWidth));
    var a2, b2 := Put(a1, "vh", GF.Num(p.viewportHeight)), Put(b1, "vh", GF.Num(q.viewportHeight));
    GF.PutSameExceptFormat(a1, b1, "vh", GF.Num(p.viewportHeight), GF.Num(q.viewportHeight));
    var a3, b3 := Put(a2, "full", GF.Bool(p.fullPage)), Put(b2, "full", GF.Bool(q.fullPage));
    GF.PutSameExceptFormat(a2, b2, "full", GF.Bool(p.fullPage), GF.Bool(q.fullPage));
    var a4, b4 := Put(a3, "format", GF.Str(p.format)), Put(b3, "format", GF.Str(q.format));
    GF.PutSameExceptFormat(a3, b3, "format", GF.Str(p.format), GF.Str(q.format));
    GF.PutSameExceptFormat(a4, b4, "delay", GF.Num(p.delay), GF.Num(q.delay));
    SignedAlike(p.url, ScreenshotOptions(p), ScreenshotOptions(q));
  }

  /** The chosen PDF page format never reaches the signed URL either. */
  lemma PdfFormatNotSigned(md5: GF.Md5, creds: Credentials, p: ItemParams, f: string)
    ensures GF.CaptureUrl(md5, creds.apiKey, creds.apiSecret, GF.Pdf, p.url, PdfOptions(p))
         == GF.CaptureUrl(md5, creds.apiKey, creds.apiSecret, GF.Pdf, p.url, PdfOptions(p.(pdfFormat := f)))
  {
    var q := p.(pdfFormat := f);
    var o0 := BaseOptions(p);
    assert BaseOptions(q) == o0;
    assert GF.SameExceptFormat(o0, o0);
    var a1, b1 := Put(o0, "format", GF.Str(p.pdfFormat)), Put(o0, "format", GF.Str(q.pdfFormat));
    GF.PutSameExceptFormat(o0, o0, "format", GF.Str(p.pdfFormat), GF.Str(q.pdfFormat));
    var a2, b2 := Put(a1, "orientation", GF.Str(p.orientation)), Put(b1, "orientation", GF.Str(q.orientation));
    GF.PutSameExceptFormat(a1, b1, "orientation", GF.Str(p.orientation), GF.Str(q.orientation));
    var a3, b3 := Put(a2, "full", GF.Bool(p.pdfFullPage)), Put(b2, "full", GF.Bool(q.pdfFullPage));
    GF.PutSameExceptFormat(a2, b2, "full", GF.Bool(p.pdfFullPage), GF.Bool(q.pdfFullPage));
    GF.PutSameExceptFormat(a3, b3, "delay", GF.Num(p.pdfDelay), GF.Num(q.pdfDelay));
    SignedAlike(p.url, PdfOptions(p), PdfOptions(q));
  }

  /** Bags equal up to `format` values sign alike. */
  lemma SignedAlike(url: string, a: Bag<GF.Value>, b: Bag<GF.Value>)
    requires GF.SameExceptFormat(a, b)
    ensures GF.CanonicalQuery(GF.RequestOptions(url, a)) == GF.CanonicalQuery(GF.RequestOptions(url, b))
  {
    var base := [("url", GF.Str(url))];
    assert GF.SameExceptFormat(base, base);
    GF.SpreadSameExceptFormat(base, base, a, b);
    GF.CanonicalIgnoresFormat(GF.RequestOptions(url, a), GF.RequestOptions(url, b));
  }
}
