/**
 * The bulk ACL upload endpoint: `POST` on the upload route.
 *
 * The request is a multipart form with `serviceId`, `aclId`, `file` and an
 * optional `comment`. The file's text is cut into lines; every kept line is
 * an address directive (`[!]address[/prefix]`). The lines are classified and
 * the valid ones are submitted to the edge platform's ACL-entry API in
 * consecutive batches of 50, and a report with one result per line is
 * returned.
 *
 * Two things the route depends on are parameters of the model:
 *  - `isIP`, the address-syntax check of Node's `net` module (true when it
 *    reports version 4 or 6);
 *  - `submit`, the outcome of one ACL-entry write (the `fetch` call and the
 *    decoding of its JSON body), given the position of the line in the upload
 *    and the request sent for it. Indexing by position lets the upstream
 *    answer the same request differently at different times (a duplicate
 *    entry, a transient failure).
 */
module UploadRoute {
  import opened Wrappers
  import opened Strings
  import Seqs

  const RequiredFields: seq<string> := ["serviceId", "aclId", "file"]
  const DefaultComment := "Bulk upload"
  const MaxEntries := 1000
  const BatchSize := 50
  const InvalidIpError := "Invalid IP format"
  const MissingKeyError := "Fastly API key is not configured"
  /** The message of the TypeError thrown when the `file` field is a plain string, which has no `text()`. */
  const NotAFileError := "file.text is not a function"
  const UnknownFailure := "Failed to process IP"

  function Min(a: int, b: int): int { if a <= b then a else b }

  // ---------------------------------------------------------------- the form

  /** A multipart form value: a text field, or an uploaded file with its text content. */
  datatype FormValue = Text(text: string) | File(content: string)

  /** The submitted form, one value per field name (what `formData.get` returns). */
  type Form = map<string, FormValue>

  /** `formData.get(name)` is truthy: the field is there and is not the empty string. A File is always truthy. */
  predicate HasField(form: Form, name: string)
  {
    name in form && form[name] != Text("")
  }

  /** What a form value turns into in a template literal or through `toString()`. */
  function TextOf(v: FormValue): string
  {
    match v
    case Text(s) => s
    case File(_) => "[object File]"
  }

  /** The index, from `k` on, of the first required field the form lacks; `|RequiredFields|` when none is missing. */
  function FirstMissingFrom(form: Form, k: nat): (j: nat)
    requires k <= |RequiredFields|
    ensures k <= j <= |RequiredFields|
    ensures forall i :: k <= i < j ==> HasField(form, RequiredFields[i])
    ensures j < |RequiredFields| ==> !HasField(form, RequiredFields[j])
    decreases |RequiredFields| - k
  {
    if k == |RequiredFields| || !HasField(form, RequiredFields[k]) then k
    else FirstMissingFrom(form, k + 1)
  }

  /** The first missing required field, in the order `serviceId`, `aclId`, `file`. */
  function FirstMissing(form: Form): (r: Option<string>)
    ensures r.None? <==> forall i :: 0 <= i < |RequiredFields| ==> HasField(form, RequiredFields[i])
  {
    var j := FirstMissingFrom(form, 0);
    if j < |RequiredFields| then Some(RequiredFields[j]) else None
  }

  /** `formData.get('comment')?.toString() || 'Bulk upload'`. */
  function CommentOf(form: Form): (c: string)
    ensures c != ""
    ensures "comment" in form && TextOf(form["comment"]) != "" ==> c == TextOf(form["comment"])
    ensures "comment" !in form || TextOf(form["comment"]) == "" ==> c == DefaultComment
  {
    if "comment" in form && TextOf(form["comment"]) != "" then TextOf(form["comment"]) else DefaultComment
  }

  // ---------------------------------------------------------------- parsing

  /** The filter of the parser: not blank and not a `#` comment. */
  predicate KeepLine(line: string)
  {
    line != "" && !StartsWith(line, "#")
  }

  /** `content.split('\n').map(line => line.trim()).filter(KeepLine)`. */
  function ParseLines(content: string): (lines: seq<string>)
    ensures |lines| <= |Split(content, '\n')|
    ensures forall k :: 0 <= k < |lines| ==> KeepLine(lines[k]) && Trim(lines[k]) == lines[k]
  {
    var raws := Split(content, '\n');
    KeptLinesTrimmed(raws);
    Seqs.Filter(Seqs.Map(raws, Trim), KeepLine)
  }

  /** Trimmed lines stay trimmed through the filter. */
  lemma KeptLinesTrimmed(raws: seq<string>)
    ensures var kept := Seqs.Filter(Seqs.Map(raws, Trim), KeepLine);
            forall k :: 0 <= k < |kept| ==> KeepLine(kept[k]) && Trim(kept[k]) == kept[k]
  {
    forall i | 0 <= i < |raws|
      ensures Trim(Trim(raws[i])) == Trim(raws[i])
    {
      TrimIdempotent(raws[i]);
    }
    Seqs.FilterMapAll(raws, Trim, KeepLine, (l: string) => Trim(l) == l);
  }

  // ---------------------------------------------------------------- one line

  /** Values shared by every entry of one upload. */
  datatype Context = Context(serviceId: string, aclId: string, apiKey: string, comment: string)

  /** The URL-encoded ACL-entry write: path identifiers, key, and the form parameters `ip`, `negated`, `comment`, `subnet`. */
  datatype Request = Request(serviceId: string, aclId: string, apiKey: string,
                             ip: string, negated: string, comment: string, subnet: Option<string>)

  /** The decoded JSON body of the upstream reply, kept opaque. */
  type Payload = string

  /** A value thrown by `fetch` or `response.json()`. */
  datatype Thrown = ErrorObject(message: string) | NonErrorValue

  /** What one ACL-entry write produced: a reply with a decodable body, or a thrown value. */
  datatype Reply = Responded(status: int, body: Payload) | Threw(thrown: Thrown)

  /** One element of the report's `results`. */
  datatype EntryResult =
    | Invalid(ip: string, error: string)                          // { ip, status: 'invalid', error }
    | Completed(ip: string, status: int, ok: bool, response: Payload)  // { ip, status, ok, response }
    | Errored(ip: string, error: string)                          // { ip, status: 'error', error }

  /** What the per-line callback does with a line. */
  datatype Step =
    | Skip                     // `return null`
    | Reject(result: EntryResult)  // reported without a request
    | Send(request: Request)

  /** The largest prefix length for the address: 128 when it contains `:` (IPv6), else 32. */
  function MaxPrefix(address: string): nat
  {
    if ':' in address then 128 else 32
  }

  function CidrError(max: nat): string
  {
    "Invalid CIDR prefix (must be 0-" + Decimal(max) + ")"
  }

  /** The line with one leading `!` removed. */
  function Unnegated(ip: string): string
  {
    if StartsWith(ip, "!") then ip[1..] else ip
  }

  /** The text before the first `/`: `cleanIp.split('/')[0]`. */
  function BaseOf(clean: string): string
  {
    Split(clean, '/')[0]
  }

  /**
   * The per-line callback of the batch loop, from the trimmed line `ip` up
   * to the point where it sends its request.
   */
  function Classify(ip: string, ctx: Context, isIP: string -> bool): (step: Step)
    ensures step.Skip? <==> ip == ""
    ensures step.Reject? ==> step.result.Invalid? && step.result.ip == ip
  {
    if ip == "" then Skip
    else
      var negated := if StartsWith(ip, "!") then "1" else "0";
      var clean := Unnegated(ip);
      var baseIp := BaseOf(clean);
      if !isIP(baseIp) then Reject(Invalid(ip, InvalidIpError))
      else if '/' !in clean then
        Send(Request(ctx.serviceId, ctx.aclId, ctx.apiKey, clean, negated, ctx.comment, None))
      else
        var parts := Split(clean, '/');
        var max := MaxPrefix(parts[0]);
        var prefix := ParseInt(parts[1]);
        if prefix.None? || prefix.value < 0 || prefix.value > max then Reject(Invalid(ip, CidrError(max)))
        else Send(Request(ctx.serviceId, ctx.aclId, ctx.apiKey, baseIp, negated, ctx.comment, Some(parts[1])))
  }

  /** The result recorded for a request that was sent; `ok` is the Fetch `ok` flag (status 200 to 299). */
  function Complete(ip: string, reply: Reply): (r: EntryResult)
    ensures r.ip == ip && !r.Invalid?
    ensures r.Completed? <==> reply.Responded?
    ensures r.Completed? ==> r.status == reply.status && r.response == reply.body && (r.ok <==> 200 <= r.status <= 299)
  {
    match reply
    case Responded(status, body) => Completed(ip, status, 200 <= status <= 299, body)
    case Threw(e) => Errored(ip, ThrownMessage(e))
  }

  /** The message recorded for a thrown value: its `message` when it is an `Error`, the fixed text otherwise. */
  function ThrownMessage(e: Thrown): string
  {
    if e.ErrorObject? then e.message else UnknownFailure
  }

  /** The value the per-line callback resolves to for the line at position `pos`: `None` is `null`. */
  function ProcessLine(pos: nat, line: string, ctx: Context, isIP: string -> bool,
                       submit: (nat, Request) -> Reply): Option<EntryResult>
  {
    var ip := Trim(line);
    match Classify(ip, ctx, isIP)
    case Skip => None
    case Reject(r) => Some(r)
    case Send(req) => Some(Complete(ip, submit(pos, req)))
  }

  /** The request the line at position `pos` makes, if any. */
  datatype Call = Call(position: nat, request: Request)

  function CallsOf(pos: nat, line: string, ctx: Context, isIP: string -> bool): seq<Call>
  {
    match Classify(Trim(line), ctx, isIP)
    case Send(req) => [Call(pos, req)]
    case _ => []
  }

  // ---------------------------------------------------------------- many lines

  /** The per-line callback of one upload, from a line's position and text to what it resolves to. */
  function HandlerOf(ctx: Context, isIP: string -> bool, submit: (nat, Request) -> Reply): (nat, string) -> Option<EntryResult>
  {
    (pos: nat, line: string) => ProcessLine(pos, line, ctx, isIP, submit)
  }

  /** The requests the per-line callback makes, from a line's position and text. */
  function SenderOf(ctx: Context, isIP: string -> bool): (nat, string) -> seq<Call>
  {
    (pos: nat, line: string) => CallsOf(pos, line, ctx, isIP)
  }

  /**
   * `lines.map(f)` where `f` also sees each line's position in the upload,
   * the first line being at `from`: with the per-line callback this is
   * what `Promise.all` resolves to for a batch.
   */
  function AtPositions<U>(lines: seq<string>, from: nat, f: (nat, string) -> U): (r: seq<U>)
    ensures |r| == |lines|
  {
    seq(|lines|, j requires 0 <= j < |lines| => f(from + j, lines[j]))
  }

  /** The results the lines contribute, null values dropped. */
  function Outcomes(lines: seq<string>, from: nat, handle: (nat, string) -> Option<EntryResult>): seq<EntryResult>
  {
    Seqs.Present(AtPositions(lines, from, handle))
  }

  /** The requests the lines make, in line order. */
  function Calls(lines: seq<string>, from: nat, sends: (nat, string) -> seq<Call>): seq<Call>
  {
    Seqs.Flatten(AtPositions(lines, from, sends))
  }

  /** The consecutive slices of at most 50 lines the loop processes. */
  function Batches(lines: seq<string>): seq<seq<string>>
    decreases |lines|
  {
    if lines == [] then []
    else if |lines| <= BatchSize then [lines]
    else [lines[..BatchSize]] + Batches(lines[BatchSize..])
  }

  /** The batches concatenate back to the lines, and each holds between 1 and 50 of them. */
  lemma {:induction false} BatchesPartition(lines: seq<string>)
    ensures Seqs.Flatten(Batches(lines)) == lines
    ensures forall k :: 0 <= k < |Batches(lines)| ==> 0 < |Batches(lines)[k]| <= BatchSize
    decreases |lines|
  {
    if |lines| > BatchSize {
      BatchesPartition(lines[BatchSize..]);
    }
  }

  // ---------------------------------------------------------------- the endpoint

  /** The reply of the endpoint. */
  datatype Response =
    | MissingField(field: string)                        // 400
    | TooManyIps                                         // 400
    | ServerError(details: string)                       // 500
    | Uploaded(processed: nat, results: seq<EntryResult>)  // 200 { success: true, processed, results }
  {
    function Status(): int
    {
      match this
      case MissingField(_) => 400
      case TooManyIps => 400
      case ServerError(_) => 500
      case Uploaded(_, _) => 200
    }

    /** The `error` member of the JSON body; success replies have none. */
    function Error(): Option<string>
    {
      match this
      case MissingField(f) => Some("Missing required field: " + f)
      case TooManyIps => Some("Too many IPs")
      case ServerError(_) => Some("Internal server error")
      case Uploaded(_, _) => None
    }
  }

  /** What the upload did besides replying: the batches in order, the requests made, the pauses taken. */
  datatype Trace = Trace(batches: seq<seq<string>>, calls: seq<Call>, pauses: nat)

  const NoTrace := Trace([], [], 0)

  /** The upload-wide values once the form has passed its checks. */
  function ContextOf(form: Form, apiKey: string): Context
    requires "serviceId" in form && "aclId" in form
  {
    Context(TextOf(form["serviceId"]), TextOf(form["aclId"]), apiKey, CommentOf(form))
  }

  /** `FASTLY_API_KEY` is set and not empty. */
  predicate KeyConfigured(apiKey: Option<string>)
  {
    apiKey.Some? && apiKey.value != ""
  }

  /** The endpoint as a function of its inputs: the reply and the trace. */
  function Handle(form: Form, apiKey: Option<string>, isIP: string -> bool,
                  submit: (nat, Request) -> Reply): (Response, Trace)
  {
    match FirstMissing(form)
    case Some(field) => (MissingField(field), NoTrace)
    case None =>
      assert HasField(form, RequiredFields[0]) && HasField(form, RequiredFields[1]) && HasField(form, RequiredFields[2]);
      match form["file"]
      case Text(_) => (ServerError(NotAFileError), NoTrace)
      case File(content) =>
        var lines := ParseLines(content);
        if |lines| > MaxEntries then (TooManyIps, NoTrace)
        else if !KeyConfigured(apiKey) then (ServerError(MissingKeyError), NoTrace)
        else Upload(lines, ContextOf(form, apiKey.value), isIP, submit)
  }

  /**
   * The batch loop over the parsed lines and the 200 reply: one result per
   * line, in line order, naming the line; `processed` is the number of
   * results; the lines go out in consecutive slices of 50, each followed by
   * a pause.
   */
  function Upload(lines: seq<string>, ctx: Context, isIP: string -> bool, submit: (nat, Request) -> Reply): (r: (Response, Trace))
    ensures r.0.Uploaded? && r.0.processed == |r.0.results|
    ensures TrimmedLines(lines) ==> |r.0.results| == |lines| && forall k :: 0 <= k < |lines| ==> r.0.results[k].ip == lines[k]
    ensures r.1.batches == Batches(lines) && r.1.pauses == |r.1.batches| == (|lines| + BatchSize - 1) / BatchSize
  {
    var results := Outcomes(lines, 0, HandlerOf(ctx, isIP, submit));
    var batches := Batches(lines);
    ReportShape(lines, ctx, isIP, submit);
    BatchCountCeiling(lines);
    (Uploaded(|results|, results), Trace(batches, Calls(lines, 0, SenderOf(ctx, isIP)), |batches|))
  }

  /**
   * `POST`: the required-field check, the parse, the two limits, then the
   * batch loop.
   */
  method Post(form: Form, apiKey: Option<string>, isIP: string -> bool, submit: (nat, Request) -> Reply)
    returns (response: Response, trace: Trace)
    ensures (response, trace) == Handle(form, apiKey, isIP, submit)
  {
    var missing := CheckRequired(form);
    if missing.Some? {
      return MissingField(missing.value), NoTrace;
    }
    assert HasField(form, RequiredFields[0]) && HasField(form, RequiredFields[1]) && HasField(form, RequiredFields[2]);
    var file := form["file"];
    if file.Text? {
      return ServerError(NotAFileError), NoTrace;
    }
    var lines := ParseLines(file.content);
    if |lines| > MaxEntries {
      return TooManyIps, NoTrace;
    }
    if !KeyConfigured(apiKey) {
      return ServerError(MissingKeyError), NoTrace;
    }
    var results;
    var ctx := ContextOf(form, apiKey.value);
    results, trace := SubmitBatches(lines, HandlerOf(ctx, isIP, submit), SenderOf(ctx, isIP));
    response := Uploaded(|results|, results);
    assert (response, trace) == Upload(lines, ctx, isIP, submit);
  }

  /** The loop over `requiredFields` that returns at the first one missing. */
  method CheckRequired(form: Form) returns (missing: Option<string>)
    ensures missing == FirstMissing(form)
  {
    for k := 0 to |RequiredFields|
      invariant forall i :: 0 <= i < k ==> HasField(form, RequiredFields[i])
    {
      if !HasField(form, RequiredFields[k]) {
        MissingIsFirst(form, k);
        return Some(RequiredFields[k]);
      }
    }
    return None;
  }

  /**
   * The batch loop: for i = 0, 50, 100, ... take `lines[i..i+50)`, run the
   * per-line callback on each line of the batch (`Promise.all` keeps their
   * order), append the non-null results to `results`, and pause.
   */
  method SubmitBatches(lines: seq<string>, handle: (nat, string) -> Option<EntryResult>,
                       sends: (nat, string) -> seq<Call>)
    returns (results: seq<EntryResult>, trace: Trace)
    ensures results == Outcomes(lines, 0, handle)
    ensures trace == Trace(Batches(lines), Calls(lines, 0, sends), |Batches(lines)|)
  {
    results := [];
    var calls: seq<Call> := [];
    var batches: seq<seq<string>> := [];
    var pauses: nat := 0;
    var i := 0;
    while i < |lines|
      invariant i == BatchSize * |batches| && pauses == |batches|
      invariant i < |lines| + BatchSize
      invariant |batches| <= |Batches(lines)| && batches == Batches(lines)[..|batches|]
      invariant results == Outcomes(lines[..Min(i, |lines|)], 0, handle)
      invariant calls == Calls(lines[..Min(i, |lines|)], 0, sends)
    {
      var batch := lines[i..Min(i + BatchSize, |lines|)];
      var batchResults := AtPositions(batch, i, handle);
      BatchTurn(lines, batches, handle, sends);
      results := results + Seqs.Present(batchResults);
      calls := calls + Calls(batch, i, sends);
      batches := batches + [batch];
      pauses := pauses + 1;
      i := i + BatchSize;
    }
    LoopExit(lines, batches);
    assert lines[..Min(i, |lines|)] == lines;
    trace := Trace(batches, calls, pauses);
  }

  // ---------------------------------------------------------------- lemmas used by Post

  lemma MissingIsFirst(form: Form, k: nat)
    requires k < |RequiredFields| && !HasField(form, RequiredFields[k])
    requires forall i :: 0 <= i < k ==> HasField(form, RequiredFields[i])
    ensures FirstMissingFrom(form, 0) == k
  {
  }

  /** One turn of the batch loop extends the results and the calls by those of the next slice. */
  lemma BatchStep(lines: seq<string>, i: nat, j: nat, handle: (nat, string) -> Option<EntryResult>,
                  sends: (nat, string) -> seq<Call>)
    requires i <= j <= |lines|
    ensures Outcomes(lines[..j], 0, handle)
         == Outcomes(lines[..i], 0, handle) + Outcomes(lines[i..j], i, handle)
    ensures Calls(lines[..j], 0, sends) == Calls(lines[..i], 0, sends) + Calls(lines[i..j], i, sends)
  {
    var xs, ys := lines[..i], lines[i..j];
    PrefixSplit(lines, i, j);
    assert |xs| == i;
    OutcomesAppend(xs, ys, 0, handle);
    assert Outcomes(xs + ys, 0, handle)
        == Outcomes(xs, 0, handle) + Outcomes(ys, i, handle);
    CallsAppend(xs, ys, 0, sends);
    assert Calls(xs + ys, 0, sends) == Calls(xs, 0, sends) + Calls(ys, i, sends);
  }

  /** One turn of the batch loop: the next slice is the next batch, and its results and requests follow those before it. */
  lemma BatchTurn(lines: seq<string>, batches: seq<seq<string>>, handle: (nat, string) -> Option<EntryResult>,
                  sends: (nat, string) -> seq<Call>)
    requires BatchSize * |batches| < |lines|
    requires |batches| <= |Batches(lines)| && batches == Batches(lines)[..|batches|]
    ensures var i := BatchSize * |batches|;
            var j := Min(i + BatchSize, |lines|);
            && |batches| + 1 <= |Batches(lines)|
            && batches + [lines[i..j]] == Batches(lines)[..|batches| + 1]
            && Outcomes(lines[..j], 0, handle) == Outcomes(lines[..i], 0, handle) + Outcomes(lines[i..j], i, handle)
            && Calls(lines[..j], 0, sends) == Calls(lines[..i], 0, sends) + Calls(lines[i..j], i, sends)
  {
    var i := BatchSize * |batches|;
    var j := Min(i + BatchSize, |lines|);
    assert |batches| + 1 <= |Batches(lines)| && batches + [lines[i..j]] == Batches(lines)[..|batches| + 1] by {
      NextBatch(lines, |batches|);
    }
    assert && Outcomes(lines[..j], 0, handle) == Outcomes(lines[..i], 0, handle) + Outcomes(lines[i..j], i, handle)
           && Calls(lines[..j], 0, sends) == Calls(lines[..i], 0, sends) + Calls(lines[i..j], i, sends) by {
      BatchStep(lines, i, j, handle, sends);
    }
  }

  /** When the loop stops, the slices taken are all the batches. */
  lemma LoopExit(lines: seq<string>, batches: seq<seq<string>>)
    requires |lines| <= BatchSize * |batches| < |lines| + BatchSize
    requires |batches| <= |Batches(lines)| && batches == Batches(lines)[..|batches|]
    ensures batches == Batches(lines)
  {
    BatchCount(lines);
  }

  lemma NextBatch(lines: seq<string>, b: nat)
    requires BatchSize * b < |lines|
    ensures b < |Batches(lines)|
    ensures Batches(lines)[..b + 1]
         == Batches(lines)[..b] + [lines[BatchSize * b..Min(BatchSize * (b + 1), |lines|)]]
  {
    BatchCount(lines);
    BatchAt(lines, b);
  }

  lemma PrefixSplit<T>(xs: seq<T>, i: nat, j: nat)
    requires i <= j <= |xs|
    ensures xs[..i] + xs[i..j] == xs[..j]
  {
  }

  /** The number of batches is the number of slices of 50 needed to cover the lines: 50 * |Batches| - 50 < n <= 50 * |Batches|. */
  lemma {:induction false} BatchCount(lines: seq<string>)
    ensures BatchSize * |Batches(lines)| - BatchSize < |lines| <= BatchSize * |Batches(lines)|
    decreases |lines|
  {
    if |lines| > BatchSize {
      BatchCount(lines[BatchSize..]);
    }
  }

  /** So there are exactly ceil(n / 50) batches. */
  lemma BatchCountCeiling(lines: seq<string>)
    ensures |Batches(lines)| == (|lines| + BatchSize - 1) / BatchSize
  {
    BatchCount(lines);
  }

  /** The `k`-th batch is the slice `lines[50k .. min(50k + 50, n))`. */
  lemma {:induction false} BatchAt(lines: seq<string>, k: nat)
    requires k < |Batches(lines)|
    ensures BatchSize * k <= |lines|
    ensures Batches(lines)[k] == lines[BatchSize * k..Min(BatchSize * (k + 1), |lines|)]
    decreases |lines|
  {
    if k == 0 {
      if |lines| <= BatchSize {
        assert Batches(lines)[0] == lines;
      } else {
        assert Batches(lines)[0] == lines[..BatchSize];
      }
    } else {
      var rest := lines[BatchSize..];
      assert Batches(lines)[k] == Batches(rest)[k - 1];
      BatchAt(rest, k - 1);
      var lo, hi := BatchSize * (k - 1), Min(BatchSize * k, |rest|);
      SliceOfSuffix(lines, BatchSize, lo, hi);
      assert BatchSize * k == lo + BatchSize && Min(BatchSize * (k + 1), |lines|) == hi + BatchSize;
    }
  }

  lemma SliceOfSuffix(xs: seq<string>, d: nat, lo: nat, hi: nat)
    requires d <= |xs| && lo <= hi <= |xs| - d
    ensures xs[d..][lo..hi] == xs[d + lo..d + hi]
  {
  }

  lemma OutcomesAppend(xs: seq<string>, ys: seq<string>, from: nat, handle: (nat, string) -> Option<EntryResult>)
    ensures Outcomes(xs + ys, from, handle) == Outcomes(xs, from, handle) + Outcomes(ys, from + |xs|, handle)
  {
    assert AtPositions(xs + ys, from, handle) == AtPositions(xs, from, handle) + AtPositions(ys, from + |xs|, handle);
    Seqs.PresentAppend(AtPositions(xs, from, handle), AtPositions(ys, from + |xs|, handle));
  }

  lemma CallsAppend(xs: seq<string>, ys: seq<string>, from: nat, sends: (nat, string) -> seq<Call>)
    ensures Calls(xs + ys, from, sends) == Calls(xs, from, sends) + Calls(ys, from + |xs|, sends)
  {
    assert AtPositions(xs + ys, from, sends) == AtPositions(xs, from, sends) + AtPositions(ys, from + |xs|, sends);
    Seqs.FlattenAppend(AtPositions(xs, from, sends), AtPositions(ys, from + |xs|, sends));
  }

  // ---------------------------------------------------------------- parsing facts

  /** Every parsed line is a raw line of the file, trimmed, and neither blank nor a comment. */
  lemma ParsedLineOrigin(content: string, line: string)
    requires line in ParseLines(content)
    ensures KeepLine(line)
    ensures exists k :: 0 <= k < |Split(content, '\n')| && Trim(Split(content, '\n')[k]) == line
  {
    var raws := Split(content, '\n');
    Seqs.FilterMembers(Seqs.Map(raws, Trim), KeepLine, line);
    Seqs.MapMembers(raws, Trim, line);
  }

  /** Every raw line of the file that, trimmed, is neither blank nor a comment is parsed. */
  lemma RawLineParsed(content: string, k: nat)
    requires k < |Split(content, '\n')| && KeepLine(Trim(Split(content, '\n')[k]))
    ensures Trim(Split(content, '\n')[k]) in ParseLines(content)
  {
    var raws := Split(content, '\n');
    Seqs.FilterMembers(Seqs.Map(raws, Trim), KeepLine, Trim(raws[k]));
    Seqs.MapMembers(raws, Trim, Trim(raws[k]));
  }

  /** A file of one raw line (no newline) yields that line trimmed, unless it is blank or a comment once trimmed. */
  lemma ParseOneLine(raw: string)
    requires '\n' !in raw
    ensures ParseLines(raw) == if KeepLine(Trim(raw)) then [Trim(raw)] else []
  {
    SplitWithoutSep(raw, '\n');
    assert Seqs.Map([raw], Trim) == [Trim(raw)];
    assert Seqs.Filter([Trim(raw)], KeepLine) == (if KeepLine(Trim(raw)) then [Trim(raw)] else []) + Seqs.Filter([], KeepLine);
  }

  /** Parsing respects line order: the lines of `a`, then those of `b`. */
  lemma ParseLinesAppend(a: string, b: string)
    ensures ParseLines(a + "\n" + b) == ParseLines(a) + ParseLines(b)
  {
    SplitAppend(a, b, '\n');
    assert a + "\n" + b == a + ['\n'] + b;
    Seqs.MapAppend(Split(a, '\n'), Split(b, '\n'), Trim);
    Seqs.FilterAppend(Seqs.Map(Split(a, '\n'), Trim), Seqs.Map(Split(b, '\n'), Trim), KeepLine);
  }

  /** A file written as newline-joined raw lines parses to exactly those raw lines, trimmed, that are kept, in order. */
  lemma ParseJoinedLines(raws: seq<string>)
    requires |raws| >= 1
    requires forall i :: 0 <= i < |raws| ==> '\n' !in raws[i]
    ensures ParseLines(Join(raws, "\n")) == Seqs.Filter(Seqs.Map(raws, Trim), KeepLine)
  {
    SplitJoin(raws, '\n');
  }

  // ---------------------------------------------------------------- the checks before submission

  /** A missing or empty required field is reported by name, the first in the order serviceId, aclId, file, with no request made. */
  lemma MissingFieldReported(form: Form, apiKey: Option<string>, isIP: string -> bool, submit: (nat, Request) -> Reply)
    ensures !HasField(form, "serviceId") ==> Handle(form, apiKey, isIP, submit) == (MissingField("serviceId"), NoTrace)
    ensures HasField(form, "serviceId") && !HasField(form, "aclId")
            ==> Handle(form, apiKey, isIP, submit) == (MissingField("aclId"), NoTrace)
    ensures HasField(form, "serviceId") && HasField(form, "aclId") && !HasField(form, "file")
            ==> Handle(form, apiKey, isIP, submit) == (MissingField("file"), NoTrace)
  {
    var j := FirstMissingFrom(form, 0);
    assert RequiredFields == ["serviceId", "aclId", "file"];
    if !HasField(form, "serviceId") {
      assert j == 0;
    } else if !HasField(form, "aclId") {
      assert j == 1;
    } else if !HasField(form, "file") {
      assert j == 2;
    }
  }

  /** More than 1,000 parsed lines are refused whatever the key configuration, with no request made. */
  lemma TooManyLinesRefused(form: Form, apiKey: Option<string>, isIP: string -> bool, submit: (nat, Request) -> Reply)
    requires HasField(form, "serviceId") && HasField(form, "aclId") && "file" in form && form["file"].File?
    requires |ParseLines(form["file"].content)| > MaxEntries
    ensures Handle(form, apiKey, isIP, submit) == (TooManyIps, NoTrace)
  {
    assert FirstMissingFrom(form, 0) == 3 by {
      assert RequiredFields == ["serviceId", "aclId", "file"];
    }
  }

  /** Up to 1,000 lines, counted before classification, proceed when the key is configured; otherwise the key error, with no request. */
  lemma WithinLimitProceeds(form: Form, apiKey: Option<string>, isIP: string -> bool, submit: (nat, Request) -> Reply)
    requires HasField(form, "serviceId") && HasField(form, "aclId") && "file" in form && form["file"].File?
    requires |ParseLines(form["file"].content)| <= MaxEntries
    ensures KeyConfigured(apiKey) ==> Handle(form, apiKey, isIP, submit).0.Uploaded?
    ensures !KeyConfigured(apiKey) ==> Handle(form, apiKey, isIP, submit) == (ServerError(MissingKeyError), NoTrace)
  {
    assert FirstMissingFrom(form, 0) == 3 by {
      assert RequiredFields == ["serviceId", "aclId", "file"];
    }
  }

  // ---------------------------------------------------------------- the report

  /** The shape of every parsed line: not blank and already trimmed. */
  predicate TrimmedLines(lines: seq<string>)
  {
    forall k :: 0 <= k < |lines| ==> lines[k] != "" && Trim(lines[k]) == lines[k]
  }

  /** The callback resolves to `null` exactly for a blank line. */
  lemma NullOnlyForBlank(pos: nat, line: string, ctx: Context, isIP: string -> bool, submit: (nat, Request) -> Reply)
    ensures ProcessLine(pos, line, ctx, isIP, submit).None? <==> Trim(line) == ""
  {
  }

  /** Every result names its line, trimmed, as its `ip`. */
  lemma ResultNamesItsLine(pos: nat, line: string, ctx: Context, isIP: string -> bool, submit: (nat, Request) -> Reply)
    requires ProcessLine(pos, line, ctx, isIP, submit).Some?
    ensures ProcessLine(pos, line, ctx, isIP, submit).value.ip == Trim(line)
  {
  }

  /** When the callback never resolves to `null`, the results are the callback's values, position by position. */
  lemma OutcomesWhenAllPresent(lines: seq<string>, from: nat, handle: (nat, string) -> Option<EntryResult>)
    requires forall k :: 0 <= k < |lines| ==> handle(from + k, lines[k]).Some?
    ensures |Outcomes(lines, from, handle)| == |lines|
    ensures forall k :: 0 <= k < |lines| ==> Outcomes(lines, from, handle)[k] == handle(from + k, lines[k]).value
  {
    var attempts := AtPositions(lines, from, handle);
    assert forall k :: 0 <= k < |lines| ==> attempts[k] == handle(from + k, lines[k]);
  }

  /** The `null` branch of the callback is unreachable for parsed lines: every line yields exactly one result, at its own position. */
  lemma OutcomesPerLine(lines: seq<string>, from: nat, ctx: Context, isIP: string -> bool,
                        submit: (nat, Request) -> Reply)
    requires TrimmedLines(lines)
    ensures var results := Outcomes(lines, from, HandlerOf(ctx, isIP, submit));
            && |results| == |lines|
            && forall k :: 0 <= k < |lines| ==> ProcessLine(from + k, lines[k], ctx, isIP, submit) == Some(results[k])
  {
    var handle := HandlerOf(ctx, isIP, submit);
    forall k | 0 <= k < |lines|
      ensures handle(from + k, lines[k]) == ProcessLine(from + k, lines[k], ctx, isIP, submit)
      ensures handle(from + k, lines[k]).Some?
    {
      NullOnlyForBlank(from + k, lines[k], ctx, isIP, submit);
    }
    OutcomesWhenAllPresent(lines, from, handle);
  }

  /** Every parsed line yields a result naming it, in line order. */
  lemma ReportShape(lines: seq<string>, ctx: Context, isIP: string -> bool, submit: (nat, Request) -> Reply)
    ensures var results := Outcomes(lines, 0, HandlerOf(ctx, isIP, submit));
            TrimmedLines(lines) ==> |results| == |lines| && forall k :: 0 <= k < |lines| ==> results[k].ip == lines[k]
  {
    if TrimmedLines(lines) {
      OutcomesPerLine(lines, 0, ctx, isIP, submit);
      var results := Outcomes(lines, 0, HandlerOf(ctx, isIP, submit));
      forall k | 0 <= k < |lines|
        ensures results[k].ip == lines[k]
      {
        ResultNamesItsLine(k, lines[k], ctx, isIP, submit);
      }
    }
  }

  /** An upload that passed every check is the batch loop over the parsed lines of the file. */
  lemma UploadedUnfolds(form: Form, apiKey: Option<string>, isIP: string -> bool, submit: (nat, Request) -> Reply)
    requires Handle(form, apiKey, isIP, submit).0.Uploaded?
    ensures HasField(form, "serviceId") && HasField(form, "aclId")
    ensures "file" in form && form["file"].File? && KeyConfigured(apiKey)
    ensures var lines := ParseLines(form["file"].content);
            && |lines| <= MaxEntries
            && Handle(form, apiKey, isIP, submit) == Upload(lines, ContextOf(form, apiKey.value), isIP, submit)
  {
    assert FirstMissing(form).None?;
    assert RequiredFields == ["serviceId", "aclId", "file"];
    assert HasField(form, RequiredFields[0]) && HasField(form, RequiredFields[1]) && HasField(form, RequiredFields[2]);
  }

  /** The 200 reply carries the per-line results of the batch loop, and `processed` counts them. */
  lemma UploadedResults(lines: seq<string>, ctx: Context, isIP: string -> bool, submit: (nat, Request) -> Reply)
    ensures var results := Outcomes(lines, 0, HandlerOf(ctx, isIP, submit));
            Upload(lines, ctx, isIP, submit).0 == Uploaded(|results|, results)
  {
  }

  /**
   * A successful upload reports one result per parsed line, in line order,
   * `processed` equal to the number of parsed lines, the batches as the
   * consecutive slices of 50, and one pause per batch.
   */
  lemma UploadReport(form: Form, apiKey: Option<string>, isIP: string -> bool, submit: (nat, Request) -> Reply)
    requires Handle(form, apiKey, isIP, submit).0.Uploaded?
    ensures "file" in form && form["file"].File? && KeyConfigured(apiKey)
    ensures var lines := ParseLines(form["file"].content);
            var (response, trace) := Handle(form, apiKey, isIP, submit);
            && |lines| <= MaxEntries
            && response.processed == |lines| == |response.results|
            && (forall k :: 0 <= k < |lines| ==> response.results[k].ip == lines[k])
            && trace.batches == Batches(lines)
            && trace.pauses == |trace.batches| == (|lines| + BatchSize - 1) / BatchSize
  {
    UploadedUnfolds(form, apiKey, isIP, submit);
    var lines := ParseLines(form["file"].content);
    var uploaded := Upload(lines, ContextOf(form, apiKey.value), isIP, submit);
    assert Handle(form, apiKey, isIP, submit) == uploaded;
    assert TrimmedLines(lines);
    assert uploaded.0.processed == |lines| == |uploaded.0.results|;
    assert forall k :: 0 <= k < |lines| ==> uploaded.0.results[k].ip == lines[k];
    assert uploaded.1.batches == Batches(lines);
  }

  /**
   * Entry `k` of the report is decided by line `k` alone: a line that is
   * sent is reported with the reply to its own request at its own
   * position, and a line that is refused is reported as classified.
   */
  lemma ReportEntry(lines: seq<string>, ctx: Context, isIP: string -> bool, submit: (nat, Request) -> Reply, k: nat)
    requires TrimmedLines(lines) && k < |lines|
    ensures var results := Upload(lines, ctx, isIP, submit).0.results;
            var step := Classify(lines[k], ctx, isIP);
            && |results| == |lines|
            && (step.Send? ==> results[k] == Complete(lines[k], submit(k, step.request)))
            && (step.Reject? ==> results[k] == step.result)
  {
    var results := Outcomes(lines, 0, HandlerOf(ctx, isIP, submit));
    UploadedResults(lines, ctx, isIP, submit);
    OutcomesPerLine(lines, 0, ctx, isIP, submit);
    assert ProcessLine(k, lines[k], ctx, isIP, submit) == Some(results[k]);
    assert Trim(lines[k]) == lines[k];
    if Classify(lines[k], ctx, isIP).Send? {
      ProcessLineSent(k, lines[k], ctx, isIP, submit);
    }
  }

  /** The oracle `submit` with the reply for position `k` replaced by a throw. */
  function ThrowAt(submit: (nat, Request) -> Reply, k: nat, e: Thrown): (nat, Request) -> Reply
  {
    (pos: nat, req: Request) => if pos == k then Threw(e) else submit(pos, req)
  }

  /** A throw at position `k` leaves the result of every other line as it was. */
  lemma ThrowElsewhere(pos: nat, line: string, ctx: Context, isIP: string -> bool, submit: (nat, Request) -> Reply,
                       k: nat, e: Thrown)
    requires pos != k
    ensures ProcessLine(pos, line, ctx, isIP, ThrowAt(submit, k, e)) == ProcessLine(pos, line, ctx, isIP, submit)
  {
  }

  /** A throw at position `k` makes the line at `k`, when it is sent, an `error` result with the thrown message. */
  lemma ThrowHere(line: string, ctx: Context, isIP: string -> bool, submit: (nat, Request) -> Reply, k: nat, e: Thrown)
    requires Classify(Trim(line), ctx, isIP).Send?
    ensures ProcessLine(k, line, ctx, isIP, ThrowAt(submit, k, e))
         == Some(Errored(Trim(line), if e.ErrorObject? then e.message else UnknownFailure))
  {
    var thrown := ThrowAt(submit, k, e);
    ProcessLineSent(k, line, ctx, isIP, thrown);
    assert thrown(k, Classify(Trim(line), ctx, isIP).request) == Threw(e);
  }

  /** A line that is sent resolves to the result completed from the reply at its position. */
  lemma ProcessLineSent(pos: nat, line: string, ctx: Context, isIP: string -> bool, submit: (nat, Request) -> Reply)
    requires Classify(Trim(line), ctx, isIP).Send?
    ensures ProcessLine(pos, line, ctx, isIP, submit) == Some(Complete(Trim(line), submit(pos, Classify(Trim(line), ctx, isIP).request)))
  {
  }

  /**
   * A request that throws (network failure, body that is not JSON) turns
   * only its own entry into an `error` result: every other entry is what it
   * would have been otherwise.
   */
  lemma ThrowIsIsolated(lines: seq<string>, ctx: Context, isIP: string -> bool, submit: (nat, Request) -> Reply,
                        k: nat, e: Thrown)
    requires TrimmedLines(lines) && k < |lines|
    requires Classify(lines[k], ctx, isIP).Send?
    ensures var before := Outcomes(lines, 0, HandlerOf(ctx, isIP, submit));
            var after := Outcomes(lines, 0, HandlerOf(ctx, isIP, ThrowAt(submit, k, e)));
            && |after| == |before| == |lines|
            && after[k] == Errored(lines[k], ThrownMessage(e))
            && forall j :: 0 <= j < |lines| && j != k ==> after[j] == before[j]
  {
    OutcomesPerLine(lines, 0, ctx, isIP, submit);
    OutcomesPerLine(lines, 0, ctx, isIP, ThrowAt(submit, k, e));
    forall j | 0 <= j < |lines| && j != k
      ensures ProcessLine(j, lines[j], ctx, isIP, ThrowAt(submit, k, e)) == ProcessLine(j, lines[j], ctx, isIP, submit)
    {
      ThrowElsewhere(j, lines[j], ctx, isIP, submit, k, e);
    }
    ThrowHere(lines[k], ctx, isIP, submit, k, e);
  }

  // ---------------------------------------------------------------- the requests

  /** The requests of a run of lines when each line makes at most one request, tagged with its position. */
  lemma {:induction false} CallsByPosition(lines: seq<string>, from: nat, sends: (nat, string) -> seq<Call>)
    requires forall p, l :: |sends(p, l)| <= 1
    requires forall p, l, c :: c in sends(p, l) ==> c.position == p
    ensures |Calls(lines, from, sends)| <= |lines|
    ensures forall c :: c in Calls(lines, from, sends) ==>
              from <= c.position < from + |lines| && c in sends(c.position, lines[c.position - from])
    ensures forall k, c :: 0 <= k < |lines| && c in sends(from + k, lines[k]) ==> c in Calls(lines, from, sends)
    decreases |lines|
  {
    if lines != [] {
      var head, tail := lines[..1], lines[1..];
      assert head + tail == lines;
      CallsAppend(head, tail, from, sends);
      CallsByPosition(tail, from + 1, sends);
      assert AtPositions(head, from, sends) == [sends(from, lines[0])];
      Seqs.FlattenOne(sends(from, lines[0]));
      forall k, c | 1 <= k < |lines| && c in sends(from + k, lines[k])
        ensures c in Calls(lines, from, sends)
      {
        assert tail[k - 1] == lines[k];
        assert from + k == (from + 1) + (k - 1);
      }
      forall c | c in Calls(tail, from + 1, sends)
        ensures c in sends(c.position, lines[c.position - from])
      {
        assert tail[c.position - (from + 1)] == lines[c.position - from];
      }
    }
  }

  /** A line makes at most one request. */
  lemma LineCallCount(pos: nat, line: string, ctx: Context, isIP: string -> bool)
    ensures |CallsOf(pos, line, ctx, isIP)| <= 1
  {
  }

  /** The request a line makes is tagged with its position and carries what the classification of the line decided. */
  lemma LineCalls(pos: nat, line: string, ctx: Context, isIP: string -> bool, c: Call)
    ensures c in CallsOf(pos, line, ctx, isIP) <==> Classify(Trim(line), ctx, isIP) == Send(c.request) && c.position == pos
  {
  }

  /** The requests a run of lines makes: one per line classified for sending, at that line's position, and no other. */
  lemma CallsAreSentLines(lines: seq<string>, from: nat, ctx: Context, isIP: string -> bool)
    ensures var calls := Calls(lines, from, SenderOf(ctx, isIP));
            && |calls| <= |lines|
            && (forall c :: c in calls ==>
                  && from <= c.position < from + |lines|
                  && Classify(Trim(lines[c.position - from]), ctx, isIP) == Send(c.request))
            && (forall k :: 0 <= k < |lines| && Classify(Trim(lines[k]), ctx, isIP).Send? ==>
                  Call(from + k, Classify(Trim(lines[k]), ctx, isIP).request) in calls)
  {
    var sends := SenderOf(ctx, isIP);
    forall p, l
      ensures |sends(p, l)| <= 1
    {
      LineCallCount(p, l, ctx, isIP);
    }
    forall p, l, c | c in sends(p, l)
      ensures c.position == p && Classify(Trim(l), ctx, isIP) == Send(c.request)
    {
      LineCalls(p, l, ctx, isIP, c);
    }
    CallsByPosition(lines, from, sends);
    forall k | 0 <= k < |lines| && Classify(Trim(lines[k]), ctx, isIP).Send?
      ensures Call(from + k, Classify(Trim(lines[k]), ctx, isIP).request) in sends(from + k, lines[k])
    {
      LineCalls(from + k, lines[k], ctx, isIP, Call(from + k, Classify(Trim(lines[k]), ctx, isIP).request));
    }
  }

  /** Nothing is submitted when the upload is refused before the batch loop. */
  lemma RefusalMakesNoCalls(form: Form, apiKey: Option<string>, isIP: string -> bool, submit: (nat, Request) -> Reply)
    requires !Handle(form, apiKey, isIP, submit).0.Uploaded?
    ensures Handle(form, apiKey, isIP, submit).1 == NoTrace
  {
  }

  // ---------------------------------------------------------------- classification

  /**
   * What every request sent carries: the negation flag of the line, an
   * address that passes `isIP` and has no `/`, and, exactly when the line
   * has a `/`, the raw text after it as `subnet`, whose `parseInt` value is
   * within 0 and the family's maximum.
   */
  lemma SentRequestWellFormed(ip: string, ctx: Context, isIP: string -> bool)
    requires Classify(ip, ctx, isIP).Send?
    ensures var req := Classify(ip, ctx, isIP).request;
            var clean := Unnegated(ip);
            && req.negated == (if StartsWith(ip, "!") then "1" else "0")
            && req.ip == BaseOf(clean) && isIP(req.ip) && '/' !in req.ip
            && (req.subnet.Some? <==> '/' in clean)
            && (req.subnet.Some? ==> && req.subnet.value == Split(clean, '/')[1]
                                      && ParseInt(req.subnet.value).Some?
                                      && 0 <= ParseInt(req.subnet.value).value <= MaxPrefix(req.ip))
            && req.serviceId == ctx.serviceId && req.aclId == ctx.aclId
            && req.apiKey == ctx.apiKey && req.comment == ctx.comment
  {
    var clean := Unnegated(ip);
    SplitPiecesFree(clean, '/');
    if '/' !in clean {
      SplitWithoutSep(clean, '/');
    }
  }

  /** A line that is not sent is reported `invalid` under its own text, for a bad address or a bad prefix. */
  lemma RejectedLineReported(ip: string, ctx: Context, isIP: string -> bool)
    requires Classify(ip, ctx, isIP).Reject?
    ensures var r := Classify(ip, ctx, isIP).result;
            var clean := Unnegated(ip);
            && r.Invalid? && r.ip == ip
            && (r.error == InvalidIpError <==> !isIP(BaseOf(clean)))
            && (r.error != InvalidIpError ==>
                  && '/' in clean && r.error == CidrError(MaxPrefix(BaseOf(clean)))
                  && var prefix := ParseInt(Split(clean, '/')[1]);
                     prefix.None? || prefix.value < 0 || prefix.value > MaxPrefix(BaseOf(clean)))
  {
    assert CidrError(32) != InvalidIpError by { assert CidrError(32)[8] != InvalidIpError[8]; }
    assert CidrError(128) != InvalidIpError by { assert CidrError(128)[8] != InvalidIpError[8]; }
  }

  /**
   * A CIDR line whose address passes `isIP` is decided by its prefix alone:
   * whatever the prefix text (leading zeros, a sign, `0x`, trailing
   * characters, leading white space), it is sent as the subnet, unchanged,
   * exactly when its `parseInt` value is a number from 0 to the family's
   * maximum, and the line is rejected with the range message otherwise.
   */
  lemma CidrPrefixDecides(ip: string, ctx: Context, isIP: string -> bool)
    requires ip != "" && isIP(BaseOf(Unnegated(ip))) && '/' in Unnegated(ip)
    ensures var clean := Unnegated(ip);
            var prefix := ParseInt(Split(clean, '/')[1]);
            var max := MaxPrefix(BaseOf(clean));
            && (prefix.Some? && 0 <= prefix.value <= max ==>
                  Classify(ip, ctx, isIP)
                  == Send(Request(ctx.serviceId, ctx.aclId, ctx.apiKey, BaseOf(clean),
                                  if StartsWith(ip, "!") then "1" else "0", ctx.comment, Some(Split(clean, '/')[1]))))
            && (!(prefix.Some? && 0 <= prefix.value <= max) ==> Classify(ip, ctx, isIP) == Reject(Invalid(ip, CidrError(max))))
  {
  }

  /** A plain address that passes `isIP` is sent as it is, not negated, with no subnet. */
  lemma PlainAddressSent(a: string, ctx: Context, isIP: string -> bool)
    requires a != "" && a[0] != '!' && '/' !in a && isIP(a)
    ensures Classify(a, ctx, isIP) == Send(Request(ctx.serviceId, ctx.aclId, ctx.apiKey, a, "0", ctx.comment, None))
  {
    SplitWithoutSep(a, '/');
  }

  /** A leading `!` only sets the negation flag (and the reported text): the rest of the line is classified as without it. */
  lemma NegationSetsFlag(a: string, ctx: Context, isIP: string -> bool)
    requires a != "" && a[0] != '!'
    ensures Classify("!" + a, ctx, isIP)
         == match Classify(a, ctx, isIP)
            case Send(req) => Send(req.(negated := "1"))
            case Reject(r) => Reject(Invalid("!" + a, r.error))
            case Skip => Skip
  {
    var line := "!" + a;
    assert StartsWith(line, "!") && Unnegated(line) == a;
    assert !StartsWith(a, "!") && Unnegated(a) == a;
  }

  /**
   * A CIDR line `address/n` whose address passes `isIP`: sent with the bare
   * address and `subnet` "n" when n is at most 32 (128 for an address with
   * `:`), otherwise reported with the allowed range in the message.
   */
  lemma CidrLineClassified(a: string, n: nat, ctx: Context, isIP: string -> bool)
    requires a != "" && a[0] != '!' && '/' !in a && isIP(a)
    ensures var ip := a + "/" + Decimal(n);
            && (n <= MaxPrefix(a) ==> Classify(ip, ctx, isIP)
                                        == Send(Request(ctx.serviceId, ctx.aclId, ctx.apiKey, a, "0", ctx.comment, Some(Decimal(n)))))
            && (n > MaxPrefix(a) ==> Classify(ip, ctx, isIP) == Reject(Invalid(ip, CidrError(MaxPrefix(a)))))
  {
    var ds := Decimal(n);
    var ip := a + "/" + ds;
    assert ip[0] == a[0];
    assert Unnegated(ip) == ip;
    assert ip == a + ['/'] + ds;
    SplitAppend(a, ds, '/');
    SplitWithoutSep(a, '/');
    SplitWithoutSep(ds, '/');
    assert Split(ip, '/') == [a, ds];
    ParseIntDecimal(n);
  }

  /** The range message for an address: 0-128 when it contains `:`, 0-32 otherwise. */
  lemma CidrMessages(address: string)
    ensures CidrError(MaxPrefix(address))
         == if ':' in address then "Invalid CIDR prefix (must be 0-128)" else "Invalid CIDR prefix (must be 0-32)"
  {
    assert Decimal(32) == "32";
    assert Decimal(128) == "128" by {
      assert Decimal(12) == "12";
    }
  }

  /** A negative prefix is always refused. */
  lemma NegativePrefixRefused(a: string, n: nat, ctx: Context, isIP: string -> bool)
    requires n > 0 && a != "" && a[0] != '!' && '/' !in a && isIP(a)
    ensures Classify(a + "/-" + Decimal(n), ctx, isIP) == Reject(Invalid(a + "/-" + Decimal(n), CidrError(MaxPrefix(a))))
  {
    var ds := Decimal(n);
    var ip := a + "/-" + ds;
    assert ip[0] == a[0];
    assert Unnegated(ip) == ip;
    SplitWithoutSep(a, '/');
    assert ip == a + ['/'] + ("-" + ds);
    SplitAppend(a, "-" + ds, '/');
    SplitWithoutSep("-" + ds, '/');
    assert Split(ip, '/') == [a, "-" + ds];
    ParseIntNegative(n);
  }

  /** A line whose address part fails `isIP` is reported as an invalid IP and makes no request. */
  lemma BadAddressRefused(ip: string, ctx: Context, isIP: string -> bool)
    requires ip != "" && !isIP(BaseOf(Unnegated(ip)))
    ensures Classify(ip, ctx, isIP) == Reject(Invalid(ip, InvalidIpError))
  {
  }
}
