/**
 The request queue (`Queue` and `Mail` in handler/queue.go). The e-book
 generator, the link extractor and the mail transport are oracles: `make(i,
 call)` is what `epubgen.Make` returns for the call made while serving
 request i.
 */
module Handler {
  import opened GoLib

  /** The request kinds the classifier produces; any other tag value is
      representable in `types.Request`'s `Type` field and is matched by no case. */
  datatype RequestType = TypeFile | TypeUrl | TypeUrlFile | OtherType(tag: int)

  datatype Request = Request(path: string, kind: RequestType)

  /** The arguments of one `epubgen.Make` call. */
  datatype MakeCall = MakeCall(urls: seq<string>, title: string, cover: string)

  datatype MakeResult = MakeResult(path: string, err: GoError)

  type Maker = (nat, MakeCall) -> MakeResult

  /** The `Make` call serving a request: the url alone for a single url, every
      extracted link at once for a url list file, none for anything else. */
  function CallFor(req: Request, outputFileName: string, coverUrl: string,
                   extractLinks: string -> seq<string>): (c: Option<MakeCall>)
    ensures c.Some? <==> req.kind == TypeUrl || req.kind == TypeUrlFile
    ensures c.Some? ==> c.value.title == outputFileName && c.value.cover == coverUrl
    ensures req.kind == TypeUrl ==> c.value.urls == [req.path]
    ensures req.kind == TypeUrlFile ==> c.value.urls == extractLinks(req.path)
  {
    match req.kind
    case TypeUrl => Some(MakeCall([req.path], outputFileName, coverUrl))
    case TypeUrlFile => Some(MakeCall(extractLinks(req.path), outputFileName, coverUrl))
    case _ => None
  }

  /** Request i yields an output: it is a file, or its `Make` call succeeded. */
  predicate Served(i: nat, req: Request, call: Option<MakeCall>, make: Maker)
  {
    req.kind == TypeFile || (call.Some? && make(i, call.value).err == Nil)
  }

  /** One pass of `Queue`'s switch for request i: the request it appends, if
      any. */
  function Serve(i: nat, req: Request, call: Option<MakeCall>, make: Maker): (out: Option<Request>)
    requires call.Some? <==> req.kind == TypeUrl || req.kind == TypeUrlFile
    ensures out.Some? <==> Served(i, req, call, make)
    ensures out.Some? && req.kind == TypeFile ==> out.value == req
    ensures out.Some? && req.kind != TypeFile ==> out.value == Request(make(i, call.value).path, TypeFile)
  {
    match req.kind
    case TypeFile => Some(req)
    case TypeUrl =>
      var result := make(i, call.value);
      if result.err == Nil then Some(Request(result.path, TypeFile)) else None
    case TypeUrlFile =>
      var result := make(i, call.value);
      if result.err == Nil then Some(Request(result.path, TypeFile)) else None
    case OtherType(_) => None
  }

  /** Output k of `Queue` is what serving input `origin[k]` produced. */
  ghost predicate Produced(reqs: seq<Request>, processed: seq<Request>, origin: seq<nat>,
                           calls: seq<Option<MakeCall>>, make: Maker)
    requires |processed| == |origin|
  {
    forall k :: 0 <= k < |origin| ==>
      && origin[k] < |reqs| && origin[k] < |calls|
      && (reqs[origin[k]].kind == TypeFile ==> processed[k] == reqs[origin[k]])
      && (reqs[origin[k]].kind != TypeFile ==>
            calls[origin[k]].Some? && processed[k] == Request(make(origin[k], calls[origin[k]].value).path, TypeFile))
  }

  /** What `Queue` has done after serving the first `n` requests. */
  ghost predicate QueuedUpTo(reqs: seq<Request>, n: nat, outputFileName: string, coverUrl: string, make: Maker,
                             extractLinks: string -> seq<string>,
                             processed: seq<Request>, origin: seq<nat>, calls: seq<Option<MakeCall>>)
  {
    && n <= |reqs| && |calls| == n && |processed| == |origin| <= n
    && (forall j :: 0 <= j < n ==> calls[j] == CallFor(reqs[j], outputFileName, coverUrl, extractLinks))
    && (forall k :: 0 <= k < |origin| ==> origin[k] < n)
    && (forall k, k' :: 0 <= k < k' < |origin| ==> origin[k] < origin[k'])
    && (forall j :: 0 <= j < n ==> (j in origin <==> Served(j, reqs[j], calls[j], make)))
    && Produced(reqs, processed, origin, calls, make)
  }

  /** Serving request `n` extends what the first `n` requests left. */
  lemma QueueStep(reqs: seq<Request>, n: nat, outputFileName: string, coverUrl: string, make: Maker,
                  extractLinks: string -> seq<string>,
                  processed: seq<Request>, origin: seq<nat>, calls: seq<Option<MakeCall>>,
                  call: Option<MakeCall>, out: Option<Request>)
    requires n < |reqs|
    requires QueuedUpTo(reqs, n, outputFileName, coverUrl, make, extractLinks, processed, origin, calls)
    requires call == CallFor(reqs[n], outputFileName, coverUrl, extractLinks)
    requires out == Serve(n, reqs[n], call, make)
    ensures var processed' := if out.Some? then processed + [out.value] else processed;
            var origin' := if out.Some? then origin + [n] else origin;
            QueuedUpTo(reqs, n + 1, outputFileName, coverUrl, make, extractLinks, processed', origin', calls + [call])
  {
    var processed' := if out.Some? then processed + [out.value] else processed;
    var origin' := if out.Some? then origin + [n] else origin;
    var calls' := calls + [call];
    assert n !in origin;
    forall j | 0 <= j < n + 1
      ensures calls'[j] == CallFor(reqs[j], outputFileName, coverUrl, extractLinks)
      ensures j in origin' <==> Served(j, reqs[j], calls'[j], make)
    {
      if j < n {
        assert calls'[j] == calls[j];
        assert j in origin' <==> j in origin;
      }
    }
    forall k | 0 <= k < |origin'|
      ensures origin'[k] < n + 1 && origin'[k] < |calls'|
      ensures reqs[origin'[k]].kind == TypeFile ==> processed'[k] == reqs[origin'[k]]
      ensures reqs[origin'[k]].kind != TypeFile ==>
                calls'[origin'[k]].Some? &&
                processed'[k] == Request(make(origin'[k], calls'[origin'[k]].value).path, TypeFile)
    {
      if k < |origin| {
        assert origin'[k] == origin[k] && processed'[k] == processed[k] && calls'[origin[k]] == calls[origin[k]];
      }
    }
  }

  /** `Queue`: requests are served in input order, each at most once and each
      on its own. A file request is passed through unchanged; a url or url
      list request calls `Make` once and, on success, yields a file request
      for the generated path; a failed `Make` or an unknown kind drops only
      that request. `origin[k]` is the input index output k came from. */
  method Queue(reqs: seq<Request>, outputFileName: string, coverUrl: string, make: Maker,
               extractLinks: string -> seq<string>)
    returns (processed: seq<Request>, origin: seq<nat>, calls: seq<Option<MakeCall>>)
    ensures |calls| == |reqs|
    ensures forall i :: 0 <= i < |reqs| ==> calls[i] == CallFor(reqs[i], outputFileName, coverUrl, extractLinks)
    ensures |processed| == |origin| <= |reqs|
    ensures forall k :: 0 <= k < |origin| ==> origin[k] < |reqs|
    ensures forall k, k' :: 0 <= k < k' < |origin| ==> origin[k] < origin[k']
    ensures forall i :: 0 <= i < |reqs| ==> (i in origin <==> Served(i, reqs[i], calls[i], make))
    ensures forall k :: 0 <= k < |origin| && reqs[origin[k]].kind == TypeFile ==> processed[k] == reqs[origin[k]]
    ensures forall k :: 0 <= k < |origin| && reqs[origin[k]].kind != TypeFile ==>
              calls[origin[k]].Some? && processed[k] == Request(make(origin[k], calls[origin[k]].value).path, TypeFile)
  {
    processed, origin, calls := [], [], [];
    for i := 0 to |reqs|
      invariant QueuedUpTo(reqs, i, outputFileName, coverUrl, make, extractLinks, processed, origin, calls)
    {
      var call := CallFor(reqs[i], outputFileName, coverUrl, extractLinks);
      var out := Serve(i, reqs[i], call, make);
      QueueStep(reqs, i, outputFileName, coverUrl, make, extractLinks, processed, origin, calls, call, out);
      calls := calls + [call];
      if out.Some? {
        processed, origin := processed + [out.value], origin + [i];
      }
    }
  }

  /** Timeouts below this many seconds are replaced by the configured default. */
  const MinMailTimeout := 60

  /** The arguments `Mail` hands to the mail transport. */
  datatype MailArgs = MailArgs(filePaths: seq<string>, timeout: int)

  /** `Mail`: one file path per request, in order; a timeout under the minimum
      is replaced by `defaultTimeout`, any other passes through unchanged. */
  method Mail(mailRequests: seq<Request>, timeout: int, defaultTimeout: int) returns (args: MailArgs)
    ensures |args.filePaths| == |mailRequests|
    ensures forall i :: 0 <= i < |mailRequests| ==> args.filePaths[i] == mailRequests[i].path
    ensures timeout < MinMailTimeout ==> args.timeout == defaultTimeout
    ensures timeout >= MinMailTimeout ==> args.timeout == timeout
  {
    var filePaths := [];
    for i := 0 to |mailRequests|
      invariant |filePaths| == i
      invariant forall j :: 0 <= j < i ==> filePaths[j] == mailRequests[j].path
    {
      filePaths := filePaths + [mailRequests[i].path];
    }
    var t := timeout;
    if t < MinMailTimeout {
      t := defaultTimeout;
    }
    args := MailArgs(filePaths, t);
  }
}
