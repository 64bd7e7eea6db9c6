/** The HTTP long-polling transport (lib/transport-http-longpoll-transport.js):
    a `GET <uri>&when=open` whose body is the handshake, then a chain of
    `GET <uri>&when=poll&id=<id>` requests, each answered with at most one
    message. A new poll is always in flight before a message is handed on. */
module LongpollTransport {
  import opened TransportEvents
  import opened Framing

  /** ASCII lower-casing of one character. */
  function LowerChar(c: char): char {
    if 'A' <= c <= 'Z' then (c as int + 32) as char else c
  }

  /** `toLowerCase()` of a header value. */
  function Lower(s: string): string
    decreases |s|
  {
    if s == [] then [] else [LowerChar(s[0])] + Lower(s[1..])
  }

  /** Lower-casing keeps the length and works character by character. */
  lemma {:induction false} LowerAt(s: string)
    ensures |Lower(s)| == |s|
    ensures forall i :: 0 <= i < |s| ==> Lower(s)[i] == LowerChar(s[i])
    decreases |s|
  {
    if s != [] {
      LowerAt(s[1..]);
    }
  }

  /** Two strings that differ at most in the case of their letters. */
  predicate SameIgnoringCase(a: string, b: string) {
    |a| == |b| && forall i :: 0 <= i < |a| ==> LowerChar(a[i]) == LowerChar(b[i])
  }

  lemma SameIgnoringCaseIsLower(a: string, b: string)
    ensures SameIgnoringCase(a, b) <==> Lower(a) == Lower(b)
  {
    LowerAt(a);
    LowerAt(b);
    if Lower(a) == Lower(b) {
      assert |a| == |b|;
      forall i | 0 <= i < |a|
        ensures LowerChar(a[i]) == LowerChar(b[i])
      {
        assert Lower(a)[i] == Lower(b)[i];
      }
    }
  }

  /** A string with no capital letter is its own lower case. */
  lemma {:induction false} LowerOfLowercase(s: string)
    requires forall i :: 0 <= i < |s| ==> !('A' <= s[i] <= 'Z')
    ensures Lower(s) == s
    decreases |s|
  {
    if s != [] {
      LowerOfLowercase(s[1..]);
    }
  }

  /** Lower-casing twice is lower-casing once. */
  lemma LowerIdempotent(s: string)
    ensures Lower(Lower(s)) == Lower(s)
  {
    LowerAt(s);
    LowerOfLowercase(Lower(s));
  }

  /** The `content-type` values accepted for a text message. */
  const TextTypes: seq<string> := [
    "text/plain; charset=utf-8",
    "text/plain; charset=utf8",
    "text/plain;charset=utf-8",
    "text/plain;charset=utf8"
  ]

  /** The `content-type` value accepted for a binary message. */
  const BinaryType: string := "application/octet-stream"

  /** How a non-empty poll body is handed on. */
  datatype BodyKind = TextBody | BinaryBody | Unrecognized

  /** The `switch` on the lower-cased `content-type` header, a missing
      header counting as the empty string. */
  function Classify(header: Option<string>): BodyKind {
    var value := Lower(if header.Some? then header.value else "");
    if value in TextTypes then TextBody
    else if value == BinaryType then BinaryBody
    else Unrecognized
  }

  lemma AcceptedTypesAreLowercase()
    ensures forall t :: t in TextTypes ==> Lower(t) == t
    ensures Lower(BinaryType) == BinaryType
  {
    forall t | t in TextTypes
      ensures Lower(t) == t
    {
      LowerOfLowercase(t);
    }
    LowerOfLowercase(BinaryType);
  }

  /** A header and its lower-cased form are classified alike. */
  lemma ClassifyIgnoresCase(header: string)
    ensures Classify(Some(header)) == Classify(Some(Lower(header)))
  {
    LowerIdempotent(header);
  }

  /** A missing or empty header is not accepted. */
  lemma ClassifyMissing()
    ensures Classify(None) == Unrecognized
    ensures Classify(Some("")) == Unrecognized
  {
    assert Lower("") == "";
    assert "" !in TextTypes;
  }

  /** A header lower-cases to an accepted text type exactly when it
      matches one of them up to case. */
  lemma TextMatch(header: string)
    ensures Lower(header) in TextTypes <==> exists t :: t in TextTypes && SameIgnoringCase(header, t)
  {
    AcceptedTypesAreLowercase();
    forall t | t in TextTypes
      ensures SameIgnoringCase(header, t) <==> Lower(header) == t
    {
      SameIgnoringCaseIsLower(header, t);
    }
  }

  lemma BinaryMatch(header: string)
    ensures Lower(header) == BinaryType <==> SameIgnoringCase(header, BinaryType)
  {
    AcceptedTypesAreLowercase();
    SameIgnoringCaseIsLower(header, BinaryType);
  }

  /** Classification against the accepted types, compared without regard to
      case. */
  lemma ClassifyMeaning(header: string)
    ensures Classify(Some(header)) == TextBody <==>
            exists t :: t in TextTypes && SameIgnoringCase(header, t)
    ensures Classify(Some(header)) == BinaryBody <==>
            SameIgnoringCase(header, BinaryType) && !exists t :: t in TextTypes && SameIgnoringCase(header, t)
    ensures Classify(Some(header)) == Unrecognized <==>
            !SameIgnoringCase(header, BinaryType) && !exists t :: t in TextTypes && SameIgnoringCase(header, t)
  {
    TextMatch(header);
    BinaryMatch(header);
  }

  /** What a non-empty poll body turns into once the next poll is issued. */
  function Dispatched(kind: BodyKind, body: string): seq<Action> {
    match kind
    case TextBody => [Emit(Text(body))]
    case BinaryBody => [Emit(Binary(body))]
    case Unrecognized => [Emit(Error(Protocol)), CloseTransport]
  }

  /** The `end` handler of a poll response: an empty body closes the
      transport; otherwise the next poll goes out first, then the body is
      handed on according to its `content-type`. */
  function PollEnd(pollUrl: string, contentType: Option<string>, chunks: seq<string>): seq<Action> {
    if chunks == [] then [Emit(Close)]
    else [Issue(PollRequest, pollUrl)] + Dispatched(Classify(contentType), Concat(chunks))
  }

  /** An action that hands something to the application that the server
      sent: `open`, a message, or a protocol error. */
  predicate Dispatch(a: Action) {
    a.Emit? && (a.notification.Open? || a.notification.Text? || a.notification.Binary? ||
                a.notification == Error(Protocol))
  }

  predicate IssuesPoll(a: Action) {
    a.Issue? && a.kind == PollRequest
  }

  /** No idle time between polls: whatever is handed on comes right after a
      poll request has been issued. */
  predicate NoGap(trace: seq<Action>) {
    forall i :: 0 <= i < |trace| && Dispatch(trace[i]) ==> 0 < i && IssuesPoll(trace[i - 1])
  }

  lemma NoGapAppend(t: seq<Action>, u: seq<Action>)
    requires NoGap(t) && NoGap(u)
    ensures NoGap(t + u)
  {
    forall i | 0 <= i < |t + u| && Dispatch((t + u)[i])
      ensures 0 < i && IssuesPoll((t + u)[i - 1])
    {
      if i >= |t| {
        assert (t + u)[i] == u[i - |t|];
        assert i - |t| > 0;
        assert (t + u)[i - 1] == u[i - |t| - 1];
      }
    }
  }

  /** The open response's `end`: the first poll goes out before `open`. */
  lemma OpenEndNoGap(pollUrl: string)
    ensures NoGap([Issue(PollRequest, pollUrl), Emit(Open)])
  {
  }

  /** A poll response's `end` keeps the no-idle-time guarantee. */
  lemma PollEndNoGap(pollUrl: string, contentType: Option<string>, chunks: seq<string>)
    ensures NoGap(PollEnd(pollUrl, contentType, chunks))
  {
  }

  /** A non-empty body issues exactly one poll, and issues it first; an
      empty body issues none and closes. */
  lemma PollEndOrder(pollUrl: string, contentType: Option<string>, chunks: seq<string>)
    ensures chunks != [] ==>
              PollEnd(pollUrl, contentType, chunks)[0] == Issue(PollRequest, pollUrl) &&
              forall i :: 0 < i < |PollEnd(pollUrl, contentType, chunks)| ==>
                !PollEnd(pollUrl, contentType, chunks)[i].Issue?
    ensures chunks == [] ==>
              PollEnd(pollUrl, contentType, chunks) == [Emit(Close)]
  {
  }

  /** The transport is closed by a poll response exactly when its body is
      non-empty and its `content-type` is not accepted, and it then reports
      the protocol error first. */
  lemma PollEndCloses(pollUrl: string, contentType: Option<string>, chunks: seq<string>)
    ensures CloseTransport in PollEnd(pollUrl, contentType, chunks) <==>
            chunks != [] && Classify(contentType) == Unrecognized
    ensures CloseTransport in PollEnd(pollUrl, contentType, chunks) ==>
            PollEnd(pollUrl, contentType, chunks)[1..] == [Emit(Error(Protocol)), CloseTransport]
  {
    var r := PollEnd(pollUrl, contentType, chunks);
    if chunks != [] {
      match Classify(contentType)
      case TextBody => assert r == [Issue(PollRequest, pollUrl), Emit(Text(Concat(chunks)))];
      case BinaryBody => assert r == [Issue(PollRequest, pollUrl), Emit(Binary(Concat(chunks)))];
      case Unrecognized => assert r[1..] == [Emit(Error(Protocol)), CloseTransport];
    }
  }

  /** The request currently held. `closeOnError` is set by `abort`, which
      swaps the request's `error` listener for one that fires `close`. */
  datatype Request = Request(kind: RequestKind, closeOnError: bool)

  /** One long-polling transport. */
  class Transport {
    const uri: string
    /** The query `id` of a handshake body parsed as a URI. */
    const parseId: string -> string
    /** `encodeURIComponent`. */
    const encode: string -> string
    var id: Option<string>
    var req: Option<Request>
    var contentType: Option<string>
    var chunks: seq<string>
    var trace: seq<Action>

    ghost predicate Valid()
      reads this
    {
      (req.Some? && req.value.kind == PollRequest ==> id.Some?) && NoGap(trace)
    }

    function PollUrl(id: string): string {
      uri + "&when=poll&id=" + encode(id)
    }

    constructor (uri: string, parseId: string -> string, encode: string -> string)
      ensures Valid()
      ensures this.uri == uri && this.parseId == parseId && this.encode == encode
      ensures id == None && req == None && contentType == None && chunks == [] && trace == []
    {
      this.uri := uri;
      this.parseId := parseId;
      this.encode := encode;
      id := None;
      req := None;
      contentType := None;
      chunks := [];
      trace := [];
    }

    /** `connect`: the `when=open` request. */
    method Connect()
      requires Valid()
      modifies this
      ensures Valid()
      ensures req == Some(Request(OpenRequest, false))
      ensures trace == old(trace) + [Issue(OpenRequest, uri + "&when=open")]
      ensures id == old(id) && contentType == old(contentType) && chunks == old(chunks)
    {
      req := Some(Request(OpenRequest, false));
      NoGapAppend(trace, [Issue(OpenRequest, uri + "&when=open")]);
      trace := trace + [Issue(OpenRequest, uri + "&when=open")];
    }

    /** `poll`: the next `when=poll` request replaces the current one. */
    method Poll()
      requires id.Some? && NoGap(trace)
      modifies this
      ensures id == old(id) && contentType == old(contentType) && chunks == old(chunks)
      ensures req == Some(Request(PollRequest, false))
      ensures trace == old(trace) + [Issue(PollRequest, PollUrl(id.value))]
      ensures NoGap(trace)
    {
      req := Some(Request(PollRequest, false));
      NoGapAppend(trace, [Issue(PollRequest, PollUrl(id.value))]);
      trace := trace + [Issue(PollRequest, PollUrl(id.value))];
    }

    /** The current request's `response`: a fresh body, and the response's
        `content-type` header. */
    method OnResponse(header: Option<string>)
      requires Valid() && req.Some?
      modifies this
      ensures Valid()
      ensures chunks == [] && contentType == header
      ensures id == old(id) && req == old(req) && trace == old(trace)
    {
      chunks := [];
      contentType := header;
    }

    /** A `data` event of the current response. */
    method OnData(chunk: string)
      requires Valid() && req.Some?
      modifies this
      ensures Valid()
      ensures chunks == old(chunks) + [chunk]
      ensures id == old(id) && req == old(req) && contentType == old(contentType) && trace == old(trace)
    {
      chunks := chunks + [chunk];
    }

    /** The end of the open response: the id comes from the handshake body,
        the first poll is issued, then `open` is fired. */
    method OnOpenEnd()
      requires Valid() && req.Some? && req.value.kind == OpenRequest
      modifies this
      ensures Valid()
      ensures id == Some(parseId(Concat(old(chunks))))
      ensures req == Some(Request(PollRequest, false))
      ensures trace == old(trace) + [Issue(PollRequest, PollUrl(id.value)), Emit(Open)]
      ensures contentType == old(contentType) && chunks == old(chunks)
    {
      id := Some(parseId(Concat(chunks)));
      Poll();
      OpenEndNoGap(PollUrl(id.value));
      NoGapAppend(old(trace), [Issue(PollRequest, PollUrl(id.value)), Emit(Open)]);
      trace := trace + [Emit(Open)];
    }

    /** The end of a poll response: a non-empty body re-polls first and is
        then dispatched by its content type; an empty body means `close`. */
    method OnPollEnd()
      requires Valid() && req.Some? && req.value.kind == PollRequest
      modifies this
      ensures Valid()
      ensures id == old(id)
      ensures req == (if old(chunks) == [] then old(req) else Some(Request(PollRequest, false)))
      ensures trace == old(trace) + PollEnd(PollUrl(old(id).value), old(contentType), old(chunks))
      ensures contentType == old(contentType) && chunks == old(chunks)
    {
      if |chunks| > 0 {
        var body := Concat(chunks);
        Poll();
        match Classify(contentType)
        case TextBody =>
          trace := trace + [Emit(Text(body))];
        case BinaryBody =>
          trace := trace + [Emit(Binary(body))];
        case Unrecognized =>
          trace := trace + [Emit(Error(Protocol))];
          trace := trace + [CloseTransport];
        PollEndNoGap(PollUrl(id.value), contentType, chunks);
        NoGapAppend(old(trace), PollEnd(PollUrl(id.value), contentType, chunks));
      } else {
        PollEndNoGap(PollUrl(id.value), contentType, chunks);
        NoGapAppend(trace, [Emit(Close)]);
        trace := trace + [Emit(Close)];
      }
    }

    /** `abort`: the current request's `error` now means `close`; the
        request is aborted. */
    method Abort()
      requires Valid() && req.Some?
      modifies this
      ensures Valid()
      ensures req == Some(old(req).value.(closeOnError := true))
      ensures trace == old(trace) + [AbortRequest]
      ensures id == old(id) && contentType == old(contentType) && chunks == old(chunks)
    {
      req := Some(req.value.(closeOnError := true));
      NoGapAppend(trace, [AbortRequest]);
      trace := trace + [AbortRequest];
    }

    /** An `error` of the current request: `close` after an abort, the
        error itself otherwise. */
    method OnRequestError(message: string)
      requires Valid() && req.Some?
      modifies this
      ensures Valid()
      ensures id == old(id) && req == old(req) && contentType == old(contentType) && chunks == old(chunks)
      ensures trace == old(trace) +
                [Emit(if req.value.closeOnError then Close else Error(Network(message)))]
    {
      var n := if req.value.closeOnError then Close else Error(Network(message));
      NoGapAppend(trace, [Emit(n)]);
      trace := trace + [Emit(n)];
    }

    /** An `error` of a response is the transport's. */
    method OnResponseError(message: string)
      requires Valid()
      modifies this
      ensures Valid()
      ensures trace == old(trace) + [Emit(Error(Network(message)))]
      ensures id == old(id) && req == old(req) && contentType == old(contentType) && chunks == old(chunks)
    {
      NoGapAppend(trace, [Emit(Error(Network(message)))]);
      trace := trace + [Emit(Error(Network(message)))];
    }
  }
}
