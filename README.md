# Vibe protocol server and HTTP transports, modelled in Dafny

This project models the core of the Vibe protocol's Node.js implementation. It covers three parts.

- **The socket protocol layer** (`lib/server.js`):
  - A server holds the heartbeat options. It builds one socket over each transport it is handed.
  - A socket first writes the handshake query.
  - It numbers outbound events `"0"`, `"1"`, and so on.
  - It stores the reply callbacks of events that ask for a reply and consumes each entry once.
  - It answers inbound events that ask for a reply through a resolve/reject pair guarded by one latch.
  - It watches the client's heartbeat with a timer. The timer is re-armed by `heartbeat`, fires error `heartbeat` and then closes, and is cleared by `close`.
- **The HTTP streaming transport** (`lib/transport-http-stream-transport.js`):
  - A carry-over buffer reassembles `data: ...` records separated by `"\n\n"`. The records arrive in arbitrarily cut chunks.
  - The first record of a response is the handshake, which carries the transport id. Every later record is a text message.
- **The HTTP long-polling transport** (`lib/transport-http-longpoll-transport.js`):
  - An open request comes first, then a chain of polls.
  - The next poll is always issued before a message is handed on.
  - A poll body is classified by its `content-type` header. An empty poll body means close.

Modules:
- `TransportEvents` (`transport_events.dfy`): the action log both transports write: requests issued, aborts, `close()` calls and emitted notifications.
- `Decimal` (`decimal.dfy`): the decimal form `"" + n` of an event id, with its parse-back round trip and injectivity.
- `Framing` (`framing.dfy`):
  - JavaScript's `\s` class and `replace(/^\s+/, "")`.
  - `split("\n\n")`, with the characterisation that determines it uniquely and its behaviour under concatenation.
  - `substring(6)`.
  - Joining chunks.
- `StreamTransport` (`stream_transport.dfy`):
  - The `data` handler as a pure step (`ChunkStep`) and over a whole body (`Feed`).
  - The transport class, whose handler loop is proved against `ChunkStep`.
  - The chunk-boundary theorem, and the finding below.
- `LongpollTransport` (`longpoll_transport.dfy`):
  - The content-type classification.
  - The poll-end step (`PollEnd`).
  - The transport class, which keeps the "no idle time between polls" invariant `NoGap`.
- `Server` (`server.dfy`): the `Socket`, `ReplyController` and `Server` classes and the pure specifications of the reply table and the latch.

Each class keeps a log `trace` of what it did, in order. Each method states its whole new state. Its `Valid()` invariant carries the ordering guarantees:
- `StreamTransport.Transport`: the buffer never holds a separator, and a handshake implies an id.
- `LongpollTransport.Transport`: every `open`, message or protocol error comes immediately after a poll is issued.
- `Server.Socket`: the handshake comes first and only once; the ids of sent events are exactly `"0"` to `eventId - 1`, in order; every stored callback belongs to one of them.

## Model

| member | source | states |
|---|---|---|
| Decimal.ParseNatToString | lib/server.js:97 | the decimal string `"" + n` of an event counter reads back as `n` |
| Decimal.NatToStringInjective | lib/server.js:97 | two counters give the same id string if and only if they are equal |
| Server.IdsDistinct | lib/server.js:85-99 | the ids `"0" … "n-1"` handed out by successive `send`s are pairwise distinct |
| Server.IdsMembers | lib/server.js:97 | an id has been issued exactly when it is the decimal form of a counter value below the current one |
| Server.Socket.Send | lib/server.js:90-110 | the event gets the current counter as its id and the counter goes up by one; `reply` is true iff resolved or rejected is given; exactly then the callbacks are stored under the id; exactly one message goes to the transport; returns the socket; the timer is untouched |
| Server.Socket.Close | lib/server.js:112-115 | `close` asks the transport to close and returns the socket, nothing else changes |
| Server.ReplyEffect | lib/server.js:117-126 | a reply whose id is in the table removes exactly that entry and keeps every other entry; it calls the rejected callback iff `exception`, the resolved one otherwise, and only if present, handing it the reply's `data`; a reply whose id is absent, or that is not an envelope, changes nothing |
| Server.ReplyOnce | lib/server.js:118-124 | each stored entry is consumed once: repeating a reply calls nothing and changes nothing |
| Server.Socket.HandleReply | lib/server.js:117-126 | the `reply` listener updates the table and calls callbacks as ReplyTable and ReplyNotices say |
| Server.ExactlyOneReply | lib/server.js:59-74 | whatever sequence of resolve/reject calls a handler makes, exactly one reply is sent; it carries the first call's value, with `exception` true iff that call was reject |
| Server.LatchedSendsNothing | lib/server.js:64-68 | once the latch is set, no call sends anything |
| Server.ReplyController.Settle | lib/server.js:61-69 | the first call sets the latch and sends one `reply` event `{id, data: value, exception: !success}`; later calls change nothing on the socket |
| Server.ReplyController.Resolve | lib/server.js:74 | resolve is `reply(true)`: the reply carries `exception` false |
| Server.ReplyController.Reject | lib/server.js:74 | reject is `reply(false)`: the reply carries `exception` true |
| Server.Socket.OnText | lib/server.js:46-76 | an event without `reply` is dispatched as `(type, data)` with no controller; one with `reply` gets a fresh unlatched controller for its id; the internal listeners run first, as in Emit |
| Server.Socket.Emit | lib/server.js:117-147 | the socket's own listeners run before the application's: `reply` goes through the table; `heartbeat` re-arms the timer and sends exactly one `heartbeat` event; `close` clears the timer; then the event is dispatched |
| Server.Socket.TimerFires | lib/server.js:129-134 | an armed timer that expires reports error `heartbeat` and then closes the transport, and is no longer armed |
| Server.Socket.OnTransportClose | lib/server.js:82-84 | a transport close becomes the socket's `close`, which clears the timer, so no expiry follows unless a later `heartbeat` re-arms it |
| Server.Socket.OnTransportError | lib/server.js:78-80 | a transport error is dispatched as the socket's `error` |
| Server.Socket.constructor | lib/server.js:128-153 | a new socket has its timer armed, no events sent, no callbacks, and the handshake carrying `heartbeat` and `_heartbeat` as its only transport message |
| Server.Server.constructor | lib/server.js:18-25 | the options default to heartbeat 20000 and `_heartbeat` 5000 |
| Server.Server.SetHeartbeat | lib/server.js:26-28 | stores the heartbeat option, nothing else changes |
| Server.Server.SetHeartbeatResponse | lib/server.js:29-31 | stores the `_heartbeat` option, nothing else changes |
| Server.Server.Handle | lib/server.js:34-38 | each handled transport yields one new socket, announced in order, whose first message is the handshake with the current options |
| Framing.StripSpec | lib/transport-http-stream-transport.js:70 | the result is a suffix of the chunk, everything removed is whitespace, and it does not itself start with whitespace |
| Framing.StripAppend | lib/transport-http-stream-transport.js:70 | stripping a concatenation strips only its first part, or all of it and then the second if the first is all whitespace |
| Framing.FindSeparatorSpec | lib/transport-http-stream-transport.js:96 | the search for `\n\n` finds none exactly when the string has no separator, and otherwise finds the leftmost one |
| Framing.SplitIsLeftmost | lib/transport-http-stream-transport.js:96 | the pieces of `split("\n\n")` joined with the separator give back the string; no piece holds a separator; no piece but the last ends with a newline |
| Framing.LeftmostSplitUnique | lib/transport-http-stream-transport.js:96 | any decomposition with those properties is the split |
| Framing.SplitAppend | lib/transport-http-stream-transport.js:85-96 | splitting `x + y` gives the complete pieces of `x`, then the split of its last piece continued with `y` |
| Framing.Unwrap | lib/transport-http-stream-transport.js:100 | `substring(6)`: the first six characters go, whatever they are; a shorter record gives the empty string (characters counted as code points) |
| Framing.UnwrapDataRecord | lib/transport-http-stream-transport.js:64-66 | a record `data: <payload>` gives back its payload |
| StreamTransport.WholeConserves | lib/transport-http-stream-transport.js:96-106 | the complete records, each with its `"\n\n"`, followed by the new buffer, give back buffer plus chunk; the new buffer holds no separator |
| StreamTransport.ChunkStep | lib/transport-http-stream-transport.js:70-106 | conservation over the stripped chunk; a chunk that is empty after stripping emits nothing and keeps the buffer; otherwise the new buffer is the last split piece of buffer plus stripped chunk and holds no separator |
| StreamTransport.AbsorbAllWhole | lib/transport-http-stream-transport.js:85-106 | absorbing chunks one at a time yields the records of their concatenation, however it is cut |
| StreamTransport.ChunkBoundaryIndependence | lib/transport-http-stream-transport.js:77-106 | if no chunk starts with whitespace once the body read so far holds content (padding may span several leading chunks), the records and final buffer depend only on the concatenated body |
| StreamTransport.StripMergesRecords | lib/transport-http-stream-transport.js:70-83 | as written, the body `data: A\n\ndata: B\n\n` cut after the first newline yields one record `data: A\ndata: B` instead of two |
| StreamTransport.PaddingOnceBoundaryIndependence | lib/transport-http-stream-transport.js:68-76 | stripping only the padding before the first content makes the records independent of the chunking, with no condition |
| StreamTransport.PaddingOnceKeepsRecords | lib/transport-http-stream-transport.js:83 | the corrected handler yields both records of the body that StripMergesRecords cuts badly |
| StreamTransport.Messages | lib/transport-http-stream-transport.js:96-101 | one payload per complete record, in order: record i with its first six characters dropped |
| StreamTransport.DeliverAt | lib/transport-http-stream-transport.js:43-57 | the first payload before the handshake fires `open`; every other payload fires `text` with exactly that payload |
| StreamTransport.OpenedOnce | lib/transport-http-stream-transport.js:42-53 | `open` is fired at most once per response, and exactly once if a record arrives before the handshake |
| StreamTransport.DeliverAppend | lib/transport-http-stream-transport.js:42-57 | delivering two runs of payloads in turn is delivering their concatenation; the handshake flag carries over |
| StreamTransport.FeedDelivers | lib/transport-http-stream-transport.js:67-106 | the notifications for a body fed chunk by chunk are those of the first chunk followed by those of the rest |
| StreamTransport.Transport.OnData | lib/transport-http-stream-transport.js:67-107 | one `data` event: the buffer becomes ChunkStep's buffer; the payloads of ChunkStep's records are delivered in split order; the id is parsed from the handshake payload if it is among them |
| StreamTransport.Transport.ForEachPiece | lib/transport-http-stream-transport.js:96-106 | the `forEach`: every piece but the last goes to `onmessage` in order, and the last becomes the buffer |
| StreamTransport.Transport.OnPiece | lib/transport-http-stream-transport.js:97-105 | one `forEach` callback: a non-last piece is unwrapped and handed to `onmessage`; the last is assigned to the buffer |
| StreamTransport.Transport.OnMessage | lib/transport-http-stream-transport.js:43-57 | the first payload sets the id from the handshake and fires `open`; later payloads fire `text` |
| StreamTransport.Transport.constructor | lib/transport-http-stream-transport.js:21-33 | a new transport has made no request, seen no handshake, holds an empty buffer and no id, and has logged nothing |
| StreamTransport.Transport.Connect | lib/transport-http-stream-transport.js:34-39 | issues `GET uri&when=open` |
| StreamTransport.Transport.OnResponse | lib/transport-http-stream-transport.js:39-61 | a response starts with no handshake and an empty buffer |
| StreamTransport.Transport.OnEnd | lib/transport-http-stream-transport.js:109-111 | the end of the response fires `close`, nothing else changes |
| StreamTransport.Transport.OnError | lib/transport-http-stream-transport.js:29-31 | a request or response error is the transport's `error` |
| StreamTransport.Transport.Abort | lib/transport-http-stream-transport.js:114-118 | abort only aborts the request and fires nothing |
| LongpollTransport.ClassifyIgnoresCase | lib/transport-http-longpoll-transport.js:90 | a header and its lower-cased form are classified alike |
| LongpollTransport.ClassifyMissing | lib/transport-http-longpoll-transport.js:90-113 | a missing or empty `content-type` is not accepted |
| LongpollTransport.ClassifyMeaning | lib/transport-http-longpoll-transport.js:90-113 | text iff the header equals one of the four `text/plain` charset variants up to case; binary iff it equals `application/octet-stream` up to case; unrecognized iff neither |
| LongpollTransport.LowerIdempotent | lib/transport-http-longpoll-transport.js:90 | lower-casing twice is lower-casing once |
| LongpollTransport.SameIgnoringCaseIsLower | lib/transport-http-longpoll-transport.js:90 | two strings are equal up to case iff their lower-cased forms are equal |
| LongpollTransport.PollEndOrder | lib/transport-http-longpoll-transport.js:80-119 | a non-empty poll body issues the next poll first and no other request; an empty body only fires `close` |
| LongpollTransport.PollEndCloses | lib/transport-http-longpoll-transport.js:107-113 | a poll response closes the transport iff its body is non-empty and its type is not accepted, and the protocol error comes just before the close |
| LongpollTransport.PollEndNoGap | lib/transport-http-longpoll-transport.js:83-86 | everything a poll end hands on comes right after the next poll is issued |
| LongpollTransport.OpenEndNoGap | lib/transport-http-longpoll-transport.js:61-66 | the first poll is issued right before `open` |
| LongpollTransport.NoGapAppend | lib/transport-http-longpoll-transport.js:83-86 | the no-idle-time property survives appending another step's actions |
| LongpollTransport.Transport.OnOpenEnd | lib/transport-http-longpoll-transport.js:53-66 | the id comes from the handshake body, then the first poll to `uri&when=poll&id=encode(id)` is issued, then `open` fires; the no-gap invariant is kept |
| LongpollTransport.Transport.OnPollEnd | lib/transport-http-longpoll-transport.js:79-116 | the trace grows by exactly PollEnd of the body and content type; a non-empty body leaves a fresh poll in flight, an empty one leaves the request alone |
| LongpollTransport.Transport.Poll | lib/transport-http-longpoll-transport.js:68-72 | the new poll replaces the current request and targets `uri&when=poll&id=encode(id)` |
| LongpollTransport.Transport.constructor | lib/transport-http-longpoll-transport.js:21-39 | a new transport has no id, no current request, no content type and no body chunks, and has logged nothing |
| LongpollTransport.Transport.Connect | lib/transport-http-longpoll-transport.js:40-46 | issues `GET uri&when=open` |
| LongpollTransport.Transport.OnResponse | lib/transport-http-longpoll-transport.js:74-75 | a response starts with no chunks and keeps its `content-type` header |
| LongpollTransport.Transport.OnData | lib/transport-http-longpoll-transport.js:76-78 | each chunk is appended to the body |
| LongpollTransport.Transport.Abort | lib/transport-http-longpoll-transport.js:126-139 | after abort, the current request's error listener fires `close` instead of `error`; the request is aborted |
| LongpollTransport.Transport.OnRequestError | lib/transport-http-longpoll-transport.js:29-31 | a request error fires `close` after an abort and `error` otherwise |
| LongpollTransport.Transport.OnResponseError | lib/transport-http-longpoll-transport.js:76 | a response error fires `error` |

## Left out

- JSON: events are taken already parsed and sent as structured values. `JSON.parse` of malformed text throws and is not modelled.
- Event data is abstracted to nothing, an opaque value, an error, or a reply envelope `{id, data, exception}`. JavaScript's coercion of a numeric reply id to a string key, and the truthiness of `exception`, are taken as done.
- Server.Socket.Emit: a `reply` event with no data throws in the source (`reply.id` of `undefined`) and is excluded by a precondition.
- URL handling is a parameter of each transport: `url.parse` of the handshake (`parseId`) and `encodeURIComponent` (`encode`). The `url.format` handshake query is logged as its two numbers. The URI and transport-name validation is not modelled.
- Server.Server.SetHeartbeat and Server.Server.SetHeartbeatResponse take natural numbers; the `+value` conversion of a non-numeric, negative or fractional argument (NaN and so on) is not modelled.
- The socket has no closed state, in the source or in the model. After a transport close, `send` still writes to the transport, and an inbound `heartbeat` still re-arms the timer and answers (`lib/server.js:139-143`). A client event named `close` clears the timer while nothing closes (`lib/server.js:57`, `:145-147`). Server.Socket.OnText, Server.Socket.Emit and Server.Socket.Send behave the same way in the model.
- Timer durations: the heartbeat timer is a flag, and its expiry is a method that can only happen while the flag is set.
- The EventEmitter machinery: listeners are modelled as the socket's own fixed listeners, followed by a log entry for the application. An `error` event with no listener throws in Node; that is not modelled. The application's callbacks and handlers do nothing in the model.
- The transports' `send`/`close` and `transport-http-base-transport` are not part of this model. A close request is logged as an action.
- HTTP plumbing: `http.get`, request and response objects, `maxSockets`, and socket hang-up behaviour.
- The long-poll `close` listener on each request (`onclose`) is not modelled. Whether Node fires it alongside the abort error path is runtime behaviour, so the model claims nothing about a single `close` after an abort.
- Byte decoding: chunks and bodies are strings. `chunk.toString()`, `Buffer.concat` and `toString("utf-8")` are the identity, and characters split across chunks are out of scope.
- LongpollTransport.Classify lower-cases ASCII letters only. This gives the same outcome as full Unicode `toLowerCase()`. Two non-ASCII characters lower-case to ASCII letters: the Kelvin sign becomes `k`, which no accepted value contains, and `İ` becomes `i` followed by U+0307, which stays in the string and so can never match an accepted value.
- Server.IdsDistinct: the event counter is an unbounded natural. In the source `eventId` is a JavaScript double, so `eventId++` (`lib/server.js:97`) sticks at 2^53. Ids are distinct only for the first 2^53 + 1 sends, and the double width is not modelled.
- StreamTransport.Transport.Abort and LongpollTransport.Transport.Abort require a request to have been made. Calling `abort` before `connect` throws a TypeError on the undefined `req` in the source, and that path is not modelled.
- Framing.Unwrap drops the first six characters, counted as code points. `substring(6)` counts UTF-16 code units, so the two differ on a record whose first six units include a surrogate pair. Records carry the ASCII prefix `data: `, where the two agree.
- Server.Socket.heartbeat and Server.Socket.heartbeatResponse are copies of the server's options taken when the socket is created. In the source the socket shares the server's `options` object (`lib/server.js:37`, `:133`), so Server.Server.SetHeartbeat also changes the re-arm interval of existing sockets. Timer durations are not modelled, so the difference is not visible in the model.
- Events from a request that has been replaced are taken to belong to the current request.

## Findings

| source | as written | input that shows it | evidently intended | confidence | as-written member | corrected member |
|---|---|---|---|---|---|---|
| lib/transport-http-stream-transport.js:70 | leading whitespace is stripped from every chunk, so a chunk that starts with the second newline of a separator loses it | chunks `"data: A\n"` then `"\ndata: B\n\n"` yield the single record `data: A\ndata: B` (payload `A\ndata: B`) instead of `A` and `B` | only the padding in front of the first content is stripped (the comment at lines 68-76); the chunk sequence in the comment at line 83 then works | not executed | StreamTransport.StripMergesRecords | StreamTransport.PaddingOnceBoundaryIndependence |

`StreamTransport.Transport` models the handler as written, so it shows the behaviour above. `StreamTransport.FeedPaddingOnce` is the corrected handler over a whole body. It is proved boundary-independent, and the comparison lemmas use it.
