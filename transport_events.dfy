/** The notification contract shared by the HTTP transports: what a transport
    asks of the network (requests, aborts, closes) and what it reports to the
    socket layer above it (open, text, binary, error, close). Each transport
    records both in one action log, so that orderings between a request being
    issued and a notification being fired can be stated. */
module TransportEvents {

  datatype Option<T> = None | Some(value: T)

  /** Why a transport reports `error`: an unrecognised response framing
      (`new Error("protocol")`) or a failure of the request or response. */
  datatype Failure = Protocol | Network(message: string)

  /** The notifications a transport emits. */
  datatype Notification =
    | Open
    | Text(text: string)
    | Binary(bytes: string)
    | Error(failure: Failure)
    | Close

  /** `when=open` requests carry the handshake; `when=poll` requests fetch messages. */
  datatype RequestKind = OpenRequest | PollRequest

  /** One step of a transport as seen from outside: an HTTP GET issued, the
      current request aborted, the base transport's `close()` called, or a
      notification emitted. */
  datatype Action =
    | Issue(kind: RequestKind, url: string)
    | AbortRequest
    | CloseTransport
    | Emit(notification: Notification)
}
