/** The socket protocol layer (lib/server.js): a server holding the heartbeat
    options, and a socket built over each transport it is handed. The socket
    numbers the events it sends, remembers the reply callbacks of those that
    ask for a reply, answers the events it receives through one-shot reply
    controllers, and watches the client's heartbeat with a timer. */
module Server {
  import opened Decimal

  /** The `data` of an event, as far as the protocol looks into it: nothing
      (`undefined`/`null`), an opaque JSON value, an `Error`, or a reply
      envelope `{id, data, exception}`. */
  datatype Value =
    | Absent
    | Plain(json: string)
    | Failure(message: string)
    | Envelope(id: string, data: Value, exception: bool)

  /** An event on the wire. */
  datatype Event = Event(id: string, eventType: string, data: Value, reply: bool)

  /** What the socket writes to its transport: the handshake query, then
      events. */
  datatype Frame =
    | Handshake(heartbeat: nat, heartbeatResponse: nat)
    | Message(event: Event)

  /** What the socket hands to the application: an event dispatched to its
      listeners (with a reply controller or not), or a stored reply callback
      called with the reply's data. */
  datatype Notice =
    | Dispatched(eventType: string, data: Value, controlled: bool)
    | Invoked(id: string, rejected: bool, data: Value)

  /** One step of a socket as seen from outside. */
  datatype Action =
    | Transmit(frame: Frame)
    | CloseTransport
    | Notify(notice: Notice)

  /** The callbacks stored for a sent event: which of `resolved` and
      `rejected` were given. */
  datatype Pending = Pending(hasResolved: bool, hasRejected: bool)

  /** The ids `"0"`, `"1"`, ..., of the first `n` events sent. */
  function Ids(n: nat): (ids: seq<string>)
    ensures |ids| == n
  {
    if n == 0 then [] else Ids(n - 1) + [NatToString(n - 1)]
  }

  lemma {:induction false} IdsAt(n: nat)
    ensures forall k :: 0 <= k < n ==> Ids(n)[k] == NatToString(k)
  {
    if n > 0 {
      IdsAt(n - 1);
    }
  }

  /** Event ids never repeat on one socket. */
  lemma IdsDistinct(n: nat)
    ensures forall i, j :: 0 <= i < j < n ==> Ids(n)[i] != Ids(n)[j]
  {
    IdsAt(n);
    forall i, j | 0 <= i < j < n
      ensures Ids(n)[i] != Ids(n)[j]
    {
      NatToStringInjective(i, j);
    }
  }

  /** An id belongs to the first `n` events exactly when it is the decimal
      form of a number below `n`. */
  lemma IdsMembers(n: nat, id: string)
    ensures id in Ids(n) <==> exists k: nat :: k < n && id == NatToString(k)
  {
    var ids := Ids(n);
    IdsAt(n);
    if id in ids {
      var k: nat :| k < |ids| && ids[k] == id;
      assert ids[k] == NatToString(k);
      assert exists j: nat :: j < n && id == NatToString(j);
    } else {
      forall k: nat | k < n
        ensures id != NatToString(k)
      {
        assert ids[k] == NatToString(k);
      }
    }
  }

  /** The ids of the events a socket has sent, in order. */
  function MessageIds(trace: seq<Action>): seq<string>
    decreases |trace|
  {
    if trace == [] then []
    else
      var last := trace[|trace| - 1];
      MessageIds(trace[..|trace| - 1]) +
      (if last.Transmit? && last.frame.Message? then [last.frame.event.id] else [])
  }

  lemma MessageIdsAppend(trace: seq<Action>, a: Action)
    ensures MessageIds(trace + [a]) ==
            MessageIds(trace) + (if a.Transmit? && a.frame.Message? then [a.frame.event.id] else [])
  {
    assert (trace + [a])[..|trace|] == trace;
  }

  /** The handshake comes first and only once. */
  predicate HandshakeFirst(trace: seq<Action>, heartbeat: nat, heartbeatResponse: nat) {
    |trace| >= 1 && trace[0] == Transmit(Handshake(heartbeat, heartbeatResponse)) &&
    forall i :: 1 <= i < |trace| ==> !(trace[i].Transmit? && trace[i].frame.Handshake?)
  }

  lemma HandshakeFirstAppend(trace: seq<Action>, heartbeat: nat, heartbeatResponse: nat, a: Action)
    requires HandshakeFirst(trace, heartbeat, heartbeatResponse)
    requires !(a.Transmit? && a.frame.Handshake?)
    ensures HandshakeFirst(trace + [a], heartbeat, heartbeatResponse)
  {
    forall i | 1 <= i < |trace + [a]|
      ensures !((trace + [a])[i].Transmit? && (trace + [a])[i].frame.Handshake?)
    {
      if i < |trace| {
        assert (trace + [a])[i] == trace[i];
      }
    }
  }

  /** The internal `reply` listener's effect on the callback table: an
      envelope whose id is in the table consumes that entry; anything else
      leaves the table alone. */
  function ReplyTable(callbacks: map<string, Pending>, reply: Value): map<string, Pending>
    requires !reply.Absent?
  {
    if reply.Envelope? && reply.id in callbacks then callbacks - {reply.id} else callbacks
  }

  /** The callback the internal `reply` listener calls, if any: `rejected`
      for an exception, `resolved` otherwise, each only if it was given. */
  function ReplyNotices(callbacks: map<string, Pending>, reply: Value): seq<Action>
    requires !reply.Absent?
  {
    if reply.Envelope? && reply.id in callbacks then
      var cbs := callbacks[reply.id];
      if (if reply.exception then cbs.hasRejected else cbs.hasResolved)
      then [Notify(Invoked(reply.id, reply.exception, reply.data))]
      else []
    else []
  }

  /** A reply consumes only its own entry, calls at most the one callback
      chosen by its `exception` flag (`rejected` exactly when it is set),
      hands that callback the reply's data, and leaves the rest of the table
      as it was. */
  lemma ReplyEffect(callbacks: map<string, Pending>, reply: Value)
    requires !reply.Absent?
    ensures ReplyTable(callbacks, reply).Keys <= callbacks.Keys
    ensures forall k :: k in ReplyTable(callbacks, reply) ==> ReplyTable(callbacks, reply)[k] == callbacks[k]
    ensures |ReplyNotices(callbacks, reply)| <= 1
    ensures reply.Envelope? && reply.id in callbacks ==> reply.id !in ReplyTable(callbacks, reply)
    ensures reply.Envelope? && reply.id in callbacks ==>
              (ReplyNotices(callbacks, reply) != [] <==>
               if reply.exception then callbacks[reply.id].hasRejected else callbacks[reply.id].hasResolved)
    ensures ReplyNotices(callbacks, reply) != [] ==>
              reply.Envelope? &&
              ReplyNotices(callbacks, reply) == [Notify(Invoked(reply.id, reply.exception, reply.data))]
    ensures forall k :: k in callbacks && !(reply.Envelope? && k == reply.id) ==> k in ReplyTable(callbacks, reply)
    ensures !(reply.Envelope? && reply.id in callbacks) ==>
              ReplyTable(callbacks, reply) == callbacks && ReplyNotices(callbacks, reply) == []
  {
  }

  /** Each stored entry is consumed once: the same reply a second time calls
      nothing and changes nothing. */
  lemma ReplyOnce(callbacks: map<string, Pending>, reply: Value)
    requires !reply.Absent?
    ensures ReplyTable(ReplyTable(callbacks, reply), reply) == ReplyTable(callbacks, reply)
    ensures ReplyNotices(ReplyTable(callbacks, reply), reply) == []
  {
  }

  /** The reply envelope a controller sends back for the event `id`. */
  function ReplyEnvelope(id: string, success: bool, value: Value): Value {
    Envelope(id, value, !success)
  }

  /** The reply envelopes sent for a sequence of `resolve`/`reject` calls,
      each given as `(success, value)`, on a controller whose latch is in
      the given state. */
  function Replies(id: string, latched: bool, calls: seq<(bool, Value)>): seq<Value>
    decreases |calls|
  {
    if calls == [] then []
    else (if latched then [] else [ReplyEnvelope(id, calls[0].0, calls[0].1)]) + Replies(id, true, calls[1..])
  }

  lemma {:induction false} LatchedSendsNothing(id: string, calls: seq<(bool, Value)>)
    ensures Replies(id, true, calls) == []
    decreases |calls|
  {
    if calls != [] {
      LatchedSendsNothing(id, calls[1..]);
    }
  }

  /** However a handler calls its controller, exactly one reply goes back,
      carrying the first call's value, flagged as an exception exactly when
      that call was `reject`. */
  lemma ExactlyOneReply(id: string, calls: seq<(bool, Value)>)
    requires calls != []
    ensures Replies(id, false, calls) == [Envelope(id, calls[0].1, !calls[0].0)]
  {
    LatchedSendsNothing(id, calls[1..]);
  }

  /** The internal listeners' effect on the heartbeat timer: a `heartbeat`
      clears and re-arms it, a `close` clears it. */
  function TimerAfter(eventType: string, armed: bool): bool {
    if eventType == "heartbeat" then true
    else if eventType == "close" then false
    else armed
  }

  /** A socket over one transport. */
  class Socket {
    const heartbeat: nat
    const heartbeatResponse: nat
    var eventId: nat
    var callbacks: map<string, Pending>
    var timerArmed: bool
    var trace: seq<Action>

    ghost predicate Valid()
      reads this
    {
      HandshakeFirst(trace, heartbeat, heartbeatResponse) &&
      MessageIds(trace) == Ids(eventId) &&
      forall k :: k in callbacks ==> k in Ids(eventId)
    }

    /** `createSocket`: the heartbeat timer is set, then the handshake
        query is the transport's first message. */
    constructor (heartbeat: nat, heartbeatResponse: nat)
      ensures Valid()
      ensures this.heartbeat == heartbeat && this.heartbeatResponse == heartbeatResponse
      ensures eventId == 0 && callbacks == map[] && timerArmed
      ensures trace == [Transmit(Handshake(heartbeat, heartbeatResponse))]
    {
      this.heartbeat := heartbeat;
      this.heartbeatResponse := heartbeatResponse;
      eventId := 0;
      callbacks := map[];
      timerArmed := true;
      trace := [Transmit(Handshake(heartbeat, heartbeatResponse))];
      assert [Transmit(Handshake(heartbeat, heartbeatResponse))][..0] == [];
    }

    /** Appends an action that is neither the handshake nor an event. */
    method Record(a: Action)
      requires Valid()
      requires !(a.Transmit? && a.frame.Handshake?) && !(a.Transmit? && a.frame.Message?)
      modifies this
      ensures Valid()
      ensures trace == old(trace) + [a]
      ensures eventId == old(eventId) && callbacks == old(callbacks) && timerArmed == old(timerArmed)
    {
      HandshakeFirstAppend(trace, heartbeat, heartbeatResponse, a);
      MessageIdsAppend(trace, a);
      trace := trace + [a];
    }

    /** `send`: the event gets the current counter as its id, the counter
        moves on, the callbacks are stored if either was given, and the
        event is written to the transport. Returns the socket. */
    method Send(eventType: string, data: Value, hasResolved: bool, hasRejected: bool) returns (s: Socket)
      requires Valid()
      modifies this
      ensures Valid()
      ensures s == this
      ensures eventId == old(eventId) + 1
      ensures trace == old(trace) +
                [Transmit(Message(Event(NatToString(old(eventId)), eventType, data, hasResolved || hasRejected)))]
      ensures callbacks == if hasResolved || hasRejected
                           then old(callbacks)[NatToString(old(eventId)) := Pending(hasResolved, hasRejected)]
                           else old(callbacks)
      ensures timerArmed == old(timerArmed)
    {
      var id := NatToString(eventId);
      var event := Event(id, eventType, data, hasResolved || hasRejected);
      if event.reply {
        callbacks := callbacks[id := Pending(hasResolved, hasRejected)];
      }
      var a := Transmit(Message(event));
      HandshakeFirstAppend(trace, heartbeat, heartbeatResponse, a);
      MessageIdsAppend(trace, a);
      trace := trace + [a];
      eventId := eventId + 1;
      IdsMembers(eventId, id);
      forall k | k in callbacks
        ensures k in Ids(eventId)
      {
        IdsMembers(eventId - 1, k);
        IdsMembers(eventId, k);
        if k != id {
          var j: nat :| j < eventId - 1 && k == NatToString(j);
          assert j < eventId;
        }
      }
      s := this;
    }

    /** `close`: delegated to the transport. Returns the socket. */
    method Close() returns (s: Socket)
      requires Valid()
      modifies this
      ensures Valid()
      ensures s == this
      ensures trace == old(trace) + [CloseTransport]
      ensures eventId == old(eventId) && callbacks == old(callbacks) && timerArmed == old(timerArmed)
    {
      Record(CloseTransport);
      s := this;
    }

    /** The internal `reply` listener. */
    method HandleReply(reply: Value)
      requires Valid() && !reply.Absent?
      modifies this
      ensures Valid()
      ensures callbacks == ReplyTable(old(callbacks), reply)
      ensures trace == old(trace) + ReplyNotices(old(callbacks), reply)
      ensures eventId == old(eventId) && timerArmed == old(timerArmed)
    {
      if reply.Envelope? && reply.id in callbacks {
        var cbs := callbacks[reply.id];
        if (if reply.exception then cbs.hasRejected else cbs.hasResolved) {
          Record(Notify(Invoked(reply.id, reply.exception, reply.data)));
        }
        callbacks := callbacks - {reply.id};
      }
    }

    /** `self.emit(type, data[, controller])`: the socket's own listeners,
        registered first, run first (`reply`, `heartbeat`, `close`), then
        the event reaches the application. */
    method Emit(eventType: string, data: Value, controlled: bool)
      requires Valid()
      requires eventType == "reply" ==> !data.Absent?
      modifies this
      ensures Valid()
      ensures timerArmed == TimerAfter(eventType, old(timerArmed))
      ensures eventType == "reply" ==>
                callbacks == ReplyTable(old(callbacks), data) && eventId == old(eventId) &&
                trace == old(trace) + ReplyNotices(old(callbacks), data) +
                         [Notify(Dispatched(eventType, data, controlled))]
      ensures eventType == "heartbeat" ==>
                callbacks == old(callbacks) && eventId == old(eventId) + 1 &&
                trace == old(trace) + [Transmit(Message(Event(NatToString(old(eventId)), "heartbeat", Absent, false))),
                                       Notify(Dispatched(eventType, data, controlled))]
      ensures eventType != "reply" && eventType != "heartbeat" ==>
                callbacks == old(callbacks) && eventId == old(eventId) &&
                trace == old(trace) + [Notify(Dispatched(eventType, data, controlled))]
    {
      if eventType == "reply" {
        HandleReply(data);
      } else if eventType == "heartbeat" {
        timerArmed := true;
        var _ := Send("heartbeat", Absent, false, false);
      } else if eventType == "close" {
        timerArmed := false;
      }
      Record(Notify(Dispatched(eventType, data, controlled)));
    }

    /** The transport's `text` listener, given the parsed event: a plain
        event is dispatched as it is; one that asks for a reply is
        dispatched with a fresh controller. */
    method OnText(event: Event) returns (controller: ReplyController?)
      requires Valid()
      requires event.eventType == "reply" ==> !event.data.Absent?
      modifies this
      ensures Valid()
      ensures (controller != null) == event.reply
      ensures controller != null ==>
                fresh(controller) && controller.socket == this && controller.id == event.id && !controller.latched
      ensures timerArmed == TimerAfter(event.eventType, old(timerArmed))
      ensures event.eventType == "reply" ==>
                callbacks == ReplyTable(old(callbacks), event.data) && eventId == old(eventId) &&
                trace == old(trace) + ReplyNotices(old(callbacks), event.data) +
                         [Notify(Dispatched(event.eventType, event.data, event.reply))]
      ensures event.eventType == "heartbeat" ==>
                callbacks == old(callbacks) && eventId == old(eventId) + 1 &&
                trace == old(trace) + [Transmit(Message(Event(NatToString(old(eventId)), "heartbeat", Absent, false))),
                                       Notify(Dispatched(event.eventType, event.data, event.reply))]
      ensures event.eventType != "reply" && event.eventType != "heartbeat" ==>
                callbacks == old(callbacks) && eventId == old(eventId) &&
                trace == old(trace) + [Notify(Dispatched(event.eventType, event.data, event.reply))]
    {
      if !event.reply {
        controller := null;
        Emit(event.eventType, event.data, false);
      } else {
        controller := new ReplyController(this, event.id);
        Emit(event.eventType, event.data, true);
      }
    }

    /** The transport's `error` listener. */
    method OnTransportError(message: string)
      requires Valid()
      modifies this
      ensures Valid()
      ensures trace == old(trace) + [Notify(Dispatched("error", Failure(message), false))]
      ensures eventId == old(eventId) && callbacks == old(callbacks) && timerArmed == old(timerArmed)
    {
      Emit("error", Failure(message), false);
    }

    /** The transport's `close` listener: the socket closes and its
        heartbeat timer is cleared. */
    method OnTransportClose()
      requires Valid()
      modifies this
      ensures Valid()
      ensures !timerArmed
      ensures trace == old(trace) + [Notify(Dispatched("close", Absent, false))]
      ensures eventId == old(eventId) && callbacks == old(callbacks)
    {
      Emit("close", Absent, false);
    }

    /** The heartbeat timer expires, which it can only do while armed: the
        socket reports error `heartbeat` and then closes its transport. */
    method TimerFires()
      requires Valid() && timerArmed
      modifies this
      ensures Valid()
      ensures !timerArmed
      ensures trace == old(trace) + [Notify(Dispatched("error", Failure("heartbeat"), false)), CloseTransport]
      ensures eventId == old(eventId) && callbacks == old(callbacks)
    {
      timerArmed := false;
      Emit("error", Failure("heartbeat"), false);
      var _ := Close();
    }
  }

  /** The `resolve`/`reject` pair handed to the application with an event
      that asks for a reply, sharing one latch. */
  class ReplyController {
    const socket: Socket
    const id: string
    var latched: bool

    constructor (socket: Socket, id: string)
      ensures this.socket == socket && this.id == id && !latched
    {
      this.socket := socket;
      this.id := id;
      latched := false;
    }

    /** `reply(success)(value)`: the first call sends the reply event; any
        later call does nothing. */
    method Settle(success: bool, value: Value)
      requires socket.Valid()
      modifies this, socket
      ensures socket.Valid() && latched
      ensures old(latched) ==>
                socket.trace == old(socket.trace) && socket.eventId == old(socket.eventId)
      ensures !old(latched) ==>
                socket.trace == old(socket.trace) +
                  [Transmit(Message(Event(NatToString(old(socket.eventId)), "reply",
                                          ReplyEnvelope(id, success, value), false)))] &&
                socket.eventId == old(socket.eventId) + 1
      ensures socket.callbacks == old(socket.callbacks) && socket.timerArmed == old(socket.timerArmed)
    {
      if !latched {
        latched := true;
        var _ := socket.Send("reply", ReplyEnvelope(id, success, value), false, false);
      }
    }

    method Resolve(value: Value)
      requires socket.Valid()
      modifies this, socket
      ensures socket.Valid() && latched
      ensures old(latched) ==>
                socket.trace == old(socket.trace) && socket.eventId == old(socket.eventId)
      ensures !old(latched) ==>
                socket.trace == old(socket.trace) +
                  [Transmit(Message(Event(NatToString(old(socket.eventId)), "reply",
                                          Envelope(id, value, false), false)))] &&
                socket.eventId == old(socket.eventId) + 1
      ensures socket.callbacks == old(socket.callbacks) && socket.timerArmed == old(socket.timerArmed)
    {
      Settle(true, value);
    }

    method Reject(value: Value)
      requires socket.Valid()
      modifies this, socket
      ensures socket.Valid() && latched
      ensures old(latched) ==>
                socket.trace == old(socket.trace) && socket.eventId == old(socket.eventId)
      ensures !old(latched) ==>
                socket.trace == old(socket.trace) +
                  [Transmit(Message(Event(NatToString(old(socket.eventId)), "reply",
                                          Envelope(id, value, true), false)))] &&
                socket.eventId == old(socket.eventId) + 1
      ensures socket.callbacks == old(socket.callbacks) && socket.timerArmed == old(socket.timerArmed)
    {
      Settle(false, value);
    }
  }

  /** The server: heartbeat options shared by the sockets it builds. */
  class Server {
    var heartbeat: nat
    var heartbeatResponse: nat
    var sockets: seq<Socket>

    constructor ()
      ensures heartbeat == 20000 && heartbeatResponse == 5000 && sockets == []
    {
      heartbeat := 20000;
      heartbeatResponse := 5000;
      sockets := [];
    }

    method SetHeartbeat(value: nat)
      modifies this
      ensures heartbeat == value
      ensures heartbeatResponse == old(heartbeatResponse) && sockets == old(sockets)
    {
      heartbeat := value;
    }

    method SetHeartbeatResponse(value: nat)
      modifies this
      ensures heartbeatResponse == value
      ensures heartbeat == old(heartbeat) && sockets == old(sockets)
    {
      heartbeatResponse := value;
    }

    /** `handle`: a socket over the transport, announced as a `socket`
        event; its first message is the handshake with the current
        options. */
    method Handle() returns (socket: Socket)
      modifies this
      ensures fresh(socket) && socket.Valid()
      ensures socket.heartbeat == heartbeat && socket.heartbeatResponse == heartbeatResponse
      ensures socket.trace == [Transmit(Handshake(heartbeat, heartbeatResponse))]
      ensures socket.eventId == 0 && socket.callbacks == map[] && socket.timerArmed
      ensures sockets == old(sockets) + [socket]
      ensures heartbeat == old(heartbeat) && heartbeatResponse == old(heartbeatResponse)
    {
      socket := new Socket(heartbeat, heartbeatResponse);
      sockets := sockets + [socket];
    }
  }
}
