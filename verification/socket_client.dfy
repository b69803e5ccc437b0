/** The socket.io client module: one shared socket handle created on demand,
    the `messages` store that incoming `message` events append to, and a
    mirror of the configuration store kept by a subscription.

    The socket.io library is abstract: a handle is an identifier with the URL
    and options it was opened with, events reach the module as values, and
    what the module emits is recorded in a log. */
module SocketClient {
  import opened Wrappers
  import ConfigStore

  /** Values carried by socket.io events. */
  type Payload = ConfigStore.Json

  /** `Infinity`, or a finite number of attempts. */
  datatype Attempts = Unbounded | AtMost(n: nat)

  datatype SocketOptions = SocketOptions(
    reconnection: bool,
    reconnectionAttempts: Attempts,
    reconnectionDelay: nat,
    reconnectionDelayMax: nat,
    timeout: nat)

  /** The options every socket is opened with: reconnect forever, waiting
      one to five seconds between attempts, with a ten-second connect
      timeout. */
  const FixedOptions := SocketOptions(true, Unbounded, 1000, 5000, 10000)

  /** A handle returned by `io(url, options)`; `id` tells handles apart. */
  datatype Socket = Socket(id: nat, url: string, options: SocketOptions)

  /** Events a handle delivers to the handlers `getSocket` registers. */
  datatype Inbound =
    | Connect
    | Disconnect
    | Message(payload: Payload)
    | SongQueueUpdated(data: Payload)
    | Reconnect(attemptNumber: nat)
    | ReconnectError(error: string)

  /** What the module has sent: on which handle, on which channel, what. */
  datatype Emission = Emission(socketId: nat, channel: string, payload: Payload)

  /** The module's state: the current handle, the `messages` store, the
      handles closed by `disconnectSocket`, everything emitted, the next
      free handle identifier, and the mirrored configuration (`None` until
      the store first announces a value). */
  datatype Client = Client(
    socket: Option<Socket>,
    messages: seq<Payload>,
    closed: seq<nat>,
    emitted: seq<Emission>,
    nextId: nat,
    config: Option<ConfigStore.Json>)

  /** Every handle the module has opened has an identifier below `nextId`. */
  predicate Valid(c: Client) {
    (c.socket.Some? ==> c.socket.value.id < c.nextId)
    && (forall i :: 0 <= i < |c.closed| ==> c.closed[i] < c.nextId)
  }

  /** `getSocket(url)`: the existing handle whatever `url` is, or else a new
      handle to `url` opened with the fixed options. */
  function GetSocket(c: Client, url: string): (r: (Client, Socket))
    requires Valid(c)
    ensures Valid(r.0) && r.0.socket == Some(r.1)
    ensures c.socket.Some? ==> r == (c, c.socket.value)
    ensures c.socket.None? ==> r.1.url == url && r.1.options == FixedOptions
    ensures c.socket.None? ==> r.1.id >= c.nextId
    ensures r.0.messages == c.messages && r.0.emitted == c.emitted && r.0.closed == c.closed
  {
    match c.socket
    case Some(s) => (c, s)
    case None =>
      var s := Socket(c.nextId, url, FixedOptions);
      (c.(socket := Some(s), nextId := c.nextId + 1), s)
  }

  /** `disconnectSocket()`: closes and forgets the current handle, if any. */
  function DisconnectSocket(c: Client): (r: Client)
    requires Valid(c)
    ensures Valid(r) && r.socket.None?
    ensures c.socket.None? ==> r == c
    ensures c.socket.Some? ==> r.closed == c.closed + [c.socket.value.id]
    ensures r.messages == c.messages && r.emitted == c.emitted && r.nextId == c.nextId
  {
    match c.socket
    case None => c
    case Some(s) => c.(socket := None, closed := c.closed + [s.id])
  }

  /** Why `sendMessage` threw. */
  datatype SendError = NoSocket

  /** `sendMessage(m)`: emits `m` on the `message` channel of the current
      handle; with no handle the property access throws. */
  function SendMessage(c: Client, m: Payload): (r: Result<Client, SendError>)
    requires Valid(c)
    ensures r.Failure? <==> c.socket.None?
    ensures r.Success? ==> Valid(r.value)
    ensures r.Success? ==> r.value.emitted == c.emitted + [Emission(c.socket.value.id, "message", m)]
    ensures r.Success? ==> r.value.socket == c.socket && r.value.messages == c.messages
  {
    match c.socket
    case None => Failure(NoSocket)
    case Some(s) => Success(c.(emitted := c.emitted + [Emission(s.id, "message", m)]))
  }

  /** The handlers: a `message` appends its payload to `messages`; every
      other event is only logged. Events reach the module only while it
      holds a handle. */
  function Receive(c: Client, ev: Inbound): (r: Client)
    requires Valid(c)
    ensures Valid(r)
    ensures ev.Message? && c.socket.Some? ==> r.messages == c.messages + [ev.payload]
    ensures !ev.Message? || c.socket.None? ==> r == c
    ensures r.socket == c.socket && r.emitted == c.emitted
  {
    match ev
    case Message(m) => if c.socket.Some? then c.(messages := c.messages + [m]) else c
    case _ => c
  }

  /** The payloads of the `message` events among `evs`, in arrival order. */
  function Payloads(evs: seq<Inbound>): seq<Payload> {
    if |evs| == 0 then []
    else (if evs[0].Message? then [evs[0].payload] else []) + Payloads(evs[1..])
  }

  /** The state after a run of incoming events. */
  function ReceiveAll(c: Client, evs: seq<Inbound>): (r: Client)
    requires Valid(c)
    ensures Valid(r) && r.socket == c.socket && r.emitted == c.emitted
    decreases |evs|
  {
    if |evs| == 0 then c else ReceiveAll(Receive(c, evs[0]), evs[1..])
  }

  /** While a handle is open, `messages` is the earlier messages followed by
      every `message` payload, in arrival order; no other event adds to it. */
  lemma {:induction false} MessagesAreAppendOnly(c: Client, evs: seq<Inbound>)
    requires Valid(c) && c.socket.Some?
    ensures ReceiveAll(c, evs).messages == c.messages + Payloads(evs)
    decreases |evs|
  {
    if |evs| > 0 {
      var next := Receive(c, evs[0]);
      MessagesAreAppendOnly(next, evs[1..]);
      if evs[0].Message? {
        assert next.messages + Payloads(evs[1..]) == c.messages + Payloads(evs);
      } else {
        assert Payloads(evs) == Payloads(evs[1..]);
      }
    }
  }

  /** `getSocket` is idempotent: a second call returns the first call's
      handle and changes nothing, whatever URL it is given. */
  lemma GetSocketIsIdempotent(c: Client, first: string, second: string)
    requires Valid(c)
    ensures var (c1, s1) := GetSocket(c, first);
      GetSocket(c1, second) == (c1, s1)
  {
  }

  /** After `disconnectSocket`, `getSocket` opens a handle distinct from the
      closed one and from every handle closed before, to the URL it is now
      given. */
  lemma DisconnectThenGetIsFresh(c: Client, url: string)
    requires Valid(c) && c.socket.Some?
    ensures var (c1, s1) := GetSocket(DisconnectSocket(c), url);
      && s1 != c.socket.value && s1.url == url && s1.options == FixedOptions
      && (forall i :: 0 <= i < |c1.closed| ==> c1.closed[i] != s1.id)
  {
  }

  /** The subscription callback: it records the announced value. */
  function Notify(c: Client, v: ConfigStore.Json): (r: Client)
    ensures r.config == Some(v)
    ensures r.(config := c.config) == c
  {
    c.(config := Some(v))
  }

  /** The state after the store has announced `values` to the subscription,
      in order. */
  function NotifyAll(c: Client, values: seq<ConfigStore.Json>): Client
    decreases |values|
  {
    if |values| == 0 then c else NotifyAll(Notify(c, values[0]), values[1..])
  }

  lemma {:induction false} NotifyAllKeepsLast(c: Client, values: seq<ConfigStore.Json>)
    requires |values| >= 1
    ensures NotifyAll(c, values).config == Some(values[|values| - 1])
    decreases |values|
  {
    if |values| > 1 {
      NotifyAllKeepsLast(Notify(c, values[0]), values[1..]);
      assert values[1..][|values[1..]| - 1] == values[|values| - 1];
    }
  }

  /** The mirror equals the store's current value: subscribing delivers the
      value current at that moment and then every later announcement, and
      the store announces its current value last. */
  lemma MirrorFollowsStore(c: Client, store: ConfigStore.Store, subscribedAt: nat)
    requires ConfigStore.Valid(store) && subscribedAt < |store.published|
    ensures NotifyAll(c, store.published[subscribedAt..]).config == Some(store.value)
  {
    NotifyAllKeepsLast(c, store.published[subscribedAt..]);
  }
}
