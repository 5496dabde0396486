/**
 * The `/count` relay that both DataLayerListenerService classes (watch and phone) run in
 * onDataChanged: for every data event whose URI path is `/count`, a coroutine takes the
 * URI's host as the target node and sends the URI's string form to it on
 * `/data-item-received`. The two services carry identical code, modelled once here.
 */
module DataItemRelay {
  import opened DataLayer

  const COUNT_PATH := "/count"
  const DATA_ITEM_RECEIVED_PATH := "/data-item-received"

  /** The `when (uri.path)` branch that launches a relay. */
  predicate IsCountEvent(e: DataEvent)
  {
    e.uri.path == Some(COUNT_PATH)
  }

  /** A `/count` event whose relay reaches sendMessage (its URI has a host). */
  predicate Relayable(e: DataEvent)
  {
    IsCountEvent(e) && e.uri.host.Some?
  }

  /**
   * The message a relay coroutine sends for `uri`: `None` when `uri.host!!` throws, which
   * the coroutine's catch-all swallows before anything is sent.
   */
  function RelayMessage(uri: Uri): (r: Option<Message>)
    ensures r.Some? <==> uri.host.Some?
    ensures r.Some? ==>
      && r.value.nodeId == uri.host.value
      && r.value.path == DATA_ITEM_RECEIVED_PATH
      && r.value.data == Utf8(uri.text)
      // a corollary of the line above and DecodeUtf8RoundTrip: the receiver reads back the URI
      && DecodeUtf8(r.value.data) == Some(uri.text)
  {
    match uri.host
    case None => None
    case Some(nodeId) =>
      DecodeUtf8RoundTrip(uri.text);
      Some(Message(nodeId, DATA_ITEM_RECEIVED_PATH, Utf8(uri.text)))
  }

  /** What one event of the buffer contributes to the sends. */
  function RelayOf(e: DataEvent): (r: seq<Message>)
    ensures |r| <= 1
    ensures r != [] <==> Relayable(e)
    ensures r != [] ==> Some(r[0]) == RelayMessage(e.uri)
  {
    if IsCountEvent(e) then
      match RelayMessage(e.uri)
      case None => []
      case Some(m) => [m]
    else []
  }

  /** The listeners never look at whether the data item changed or was deleted. */
  lemma RelayIgnoresEventType(uri: Uri)
    ensures RelayOf(DataEvent(Changed, uri)) == RelayOf(DataEvent(Deleted, uri))
  {
  }

  /** The sends onDataChanged issues for a buffer, in the buffer's order. */
  function Relays(events: seq<DataEvent>): (r: seq<Message>)
    ensures |r| <= |events|
    ensures forall m :: m in r ==> m.path == DATA_ITEM_RECEIVED_PATH
  {
    if events == [] then []
    else Relays(events[..|events| - 1]) + RelayOf(events[|events| - 1])
  }

  /** Events are handled independently: splitting the buffer splits the sends. */
  lemma {:induction false} RelaysAppend(a: seq<DataEvent>, b: seq<DataEvent>)
    ensures Relays(a + b) == Relays(a) + Relays(b)
    decreases |b|
  {
    if b == [] {
      assert a + b == a;
    } else {
      var b' := b[..|b| - 1];
      assert (a + b)[..|a + b| - 1] == a + b';
      assert (a + b)[|a + b| - 1] == b[|b| - 1];
      RelaysAppend(a, b');
    }
  }

  /** An event that sends nothing (wrong path, or no host) leaves the other events' sends intact. */
  lemma {:induction false} SilentEventChangesNothing(a: seq<DataEvent>, e: DataEvent, b: seq<DataEvent>)
    requires !Relayable(e)
    ensures Relays(a + [e] + b) == Relays(a + b)
  {
    assert Relays([e]) == [] by {
      assert [e][..0] == [];
    }
    calc {
      Relays(a + [e] + b);
      { RelaysAppend(a + [e], b); }
      Relays(a + [e]) + Relays(b);
      { RelaysAppend(a, [e]); }
      Relays(a) + Relays(b);
      { RelaysAppend(a, b); }
      Relays(a + b);
    }
  }

  /** Number of relayable events in a buffer. */
  function CountRelayable(events: seq<DataEvent>): nat
  {
    if events == [] then 0
    else CountRelayable(events[..|events| - 1]) + (if Relayable(events[|events| - 1]) then 1 else 0)
  }

  /**
   * Exactly one send per relayable event: the sends are as many as the relayable events,
   * every relayable event's message is among them, and every send is some relayable
   * event's message.
   */
  lemma {:induction false} RelaysExact(events: seq<DataEvent>)
    ensures |Relays(events)| == CountRelayable(events)
    ensures forall e :: e in events && Relayable(e) ==> RelayMessage(e.uri).value in Relays(events)
    ensures forall m :: m in Relays(events) ==>
      exists e :: e in events && Relayable(e) && RelayMessage(e.uri) == Some(m)
  {
    if events != [] {
      var init, last := events[..|events| - 1], events[|events| - 1];
      RelaysExact(init);
      assert events == init + [last];
      forall e | e in events && Relayable(e) ensures RelayMessage(e.uri).value in Relays(events) {
        if e != last {
          assert e in init;
        }
      }
    }
  }

  /** How the awaited sendMessage task of a coroutine ends. */
  datatype SendOutcome = Acknowledged | Failed | Cancelled

  /** How a launched coroutine ends. */
  datatype CoroutineEnd =
    | Completed        // finished without logging
    | LoggedSent       // "Message sent successfully"
    | LoggedFailed     // the catch-all branch: "Message failed"
    | Rethrown         // the CancellationException is thrown on
    | Uncaught         // an exception leaves the coroutine

  /**
   * The end of a relay coroutine for `uri` when its send ends with `outcome`. A missing
   * host fails before any send and is caught; cancellation is thrown on and is never
   * logged as a failure; no exception ever leaves the coroutine.
   */
  function RelayCoroutineEnd(uri: Uri, outcome: SendOutcome): (end: CoroutineEnd)
    ensures end != Uncaught && end != Completed
    ensures end == Rethrown <==> uri.host.Some? && outcome == Cancelled
    ensures end == LoggedFailed <==> uri.host.None? || outcome == Failed
    ensures end == LoggedSent <==> RelayMessage(uri).Some? && outcome == Acknowledged
  {
    match uri.host
    case None => LoggedFailed
    case Some(_) =>
      match outcome
      case Acknowledged => LoggedSent
      case Cancelled => Rethrown
      case Failed => LoggedFailed
  }
}
