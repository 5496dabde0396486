/**
 * The phone's DataLayerListenerService: the same `/count` relay as the watch, and a
 * `/start-activity` handler that only logs what the watch sent.
 */
module MobileListener {
  import opened DataLayer
  import opened DataItemRelay

  const START_ACTIVITY_PATH := "/start-activity"

  class DataLayerListenerService {
    /** Every sendMessage call the service's coroutines have made, oldest first. */
    var outbox: seq<Message>

    constructor ()
      ensures outbox == []
    {
      outbox := [];
    }

    /** onDataChanged: one relay per `/count` event that has a host, in buffer order. */
    method OnDataChanged(dataEvents: seq<DataEvent>)
      modifies this
      ensures outbox == old(outbox) + Relays(dataEvents)
    {
      for i := 0 to |dataEvents|
        invariant outbox == old(outbox) + Relays(dataEvents[..i])
      {
        var uri := dataEvents[i].uri;
        if uri.path == Some(COUNT_PATH) {
          match uri.host {
            case None =>
              // `uri.host!!` throws; the catch-all logs "Message failed"
            case Some(nodeId) =>
              var payload := Utf8(uri.text);
              outbox := outbox + [Message(nodeId, DATA_ITEM_RECEIVED_PATH, payload)];
          }
        }
        assert dataEvents[..i + 1][..i] == dataEvents[..i];
      }
      assert dataEvents[..|dataEvents|] == dataEvents;
    }

    /**
     * onMessageReceived: a `/start-activity` message has its payload logged; no message
     * leads to a send.
     */
    method OnMessageReceived(messageEvent: MessageEvent) returns (logged: Option<Bytes>)
      ensures outbox == old(outbox)
      ensures logged.Some? <==> messageEvent.path == START_ACTIVITY_PATH
      ensures logged.Some? ==> logged.value == messageEvent.data
    {
      logged := None;
      if messageEvent.path == START_ACTIVITY_PATH {
        logged := Some(messageEvent.data);
      }
    }
  }
}
