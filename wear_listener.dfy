/**
 * The watch's DataLayerListenerService: relays `/count` data items back to their origin
 * and acknowledges every `/start-activity` message with a fixed Korean text. The sends
 * its coroutines issue are appended to `outbox` in the order they are launched.
 */
module WearListener {
  import opened DataLayer
  import opened DataItemRelay

  const START_ACTIVITY_PATH := "/start-activity"

  /** The acknowledgment text "잘받았습니다." ("received it well."). */
  const ACK_TEXT: string := "\U{C798}\U{BC1B}\U{C558}\U{C2B5}\U{B2C8}\U{B2E4}."

  /** The reply onMessageReceived sends for `ev`: one acknowledgment for `/start-activity`. */
  function Reply(ev: MessageEvent): (r: seq<Message>)
    ensures |r| <= 1
    ensures r != [] <==> ev.path == START_ACTIVITY_PATH
    ensures r != [] ==>
      && r[0].nodeId == ev.sourceNodeId
      && r[0].path == START_ACTIVITY_PATH
      && r[0].data == Utf8(ACK_TEXT)
      // a corollary of the line above and DecodeUtf8RoundTrip: the receiver reads back the text
      && DecodeUtf8(r[0].data) == Some(ACK_TEXT)
  {
    if ev.path == START_ACTIVITY_PATH then
      DecodeUtf8RoundTrip(ACK_TEXT);
      [Message(ev.sourceNodeId, START_ACTIVITY_PATH, Utf8(ACK_TEXT))]
    else []
  }

  /** The acknowledgment is six three-byte Hangul syllables and a full stop. */
  lemma AckPayloadLength()
    ensures |Utf8(ACK_TEXT)| == 19
  {
  }

  /**
   * How the reply coroutine ends when its send ends with `outcome`: it has no try/catch,
   * so a failed send leaves the coroutine; cancellation ends it quietly.
   */
  function ReplyCoroutineEnd(outcome: SendOutcome): (end: CoroutineEnd)
    ensures end == Uncaught <==> outcome == Failed
    ensures end == Rethrown <==> outcome == Cancelled
    ensures end != LoggedSent && end != LoggedFailed
  {
    match outcome
    case Acknowledged => Completed
    case Failed => Uncaught
    case Cancelled => Rethrown
  }

  /** A failed send is caught by the `/count` relay and escapes the `/start-activity` reply. */
  lemma FailureHandlingDiffers(uri: Uri)
    ensures RelayCoroutineEnd(uri, Failed) == LoggedFailed
    ensures ReplyCoroutineEnd(Failed) == Uncaught
  {
  }

  class DataLayerListenerService {
    /** Every sendMessage call the service's coroutines have made, oldest first. */
    var outbox: seq<Message>

    constructor ()
      ensures outbox == []
    {
      outbox := [];
    }

    /** onDataChanged: one relay per `/count` event that has a host, in buffer order. */
    method OnDataChanged(dataEvents: seq<DataEvent>)
      modifies this
      ensures outbox == old(outbox) + Relays(dataEvents)
    {
      for i := 0 to |dataEvents|
        invariant outbox == old(outbox) + Relays(dataEvents[..i])
      {
        var uri := dataEvents[i].uri;
        if uri.path == Some(COUNT_PATH) {
          match uri.host {
            case None =>
              // `uri.host!!` throws; the catch-all logs "Message failed"
            case Some(nodeId) =>
              var payload := Utf8(uri.text);
              outbox := outbox + [Message(nodeId, DATA_ITEM_RECEIVED_PATH, payload)];
          }
        }
        assert dataEvents[..i + 1][..i] == dataEvents[..i];
      }
      assert dataEvents[..|dataEvents|] == dataEvents;
    }

    /**
     * onMessageReceived: a `/start-activity` message has its payload logged and gets the
     * acknowledgment sent back to its source; any other message is ignored.
     */
    method OnMessageReceived(messageEvent: MessageEvent) returns (logged: Option<Bytes>)
      modifies this
      ensures outbox == old(outbox) + Reply(messageEvent)
      ensures logged.Some? <==> messageEvent.path == START_ACTIVITY_PATH
      ensures logged.Some? ==> logged.value == messageEvent.data
    {
      logged := None;
      if messageEvent.path == START_ACTIVITY_PATH {
        logged := Some(messageEvent.data);
        outbox := outbox + [Message(messageEvent.sourceNodeId, START_ACTIVITY_PATH, Utf8(ACK_TEXT))];
      }
    }
  }
}
