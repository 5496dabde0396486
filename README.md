# Wear OS Data Layer sample: verified model of its data logic

The repository is a pair of Android apps, a watch app and a phone app, that talk over the
Wear OS Data Layer. They discover nodes by capability, send small messages and relay
data-item events. This project models the three pieces of logic that the apps compute
themselves rather than hand to the SDK:

- **Watch `MainActivity`** (`main_activity.dfy`, module `WearMainActivity`). Discovery returns
  a map from capability to node set. The activity inverts it into a map from node to
  capability set, using a flatMap, then groupBy, then mapValues pipeline. It then filters
  nodes by "mobile or wear" and by "mobile and camera". The activity shows either the
  "no device" message or the "connected nodes" message over the display names joined by
  ", ". The JSON button sends one `/start-activity` message to every reachable "mobile"
  node.
- **`/count` relay** (`data_item_relay.dfy`, module `DataItemRelay`). Both listener services
  run the same relay. A data event whose URI path is `/count` has the URI's string form
  sent to the URI's host on `/data-item-received`. A missing host throws inside the
  coroutine's try block, and the catch-all swallows it. Cancellation is thrown on and is
  never logged as a failure.
- **Listener services** (`wear_listener.dfy`, `mobile_listener.dfy`). Each service is a class
  whose `outbox` records every `sendMessage` call its coroutines make. `onDataChanged` loops
  over the event buffer. On the watch, `onMessageReceived` acknowledges `/start-activity`
  with the fixed text "잘받았습니다." sent back to the source node. On the phone, the same
  message is only logged.

Value types shared by all three are in `common.dfy`, module `DataLayer`: `Node`, `Message`,
`Uri`, `DataEvent` and `MessageEvent`. That file also holds the UTF-8 encoding that
`String.toByteArray()` applies to every text payload, with a strict decoder proved to undo it and to accept
only the bytes the encoder produces.

Modelling choices:
- `Node` is a value with an id and a display name. Node sets and maps use structural
  equality.
- A `Uri` is given by its path, its optional host and its string form. Android's URI
  parsing is not part of this model. A URI's path may be absent (`Uri.getPath()` can return
  null), and such an event goes to no branch.
- Kotlin `Set`s have an iteration order that this model does not know. `Enumeration` is a
  fixed but unspecified order of a set, and it decides the order of the joined names.
  `OnSendJsonStrClicked` returns the order it used as a ghost out-parameter.
- A coroutine's `sendMessage(...)` call is an entry appended to the outbox in launch order.
  How its awaited task ends (acknowledged, failed, cancelled) is an input to
  `RelayCoroutineEnd` and `ReplyCoroutineEnd`.
- A failed SDK lookup, caught and logged by the click handlers, is `None` for the lookup
  argument. The handler then shows nothing and sends nothing.
- The relay code is identical in the watch and phone services. Its specification
  (`RelayMessage`, `RelayOf`, `Relays`) is written once. Each class's `OnDataChanged` loop is
  proved to grow its outbox by exactly `Relays` of the buffer.

## Model

| member | source | states |
|---|---|---|
| `WearMainActivity.GroupBy` | wearable/src/main/java/com/davi/datalayer/MainActivity.kt:115-121 | grouping pairs by node relates exactly the given pairs and never creates an empty group |
| `WearMainActivity.Invert` | wearable/src/main/java/com/davi/datalayer/MainActivity.kt:108-121 | lossless inversion: c is in result[n] iff n is in the node set of c; the keys are exactly the nodes that some capability lists; every value set is non-empty |
| `WearMainActivity.InvertTwice` | wearable/src/main/java/com/davi/datalayer/MainActivity.kt:108-121 | inverting the result again gives back the input without its empty entries |
| `WearMainActivity.InvertIgnoresEmpty` | wearable/src/main/java/com/davi/datalayer/MainActivity.kt:112-114 | a capability with an empty node set contributes nothing to the inversion |
| `WearMainActivity.OtherDevices` | wearable/src/main/java/com/davi/datalayer/MainActivity.kt:49-50 | a node is an "other device" iff discovery lists it under "mobile" or under "wear" |
| `WearMainActivity.MobileCameraNodes` | wearable/src/main/java/com/davi/datalayer/MainActivity.kt:63-64 | a node is returned iff discovery lists it under both "mobile" and "camera" |
| `WearMainActivity.MobileCameraWithinOtherDevices` | wearable/src/main/java/com/davi/datalayer/MainActivity.kt:49-64 | the camera query's nodes are a subset of the other-devices query's nodes |
| `WearMainActivity.Join` | wearable/src/main/java/com/davi/datalayer/MainActivity.kt:127 | `joinToString`: one part is returned as is, and the first part is a prefix of the result |
| `WearMainActivity.JoinLength` | wearable/src/main/java/com/davi/datalayer/MainActivity.kt:127 | the joined text has the length of all parts plus one separator between each pair of neighbours |
| `WearMainActivity.JoinAppend` | wearable/src/main/java/com/davi/datalayer/MainActivity.kt:127 | appending a part appends the separator and then that part |
| `WearMainActivity.Enumeration` | wearable/src/main/java/com/davi/datalayer/MainActivity.kt:127 | the iteration order of a set lists each element exactly once and nothing else |
| `WearMainActivity.DisplayNames` | wearable/src/main/java/com/davi/datalayer/MainActivity.kt:127 | position by position, the display names of the nodes in iteration order |
| `WearMainActivity.DisplayNodes` | wearable/src/main/java/com/davi/datalayer/MainActivity.kt:123-128 | the "no device" message iff the set is empty; otherwise "connected nodes" over the display names joined by ", " |
| `WearMainActivity.OnQueryOtherDevicesClicked` | wearable/src/main/java/com/davi/datalayer/MainActivity.kt:46-58 | nothing is shown iff discovery failed; otherwise the message displayNodes builds from exactly the "mobile"-or-"wear" nodes, which is "no device" iff no node is listed under "mobile" or "wear" |
| `WearMainActivity.OnQueryMobileCameraClicked` | wearable/src/main/java/com/davi/datalayer/MainActivity.kt:60-73 | nothing is shown iff discovery failed; otherwise the message displayNodes builds from exactly the "mobile"-and-"camera" nodes, which is "no device" iff no node is listed under both |
| `WearMainActivity.CameraFoundImpliesOtherFound` | wearable/src/main/java/com/davi/datalayer/MainActivity.kt:46-73 | if the camera query shows connected nodes, so does the other-devices query |
| `WearMainActivity.OnSendJsonStrClicked` | wearable/src/main/java/com/davi/datalayer/MainActivity.kt:75-98 | a failed lookup sends nothing; otherwise exactly one `/start-activity` message per looked-up node, in iteration order, to that node's id, all with the same payload; every looked-up node is reached and nobody else is |
| `DataLayer.EncodeChar` | wearable/src/main/java/com/davi/datalayer/services/DataLayerListenerService.kt:39 | one character encodes to 1 to 4 bytes: a lead byte that announces the length, then continuation bytes; 1 byte iff ASCII |
| `DataLayer.Utf8` | wearable/src/main/java/com/davi/datalayer/services/DataLayerListenerService.kt:39 | `toByteArray()` yields between one and four bytes per character |
| `DataLayer.DecodeUtf8RoundTrip` | wearable/src/main/java/com/davi/datalayer/services/DataLayerListenerService.kt:39 | decoding the bytes of `toByteArray()` gives back the string |
| `DataLayer.EncodeCharOfDecodeValue` | wearable/src/main/java/com/davi/datalayer/services/DataLayerListenerService.kt:39 | a well-formed UTF-8 sequence is the encoding of the value it carries, so each character has exactly one encoding |
| `DataLayer.DecodeUtf8Canonical` | wearable/src/main/java/com/davi/datalayer/services/DataLayerListenerService.kt:39 | any byte string the decoder accepts is exactly `toByteArray()` of the decoded string |
| `DataLayer.DecodeUtf8RejectsMissingContinuation` | wearable/src/main/java/com/davi/datalayer/services/DataLayerListenerService.kt:39 | any byte string whose lead byte announces a sequence that a non-continuation byte interrupts is refused |
| `DataLayer.DecodeUtf8RejectsOverlong` | wearable/src/main/java/com/davi/datalayer/services/DataLayerListenerService.kt:39 | any byte string starting with an overlong sequence (a value that fits in fewer bytes) is refused |
| `DataLayer.Utf8Injective` | wearable/src/main/java/com/davi/datalayer/services/DataLayerListenerService.kt:39 | two strings have the same payload bytes iff they are equal |
| `DataItemRelay.RelayMessage` | wearable/src/main/java/com/davi/datalayer/services/DataLayerListenerService.kt:36-45 | a send happens iff the URI has a host; it goes to the host on `/data-item-received`, and its payload is exactly `toByteArray()` of the URI's string, which decodes back to it |
| `DataItemRelay.RelayOf` | wearable/src/main/java/com/davi/datalayer/services/DataLayerListenerService.kt:32-54 | an event yields at most one send, and one exactly when its path is `/count` and its URI has a host |
| `DataItemRelay.RelayIgnoresEventType` | wearable/src/main/java/com/davi/datalayer/services/DataLayerListenerService.kt:32-35 | changed and deleted data items are relayed alike |
| `DataItemRelay.Relays` | mobile/src/main/java/com/davi/datalayer/service/DataLayerListenerService.kt:30-53 | a buffer yields no more sends than it has events, all on `/data-item-received` |
| `DataItemRelay.RelaysAppend` | wearable/src/main/java/com/davi/datalayer/services/DataLayerListenerService.kt:32-55 | events are handled independently: the sends of a split buffer are the sends of its parts, in order |
| `DataItemRelay.SilentEventChangesNothing` | mobile/src/main/java/com/davi/datalayer/service/DataLayerListenerService.kt:30-53 | an event that sends nothing, because of another path or a missing host, does not change the other events' sends |
| `DataItemRelay.RelaysExact` | wearable/src/main/java/com/davi/datalayer/services/DataLayerListenerService.kt:32-54 | one send per relayable event: the count matches, every relayable event's message is sent, and every send belongs to one |
| `DataItemRelay.RelayCoroutineEnd` | wearable/src/main/java/com/davi/datalayer/services/DataLayerListenerService.kt:36-51 | no exception leaves the relay; cancellation is rethrown and never logged as a failure; a missing host or a failed send is logged as a failure |
| `WearListener.Reply` | wearable/src/main/java/com/davi/datalayer/services/DataLayerListenerService.kt:68-83 | exactly one reply iff the path is `/start-activity`: to the source node, on `/start-activity`, with a payload that is exactly `toByteArray()` of "잘받았습니다." |
| `WearListener.AckPayloadLength` | wearable/src/main/java/com/davi/datalayer/services/DataLayerListenerService.kt:79 | the acknowledgment payload is 19 bytes long |
| `WearListener.ReplyCoroutineEnd` | wearable/src/main/java/com/davi/datalayer/services/DataLayerListenerService.kt:75-81 | the reply has no try/catch: a failed send escapes the coroutine, and nothing is logged |
| `WearListener.FailureHandlingDiffers` | wearable/src/main/java/com/davi/datalayer/services/DataLayerListenerService.kt:36-81 | a failed send is caught by the `/count` relay but escapes the `/start-activity` reply |
| `WearListener.DataLayerListenerService.OnDataChanged` | wearable/src/main/java/com/davi/datalayer/services/DataLayerListenerService.kt:28-56 | the outbox grows by exactly the buffer's relays, in buffer order |
| `WearListener.DataLayerListenerService.OnMessageReceived` | wearable/src/main/java/com/davi/datalayer/services/DataLayerListenerService.kt:58-84 | the outbox grows by exactly the reply; the payload is logged iff the path is `/start-activity` |
| `MobileListener.DataLayerListenerService.OnDataChanged` | mobile/src/main/java/com/davi/datalayer/service/DataLayerListenerService.kt:26-54 | the outbox grows by exactly the buffer's relays, in buffer order |
| `MobileListener.DataLayerListenerService.OnMessageReceived` | mobile/src/main/java/com/davi/datalayer/service/DataLayerListenerService.kt:56-73 | no message leads to a send; the payload is logged iff the path is `/start-activity` |

## Left out

- SDK calls (`getAllCapabilities`, `getCapability`, `sendMessage`) are foreign code. Their answers are inputs and their sends are outbox entries. A lookup that fails is `None`.
- Coroutine machinery is not modelled: `lifecycleScope`, the `SupervisorJob` scope, `async`/`awaitAll`, and `scope.cancel()` in `onDestroy`. Sends are recorded in launch order. When they run relative to the callback's return is not modelled. Neither is `awaitAll` cancelling sibling sends after one send fails.
- Listener registration in `onResume`/`onPause` is platform lifecycle plumbing.
- UI is not modelled: Compose content, `Toast` display, and the resource texts behind `getString`. The two messages are the constructors `NoDevice` and `ConnectedNodes(joined names)`.
- The text of log lines is not modelled. For the listener services, the model records which handler logs a payload and whether a relay failure is logged. For MainActivity, the "Querying nodes failed" log of the three click handlers is not modelled. The model records only that a failed lookup shows nothing and sends nothing.
- `WearMainActivity.OnSendJsonStrClicked`: send failures are not modelled, only the sends that are issued. Each send runs in an `async` child of the launched coroutine. A failed send therefore cancels that coroutine, and the surrounding try/catch does not contain it. This escape is not modelled.
- The hard-coded JSON text is the opaque payload argument `json`. The constants `IMAGE_PATH`, `RESPONSE` and `IMAGE_KEY` are never used.
- `DataLayer.Utf8`: strings are sequences of Unicode scalar values. A Kotlin string holding a lone surrogate, which `toByteArray()` replaces with `?`, cannot be expressed.
- `WearMainActivity.Invert`: `Node` equality is structural over id and display name. Two node values with the same id and different names count as different nodes.
- `WearMainActivity.OnSendJsonStrClicked`: node equality is structural here too. A lookup holding two node values with the same id and different names yields two sends to that id. The model does not capture the platform's guarantee, if any, that a node set holds one node per id.
- `WearMainActivity.DisplayNodes`: the order of the joined names is an unspecified enumeration of the set. It is not the platform's actual iteration order.
