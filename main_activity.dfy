/**
 * The data logic of the watch's MainActivity: inverting the capability map returned by
 * discovery into a node-keyed map, the two node queries built on it, the choice of the
 * message shown for a query, and the fan-out of the JSON message to every reachable phone.
 */
module WearMainActivity {
  import opened DataLayer

  const CAMERA_CAPABILITY := "camera"
  const WEAR_CAPABILITY := "wear"
  const MOBILE_CAPABILITY := "mobile"
  const START_ACTIVITY_PATH := "/start-activity"

  /** Separator of `joinToString` in displayNodes. */
  const NAME_SEPARATOR := ", "

  /** `a` is a key of `m` and `b` belongs to the set it maps to. */
  predicate Related<A, B>(m: map<A, set<B>>, a: A, b: B)
  {
    a in m && b in m[a]
  }

  /** Every element of some value set of `m`. */
  function Covered<A, B>(m: map<A, set<B>>): set<B>
  {
    set a, b | a in m && b in m[a] :: b
  }

  /** The entries of `m` whose set is not empty: the pairs of `m`, without empty entries. */
  function NonEmptyPart<A(!new), B(!new)>(m: map<A, set<B>>): (r: map<A, set<B>>)
    ensures forall a, b :: Related(r, a, b) <==> Related(m, a, b)
    ensures forall a :: a in r ==> r[a] != {}
  {
    map a | a in m && m[a] != {} :: m[a]
  }

  /** The `flatMap` step: every (node, capability) pair the discovery answer lists. */
  function FlatPairs<C(!new), N(!new)>(m: map<C, set<N>>): set<(N, C)>
  {
    set c, n | c in m && n in m[c] :: (n, c)
  }

  /** The `groupBy(first, second)` step followed by `mapValues { toSet() }`. */
  function GroupBy<N(!new), C(!new)>(pairs: set<(N, C)>): (r: map<N, set<C>>)
    ensures forall n, c :: Related(r, n, c) <==> (n, c) in pairs
    ensures forall n :: n in r ==> r[n] != {}
  {
    var keys := set p | p in pairs :: p.0;
    map n | n in keys :: set p | p in pairs && p.0 == n :: p.1
  }

  /**
   * getCapabilitiesForReachableNodes: the capability -> nodes map turned into a
   * node -> capabilities map. Generic in the capability and node types.
   */
  function Invert<C(!new), N(!new)>(m: map<C, set<N>>): (r: map<N, set<C>>)
    ensures forall n, c :: Related(r, n, c) <==> Related(m, c, n)
    ensures r.Keys == Covered(m)
    ensures forall n :: n in r ==> r[n] != {}
  {
    var r := GroupBy(FlatPairs(m));
    assert r.Keys == Covered(m) by {
      forall n | n in r ensures n in Covered(m) {
        var c :| c in r[n];
        assert Related(m, c, n);
      }
      forall n | n in Covered(m) ensures n in r {
        var c :| c in m && n in m[c];
        assert Related(r, n, c);
      }
    }
    r
  }

  /** Two maps to non-empty sets are equal when they relate the same pairs. */
  lemma SameRelationSameMap<A(!new), B(!new)>(p: map<A, set<B>>, q: map<A, set<B>>)
    requires forall a :: a in p ==> p[a] != {}
    requires forall a :: a in q ==> q[a] != {}
    requires forall a, b :: Related(p, a, b) <==> Related(q, a, b)
    ensures p == q
  {
    forall a | a in p ensures a in q && p[a] == q[a] {
      var b :| b in p[a];
      assert Related(q, a, b);
      forall x ensures x in p[a] <==> x in q[a] {
        assert Related(p, a, x) <==> Related(q, a, x);
      }
    }
    forall a | a in q ensures a in p {
      var b :| b in q[a];
      assert Related(p, a, b);
    }
  }

  /** Inverting twice gives back every capability that has at least one node. */
  lemma InvertTwice<C(!new), N(!new)>(m: map<C, set<N>>)
    ensures Invert(Invert(m)) == NonEmptyPart(m)
  {
    var back := Invert(Invert(m));
    var want := NonEmptyPart(m);
    assert forall c, x :: Related(back, c, x) <==> Related(m, c, x);
    SameRelationSameMap(back, want);
  }

  /** A capability no reachable node has adds nothing to the inversion. */
  lemma InvertIgnoresEmpty<C(!new), N(!new)>(m: map<C, set<N>>, c: C)
    requires c in m && m[c] == {}
    ensures Invert(m) == Invert(m - {c})
  {
    var r, r' := Invert(m), Invert(m - {c});
    assert forall n, x :: Related(r, n, x) <==> Related(r', n, x);
    SameRelationSameMap(r, r');
  }

  /** `filterValues { p(it) }.keys`. */
  function KeysWhere<K(!new), V>(m: map<K, V>, p: V -> bool): set<K>
  {
    set k | k in m && p(m[k])
  }

  predicate MobileOrWear(capabilities: set<string>)
  {
    MOBILE_CAPABILITY in capabilities || WEAR_CAPABILITY in capabilities
  }

  predicate MobileAndCamera(capabilities: set<string>)
  {
    MOBILE_CAPABILITY in capabilities && CAMERA_CAPABILITY in capabilities
  }

  /** The nodes onQueryOtherDevicesClicked shows, given the discovery answer. */
  function OtherDevices(discovered: map<string, set<Node>>): (r: set<Node>)
    ensures forall n :: n in r <==>
      Related(discovered, MOBILE_CAPABILITY, n) || Related(discovered, WEAR_CAPABILITY, n)
  {
    var byNode := Invert(discovered);
    var r := KeysWhere(byNode, MobileOrWear);
    assert forall n :: n in r <==> n in byNode && MobileOrWear(byNode[n]);
    r
  }

  /** The nodes onQueryMobileCameraClicked shows, given the discovery answer. */
  function MobileCameraNodes(discovered: map<string, set<Node>>): (r: set<Node>)
    ensures forall n :: n in r <==>
      Related(discovered, MOBILE_CAPABILITY, n) && Related(discovered, CAMERA_CAPABILITY, n)
  {
    var byNode := Invert(discovered);
    var r := KeysWhere(byNode, MobileAndCamera);
    assert forall n :: n in r <==> n in byNode && MobileAndCamera(byNode[n]);
    r
  }

  /** Every phone with a camera is also one of the "other devices". */
  lemma MobileCameraWithinOtherDevices(discovered: map<string, set<Node>>)
    ensures MobileCameraNodes(discovered) <= OtherDevices(discovered)
    ensures MobileCameraNodes(discovered) <= Covered(discovered)
  {
  }

  /** `joinToString(sep)`: the parts in order, with `sep` between neighbours. */
  function Join(parts: seq<string>, sep: string): (r: string)
    ensures |parts| == 1 ==> r == parts[0]
    ensures |parts| >= 1 ==> parts[0] <= r
  {
    if parts == [] then ""
    else if |parts| == 1 then parts[0]
    else parts[0] + sep + Join(parts[1..], sep)
  }

  function TotalLength(parts: seq<string>): nat
  {
    if parts == [] then 0 else |parts[0]| + TotalLength(parts[1..])
  }

  /** The joined text is all the parts plus one separator between each pair of neighbours. */
  lemma {:induction false} JoinLength(parts: seq<string>, sep: string)
    requires parts != []
    ensures |Join(parts, sep)| == TotalLength(parts) + (|parts| - 1) * |sep|
  {
    if |parts| > 1 {
      JoinLength(parts[1..], sep);
    }
  }

  /** Appending a part appends the separator and that part. */
  lemma {:induction false} JoinAppend(parts: seq<string>, last: string, sep: string)
    requires parts != []
    ensures Join(parts + [last], sep) == Join(parts, sep) + sep + last
  {
    if |parts| == 1 {
      assert (parts + [last])[1..] == [last];
    } else {
      assert (parts + [last])[1..] == parts[1..] + [last];
      JoinAppend(parts[1..], last, sep);
    }
  }

  /**
   * An order in which a Kotlin `Set` hands out its elements. The platform's order is
   * not known; any fixed enumeration of the elements stands for it.
   */
  ghost function Enumeration(s: set<Node>): (r: seq<Node>)
    ensures |r| == |s|
    ensures forall n :: n in r <==> n in s
    ensures forall i, j :: 0 <= i < j < |r| ==> r[i] != r[j]
    decreases |s|
  {
    if s == {} then []
    else
      var n :| n in s;
      [n] + Enumeration(s - {n})
  }

  function DisplayNames(nodes: seq<Node>): (r: seq<string>)
    ensures |r| == |nodes|
    ensures forall i :: 0 <= i < |nodes| ==> r[i] == nodes[i].displayName
  {
    if nodes == [] then [] else [nodes[0].displayName] + DisplayNames(nodes[1..])
  }

  /** The two messages displayNodes can show; the resource texts are not modelled. */
  datatype Toast = NoDevice | ConnectedNodes(names: string)

  /**
   * displayNodes: the "no device" message for an empty set, otherwise the
   * "connected nodes" message over the display names joined by ", ".
   */
  ghost function DisplayNodes(nodes: set<Node>): (t: Toast)
    ensures t == NoDevice <==> nodes == {}
    ensures t.ConnectedNodes? ==>
      var order := Enumeration(nodes);
      order != [] && t.names == Join(DisplayNames(order), NAME_SEPARATOR)
  {
    if nodes == {} then NoDevice
    else ConnectedNodes(Join(DisplayNames(Enumeration(nodes)), NAME_SEPARATOR))
  }

  /**
   * onQueryOtherDevicesClicked: `None` when discovery failed (the exception is caught and
   * logged and nothing is shown), otherwise the message displayNodes shows.
   */
  ghost function OnQueryOtherDevicesClicked(discovery: Option<map<string, set<Node>>>): (shown: Option<Toast>)
    ensures shown.None? <==> discovery.None?
    ensures discovery.Some? ==>
      (shown.value == NoDevice <==>
        forall n :: !Related(discovery.value, MOBILE_CAPABILITY, n) && !Related(discovery.value, WEAR_CAPABILITY, n))
    ensures discovery.Some? ==> shown.value == DisplayNodes(OtherDevices(discovery.value))
  {
    match discovery
    case None => None
    case Some(discovered) => Some(DisplayNodes(OtherDevices(discovered)))
  }

  /** onQueryMobileCameraClicked, with the same failure handling. */
  ghost function OnQueryMobileCameraClicked(discovery: Option<map<string, set<Node>>>): (shown: Option<Toast>)
    ensures shown.None? <==> discovery.None?
    ensures discovery.Some? ==>
      (shown.value == NoDevice <==>
        forall n :: !(Related(discovery.value, MOBILE_CAPABILITY, n) && Related(discovery.value, CAMERA_CAPABILITY, n)))
    ensures discovery.Some? ==> shown.value == DisplayNodes(MobileCameraNodes(discovery.value))
  {
    match discovery
    case None => None
    case Some(discovered) => Some(DisplayNodes(MobileCameraNodes(discovered)))
  }

  /** When the camera query finds a phone, so does the other-devices query. */
  lemma CameraFoundImpliesOtherFound(discovery: Option<map<string, set<Node>>>)
    requires OnQueryMobileCameraClicked(discovery).Some?
    requires OnQueryMobileCameraClicked(discovery).value.ConnectedNodes?
    ensures OnQueryOtherDevicesClicked(discovery).Some?
    ensures OnQueryOtherDevicesClicked(discovery).value.ConnectedNodes?
  {
    var m := discovery.value;
    var n :| n in MobileCameraNodes(m);
    assert n in OtherDevices(m);
  }

  /**
   * onSendJsonStrClicked: when the lookup of reachable "mobile" nodes succeeds, one
   * `/start-activity` message carrying `json` to each of them, issued in the set's
   * iteration order `order`; when the lookup fails, nothing is sent.
   */
  method OnSendJsonStrClicked(lookup: Option<set<Node>>, json: Bytes)
    returns (sends: seq<Message>, ghost order: seq<Node>)
    ensures lookup.None? ==> sends == [] && order == []
    ensures lookup.Some? ==> |sends| == |lookup.value|
    ensures forall m :: m in sends ==> m.path == START_ACTIVITY_PATH && m.data == json
    ensures lookup.Some? ==> forall n :: n in lookup.value ==> Message(n.id, START_ACTIVITY_PATH, json) in sends
    ensures lookup.Some? ==> forall m :: m in sends ==> exists n :: n in lookup.value && m.nodeId == n.id
    ensures lookup.Some? ==>
      && |order| == |lookup.value| == |sends|
      && (forall n :: n in order <==> n in lookup.value)
      && (forall i, j :: 0 <= i < j < |order| ==> order[i] != order[j])
      && (forall i :: 0 <= i < |sends| ==> sends[i] == Message(order[i].id, START_ACTIVITY_PATH, json))
  {
    sends, order := [], [];
    if lookup.None? {
      return;
    }
    var rest := lookup.value;
    while rest != {}
      invariant rest <= lookup.value
      invariant |order| + |rest| == |lookup.value| && |sends| == |order|
      invariant forall n :: n in order <==> n in lookup.value && n !in rest
      invariant forall i, j :: 0 <= i < j < |order| ==> order[i] != order[j]
      invariant forall i :: 0 <= i < |sends| ==> sends[i] == Message(order[i].id, START_ACTIVITY_PATH, json)
      decreases |rest|
    {
      var node :| node in rest;
      sends := sends + [Message(node.id, START_ACTIVITY_PATH, json)];
      order := order + [node];
      rest := rest - {node};
    }
    forall n | n in lookup.value ensures Message(n.id, START_ACTIVITY_PATH, json) in sends {
      var i :| 0 <= i < |order| && order[i] == n;
      assert sends[i] == Message(n.id, START_ACTIVITY_PATH, json);
    }
    forall m | m in sends ensures exists n :: n in lookup.value && m.nodeId == n.id {
      var i :| 0 <= i < |sends| && sends[i] == m;
      assert order[i] in lookup.value;
    }
  }
}
