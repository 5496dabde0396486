/**
 * Value types of the Wear OS Data Layer that both applications exchange, reduced to the
 * parts the two listener services and the watch activity read, and the UTF-8 encoding that
 * Kotlin's `String.toByteArray()` applies to every text payload.
 */
module DataLayer {

  datatype Option<T> = None | Some(value: T)

  newtype byte = x: int | 0 <= x < 256

  type Bytes = seq<byte>

  /** A peer device: identifier (the address of a send) and the name shown to the user. */
  datatype Node = Node(id: string, displayName: string)

  /** One call of `MessageClient.sendMessage(nodeId, path, data)`. */
  datatype Message = Message(nodeId: string, path: string, data: Bytes)

  /**
   * The `android.net.Uri` of a data item: its path and host as the platform parsed them
   * (either may be absent) and its string form.
   */
  datatype Uri = Uri(path: Option<string>, host: Option<string>, text: string)

  /** The two kinds of data event the platform delivers; the listeners never look at it. */
  datatype DataEventType = Changed | Deleted

  datatype DataEvent = DataEvent(eventType: DataEventType, uri: Uri)

  /** An inbound direct message: who sent it, on which path, with which bytes. */
  datatype MessageEvent = MessageEvent(sourceNodeId: string, path: string, data: Bytes)

  /** Number of bytes of the UTF-8 sequence that starts with lead byte `b` (0 if `b` cannot lead). */
  function SequenceLength(b: byte): nat
  {
    if b < 0x80 then 1
    else if b < 0xC0 then 0
    else if b < 0xE0 then 2
    else if b < 0xF0 then 3
    else if b < 0xF8 then 4
    else 0
  }

  predicate IsContinuation(b: byte)
  {
    0x80 <= b < 0xC0
  }

  /** UTF-8 encoding of one Unicode scalar value. */
  function EncodeChar(c: char): (r: Bytes)
    ensures 1 <= |r| <= 4
    ensures SequenceLength(r[0]) == |r|
    ensures forall i :: 1 <= i < |r| ==> IsContinuation(r[i])
    ensures |r| == 1 <==> c as int < 0x80
  {
    var x := c as int;
    if x < 0x80 then [x as byte]
    else if x < 0x800 then [(0xC0 + x / 64) as byte, (0x80 + x % 64) as byte]
    else if x < 0x10000 then
      [(0xE0 + x / 4096) as byte, (0x80 + (x / 64) % 64) as byte, (0x80 + x % 64) as byte]
    else
      [(0xF0 + x / 262144) as byte, (0x80 + (x / 4096) % 64) as byte,
       (0x80 + (x / 64) % 64) as byte, (0x80 + x % 64) as byte]
  }

  /** The bytes of `String.toByteArray()`: the UTF-8 encoding, character by character. */
  function Utf8(s: string): (r: Bytes)
    ensures |s| <= |r| <= 4 * |s|
  {
    if s == [] then [] else EncodeChar(s[0]) + Utf8(s[1..])
  }

  /** Scalar value carried by a well-formed sequence, reading the bits the encoder wrote. */
  function DecodeValue(b: Bytes): int
    requires 1 <= |b| <= 4
  {
    var k := |b|;
    if k == 1 then b[0] as int
    else if k == 2 then (b[0] as int - 0xC0) * 64 + (b[1] as int - 0x80)
    else if k == 3 then
      (b[0] as int - 0xE0) * 4096 + (b[1] as int - 0x80) * 64 + (b[2] as int - 0x80)
    else
      (b[0] as int - 0xF0) * 262144 + (b[1] as int - 0x80) * 4096
        + (b[2] as int - 0x80) * 64 + (b[3] as int - 0x80)
  }

  predicate IsScalar(x: int)
  {
    (0 <= x < 0xD800) || (0xE000 <= x < 0x11_0000)
  }

  /** Smallest scalar value a sequence of `k` bytes may carry (shorter forms are overlong). */
  function MinValue(k: nat): int
  {
    if k <= 1 then 0 else if k == 2 then 0x80 else if k == 3 then 0x800 else 0x10000
  }

  /**
   * `b` is one well-formed UTF-8 sequence: its lead byte announces its length, the rest are
   * continuation bytes, and it carries a scalar value in the shortest form.
   */
  predicate WellFormedSequence(b: Bytes)
  {
    && 1 <= |b| <= 4
    && SequenceLength(b[0]) == |b|
    && (forall i :: 1 <= i < |b| ==> IsContinuation(b[i]))
    && MinValue(|b|) <= DecodeValue(b)
    && IsScalar(DecodeValue(b))
  }

  /** Decodes a whole byte string, or fails on a malformed one. */
  function DecodeUtf8(b: Bytes): (r: Option<string>)
    decreases |b|
  {
    if b == [] then Some([])
    else
      var k := SequenceLength(b[0]);
      if k == 0 || k > |b| || !WellFormedSequence(b[..k]) then None
      else
        var x := DecodeValue(b[..k]);
        match DecodeUtf8(b[k..])
          case None => None
          case Some(rest) => Some([x as char] + rest)
  }

  lemma DecodeValueOfEncodeChar(c: char)
    ensures DecodeValue(EncodeChar(c)) == c as int
  {
    var x := c as int;
    if x < 0x80 {
    } else if x < 0x800 {
      assert x == (x / 64) * 64 + x % 64;
    } else if x < 0x10000 {
      assert x / 64 == (x / 4096) * 64 + (x / 64) % 64;
      assert x == (x / 64) * 64 + x % 64;
    } else {
      assert x / 4096 == (x / 262144) * 64 + (x / 4096) % 64;
      assert x / 64 == (x / 4096) * 64 + (x / 64) % 64;
      assert x == (x / 64) * 64 + x % 64;
    }
  }

  /** A well-formed sequence is the encoding of the value it carries: there is no other form. */
  lemma EncodeCharOfDecodeValue(b: Bytes)
    requires WellFormedSequence(b)
    ensures EncodeChar(DecodeValue(b) as char) == b
  {
    var x := DecodeValue(b);
    var e := EncodeChar(x as char);
    if |b| == 2 {
      assert x / 64 == b[0] as int - 0xC0 && x % 64 == b[1] as int - 0x80;
    } else if |b| == 3 {
      var y := (b[0] as int - 0xE0) * 64 + (b[1] as int - 0x80);
      assert x == y * 64 + (b[2] as int - 0x80);
      assert x / 64 == y && x % 64 == b[2] as int - 0x80;
      assert y / 64 == b[0] as int - 0xE0 && y % 64 == b[1] as int - 0x80;
      assert x / 4096 == y / 64;
    } else if |b| == 4 {
      var z := (b[0] as int - 0xF0) * 64 + (b[1] as int - 0x80);
      var y := z * 64 + (b[2] as int - 0x80);
      assert x == y * 64 + (b[3] as int - 0x80);
      assert x / 64 == y && x % 64 == b[3] as int - 0x80;
      assert y / 64 == z && y % 64 == b[2] as int - 0x80;
      assert z / 64 == b[0] as int - 0xF0 && z % 64 == b[1] as int - 0x80;
      assert x / 4096 == y / 64;
      assert x / 262144 == z / 64;
    }
    assert e == b;
  }

  /** Decoding undoes `String.toByteArray()`: no two strings share a payload. */
  lemma {:induction false} DecodeUtf8RoundTrip(s: string)
    ensures DecodeUtf8(Utf8(s)) == Some(s)
  {
    if s != [] {
      var e := EncodeChar(s[0]);
      var b := Utf8(s);
      assert b == e + Utf8(s[1..]);
      assert b[0] == e[0];
      assert b[..|e|] == e;
      assert b[|e|..] == Utf8(s[1..]);
      DecodeValueOfEncodeChar(s[0]);
      DecodeUtf8RoundTrip(s[1..]);
      assert [s[0]] + s[1..] == s;
    }
  }

  /** The decoder accepts only what `toByteArray()` produces: a decoded payload is canonical. */
  lemma {:induction false} DecodeUtf8Canonical(b: Bytes)
    requires DecodeUtf8(b).Some?
    ensures Utf8(DecodeUtf8(b).value) == b
    decreases |b|
  {
    if b != [] {
      var k := SequenceLength(b[0]);
      var s := DecodeUtf8(b).value;
      var x := DecodeValue(b[..k]);
      EncodeCharOfDecodeValue(b[..k]);
      DecodeUtf8Canonical(b[k..]);
      assert s[0] == x as char && s[1..] == DecodeUtf8(b[k..]).value;
      assert b == b[..k] + b[k..];
    }
  }

  /** A lead byte that announces a sequence is refused when a non-continuation byte follows it. */
  lemma DecodeUtf8RejectsMissingContinuation(b: Bytes, i: nat)
    requires |b| >= 1 && 2 <= SequenceLength(b[0]) <= |b|
    requires 1 <= i < SequenceLength(b[0]) && !IsContinuation(b[i])
    ensures DecodeUtf8(b) == None
  {
  }

  /** A sequence carrying a value that fits in fewer bytes (an overlong form) is refused. */
  lemma DecodeUtf8RejectsOverlong(b: Bytes)
    requires |b| >= 1 && 2 <= SequenceLength(b[0]) <= |b|
    requires DecodeValue(b[..SequenceLength(b[0])]) < MinValue(SequenceLength(b[0]))
    ensures DecodeUtf8(b) == None
  {
  }

  lemma Utf8Injective(s: string, t: string)
    ensures Utf8(s) == Utf8(t) <==> s == t
  {
    if Utf8(s) == Utf8(t) {
      DecodeUtf8RoundTrip(s);
      DecodeUtf8RoundTrip(t);
    }
  }
}
