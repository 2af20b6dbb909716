/** The onion mix-net: layers sealed under each relay's key, peeled one relay at a time. */
module MixNet {
  import opened Collections
  import opened ModArith
  import opened Bytes

  datatype MixNode = MixNode(id: bytes, key: bytes)

  datatype PeeledLayer = PeeledLayer(nextHop: bytes, delay: nat, inner: bytes, isFinal: bool)

  const TAG_BYTES := 16
  const ID_BYTES := 32
  const HEADER_BYTES := 36
  const DELAY_BOUND := 0x1_0000_0000

  function ReceiverMarker(): bytes {
    [255, 255, 255, 255] + Ascii("RECEIVER")
  }

  // ---------- one layer ----------

  function XorByte(a: byte, b: byte): byte {
    EightBits();
    XorBits(a, b, 8)
  }

  lemma EightBits()
    ensures Pow(2, 8) == 256
  {
    assert Pow(2, 4) == 16;
    PowAdd(2, 4, 4);
  }

  function Xor(a: bytes, b: bytes): (r: bytes)
    requires |a| == |b|
    ensures |r| == |a|
  {
    seq(|a|, i requires 0 <= i < |a| => XorByte(a[i], b[i]))
  }

  function KeyBlock(h: Hash, key: bytes, i: nat): bytes {
    h(Ascii("penumbra-mix-prg|") + key + ToBytes(i, 4))
  }

  function KeyBlocks(h: Hash, key: bytes, n: nat): (r: bytes)
    ensures Digests(h) ==> |r| == 32 * n
  {
    if n == 0 then [] else KeyBlocks(h, key, n - 1) + KeyBlock(h, key, n - 1)
  }

  /** The keystream: hash blocks in counter mode, cut to the length asked for. */
  function Keystream(h: Hash, key: bytes, length: nat): (r: bytes)
    requires Digests(h)
    ensures |r| == length
  {
    KeyBlocks(h, key, (length + 31) / 32)[..length]
  }

  method DeriveKeystream(h: Hash, key: bytes, length: nat) returns (r: bytes)
    requires Digests(h)
    ensures r == Keystream(h, key, length)
  {
    var blocks := (length + 31) / 32;
    var out: bytes := [];
    for i := 0 to blocks
      invariant out == KeyBlocks(h, key, i)
    {
      out := out + KeyBlock(h, key, i);
    }
    return out[..length];
  }

  function Tag(h: Hash, key: bytes, cipher: bytes): (r: bytes)
    requires Digests(h)
    ensures |r| == TAG_BYTES
  {
    h(Ascii("penumbra-mix-mac|") + key + cipher)[..TAG_BYTES]
  }

  function Seal(h: Hash, key: bytes, plaintext: bytes): (r: bytes)
    requires Digests(h)
    ensures |r| == |plaintext| + TAG_BYTES
  {
    var cipher := Xor(plaintext, Keystream(h, key, |plaintext|));
    cipher + Tag(h, key, cipher)
  }

  /** None is the error of a short blob or a tag that does not match. */
  function Open(h: Hash, key: bytes, blob: bytes): Option<bytes>
    requires Digests(h)
  {
    if |blob| < TAG_BYTES then None
    else
      var cipher, tag := blob[..|blob| - TAG_BYTES], blob[|blob| - TAG_BYTES..];
      if tag != Tag(h, key, cipher) then None
      else Some(Xor(cipher, Keystream(h, key, |cipher|)))
  }

  function Zeros(n: nat): (r: bytes)
    ensures |r| == n
  {
    seq(n, i => 0)
  }

  /** rstrip(b"\x00") */
  function Strip(id: bytes): bytes {
    if id != [] && id[|id| - 1] == 0 then Strip(id[..|id| - 1]) else id
  }

  /** None is the error of a long id or of a delay that does not fit in four bytes. */
  function EncodeHeader(nextHop: bytes, delay: int): (r: Option<bytes>)
    ensures r.Some? ==> |r.value| == HEADER_BYTES
    ensures r.Some? <==> |nextHop| <= ID_BYTES && 0 <= delay < DELAY_BOUND
  {
    if |nextHop| > ID_BYTES || !(0 <= delay < DELAY_BOUND) then None
    else Some(nextHop + Zeros(ID_BYTES - |nextHop|) + ToBytes(delay, 4))
  }

  function DecodeHeader(blob: bytes): Option<(bytes, nat, bytes)> {
    if |blob| < HEADER_BYTES then None
    else Some((Strip(blob[..ID_BYTES]), FromBytes(blob[ID_BYTES..HEADER_BYTES]), blob[HEADER_BYTES..]))
  }

  function Peel(h: Hash, node: MixNode, blob: bytes): Option<PeeledLayer>
    requires Digests(h)
  {
    var plain := Open(h, node.key, blob);
    if plain.None? then None
    else
      var header := DecodeHeader(plain.value);
      if header.None? then None
      else Some(PeeledLayer(header.value.0, header.value.1, header.value.2, header.value.0 == ReceiverMarker()))
  }

  // ---------- the onion ----------

  /** One layer over an inner blob. */
  function Layer(h: Hash, key: bytes, nextHop: bytes, delay: int, inner: bytes): Option<bytes>
    requires Digests(h)
  {
    var header := EncodeHeader(nextHop, delay);
    if header.None? then None else Some(Seal(h, key, header.value + inner))
  }

  /** The onion as relay i receives it. */
  function OnionFrom(h: Hash, payload: bytes, route: seq<MixNode>, delays: seq<int>, i: nat): Option<bytes>
    requires Digests(h) && i < |route| == |delays|
    decreases |route| - i
  {
    if i == |route| - 1 then Layer(h, route[i].key, ReceiverMarker(), 0, payload)
    else
      var inner := OnionFrom(h, payload, route, delays, i + 1);
      if inner.None? then None else Layer(h, route[i].key, route[i + 1].id, delays[i + 1], inner.value)
  }

  /** None is the error of an empty route, of delays that do not match it, or of a header. */
  function WrapSpec(h: Hash, payload: bytes, route: seq<MixNode>, delays: seq<int>): Option<bytes>
    requires Digests(h)
  {
    if route == [] || |delays| != |route| then None else OnionFrom(h, payload, route, delays, 0)
  }

  method Wrap(h: Hash, payload: bytes, route: seq<MixNode>, delays: seq<int>) returns (r: Option<bytes>)
    requires Digests(h)
    ensures r == WrapSpec(h, payload, route, delays)
  {
    if route == [] || |delays| != |route| { return None; }
    var i := |route| - 1;
    MarkerStrips();
    var inner := Layer(h, route[i].key, ReceiverMarker(), 0, payload);
    while i > 0
      invariant 0 <= i < |route|
      invariant inner.Some? && inner == OnionFrom(h, payload, route, delays, i)
    {
      i := i - 1;
      inner := Layer(h, route[i].key, route[i + 1].id, delays[i + 1], inner.value);
      if inner.None? {
        NoOnionOutside(h, payload, route, delays, i);
        return None;
      }
    }
    return inner;
  }

  /** A layer that cannot be built leaves nothing to wrap. */
  lemma {:induction false} NoOnionOutside(h: Hash, payload: bytes, route: seq<MixNode>, delays: seq<int>, i: nat)
    requires Digests(h) && i < |route| == |delays| && OnionFrom(h, payload, route, delays, i).None?
    ensures OnionFrom(h, payload, route, delays, 0).None?
  {
    if i > 0 {
      NoOnionOutside(h, payload, route, delays, i - 1);
    }
  }

  /** Deliver the payload with the delays met on the way, or fail. */
  function TravelFrom(h: Hash, route: seq<MixNode>, blob: bytes, i: nat): Option<(bytes, seq<nat>)>
    requires Digests(h) && i <= |route|
    decreases |route| - i
  {
    if i == |route| then None
    else
      var layer := Peel(h, route[i], blob);
      if layer.None? then None
      else if layer.value.isFinal then
        if i == |route| - 1 then Some((layer.value.inner, [layer.value.delay])) else None
      else
        var rest := TravelFrom(h, route, layer.value.inner, i + 1);
        if rest.None? then None else Some((rest.value.0, [layer.value.delay] + rest.value.1))
  }

  function RouteSpec(h: Hash, payload: bytes, route: seq<MixNode>, delays: seq<int>): Option<(bytes, seq<nat>)>
    requires Digests(h)
  {
    var onion := WrapSpec(h, payload, route, delays);
    if onion.None? then None else TravelFrom(h, route, onion.value, 0)
  }

  ghost function Prepend(met: seq<nat>, rest: Option<(bytes, seq<nat>)>): Option<(bytes, seq<nat>)> {
    if rest.None? then None else Some((rest.value.0, met + rest.value.1))
  }

  method RouteMessage(
      h: Hash, payload: bytes, route: seq<MixNode>, delays: seq<int>)
    returns (r: Option<(bytes, seq<nat>)>)
    requires Digests(h)
    ensures r == RouteSpec(h, payload, route, delays)
  {
    var onion := Wrap(h, payload, route, delays);
    if onion.None? { return None; }
    var blob := onion.value;
    var met: seq<nat> := [];
    assert [] + TravelDelays(h, route, blob) == TravelDelays(h, route, blob);
    for i := 0 to |route|
      invariant Prepend(met, TravelFrom(h, route, blob, i)) == RouteSpec(h, payload, route, delays)
    {
      var layer := Peel(h, route[i], blob);
      if layer.None? { return None; }
      ghost var rest := TravelFrom(h, route, layer.value.inner, i + 1);
      if rest.Some? && !layer.value.isFinal {
        assert met + ([layer.value.delay] + rest.value.1) == met + [layer.value.delay] + rest.value.1;
      }
      met := met + [layer.value.delay];
      if layer.value.isFinal {
        if i != |route| - 1 { return None; }
        return Some((layer.value.inner, met));
      }
      blob := layer.value.inner;
    }
    return None;
  }

  ghost function TravelDelays(h: Hash, route: seq<MixNode>, blob: bytes): seq<nat>
    requires Digests(h)
  {
    var r := TravelFrom(h, route, blob, 0);
    if r.None? then [] else r.value.1
  }

  // ---------- one layer undoes the other ----------

  lemma XorTwice(a: bytes, b: bytes)
    requires |a| == |b|
    ensures Xor(Xor(a, b), b) == a
  {
    EightBits();
    forall i | 0 <= i < |a| ensures XorByte(XorByte(a[i], b[i]), b[i]) == a[i] {
      XorBitsTwice(a[i], b[i], 8);
    }
  }

  /** Opening accepts exactly the sealed blobs and gives back what was sealed. */
  lemma OpenIffSealed(h: Hash, key: bytes, blob: bytes, plaintext: bytes)
    requires Digests(h)
    ensures Open(h, key, blob) == Some(plaintext) <==> blob == Seal(h, key, plaintext)
  {
    var stream := Keystream(h, key, |plaintext|);
    var cipher := Xor(plaintext, stream);
    XorTwice(plaintext, stream);
    if blob == Seal(h, key, plaintext) {
      assert blob[..|blob| - TAG_BYTES] == cipher && blob[|blob| - TAG_BYTES..] == Tag(h, key, cipher);
    }
    if Open(h, key, blob) == Some(plaintext) {
      var head := blob[..|blob| - TAG_BYTES];
      XorTwice(head, stream);
      assert blob == head + blob[|blob| - TAG_BYTES..];
    }
  }

  lemma {:induction false} StripPadded(id: bytes, n: nat)
    ensures Strip(id + Zeros(n)) == Strip(id)
  {
    if n == 0 {
      assert id + Zeros(0) == id;
    } else {
      assert (id + Zeros(n))[..|id| + n - 1] == id + Zeros(n - 1);
      StripPadded(id, n - 1);
    }
  }

  /** A header survives, up to the zero bytes at the end of the id. */
  lemma HeaderRoundTrip(nextHop: bytes, delay: int, inner: bytes)
    requires |nextHop| <= ID_BYTES && 0 <= delay < DELAY_BOUND
    ensures DecodeHeader(EncodeHeader(nextHop, delay).value + inner) == Some((Strip(nextHop), delay, inner))
  {
    hide Strip, FromBytes, ToBytes, Zeros, Pow, DecodeHeader;
    var padded := nextHop + Zeros(ID_BYTES - |nextHop|);
    StripPadded(nextHop, ID_BYTES - |nextHop|);
    DelayRoundTrip(delay);
    DecodeParts(padded, ToBytes(delay, 4), inner);
    assert EncodeHeader(nextHop, delay).value == padded + ToBytes(delay, 4);
  }

  lemma DelayRoundTrip(delay: nat)
    requires delay < DELAY_BOUND
    ensures FromBytes(ToBytes(delay, 4)) == delay
  {
    FourBytes();
    ToBytesRoundTrip(delay, 4);
  }

  lemma DecodeParts(id: bytes, delay: bytes, inner: bytes)
    requires |id| == ID_BYTES && |delay| == 4
    ensures DecodeHeader(id + delay + inner) == Some((Strip(id), FromBytes(delay), inner))
  {
    hide Strip, FromBytes;
    var blob := id + delay + inner;
    assert blob[..ID_BYTES] == id && blob[ID_BYTES..HEADER_BYTES] == delay && blob[HEADER_BYTES..] == inner;
  }

  lemma FourBytes()
    ensures Pow(256, 4) == DELAY_BOUND
  {
    assert Pow(256, 2) == 0x1_0000;
    PowAdd(256, 2, 2);
  }

  lemma PeelLayer(h: Hash, node: MixNode, nextHop: bytes, delay: int, inner: bytes)
    requires Digests(h) && |nextHop| <= ID_BYTES && 0 <= delay < DELAY_BOUND
    ensures var layer := Layer(h, node.key, nextHop, delay, inner);
      && layer.Some? && |layer.value| == |inner| + HEADER_BYTES + TAG_BYTES
      && Peel(h, node, layer.value)
        == Some(PeeledLayer(Strip(nextHop), delay, inner, Strip(nextHop) == ReceiverMarker()))
  {
    var plain := EncodeHeader(nextHop, delay).value + inner;
    OpenIffSealed(h, node.key, Seal(h, node.key, plain), plain);
    HeaderRoundTrip(nextHop, delay, inner);
  }

  // ---------- whole routes ----------

  /** Every relay after the first can be named in a header. */
  predicate Encodable(route: seq<MixNode>, delays: seq<int>)
    requires |route| == |delays|
  {
    forall i :: 1 <= i < |route| ==> |route[i].id| <= ID_BYTES && 0 <= delays[i] < DELAY_BOUND
  }

  lemma MarkerStrips()
    ensures |ReceiverMarker()| == 12 && Strip(ReceiverMarker()) == ReceiverMarker()
  {
    assert ReceiverMarker()[11] == Ascii("RECEIVER")[7] == 'R' as int;
  }

  /** The onion from relay i on exists, costs 52 bytes a relay, and opens to the next relay, its
      delay and the onion it is to receive, or at the last relay to the payload. */
  lemma {:induction false} OnionPeels(h: Hash, payload: bytes, route: seq<MixNode>, delays: seq<int>, i: nat)
    requires Digests(h) && i < |route| == |delays| && Encodable(route, delays)
    ensures var onion := OnionFrom(h, payload, route, delays, i);
      && onion.Some? && |onion.value| == |payload| + 52 * (|route| - i)
      && if i == |route| - 1 then
           Peel(h, route[i], onion.value) == Some(PeeledLayer(ReceiverMarker(), 0, payload, true))
         else
           && OnionFrom(h, payload, route, delays, i + 1).Some?
           && Peel(h, route[i], onion.value)
           == Some(PeeledLayer(Strip(route[i + 1].id), delays[i + 1], OnionFrom(h, payload, route, delays, i + 1).value,
                               Strip(route[i + 1].id) == ReceiverMarker()))
    decreases |route| - i
  {
    MarkerStrips();
    if i == |route| - 1 {
      PeelLayer(h, route[i], ReceiverMarker(), 0, payload);
    } else {
      OnionPeels(h, payload, route, delays, i + 1);
      PeelLayer(h, route[i], route[i + 1].id, delays[i + 1], OnionFrom(h, payload, route, delays, i + 1).value);
    }
  }

  /** No relay from i on has an id that reads as the receiver. */
  predicate Unmistakable(route: seq<MixNode>, i: nat) {
    forall j :: i <= j < |route| ==> Strip(route[j].id) != ReceiverMarker()
  }

  /** The delays as they are met: each relay learns the delay of the next one, the last learns zero. */
  function Met(delays: seq<int>, i: nat): seq<int>
    requires i < |delays|
  {
    delays[i + 1..] + [0]
  }

  /** What the travel from relay i on should bring. */
  function Expected(payload: bytes, route: seq<MixNode>, delays: seq<int>, i: nat): Option<(bytes, seq<int>)>
    requires i < |route| == |delays|
  {
    if Unmistakable(route, i + 1) then Some((payload, Met(delays, i))) else None
  }

  lemma ExpectedStep(payload: bytes, route: seq<MixNode>, delays: seq<int>, i: nat)
    requires i < |route| == |delays|
    ensures i == |route| - 1 ==> Expected(payload, route, delays, i) == Some((payload, [0]))
    ensures i < |route| - 1 ==>
      var rest := Expected(payload, route, delays, i + 1);
      Expected(payload, route, delays, i)
      == if Strip(route[i + 1].id) == ReceiverMarker() || rest.None? then None
         else Some((rest.value.0, [delays[i + 1]] + rest.value.1))
  {
    if i < |route| - 1 {
      assert Unmistakable(route, i + 1) <==> Strip(route[i + 1].id) != ReceiverMarker() && Unmistakable(route, i + 2);
      assert Met(delays, i) == [delays[i + 1]] + Met(delays, i + 1);
    } else {
      assert Met(delays, i) == [0];
    }
  }

  lemma {:induction false} TravelDelivers(h: Hash, payload: bytes, route: seq<MixNode>, delays: seq<int>, i: nat)
    requires Digests(h) && i < |route| == |delays| && Encodable(route, delays)
    requires OnionFrom(h, payload, route, delays, i).Some?
    ensures TravelFrom(h, route, OnionFrom(h, payload, route, delays, i).value, i)
      == Expected(payload, route, delays, i)
    decreases |route| - i
  {
    OnionPeels(h, payload, route, delays, i);
    ExpectedStep(payload, route, delays, i);
    hide Peel, OnionFrom, Strip, ReceiverMarker, Encodable, Expected;
    if i < |route| - 1 {
      TravelDelivers(h, payload, route, delays, i + 1);
    }
  }

  /** The message arrives, whole and with the delays in order, exactly when the route is not empty,
      the delays match it, every relay after the first can be encoded, and none of those reads as the
      receiver. */
  lemma MessageDelivered(h: Hash, payload: bytes, route: seq<MixNode>, delays: seq<int>)
    requires Digests(h)
    ensures RouteSpec(h, payload, route, delays).Some?
      <==> (route != [] && |delays| == |route| && Encodable(route, delays) && Unmistakable(route, 1))
    ensures var r := RouteSpec(h, payload, route, delays);
      r.Some? ==> r.value.0 == payload && r.value.1 == delays[1..] + [0]
  {
    if route != [] && |delays| == |route| {
      if Encodable(route, delays) {
        OnionPeels(h, payload, route, delays, 0);
        TravelDelivers(h, payload, route, delays, 0);
      } else {
        var i :| 1 <= i < |route| && !(|route[i].id| <= ID_BYTES && 0 <= delays[i] < DELAY_BOUND);
        assert OnionFrom(h, payload, route, delays, i - 1).None?;
        NoOnionOutside(h, payload, route, delays, i - 1);
      }
    }
  }
}
