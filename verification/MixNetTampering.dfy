/** What keeps an onion from being altered or opened by another: tags tied to key and ciphertext, and a
    keystream whose blocks are digests of different inputs. */
module MixNetTampering {
  import opened Collections
  import opened ModArith
  import opened Bytes
  import opened MixNet

  // ---------- the keystream ----------

  /** The preimage of a block of the keystream. */
  function BlockInput(key: bytes, i: nat): bytes {
    Ascii("penumbra-mix-prg|") + (key + ToBytes(i, 4))
  }

  /** The preimage of a tag. */
  function TagInput(key: bytes, cipher: bytes): bytes {
    Ascii("penumbra-mix-mac|") + (key + cipher)
  }

  lemma ConcatTails(a: bytes, b: bytes, c: bytes, d: bytes)
    requires |b| == |d| && a + b == c + d
    ensures a == c && b == d
  {
    assert |a + b| == |c + d|;
    ConcatInjective(a, b, c, d);
  }

  lemma BlockInputInjective(key: bytes, i: nat, key': bytes, j: nat)
    requires i < Pow(256, 4) && j < Pow(256, 4) && BlockInput(key, i) == BlockInput(key', j)
    ensures key == key' && i == j
  {
    hide Pow, Ascii, ToBytes;
    var tag := Ascii("penumbra-mix-prg|");
    ConcatInjective(tag, key + ToBytes(i, 4), tag, key' + ToBytes(j, 4));
    ConcatTails(key, ToBytes(i, 4), key', ToBytes(j, 4));
    ToBytesInjective(i, j, 4);
  }

  /** A block of the keystream belongs to one key and one counter. */
  lemma BlocksDiffer(h: Hash, key: bytes, i: nat, key': bytes, j: nat)
    requires i < Pow(256, 4) && j < Pow(256, 4)
    requires InjectiveOn(h, {BlockInput(key, i), BlockInput(key', j)})
    ensures KeyBlock(h, key, i) == KeyBlock(h, key', j) <==> key == key' && i == j
  {
    hide Pow, BlockInput;
    BlockIsInput(h, key, i);
    BlockIsInput(h, key', j);
    if BlockInput(key, i) == BlockInput(key', j) { BlockInputInjective(key, i, key', j); }
  }

  lemma BlockIsInput(h: Hash, key: bytes, i: nat)
    ensures KeyBlock(h, key, i) == h(BlockInput(key, i))
  {
    var tag, end := Ascii("penumbra-mix-prg|"), ToBytes(i, 4);
    assert tag + key + end == tag + (key + end);
  }

  lemma {:induction false} BlockInStream(h: Hash, key: bytes, n: nat, i: nat)
    requires Digests(h) && i < n
    ensures |KeyBlocks(h, key, n)| == 32 * n && KeyBlocks(h, key, n)[32 * i..32 * i + 32] == KeyBlock(h, key, i)
    decreases n
  {
    hide KeyBlock;
    assert |KeyBlock(h, key, n - 1)| == 32 by { BlockIsInput(h, key, n - 1); }
    if i < n - 1 {
      BlockInStream(h, key, n - 1, i);
      assert KeyBlocks(h, key, n)[32 * i..32 * i + 32] == KeyBlocks(h, key, n - 1)[32 * i..32 * i + 32];
    }
  }

  /** The whole blocks of a keystream, one after the other, are the blocks of its key. */
  lemma StreamBlocks(h: Hash, key: bytes, length: nat, i: nat)
    requires Digests(h) && 32 * i + 32 <= length
    ensures Keystream(h, key, length)[32 * i..32 * i + 32] == h(BlockInput(key, i))
  {
    hide KeyBlocks, KeyBlock, BlockInput;
    BlockInStream(h, key, (length + 31) / 32, i);
    BlockIsInput(h, key, i);
  }

  // ---------- the exclusive or ----------

  /** One plaintext under two keystreams gives two ciphertexts. */
  lemma StreamsShow(plain: bytes, stream: bytes, other: bytes)
    requires |plain| == |stream| == |other|
    ensures Xor(plain, stream) == Xor(plain, other) <==> stream == other
  {
    EightBits();
    if Xor(plain, stream) == Xor(plain, other) {
      forall i | 0 <= i < |plain| ensures stream[i] == other[i] {
        assert Xor(plain, stream)[i] == Xor(plain, other)[i];
        XorBitsCancel(plain[i], stream[i], other[i], 8);
      }
    }
  }

  // ---------- tags ----------

  /** The first sixteen bytes of the digests stay apart. */
  ghost predicate TagsApart(h: Hash, inputs: set<bytes>)
    requires Digests(h)
  {
    forall x, y :: x in inputs && y in inputs && h(x)[..TAG_BYTES] == h(y)[..TAG_BYTES] ==> x == y
  }

  lemma TagIsInput(h: Hash, key: bytes, cipher: bytes)
    requires Digests(h)
    ensures Tag(h, key, cipher) == h(TagInput(key, cipher))[..TAG_BYTES]
  {
    var tag := Ascii("penumbra-mix-mac|");
    assert tag + key + cipher == tag + (key + cipher);
  }

  /** Under one key the tag input gives the ciphertext, and for one ciphertext the key. */
  lemma TagInputInjective(key: bytes, cipher: bytes, key': bytes, cipher': bytes)
    requires TagInput(key, cipher) == TagInput(key', cipher') && (key == key' || cipher == cipher')
    ensures key == key' && cipher == cipher'
  {
    hide Ascii;
    var tag := Ascii("penumbra-mix-mac|");
    ConcatInjective(tag, key + cipher, tag, key' + cipher');
    if key == key' { ConcatInjective(key, cipher, key', cipher'); } else { ConcatTails(key, cipher, key', cipher'); }
  }

  /** Which blob carries which ciphertext and tag. */
  lemma OpenedTag(h: Hash, key: bytes, cipher: bytes, tag: bytes)
    requires Digests(h) && |tag| == TAG_BYTES
    ensures Open(h, key, cipher + tag).Some? <==> tag == Tag(h, key, cipher)
  {
    hide Tag, Keystream, Xor;
    var blob := cipher + tag;
    assert blob[..|blob| - TAG_BYTES] == cipher && blob[|blob| - TAG_BYTES..] == tag;
  }

  /** A blob altered in its ciphertext or in its tag alone, whatever else its length, is not opened. */
  lemma TamperedRejected(h: Hash, key: bytes, cipher: bytes, tag: bytes, cipher': bytes, tag': bytes)
    requires Digests(h) && |tag| == |tag'| == TAG_BYTES && Open(h, key, cipher + tag).Some?
    requires TagsApart(h, {TagInput(key, cipher), TagInput(key, cipher')})
    requires cipher == cipher' || tag == tag'
    ensures Open(h, key, cipher' + tag').Some? <==> cipher == cipher' && tag == tag'
  {
    hide Open, Tag, TagInput;
    OpenedTag(h, key, cipher, tag);
    OpenedTag(h, key, cipher', tag');
    TagIsInput(h, key, cipher);
    TagIsInput(h, key, cipher');
    if TagInput(key, cipher) == TagInput(key, cipher') { TagInputInjective(key, cipher, key, cipher'); }
  }

  /** A blob sealed under one key is opened under no other. */
  lemma ImpostorRejected(h: Hash, key: bytes, other: bytes, plaintext: bytes)
    requires Digests(h)
    requires var cipher := Xor(plaintext, Keystream(h, key, |plaintext|));
      TagsApart(h, {TagInput(key, cipher), TagInput(other, cipher)})
    ensures Open(h, other, Seal(h, key, plaintext)).Some? <==> other == key
  {
    hide Open, Tag, TagInput, Keystream, Xor;
    var cipher := Xor(plaintext, Keystream(h, key, |plaintext|));
    OpenedTag(h, other, cipher, Tag(h, key, cipher));
    TagIsInput(h, key, cipher);
    TagIsInput(h, other, cipher);
    if TagInput(key, cipher) == TagInput(other, cipher) { TagInputInjective(key, cipher, other, cipher); }
  }

  /** What relay i receives is sealed under its key, and a relay with another key peels nothing off it. */
  lemma OnlyTheRelayPeels(h: Hash, payload: bytes, route: seq<MixNode>, delays: seq<int>, i: nat, impostor: MixNode)
    returns (plaintext: bytes)
    requires Digests(h) && i < |route| == |delays| && OnionFrom(h, payload, route, delays, i).Some?
    ensures OnionFrom(h, payload, route, delays, i) == Some(Seal(h, route[i].key, plaintext))
    ensures var cipher := Xor(plaintext, Keystream(h, route[i].key, |plaintext|));
      TagsApart(h, {TagInput(route[i].key, cipher), TagInput(impostor.key, cipher)}) ==>
        Peel(h, impostor, OnionFrom(h, payload, route, delays, i).value).None? || impostor.key == route[i].key
  {
    hide Seal, Open, Tag, TagInput, Keystream, Xor, TagsApart;
    if i == |route| - 1 {
      plaintext := EncodeHeader(ReceiverMarker(), 0).value + payload;
    } else {
      plaintext := EncodeHeader(route[i + 1].id, delays[i + 1]).value
        + OnionFrom(h, payload, route, delays, i + 1).value;
    }
    var cipher := Xor(plaintext, Keystream(h, route[i].key, |plaintext|));
    if TagsApart(h, {TagInput(route[i].key, cipher), TagInput(impostor.key, cipher)}) {
      ImpostorRejected(h, route[i].key, impostor.key, plaintext);
    }
  }
}
