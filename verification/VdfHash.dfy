/** The map from a transcript of the delay function to its prime: hash with a counter, make the digest odd,
    and take the first candidate that passes the primality test. */
module VdfHash {
  import opened Collections
  import opened ModArith
  import opened Bytes
  import opened MillerRabin

  const COUNTER_BOUND := 0x1_0000_0000
  const ROUNDS := 20

  /** A transcript that the fixed widths of the encoding hold; any other raises. */
  predicate Encodable(x: nat, y: nat, delay: nat) {
    x < Pow(256, 256) && y < Pow(256, 256) && delay < Pow(256, 8)
  }

  function Digest(h: Hash, x: nat, y: nat, delay: nat, counter: nat): bytes {
    h(Ascii("penumbra-vdf-wesolowski-v1") + ToBytes(x, 256) + ToBytes(y, 256) + ToBytes(delay, 8)
      + ToBytes(counter, 4))
  }

  /** n | 1 */
  function MakeOdd(n: nat): nat {
    if n % 2 == 0 then n + 1 else n
  }

  function Candidate(h: Hash, x: nat, y: nat, delay: nat, counter: nat): nat {
    MakeOdd(FromBytes(Digest(h, x, y, delay, counter)))
  }

  /** The first accepted candidate from a counter on. None is the exception of a counter that outgrows its
      four bytes. */
  ghost function FirstAccepted(h: Hash, x: nat, y: nat, delay: nat, counter: nat): Option<nat>
    decreases COUNTER_BOUND - counter
  {
    if counter >= COUNTER_BOUND then None
    else if ProbablyPrime(Candidate(h, x, y, delay, counter), ROUNDS) then Some(Candidate(h, x, y, delay, counter))
    else FirstAccepted(h, x, y, delay, counter + 1)
  }

  ghost function PrimeOf(h: Hash, x: nat, y: nat, delay: nat): Option<nat> {
    if Encodable(x, y, delay) then FirstAccepted(h, x, y, delay, 0) else None
  }

  method HashToPrime(h: Hash, x: nat, y: nat, delay: nat) returns (r: Option<nat>)
    ensures r == PrimeOf(h, x, y, delay)
  {
    hide Candidate, ProbablyPrime;
    if !Encodable(x, y, delay) { return None; }
    var counter := 0;
    while counter < COUNTER_BOUND
      invariant 0 <= counter <= COUNTER_BOUND
      invariant FirstAccepted(h, x, y, delay, counter) == FirstAccepted(h, x, y, delay, 0)
    {
      var candidate := Candidate(h, x, y, delay, counter);
      var accepted := IsProbablePrime(candidate, ROUNDS);
      if accepted { return Some(candidate); }
      counter := counter + 1;
    }
    return None;
  }

  /** The candidate of this counter is accepted and none before it, from a counter on. */
  ghost predicate FirstFrom(h: Hash, x: nat, y: nat, delay: nat, from: nat, counter: nat) {
    && from <= counter < COUNTER_BOUND && ProbablyPrime(Candidate(h, x, y, delay, counter), ROUNDS)
    && forall k: nat :: from <= k < counter ==> !ProbablyPrime(Candidate(h, x, y, delay, k), ROUNDS)
  }

  lemma {:induction false} SearchMeaning(h: Hash, x: nat, y: nat, delay: nat, from: nat) returns (counter: nat)
    requires from <= COUNTER_BOUND
    ensures var r := FirstAccepted(h, x, y, delay, from);
      if r.Some? then FirstFrom(h, x, y, delay, from, counter) && r.value == Candidate(h, x, y, delay, counter)
      else forall k: nat :: from <= k < COUNTER_BOUND ==> !ProbablyPrime(Candidate(h, x, y, delay, k), ROUNDS)
    decreases COUNTER_BOUND - from
  {
    hide Candidate, ProbablyPrime;
    counter := from;
    if from < COUNTER_BOUND && !ProbablyPrime(Candidate(h, x, y, delay, from), ROUNDS) {
      counter := SearchMeaning(h, x, y, delay, from + 1);
    }
  }

  /** A candidate is odd and its digest, or one more. */
  lemma CandidateMeaning(h: Hash, x: nat, y: nat, delay: nat, counter: nat)
    ensures var c, digest := Candidate(h, x, y, delay, counter), FromBytes(Digest(h, x, y, delay, counter));
      && c % 2 == 1 && digest <= c <= digest + 1
      && (Digests(h) ==> c < Pow(256, 32))
  {
    hide Digest;
    if Digests(h) {
      assert |Digest(h, x, y, delay, counter)| == 32 by { DigestSize(h, x, y, delay, counter); }
      FromBytesBound(Digest(h, x, y, delay, counter));
      EvenPower(31);
    }
  }

  lemma DigestSize(h: Hash, x: nat, y: nat, delay: nat, counter: nat)
    requires Digests(h)
    ensures |Digest(h, x, y, delay, counter)| == 32
  {}

  lemma EvenPower(e: nat)
    ensures Pow(256, e + 1) % 2 == 0
  {
    var m := Pow(256, e);
    assert Pow(256, e + 1) == 2 * (128 * m);
  }

  /** The map gives the first accepted candidate, an odd number of at most 256 bits; it fails exactly on
      transcripts too wide for their encoding, or when every one of 2^32 candidates is rejected. */
  lemma PrimeMeaning(h: Hash, x: nat, y: nat, delay: nat) returns (counter: nat)
    requires Digests(h)
    ensures var r := PrimeOf(h, x, y, delay);
      if r.Some? then
        && Encodable(x, y, delay) && FirstFrom(h, x, y, delay, 0, counter)
        && r.value == Candidate(h, x, y, delay, counter) && r.value % 2 == 1 && 2 <= r.value < Pow(256, 32)
      else
        Encodable(x, y, delay) ==>
          forall k: nat :: k < COUNTER_BOUND ==> !ProbablyPrime(Candidate(h, x, y, delay, k), ROUNDS)
  {
    hide Candidate, Pow;
    counter := SearchMeaning(h, x, y, delay, 0);
    CandidateMeaning(h, x, y, delay, counter);
  }

  // ---------- what the digests depend on ----------

  function DigestInput(x: nat, y: nat, delay: nat, counter: nat): bytes {
    Ascii("penumbra-vdf-wesolowski-v1")
    + (ToBytes(x, 256) + (ToBytes(y, 256) + (ToBytes(delay, 8) + ToBytes(counter, 4))))
  }

  lemma DigestIsInput(h: Hash, x: nat, y: nat, delay: nat, counter: nat)
    ensures Digest(h, x, y, delay, counter) == h(DigestInput(x, y, delay, counter))
  {
    hide Ascii, ToBytes;
    var tag, a, b, c, d :=
      Ascii("penumbra-vdf-wesolowski-v1"), ToBytes(x, 256), ToBytes(y, 256), ToBytes(delay, 8), ToBytes(counter, 4);
    assert tag + a + b + c + d == tag + (a + (b + (c + d)));
  }

  lemma DigestInputInjective(
      x: nat, y: nat, delay: nat, counter: nat, x': nat, y': nat, delay': nat, counter': nat)
    requires Encodable(x, y, delay) && Encodable(x', y', delay') && counter < Pow(256, 4) && counter' < Pow(256, 4)
    requires DigestInput(x, y, delay, counter) == DigestInput(x', y', delay', counter')
    ensures x == x' && y == y' && delay == delay' && counter == counter'
  {
    hide Pow, Ascii, ToBytes;
    var tag := Ascii("penumbra-vdf-wesolowski-v1");
    var d, d' := ToBytes(delay, 8) + ToBytes(counter, 4), ToBytes(delay', 8) + ToBytes(counter', 4);
    ConcatInjective(tag, ToBytes(x, 256) + (ToBytes(y, 256) + d), tag, ToBytes(x', 256) + (ToBytes(y', 256) + d'));
    ConcatInjective(ToBytes(x, 256), ToBytes(y, 256) + d, ToBytes(x', 256), ToBytes(y', 256) + d');
    ConcatInjective(ToBytes(y, 256), d, ToBytes(y', 256), d');
    ConcatInjective(ToBytes(delay, 8), ToBytes(counter, 4), ToBytes(delay', 8), ToBytes(counter', 4));
    ToBytesInjective(x, x', 256);
    ToBytesInjective(y, y', 256);
    ToBytesInjective(delay, delay', 8);
    ToBytesInjective(counter, counter', 4);
  }

  /** A digest of the search belongs to one input, one output, one delay and one counter: the prime is not
      known before they are. */
  lemma DigestBinds(
      h: Hash, x: nat, y: nat, delay: nat, counter: nat, x': nat, y': nat, delay': nat, counter': nat)
    requires Encodable(x, y, delay) && Encodable(x', y', delay') && counter < Pow(256, 4) && counter' < Pow(256, 4)
    requires InjectiveOn(h, {DigestInput(x, y, delay, counter), DigestInput(x', y', delay', counter')})
    ensures Digest(h, x, y, delay, counter) == Digest(h, x', y', delay', counter')
      <==> x == x' && y == y' && delay == delay' && counter == counter'
  {
    hide Pow, DigestInput, Encodable;
    DigestIsInput(h, x, y, delay, counter);
    DigestIsInput(h, x', y', delay', counter');
    if DigestInput(x, y, delay, counter) == DigestInput(x', y', delay', counter') {
      DigestInputInjective(x, y, delay, counter, x', y', delay', counter');
    }
  }
}
