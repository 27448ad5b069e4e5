/**
 The B92 variant: both ends draw a basis string over {'Z', 'X'}, exchange
 them, and keep their own measured bit wherever the two strings agree,
 looking only at the first quarter of the symbols; the kept bits are cut
 to 10. Along a relay chain every hop gets its own pair of basis strings.
 */
module B92 {
  import opened Results
  import opened Sifting
  import Crypto
  import Relay

  /** Post-sift truncation length of this variant. */
  const B92KeyLength: nat := 10

  /** `BASIS = ['Z', 'X']`. */
  const Bases: seq<char> := ['Z', 'X']

  predicate IsBasisString(s: string) {
    forall i :: 0 <= i < |s| ==> s[i] == 'Z' || s[i] == 'X'
  }

  /**
   `preparation(key_size)`: one `random.choice(BASIS)` per symbol for each
   side; the draws are the chosen indices into BASIS.
   */
  function Preparation(aliceDraws: seq<Bit>, bobDraws: seq<Bit>): (r: (string, string))
    requires |aliceDraws| == |bobDraws|
    ensures |r.0| == |aliceDraws| && |r.1| == |bobDraws|
    ensures IsBasisString(r.0) && IsBasisString(r.1)
    ensures forall i :: 0 <= i < |aliceDraws| ==> (r.0[i] == 'Z' <==> aliceDraws[i] == 0) && (r.1[i] == 'Z' <==> bobDraws[i] == 0)
  {
    (seq(|aliceDraws|, i requires 0 <= i < |aliceDraws| => Bases[aliceDraws[i]]),
     seq(|bobDraws|, i requires 0 <= i < |bobDraws| => Bases[bobDraws[i]]))
  }

  /** `int(key_size / 4)`: the number of symbols whose bases are compared. */
  function SampleSize(keySize: nat): nat {
    keySize / 4
  }

  /** 1 where the two basis strings agree within the sample. */
  function SampleMask(mine: string, theirs: string, sample: nat): (mask: seq<int>)
    requires sample <= |mine| && sample <= |theirs|
  {
    seq(sample, i requires 0 <= i < sample => if mine[i] == theirs[i] then 1 else 0)
  }

  /** Step i of the sampling walk reads only existing entries. */
  predicate StepInRange(bits: seq<Bit>, mine: string, theirs: string, i: nat) {
    i < |mine| && i < |theirs| && (mine[i] == theirs[i] ==> i < |bits|)
  }

  /**
   `alice_key_string` / `bob_key_string` (the same code with the roles
   swapped): walk the sample, compare the two bases at i and, when they
   agree, take bit i. The walk raises IndexError at the first position
   where a basis string, or on agreement the bit string, is too short.
   */
  function KeyString(bits: seq<Bit>, mine: string, theirs: string, keySize: nat): (r: Result<seq<int>>)
    ensures r.Ok? <==> forall i :: 0 <= i < SampleSize(keySize) ==> StepInRange(bits, mine, theirs, i)
    ensures r.Err? ==> r.error == IndexError
    ensures r.Ok? ==> SampleSize(keySize) <= |mine| && SampleSize(keySize) <= |theirs|
    ensures r.Ok? ==> |r.value| == |Kept(SampleMask(mine, theirs, SampleSize(keySize)))|
    ensures r.Ok? ==> |r.value| <= SampleSize(keySize) && IsBitList(r.value)
    ensures r.Ok? ==> forall j :: 0 <= j < |r.value| ==>
      var i := Kept(SampleMask(mine, theirs, SampleSize(keySize)))[j];
      i < SampleSize(keySize) && mine[i] == theirs[i] && i < |bits| && r.value[j] == bits[i]
  {
    var sample := SampleSize(keySize);
    if sample > |mine| || sample > |theirs| then
      var w := if sample > |mine| then |mine| else |theirs|;
      assert 0 <= w < SampleSize(keySize) && !StepInRange(bits, mine, theirs, w);
      Err(IndexError)
    else
      var mask := SampleMask(mine, theirs, sample);
      if !Fits(bits, mask) then
        var w :| 0 <= w < |mask| && mask[w] != 0 && w >= |bits|;
        assert 0 <= w < SampleSize(keySize) && !StepInRange(bits, mine, theirs, w);
        Err(IndexError)
      else
        KeptBound(mask);
        FilterBits(bits, mask);
        assert forall i :: 0 <= i < sample ==> StepInRange(bits, mine, theirs, i) by {
          forall i | 0 <= i < sample
            ensures StepInRange(bits, mine, theirs, i)
          {
            assert mask[i] == (if mine[i] == theirs[i] then 1 else 0);
          }
        }
        Ok(Filter(bits, mask))
  }

  lemma KeptBound(mask: seq<int>)
    ensures |Kept(mask)| <= |mask|
  {
    var ks := Kept(mask);
    if |ks| > |mask| {
      IncreasingBound(ks, |mask|);
    }
  }

  /** A strictly increasing list of naturals below m has at most m entries. */
  lemma {:induction false} IncreasingBound(ks: seq<nat>, m: nat)
    requires forall j, l :: 0 <= j < l < |ks| ==> ks[j] < ks[l]
    requires forall j :: 0 <= j < |ks| ==> ks[j] < m
    ensures |ks| <= m
    decreases m
  {
    if |ks| > 0 {
      var n := |ks| - 1;
      assert forall j :: 0 <= j < n ==> ks[..n][j] < ks[n];
      IncreasingBound(ks[..n], ks[n]);
    }
  }

  /** `send_qkd` after the exchange: Alice's key string, cut to 10 bits. */
  function SendQkd(aliceBits: seq<Bit>, aliceBasis: string, basisFromBob: string, keySize: nat): (r: Result<seq<int>>)
    ensures r.Ok? <==> KeyString(aliceBits, aliceBasis, basisFromBob, keySize).Ok?
    ensures r.Err? ==> r.error == IndexError
    ensures r.Ok? ==> IsBitList(r.value) && |r.value| <= B92KeyLength
    ensures r.Ok? ==> var full := KeyString(aliceBits, aliceBasis, basisFromBob, keySize).value;
      |r.value| == (if |full| < B92KeyLength then |full| else B92KeyLength) && r.value == full[..|r.value|]
  {
    var key :- KeyString(aliceBits, aliceBasis, basisFromBob, keySize);
    Ok(Take(key, B92KeyLength))
  }

  /**
   `receive_qkd` after the exchange: the mirror of `send_qkd`, run on Bob's
   bits and bases against Alice's, so Bob's key string cut to 10 bits.
   */
  function ReceiveQkd(bobBits: seq<Bit>, bobBasis: string, basisFromAlice: string, keySize: nat): (r: Result<seq<int>>)
    ensures r.Ok? <==> KeyString(bobBits, bobBasis, basisFromAlice, keySize).Ok?
    ensures r.Err? ==> r.error == IndexError
    ensures r.Ok? ==> IsBitList(r.value) && |r.value| <= B92KeyLength
    ensures r.Ok? ==> var full := KeyString(bobBits, bobBasis, basisFromAlice, keySize).value;
      |r.value| == (if |full| < B92KeyLength then |full| else B92KeyLength) && r.value == full[..|r.value|]
  {
    SendQkd(bobBits, bobBasis, basisFromAlice, keySize)
  }

  /** Alice's and Bob's measured bits agree wherever their sampled bases agree. */
  predicate BitsAgreeOnMatches(aliceBits: seq<Bit>, bobBits: seq<Bit>, aliceBasis: string, bobBasis: string, sample: nat) {
    forall i :: 0 <= i < sample && i < |aliceBasis| && i < |bobBasis| && i < |aliceBits| && i < |bobBits| ==>
      aliceBasis[i] == bobBasis[i] ==> aliceBits[i] == bobBits[i]
  }

  /**
   Alice and Bob keep the same sample positions, so their keys have the
   same length, at most 10 and at most a quarter of the key size.
   */
  lemma SameSampleKept(aliceBits: seq<Bit>, bobBits: seq<Bit>, aliceBasis: string, bobBasis: string, keySize: nat)
    requires SendQkd(aliceBits, aliceBasis, bobBasis, keySize).Ok?
    requires ReceiveQkd(bobBits, bobBasis, aliceBasis, keySize).Ok?
    ensures var a := SendQkd(aliceBits, aliceBasis, bobBasis, keySize).value;
      var b := ReceiveQkd(bobBits, bobBasis, aliceBasis, keySize).value;
      |a| == |b| && |a| <= B92KeyLength && |a| <= SampleSize(keySize)
  {
    var s := SampleSize(keySize);
    assert SampleMask(bobBasis, aliceBasis, s) == SampleMask(aliceBasis, bobBasis, s);
  }

  /** When their bits agree wherever the bases do, Alice and Bob hold the same key. */
  lemma SameKeyWhenBitsAgree(aliceBits: seq<Bit>, bobBits: seq<Bit>, aliceBasis: string, bobBasis: string, keySize: nat)
    requires SendQkd(aliceBits, aliceBasis, bobBasis, keySize).Ok?
    requires ReceiveQkd(bobBits, bobBasis, aliceBasis, keySize).Ok?
    requires BitsAgreeOnMatches(aliceBits, bobBits, aliceBasis, bobBasis, SampleSize(keySize))
    ensures SendQkd(aliceBits, aliceBasis, bobBasis, keySize) == ReceiveQkd(bobBits, bobBasis, aliceBasis, keySize)
  {
    var s := SampleSize(keySize);
    var m := SampleMask(aliceBasis, bobBasis, s);
    assert SampleMask(bobBasis, aliceBasis, s) == m;
    var ka := KeyString(aliceBits, aliceBasis, bobBasis, keySize).value;
    var kb := KeyString(bobBits, bobBasis, aliceBasis, keySize).value;
    assert ka == Filter(aliceBits, m);
    assert kb == Filter(bobBits, m);
    FilterAgree(aliceBits, bobBits, m);
  }

  /** The bases one node uses: towards its predecessor and towards its successor. */
  datatype NodeBases = NodeBases(receiveBasis: Option<string>, sendBasis: Option<string>)

  /** How many `preparation` calls the driver makes for a chain of n nodes. */
  function Preparations(n: nat): nat {
    if n == 0 then 0 else if n <= 2 then 1 else n - 1
  }

  /**
   The bases `QKD` hands to node i: the sender gets `Alices_basis[0]`,
   trusted node i gets `Bob_basis[i-1]` towards i-1 and `Alices_basis[i]`
   towards i+1, the receiver gets `Bob_basis[-1]`. Without trusted nodes
   the single pair is split the same way.
   */
  function BasesAt(n: nat, i: nat, alice: seq<string>, bob: seq<string>): (r: NodeBases)
    requires 2 <= n && i < n
    requires |alice| == Preparations(n) && |bob| == Preparations(n)
    ensures r.receiveBasis.Some? <==> i > 0
    ensures r.sendBasis.Some? <==> i < n - 1
    ensures r.receiveBasis.Some? ==> r.receiveBasis.value in bob
    ensures r.sendBasis.Some? ==> r.sendBasis.value in alice
  {
    if i == 0 then NodeBases(None, Some(alice[0]))
    else if i == n - 1 then NodeBases(Some(bob[|bob| - 1]), None)
    else NodeBases(Some(bob[i - 1]), Some(alice[i]))
  }

  /** Both ends of hop i use the i-th prepared pair: Alice's string at node i, Bob's at node i+1. */
  lemma HopBasesMatch(n: nat, alice: seq<string>, bob: seq<string>)
    requires 2 <= n
    requires |alice| == Preparations(n) && |bob| == Preparations(n)
    ensures |alice| == n - 1
    ensures forall i :: 0 <= i < n - 1 ==>
      BasesAt(n, i, alice, bob).sendBasis == Some(alice[i]) &&
      BasesAt(n, i + 1, alice, bob).receiveBasis == Some(bob[i])
  {
  }

  /** One B92 link: both ends' measured bits, their basis strings and the key size. */
  datatype Exchange = Exchange(aliceBits: seq<Bit>, bobBits: seq<Bit>, aliceBasis: string, bobBasis: string, keySize: nat)

  /** The keys `send_qkd` and `receive_qkd` return at the two ends of one link. */
  function LinkKeys(x: Exchange): Result<Relay.HopKeys> {
    var a :- SendQkd(x.aliceBits, x.aliceBasis, x.bobBasis, x.keySize);
    var b :- ReceiveQkd(x.bobBits, x.bobBasis, x.aliceBasis, x.keySize);
    Ok(Relay.HopKeys(a, b))
  }

  /**
   A B92 relay chain delivers: when every link's bits agree wherever its
   sampled bases do and every link keeps at least 8 bits, both ends of
   each link hold the same usable key, and the receiver decrypts the
   sender's message: always with the single split, and with the written
   `split(':')[1]` when no link's ciphertext contains ':'.
   */
  lemma RelayDeliversOverB92(links: seq<Exchange>, hops: seq<Relay.HopKeys>, msg: Crypto.Text)
    requires |links| >= 1 && |hops| == |links|
    requires forall i :: 0 <= i < |links| ==> LinkKeys(links[i]) == Ok(hops[i])
    requires forall i :: 0 <= i < |links| ==>
      BitsAgreeOnMatches(links[i].aliceBits, links[i].bobBits, links[i].aliceBasis, links[i].bobBasis, SampleSize(links[i].keySize))
    requires forall i :: 0 <= i < |hops| ==> |hops[i].senderKey| >= 8
    ensures Relay.AgreedHops(hops)
    ensures Relay.Deliver(Relay.SplitOnce, msg, hops) == Ok(msg)
    ensures Relay.ColonFreeHops(msg, hops) ==> Relay.Deliver(Relay.SplitAll, msg, hops) == Ok(msg)
  {
    forall i | 0 <= i < |hops|
      ensures hops[i].senderKey == hops[i].receiverKey && Relay.UsableKey(hops[i].senderKey)
    {
      var x := links[i];
      SameKeyWhenBitsAgree(x.aliceBits, x.bobBits, x.aliceBasis, x.bobBasis, x.keySize);
    }
    Relay.ChainDelivers(Relay.SplitOnce, msg, hops);
    if Relay.ColonFreeHops(msg, hops) {
      Relay.ChainDelivers(Relay.SplitAll, msg, hops);
    }
  }
}
