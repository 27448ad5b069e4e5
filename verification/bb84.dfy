/**
 One BB84 link session between a sending and a receiving node: the basis
 comparison mask, the sifting of both raw keys, the error rate the
 receiver computes from the sender's disclosed key, and the SAFE /
 eavesdropper verdict at both ends. Random basis choices, measurement
 outcomes and the values received over the classical channel are inputs.
 */
module BB84 {
  import opened Results
  import opened Sifting

  /** Post-sift truncation length. */
  const QkdKeyLength: nat := 13

  /** Error-rate percentage from which a link counts as eavesdropped. */
  const ErrorRateThreshold: real := 10.0

  /**
   The sender compares the receiver's bases with its own: KeyError when the
   receiver reports a different number of bases (qubits were lost).
   */
  function Mask(basis: seq<int>, measuredBasis: seq<int>): (r: Result<seq<int>>)
    ensures r.Ok? <==> |basis| == |measuredBasis|
    ensures r.Err? ==> r.error == KeyError
    ensures r.Ok? ==> |r.value| == |basis| && IsBitList(r.value)
    ensures r.Ok? ==> forall i :: 0 <= i < |basis| ==> (r.value[i] == 1 <==> basis[i] == measuredBasis[i])
  {
    if |basis| != |measuredBasis| then Err(KeyError)
    else Ok(seq(|basis|, i requires 0 <= i < |basis| => if basis[i] == measuredBasis[i] then 1 else 0))
  }

  /** Number of positions where the bases agree. */
  function Matches(basis: seq<int>, measuredBasis: seq<int>): nat
    requires |basis| == |measuredBasis|
  {
    if |basis| == 0 then 0
    else
      var n := |basis| - 1;
      Matches(basis[..n], measuredBasis[..n]) + (if basis[n] == measuredBasis[n] then 1 else 0)
  }

  /** The mask keeps exactly as many positions as there are basis matches. */
  lemma {:induction false} KeptMatches(basis: seq<int>, measuredBasis: seq<int>)
    requires |basis| == |measuredBasis|
    ensures |Kept(Mask(basis, measuredBasis).value)| == Matches(basis, measuredBasis)
    decreases |basis|
  {
    if |basis| != 0 {
      var n := |basis| - 1;
      var m := Mask(basis, measuredBasis).value;
      KeptMatches(basis[..n], measuredBasis[..n]);
      assert m[..n] == Mask(basis[..n], measuredBasis[..n]).value;
    }
  }

  /** What `send_bb84` returns, with the mask it sent back to the receiver. */
  datatype SenderOutcome = SenderOutcome(siftMask: seq<int>, key: seq<int>, eves: nat)

  /**
   `send_bb84`: compare bases, sift the sender's own key through the mask,
   cut it to 13 bits, and judge the error rate the receiver sent back.
   `basis` holds the sender's random basis choice for each key bit.
   */
  function SendBB84(key: seq<Bit>, basis: seq<int>, measuredBasis: seq<int>, errorRate: real): (r: Result<SenderOutcome>)
    requires |basis| == |key|
    ensures r.Ok? <==> |measuredBasis| == |key|
    ensures r.Err? ==> r.error == KeyError
    ensures r.Ok? ==> r.value.siftMask == Mask(basis, measuredBasis).value
    ensures r.Ok? ==> |r.value.key| == (if Matches(basis, measuredBasis) < QkdKeyLength then Matches(basis, measuredBasis) else QkdKeyLength)
    ensures r.Ok? ==> IsBitList(r.value.key) && |r.value.key| <= |Kept(r.value.siftMask)|
    ensures r.Ok? ==> forall j :: 0 <= j < |r.value.key| ==> r.value.key[j] == key[Kept(r.value.siftMask)[j]]
    ensures r.Ok? ==> (r.value.eves == 0 <==> Safe(errorRate))
  {
    var mask :- Mask(basis, measuredBasis);
    KeptMatches(basis, measuredBasis);
    var sifted := Take(Filter(key, mask), QkdKeyLength);
    Ok(SenderOutcome(mask, sifted, if errorRate < ErrorRateThreshold then 0 else 1))
  }

  /** The sender's verdict: SAFE exactly below the threshold. */
  predicate Safe(errorRate: real) {
    errorRate < ErrorRateThreshold
  }

  /** `sum(sender_key[i] ^ key[i] for i in range(len(key)))` over bits. */
  function Hamming(senderKey: seq<Bit>, key: seq<Bit>): (h: nat)
    requires |senderKey| >= |key|
    ensures h <= |key|
    ensures h == 0 <==> senderKey[..|key|] == key
  {
    if |key| == 0 then 0
    else
      var n := |key| - 1;
      var h' := Hamming(senderKey, key[..n]);
      assert senderKey[..|key|] == senderKey[..n] + [senderKey[n]];
      assert key == key[..n] + [key[n]];
      h' + (if senderKey[n] == key[n] then 0 else 1)
  }

  /**
   The receiver's error rate, as a percentage of its sifted key length:
   IndexError when the disclosed key is shorter, ZeroDivisionError when
   nothing was sifted.
   */
  function ErrorRate(senderKey: seq<Bit>, key: seq<Bit>): (r: Result<real>)
    ensures r.Ok? <==> 0 < |key| <= |senderKey|
    ensures r.Err? ==> r.error == (if |key| == 0 then ZeroDivisionError else IndexError)
    ensures r.Ok? ==> 0.0 <= r.value <= 100.0
    ensures r.Ok? ==> (r.value == 0.0 <==> senderKey[..|key|] == key)
  {
    if |senderKey| < |key| then Err(IndexError)
    else if |key| == 0 then Err(ZeroDivisionError)
    else
      var h := Hamming(senderKey, key);
      Ok((h as real) / (|key| as real) * 100.0)
  }

  /** The safety verdict is the natural-number comparison 10 * errors < length. */
  lemma SafeIffFewErrors(senderKey: seq<Bit>, key: seq<Bit>)
    requires 0 < |key| <= |senderKey|
    ensures Safe(ErrorRate(senderKey, key).value) <==> 10 * Hamming(senderKey, key) < |key|
  {
    RateBelow(Hamming(senderKey, key) as real, |key| as real);
  }

  lemma RateBelow(h: real, n: real)
    requires n > 0.0
    ensures h / n * 100.0 < 10.0 <==> 10.0 * h < n
  {
    var q := h / n;
    assert q * n == h;
    if q * 100.0 < 10.0 {
      assert q < 0.1;
      assert q * n < 0.1 * n;
    } else {
      assert q >= 0.1;
      assert q * n >= 0.1 * n;
    }
  }

  /** What `receive_bb84` returns, with the rate it sent back to the sender. */
  datatype ReceiverOutcome = ReceiverOutcome(key: seq<int>, errorRate: real, eves: nat)

  /**
   `receive_bb84`: the receiver measured `keySize` qubits, one random basis
   each, sifts its raw bits through the sender's mask, cuts to 13 bits and
   compares with the key the sender disclosed.
   */
  function ReceiveBB84(keySize: nat, basis: seq<int>, raw: seq<Bit>, siftMask: seq<int>, senderKey: seq<Bit>): (r: Result<ReceiverOutcome>)
    requires |basis| == keySize && |raw| == keySize
    ensures r.Ok? <==> Fits(raw, siftMask) && 0 < |Take(Filter(raw, siftMask), QkdKeyLength)| <= |senderKey|
    ensures r.Ok? ==> |r.value.key| <= QkdKeyLength && IsBitList(r.value.key)
    ensures r.Ok? ==> |r.value.key| <= |Kept(siftMask)|
    ensures r.Ok? ==> |r.value.key| == if |Kept(siftMask)| < QkdKeyLength then |Kept(siftMask)| else QkdKeyLength
    ensures r.Ok? ==> forall j :: 0 <= j < |r.value.key| ==> r.value.key[j] == raw[Kept(siftMask)[j]]
    ensures r.Ok? ==> 0.0 <= r.value.errorRate <= 100.0
    ensures r.Ok? ==> (r.value.errorRate == 0.0 <==> senderKey[..|r.value.key|] == r.value.key)
    ensures r.Ok? ==> (r.value.eves == 0 <==> Safe(r.value.errorRate))
  {
    var all :- Sift(raw, siftMask);
    var key: seq<Bit> := Take(all, QkdKeyLength);
    var rate :- ErrorRate(senderKey, key);
    Ok(ReceiverOutcome(key, rate, if rate >= ErrorRateThreshold then 1 else 0))
  }

  /** The outcome of one link: both sifted keys, the shared error rate and both verdicts. */
  datatype LinkOutcome = LinkOutcome(senderKey: seq<int>, receiverKey: seq<int>, errorRate: real, senderEves: nat, receiverEves: nat)

  /**
   One full session as the two ends interleave it: the receiver discloses
   its bases, the sender returns the mask, both sift, the sender discloses
   its key and the receiver returns the error rate.
   */
  function RunLink(key: seq<Bit>, senderBasis: seq<int>, receiverBasis: seq<int>, raw: seq<Bit>): (r: Result<LinkOutcome>)
    requires |senderBasis| == |key| && |receiverBasis| == |raw|
    ensures r.Err? ==> r.error == (if |raw| != |key| then KeyError else ZeroDivisionError)
  {
    var mask :- Mask(senderBasis, receiverBasis);
    var senderSifted: seq<Bit> := Take(Filter(key, mask), QkdKeyLength);
    var recv :- ReceiveBB84(|raw|, receiverBasis, raw, mask, senderSifted);
    // The basis counts matched when the mask was built, so the sender cannot fail here.
    var send := SendBB84(key, senderBasis, receiverBasis, recv.errorRate).value;
    Ok(LinkOutcome(send.key, recv.key, recv.errorRate, send.eves, recv.eves))
  }

  /**
   Both ends sift the same positions, so their keys have equal length, and
   they judge the same transmitted error rate, so they reach the same
   verdict. The session fails only on a basis count mismatch or an empty
   sifted key.
   */
  lemma LinkAgreement(key: seq<Bit>, senderBasis: seq<int>, receiverBasis: seq<int>, raw: seq<Bit>)
    requires |senderBasis| == |key| && |receiverBasis| == |raw|
    ensures RunLink(key, senderBasis, receiverBasis, raw).Ok? <==>
      |raw| == |key| && Matches(senderBasis, receiverBasis) > 0
    ensures RunLink(key, senderBasis, receiverBasis, raw).Ok? ==>
      var o := RunLink(key, senderBasis, receiverBasis, raw).value;
      |o.senderKey| == |o.receiverKey| > 0 && o.senderEves == o.receiverEves
  {
    if |raw| == |key| {
      var mask := Mask(senderBasis, receiverBasis).value;
      KeptMatches(senderBasis, receiverBasis);
      assert |Take(Filter(raw, mask), QkdKeyLength)| == |Take(Filter(key, mask), QkdKeyLength)|;
    }
  }

  /**
   Wherever the bases agree, a measurement on an undisturbed channel
   returns the bit the sender encoded.
   */
  predicate UndisturbedChannel(key: seq<Bit>, senderBasis: seq<int>, receiverBasis: seq<int>, raw: seq<Bit>)
    requires |senderBasis| == |key| == |receiverBasis| == |raw|
  {
    forall i :: 0 <= i < |key| && senderBasis[i] == receiverBasis[i] ==> raw[i] == key[i]
  }

  /** On an undisturbed channel both ends hold the same key, the error rate is 0 and the link is SAFE. */
  lemma UndisturbedLinkIsSafe(key: seq<Bit>, senderBasis: seq<int>, receiverBasis: seq<int>, raw: seq<Bit>)
    requires |senderBasis| == |key| == |receiverBasis| == |raw|
    requires UndisturbedChannel(key, senderBasis, receiverBasis, raw)
    requires Matches(senderBasis, receiverBasis) > 0
    ensures RunLink(key, senderBasis, receiverBasis, raw).Ok?
    ensures var o := RunLink(key, senderBasis, receiverBasis, raw).value;
      o.senderKey == o.receiverKey && o.errorRate == 0.0 && o.senderEves == 0 && o.receiverEves == 0
  {
    LinkAgreement(key, senderBasis, receiverBasis, raw);
    var mask := Mask(senderBasis, receiverBasis).value;
    FilterAgree(key, raw, mask);
  }
}
