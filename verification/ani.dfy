/**
 The second, node-order BB84 variant (Ani_codes): the same basis comparison and
 sifting, but no error-rate exchange and no eavesdropper verdict. Its
 cipher, framing and key composition are the ones of the Crypto and Relay
 modules, and its role split is Relay.ChainTasks.
 */
module AniBB84 {
  import opened Results
  import opened Sifting
  import BB84

  /** `send_bb84`: a basis count mismatch raises KeyError, else the sender's key sifted through the mask. */
  function SendBB84(key: seq<Bit>, basis: seq<int>, measuredBasis: seq<int>): (r: Result<seq<int>>)
    requires |basis| == |key|
    ensures r.Ok? <==> |measuredBasis| == |key|
    ensures r.Err? ==> r.error == KeyError
    ensures r.Ok? ==> |r.value| == (if BB84.Matches(basis, measuredBasis) < BB84.QkdKeyLength then BB84.Matches(basis, measuredBasis) else BB84.QkdKeyLength)
    ensures r.Ok? ==> |r.value| <= |Kept(BB84.Mask(basis, measuredBasis).value)|
    ensures r.Ok? ==> forall j :: 0 <= j < |r.value| ==> r.value[j] == key[Kept(BB84.Mask(basis, measuredBasis).value)[j]]
  {
    var mask :- BB84.Mask(basis, measuredBasis);
    BB84.KeptMatches(basis, measuredBasis);
    Ok(Take(Filter(key, mask), BB84.QkdKeyLength))
  }

  /** `receive_bb84`: the raw measurements sifted through the returned mask; IndexError past the raw list. */
  function ReceiveBB84(keySize: nat, basis: seq<int>, raw: seq<Bit>, siftMask: seq<int>): (r: Result<seq<int>>)
    requires |basis| == keySize && |raw| == keySize
    ensures r.Ok? <==> Fits(raw, siftMask)
    ensures r.Err? ==> r.error == IndexError
    ensures r.Ok? ==> |r.value| <= BB84.QkdKeyLength && |r.value| <= |Kept(siftMask)|
    ensures r.Ok? ==> |r.value| == if |Kept(siftMask)| < BB84.QkdKeyLength then |Kept(siftMask)| else BB84.QkdKeyLength
    ensures r.Ok? ==> forall j :: 0 <= j < |r.value| ==> r.value[j] == raw[Kept(siftMask)[j]]
  {
    var all :- Sift(raw, siftMask);
    Ok(Take(all, BB84.QkdKeyLength))
  }

  /**
   The variant's ends compute the very keys of the error-checking
   protocol: the sender's key whatever error rate comes back, and the
   receiver's key whenever that protocol's receiver completes.
   */
  lemma SameKeysAsBB84(key: seq<Bit>, basis: seq<int>, measuredBasis: seq<int>, raw: seq<Bit>, siftMask: seq<int>, senderKey: seq<Bit>, errorRate: real)
    requires |basis| == |key| && |measuredBasis| == |raw|
    ensures SendBB84(key, basis, measuredBasis).Ok? == BB84.SendBB84(key, basis, measuredBasis, errorRate).Ok?
    ensures SendBB84(key, basis, measuredBasis).Ok? ==>
      SendBB84(key, basis, measuredBasis).value == BB84.SendBB84(key, basis, measuredBasis, errorRate).value.key
    ensures BB84.ReceiveBB84(|raw|, measuredBasis, raw, siftMask, senderKey).Ok? ==>
      ReceiveBB84(|raw|, measuredBasis, raw, siftMask) == Ok(BB84.ReceiveBB84(|raw|, measuredBasis, raw, siftMask, senderKey).value.key)
  {
    if |measuredBasis| == |key| {
      var a := SendBB84(key, basis, measuredBasis).value;
      var b := BB84.SendBB84(key, basis, measuredBasis, errorRate).value.key;
      assert |a| == |b|;
      assert forall j :: 0 <= j < |a| ==> a[j] == b[j];
    }
    var rb := BB84.ReceiveBB84(|raw|, measuredBasis, raw, siftMask, senderKey);
    if rb.Ok? {
      var ra := ReceiveBB84(|raw|, measuredBasis, raw, siftMask).value;
      assert |ra| == |rb.value.key|;
      assert forall j :: 0 <= j < |ra| ==> ra[j] == rb.value.key[j];
    }
  }

  /** One session of the variant: the receiver discloses its bases, the sender returns the mask, both sift. */
  function RunLink(key: seq<Bit>, senderBasis: seq<int>, receiverBasis: seq<int>, raw: seq<Bit>): (r: Result<(seq<int>, seq<int>)>)
    requires |senderBasis| == |key| && |receiverBasis| == |raw|
    ensures r.Err? ==> r.error == KeyError
  {
    var sent :- SendBB84(key, senderBasis, receiverBasis);
    // The mask the sender returns fits the receiver's raw bits, so this step cannot fail.
    var received := ReceiveBB84(|raw|, receiverBasis, raw, BB84.Mask(senderBasis, receiverBasis).value).value;
    Ok((sent, received))
  }

  /**
   A session fails only on a basis count mismatch; on an undisturbed
   channel both ends then hold the same key.
   */
  lemma LinkAgreement(key: seq<Bit>, senderBasis: seq<int>, receiverBasis: seq<int>, raw: seq<Bit>)
    requires |senderBasis| == |key| && |receiverBasis| == |raw|
    ensures RunLink(key, senderBasis, receiverBasis, raw).Ok? <==> |raw| == |key|
    ensures RunLink(key, senderBasis, receiverBasis, raw).Ok? ==>
      |RunLink(key, senderBasis, receiverBasis, raw).value.0| == |RunLink(key, senderBasis, receiverBasis, raw).value.1|
    ensures |raw| == |key| && BB84.UndisturbedChannel(key, senderBasis, receiverBasis, raw) ==>
      RunLink(key, senderBasis, receiverBasis, raw).Ok? &&
      RunLink(key, senderBasis, receiverBasis, raw).value.0 == RunLink(key, senderBasis, receiverBasis, raw).value.1
  {
    if |raw| == |key| {
      var mask := BB84.Mask(senderBasis, receiverBasis).value;
      BB84.KeptMatches(senderBasis, receiverBasis);
      assert Fits(raw, mask);
      var o := RunLink(key, senderBasis, receiverBasis, raw).value;
      assert |o.0| == |o.1|;
      if BB84.UndisturbedChannel(key, senderBasis, receiverBasis, raw) {
        FilterAgree(key, raw, mask);
        assert forall j :: 0 <= j < |o.0| ==> o.0[j] == o.1[j];
      }
    }
  }
}
