/**
 The stand-alone encryption check: four 9-bit key arrays, their pairwise
 XOR arrays, and a five-step chain of single-byte encryptions that must
 hand back the plaintext.
 */
module EncryptionTest {
  import opened Results
  import opened BitXor
  import opened Crypto
  import opened Relay

  /** `[a[i] ^ b[i] for i in range(len(a))]` on bit arrays. */
  function XorArrays(a: seq<int>, b: seq<int>): (r: seq<int>)
    requires IsBits(a) && IsBits(b) && |a| <= |b|
    ensures |r| == |a| && IsBits(r)
    ensures forall i :: 0 <= i < |a| ==> (r[i] == 1 <==> a[i] != b[i])
  {
    seq(|a|, i requires 0 <= i < |a| => if a[i] == b[i] then 0 else 1)
  }

  /** On bits, the XOR array is the relay's composed key. */
  lemma XorArraysIsComposeKey(a: seq<int>, b: seq<int>)
    requires IsBits(a) && IsBits(b) && |a| <= |b|
    ensures XorArrays(a, b) == ComposeKey(a, b)
  {
    assert |XorArrays(a, b)| == |ComposeKey(a, b)|;
    forall i | 0 <= i < |a|
      ensures XorArrays(a, b)[i] == ComposeKey(a, b)[i]
    {
    }
  }

  /**
   The five encryptions of the script: c, d, e, f and g. They all succeed
   exactly when the text is empty or the keys pack to one character.
   */
  function Chain(k1: seq<int>, k2: seq<int>, k3: seq<int>, k4: seq<int>, text: Text): (r: Result<Text>)
    requires IsBits(k1) && IsBits(k2) && IsBits(k3) && IsBits(k4)
    requires |k1| == |k2| == |k3| == |k4|
    ensures r.Ok? <==> |text| == 0 || 8 <= |k1| <= 15
    ensures r.Ok? ==> |r.value| == |text|
  {
    var k12, k23, k34 := XorArrays(k1, k2), XorArrays(k2, k3), XorArrays(k3, k4);
    var c :- EncryptMsg(k1, text);
    // Once c exists the keys have passed the same checks, so d, e and f cannot fail.
    var d := EncryptMsg(k12, c).value;
    var e := EncryptMsg(k23, d).value;
    var f := EncryptMsg(k34, e).value;
    EncryptMsg(k4, f)
  }

  /**
   For any four keys of one packed character, every intermediate text is
   the plaintext under a single key byte, and the chain ends on the
   plaintext.
   */
  lemma ChainRecoversText(k1: seq<int>, k2: seq<int>, k3: seq<int>, k4: seq<int>, text: Text)
    requires UsableKey(k1) && UsableKey(k2) && UsableKey(k3) && UsableKey(k4)
    requires |k1| == |k2| == |k3| == |k4|
    ensures Chain(k1, k2, k3, k4, text) == Ok(text)
  {
    XorArraysIsComposeKey(k1, k2);
    XorArraysIsComposeKey(k2, k3);
    XorArraysIsComposeKey(k3, k4);
    RelayStep(k1, k2, text);
    RelayStep(k2, k3, text);
    RelayStep(k3, k4, text);
    var f := EncryptMsg(k4, text).value;
    DecryptEncrypt(k4, text);
    assert EncryptMsg(k4, f) == Ok(text);
  }

  const KeyArray1: seq<int> := [0, 0, 0, 1, 1, 0, 1, 0, 1]
  const KeyArray2: seq<int> := [1, 0, 1, 0, 1, 1, 0, 1, 0]
  const KeyArray3: seq<int> := [1, 1, 0, 0, 1, 1, 0, 0, 1]
  const KeyArray4: seq<int> := [0, 1, 1, 1, 0, 1, 0, 1, 0]

  /** "hahaha" */
  const Hahaha: Text := [104, 97, 104, 97, 104, 97]

  /** Each 9-bit array packs to one character; its ninth bit is dropped. */
  lemma KeyArraysPackToOneChar()
    ensures PackKey(KeyArray1).Ok? && |PackKey(KeyArray1).value| == 1
    ensures PackKey(KeyArray2).Ok? && |PackKey(KeyArray2).value| == 1
    ensures PackKey(KeyArray3).Ok? && |PackKey(KeyArray3).value| == 1
    ensures PackKey(KeyArray4).Ok? && |PackKey(KeyArray4).value| == 1
  {
  }

  /** The script's own instance: "hahaha" survives the five encryptions. */
  lemma HahahaSurvivesChain()
    ensures Chain(KeyArray1, KeyArray2, KeyArray3, KeyArray4, Hahaha) == Ok(Hahaha)
  {
    ChainRecoversText(KeyArray1, KeyArray2, KeyArray3, KeyArray4, Hahaha);
  }
}
