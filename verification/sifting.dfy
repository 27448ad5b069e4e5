/**
 Sifting shared by the BB84 and B92 variants: keep the raw bits at the
 positions a mask marks, in order, then cut the result to a fixed length.
 */
module Sifting {
  import opened Results

  /** A measured or generated key bit. */
  type Bit = b: int | 0 <= b <= 1

  predicate IsBitList(s: seq<int>) {
    forall i :: 0 <= i < |s| ==> s[i] == 0 || s[i] == 1
  }

  /** The positions a mask keeps (Python truthiness: any non-zero entry), in increasing order. */
  function Kept(mask: seq<int>): (ks: seq<nat>)
    ensures forall j :: 0 <= j < |ks| ==> ks[j] < |mask| && mask[ks[j]] != 0
    ensures forall j, l :: 0 <= j < l < |ks| ==> ks[j] < ks[l]
    ensures forall i :: 0 <= i < |mask| && mask[i] != 0 ==> i in ks
  {
    if |mask| == 0 then []
    else
      var n := |mask| - 1;
      var prefix := Kept(mask[..n]);
      assert forall i :: 0 <= i < n && mask[i] != 0 ==> i in prefix by {
        forall i | 0 <= i < n && mask[i] != 0
          ensures i in prefix
        {
          assert mask[..n][i] == mask[i];
        }
      }
      prefix + (if mask[n] != 0 then [n] else [])
  }

  /** Every marked position lies inside the raw list. */
  predicate Fits(raw: seq<int>, mask: seq<int>) {
    forall i :: 0 <= i < |mask| && mask[i] != 0 ==> i < |raw|
  }

  /** `[raw[i] for i in range(len(mask)) if mask[i]]`. */
  function Filter(raw: seq<int>, mask: seq<int>): (kept: seq<int>)
    requires Fits(raw, mask)
    ensures |kept| == |Kept(mask)|
    ensures forall j :: 0 <= j < |kept| ==> kept[j] == raw[Kept(mask)[j]]
  {
    if |mask| == 0 then []
    else
      var n := |mask| - 1;
      assert Kept(mask) == Kept(mask[..n]) + (if mask[n] != 0 then [n] else []);
      Filter(raw, mask[..n]) + (if mask[n] != 0 then [raw[n]] else [])
  }

  /** The comprehension indexes raw at every marked position: IndexError past its end. */
  function Sift(raw: seq<int>, mask: seq<int>): (r: Result<seq<int>>)
    ensures r.Ok? <==> Fits(raw, mask)
    ensures r.Err? ==> r.error == IndexError
    ensures r.Ok? ==> r.value == Filter(raw, mask)
  {
    if Fits(raw, mask) then Ok(Filter(raw, mask)) else Err(IndexError)
  }

  /** `s[:n]`. */
  function Take<T>(s: seq<T>, n: nat): (r: seq<T>)
    ensures |r| == if |s| < n then |s| else n
    ensures forall j :: 0 <= j < |r| ==> r[j] == s[j]
  {
    if |s| <= n then s else s[..n]
  }

  /** Raw lists that agree at the kept positions sift to the same key. */
  lemma FilterAgree(raw1: seq<int>, raw2: seq<int>, mask: seq<int>)
    requires Fits(raw1, mask) && Fits(raw2, mask)
    requires forall j :: 0 <= j < |Kept(mask)| ==> raw1[Kept(mask)[j]] == raw2[Kept(mask)[j]]
    ensures Filter(raw1, mask) == Filter(raw2, mask)
  {
  }

  /** A filtered bit list is still a bit list. */
  lemma FilterBits(raw: seq<int>, mask: seq<int>)
    requires Fits(raw, mask)
    requires IsBitList(raw)
    ensures IsBitList(Filter(raw, mask))
  {
  }
}
