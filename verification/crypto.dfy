/**
 The message cipher of the relay network: a bit key is packed into 8-bit,
 most-significant-bit-first characters, and every message character is
 XOR-ed with the code point of that packed string, which must be a single
 character. Messages travel framed as "-1:" followed by the ciphertext and
 are unframed by splitting at ':' and taking the second piece.
 */
module Crypto {
  import opened Results
  import opened BitXor

  /** A Python character: a code point in 0 .. 0x10FFFF (lone surrogates included). */
  type CodePoint = n: nat | n < 0x110000

  /** A Python `str`, as its sequence of code points. */
  type Text = seq<CodePoint>

  const Colon: CodePoint := 58

  /** The payload tag "-1:" that marks an encrypted message. */
  const FrameTag: Text := [45, 49, 58]

  /** Every key element prints as '0' or '1'. */
  predicate IsBits(key: seq<int>) {
    forall i :: 0 <= i < |key| ==> key[i] == 0 || key[i] == 1
  }

  /** `int(bits, 2)`: the value of a bit string read most significant bit first. */
  function BinValue(bits: seq<int>): nat
    requires IsBits(bits)
  {
    if |bits| == 0 then 0
    else 2 * BinValue(bits[..|bits| - 1]) + bits[|bits| - 1]
  }

  /** The n-bit, most-significant-bit-first binary expansion of v. */
  function ToBits(v: nat, n: nat): (bits: seq<int>)
    ensures |bits| == n && IsBits(bits)
  {
    if n == 0 then [] else ToBits(v / 2, n - 1) + [v % 2]
  }

  /** Reading a bit string and writing it back out gives the same bits. */
  lemma {:induction false} BinValueToBits(bits: seq<int>)
    requires IsBits(bits)
    ensures BinValue(bits) < Pow2(|bits|)
    ensures ToBits(BinValue(bits), |bits|) == bits
    decreases |bits|
  {
    if |bits| != 0 {
      var init := bits[..|bits| - 1];
      BinValueToBits(init);
      assert init + [bits[|bits| - 1]] == bits;
    }
  }

  /** Writing out a value that fits and reading it back gives the value. */
  lemma {:induction false} ToBitsBinValue(v: nat, n: nat)
    requires v < Pow2(n)
    ensures BinValue(ToBits(v, n)) == v
    decreases n
  {
    if n != 0 {
      var bits := ToBits(v, n);
      assert bits[..n - 1] == ToBits(v / 2, n - 1);
      ToBitsBinValue(v / 2, n - 1);
    }
  }

  /** An 8-bit group packs to a byte. */
  lemma ByteBound(bits: seq<int>)
    requires IsBits(bits) && |bits| == 8
    ensures BinValue(bits) < 256
  {
    BinValueToBits(bits);
    assert Pow2(8) == 256;
  }

  /**
   The packed key string: one character per complete group of 8 bits, the
   trailing partial group dropped.
   */
  function PackBits(key: seq<int>): (packed: Text)
    requires IsBits(key)
    ensures |packed| == |key| / 8
    ensures forall k :: 0 <= k < |packed| ==> packed[k] < 256
    ensures forall k :: 0 <= k < |packed| ==> packed[k] == BinValue(key[8 * k .. 8 * k + 8])
    decreases |key|
  {
    if |key| < 8 then []
    else
      ByteBound(key[..8]);
      var rest := PackBits(key[8..]);
      assert forall k :: 1 <= k <= |rest| ==> key[8..][8 * (k - 1) .. 8 * (k - 1) + 8] == key[8 * k .. 8 * k + 8];
      [BinValue(key[..8])] + rest
  }

  /**
   `key_array_to_key_string` (and the first two lines of `encrypt_msg`):
   `int(..., 2)` raises ValueError unless every element is a bit.
   */
  function PackKey(key: seq<int>): (r: Result<Text>)
    ensures r.Ok? <==> IsBits(key)
    ensures r.Err? ==> r.error == ValueError
    ensures r.Ok? ==> |r.value| == |key| / 8
    ensures r.Ok? ==> forall k :: 0 <= k < |r.value| ==> r.value[k] == BinValue(key[8 * k .. 8 * k + 8])
  {
    if IsBits(key) then Ok(PackBits(key)) else Err(ValueError)
  }

  /** The key byte the cipher uses: the value of the first 8 bits. */
  function KeyByte(key: seq<int>): (b: nat)
    requires IsBits(key) && |key| >= 8
    ensures b < 256
  {
    ByteBound(key[..8]);
    BinValue(key[..8])
  }

  /**
   `encrypt(key, text)`: `chr(ord(key) ^ ord(char))` for every character.
   `ord` raises TypeError unless the key string has exactly one character,
   but only once the loop body runs, so an empty text never raises;
   `chr` raises ValueError past 0x10FFFF.
   */
  function XorText(keyString: Text, text: Text): (r: Result<Text>)
    ensures r.Ok? <==>
      |text| == 0 ||
      (|keyString| == 1 && forall i :: 0 <= i < |text| ==> Xor(keyString[0], text[i]) < 0x110000)
    ensures r.Err? ==> r.error == (if |keyString| != 1 then TypeError else ValueError)
    ensures r.Ok? ==> |r.value| == |text|
    ensures r.Ok? && |text| > 0 ==> forall i :: 0 <= i < |text| ==> r.value[i] == Xor(keyString[0], text[i])
  {
    if |text| == 0 then Ok([])
    else if |keyString| != 1 then Err(TypeError)
    else if exists i :: 0 <= i < |text| && Xor(keyString[0], text[i]) >= 0x110000 then Err(ValueError)
    else Ok(seq(|text|, i requires 0 <= i < |text| => Xor(keyString[0], text[i]) as CodePoint))
  }

  /** With a one-byte key string the character XOR never leaves the code point range. */
  lemma XorTextByteKey(b: CodePoint, text: Text)
    requires b < 256
    ensures XorText([b], text).Ok?
  {
    forall i | 0 <= i < |text|
      ensures Xor(b, text[i]) < 0x110000
    {
      XorByteCodePoint(text[i], b);
      XorComm(text[i], b);
    }
  }

  /** `decrypt` is `encrypt` again: XOR with the same key string undoes it. */
  lemma XorTextInverse(keyString: Text, text: Text)
    requires XorText(keyString, text).Ok?
    ensures XorText(keyString, XorText(keyString, text).value) == Ok(text)
  {
    var c := XorText(keyString, text).value;
    if |text| > 0 {
      var k := keyString[0];
      forall i | 0 <= i < |c|
        ensures Xor(k, c[i]) == text[i]
      {
        XorComm(k, text[i]);
        XorCancel(text[i], k);
        XorComm(k, c[i]);
      }
      var d := XorText(keyString, c);
      assert d.Ok?;
      assert d.value == text;
    }
  }

  /** Encrypting under byte b and then under byte a is encrypting once under a XOR b. */
  lemma XorTextCompose(a: CodePoint, b: CodePoint, text: Text)
    requires a < 256 && b < 256
    ensures Xor(a, b) < 256
    ensures XorText([b], text).Ok?
    ensures XorText([a], XorText([b], text).value) == XorText([Xor(a, b) as CodePoint], text)
  {
    XorByte(a, b);
    XorTextByteKey(b, text);
    var c := XorText([b], text).value;
    XorTextByteKey(a, c);
    XorTextByteKey(Xor(a, b) as CodePoint, text);
    var l := XorText([a], c).value;
    var r := XorText([Xor(a, b) as CodePoint], text).value;
    forall i | 0 <= i < |text|
      ensures l[i] == r[i]
    {
      XorAssoc(a, b, text[i]);
    }
    assert l == r;
  }

  /**
   `encrypt_msg(key, msg)`: pack the key, then XOR every character with
   the packed string's single character.
   */
  function EncryptMsg(key: seq<int>, msg: Text): (r: Result<Text>)
    ensures r.Ok? <==> IsBits(key) && (|msg| == 0 || 8 <= |key| <= 15)
    ensures r.Err? ==> r.error == (if IsBits(key) then TypeError else ValueError)
    ensures r.Ok? ==> |r.value| == |msg|
    ensures r.Ok? && |msg| > 0 ==> forall i :: 0 <= i < |msg| ==> r.value[i] == Xor(KeyByte(key), msg[i])
  {
    var keyString :- PackKey(key);
    assert |keyString| == 1 ==> XorText(keyString, msg).Ok? by {
      if |keyString| == 1 {
        XorTextByteKey(keyString[0], msg);
      }
    }
    XorText(keyString, msg)
  }

  /** Encrypting twice under the same key gives back the message: the cipher is an involution. */
  lemma EncryptTwice(key: seq<int>, msg: Text)
    requires EncryptMsg(key, msg).Ok?
    ensures EncryptMsg(key, EncryptMsg(key, msg).value) == Ok(msg)
  {
    var c := EncryptMsg(key, msg).value;
    if |msg| > 0 {
      var k := KeyByte(key);
      forall i | 0 <= i < |msg|
        ensures Xor(k, c[i]) == msg[i]
      {
        XorComm(k, msg[i]);
        XorCancel(msg[i], k);
        XorComm(k, c[i]);
      }
      var d := EncryptMsg(key, c);
      assert d.Ok?;
      assert d.value == msg;
    }
  }

  /**
   `decrypt_msg` calls `encrypt_msg` with the same arguments, so what it
   returns is the plaintext whose encryption is the given ciphertext.
   */
  function DecryptMsg(key: seq<int>, msg: Text): (r: Result<Text>)
    ensures r.Ok? <==> EncryptMsg(key, msg).Ok?
    ensures r.Ok? ==> |r.value| == |msg| && EncryptMsg(key, r.value) == Ok(msg)
  {
    var r := EncryptMsg(key, msg);
    if r.Ok? then EncryptTwice(key, msg); r else r
  }

  /** Decryption inverts encryption for every key encryption accepts. */
  lemma DecryptEncrypt(key: seq<int>, msg: Text)
    requires EncryptMsg(key, msg).Ok?
    ensures DecryptMsg(key, EncryptMsg(key, msg).value) == Ok(msg)
  {
    EncryptTwice(key, msg);
  }

  /** `send_msg`: the payload put on the classical channel. */
  function SendMsg(ciphertext: Text): (framed: Text)
    ensures |framed| == |ciphertext| + 3
    ensures framed[3..] == ciphertext
  {
    FrameTag + ciphertext
  }

  function CountColons(s: Text): nat {
    if |s| == 0 then 0 else (if s[0] == Colon then 1 else 0) + CountColons(s[1..])
  }

  /** `sep.join(parts)`. */
  function Join(parts: seq<Text>): Text
    requires |parts| >= 1
  {
    if |parts| == 1 then parts[0] else parts[0] + [Colon] + Join(parts[1..])
  }

  /** Python's `s.split(':')`: the colon-free pieces between the colons. */
  function Split(s: Text): (parts: seq<Text>)
    ensures |parts| == CountColons(s) + 1
    ensures forall k :: 0 <= k < |parts| ==> Colon !in parts[k]
  {
    if |s| == 0 then [[]]
    else
      var rest := Split(s[1..]);
      if s[0] == Colon then [[]] + rest
      else [[s[0]] + rest[0]] + rest[1..]
  }

  /** Splitting then joining gives back the original string. */
  lemma {:induction false} JoinSplit(s: Text)
    ensures Join(Split(s)) == s
    decreases |s|
  {
    if |s| != 0 {
      JoinSplit(s[1..]);
      var rest := Split(s[1..]);
      if s[0] == Colon {
        assert Split(s) == [[]] + rest;
        assert Split(s)[1..] == rest;
      } else {
        var parts := Split(s);
        assert parts[1..] == rest[1..];
        if |rest| == 1 {
          assert Join(parts) == [s[0]] + rest[0];
        } else {
          assert Join(parts) == [s[0]] + rest[0] + [Colon] + Join(rest[1..]);
        }
      }
    }
  }

  /** A colon-free string splits to itself alone. */
  lemma {:induction false} SplitNoColon(s: Text)
    requires Colon !in s
    ensures Split(s) == [s]
    decreases |s|
  {
    if |s| != 0 {
      SplitNoColon(s[1..]);
      assert [s[0]] + s[1..] == s;
    }
  }

  /** The first piece is everything before the first colon. */
  lemma {:induction false} SplitFirst(s: Text, i: nat)
    requires i < |s| && s[i] == Colon && Colon !in s[..i]
    ensures Split(s)[0] == s[..i]
    decreases i
  {
    if i != 0 {
      assert s[1..][..i - 1] == s[1..i];
      SplitFirst(s[1..], i - 1);
      assert [s[0]] + s[1..i] == s[..i];
    }
  }

  /** `recv_msg`: `content.split(':')[1]`, an IndexError when there is no colon. */
  function RecvMsg(framed: Text): (r: Result<Text>)
    ensures r.Ok? <==> Colon in framed
    ensures r.Err? ==> r.error == IndexError
    ensures r.Ok? ==> Colon !in r.value
  {
    var parts := Split(framed);
    if |parts| < 2 then
      assert Colon !in framed by { if Colon in framed { CountColonsPositive(framed); } }
      Err(IndexError)
    else
      assert Colon in framed by { if Colon !in framed { SplitNoColon(framed); } }
      Ok(parts[1])
  }

  lemma {:induction false} CountColonsPositive(s: Text)
    requires Colon in s
    ensures CountColons(s) > 0
    decreases |s|
  {
    if s[0] != Colon {
      CountColonsPositive(s[1..]);
    }
  }

  /** Splitting a framed ciphertext yields "-1" followed by the ciphertext's own pieces. */
  lemma SplitFramed(c: Text)
    ensures Split(SendMsg(c)) == [[45, 49]] + Split(c)
  {
    var t2: Text := [Colon] + c;
    var t1: Text := [49] + t2;
    assert SendMsg(c) == [45] + t1;
    assert t2[1..] == c && t1[1..] == t2 && ([45] + t1)[1..] == t1;
    assert Split(t2) == [[]] + Split(c);
    assert Split(t1) == [[49] + []] + Split(c);
    assert [49] + [] == [49];
    var p1 := Split(t1);
    assert p1[0] == [49] && p1[1..] == Split(c);
    assert Split([45] + t1) == [[45] + p1[0]] + p1[1..];
    assert [45] + [49] == [45, 49];
  }

  /**
   Framing then unframing returns the ciphertext exactly when it contains
   no colon; otherwise only the part before its first colon survives.
   */
  lemma FrameRoundTrip(c: Text)
    ensures RecvMsg(SendMsg(c)) == Ok(Split(c)[0])
    ensures RecvMsg(SendMsg(c)) == Ok(c) <==> Colon !in c
    ensures forall i :: 0 <= i < |c| && c[i] == Colon && Colon !in c[..i] ==> RecvMsg(SendMsg(c)) == Ok(c[..i])
  {
    SplitFramed(c);
    if Colon !in c {
      SplitNoColon(c);
    } else {
      assert Colon !in Split(c)[0];
    }
    forall i | 0 <= i < |c| && c[i] == Colon && Colon !in c[..i]
      ensures Split(c)[0] == c[..i]
    {
      SplitFirst(c, i);
    }
  }

  /** An unframing that splits at the first colon only (`split(':', 1)[1]`). */
  function RecvMsgFixed(framed: Text): (r: Result<Text>)
    ensures r.Ok? <==> Colon in framed
    ensures r.Err? ==> r.error == IndexError
    ensures r.Ok? ==> framed == Split(framed)[0] + [Colon] + r.value
    decreases |framed|
  {
    if |framed| == 0 then Err(IndexError)
    else if framed[0] == Colon then
      assert framed == [] + [Colon] + framed[1..];
      Ok(framed[1..])
    else
      var r := RecvMsgFixed(framed[1..]);
      assert Colon in framed <==> Colon in framed[1..] by {
        assert framed == [framed[0]] + framed[1..];
      }
      r
  }

  /** The fixed unframing returns every ciphertext unchanged. */
  lemma FrameRoundTripFixed(c: Text)
    ensures RecvMsgFixed(SendMsg(c)) == Ok(c)
  {
    var s := SendMsg(c);
    assert s[1..][1..] == [Colon] + c;
  }

  lemma KeyByte82()
    ensures BinValue([0, 1, 0, 1, 0, 0, 1, 0]) == 82
  {
    var key := [0, 1, 0, 1, 0, 0, 1, 0];
    assert [0, 1][..1] == [0];
    assert [0, 1, 0][..2] == [0, 1];
    assert [0, 1, 0, 1][..3] == [0, 1, 0];
    assert [0, 1, 0, 1, 0][..4] == [0, 1, 0, 1];
    assert [0, 1, 0, 1, 0, 0][..5] == [0, 1, 0, 1, 0];
    assert [0, 1, 0, 1, 0, 0, 1][..6] == [0, 1, 0, 1, 0, 0];
    assert key[..7] == [0, 1, 0, 1, 0, 0, 1];
    assert BinValue([0]) == 0;
    assert BinValue([0, 1]) == 1;
    assert BinValue([0, 1, 0]) == 2;
    assert BinValue([0, 1, 0, 1]) == 5;
    assert BinValue([0, 1, 0, 1, 0]) == 10;
    assert BinValue([0, 1, 0, 1, 0, 0]) == 20;
    assert BinValue([0, 1, 0, 1, 0, 0, 1]) == 41;
  }

  lemma Xor82With104()
    ensures Xor(82, 104) == 58
  {
    assert Xor(1, 1) == 0;
    assert Xor(2, 3) == 1;
    assert Xor(5, 6) == 3;
    assert Xor(10, 13) == 7;
    assert Xor(20, 26) == 14;
    assert Xor(41, 52) == 29;
  }

  /** The split-based unframing loses the whole ciphertext of "h" under key byte 0x52, which is ":". */
  lemma ColonCiphertextTruncated()
    ensures EncryptMsg([0, 1, 0, 1, 0, 0, 1, 0], [104]) == Ok([58])
    ensures RecvMsg(SendMsg([58])) == Ok([])
    ensures RecvMsgFixed(SendMsg([58])) == Ok([58])
  {
    var key := [0, 1, 0, 1, 0, 0, 1, 0];
    KeyByte82();
    Xor82With104();
    assert key[..8] == key;
    var r := EncryptMsg(key, [104]);
    assert r.Ok? && |r.value| == 1 && r.value[0] == 58;
    assert r.value == [58];
    FrameRoundTrip([58]);
    assert Colon in [58];
    SplitFirst([58], 0);
    FrameRoundTripFixed([58]);
  }
}
