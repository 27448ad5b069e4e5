/**
 The trusted-relay chain: the sender encrypts under its sifted key, every
 trusted node composes the keys of its two links bit by bit and
 re-encrypts the still-encrypted message under the composed key, and the
 receiver decrypts under its own sifted key. No node decrypts in the
 middle: the single key bytes telescope.
 */
module Relay {
  import opened Results
  import opened BitXor
  import opened Crypto
  import opened Sifting
  import BB84

  /** `[(prev[j] + next[j]) % 2 for j in range(min(len(prev), len(next)))]`. */
  function ComposeKey(prev: seq<int>, next: seq<int>): (key: seq<int>)
    ensures |key| == if |prev| < |next| then |prev| else |next|
    ensures IsBits(key)
    ensures forall j :: 0 <= j < |key| ==> key[j] == (prev[j] + next[j]) % 2
  {
    seq(if |prev| < |next| then |prev| else |next|, j requires 0 <= j < |prev| && j < |next| => (prev[j] + next[j]) % 2)
  }

  /** On bits the composed key is the bitwise XOR, and the order of the two links does not matter. */
  lemma ComposeIsXor(prev: seq<int>, next: seq<int>)
    requires IsBits(prev) && IsBits(next)
    ensures ComposeKey(prev, next) == ComposeKey(next, prev)
    ensures forall j :: 0 <= j < |ComposeKey(prev, next)| ==> ComposeKey(prev, next)[j] == Xor(prev[j], next[j])
  {
  }

  /** The value of a composed bit string is the XOR of the two values. */
  lemma {:induction false} BinValueCompose(a: seq<int>, b: seq<int>)
    requires IsBits(a) && IsBits(b) && |a| == |b|
    ensures BinValue(ComposeKey(a, b)) == Xor(BinValue(a), BinValue(b))
    decreases |a|
  {
    var c := ComposeKey(a, b);
    if |a| == 0 {
      XorZero(0);
    } else {
      var n := |a| - 1;
      assert c[..n] == ComposeKey(a[..n], b[..n]);
      BinValueCompose(a[..n], b[..n]);
      var va, vb := BinValue(a), BinValue(b);
      assert va == 2 * BinValue(a[..n]) + a[n];
      assert vb == 2 * BinValue(b[..n]) + b[n];
      assert va / 2 == BinValue(a[..n]) && va % 2 == a[n];
      assert vb / 2 == BinValue(b[..n]) && vb % 2 == b[n];
      XorUnfold(va, vb);
      assert c[n] == LowBit(va, vb);
      assert BinValue(c) == 2 * BinValue(c[..n]) + c[n];
    }
  }

  /** Packing the composed key gives the XOR of the two packed key bytes. */
  lemma KeyByteCompose(prev: seq<int>, next: seq<int>)
    requires IsBits(prev) && IsBits(next) && |prev| >= 8 && |next| >= 8
    ensures KeyByte(ComposeKey(prev, next)) == Xor(KeyByte(prev), KeyByte(next))
  {
    assert ComposeKey(prev, next)[..8] == ComposeKey(prev[..8], next[..8]);
    BinValueCompose(prev[..8], next[..8]);
  }

  /** A key the cipher accepts for any message: bits that pack to exactly one character. */
  predicate UsableKey(key: seq<int>) {
    IsBits(key) && 8 <= |key| <= 15
  }

  /** With a usable key, encrypt_msg is the single-byte XOR under the key's first byte. */
  lemma EncryptIsByteXor(key: seq<int>, msg: Text)
    requires UsableKey(key)
    ensures EncryptMsg(key, msg) == XorText([KeyByte(key) as CodePoint], msg)
  {
    XorTextByteKey(KeyByte(key) as CodePoint, msg);
  }

  /**
   The relay step: a message encrypted under prev's byte, re-encrypted under
   the composition of prev and next, is the message encrypted under next's
   byte, as if the relay had decrypted and encrypted again.
   */
  lemma RelayStep(prev: seq<int>, next: seq<int>, msg: Text)
    requires UsableKey(prev) && UsableKey(next)
    ensures UsableKey(ComposeKey(prev, next))
    ensures EncryptMsg(prev, msg).Ok?
    ensures EncryptMsg(ComposeKey(prev, next), EncryptMsg(prev, msg).value) == EncryptMsg(next, msg)
  {
    var a, b := KeyByte(prev), KeyByte(next);
    var k := ComposeKey(prev, next);
    KeyByteCompose(prev, next);
    EncryptIsByteXor(prev, msg);
    EncryptIsByteXor(next, msg);
    var c := EncryptMsg(prev, msg).value;
    EncryptIsByteXor(k, c);
    XorTextCompose(Xor(a, b) as CodePoint, a as CodePoint, msg);
    XorComm(a, b);
    XorCancel(b, a);
  }

  /** How a node unframes the incoming message. */
  datatype Framing =
    | SplitAll   // `split(':')[1]`, as the code is written
    | SplitOnce  // `split(':', 1)[1]`, the evidently intended unframing

  function Unframe(framing: Framing, framed: Text): Result<Text> {
    match framing
    case SplitAll => RecvMsg(framed)
    case SplitOnce => RecvMsgFixed(framed)
  }

  /**
   `send_node`: encrypt under the sifted key `send_bb84` returned, then send
   exactly one framed message. The eavesdropper count is not consulted.
   A receiver holding the same key recovers the message from the frame:
   always with the single split, and with the written split when the
   ciphertext has no colon.
   */
  function SendNode(msg: Text, link: BB84.SenderOutcome): (r: Result<Text>)
    ensures r.Ok? <==> EncryptMsg(link.key, msg).Ok?
    ensures r.Ok? ==> |r.value| == |msg| + 3
    ensures r.Ok? ==> RecvNode(SplitOnce, r.value, BB84.ReceiverOutcome(link.key, 0.0, 0)) == Ok(msg)
    ensures r.Ok? && Colon !in r.value[3..] ==> RecvNode(SplitAll, r.value, BB84.ReceiverOutcome(link.key, 0.0, 0)) == Ok(msg)
  {
    var c :- EncryptMsg(link.key, msg);
    var back := BB84.ReceiverOutcome(link.key, 0.0, 0);
    RecvNodeRecovers(SplitOnce, msg, back);
    if Colon in c then Ok(SendMsg(c))
    else
      RecvNodeRecovers(SplitAll, msg, back);
      Ok(SendMsg(c))
  }

  /** The abort on a detected eavesdropper is commented out: the count never changes what is sent. */
  lemma SendNodeIgnoresEves(msg: Text, link: BB84.SenderOutcome, eves: nat)
    ensures SendNode(msg, link.(eves := eves)) == SendNode(msg, link)
  {
  }

  /**
   `recv_node`: unframe, then decrypt under the sifted key from `receive_bb84`.
   What it returns is the plaintext whose encryption under that key is the
   ciphertext it unframed.
   */
  function RecvNode(framing: Framing, framed: Text, link: BB84.ReceiverOutcome): (r: Result<Text>)
    ensures r.Ok? <==> Unframe(framing, framed).Ok? && EncryptMsg(link.key, Unframe(framing, framed).value).Ok?
    ensures Unframe(framing, framed).Err? ==> r == Err(Unframe(framing, framed).error)
    ensures r.Ok? ==> EncryptMsg(link.key, r.value) == Ok(Unframe(framing, framed).value)
  {
    var c :- Unframe(framing, framed);
    DecryptMsg(link.key, c)
  }

  /** A message encrypted under the receiver's key and carried intact is decrypted by `recv_node`. */
  lemma RecvNodeRecovers(framing: Framing, msg: Text, link: BB84.ReceiverOutcome)
    requires CarriedIntact(framing, link.key, msg)
    ensures RecvNode(framing, SendMsg(EncryptMsg(link.key, msg).value), link) == Ok(msg)
  {
    UnframeFramed(framing, EncryptMsg(link.key, msg).value);
    DecryptEncrypt(link.key, msg);
  }

  /**
   `trusted_node`: unframe what the previous node sent, compose the two link
   keys and encrypt the still-encrypted message under the composition.
   Decrypting what it forwards under the composed key gives back the
   ciphertext it received.
   */
  function TrustedNode(framing: Framing, framed: Text, prevKey: seq<int>, nextKey: seq<int>): (r: Result<Text>)
    ensures r.Ok? <==> Unframe(framing, framed).Ok? && EncryptMsg(ComposeKey(prevKey, nextKey), Unframe(framing, framed).value).Ok?
    ensures Unframe(framing, framed).Err? ==> r == Err(Unframe(framing, framed).error)
    ensures r.Ok? ==> RecvNode(SplitOnce, r.value, BB84.ReceiverOutcome(ComposeKey(prevKey, nextKey), 0.0, 0)) == Unframe(framing, framed)
  {
    var c :- Unframe(framing, framed);
    var k := ComposeKey(prevKey, nextKey);
    var c2 :- EncryptMsg(k, c);
    FrameRoundTripFixed(c2);
    DecryptEncrypt(k, c);
    Ok(SendMsg(c2))
  }

  /**
   A relay between two usable keys turns the frame of a message encrypted
   under the previous link's key into the frame of the same message
   encrypted under the next link's key.
   */
  lemma TrustedNodeRelays(framing: Framing, msg: Text, prevKey: seq<int>, nextKey: seq<int>)
    requires UsableKey(prevKey) && UsableKey(nextKey) && CarriedIntact(framing, prevKey, msg)
    ensures TrustedNode(framing, SendMsg(EncryptMsg(prevKey, msg).value), prevKey, nextKey) == Ok(SendMsg(EncryptMsg(nextKey, msg).value))
  {
    UnframeFramed(framing, EncryptMsg(prevKey, msg).value);
    RelayStep(prevKey, nextKey, msg);
  }

  /** The sifted keys at the two ends of one link. */
  datatype HopKeys = HopKeys(senderKey: seq<int>, receiverKey: seq<int>)

  /**
   The framed message arriving at a node whose incoming link produced
   `prevKey`, passed on through the links in `rest` to the receiver.
   */
  function Forward(framing: Framing, framed: Text, prevKey: seq<int>, rest: seq<HopKeys>): (r: Result<Text>)
    ensures r.Err? ==> r.error in {IndexError, TypeError, ValueError}
    decreases |rest|
  {
    if |rest| == 0 then RecvNode(framing, framed, BB84.ReceiverOutcome(prevKey, 0.0, 0))
    else
      var out :- TrustedNode(framing, framed, prevKey, rest[0].senderKey);
      Forward(framing, out, rest[0].receiverKey, rest[1..])
  }

  /**
   The message as the receiver decrypts it after crossing every link of
   the chain. A failure is an unframing IndexError or a cipher TypeError
   or ValueError; ChainDelivers states when there is none.
   */
  function Deliver(framing: Framing, msg: Text, hops: seq<HopKeys>): (r: Result<Text>)
    requires |hops| >= 1
    ensures r.Err? ==> r.error in {IndexError, TypeError, ValueError}
  {
    var framed :- SendNode(msg, BB84.SenderOutcome([], hops[0].senderKey, 0));
    Forward(framing, framed, hops[0].receiverKey, hops[1..])
  }

  /** Both ends of every link hold the same usable key. */
  predicate AgreedHops(hops: seq<HopKeys>) {
    forall i :: 0 <= i < |hops| ==> hops[i].senderKey == hops[i].receiverKey && UsableKey(hops[i].senderKey)
  }

  /** The ciphertext on no link contains ':'. */
  predicate ColonFreeHops(msg: Text, hops: seq<HopKeys>)
    requires AgreedHops(hops)
  {
    forall i, j :: 0 <= i < |hops| && 0 <= j < |msg| ==> Xor(KeyByte(hops[i].senderKey), msg[j]) != Colon
  }

  /** Unframing a framed ciphertext that the chosen framing reproduces. */
  predicate Transparent(framing: Framing, c: Text) {
    framing == SplitOnce || Colon !in c
  }

  /** The message encrypted under key crosses a link unchanged by the framing. */
  predicate CarriedIntact(framing: Framing, key: seq<int>, msg: Text) {
    EncryptMsg(key, msg).Ok? && Transparent(framing, EncryptMsg(key, msg).value)
  }

  lemma UnframeFramed(framing: Framing, c: Text)
    requires Transparent(framing, c)
    ensures Unframe(framing, SendMsg(c)) == Ok(c)
  {
    FrameRoundTrip(c);
    FrameRoundTripFixed(c);
  }

  lemma {:induction false} ForwardTelescopes(framing: Framing, msg: Text, prevKey: seq<int>, rest: seq<HopKeys>)
    requires UsableKey(prevKey) && AgreedHops(rest)
    requires CarriedIntact(framing, prevKey, msg)
    requires forall i :: 0 <= i < |rest| ==> CarriedIntact(framing, rest[i].senderKey, msg)
    ensures Forward(framing, SendMsg(EncryptMsg(prevKey, msg).value), prevKey, rest) == Ok(msg)
    decreases |rest|
  {
    if |rest| == 0 {
      RecvNodeRecovers(framing, msg, BB84.ReceiverOutcome(prevKey, 0.0, 0));
    } else {
      var next := rest[0].senderKey;
      TrustedNodeRelays(framing, msg, prevKey, next);
      ForwardTelescopes(framing, msg, next, rest[1..]);
    }
  }

  /**
   When both ends of every link agree on a usable key, the receiver
   decrypts exactly the sender's message: always with the split-once
   unframing, and with the code's split-at-every-colon unframing whenever
   no link's ciphertext contains ':'.
   */
  lemma ChainDelivers(framing: Framing, msg: Text, hops: seq<HopKeys>)
    requires |hops| >= 1 && AgreedHops(hops)
    requires framing == SplitAll ==> ColonFreeHops(msg, hops)
    ensures Deliver(framing, msg, hops) == Ok(msg)
  {
    forall i | 0 <= i < |hops|
      ensures CarriedIntact(framing, hops[i].senderKey, msg)
    {
      var k := hops[i].senderKey;
      EncryptIsByteXor(k, msg);
      XorTextByteKey(KeyByte(k) as CodePoint, msg);
      if framing == SplitAll && |msg| > 0 {
        var c := EncryptMsg(k, msg).value;
        assert forall j :: 0 <= j < |c| ==> c[j] == Xor(KeyByte(k), msg[j]);
      }
    }
    assert forall i :: 0 <= i < |hops[1..]| ==> hops[1..][i] == hops[i + 1];
    ForwardTelescopes(framing, msg, hops[0].receiverKey, hops[1..]);
  }

  /** Node roles along a chain, each with the neighbours it exchanges keys with. */
  datatype Task<T> =
    | SenderTask(node: T, next: T)
    | TrustedTask(node: T, prev: T, next: T)
    | ReceiverTask(node: T, prev: T)

  function NextOf<T>(t: Task<T>): Option<T> {
    match t
    case SenderTask(_, next) => Some(next)
    case TrustedTask(_, _, next) => Some(next)
    case ReceiverTask(_, _) => None
  }

  function PrevOf<T>(t: Task<T>): Option<T> {
    match t
    case SenderTask(_, _) => None
    case TrustedTask(_, prev, _) => Some(prev)
    case ReceiverTask(_, prev) => Some(prev)
  }

  /**
   One task per node of a chain of at least two: the first sends, the last
   receives, every other one relays, and each hop's two ends name each other.
   */
  predicate ChainShaped<T(==)>(nodes: seq<T>, tasks: seq<Task<T>>) {
    && |nodes| >= 2
    && |tasks| == |nodes|
    && tasks[0].SenderTask?
    && tasks[|tasks| - 1].ReceiverTask?
    && (forall i :: 0 < i < |tasks| - 1 ==> tasks[i].TrustedTask?)
    && (forall i :: 0 <= i < |tasks| ==> tasks[i].node == nodes[i])
    && (forall i :: 0 <= i < |tasks| - 1 ==> NextOf(tasks[i]) == Some(nodes[i + 1]) && PrevOf(tasks[i + 1]) == Some(nodes[i]))
  }

  /** The role of node i of a chain of at least two nodes. */
  function TaskAt<T>(nodes: seq<T>, i: nat): Task<T>
    requires 2 <= |nodes| && i < |nodes|
  {
    if i == 0 then SenderTask(nodes[0], nodes[1])
    else if i == |nodes| - 1 then ReceiverTask(nodes[i], nodes[i - 1])
    else TrustedTask(nodes[i], nodes[i - 1], nodes[i + 1])
  }

  /**
   The node-order role split of the stand-alone `QKD` drivers: the first
   node sends, the last receives, the ones between are trusted relays
   (with two nodes there is no relay). With a single node, that node both
   sends to and receives from itself.
   */
  function ChainTasks<T(==)>(nodes: seq<T>): (r: Result<seq<Task<T>>>)
    ensures r.Ok? <==> |nodes| >= 1
    ensures r.Err? ==> r.error == IndexError
    ensures r.Ok? && |nodes| >= 2 ==> ChainShaped(nodes, r.value)
    ensures r.Ok? && |nodes| == 1 ==> r.value == [SenderTask(nodes[0], nodes[0]), ReceiverTask(nodes[0], nodes[0])]
  {
    var n := |nodes|;
    if n == 0 then Err(IndexError)
    else if n == 1 then Ok([SenderTask(nodes[0], nodes[0]), ReceiverTask(nodes[0], nodes[0])])
    else
      var tasks := seq(n, i requires 0 <= i < n => TaskAt(nodes, i));
      assert ChainShaped(nodes, tasks) by {
        forall i | 0 <= i < n - 1
          ensures NextOf(tasks[i]) == Some(nodes[i + 1]) && PrevOf(tasks[i + 1]) == Some(nodes[i])
        {
        }
      }
      Ok(tasks)
  }
}
