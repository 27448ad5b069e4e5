# qkd-sim core in Dafny

A model of the classical side of the qkd-sim quantum key distribution
relay simulator. The project covers the following parts:

- **BB84 link.** Basis comparison builds a sift mask. Both ends sift their bits through it and cut the key to 13 bits. The receiver measures an error rate as a percentage, and both ends compare it with the threshold 10.
- **B92-style link.** Bases are compared on the first quarter of the symbols only, and the key is cut to 10 bits.
- **Cipher.** The message cipher packs the key bits MSB-first into 8-bit characters and XORs every message character with the single packed character.
- **Framing.** Messages go on the wire as `-1:` followed by the ciphertext, and are unframed with `split(':')[1]`.
- **Trusted relay.** A relay node composes its two link keys bit by bit. It re-encrypts the still-encrypted message under the composed key.
- **Topology resolver.** It reads the role-annotated graph dictionary and builds the undirected edge set. It picks the minimum-hop subset of the simple paths from the first sender to the first receiver.
- **Path dispatch.** It drops spy nodes from a path and starts one sender, trusted or receiver task per remaining node.
- **Path-level driver.** It runs the first minimum-hop path and then at most one other path.
- **Second BB84 variant (Ani_codes).** This variant has no error-rate exchange, and it splits roles by node order.
- **Stand-alone encryption check.** Four key arrays, their XORs, and a five-step encryption chain.

Python exceptions are values of `Results.Error`: `KeyError`, `IndexError`, `ValueError`, `TypeError` and `ZeroDivisionError`. Operations that can raise return `Result`.

Text is a sequence of code points below 0x110000, and `chr` past that limit raises ValueError.

Anything the simulator obtains from outside its own logic is a parameter of the model:
- random bits and bases;
- qubit measurement outcomes;
- classical messages received from the other end;
- the simple-path enumeration of `networkx`.

## Model

| member | source | states |
|---|---|---|
| Results.PyIndex | qkd/qkd_network.py:179-188 | Python list indexing: defined exactly for -len ≤ j < len, a negative index counts from the end, anything else is IndexError |
| BitXor.XorComm | qkd/qkd_crypto.py:57 | `^` on naturals is commutative |
| BitXor.XorAssoc | qkd/qkd_crypto.py:57 | `^` on naturals is associative |
| BitXor.XorCancel | qkd/qkd_crypto.py:57 | XOR-ing twice with the same key gives back the character |
| BitXor.XorByteCodePoint | qkd/qkd_crypto.py:57 | a code point XOR a byte is still a code point, so `chr` never raises under a one-byte key |
| Crypto.BinValueToBits | qkd/qkd_crypto.py:52 | `int(bits, 2)` of a bit group is below 2^width and writing it back in that width restores the group |
| Crypto.ToBitsBinValue | qkd/qkd_crypto.py:52 | reading back the fixed-width binary form of v < 2^n gives v |
| Crypto.PackKey | qkd/qkd_crypto.py:50-52 | the key string has one character per full group of 8 bits, each the group's MSB-first value; a key with an element other than 0 or 1 is a ValueError in the model |
| Crypto.XorText | qkd/test/encryption_test.py:39-43 | succeeds exactly for an empty text or a one-character key whose XORs stay code points; TypeError for any other key length, ValueError past 0x10FFFF; each output character is key XOR input character |
| Crypto.XorTextInverse | qkd/test/encryption_test.py:46-47 | decrypting with the same key string restores the text |
| Crypto.XorTextCompose | qkd/test/encryption_test.py:78-82 | encrypting under byte b and then byte a equals one encryption under a XOR b |
| Crypto.EncryptMsg | qkd/qkd_crypto.py:49-59 | succeeds exactly when the key is bits and the message is empty or the key has 8 to 15 bits; otherwise ValueError for a non-bit key and TypeError for a key that does not pack to one character; length preserved; each character XORed with the key's first byte |
| Crypto.EncryptTwice | qkd/qkd_crypto.py:49-59 | encrypting twice under the same key gives back the message |
| Crypto.DecryptMsg | qkd/qkd_crypto.py:63-64 | decryption fails exactly when encryption under the same key fails; otherwise its result has the ciphertext's length and encrypts back to the ciphertext |
| Crypto.DecryptEncrypt | qkd/qkd_crypto.py:63-64 | `decrypt_msg(k, encrypt_msg(k, m)) == m` whenever the encryption succeeds |
| Crypto.SendMsg | qkd/qkd_crypto.py:67-71 | the framed message is three characters longer and ends with the ciphertext |
| Crypto.Split | qkd/qkd_crypto.py:76 | `str.split(':')` yields one more part than there are colons and no part contains a colon |
| Crypto.JoinSplit | qkd/qkd_crypto.py:76 | joining the parts of the split with ':' restores the string |
| Crypto.SplitFirst | qkd/qkd_crypto.py:76 | the first part is everything before the first colon |
| Crypto.RecvMsg | qkd/qkd_crypto.py:74-81 | unframing succeeds exactly when the message has a colon (otherwise IndexError) and never returns a colon |
| Crypto.FrameRoundTrip | qkd/qkd_crypto.py:67-81 | unframing a framed ciphertext returns the ciphertext exactly when it has no colon, otherwise its prefix before the first colon |
| Crypto.RecvMsgFixed | qkd/qkd_crypto.py:74-81 | splitting once succeeds exactly when there is a colon (otherwise IndexError), and the framed text is then the part before the first colon, that colon, and the result |
| Crypto.FrameRoundTripFixed | qkd/qkd_crypto.py:67-81 | with a single split, unframing a framed ciphertext always returns it |
| Crypto.ColonCiphertextTruncated | qkd/qkd_crypto.py:76 | key bits 01010010 encrypt "h" to ":", which the written unframing turns into the empty string and the single split keeps |
| Sifting.Kept | qkd/qkd_BB84.py:93 | the kept positions are exactly the marked ones, in increasing order |
| Sifting.Filter | qkd/qkd_BB84.py:93 | the sifted list has one entry per kept position, the j-th being the raw entry at the j-th kept position |
| Sifting.Sift | qkd/qkd_BB84.py:156 | sifting raises IndexError exactly when some marked position lies past the raw list |
| Sifting.Take | qkd/qkd_BB84.py:93 | `s[:n]` has length min(len, n) and is a prefix of s |
| BB84.Mask | qkd/qkd_BB84.py:70-79 | KeyError exactly on a basis count mismatch; otherwise the mask is 1 exactly where the bases agree |
| BB84.KeptMatches | qkd/qkd_BB84.py:75-93 | the mask keeps as many positions as there are basis agreements |
| BB84.SendBB84 | qkd/qkd_BB84.py:51-127 | KeyError exactly on a basis count mismatch; the sender key has min(agreements, 13) bits, its j-th bit being the key bit at the j-th agreeing position; no eavesdropper is counted exactly when the rate is below 10 |
| BB84.Hamming | qkd/qkd_BB84.py:166 | the number of differing bits is at most the key length and is 0 exactly when the keys agree |
| BB84.ErrorRate | qkd/qkd_BB84.py:166 | IndexError when the disclosed key is shorter, ZeroDivisionError when nothing was sifted; otherwise a percentage in [0, 100] that is 0 exactly when the keys agree |
| BB84.SafeIffFewErrors | qkd/qkd_BB84.py:166-171 | the verdict "rate < 10" holds exactly when ten times the number of differing bits is below the key length |
| BB84.ReceiveBB84 | qkd/qkd_BB84.py:132-175 | the receiver key has exactly min(marked positions, 13) bits, its j-th bit is the raw bit at the j-th marked position, and an eavesdropper is counted exactly when the rate reaches 10 |
| BB84.RunLink | qkd/qkd_BB84.py:51-175 | a failed session is a KeyError when the basis counts differ and a ZeroDivisionError when they match but nothing was sifted |
| BB84.LinkAgreement | qkd/qkd_BB84.py:51-175 | a session completes exactly when the counts match and some basis agrees; then both keys have the same positive length and both ends reach the same verdict |
| BB84.UndisturbedLinkIsSafe | qkd/qkd_BB84.py:51-175 | on a channel that returns the encoded bit wherever bases agree, both keys are equal, the rate is 0 and neither end counts an eavesdropper |
| Relay.ComposeKey | qkd/qkd_node.py:92 | the composed key has the shorter length and its bits are the sums mod 2 |
| Relay.ComposeIsXor | qkd/qkd_node.py:91-92 | on bits, composition is the bitwise XOR and does not depend on the order of the links |
| Relay.BinValueCompose | qkd/qkd_node.py:91-92 | the value of the composed bit group is the XOR of the two groups' values |
| Relay.KeyByteCompose | qkd/qkd_node.py:91-92 | the composed key's character is the XOR of the two link keys' characters |
| Relay.EncryptIsByteXor | qkd/qkd_crypto.py:49-59 | a key of 8 to 15 bits encrypts as the single-byte XOR under its first byte |
| Relay.RelayStep | qkd/qkd_node.py:78-96 | re-encrypting under the composed key turns encryption under the previous link's key into encryption under the next link's key |
| Relay.SendNode | qkd/qkd_node.py:55-63 | sending fails exactly when encryption under the sifted key fails; the frame is three characters longer than the message, and a `recv_node` holding the same key recovers the message from it: always with the single split, and with the written split when the ciphertext has no colon |
| Relay.SendNodeIgnoresEves | qkd/qkd_node.py:58-62 | the eavesdropper count never changes what the sender sends |
| Relay.RecvNode | qkd/qkd_node.py:67-74 | succeeds exactly when the frame unframes and the ciphertext decrypts; an unframing error is the node's error; the result encrypts under the receiver key back to the ciphertext it unframed |
| Relay.RecvNodeRecovers | qkd/qkd_node.py:67-74 | a message encrypted under the receiver's key and carried intact by the framing comes out of `recv_node` unchanged |
| Relay.TrustedNode | qkd/qkd_node.py:78-96 | relaying succeeds exactly when the frame unframes and the composed key encrypts the ciphertext; an unframing error is the node's error; decrypting the forwarded frame under the composed key gives back the incoming ciphertext |
| Relay.TrustedNodeRelays | qkd/qkd_node.py:78-96 | between two usable keys, a relay turns the frame of a message encrypted under the previous link's key into the frame of the same message encrypted under the next link's key |
| Relay.UnframeFramed | qkd/qkd_crypto.py:67-81 | both unframings return a colon-free ciphertext unchanged, and the single split returns every ciphertext unchanged |
| Relay.ForwardTelescopes | qkd/qkd_node.py:78-96 | from any relay on, the chain hands the receiver the plaintext when every link's ciphertext crosses intact |
| Relay.Deliver | qkd/qkd_node.py:55-96 | the relay chain from sender to receiver fails only with an unframing IndexError or a cipher TypeError or ValueError |
| Relay.ChainDelivers | qkd/qkd_node.py:55-96 | with agreeing usable keys on every link, the receiver decrypts the sender's message: always with the single split, and with the written split when no link's ciphertext contains ':' |
| Relay.ChainTasks | qkd/Ani_codes/qkd_BB84.py:221-263 | IndexError on no nodes; one node sends to and receives from itself; otherwise the first node sends, the last receives, the others relay, and each hop's ends name each other |
| B92.Preparation | qkd/qkd_B92.py:59-65 | both basis strings have one 'Z' or 'X' per draw, 'Z' exactly for a 0 draw |
| B92.KeyString | qkd/qkd_B92.py:68-85 | IndexError unless every sampled step reads existing entries; the key has one bit per agreeing basis within the first quarter, in order |
| B92.SendQkd | qkd/qkd_B92.py:88-129 | Alice's key exists exactly when her key string does (otherwise IndexError); it is a bit list of min(length, 10) bits, the prefix of the key string |
| B92.ReceiveQkd | qkd/qkd_B92.py:142-184 | Bob's key exists exactly when his key string does (otherwise IndexError); it is a bit list of min(length, 10) bits, the prefix of the key string |
| B92.SameSampleKept | qkd/qkd_B92.py:88-187 | Alice's and Bob's keys have equal length, at most 10 and at most the sample size |
| B92.SameKeyWhenBitsAgree | qkd/qkd_B92.py:88-187 | when the measured bits agree wherever the sampled bases do, both ends hold the same key |
| B92.BasesAt | qkd/qkd_B92.py:309-361 | the sender has no basis towards a predecessor and the receiver none towards a successor; every other node has both, taken from Bob's and Alice's prepared strings |
| B92.HopBasesMatch | qkd/qkd_B92.py:309-364 | the driver prepares one basis pair per hop; hop i's sender uses Alice's string i and its receiver Bob's string i |
| B92.RelayDeliversOverB92 | qkd/qkd_B92.py:309-364 | on a B92 relay chain whose links' bits agree wherever the sampled bases do and whose keys have at least 8 bits, both ends of each link hold the same usable key and the receiver decrypts the sender's message: always with the single split, and with the written split when no link's ciphertext contains ':' |
| Network.RoleList | qkd/qkd_network.py:99-114 | a name is in a role list exactly when the dictionary declares it with that role, and the list starts with the first declaration carrying the role |
| Network.RoleOfDeclared | qkd/qkd_network.py:100 | with distinct keys, the role lookup returns the declared role |
| Network.EdgeList | qkd/qkd_network.py:115-116 | the edge list holds (n, v) exactly when n lists v as a neighbour |
| Network.EdgesUndirected | qkd/qkd_network.py:88-118 | {a, b} is an edge of the graph exactly when a lists b or b lists a, in either orientation |
| Network.MinLength | qkd/qkd_network.py:154 | the minimum length is attained by some path and bounds all of them |
| Network.OfLength | qkd/qkd_network.py:155 | the filter keeps exactly the paths of the given length, as a subsequence of the enumeration; its head is the first enumerated path of that length |
| Network.OfLengthAppend | qkd/qkd_network.py:155 | the filter keeps enumeration order: filtering a concatenation is the concatenation of the filtered parts |
| Network.GetOptPath | qkd/qkd_network.py:81-156 | IndexError on a node without two coordinates, KeyError when a node is drawn and some listed neighbour is not a dictionary key (the plot has no position for it), IndexError on a missing sender or receiver, ValueError on no path; on success every edge joins two keys; otherwise the paths are the enumeration over the graph's edge set from the first declared sender to the first declared receiver, the optimal paths are exactly the shortest ones in enumeration order, and OPT_PATH[0] is the first shortest enumerated path |
| Network.OptimalPathsAreShortestSimple | qkd/qkd_network.py:153-155 | when the enumeration yields simple paths from s to t, every optimal path is a simple path from s to t and no enumerated path is shorter |
| Network.RoleOf | qkd/qkd_network.py:173 | KeyError exactly for a name that is not a dictionary key |
| Network.PathNoSpiers | qkd/qkd_network.py:161 | KeyError exactly when some path node is not a key; otherwise the result holds exactly the path's non-spy nodes, as a subsequence of the path |
| Network.PathNoSpiersAppend | qkd/qkd_network.py:161 | the filter keeps path order: filtering a concatenation succeeds exactly when both parts do and is the concatenation of the filtered parts |
| Network.TaskFor | qkd/qkd_network.py:171-191 | KeyError for an unknown node, ValueError for a role other than sender, receiver or truster, IndexError for a sender or truster in last position; otherwise a sender is paired with the next node, a truster with the previous and next, a receiver with the previous, where the node before the first is the last |
| Network.TasksFrom | qkd/qkd_network.py:171-191 | succeeds exactly when every remaining node dispatches, with one task per node; a failure is the error of the first node that fails |
| Network.RunPath | qkd/qkd_network.py:159-191 | succeeds exactly when the spy filter succeeds and every spy-free node dispatches; KeyError from the filter; otherwise one task per spy-free node, in path order, or the error of the first node that fails |
| Network.TaskForChain | qkd/qkd_network.py:174-189 | on a sender-truster-receiver path, node i is dispatched with the role and neighbours of its chain position |
| Network.DispatchAlongChain | qkd/qkd_network.py:171-191 | on such a path the dispatch equals the node-order role split |
| Network.RunPathChain | qkd/qkd_network.py:159-191 | `run_path` on a path whose spy-free part is such a chain starts exactly the chain's role split |
| MainGraph.Graph5Roles | qkd/BB84_main/main.py:49-53 | in the driver script's graph the paths run from Ani to Xiufan, and Darren–Xiufan is an edge although only Darren lists it |
| MainGraph.SpyFiltered | qkd/qkd_network.py:161 | with Darren a spy, the filter turns Ani–Arya–Darren–Xiufan into Ani–Arya–Xiufan |
| MainGraph.SpyBypassed | qkd/qkd_network.py:159-191 | with those roles, Ani sends to Arya, Arya relays between Ani and Xiufan, and Xiufan receives from Arya |
| MainGraph.Graph5SpyBypassed | qkd/BB84_main/main.py:49-60 | the driver script's graph dispatches the path through the spy as that three-node chain |
| Protocol.Without | qkd/qkd_protocol.py:43-44 | removal keeps exactly the other paths, and its head is the first other path |
| Protocol.SelectPaths | qkd/qkd_protocol.py:39-51 | one or two runs; the first is OPT_PATH[0]; a second one differs from it, is the first other optimal path when one exists and otherwise the first other path of PATH; there is a single run exactly when no other path exists |
| Protocol.RunAll | qkd/qkd_protocol.py:41-51 | the runs complete exactly when every selected path dispatches, each run recording its path's tasks |
| Protocol.Qkd | qkd/qkd_protocol.py:32-51 | a resolver error is the driver's error; the driver completes exactly when the resolver does and every selected path dispatches; its runs are the selected paths in order, the first being OPT_PATH[0], each recording that path's dispatched tasks |
| Protocol.SelectionPrefersShortest | qkd/qkd_protocol.py:39-51 | the first run is a minimum-hop path, the second never repeats it and is minimum-hop too whenever another minimum-hop path exists, and there is a single run exactly when no other path exists |
| AniBB84.SendBB84 | qkd/Ani_codes/qkd_BB84.py:23-67 | KeyError exactly on a basis count mismatch; otherwise min(agreements, 13) key bits taken at the agreeing positions |
| AniBB84.ReceiveBB84 | qkd/Ani_codes/qkd_BB84.py:71-98 | IndexError exactly when a marked position lies past the raw list; otherwise exactly min(marked positions, 13) raw bits, taken at the marked positions |
| AniBB84.SameKeysAsBB84 | qkd/Ani_codes/qkd_BB84.py:23-98 | both ends compute the keys of the error-checking protocol |
| AniBB84.RunLink | qkd/Ani_codes/qkd_BB84.py:23-98 | a session of the variant can fail only with the sender's KeyError |
| AniBB84.LinkAgreement | qkd/Ani_codes/qkd_BB84.py:23-98 | a session fails only on a basis count mismatch; the keys have equal length, and are equal on an undisturbed channel |
| EncryptionTest.XorArrays | qkd/test/encryption_test.py:70-72 | the XOR array has a 1 exactly where the two arrays differ |
| EncryptionTest.XorArraysIsComposeKey | qkd/test/encryption_test.py:70-72 | on bits the XOR array is the relay's composed key |
| EncryptionTest.Chain | qkd/test/encryption_test.py:70-82 | the five encryptions succeed exactly when the text is empty or the keys have 8 to 15 bits, and keep the text length |
| EncryptionTest.ChainRecoversText | qkd/test/encryption_test.py:70-82 | for any four one-character keys of equal length the five-step chain returns the plaintext |
| EncryptionTest.KeyArraysPackToOneChar | qkd/test/encryption_test.py:57-65 | each 9-bit array packs to one character |
| EncryptionTest.HahahaSurvivesChain | qkd/test/encryption_test.py:55-82 | "hahaha" comes back unchanged from the chain |

## Left out

- Qubits, entanglement, gates and measurement (qunetsim) are not modelled. Measured bits and chosen bases are parameters. `UndisturbedChannel` and `BitsAgreeOnMatches` state when an end reads the encoded bit.
- Threads, host start-up, `connect`, acknowledgements, timeouts and qubit loss are left out. A qubit that does not arrive makes `get_qubit` return `None`, and the receiver's `q_bit.H()` or `q_bit.measure()` (qkd/qkd_BB84.py:143-144) would then raise AttributeError; the model has no such case.
- Randomness (`random`, `np.random`) is left out: random draws are parameters.
- `eval` of the received basis and mask strings is left out. The received list is the parameter.
- Spy behaviour (`sniffing_quantum`, `spy_fn`) is left out. Its effect on the key is whatever raw bits the parameters carry.
- `nx.all_simple_paths` is a parameter, which fixes the enumeration order. `IsSimplePath` states what its paths are, and no enumeration algorithm is modelled.
- Plotting, positions, colours, `print` and log output are left out. Their failures are kept: the IndexError of a missing coordinate, and the KeyError `draw_networkx` raises (qkd/qkd_network.py:147) for a neighbour that is not a key and so has no entry in `pos`.
- `exit()` and `network.stop` are left out.
- BB84.ErrorRate: the rate is the exact quotient, not `round(..., 2)`. With keys of at most 13 bits, no rate lies between 9.995 and 10, so rounding never changes the verdict.
- Crypto.PackKey: any element other than 0 or 1 is a ValueError in the model. Python accepts elements whose decimal digits are all 0 or 1, such as 10 (`[10,0,0,0,0,0,0]` joins to "10000000", which is `chr(128)`), and never looks at the trailing bits it drops.
- Network.GetOptPath: the role is `graph[n][0][0]`, a string. An empty role list, which Python would report as IndexError, cannot be represented.
- The B92 driver `QKD` (qkd/qkd_B92.py:277-278) unpacks `nodes, edges = graph` and then calls `connect(graph)`, whose `graph.keys()` (line 255) raises AttributeError for the `[nodes, edges]` list sketched in qkd/Ani_codes/main.py:20; a dictionary fails the unpacking unless it has exactly two keys. The driver as written therefore stops before any basis is prepared, and `BasesAt` / `HopBasesMatch` / `RelayDeliversOverB92` model the per-hop plan the driver evidently intends. Its threads are left out. Its key exchange is `SendQkd` / `ReceiveQkd`, and its cipher, framing and relay are the Crypto and Relay members. `encry_msg`, `decry_msg`, `send_msg` and `recv_msg` in qkd/qkd_B92.py:214-240 are the same functions.
- The B92 key-string concatenation `str(bit)` and `int32(k)` conversions are modelled as bit lists.
- `encrypt_msg` XORs every character with the single packed key character; `ord` raises TypeError unless the key packs to exactly one character. No repeating-key cipher is modelled.

## Findings

| source | as written | input that shows it | evidently intended | confidence | as-written member | corrected member |
|---|---|---|---|---|---|---|
| qkd/qkd_crypto.py:76 | `recv_msg` unframes with `split(':')[1]`, keeping only the text between the first and second colons | key bits 01010010 (byte 0x52) and message "h": the ciphertext is ":", the frame is "-1::", and the receiver gets "" | split once (`split(':', 1)[1]`), so every ciphertext crosses unchanged | not executed | Crypto.ColonCiphertextTruncated | Crypto.FrameRoundTripFixed |

The same `split(':')[1]` appears in qkd/qkd_B92.py:235 and qkd/Ani_codes/qkd_BB84.py:129. `Relay.ChainDelivers` proves delivery for the single split unconditionally. For the written split, it needs every link's ciphertext to be colon-free.
