# Verified model of gnb_udp_over_tcp

gnb_udp_over_tcp carries UDP datagrams over one TCP connection. This project models its core in Dafny
and proves what that core is for:

- **Framing and relay.** `gnb_payload16_handle` is an incremental decoder of length-prefixed frames.
  `Framing` says what a byte stream means, `Payload16` is the decoder over its buffers and is proved
  to compute exactly that meaning, `Chunking` shows that the way TCP cuts the stream does not matter,
  `Relay` is the transition system of one connection with its safety and delivery theorems over every
  run, `Endpoint` has the callbacks of both services over their buffers, and `Tunnel` joins the two
  services and the connection into one object whose every step is a step of that system, so that the
  theorems hold of the services after any inputs.
- **The cache.** `Lru32` is `gnb_lru32` on the heap: an intrusive list (`DoublyLinkedList`), a chained
  hash map (`Hash32`) and free-list pools (`FixedPool`) that point at each other. Every operation is
  proved to act on one sequence of entries as `LruModel` says, and the laws of a bounded map, recency
  and eviction over whole runs are proved there. `LruRuns` carries them over to the linked structure, in
  every run of operations from creation on. `Sequences` holds what lists and tables share.
- **The hash.** `MurmurHash` proves the C code against a recursive form, inverts each of its steps, and
  derives injectivity for inputs of any length.
- **Timing and tables.** `Keepalive` has the exact conditions under which the idle routine never drops
  a live connection and always drops a dead one. `SelectEvents`, `HeapTable` and `AddressList` are the
  three index tables.

Where the source updates objects in place, the model does too: classes with fields and arrays, methods
with the source's loops and branches. Each method states its whole effect, on its fields or on an
abstract value (`Pending()`, `nodes`, `entries`, `Model()`, `Contents()`, `Table()`), and the laws are
lemmas about that value.

`dafny verify dfyconfig.toml` checks everything.

## What the proofs brought out

- A two-byte frame (length 2) is completed only when a further byte or a further call comes. A trailing
  empty call hands it over; that is the one way in which the cutting of the stream can show
  (`Chunking.CallsParse`, `Chunking.EmptyCallMatters`).
- `-2` is never returned, since a 16-bit length cannot exceed 65535, and a context that has not failed
  never returns `-4`. A context that has refused a frame as too long keeps its header, and returns `-4`
  from then on, unless that frame came as one exact chunk (`Payload16.Context.Handle`).
- The UDP side makes its context once (src/service/uot_udp_service.c:66) and keeps it when it reconnects
  (src/service/uot_udp_service.c:27-54). So one datagram refused in that way disables it until it is restarted: no
  later connection hands on anything (`Endpoint.Channel.Disabled`). After the loop has refused a length of
  zero the next call would copy -2 bytes. Any unfinished frame left by a connection that broke off makes
  some streams of the next one come out wrong; only a context with nothing left in it starts afresh
  (`Relay.SurvivesReconnect`, `Tunnel.Tunnel.Reopen`).
- A relayed datagram longer than 4092 bytes makes the receiver's decoder fail; delivery on a connection is
  complete exactly when there was none (`Relay.RelayDeliversAll`).
- `service_send_cb` resets the send buffer after a send that took only part of it. The receiver stays in
  step exactly when that part ends between two frames (`Relay.ShortSendLaw`); then the dropped frames are
  lost and nothing else (`Relay.ShortSendLoses`). Otherwise a datagram can be handed on that nobody sent
  (`Relay.ShortSendBreaksFraming`).
- The early exit of the select scan never loses a ready event exactly when no two registered events
  share a descriptor (`SelectEvents.DistinctFdsDecide`). Deleting an event a second time removes another
  one, unless its stale index is turned away (`SelectEvents.DeleteIsExact`).
- `gnb_doubly_linked_list_move_head` does not move anything in a list of two, though a hit is documented
  to move the node to the head (src/gnb_lru32.h:97). A cache of capacity two can therefore evict the key
  read last (`LruModel.StaleEviction`), and this is the only way to break the order by last access
  (`LruModel.RecencyStep`, `LruModel.RecencyRunExact`).
- src/gnb_lru32.h:76 promises that a full cache returns the data passed to put. The code evicts the
  tail and returns the tail's data; the model follows the code.
- No idle call closes a live connection exactly when the idle gap g and the reply delay d satisfy
  g + d <= 13 or one of them is zero (`Keepalive.NoFalseTimeout`), and a silent peer is noticed within
  15 + 2g seconds exactly when 1 <= g <= 3 (`Keepalive.DetectionIsExact`): at four seconds or more
  between idle calls each of them sends and none looks at the timeout.

## Assumptions about the environment

- No frame boundary carries the length 1, for which the decoder would copy -1 bytes (`Framing.NoRunt`).
  In the relay this is proved, not assumed (`Relay.ReceiveIsSafe`).
- A negative return of the decoder ends the connection, as in src/service/uot_udp_service.c:228-231. The
  context is not used again after a length of zero was refused inside the loop.
- A datagram plus its four-byte head fits the send buffer, or the datagram alone does not. The guard at
  src/service/uot_udp_service.c:191 counts the datagram only. It also fits a 16-bit length.
- In the runs of `Relay` and `Tunnel` a TCP send takes the whole buffer, or fails with "try again" and
  changes nothing: on EAGAIN, EINTR and ENOBUFS `do_send` returns before `service_send_cb` is reached
  (src/gnb_network_service.c:492-499). What a shorter send does is `Relay.ShortSendLaw`.
- The relay theorems are about one connection that starts with empty contexts on both sides: new ones, or
  on the UDP side the one of the connection before if nothing is left in it.
- `sub_type` is not written by the senders, so it is an arbitrary byte. So are the bytes of a
  keepalive's text area behind its terminating zero.
- Keys of one cache have one length (four bytes in the channel table), and a cache has a positive
  capacity. `Hash32.Map.Del` needs the weaker condition `HeadComparable`.
- Allocations for the cache succeed.
- Time does not run backwards, and the clock does not wrap during a connection.
- `select` reports as many as there are bits set, and the caller's event array is large enough.
- Addresses have a non-zero port and are IPv4 or IPv6.

## Model

| member | source | states |
|---|---|---|
| Framing.ParseSplit | src/gnb_payload16.c:158-280 | Parsing a stream up to any byte and resuming from the unfinished frame gives the frames, rest and verdict of parsing it in one go. |
| Framing.ParseErrorSticks | src/gnb_payload16.c:255-266 | Once a verdict is negative, further bytes change neither it nor the frames before it. |
| Framing.ParseSound | src/gnb_payload16.c:158-280 | The frames cut off and the rest, put back together, are the stream; a negative verdict is -1 or -3 and says what the next header is. |
| Framing.ParseComplete | src/gnb_payload16.c:158-280 | Any sequence of acceptable frames followed by an unfinished one parses to exactly those frames and that rest. |
| Framing.TwoByteFrame | src/gnb_payload16.c:179-190 | A frame of two bytes is handed over as soon as a byte follows it. |
| Framing.ParsedFramesAreFrames | src/gnb_payload16.c:173-190 | Every frame handed over has the length its header announces, within the limit. |
| Framing.RestIsPartial | src/gnb_payload16.c:193-204 | What an accepted stream leaves over is a strict prefix of an acceptable frame. |
| Framing.NoRuntSplit | src/gnb_payload16.c:179-185 | A stream free of length-1 headers is free of them up to any byte and, resumed from the unfinished frame, after it. |
| Bytes.Uint16Bytes | src/gnb_payload16.c:67-87 | The two bytes on the wire read back as the 16-bit value they were made from. |
| Payload16.Context.constructor | src/gnb_payload16.c:94-105 | A fresh context is valid, has an empty unfinished frame and a block of 4 + max_payload_size bytes. |
| Payload16.Context.TurnPart | src/gnb_payload16.c:170-206 | A turn in the PART state completes the frame with exactly its bytes and leaves the others, or stores all input and stops; every copy stays inside the block. With the header of a refused frame it returns -4 and changes nothing. |
| Payload16.Context.TurnHead | src/gnb_payload16.c:208-273 | A turn in the HEAD state collects the two length bytes from wherever they were cut and returns -1 or -3 exactly for a zero or too long length, whose header then stays in the context. |
| Payload16.Context.Turn | src/gnb_payload16.c:158-280 | Each turn keeps the invariant on r_len and the block, and either stops with the verdict of the stream or makes progress and leaves the remainder of the parse; on a refused context it returns -4. |
| Payload16.Context.Loop | src/gnb_payload16.c:158-282 | The do-while loop terminates and computes the parse of unfinished frame plus input, including the turn it takes on empty input. |
| Payload16.Context.Handle | src/gnb_payload16.c:120-283 | One call returns the verdict, shows the callback the frames, and keeps as unfinished frame the rest, of unfinished frame plus chunk; the fast path changes none of that. What an error leaves in the context is stated, and a call on a refused context returns -4 and changes nothing. |
| Payload16.ParseExactFrame | src/gnb_payload16.c:130-155 | The fast path is sound: a chunk that is one acceptable frame parses to that frame and nothing else. |
| Chunking.CallsParse | src/gnb_payload16.c:131-280 | Any sequence of calls agrees with parsing the concatenated stream if and only if it does not end with an empty call on the header of a two-byte frame, in which case that frame comes as well. |
| Chunking.ChunkingIndependence | src/gnb_payload16.c:131-280 | Two ways to cut one stream into calls give the same callbacks, the same first error and the same unfinished frame. |
| Chunking.EmptyCallMatters | src/gnb_payload16.c:158-190 | The exception is real: on the bytes 0 2 a trailing empty call decides whether the frame is handed over. |
| Chunking.HandleAll | src/service/uot_udp_service.c:214-237 | A context fed call by call until the first error does what the sequence of calls says, from any reachable unfinished frame. |
| Relay.ParseQueued | src/gnb_payload16.c:158-280 | A prefix of a stream of queued frames yields exactly the frames wholly inside it, stopping early only at one longer than the limit, and never shows a length-1 header. |
| Relay.InvNext | src/service/uot_udp_service.c:176-237 | Accepting, queueing a keepalive, sending and receiving any chunk all keep the invariant: pending, wire and buffer bytes are the flying frames, and accepted is handed plus the flying datagrams. |
| Relay.InvRun | src/service/uot_udp_service.c:176-237 | The invariant holds after every legal run. |
| Relay.QueueLaw | src/service/uot_udp_service.c:176-211 | A datagram that fits is accepted and queued as one frame behind what is there; a keepalive that fits is queued likewise; what does not fit changes nothing. |
| Relay.TransferLaw | src/gnb_network_service.c:466-522 | A send moves the whole buffer onto the wire; arriving bytes leave the wire, and they are in the completed frames or in what the decoder is left with. |
| Relay.SingleFrame | src/service/uot_tcp_service.c:236-256 | A frame of type 111 is one datagram, its data; a frame of type 107 is one keepalive; any other is neither. |
| Relay.EchoesGrow | src/service/uot_tcp_service.c:29-56 | Echoes for which there is room are all queued, 28 bytes each. |
| Relay.RelayIsPrefix | src/service/uot_tcp_service.c:198-256 | In every run the datagrams handed on are a prefix of the accepted ones: in order, byte for byte, none merged, split or doubled. |
| Relay.RelayDeliversAll | src/service/uot_tcp_service.c:198-256 | Once all bytes are consumed, every accepted datagram has been handed on if and only if none exceeded 4092 bytes; otherwise the decoder has refused. |
| Relay.ReceiveIsSafe | src/gnb_payload16.c:179-185 | In every reachable state the decoder gets no length-1 header and shows no frame shorter than its head, so the obligations of the callbacks hold. |
| Relay.SurvivesReconnect | src/service/uot_udp_service.c:27-74 | Of all unfinished frames a context may carry into a new connection, the empty one and no other lets every stream of acceptable frames come out as it was sent. |
| Relay.Received | src/service/uot_tcp_service.c:259-282 | A received chunk completes exactly the next flying frames, and fails only on a flying frame that is too long. |
| Relay.DuplexIsPrefix | src/service/uot_tcp_service.c:186-195 | With both directions and the echoed keepalives on one connection, each direction still hands on a prefix of what it accepted. |
| Relay.InvDuplex | src/service/uot_tcp_service.c:186-256 | Both directions keep their invariants in every interleaving, echoes included. |
| Relay.DuplexDeliversAll | src/service/uot_tcp_service.c:186-256 | In each direction of a two-way run, once its bytes are consumed, everything accepted has been handed on if and only if none exceeded 4092 bytes. |
| Relay.PrefixCode | src/gnb_payload16.c:173-190 | A stream of queued frames that begins another one consists of the first frames of that other one. |
| Relay.ShortSendLaw | src/service/uot_udp_service.c:273-279 | In every open state, a send that takes m bytes and drops the rest leaves the receiver with whole frames if and only if the m bytes end between two frames in flight. |
| Relay.ShortSendLoses | src/service/uot_udp_service.c:273-279 | A short send that ends between frames costs the datagrams of the dropped frames and keeps the invariant for the others. |
| Relay.ShortSendBreaksFraming | src/service/uot_udp_service.c:273-279 | One that does not can make the receiver hand on a datagram that was never accepted: three bytes of a five-byte frame, and then another frame. |
| Endpoint.Htonll | src/gnb_address.c:47-82 | The eight shifts reverse the bytes: what lies in memory is the number in network order. |
| Endpoint.SwapTwice | src/gnb_address.c:47-82 | gnb_ntohll undoes gnb_htonll on every 64-bit number. |
| Endpoint.MostSignificantFirst | src/gnb_address.c:47-82 | Network order is most significant byte first. |
| Endpoint.ZBuf.PutFrame | src/gnb_payload16.c:79-82 | Laying out length, type and data appends one frame to the buffer, with stale bytes where nothing is written, and keeps the bytes already there. |
| Endpoint.Channel.constructor | src/service/uot_tcp_service.c:94-118 | A new channel has empty buffers and a fresh decoder context of 4096 bytes, all its own. |
| Endpoint.Channel.HandleUdp | src/service/uot_udp_service.c:176-211 | A datagram that fits the send buffer with its head is appended as one frame, whatever its length; one that does not is dropped and nothing changes. |
| Endpoint.Channel.SendKeepaliveFrame | src/service/uot_udp_service.c:296-322 | When 28 bytes are free a keepalive frame is appended, whose 24 bytes of data begin with the time in network order and the text; otherwise nothing changes. |
| Endpoint.Channel.DoSend | src/gnb_network_service.c:466-522 | The n bytes send took leave and the buffer is reset; "try again" changes nothing. |
| Endpoint.Channel.TcpToUdp | src/service/uot_udp_service.c:115-150 | The datagram given to the UDP socket is the frame's data, whole and unchanged. |
| Endpoint.Channel.Callback | src/service/uot_udp_service.c:153-173 | A datagram frame is handed on; a keepalive refreshes the time stamp and on the TCP side queues one keepalive frame with the current time if there is room; any other frame is ignored. |
| Endpoint.Channel.Dispatch | src/service/uot_tcp_service.c:236-256 | The callbacks of one decoder call hand on its datagrams in order and queue one echo for each keepalive; with room for all, the buffer grows by 28 bytes for each. |
| Endpoint.Channel.HandleTcp | src/service/uot_tcp_service.c:259-282 | Receiving a chunk takes the receive step: the datagrams of the completed frames are handed on, the rest is kept, and an error finishes the connection. With a refused context it only finishes the connection. |
| Endpoint.Channel.Reconnect | src/service/uot_udp_service.c:27-54 | Connecting again gives an empty send buffer and a running connection, and leaves the decoder context as it is. |
| Endpoint.Channel.Disabled | src/service/uot_udp_service.c:214-237 | After a refused frame, however often the UDP side reconnects and whatever arrives first, the connection is finished and nothing is handed on. |
| Tunnel.Tunnel.Open | src/service/uot_tcp_service.c:94-137 | The first connection joins two new channels in the initial state of the two-way system. |
| Tunnel.Tunnel.Reopen | src/service/uot_udp_service.c:27-54 | A reconnecting UDP side with nothing left in its old context and a newly accepted channel are a tunnel in the initial state. |
| Tunnel.Tunnel.AcceptUp | src/service/uot_udp_service.c:176-211 | A datagram at the UDP side is an accept step of the way up. |
| Tunnel.Tunnel.AcceptDown | src/service/uot_tcp_service.c:140-183 | A datagram at the TCP side is an accept step of the way down. |
| Tunnel.Tunnel.Ping | src/service/uot_udp_service.c:296-322 | A keepalive of the idle routine is a keepalive step of the way up. |
| Tunnel.Tunnel.PassUp | src/gnb_network_service.c:466-522 | A send of the UDP side that takes the whole buffer is the send step of the way up: the bytes are on the wire and the buffer is empty. |
| Tunnel.Tunnel.PassDown | src/gnb_network_service.c:466-522 | A send of the TCP side that takes the whole buffer is the send step of the way down: the bytes are on the wire and the buffer is empty. |
| Tunnel.Tunnel.ReceiveUp | src/service/uot_tcp_service.c:259-282 | Any bytes arriving at the TCP side are a receive step of the way up, whose echoes are queued in the way down; what the decoder and the callbacks demand of their input is proved. |
| Tunnel.Tunnel.ReceiveDown | src/service/uot_udp_service.c:214-237 | Any bytes arriving at the UDP side are a receive step of the way down, without echoes. |
| Tunnel.Tunnel.CanHappen | src/service/uot_udp_service.c:185-195 | Told from the buffers and connections: bytes can arrive while the connection is open and they are under way, and a datagram can be received unless it is in the gap of the guard. |
| Tunnel.Tunnel.Run | src/gnb_network_service.c:572-581 | Any sequence of datagrams, pings, whole sends and arriving bytes takes exactly the steps of the two-way system that they stand for. |
| Tunnel.AcceptedRun | src/service/uot_udp_service.c:176-211 | In any run of inputs what is accepted, each way, are exactly the datagrams received while the send buffer had room for them, in order. |
| Tunnel.Tunnel.OpenAndRun | src/service/uot_tcp_service.c:198-256 | End to end, after any inputs: what is accepted are the datagrams that found room; each side has handed on a prefix of what the other accepted, and all of it once no bytes are left, if and only if no datagram was too long. |
| MurmurHash.MurmurhashHash | libs/hash/murmurhash.c:5-45 | The loop, the tail and the finaliser compute the recursive hash. |
| MurmurHash.HashTrace | libs/hash/murmurhash.c:5-45 | For every input: the running hash starts as the length modulo 2^32, each block in turn is mixed in, then the bytes that are left, then the finaliser. |
| MurmurHash.WordValue | libs/hash/murmurhash.c:12-15 | A block is read low byte first. |
| MurmurHash.ScrambleValue | libs/hash/murmurhash.c:17-19 | The scrambling in shifts and products. |
| MurmurHash.MixValue | libs/hash/murmurhash.c:21-22 | Mixing a scrambled block in, as a product and an exclusive or. |
| MurmurHash.TailValue | libs/hash/murmurhash.c:28-38 | The tail step for one, two and three bytes, in shifts and products. |
| MurmurHash.FinishValue | libs/hash/murmurhash.c:40-42 | The finaliser in shifts and products. |
| MurmurHash.ZeroValue | libs/hash/murmurhash.c:9-26 | The hash of any number of zero blocks: the length, multiplied once for each, and finished. |
| MurmurHash.KnownValues | libs/hash/murmurhash.c:5-45 | The hash values of inputs of zero to four bytes, worked out. |
| MurmurHash.KnownLongValue | libs/hash/murmurhash.c:5-45 | And of an input with two blocks and a tail. |
| MurmurHash.StepInverse | libs/hash/murmurhash.c:17-42 | Multiplication by 0x5bd1e995 and each xor-shift have inverses modulo 2^32. |
| MurmurHash.ScrambleInverse | libs/hash/murmurhash.c:17-19 | The scrambling of a block is a bijection on words. |
| MurmurHash.MixInverse | libs/hash/murmurhash.c:17-22 | Mixing a block in is invertible both in the running hash and in the block. |
| MurmurHash.OctetsInverse | libs/hash/murmurhash.c:12-15 | Reading four bytes little-endian and writing a word back undo each other. |
| MurmurHash.BlocksInverse | libs/hash/murmurhash.c:11-26 | For any number of blocks the running hash before them can be recovered from the one after. |
| MurmurHash.BlocksAppend | libs/hash/murmurhash.c:11-26 | The block loop over a concatenation at a block boundary is the loop over the parts. |
| MurmurHash.TailInverse | libs/hash/murmurhash.c:28-38 | The tail step is invertible in the running hash. |
| MurmurHash.FinishInverse | libs/hash/murmurhash.c:40-42 | The finaliser is a bijection. |
| MurmurHash.BlockIsBijection | libs/hash/murmurhash.c:5-45 | With everything around one aligned block fixed, at any length, each hash value is reached by exactly one block, and it is computed. |
| MurmurHash.OneBlockDecides | libs/hash/murmurhash.c:5-45 | Inputs of one length that differ only inside one aligned block collide if and only if they are equal. |
| MurmurHash.TailWordInjective | libs/hash/murmurhash.c:28-37 | The bytes of the tail can be read off the word xored in. |
| MurmurHash.TailDecides | libs/hash/murmurhash.c:5-45 | Inputs of one length that differ only inside the tail collide if and only if they are equal. |
| MurmurHash.FourByteKeys | src/gnb_lru32.h:120 | On the four-byte keys of the channel table the hash is a bijection. |
| FixedPool.FixedPool.constructor | src/gnb_fixed_pool.c:38-67 | A new pool holds every block it was carved into. |
| FixedPool.FixedPool.Pop | src/gnb_fixed_pool.c:70-86 | Pop takes the last free block, or NULL from an empty pool. |
| FixedPool.FixedPool.Push | src/gnb_fixed_pool.c:89-105 | Push puts a block on top, or refuses only when the pool is full; the occupied-slot refusal is never taken. |
| DoublyLinkedList.List.Add | src/gnb_doubly_linked_list.c:43-78 | A node not in the list becomes its head; the links still spell the list both ways. |
| DoublyLinkedList.List.PopHead | src/gnb_doubly_linked_list.c:81-118 | The head leaves, the order of the others stays. |
| DoublyLinkedList.List.PopTail | src/gnb_doubly_linked_list.c:121-158 | The tail leaves, the order of the others stays. |
| DoublyLinkedList.List.MoveHead | src/gnb_doubly_linked_list.c:162-193 | The node moves to the front, except in lists of one or two nodes, which stay as they are. |
| DoublyLinkedList.List.Pop | src/gnb_doubly_linked_list.c:196-269 | Any member leaves, the order of the others stays; on a member the error returns are never taken. |
| DoublyLinkedList.List.Detach | src/gnb_doubly_linked_list.c:176-182 | Closing the gap of a node that is not the head leaves the links spelling the list without it. |
| Sequences.SwapRemoveExact | src/gnb_alloc.c:129-142 | Filling the hole with the last element removes exactly the chosen element and keeps the others distinct. |
| Hash32.Map.constructor | src/gnb_hash32.c:32-69 | A new map is empty. |
| Hash32.Map.Get | src/gnb_hash32.c:256-292 | Get finds the entry of a key exactly when the map has one. |
| Hash32.Map.EntryBuckets | src/gnb_hash32.c:128-190 | Every entry is in the bucket its hash modulo bucket_num selects, every element of a chain is an entry, and chain_len is the chain's length. |
| Hash32.Map.Set | src/gnb_hash32.c:128-190 | Set binds the key to the value and no other key; it returns the entry of a known key and NULL for a new one. |
| Hash32.Map.Append | src/gnb_hash32.c:138-184 | A new entry linked at the end of the chain of its hash keeps chain_len, kv_num and every other chain right. |
| Hash32.Map.Del | src/gnb_hash32.c:295-361 | Del removes exactly the key's entry and returns it, or NULL. |
| Hash32.Map.DelLater | src/gnb_hash32.c:328-361 | The walk past the head of the chain removes exactly the key's entry if it is there. |
| Hash32.Map.UnlinkHead | src/gnb_hash32.c:311-326 | Taking the head off a chain removes its key and nothing else. |
| Hash32.Map.Unlink | src/gnb_hash32.c:344-350 | Taking a later entry off a chain removes its key and nothing else. |
| Hash32.Map.UniformComparable | src/gnb_hash32.c:311 | Keys of one length never meet the head comparison that lacks a length check. |
| Hash32.FiledAdd | src/gnb_hash32.c:132-143 | Chains with a new entry at the end of its own chain hold the extended map: every entry in the chain its hash selects. |
| Hash32.FiledRemove | src/gnb_hash32.c:344-349 | Chains without one entry hold the map without its key. |
| Hash32.EnumerationIsExact | src/gnb_hash32.c:383-402 | The chains one after the other list every entry once and nothing else. |
| Hash32.FlatPrefixDistinct | src/gnb_hash32.c:386-402 | After n buckets the walk has listed exactly the entries whose hash selects one of them, each once. |
| Hash32.Map.ToArray | src/gnb_hash32.c:364-406 | With a large enough *num the array has kv_num elements and lists every live entry exactly once. |
| LruModel.GetKeeps | src/gnb_lru32.c:257-271 | Touching a key changes no association. |
| LruModel.PutLaw | src/gnb_lru32.c:106-148 | After put the key has the value, the evicted key is gone and every other key is as before; something is evicted exactly when the key is new and the cache is full. |
| LruModel.PopByKeyLaw | src/gnb_lru32.c:290-321 | Popping a key removes that association and no other. |
| LruModel.DropLastKeeps | src/gnb_lru32.c:360-394 | Popping the tail removes its association and no other. |
| LruModel.ApplyLaw | src/gnb_lru32.c:106-394 | What each operation does to the association of every key, and which entry pop_head and pop_tail remove. |
| LruModel.RecencyStep | src/gnb_doubly_linked_list.c:164-166 | A step keeps the list ordered by last access if and only if it does not access the tail of a list of two. |
| LruModel.RecencyRun | src/gnb_lru32.c:110-126 | In every run without such a step the list is ordered by last access, newest first. |
| LruModel.RecencyRunExact | src/gnb_doubly_linked_list.c:164-166 | Every state of a run is ordered by last access if and only if the run never accesses the tail of a list of two. |
| LruModel.EvictsLeastRecent | src/gnb_lru32.c:123-126 | In such runs put evicts a key that was accessed no later than any other. |
| LruModel.StaleEviction | src/gnb_doubly_linked_list.c:164-166 | With capacity two the key read last can be the one evicted. |
| LruModel.WfApply | src/gnb_lru32.c:106-394 | Every operation keeps keys distinct and the size within the capacity. |
| Lru32.Lru.Create | src/gnb_lru32.c:54-85 | A new cache, made of fresh memory throughout, is valid and empty with the capacity asked for; with a block size, all its blocks are free and distinct. |
| Lru32.Lru.HashGet | src/gnb_lru32.c:244-254 | The node found is the one of the key's entry, NULL exactly when there is none; nothing moves. |
| Lru32.Lru.Get | src/gnb_lru32.c:257-271 | Get finds the entry and touches it, on the whole linked structure. |
| Lru32.Lru.MoveToHead | src/gnb_lru32.c:274-287 | The same effect as get, without a result. |
| Lru32.Lru.Put | src/gnb_lru32.c:106-148 | Put acts on the sequence of entries as the model says and returns the data of the evicted entry, or NULL; a data pool gives up one block for a new key in a cache that is not full, and is otherwise unchanged. |
| Lru32.Lru.PopIfFull | src/gnb_lru32.c:123-126 | Making room evicts exactly the last entry of a full cache and gives its block back. |
| Lru32.Lru.PopItems | src/gnb_lru32.c:24-38 | With room in the cache no pool is empty, and what is popped is in no use. |
| Lru32.Lru.ReturnNode | src/gnb_lru32.c:41-51 | The node, its list node and its block go back to their pools, which hold all that is not in use. |
| Lru32.Lru.PopByKey | src/gnb_lru32.c:290-321 | The entry of the key leaves and its data is returned, NULL when there is none; list, map and pools stay consistent. |
| Lru32.Lru.PopHead | src/gnb_lru32.c:324-357 | The first entry leaves and its data is returned. |
| Lru32.Lru.PopTail | src/gnb_lru32.c:360-394 | The last entry leaves and its data is returned. |
| Lru32.Lru.GetHead | src/gnb_lru32.c:397-417 | The data of the first entry, NULL for an empty cache. |
| Lru32.Lru.GetTail | src/gnb_lru32.c:420-440 | The data of the last entry, NULL for an empty cache. |
| Lru32.Lru.Insert | src/gnb_lru32.c:135-144 | A node from the pools is linked into list and map as the new first entry. |
| Lru32.Lru.Store | src/gnb_lru32.c:151-198 | The key holds a copy of the data in memory of its own, order and eviction are those of put, and the block that is replaced or evicted is the one released. |
| Lru32.ReleasedLaw | src/gnb_lru32.c:157-176 | The block a store releases is that of the key's entry, or that of the last entry when a new key finds the cache full. |
| Lru32.Lru.FixedStore | src/gnb_lru32.c:201-241 | The key holds the first block_size bytes given, in a block no other key has; every other key's bytes, and the order, are as put leaves them. With block size 0 nothing happens. |
| Lru32.Lru.FixedGet | src/gnb_lru32.c:257-271 | In a cache filled by fixed_store the node found holds the bytes stored under the key. |
| Lru32.Lru.FixedMoveToHead | src/gnb_lru32.c:274-287 | Moving to the head keeps block ownership and the bytes of every key. |
| Lru32.Lru.FixedRoom | src/gnb_lru32.c:216-220 | Evicting gives the block of the last entry back and leaves the bytes of all surviving keys alone. |
| Lru32.Lru.FixedPopTail | src/gnb_lru32.c:360-394 | Popping the tail returns its block and keeps block ownership and the bytes of every other key. |
| Lru32.Lru.FixedPopHead | src/gnb_lru32.c:324-357 | Popping the head returns its block and keeps block ownership and the bytes of every other key. |
| Lru32.Lru.FixedPopByKey | src/gnb_lru32.c:290-321 | Popping a key returns its block and keeps block ownership and the bytes of every other key. |
| Lru32.OwnedTake | src/gnb_lru32.c:32-34 | A block taken from the pool belongs to no entry, and giving it to a new entry keeps the blocks of live keys distinct and disjoint from the free ones. |
| Lru32.OwnedRemove | src/gnb_lru32.c:45-47 | A removed entry's block becomes free and the ownership of the others stays. |
| Lru32.Lru.ModelFacts | src/gnb_lru32.c:139-144 | Keys in the cache are distinct and are exactly the keys of the map. |
| Lru32.Lru.Covered | src/gnb_lru32.c:139-140 | Every entry of the map belongs to a cached node. |
| Lru32.Lru.RepresentationInvariant | src/gnb_lru32.c:24-51 | In every state size is the list's num and the map's kv_num, each pool in use holds max_size - size items, and list nodes, cached nodes and map entries are in bijection with consistent back pointers. |
| LruRuns.Do | src/gnb_lru32.c:106-394 | Each operation takes the linked structure to the model's next state and leaves it fit for the next operation. |
| LruRuns.Run | src/gnb_lru32.c:106-394 | Any sequence of operations keeps the linked structure valid and takes it where the model's run goes. |
| LruRuns.CreateAndRun | src/gnb_lru32.c:54-394 | So it is in every run from a new cache, and in runs that never access the tail of a list of two the linked structure is ordered by last access. |
| LruRuns.FixedRun | src/gnb_lru32.c:201-394 | Through any sequence of fixed_store and the other operations, evictions and reuse of blocks included, the bytes under each key are the model's and live keys own distinct blocks. |
| LruRuns.CreateAndFixedRun | src/gnb_lru32.c:54-394 | The same from a new cache with a block size. |
| Keepalive.Service.constructor | src/service/uot_udp_service.c:77-97 | A new service is connected, with both connection time stamps set to now. |
| Keepalive.Service.TryTcpConnect | src/service/uot_udp_service.c:27-54 | Connecting refreshes the keepalive and the reconnect time stamps. |
| Keepalive.Service.ServiceIdle | src/service/uot_udp_service.c:325-362 | Without a connection it reconnects exactly when more than 5 seconds have passed since the last attempt, setting both time stamps; with one it sends if more than 3 seconds have passed since the last send, and else closes exactly if the keepalive time stamp is more than 15 seconds old. |
| Keepalive.NoFalseTimeout | src/service/uot_udp_service.c:343-358 | No admissible run closes a live connection if and only if g + d <= 13 or g or d is zero. |
| Keepalive.LiveRun | src/service/uot_udp_service.c:343-358 | Under that condition the connection stays through every admissible run. |
| Keepalive.UnsafeCloses | src/service/uot_udp_service.c:343-358 | Otherwise there is an admissible run that closes it. |
| Keepalive.DetectsFailure | src/service/uot_udp_service.c:325-362 | With idle calls at most g <= 3 seconds apart, a peer silent since k is dropped at an idle call no later than k + 15 + 2g. |
| Keepalive.SlowIdleNeverDetects | src/service/uot_udp_service.c:343-347 | With idle calls at least four seconds apart a silent peer is never dropped. |
| Keepalive.DetectionIsExact | src/service/uot_udp_service.c:325-362 | The bound k + 15 + 2g holds in all cases if and only if 1 <= g <= 3. |
| Keepalive.ReconnectsExactly | src/service/uot_udp_service.c:333-341 | A lost connection is retried at the first idle call more than five seconds after the last attempt, and at no other. |
| Keepalive.ReconnectsSoon | src/service/uot_udp_service.c:333-341 | With idle calls at most g seconds apart, a connection lost after an attempt at r is retried no earlier than r + 6 and no later than r + 5 + g, or g seconds after the last idle call with a connection if that came later. |
| SelectEvents.Flags | src/event/select_event_handler.c:212-224 | The event type has READ, WRITE and ERROR exactly for membership in the three sets, and is NONE for none. |
| SelectEvents.Handler.constructor | src/event/select_event_handler.c:35-57 | A new handler watches nothing. |
| SelectEvents.Handler.AddEvent | src/event/select_event_handler.c:61-96 | Any event is appended and enters the sets asked for, or -1 is returned for a full table and nothing changes; the handler stays valid exactly when it was refused or its descriptor was not registered. |
| SelectEvents.Handler.SetEvent | src/event/select_event_handler.c:100-137 | Enabling and disabling change the asked sets by the event's descriptor only; the sets stay within the registered descriptors exactly unless an unregistered one is enabled. |
| SelectEvents.Handler.DelEvent | src/event/select_event_handler.c:141-167 | For any event, registered or not: what its index selects leaves by swap-remove, which is exactly that event if and only if it is registered or turned away; its descriptor leaves the sets, every remaining event's index is its slot, and deleting a registered event keeps the handler valid. |
| SelectEvents.Handler.GetEvent | src/event/select_event_handler.c:171-245 | The events reported are the ready ones in table order, at most as many as select counted, each with its flags; on error or nothing ready there are none. |
| SelectEvents.Handler.Scan | src/event/select_event_handler.c:210-237 | The loop with its early exit reports the first ready events up to the count. |
| SelectEvents.Handler.EventType | src/event/select_event_handler.c:212-224 | Setting the three bits one by one gives the flags. |
| SelectEvents.ReadyOf | src/event/select_event_handler.c:210-230 | The ready events are registered and ready, and every registered ready event is among them. |
| SelectEvents.Reported | src/event/select_event_handler.c:192-237 | The first ready events, as many as counted or all there are, and none on an error. |
| SelectEvents.ReadyCount | src/event/select_event_handler.c:232-234 | With distinct descriptors there are no more ready events than bits set. |
| SelectEvents.ScanIsComplete | src/event/select_event_handler.c:210-237 | With the count select promises, every bit set is reported and no descriptor twice. |
| SelectEvents.DistinctFdsDecide | src/event/select_event_handler.c:210-237 | Whatever is ready, the scan that stops at the bit count reports every ready event, if and only if no two registered events share a descriptor. |
| SelectEvents.Deleted | src/event/select_event_handler.c:145-157 | An index the guards let pass costs the table one event, and the last one takes its place. |
| SelectEvents.DeleteIsExact | src/event/select_event_handler.c:145-157 | Exactly the given event leaves the table if and only if it is registered or its index is turned away by the guards. |
| HeapTable.Heap.constructor | src/gnb_alloc.c:42-57 | A new heap has no live fragment. |
| HeapTable.Heap.Alloc | src/gnb_alloc.c:60-91 | A fresh fragment is appended at its idx; NULL for size 0, for more than 2^30 - 1 bytes and when malloc fails; exit exactly when the table is full and the size is not 0. |
| HeapTable.Heap.Free | src/gnb_alloc.c:94-146 | Freeing a live block removes exactly that fragment and keeps every other at its idx; freeing NULL changes nothing. |
| HeapTable.Heap.Clean | src/gnb_alloc.c:149-165 | Cleaning leaves no fragment. |
| HeapTable.Heap.Serve | src/gnb_alloc.c:60-146 | One granted allocation adds one fresh fragment of the size asked for, one release takes away the fragment of the slot, anything else changes nothing; the ledger follows. |
| HeapTable.RecordLaw | src/gnb_alloc.c:60-146 | Which requests are granted, which release a fragment and which end the program. |
| HeapTable.Heap.Run | src/gnb_alloc.c:60-146 | Any sequence of allocations and releases of live blocks leaves the fragments the ledger says in the slots it says, new ones being fresh. |
| HeapTable.LedgerRun | src/gnb_alloc.c:60-146 | In every run each fragment allocated so far is live, in exactly one slot, or has been given back. |
| HeapTable.Heap.CreateAndRun | src/gnb_alloc.c:42-146 | From a new heap, after any requests, exactly the fragments allocated and not given back are live, each in one slot. |
| AddressList.Position | src/gnb_address.c:124-145 | The first live slot with the host, or num when there is none. |
| AddressList.LastOldest | src/gnb_address.c:148-172 | A slot with the smallest time stamp, and the last such one. |
| AddressList.AddressList.Find | src/gnb_address.c:124-145 | Find returns the first live slot with the same family and the same four or sixteen bytes, and -1 exactly when there is none. |
| AddressList.AddressList.GetFreeIdx | src/gnb_address.c:148-172 | The first slot without a port, else the last of the oldest. |
| AddressList.AddressList.UpdateAddress | src/gnb_address.c:175-201 | Update replaces exactly the target slot and counts a filled empty one. |
| AddressList.UpdateLaw | src/gnb_address.c:175-201 | The first num slots stay proper and pairwise distinct, the others empty; a known host keeps its slot, a new one takes the first empty slot, or in a full table the last of those none is older than. |
| AddressList.InvRun | src/gnb_address.c:175-201 | Shape, up-to-dateness and, with time stamps in order, the choice of what to forget survive every sequence of updates. |
| AddressList.UpToDateStep | src/gnb_address.c:175-201 | After an update every live entry is still the latest one given for its host. |
| AddressList.ForgetsOldestStep | src/gnb_address.c:148-172 | After an update in time order, what is missing is no newer than anything held, and the table is full. |
| AddressList.RunFromEmpty | src/gnb_address.c:104-201 | Over every sequence of updates the table keeps its shape and holds the latest entry of each of its hosts; with time stamps in order it forgets a host only in favour of hosts refreshed no earlier. |

## Left out

- Sockets, epoll, kqueue, signals, option parsing, logging, and the printing and parsing of addresses: system calls and text. What the sockets deliver and take is a parameter of the steps.
- Payload16.Context.Handle: lengths of 1 at a frame boundary are excluded by a precondition, since the copy of -1 bytes has no defined outcome, and so is a context in which the loop has refused a length of zero, for which it would be -2 bytes.
- Endpoint.Channel.HandleTcp: completed frames of 2 or 3 bytes are excluded, for their type is not inside the frame. `Relay.ReceiveIsSafe` and `Tunnel` show that peers running this code send none. The frames of a call are dispatched after the call, since a callback touches neither the context nor the input.
- Tunnel.Tunnel.PassUp: a send that fails with "try again" is no step, and a shorter one is in `Relay.ShortSendLaw` and `Endpoint.Channel.DoSend`.
- Tunnel.Tunnel.PassDown: the same on the other side.
- Tunnel.Tunnel.Run: the closing of connections and the errors that lead to it are not among its inputs, so it is about one connection. `Tunnel.Tunnel.Reopen` begins another one.
- Endpoint.Channel.TcpToUdp: the result of the UDP send is arbitrary. A datagram the socket refuses is counted as handed over.
- Hash32.Map.Set: only the mode that stores a pointer (value_len 0), which the cache uses. The mode that copies bytes into the entry without checking their length is not modelled.
- Hash32.Map.Del: keys for which the comparison with the head of a chain reads past a shorter key or stops inside a longer one are excluded by `HeadComparable`; keys of one length never meet it.
- Hash32.Map.ToArray: callers whose *num is below kv_num are excluded, because the array would overflow.
- `gnb_hash32_store` does not implement a map update (kv is never assigned, so a replaced key is appended again), and nothing uses it. The key listings (src/gnb_hash32.c:409-540) repeat the walk of `gnb_hash32_array`.
- `gnb_fixed_list`: after a pop its vacated slot still names the moved node. No service uses it.
- Lru32.Lru.Put: who owns the data blocks is not tracked when put or store is used on a cache with a block size; the header reserves those calls for block size 0 (src/gnb_lru32.h:63-66). The one cache the services create is used that way all the same: it has the block size of a channel and is filled by put (src/service/uot_tcp_service.c:63 and :120). Its order, counts and the content of its data pool are proved, and `LruRuns.CreateAndRun` covers it. Data is a block of bytes or NULL.
- Lru32.Lru.Store: an allocation that fails is not modelled. The block released is reported, and the heap's own table is in `HeapTable`.
- Lru32.Lru.FixedStore: the argument is at least block_size bytes long, which the C code takes on trust.
- Lru32.Lru.HeapCopy: stands for `gnb_heap_alloc` followed by memcpy.
- HeapTable.Heap.Free: a pointer that is not live is excluded. The byte counters `alloc_byte` and `ralloc_byte` are left out, because `fragment->size` is never set.
- SelectEvents.Handler.DelEvent: an index equal to the size of a full table is excluded, for which the C code writes behind it. `uevent` and the release of events are left out.
- SelectEvents.Handler.AddEvent: descriptors beyond FD_SETSIZE are not considered.
- AddressList.AddressList.UpdateAddress: a table of size 0, of which the C code reads slot 0, is excluded.
- Keepalive.NoFalseTimeout: the reply delay stands for the network, the peer's echo and room in the buffers.
- Idle reaping on the TCP side looks only at the tail of the cache, which traffic does not move (src/service/uot_tcp_service.c:352-386), so no liveness is claimed for it.
- The life of event and connection objects within a batch of events rests on the reuse of memory and on the order in which the system delivers events.
- `get_netmask_class`, address comparison and the conversions from socket addresses have no state.
