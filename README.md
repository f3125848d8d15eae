# CONNECT-UDP client core of aioquic-masque, in Dafny

This project models the client side of CONNECT-UDP (RFC 9298) over HTTP/3 as aioquic-masque
implements it. It has two parts, and proves properties of each.

**Capsule codec and reassembly buffer** (`src/aioquic/masque/capsule.py`)
- A capsule is `varint(type) ‖ varint(length) ‖ payload`, as section 3.2 of RFC 9297 defines.
  DATAGRAM is type 0, from section 3.5 of the same RFC.
- The varints are those of section 16 of RFC 9000 (`varint.dfy`).
- `CapsuleBuffer.read_capsule_data` works on a fixed 65535-byte store with two cursors: the
  committed cursor `_start` and the buffer position. It is a class (`Capsule.CapsuleBuffer`)
  over an array (`QuicBuffer.Buffer`). Each method is proved against a value-level function:
  - `ReadCapsuleData` against `Capsule.Ingest`;
  - `DecodeUntil`, the decoding loop, against `Capsule.Scan`;
  - `PullCapsule`, one pass of the loop, against `Capsule.Step`.
- `Ingest` reproduces every path of the code:
  - a refused chunk;
  - reads bounded by the store's capacity rather than by `end`, so a header cut by `end` is
    read from stale bytes and then rejected by the `tell() + length > end` test;
  - the BufferReadError exit, which leaves the position where the failing read left it;
  - the reset of both cursors once everything is consumed.
- Near the end of the store, that BufferReadError exit corrupts the stream, in one of two ways:
  - When the type read raises, the position stays at `_start`, and the next chunk is written
    over the held-back bytes (`CapsuleStream.ReadErrorOverwrites`).
  - When the length read raises, the position stays right after the type. The next chunk is
    written from there. If the type reached past `end`, the chunk lands after stale bytes, which
    are spliced into the stream (`CapsuleStream.LengthReadErrorSplices`).
- `capsule_stream.dfy` proves what the buffer delivers for a stream of capsules, however the
  stream is cut into chunks.

**Tunnel state machine** (`src/aioquic/masque/tunnel.py`)
- The handshake (`Initialized → ConnectSent → Connected`) and the check of the response headers.
- The routing of stream data and native HTTP datagrams.
- The Context-ID framing of UDP payloads.
- The `UdpTunnel` class keeps the calls it makes on the HTTP/3 connection as a ghost trace
  `sent`, and what it hands to its user (the connect callback, the datagram handler) as a ghost
  trace `outputs`.
  - `HandleHttpEvent` is proved against the value-level function `Tunnel.HandleEvent`.
  - `ReceiveCapsules` is proved against `Tunnel.ReceiveAll`.
  - `ReceiveDatagram` is proved against `Tunnel.ReceiveOne`.
  - `Connect` and `SendDatagram` state what they send directly in their contracts.
- Any exception is the single outcome `Raised`.

Some behaviours of the code differ from what RFC 9298 and RFC 9297 describe, or from what
the package's own event classes suggest. The model keeps them as written:
- A refused handshake raises and stays in `ConnectSent`. There is no `Failed` state, and the
  `ConnectFailed` event class (events.py:19) is never produced.
  - The `status` and `capsule` flags are only ever bound to true. A missing flag therefore
    surfaces as an unbound local, not as `H3Error`.
  - A non-2xx `:status` does not stop the scan.
- A refused chunk moves the position back to `_start`, not to where it was before the call. The
  undecoded tail is discarded together with the chunk.
- The Context ID is the big-endian value of the whole prefix masked with `0x3f`, not the varint
  value of section 16 of RFC 9000 (`Tunnel.UnframeContext256`).
- An empty HTTP datagram raises on `data[0]` instead of being dropped.

## Model

| member | source | states |
|---|---|---|
| Varint.Length | src/aioquic/masque/capsule.py:25-26 | a varint takes 1, 2, 4 or 8 bytes, and the value fits the 6 free bits of the first byte plus the bytes after it |
| Varint.Encode | src/aioquic/masque/capsule.py:25-26 | `push_uint_var` writes as many bytes as the width its first byte announces |
| Varint.Pull | src/aioquic/masque/capsule.py:73-74 | `pull_uint_var` reads the width announced by the first byte and stops right after it; it raises exactly when the first byte or the announced width passes the end of the store, whatever `end` is |
| Varint.MaskedAtBigEndian | src/aioquic/masque/capsule.py:73-74 | the value read is the first byte with its prefix masked off, then the following bytes, big-endian |
| Varint.PullEncoded | src/aioquic/masque/capsule.py:73-74 | reading back what `push_uint_var` wrote, wherever it sits in the store and whatever follows it, gives the value and the position right after the encoding |
| Varint.EncodeSmall | tests/test_masque.py:15-17 | a value below 64 is its own one-byte encoding |
| QuicBuffer.Buffer.constructor | src/aioquic/masque/capsule.py:36 | a store of the given capacity, position 0 |
| QuicBuffer.Buffer.PushBytes | src/aioquic/masque/capsule.py:62-66 | the chunk is written at the position if and only if it fits; a chunk that does not fit changes nothing |
| QuicBuffer.Buffer.Seek | src/aioquic/masque/capsule.py:65 | moves the position |
| QuicBuffer.Buffer.PullUintVar | src/aioquic/masque/capsule.py:73-74 | agrees with `Varint.Pull` on the store; on a read error the position does not move |
| QuicBuffer.Buffer.PullBytes | src/aioquic/masque/capsule.py:78 | returns the n bytes at the position and moves past them |
| Capsule.Decoded | src/aioquic/masque/capsule.py:79-82 | a capsule read from the wire is a `DatagramCapsule` if and only if its type is 0, and then it carries the payload |
| Capsule.FrameBytes | src/aioquic/masque/capsule.py:23-29 | the length of a capsule's wire form is its header length plus the payload length |
| Capsule.EncodeCapsule | src/aioquic/masque/capsule.py:23-29 | `_encode_capsule` raises exactly for a payload too long for a varint; otherwise its bytes read back as the type at 0, the payload length right after, and then the payload |
| Capsule.EncodeDatagramCapsule | src/aioquic/masque/capsule.py:31-32 | the DATAGRAM encoding is the wire form of a type-0 capsule |
| Capsule.EncodeDatagramShort | tests/test_masque.py:10-26 | for a payload under 64 bytes: byte 0, then a length byte with both width bits clear, then the payload, two bytes longer in all |
| Capsule.HeaderAt | src/aioquic/masque/capsule.py:73-74 | a store holding a capsule's header reads back its type and payload length |
| Capsule.Step | src/aioquic/masque/capsule.py:71-85 | one round of the loop: a capsule ending no later than `end` at a later position, or an exit that keeps `_start` and leaves the position inside the store |
| Capsule.Scan | src/aioquic/masque/capsule.py:71-88 | the loop leaves `_start` at or before the position, which stays inside the store, with `_start` no later than `end` |
| Capsule.Ingest | src/aioquic/masque/capsule.py:61-88 | one call keeps `0 <= _start <= position <= 65535`; a chunk that does not fit returns nothing, keeps `_start` and the store, and moves the position back to `_start`; a chunk that fits is written at the position |
| Capsule.CapsuleBuffer.constructor | src/aioquic/masque/capsule.py:35-38 | a fresh 65535-byte store with both cursors at 0 |
| Capsule.CapsuleBuffer.PullCapsule | src/aioquic/masque/capsule.py:72-85 | one pass of the `try` block does what `Step` says |
| Capsule.CapsuleBuffer.DecodeUntil | src/aioquic/masque/capsule.py:70-88 | the `while` loop returns `Scan`'s capsules and leaves `Scan`'s cursors |
| Capsule.CapsuleBuffer.ReadCapsuleData | src/aioquic/masque/capsule.py:61-88 | `read_capsule_data` changes the store, the cursors and the result exactly as `Ingest` does |
| CapsuleStream.StepFrame | src/aioquic/masque/capsule.py:73-83 | a whole capsule before `end` is decoded, and `_start` moves to the end of its payload |
| CapsuleStream.StepPartial | src/aioquic/masque/capsule.py:75-77 | a capsule cut by `end` stops the loop at its first byte with the position at `end`, including a header that is read from stale bytes |
| CapsuleStream.ScanFrames | src/aioquic/masque/capsule.py:71-83 | complete capsules are all returned, in wire order, and the loop carries on right after them |
| CapsuleStream.ScanTail | src/aioquic/masque/capsule.py:86-88 | after the complete capsules the buffer drains to 0 when nothing follows, and otherwise commits to the start of the incomplete capsule |
| CapsuleStream.ScanWindow | src/aioquic/masque/capsule.py:71-88 | complete capsules followed by a proper prefix of one more: all are returned, and the prefix is kept; room for two maximal varints after the complete capsules is needed only when the prefix is shorter than its header |
| CapsuleStream.IngestFrames | src/aioquic/masque/capsule.py:61-88 | the same, for one call of `read_capsule_data`, with the same room condition counted from `_start` |
| CapsuleStream.IngestWindow | src/aioquic/masque/capsule.py:61-88 | a call whose chunk continues a capsule stream returns the capsules the chunk completes, in order, and keeps exactly the bytes of the incomplete one, committed at their start |
| CapsuleStream.Feed | src/aioquic/masque/capsule.py:61-88 | successive calls keep the invariant between calls |
| CapsuleStream.FeedStream | src/aioquic/masque/capsule.py:61-88 | a capsule stream cut anywhere into chunks: every capsule is returned exactly once, in wire order, and the buffer is drained to 0 |
| CapsuleStream.FeedAppend | src/aioquic/masque/capsule.py:61-88 | feeding two lists of chunks in turn is feeding their concatenation: the capsules add up and the state carries over |
| CapsuleStream.FeedRuns | src/aioquic/masque/capsule.py:61-88 | a stream of any length, fed in runs of chunks that each end on a capsule boundary and each fit the store: every capsule is returned once, in wire order, and the buffer ends drained, since each run drains it back to 0 |
| CapsuleStream.ChunkingInvariance | src/aioquic/masque/capsule.py:61-88 | how the stream is cut into chunks does not change what is returned |
| CapsuleStream.IngestWhole | src/aioquic/masque/capsule.py:71-88 | several complete capsules in one chunk are all returned by that call, in wire order, and both cursors reset to 0 |
| CapsuleStream.DatagramRoundTrip | tests/test_masque.py:33-40 | a fresh buffer given `encode_datagram_capsule(p)` returns exactly `[DatagramCapsule(p)]` and resets to 0 when the encoding fits, and returns nothing when it does not |
| CapsuleStream.SplitCapsule | tests/test_masque.py:42-57 | an incomplete capsule: the first call returns nothing, keeps `_start` at its header and moves the position to `end`; the call that completes it returns it once, with the payload put back together |
| CapsuleStream.ReadErrorOverwrites | src/aioquic/masque/capsule.py:63-85 | a first byte near the end of the store that announces a varint wider than the room left makes the call return nothing with the position still at the held-back byte, and the next chunk is written over that byte |
| CapsuleStream.LengthReadErrorSplices | src/aioquic/masque/capsule.py:63-85 | when the type read succeeds by reading a stale byte past `end` and the length read then raises, the call returns nothing with the position one past `end`, and the next chunk is appended after the stale byte, which becomes part of the held-back bytes |
| CapsuleStream.EmptyChunkOnDrained | tests/test_masque.py:28-31 | an empty chunk on a drained buffer returns nothing and leaves both cursors at 0 |
| Bytes.FromBigEndian | src/aioquic/masque/tunnel.py:116 | `int.from_bytes` of n bytes is below 256^n |
| Varint.WidthOf | src/aioquic/masque/tunnel.py:111 | the width `1 << ((b & 0xc0) >> 6)` is 1, 2, 4 or 8, and the two top bits of b are the prefix that an encoding of that width starts with |
| Bytes.FromBigEndianLow6 | src/aioquic/masque/tunnel.py:116 | a big-endian value masked with 0x3f depends only on the six low bits of its last byte |
| Text.DigitsRoundTrip | src/aioquic/masque/tunnel.py:78 | `int()` of the numeral `str(n)` writes is n, and `isdigit()` holds for it |
| Text.Digits2xx | src/aioquic/masque/tunnel.py:78 | a digit string is worth 200..299 if and only if it is zeros, then `2`, then two digits |
| Tunnel.WellKnownUdp | src/aioquic/masque/tunnel.py:20-21 | the path starts with `/.well-known/masque/udp/`; for a slash-free host and a port, the host comes next up to the first slash, and the digits after it read back as the port |
| Tunnel.WellKnownUdpInjective | src/aioquic/masque/tunnel.py:20-21 | the default path determines its target: a slash-free host and a port can be recovered from it |
| Tunnel.ConnectHeaders | src/aioquic/masque/tunnel.py:58-65 | six field lines: looking up `:method` gives CONNECT, `:scheme` https, `:authority` the authority, `:path` the path, `:protocol` connect-udp and `capsule-protocol` `?1`; there is no `:status`; the five pseudo-headers come before the regular field |
| Tunnel.StatusOk | src/aioquic/masque/tunnel.py:78 | a field line binds `status` if and only if it is `:status` with a value of digits made of zeros, then `2`, then two digits (so `0200` passes) |
| Tunnel.CapsuleOk | src/aioquic/masque/tunnel.py:80-81 | a line that binds `capsule` never also binds `status`, so the `elif` hides nothing |
| Tunnel.Accepted | src/aioquic/masque/tunnel.py:77-85 | an accepted response has two different field lines, one binding each flag |
| Tunnel.AcceptedOne | src/aioquic/masque/tunnel.py:77-85 | a response with a single field line is never accepted |
| Tunnel.AcceptedPair | src/aioquic/masque/tunnel.py:77-85 | a two-line response is accepted if and only if one of its lines binds `status` and one binds `capsule` |
| Tunnel.StatusNumeral | src/aioquic/masque/tunnel.py:78 | a numeral status passes the status test if and only if it is 2xx |
| Tunnel.AcceptedResponses | src/aioquic/masque/tunnel.py:77-85 | a 200 response with `capsule-protocol: ?1` is accepted; the same without that field, with `?0`, or with status 404 is not |
| Tunnel.ScanResponseHeaders | src/aioquic/masque/tunnel.py:77-81 | the header loop binds `status` if and only if some field line is a 2xx `:status`, and binds `capsule` if and only if some field line is `capsule-protocol: ?1` |
| Tunnel.DatagramFrame | src/aioquic/masque/tunnel.py:104 | the framed datagram is Context ID 0 followed by the payload |
| Tunnel.ReceiveOne | src/aioquic/masque/tunnel.py:110-121 | an empty datagram raises with no output; otherwise the call returns, and it hands over what follows the prefix if and only if the datagram is longer than the prefix and the six low bits of the prefix's last byte are 0 |
| Tunnel.Unframe | src/aioquic/masque/tunnel.py:110-121 | only an empty datagram raises; a delivered payload is what follows the prefix, whose width comes from the first byte |
| Tunnel.UnframeFramed | src/aioquic/masque/tunnel.py:110-121 | `0x00 ‖ P` delivers P if and only if P is non-empty, and is dropped otherwise |
| Tunnel.UnframeLastByte | src/aioquic/masque/tunnel.py:116-121 | a datagram longer than its prefix is delivered if and only if the six low bits of the prefix's last byte are 0 |
| Tunnel.UnframeContextZero | src/aioquic/masque/tunnel.py:116-121 | every datagram whose Context ID reads as 0 under RFC 9000 is delivered, at any width |
| Tunnel.UnframeContext256 | src/aioquic/masque/tunnel.py:116-121 | the converse fails: the prefix `0x41 0x00` reads as Context ID 256, yet its payload is delivered |
| Tunnel.UnframeOneByte | src/aioquic/masque/tunnel.py:111-121 | for one-byte prefixes the mask agrees with varint decoding: delivered if and only if the ID is 0 |
| Tunnel.ReceiveAll | src/aioquic/masque/tunnel.py:95-97 | the capsule loop hands over at most one payload per capsule |
| Tunnel.ReceiveAllAppend | src/aioquic/masque/tunnel.py:95-97 | handing over two runs of capsules in turn is handing over their concatenation; a raise ends it |
| Tunnel.ReceiveFramed | src/aioquic/masque/tunnel.py:95-97 | framed non-empty payloads in DATAGRAM capsules all reach the handler unchanged, in order, without a raise |
| Tunnel.HandleEvent | src/aioquic/masque/tunnel.py:69-101 | headers: only in ConnectSent, and they make the state Connected with one call of the connect callback if and only if the response is accepted; otherwise the call raises and nothing changes. Stream data: raises with nothing buffered unless Connected; otherwise it is reassembled and its DATAGRAM capsules are handed over. Native datagrams: in every state, the tunnel is unchanged and the outputs and outcome are those of `_receive_datagram` (`ReceiveOne`): an empty datagram raises, and one with a nonzero Context ID is dropped. Other events: nothing happens. The state only ever moves from ConnectSent to Connected |
| Tunnel.NativeDatagramRoundTrip | src/aioquic/masque/tunnel.py:99-101 | a payload sent as an HTTP datagram reaches the handler in any state, unless it is empty |
| Tunnel.HandleEvents | src/aioquic/masque/tunnel.py:69-101 | a run of events keeps the buffer invariant |
| Tunnel.HandleDataEvents | src/aioquic/masque/tunnel.py:90-97 | as long as no hand-over raises, data events on a Connected tunnel are the reassembly of all their chunks followed by handing over the decoded capsules, and none of them raises |
| Tunnel.StreamDelivery | src/aioquic/masque/tunnel.py:90-97 | payloads sent as DATAGRAM capsules on the stream and cut into data events anywhere reach the handler whole, unchanged and in order, and leave the buffer drained |
| Tunnel.SentStream | src/aioquic/masque/tunnel.py:103-106 | the data `send_datagram(p, stream=True)` sends, payload after payload, is the capsule stream `StreamDelivery` consumes |
| Tunnel.UdpTunnel.constructor | src/aioquic/masque/tunnel.py:34-43 | Initialized, with a fresh capsule buffer and empty traces |
| Tunnel.UdpTunnel.Connect | src/aioquic/masque/tunnel.py:45-67 | only from Initialized, and then exactly one `send_headers` with the CONNECT request and `end_stream` false, then ConnectSent; otherwise it raises with nothing sent and the state unchanged |
| Tunnel.UdpTunnel.HandleHttpEvent | src/aioquic/masque/tunnel.py:69-101 | `handle_http_event` changes the state and the buffer, and produces outputs and an outcome, exactly as `HandleEvent` says; it sends nothing |
| Tunnel.UdpTunnel.ReceiveCapsules | src/aioquic/masque/tunnel.py:95-97 | the `for` loop produces exactly the outputs and the outcome of `ReceiveAll` |
| Tunnel.UdpTunnel.SendDatagram | src/aioquic/masque/tunnel.py:103-108 | exactly one call: `send_data` of the DATAGRAM capsule of `0x00 ‖ P` with `end_stream` false, or `send_datagram` of `0x00 ‖ P`; a payload too long for a varint length raises with nothing sent; the connect state does not change |
| Tunnel.UdpTunnel.ReceiveDatagram | src/aioquic/masque/tunnel.py:110-121 | `_receive_datagram` produces exactly the output and the outcome of `Unframe` |

## Left out

- `src/aioquic/masque/events.py`: the event classes are not used by the tunnel code.
- `src/aioquic/asyncio/tunnel_transport.py`: an asyncio adapter that only forwards calls.
- HTTP/3 framing, QPACK and the QUIC transport behind `H3Connection`: only the calls made on the
  connection are recorded, in a trace.
- What the connect callback and the datagram handler do.
  - Each call of one is recorded as an output.
  - A callback that raises, or that calls back into the tunnel, is not modelled.
- Which exception class is raised: every raise is the single outcome `Raised`.
- The `assert event.stream_id == ...` checks (tunnel.py:72 and :100) are preconditions of
  `Tunnel.UdpTunnel.HandleHttpEvent`, not raises.
- The internals of `aioquic.buffer.Buffer` are C code that is not part of this model. The model
  keeps only the behaviour the capsule code relies on.
- Tunnel.UdpTunnel.Connect: the path function is passed as the bytes it returns. `None` stands
  for the default `_well_known_udp`, so what a custom path function does is not modelled.
- Tunnel.WellKnownUdp: the host and the authority are taken as the bytes their `.encode()`
  gives; UTF-8 encoding itself is not modelled.
- `int.from_bytes` is modelled with its big-endian default, which Python 3.11 and later
  provide. Older versions require the byte order as an argument.
- Dead or unused code is not modelled:
  - the commented-out `read_capsule_data` (capsule.py:41-59);
  - the unused `_capsule_buffer` field (capsule.py:37);
  - the `MasqueTunnel.send_datagram` stub (tunnel.py:30-31).
- Capsule.CapsuleBuffer.constructor: the initial contents of the store are left arbitrary. They
  only matter for a header cut by the end of a chunk, which reads stale bytes.
- CapsuleStream.FeedStream: requires the whole run of chunks, plus 16 bytes (two maximal
  varints), to fit the store from the starting position, not each chunk on its own. The code
  never moves a held-back tail to the front of the store (capsule.py:76, 83); it goes back to
  position 0 only when a call consumes everything (capsule.py:86-87). So chunks that never end
  on a capsule boundary overflow after 65535 bytes. `FeedRuns` covers streams of any length that
  are fed in runs ending on capsule boundaries.
- CapsuleStream.ChunkingInvariance: requires the whole stream, plus 16 bytes, to fit the store
  from the starting position, for the same reason as `FeedStream`.
- CapsuleStream.IngestWindow: requires 16 bytes of room after the chunk, even when the
  held-back bytes already hold a whole header. `IngestFrames` and `ScanWindow` state the exact
  condition: the room is needed only when a header is cut by the end of the chunk.
- Tunnel.StreamDelivery: requires the whole run of data events, plus 16 bytes, to fit the
  store from the starting position, for the same reason as `FeedStream`.
- The 16 bytes of room: a header cut by the end of a chunk is read from stale bytes. Near the
  end of the store that read can raise BufferReadError. The next chunk is then written over the
  held-back bytes (`ReadErrorOverwrites`) or after stale bytes (`LengthReadErrorSplices`), so
  the stream is corrupted. `IngestWhole`,
  `SplitCapsule` and `DatagramRoundTrip` need no such room.
- Capsule.CapsuleBuffer.ReadCapsuleData: `pull_bytes` is only called after the length has been
  checked against `end`, so its own read-error path cannot occur and is a precondition of
  `QuicBuffer.Buffer.PullBytes`.
