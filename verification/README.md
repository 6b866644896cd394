# osc-blobber relay codec in Dafny

osc-blobber is a UDP relay. It receives a stream of small OSC 1.0 messages, each
carrying `FLOATS_PER_READ` big-endian floats at the address `INPUT_OSC_ADDRESS`.
It collects the argument bytes of `READS_PER_BLOB` such messages. Then it sends
them onward as one OSC message with a single blob argument (type tags `,b`) at
`OUTPUT_OSC_ADDRESS`. This project models the codec inside `main`:

- **Layout calculator** (`layout.dfy`, module `Layout`). This covers `pad4` with
  its exact 32-bit mask `~3u`, every offset and size computed at startup, and the
  three startup guards: the MTU guard, the outbound address block against the
  64-byte `addr_block`, and the inbound address block against `in_addr_check`.
- **Outbound prefix** (`prefix.dfy`, module `OutboundPrefix`). The address block
  and the `,b` type-tag block are built with memset and memcpy. They are then
  copied to the head of `out_buf`.
- **Inbound decoder** (`relay.dfy`, `Relay.Decode`). It applies the length check
  and then takes the fixed-offset argument window. It never looks at the
  datagram's address or type tags. `Relay.Receive` models `recv_buf`'s
  2048-byte capacity.
- **Accumulator and flush** (`relay.dfy`, `Relay.Step`). One loop iteration
  appends the block at the write cursor. When the cursor reaches `wend`, it
  writes the big-endian blob size and the blob into `out_buf`, emits the packet
  and resets the cursor. `Relay.Run` folds `Step` over a finite sequence of
  datagrams.

The model does not reuse the relay's own offset arithmetic to check itself. It
relates that arithmetic to independent reference definitions:

- `Osc` is an OSC 1.0 encoder and parser written from the format: OSC-strings,
  big-endian int32 and blob messages.
- `Chunking` cuts a sequence into consecutive groups of `n`.
- `Scenario` instantiates everything with the shipped configuration: `"/accel"`,
  3 floats per read, 4 reads per blob, 1400-byte MTU.

Buffers are `seq<byte>`, with `byte` a newtype over 0..255. Sizes are `nat`. The
64-bit `size_t` and the 32-bit masks and casts are written out where they
matter. The float arguments are opaque bytes.

In these places the model follows the code:

- Startup can fail for three reasons, not only the MTU guard. The outbound and
  inbound address blocks must each fit 64 bytes.
- The inbound type-tag block is always the one of `,fff` (8 bytes), whatever
  `FLOATS_PER_READ` is. `Relay.DecodeFloatMessage` therefore assumes the
  sender's tag block has that length. With two floats per read every
  well-formed message is dropped (`Scenario.TwoFloatMessagesRejected`).
- A datagram is dropped when recvfrom returns `n <= 0` as well as when it is
  shorter than the minimum. The minimum is always positive, so the first test
  adds nothing.
- `pad4` rounds up only while `n + 3 < 2^32`, not for every `n`. The mask drops
  bit 32 and above (`Layout.Pad4DropsHighBits`).

## Model

| member | source | states |
|---|---|---|
| `Layout.Pad4` | osc-blobber/osc-blobber.c:14 | the result is a multiple of 4 below 2^32; while n + 3 < 2^32 it is the least such value at or above n (n <= r < n + 4) |
| `Layout.Pad4Idempotent` | osc-blobber/osc-blobber.c:14 | padding an already padded length leaves it unchanged, within the exact range |
| `Layout.Pad4DropsHighBits` | osc-blobber/osc-blobber.c:14 | outside the exact range the 32-bit mask loses the carry: pad4(2^32 - 3) is 0 |
| `Layout.Pad4IsOscStringLength` | osc-blobber/osc-blobber.c:21-22 | pad4(strlen + 1) is the length of the string as an OSC-string (terminator plus zero padding) |
| `Layout.OscStringFitsAddressBlock` | osc-blobber/osc-blobber.c:41-42 | an address block fits the 64-byte buffer exactly when the address has fewer than 64 characters |
| `Layout.LayoutWith` | osc-blobber/osc-blobber.c:21-31 | every computed size is the OSC-prescribed one for the shape; the inbound minimum is args offset plus 4·F; the blob size field follows the two outbound blocks and the packet ends after the blob |
| `Layout.BlobBytes` | osc-blobber/osc-blobber.c:29-30 | the blob length is 4·F·R and needs no OSC blob padding (its padding count is 0), as the comment at :30 claims |
| `Layout.StartupAsWritten` | osc-blobber/osc-blobber.c:21-59 | with the uint32_t cast, startup fails with PacketTooLarge iff the packet length computed from the truncated blob length exceeds the MTU; with AddressBlockTooLarge iff that guard passed and the outbound address has 64 or more characters; with InboundAddressBlockTooLarge iff both passed and the inbound address has 64 or more; on success the layout describes the shape and its blob length is the accumulator size mod 2^32 |
| `Layout.StartupAgrees` | osc-blobber/osc-blobber.c:29-33 | while 4·F·R < 2^32 the startup as written and the corrected startup give the same result, so every theorem about the corrected layout covers the shipped code |
| `Layout.FullWidthLayout` | osc-blobber/osc-blobber.c:21-31 | with the full-width blob length, the packet length equals the OSC length of the blob message and, within the MTU, every relation the loop relies on holds |
| `Layout.Startup` | osc-blobber/osc-blobber.c:21-59 | startup fails with PacketTooLarge iff pad4(addr+1) + pad4(",b"+1) + 4 + 4·F·R exceeds the MTU, and with an address-block error iff an address is 64 characters or longer; on success the layout is well-formed and describes the shape |
| `Layout.StartupBuffersFit` | osc-blobber/osc-blobber.c:41-68 | after a successful startup both address blocks fit 64 bytes, the packet fits out_buf and the blob length equals the accumulator size and fits a signed int32 |
| `Layout.BlobLengthTruncated` | osc-blobber/osc-blobber.c:29-33 | with one float per read and 2^30 reads per blob the as-written guard passes: inbound messages of 16 bytes are accepted, the accumulator is 2^32 bytes, the packet is 12 bytes and its size field reads 0; the corrected startup refuses the shape |
| `OutboundPrefix.PadBlock` | osc-blobber/osc-blobber.c:46-52 | memset then memcpy yields a block of the requested length holding the string followed only by zero bytes |
| `OutboundPrefix.AddressBlockIsOscString` | osc-blobber/osc-blobber.c:46-47 | the address block built at startup is the outbound address as an OSC-string, with at least one NUL |
| `OutboundPrefix.TypeBlockIsOscString` | osc-blobber/osc-blobber.c:50-52 | the type-tag block is `,b\0\0` |
| `OutboundPrefix.InitOutBuf` | osc-blobber/osc-blobber.c:73-76 | after startup out_buf[0..blob_size_offset) is the address OSC-string followed by the `,b` OSC-string, and everything behind it is untouched |
| `Relay.Receive` | osc-blobber/osc-blobber.c:64-115 | a failed recvfrom yields no datagram; a datagram of at most 2048 bytes is delivered whole, a longer one as exactly its first 2048 bytes |
| `Relay.Decode` | osc-blobber/osc-blobber.c:115-128 | a datagram is accepted iff it was received and has at least in_min_bytes bytes; an accepted one yields exactly 4·F bytes |
| `Relay.DecodeReceived` | osc-blobber/osc-blobber.c:115-128 | a wire datagram is accepted iff it reaches the minimum and the minimum fits recv_buf; the bytes taken are the wire datagram's window at in_args_offset |
| `Relay.DecodeFloatMessage` | osc-blobber/osc-blobber.c:18-25 | an encoded OSC float message decodes to exactly its argument bytes, whatever trails it |
| `Relay.DecodeIgnoresHeader` | osc-blobber/osc-blobber.c:126-128 | two datagrams of equal length that agree on the argument window decode alike, whatever their address and type tags |
| `Relay.Start` | osc-blobber/osc-blobber.c:67-76 | the loop's entry state satisfies the loop invariant, has the cursor at 0 and the prefix in out_buf |
| `Relay.NextSlot` | osc-blobber/osc-blobber.c:68-70 | a cursor on a block boundary before wend has room for one more block and stays on a boundary |
| `Relay.Append` | osc-blobber/osc-blobber.c:132-133 | the block lands at the cursor; bytes before and after it are unchanged |
| `Relay.Flush` | osc-blobber/osc-blobber.c:137-142 | out_buf keeps its prefix and its tail; its first out_packet_bytes bytes are prefix, big-endian blob length and accumulator |
| `Relay.Step` | osc-blobber/osc-blobber.c:114-149 | a rejected datagram changes nothing and emits nothing; an accepted one appends its bytes at the cursor without passing wend, emits nothing while the buffer is not full, and when full emits prefix + BE32(4·F·R) + accumulator, mirrors it into out_buf and resets the cursor; the prefix never changes |
| `Relay.Run` | osc-blobber/osc-blobber.c:114-150 | over any finite run the invariant holds, the out_buf prefix is unchanged and every packet is out_packet_bytes long |
| `Relay.Extend` | osc-blobber/osc-blobber.c:114-150 | one more iteration keeps the packets sent so far and adds at most one |
| `Relay.Accepted` | osc-blobber/osc-blobber.c:116-128 | the accepted blocks are at most as many as the datagrams and each is 4·F bytes |
| `Relay.Packets` | osc-blobber/osc-blobber.c:136-145 | the k-th due packet is prefix, blob size and the k-th group's blocks laid end to end |
| `Relay.StepAppendsBlock` | osc-blobber/osc-blobber.c:132-136 | an accepted block that does not complete a group is appended behind the pending blocks, and nothing is sent |
| `Relay.StepFlushesGroup` | osc-blobber/osc-blobber.c:132-148 | an accepted block that completes a group sends the prefix, blob size and the whole group, and resets the cursor |
| `Relay.RunRelaysInOrder` | osc-blobber/osc-blobber.c:114-150 | from startup, the packets sent are exactly one per complete group of R accepted blocks in arrival order; the accumulator holds the leftover blocks; the prefix is intact |
| `Relay.RunRejectedLast` | osc-blobber/osc-blobber.c:116-124 | a rejected datagram at the end of a run changes neither state nor packets |
| `Relay.RejectedLeavesNoTrace` | osc-blobber/osc-blobber.c:116-124 | removing a rejected datagram from anywhere in a run changes neither the final state nor the packets |
| `Relay.GroupFillsBlob` | osc-blobber/osc-blobber.c:68-70 | group k is accepted blocks k·R .. k·R + R - 1 and fills exactly blob_bytes |
| `Relay.PacketIsBlobMessage` | osc-blobber/osc-blobber.c:136-145 | the bytes sent for a full accumulator are the OSC encoding of a blob message at the outbound address |
| `Relay.GroupPacketParses` | osc-blobber/osc-blobber.c:136-145 | the packet of group k parses as an OSC blob message whose blob is the concatenation of accepted blocks k·R .. k·R + R - 1 |
| `Relay.PacketCarriesGroup` | osc-blobber/osc-blobber.c:114-150 | packet k of any run from startup parses back to the blob message carrying accepted blocks k·R .. k·R + R - 1, in order |
| `Relay.OneGroupOnePacket` | osc-blobber/osc-blobber.c:132-148 | exactly R accepted blocks from startup produce exactly one packet carrying them, and the cursor is back at 0 |
| `Relay.FlushCadence` | osc-blobber/osc-blobber.c:132-148 | from startup, the number of packets is (accepted blocks) div R and the cursor is ((accepted blocks) mod R)·4·F |
| `Scenario.ConfiguredStartup` | osc-blobber/osc-blobber-custom.h:12-22 | the shipped configuration passes startup with in offset 16, in minimum 28, blob at 16 and a 64-byte packet within 1400 |
| `Scenario.ConfiguredPrefix` | osc-blobber/osc-blobber.c:46-52 | the shipped prefix is `/accel\0\0,b\0\0` |
| `Scenario.ConfiguredDecode` | osc-blobber/osc-blobber.c:122-128 | the shipped decoder accepts datagrams of 28 bytes or more and takes bytes 16..27; 27 bytes are rejected |
| `Scenario.ConfiguredAcceptsAll` | osc-blobber/osc-blobber.c:122-128 | every `/accel ,fff` message is accepted and yields exactly its 12 float bytes |
| `Scenario.ConfiguredFirstPacket` | osc-blobber/osc-blobber.c:132-145 | four `/accel` messages from startup produce one packet: prefix, `00 00 00 30`, then the four float blocks in arrival order |
| `Scenario.BlobSizeField` | osc-blobber/osc-blobber.c:137-139 | the shipped blob-size field is 48 as a big-endian int32 |
| `Scenario.TwoFloatMessagesRejected` | osc-blobber/osc-blobber.c:18-25 | with two floats per read the fixed `,fff` block makes the minimum 24 bytes, so every 20-byte `/accel ,ff` message is rejected |

## Left out

- Socket creation, `inet_pton`, `bind` and `sendto` (osc-blobber/osc-blobber.c:79-106, 145) are operating-system I/O. Receiving is an input sequence of `Datagram`s and sending is the output packet sequence. A failed send is not modelled because the source ignores its result.
- The listen and send endpoints (osc-blobber/osc-blobber-custom.h:5-9) are transport configuration only.
- The `fprintf` and `perror` diagnostics are left out. Each error path is modelled only as a `StartupError`.
- The contents of the `in_addr_check` buffer (osc-blobber/osc-blobber.c:60-61) are never read, so they are left out. The size guard in front of it is modelled.
- The empty sanity block (osc-blobber/osc-blobber.c:110-112) has no effect.
- The float arguments are relayed bit for bit and never interpreted as IEEE floats, so they are opaque bytes here.
- The infinite `for (;;)` loop is modelled as one step plus runs over finite datagram sequences.
- The initial contents of the uninitialised `accum` and `out_buf` stack arrays are parameters (`accum0`, `outBuf0`).
- `Relay.Decode`: its contract states acceptance and length. The window it takes is stated by `Relay.DecodeReceived`, `Relay.DecodeFloatMessage` and `Relay.DecodeIgnoresHeader`.

## Findings

| source | as written | input that shows it | evidently intended | confidence | as-written member | corrected member |
|---|---|---|---|---|---|---|
| osc-blobber/osc-blobber.c:30-33 | `blob_bytes` is `4u * total_floats` narrowed to `uint32_t` before the MTU guard adds it up, while `accum` keeps the full size | `FLOATS_PER_READ` = 1, `READS_PER_BLOB` = 2^30, short addresses: the guard sees a 12-byte packet and passes; 16-byte inbound messages are accepted, and after every 2^30 of them a packet whose size field announces 0 is sent while 4 GiB of argument bytes are dropped | the guard bounds the packet with the full blob length and refuses this shape | low (a 4 GiB stack array is impractical anyway); not executed | `Layout.StartupAsWritten` | `Layout.Startup` |
