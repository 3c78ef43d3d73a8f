# Suunto generation-2 protocol engine

A Dafny model of the protocol engine shared by the Suunto dive computers
that speak the "generation-2" serial protocol. The module lives in
`src/suunto_common2.c`. It covers five things:

- the device handle and its dive fingerprint (`init`, `set_fingerprint`);
- the transfer engine, which repeats a command/answer exchange after a
  TIMEOUT or a PROTOCOL failure, at most MAXRETRIES = 2 times;
- chunked memory access in packets of at most 0x78 bytes, with
  XOR-checksummed read frames `{05 00 03 hi lo len xor}` and write frames
  `{06 00 len+3 hi lo len payload… xor}` (`read`, `device_read`,
  `device_write`, `dump`);
- the two fixed exchanges `version` and `reset_maxdepth`;
- the dive enumeration `foreach`. It reads the version, the serial number
  and the profile header. It then walks the profile ring `[0x019A, 0x7FFE)`
  backwards from the header's `end` pointer, newest dive first, and fills
  one flat buffer of `SZ_MINIMUM + (END - BEGIN)` bytes from the top down.
  It stops at the dive whose fingerprint window equals the device's
  fingerprint, or after the callback declines.

The backend's packet function is modelled as a scripted oracle,
`Backend.Transport`. A fixed script says how each successive exchange
ends, counted from the first; past its end every exchange succeeds. The
oracle counts the exchanges tried. Every operation states which
exchanges it tried: exactly those of its run of transfers, each under the
retry policy, stopped at the first transfer that fails, whose status it
returns (`Backend.Transfers`, `Backend.Ran`). One transfer that went
through answers one command, so the commands answered also count the
transfers that succeeded. An
exchange that succeeds is answered by a device whose 0x8000-byte memory
image and four version bytes the oracle holds. A read answers the addressed
memory at offset 6. A write stores its payload. The version command answers
the version at offset 3.

The transfer engine is proved against an explicit retry policy,
`Backend.Retry`. Reads and writes are proved against the frame plans
(`Frames.ReadFrames`, `Frames.WriteFrames`) and the images they produce
(`Backend.ReadImage`, `Backend.WriteImage`). Within the image these are the
plain slice and the plain splice. The enumeration is proved against a
specification of what a well-formed image holds:

- `Profile.ChainOk` is the chain-consistency condition. Its size bounds,
  next pointers and dive count are what the C asserts check. It also
  bounds each dive's fingerprint window to lie inside the buffer, which
  the C does not check;
- `Profile.Walk` and `Profile.Dives` give the dives, newest first;
- `Profile.Traverse` gives the payloads the callback receives.

The loop invariant of the buffer fill is stated over `Profile.Unrolled`,
which is the profile data unrolled from `begin`. The invariant is that
`data[SZ_MINIMUM + t] == Unrolled[t]` for every `t` at or above
`remaining - nbytes`.

Modules: `Bytes` (checksum and byte-order codecs), `ProfileRing` (ring
arithmetic), `Frames` (status codes, constants, command frames, chunk plans),
`Backend` (oracle, images, retry policy, runs of transfers), `Profile`
(header, dive chain, traversal), `Common2` (the device class and its
operations), `Scenarios` (whole reads and writes against scripts of
timeouts and errors).

## Model

| member | source | states |
|---|---|---|
| Bytes.ChecksumClosesFrame | src/suunto_common2.c:164 | appending the seed-0 XOR checksum of a frame body makes the XOR of the whole frame zero |
| Bytes.XorDetectsOneByte | src/suunto_common2.c:214 | changing any one byte of a frame changes its XOR checksum, so a single corrupted byte is always detected |
| Bytes.XorAppend | src/suunto_common2.c:164 | the checksum of a concatenation is the checksum of the second part seeded with that of the first |
| Bytes.Uint16LeRoundTrip | src/suunto_common2.c:302-305 | the little-endian 16-bit decoder and encoder are mutual inverses on 16-bit values and on two-byte prefixes |
| Bytes.Uint24BeRoundTrip | src/suunto_common2.c:289 | the big-endian 24-bit decoder and encoder are mutual inverses |
| Bytes.Uint32BeRoundTrip | src/suunto_common2.c:290 | the big-endian 32-bit decoder and encoder are mutual inverses |
| ProfileRing.Distance | src/suunto_common2.c:45-47 | the forward distance from a to b in the ring is below END - BEGIN, equals (b - a) mod (END - BEGIN), and is zero exactly when a == b |
| ProfileRing.DistancePosRoundTrip | src/suunto_common2.c:313 | the distance from a base to the position t bytes after it is t, and stepping the distance from base to x lands on x |
| ProfileRing.PosInjective | src/suunto_common2.c:340 | positions within one lap of the ring are distinct |
| Frames.AddressBytes | src/suunto_common2.c:160-161 | the high and low address bytes of a frame encode the address modulo 0x10000 |
| Frames.ReadCommandLayout | src/suunto_common2.c:159-164 | a read frame is 7 bytes: 05 00 03, the 16-bit address high then low, the length, and the XOR of bytes 0-5; its total XOR is zero |
| Frames.WriteCommandLayout | src/suunto_common2.c:208-214 | a write frame is len + 7 bytes: 06 00 len+3, the address, len, the payload at [6, 6 + len) and at len + 6 the XOR of bytes 0..len+5; its total XOR is zero |
| Frames.ChunkLength | src/suunto_common2.c:153-155 | a packet length is at most 0x78 and at most what is left, positive while bytes are left, and below 0x78 only for the last packet |
| Frames.CoveredCount | src/suunto_common2.c:151 | bytes are left after k packets exactly when k is below ceil(size / 0x78) |
| Frames.ReadFramesUnfold | src/suunto_common2.c:150-180 | the read plan is empty for size 0, and otherwise the frame for the first chunk followed by the plan for the rest at address + len |
| Frames.ReadFramesSingle | src/suunto_common2.c:367 | a read of 1 to 0x78 bytes is exactly one read command for all of them |
| Frames.ReadFramesNext | src/suunto_common2.c:153-165 | packet k of a read asks for min(0x78, size - 0x78·k) bytes at address + 0x78·k |
| Frames.WriteFramesCount | src/suunto_common2.c:199-222 | a write of n bytes takes exactly ceil(n / 0x78) packets |
| Frames.WriteFramesAt | src/suunto_common2.c:202-214 | packet i of a write stores data[0x78·i .. min(n, 0x78·(i+1))) at address + 0x78·i |
| Backend.ReadAnswer | src/suunto_common2.c:165-169 | the answer to a read frame carries, at [6, 6 + len), the memory at the frame's 16-bit address, and a read changes no memory |
| Backend.VersionAnswer | src/suunto_common2.c:119-125 | bytes 3 to 6 of the answer to the version command are the four version bytes, and the command changes no memory |
| Backend.WriteEffect | src/suunto_common2.c:208-215 | a write frame stores its payload at its 16-bit address |
| Backend.Transport.Packet | src/suunto_common2.c:79 | exchange number `attempts` has the script's outcome at that index (SUCCESS past its end); on success the answer and the memory are the device's and the command is logged as answered; on failure nothing else changes |
| Backend.RetrySpec | src/suunto_common2.c:77-90 | a transfer tries between 1 and MAXRETRIES + 1 packets; it returns the outcome of the last one; all earlier ones failed with TIMEOUT or PROTOCOL; it stops before the bound only on a success or a non-retried failure |
| Backend.RetryAfter | src/suunto_common2.c:79-88 | after n TIMEOUT/PROTOCOL outcomes the policy continues from exchange n with n retries spent |
| Backend.RetryFirstOutcome | src/suunto_common2.c:79-83 | a first outcome that is a success or a failure other than TIMEOUT/PROTOCOL is returned after exactly one packet |
| Backend.TimeoutsThenSuccess | src/suunto_common2.c:79-88 | up to MAXRETRIES timeouts before a success are transparent, and MAXRETRIES + 1 timeouts return TIMEOUT after 3 packets |
| Backend.Transfers | src/suunto_common2.c:150-180 | a run of n transfers succeeds exactly when all n went through, never does more than n, and tries at least one packet per transfer that went through |
| Backend.TransfersOne | src/suunto_common2.c:64-91 | a run of one transfer tries the packets the retry policy prescribes and ends with its status |
| Backend.TransfersThen | src/suunto_common2.c:151-179 | after m transfers that all went through, a longer run continues as a run from the exchange after them |
| Backend.TransfersStop | src/suunto_common2.c:165-167 | a run stopped by a failing transfer is the same whatever number of transfers was planned beyond it |
| Backend.TransfersLast | src/suunto_common2.c:79-90 | a failing run tried at least one packet and returns the outcome of the last packet it tried |
| Backend.TransfersJoin | src/suunto_common2.c:150-180 | a run of transfers that all went through, followed by a run from where it ended, is one run from the start |
| Backend.RanThen | src/suunto_common2.c:262-305 | two operations in a row, the first successful, tried exactly the packets of the joined run of their transfers and return the second's status |
| Backend.RanLast | src/suunto_common2.c:79-90 | an operation that fails with a packet function tried at least one packet and fails with the script's outcome for the last one |
| Backend.RanPlan | src/suunto_common2.c:150-180 | an operation planned as n transfers that succeeds exactly when all n went through tried exactly the packets of the run of n transfers, stopped at the first failure |
| Backend.ReadImageAt | src/suunto_common2.c:159-169 | packet k of a read fetches exactly the bytes the read places from offset 0x78·k on |
| Backend.ReadImageInRange | src/suunto_common2.c:150-180 | within the memory image a chunked read returns exactly mem[address .. address + size) |
| Backend.WriteImageAt | src/suunto_common2.c:199-222 | after a chunked write, each byte is the data byte written there, or the old byte outside the written range |
| Backend.WriteImageInRange | src/suunto_common2.c:199-222 | within the memory image a chunked write replaces exactly mem[address .. address + n) with the data |
| Backend.WriteThenRead | src/suunto_common2.c:144-225 | reading back what a write stored returns the data written |
| Common2.DiveSink.Deliver | src/suunto_common2.c:406 | the callback receives the payload and answers whether the enumeration may continue |
| Common2.Device.constructor | src/suunto_common2.c:51-61 | a new device handle has the all-zero fingerprint |
| Common2.Device.Transfer | src/suunto_common2.c:64-91 | with no packet function, UNSUPPORTED without any attempt; otherwise the attempts and status the retry policy gives for the script from the current exchange on; on success the device's answer and effect, one command logged; on failure no memory change |
| Common2.Device.SetFingerprint | src/suunto_common2.c:94-108 | size 0 resets the fingerprint to zeros; size FP_SIZE copies it exactly; any other size returns ERROR and leaves it unchanged |
| Common2.Device.Version | src/suunto_common2.c:111-128 | a buffer below 4 bytes gives MEMORY with no transfer; otherwise the version command's transfer with its status, and on success the command logged and exactly the four version bytes in data[0..4) with the rest untouched; on failure nothing logged |
| Common2.Device.ResetMaxDepth | src/suunto_common2.c:131-141 | one transfer of the fixed command 20 00 00 20; memory unchanged; the command is logged only on success |
| Common2.Device.ReadPacket | src/suunto_common2.c:157-175 | one read frame, tried under the retry policy with its status returned; on success its answer's payload is copied into the buffer at the packet's offset and progress grows by len; on failure only the transport changes |
| Common2.Device.ReadStep | src/suunto_common2.c:151-179 | one pass of the read loop extends the frames answered, the bytes filled and the progress by chunk k, or on failure changes none of them; its packets are one transfer's under the retry policy |
| Common2.Device.ReadLoop | src/suunto_common2.c:150-180 | after k packets went through, exactly the first k frames of the plan are answered and the first Covered(size, k) bytes of the slice hold the read image, nothing else changed; success exactly when the whole size is covered; the exchanges tried are exactly its run of transfers under the retry policy, and a failure returns the failing transfer's status |
| Common2.Device.Read | src/suunto_common2.c:144-183 | on success the frames answered are exactly the read plan, the buffer slice is the chunked read image, and progress grows by size; on failure a proper prefix of the plan was answered, exactly the bytes of those packets were filled in and every byte after them is unchanged; nothing outside the slice changes; size 0 tries no packet; the exchanges tried are exactly its run of transfers under the retry policy, and a failure returns the failing transfer's status |
| Common2.Device.DeviceRead | src/suunto_common2.c:186-190 | a read into data[0..size) without progress; success exactly when all ceil(size / 0x78) packets were answered; the packets tried are exactly the run of those ceil(size / 0x78) transfers under the retry policy, stopped at the first failure, whose status it returns |
| Common2.Device.WriteStep | src/suunto_common2.c:200-221 | one pass of the write loop either fails with memory and log unchanged, or sends the next frame of the plan and stores one more chunk; its packets are one transfer's under the retry policy, extending the run of the passes before it |
| Common2.Device.WriteLoop | src/suunto_common2.c:199-222 | after k packets went through, exactly the first k frames of the plan are answered and the memory holds the first Covered(n, k) bytes of the data; success exactly when all the data is covered; the exchanges tried are exactly its run of transfers under the retry policy, and a failure returns the failing transfer's status |
| Common2.Device.DeviceWrite | src/suunto_common2.c:193-225 | the frames sent are a prefix of the write plan and the memory holds exactly the chunks they carried, with no rollback; success exactly when all ceil(n / 0x78) packets went through, and then the whole data is stored; the packets tried are exactly the run of those transfers under the retry policy, stopped at the first failure, whose status it returns |
| Common2.Device.Dump | src/suunto_common2.c:228-249 | a buffer below 0x8000 bytes gives MEMORY with no read; otherwise progress of maximum 0x8000 whose current equals the bytes read, the buffer prefix equal to the memory and the buffer from there on untouched; on success exactly the read frames of the whole memory from address 0 were answered, the buffer holds the whole memory and *result = 0x8000; on failure a proper prefix of those frames was answered; the exchanges tried are exactly its run of transfers under the retry policy, and a failure returns the failing transfer's status |
| Common2.PacketLengthIsLeast | src/suunto_common2.c:350-354 | a packet of the ring walk is at most 0x78 bytes, does not pass BEGIN or take nbytes past remaining, and reaches one of these three bounds, so it is the least of them |
| Common2.PaddingWidens | src/suunto_common2.c:362-364 | the padding is at most SZ_MINIMUM bytes and widens a shorter packet to exactly SZ_MINIMUM bytes, a longer one not at all |
| Common2.Device.FetchPacket | src/suunto_common2.c:366-372 | on success exactly one read command for the len + extra bytes below the address is answered, and len more unrolled bytes sit below the held ones; on failure nothing is answered; the exchanges tried are exactly its run of transfers under the retry policy, and a failure returns the failing transfer's status |
| Common2.StepAddress | src/suunto_common2.c:379-382 | the next packet ends strictly above BEGIN and at most at END: len bytes lower, or END once BEGIN is reached |
| Common2.FillPackets | src/suunto_common2.c:344-383 | the packets the inner loop reads for a dive all lie in the profile area; there are none exactly when the dive is already held, and otherwise they bring in at least what it lacks, less than a packet more, and never more than the profile data has left |
| Common2.FillPacketsAt | src/suunto_common2.c:346-382 | packet k of FillPackets is the one the loop computes: the first ends at the start address with the held bytes, each has PacketLength and its Padding, is followed by the packet at its stepped-back address exactly while the dive is incomplete, and the last leaves held all the packets brought in |
| Common2.CommandsAt | src/suunto_common2.c:368 | command k of a packet sequence is the read command of packet k, for its len + extra bytes below its address |
| Common2.FillPacketsIsPlan | src/suunto_common2.c:344-383 | FillPackets satisfies the loop's step-by-step description of a walk over a dive |
| Common2.PlanIsFillPackets | src/suunto_common2.c:344-383 | any sequence of packets that satisfies that description from a start address and held count is FillPackets from there: the walk is determined by where it starts |
| Common2.PlanOf | src/suunto_common2.c:344-345 | from any start address in the ring and held count, a walk over the dive exists |
| Common2.PlanDone | src/suunto_common2.c:346-383 | a log extended by all the commands of a walk is extended by FillCommands, and the bytes held are FillHeld |
| Common2.PlanCut | src/suunto_common2.c:369-372 | a log extended by the commands of the packets before packet k of a walk is extended by a proper prefix of FillCommands |
| Common2.PlanLast | src/suunto_common2.c:379 | the last packet of a walk leaves held the starting count plus all that the packets brought in |
| Common2.PlanMove | src/suunto_common2.c:350-382 | the packet the loop computes at packet k of a walk is packet k; the walk continues at the stepped-back address with len more held exactly while the dive is incomplete, and otherwise the held count is the walk's total |
| Common2.PlanLog | src/suunto_common2.c:368 | answering packet k's read command after those of the packets before it answers those of the first k + 1 packets |
| Common2.Device.FillLoop | src/suunto_common2.c:346-383 | from packet k0 of a walk over the dive, on success every remaining packet's read command was answered, the held count is the walk's total, at least the dive's size and no more than remaining, and the buffer holds the unrolled data from remaining - nbytes on; on failure the commands of the packets before some packet k of the walk were answered; the exchanges tried are exactly its run of transfers under the retry policy |
| Common2.Device.FillStep | src/suunto_common2.c:350-382 | one packet of the inner foreach loop: len is PacketLength (0 only at BEGIN) and extra is its Padding; the packet lies in the profile area; on success exactly its read command, for len + extra bytes at address - (len + extra), is answered, len more unrolled bytes sit below the held ones, and the address steps back as StepAddress says, wrapping to END; on failure nothing is answered; the exchanges tried are exactly its run of transfers under the retry policy, and a failure returns the failing transfer's status |
| Common2.Device.FillDive | src/suunto_common2.c:344-383 | the inner foreach loop starts from the available bytes left over, at current - available; on success exactly the read commands of FillPackets from there were answered, nbytes is available plus what those packets bring in, at least the dive's size and no more than remaining, and the buffer holds the unrolled profile data from remaining - nbytes on; on failure a proper prefix of those commands was answered; the exchanges tried are exactly its run of transfers under the retry policy, and a failure returns the failing transfer's status |
| Common2.Device.FetchDive | src/suunto_common2.c:340-395 | after filling, exactly the read commands of FillPackets from current - available with available held were answered and nbytes is what they leave held; remaining drops by the dive's size, available = nbytes - size, the decoded next pointer is current, and the previous pointer, payload and fingerprint window are those of the chain's newest dive; the exchanges tried are exactly its run of transfers under the retry policy, and a failure returns the failing transfer's status |
| Common2.Device.Offer | src/suunto_common2.c:402-407 | a fingerprint match stops before the callback; otherwise the payload is delivered, and a declining callback stops with the whole traversal received |
| Common2.Device.Advance | src/suunto_common2.c:397-407 | after a dive is offered, the walk either stops with the traversal complete or continues from the previous pointer with the walk invariant restored |
| Common2.Device.NextDive | src/suunto_common2.c:338-408 | one pass of the outer loop: remaining strictly decreases and the walk invariant holds for the next dive, or the walk stops with the traversal delivered, or it fails with nothing more delivered; the exchanges tried are exactly its run of transfers under the retry policy, and a failure returns the failing transfer's status |
| Common2.Device.WalkLoop | src/suunto_common2.c:335-411 | the callback receives a prefix of the traversal, and all of it on success; at begin, remaining == 0, available == 0 and ndives == count; the exchanges tried are exactly its run of transfers under the retry policy, and a failure returns the failing transfer's status |
| Common2.Device.WalkRing | src/suunto_common2.c:307-414 | from a zeroed buffer and the header's pointers, the callback receives a prefix of the traversal of the image's dives, and all of it on success; the exchanges tried are exactly its run of transfers under the retry policy, and a failure returns the failing transfer's status |
| Common2.Device.ReadInfo | src/suunto_common2.c:262-291 | on success exactly the version command and the serial read's frames were answered, and the device information is the model byte, the big-endian firmware and the big-endian serial read at 0x0023; the packets tried are exactly the run of the version transfer and the serial read's, stopped at the first failure, whose status it returns |
| Common2.Device.ReadSerial | src/suunto_common2.c:274-280 | on success exactly the read frame for the SZ_SERIAL = 8 bytes at 0x0023 is answered and the serial is the memory there; the exchanges tried are exactly its run of transfers under the retry policy, and a failure returns the failing transfer's status |
| Common2.Device.ReadHeader | src/suunto_common2.c:293-305 | on success exactly the header read's frame was answered, and the header is the four little-endian pointers last, count, end and begin at 0x0190; the exchanges tried are exactly its run of transfers under the retry policy, and a failure returns the failing transfer's status |
| Common2.Device.Foreach | src/suunto_common2.c:252-414 | the packets tried are exactly the run of transfers of the version, serial, header and ring reads, stopped at the first failure, whose status it returns; the callback receives something only after the version command, the serial read and the header read were all answered; the device information is reported once version and serial are read; the callback receives a prefix of the traversal, and all of it on success; with a clean script the result is SUCCESS |
| Profile.DeviceInfoOf | src/suunto_common2.c:287-290 | the model fits 8 bits, the firmware 24 bits and the serial 32 bits |
| Profile.DeviceInfoRoundTrip | src/suunto_common2.c:287-290 | the device information determines the four version bytes and the first four serial bytes |
| Profile.HeaderOf | src/suunto_common2.c:302-305 | each header pointer fits 16 bits |
| Profile.HeaderRoundTrip | src/suunto_common2.c:302-305 | header decoding and encoding are mutual inverses |
| Profile.Unrolled | src/suunto_common2.c:309 | the unrolled profile data is the ring read from begin for the profile's bytes and zero past them, as in the zeroed buffer |
| Profile.UnrolledIsRing | src/suunto_common2.c:367-368 | a stretch of the unrolled data is the ring read from its first position |
| Profile.Walk | src/suunto_common2.c:338-408 | every dive of a consistent chain starts in the ring, is between 4 bytes and the ring size long, carries size - 4 payload bytes and a full fingerprint window |
| Profile.WalkSizes | src/suunto_common2.c:390-411 | a consistent chain holds count - ndives dives whose sizes add up to remaining |
| Profile.WalkTiles | src/suunto_common2.c:336-338 | the dives tile the profile data backwards: the newest ends at end, each older one ends where the next newer one starts, and the oldest starts at begin |
| Profile.WalkHead | src/suunto_common2.c:393-395 | the newest dive is the ring run from its start pointer, its next pointer is its end, and its first two bytes are the chain's next previous pointer |
| Profile.WalkRingAt | src/suunto_common2.c:393-399 | every dive of the chain is the ring run from its start pointer and links to the next older dive |
| Profile.DivesOfImage | src/suunto_common2.c:302-411 | a well-formed image holds count dives, newest first, that tile [begin, end) of the ring, each a ring run linked to the next older one |
| Profile.TraverseSpec | src/suunto_common2.c:402-407 | the callback receives a prefix of the payloads, newest first, none from a dive carrying the fingerprint; it accepted all but the last; the traversal stops early only at a fingerprint match or after a refusal |
| Profile.TraverseStep | src/suunto_common2.c:402-407 | a fingerprint match hands nothing; otherwise the payload is handed, and the rest follows only if the callback accepts |
| Profile.TraverseAll | src/suunto_common2.c:338-408 | with no fingerprint match and an accepting callback, every payload is handed over, newest first |
| Profile.TraverseStopsAtFingerprint | src/suunto_common2.c:402-404 | with an accepting callback and the first fingerprint match at dive j, exactly the j newer payloads are handed over |
| Profile.WalkStateStart | src/suunto_common2.c:309-337 | the walk starts at end and last with all profile bytes remaining, none available, nothing handed over |
| Profile.WalkStateNext | src/suunto_common2.c:390-400 | after a dive is fetched and handed over, the walk invariant holds from its previous pointer |
| Profile.WalkStateDone | src/suunto_common2.c:409-411 | at begin no profile byte remains, none is left over, count dives were met, and the whole traversal was handed over |
| Scenarios.ReadTimeoutsThenIo | src/suunto_common2.c:77-90 | a read of 8 bytes whose script starts TIMEOUT, TIMEOUT, IO returns IO: two timeouts are retried, the I/O error is not |
| Scenarios.ReadTimeoutsThenSuccess | src/suunto_common2.c:77-90 | a read of 8 bytes whose script starts TIMEOUT, TIMEOUT, SUCCESS succeeds with the first 8 bytes of memory |
| Scenarios.ReadTimeoutsExhausted | src/suunto_common2.c:165-167 | a read of 8 bytes whose script starts with three timeouts returns TIMEOUT |
| Scenarios.WriteTimeoutsExhausted | src/suunto_common2.c:215-217 | a write of 3 bytes whose script starts with three timeouts returns TIMEOUT and leaves the memory as it was |

## Left out

- Events, logging and warnings are not modelled: the progress, device-information and warning events of every operation. Progress is kept only where `read` updates the caller's counter. `dump`'s counter is returned.
- Foreach: returns the device information as a value (`Option<DeviceInfo>`) instead of emitting it as an event. Its progress counter is not modelled.
- The backend packet function, the backend table and `device_init` of the base class are not modelled as code. They are the scripted oracle `Backend.Transport`. The oracle answers like a working device. Framing checks on the answer belong to the backend and are not part of this model.
- `ringbuffer.c`, `checksum.c` and `array.c` are not part of this model. `ringbuffer_distance`, `checksum_xor_uint8` and the `array_uint16_le`, `array_uint24_be` and `array_uint32_be` decoders are defined from their evident meaning.
- `suunto_common2.h` is not part of this model. The fingerprint length `FP_SIZE` is taken to be 4.
- Transfer: the assertion `asize >= size + 4` is a precondition.
- Foreach: the chain assertions (a dive size in [4, remaining], a next pointer equal to `current`, and at the end `remaining == 0`, `available == 0`, `ndives == count`) are not failure paths. They are a precondition, `Profile.ImageWellFormed`, under which they are proved to hold. `ImageWellFormed` also requires the header's `begin`, `end` and `last` pointers and every dive's previous pointer to lie in the ring `[BEGIN, END)`. The code never checks this: it takes ring distances of these pointers as they are.
- Foreach: `ImageWellFormed` also requires that every dive's fingerprint window, 4 bytes at offset 0x15, lies inside the enumeration buffer. For a short dive near the top of a nearly full ring, the code's `memcmp` would read past the buffer. The model does not cover such images.
- Foreach: `ImageWellFormed` demands chain consistency, the fingerprint-window bound and `ndives == count` for the whole chain back to `begin`. The code checks each dive only when its walk reaches it. It returns SUCCESS early at a fingerprint match or when the callback declines, so it never looks at the older dives. Images whose chain is inconsistent only beyond such an early stop are handled by the code but are outside the model's precondition.
- WalkRing: has the same well-formed-image precondition as Foreach, for the same reasons.
- Read: address arithmetic is unbounded. Frames carry only the low 16 bits of the address, as the code's `& 0xFF` masks do. The 32-bit wrap-around of `address + len` in `unsigned int` is not modelled.
- DeviceWrite: address arithmetic is unbounded, as for Read. The 32-bit wrap-around of `address + len` is not modelled.
- DeviceWrite: a failed exchange is modelled as leaving the device memory unchanged. A real device may have stored a write whose answer was lost; the code then returns the failure (src/suunto_common2.c:215-217), and the model does not promise anything about such a partly applied write.
- WriteTimeoutsExhausted: states that the memory is unchanged after three timeouts because the oracle applies a write only when its exchange succeeds; it says nothing about a device that stored the write and lost the answer.
- Transport.Packet: an exchange that fails changes neither the memory nor the answered log. A device that acted on the command but whose answer was lost is not modelled.
- Read: the buffer is an `array` with a start index instead of a moving pointer.
- Memory and buffer sizes are not modelled as `unsigned int` values. A caller's buffer size is the array's length.
- The dive callback is modelled as a function of everything handed over so far (`DiveSink.accept`). Its user data is not modelled. The payloads it has received are kept as `DiveSink.received`.
- NextDive: on failure it promises the packets tried, the failing status and that nothing more reached the callback. It does not say which frames were answered or how much of the ring was read.
- WalkLoop: on failure it promises the packets tried, the failing status and that nothing more reached the callback. It does not say which frames were answered or how much of the ring was read.
- Dive pointers: the previous and next pointers are the dive's first four bytes, at its lowest ring address, because that is where the code decodes them. The model does not place them at the dive's tail.
- The command-line program `suunto_vyper_test.c` (serial-port opening, dump files, logging) is not modelled.
