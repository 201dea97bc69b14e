# Verified models of the uCore user programs

A Dafny 4.11 project that models four parts of the repository and proves what they are for. Every Dafny module
corresponds to one component.

**The K210 flasher, `user/src/oscomp/ktool.py`.** Its table-driven AES (sections 5.1, 5.2, 5.3 and 5.3.5 of FIPS-197) is a class
whose constructor expands the key in place and whose two block operations are proved equal to the byte-level
cipher, which in turn is proved equal to a second, independent rendering of the standard with all numbers written out; decryption is proved to undo encryption for all three key sizes, and CBC (section 6.2 of NIST SP
800-38A) for any number of blocks. SLIP framing (RFC 1055) has one encoder and two independent decoders,
proved to invert the encoder and compared with each other on all streams. On top of both sits the download:
image, chunks, padding, word swap, request packets, retries, and a device that executes what arrives. The main
theorem there is end to end: from the SLIP stream of any run of `flash_firmware` the device stores the image
and nothing else. `read_flash` reads it back. `install_flash_bootloader` does not keep the same promise: it
advances the address before it has seen the answer, and the project states exactly when the load is right.

**Concurrent programs, `user/src/ucore`.** The three-semaphore ring buffer, the dining philosophers with ordered locks
and the counter under a mutex are state machines over the atomic steps of their threads, with all sizes as
parameters. For every schedule: safety invariants, progress in every reachable state, and the exact length
and outcome of every complete run.

**The string library, `user/lib/string.c`.** Memory is a byte array with numeric addresses on a 64-bit little-endian machine.
The word-at-a-time loops are the methods; their contracts speak of bytes, for every alignment and length.

**Text output and input, `user/lib/stdio.c`, `atoi`, `append_u32` and the shell's line handling.** Digits in any base, `atoi` as the
inverse of `printint`, `printf` against a recursive formatter, `get_argv` against the words of a line.

Modules, from the bottom up: `Seqs`, `Outcome`, `Sums`, `RingIndex`, `Division` (helpers); `Gf256`, `AesSbox`, `AesCipher`,
`AesKeys`, `AesReference`, `PyWords`, `KtoolAes`, `Cbc`; `Slip`, `SlipLine`; `StructPack`, `FlashImage`, `Flasher`, `Bootloader`, `FlashReader`;
`BoundedBuffer`, `DiningPhilosophers`, `RaceCounter`; `Memory`, `StringLib`, `StringOrder`; `Numbers`, `Printf`, `Shell`.

`dafny verify dfyconfig.toml` checks everything.

## How the source is represented

- A Python exception is the value `Raised`, or the ending `Failed` of a flashing call; `sys.exit` is the ending `Exited`.
- `raise_exception` (`user/src/oscomp/ktool.py:62-68`) closes the serial port before it raises, and nothing opens it again: the loader is in
  place (line 1504) before anything is flashed. The port of the model has a flag for that; writing to a closed port or
  reading from it raises, as pyserial does. Exceptions that are raised directly leave the port open.
- A Python integer in the AES code is a 64-bit two's complement number. `PyWords.IsWord`, which every invariant about words of
  the key tables and of the state uses, says that the number is from -2^32 to 2^32 - 1, so nothing outgrows the width.
- The serial port's input is a script of events: a byte, an empty read, or a poll after the deadline. A script
  that has run out counts as time running out. Theorems hold for every script.
- CRC-32, SHA-256 and the question whether debug text decodes are function parameters (`FlashImage.Library`), so every theorem holds
  for all such functions.
- The device stores every well-formed write request that reaches it at its address, answers reads from its
  flash, and ignores anything else.
- Semaphores and mutexes are the standard atomic ones: down and lock are enabled when the semaphore is up or
  the mutex is free.
- C integers have 32 bits and `long` and pointers 64; `-xx` of the smallest int wraps around.
- A parameter marked `ghost` in the string methods (`z`, the place of the terminator) only serves the
  specification. What may be read is what `Ram.Mapped` allows.

## Where the code differs from what one might expect

- `strcpy` and `strncpy` return the end of the copy, not its start (`user/lib/string.c:122`, `user/lib/string.c:147`); the contracts say so.
- `recv_one_return` looks for 0xC0 before it looks at the escape flag, `slip_reader` the other way round
  (`SlipLine.DecodersDiffer`), and it skips bytes before a frame, where `slip_reader` raises (`SlipLine.JunkIsSkipped`).
  `SlipLine.DecodersAgreeExactly` says when this matters.
- An empty read right after an escape byte makes `recv_one_return` raise (`SlipLine.LateEscapeFails`); everywhere else empty reads do no harm.
- `send_data_to_isp` retries after every exception, but after a timeout or a bad escape sequence the port is closed, so
  the remaining attempts fail without writing and the process exits (`Flasher.LateAcknowledgementExits`). Real resends only
  follow complete packets that do not parse; `Flasher.GetsThroughExactly` says when a frame gets through.
- `send_data_to_isp` ignores the boolean that `flash_recv_debug` returns: an error code from the device ends the
  retries like an acknowledgement (`Flasher.ErrorCodeEndsRetries`, `Flasher.EndsConfirmedExactly`).
- `install_flash_bootloader` advances `address` with every frame it sends (`Bootloader.RefusedChunkMisplaced`, `Bootloader.LoadsExactly`).
- `printint` would leave its buffer for bases 2, 3 and 4 (`Numbers.FitsExactly`); the repository calls it with 10 and 16 only.
- With one philosopher the lock order does not help (`DiningPhilosophers.SelfDeadlock`); the program has five.

## Model

| member | source | states |
|---|---|---|
| AesSbox.SiUndoesS | user/src/oscomp/ktool.py:107-108 | For every byte, the inverse S-box entry of the S-box entry is the byte again: the two literal 256-entry tables belong together. |
| AesSbox.SIsAffineInverse | user/src/oscomp/ktool.py:107 | Every entry of the S-box table is the FIPS-197 one: the affine image of the inverse in GF(2^8), zero counting as its own inverse. |
| AesCipher.InvMixColumnsUndoes | user/src/oscomp/ktool.py:195-198 | InvMixColumns undoes MixColumns on every state (the two circulant matrices are inverse over GF(2^8)). |
| AesCipher.InvMixColumnsAdds | user/src/oscomp/ktool.py:191-198 | InvMixColumns passes through a round-key addition; this is what lets the code transform the keys instead of the state. |
| AesCipher.InvShiftSubUndoes | user/src/oscomp/ktool.py:258-264 | The inverse byte substitution and inverse row shift undo SubBytes and ShiftRows in either order. |
| AesCipher.InverseRoundsMirror | user/src/oscomp/ktool.py:248-255 | After r rounds of decryption the state is exactly the one the forward cipher had before its last r + 1 key additions, for every round count. |
| AesCipher.DecryptUndoesEncrypt | user/src/oscomp/ktool.py:200-266 | For every block and every list of round keys, the equivalent inverse cipher (section 5.3.5 of FIPS-197) with the reversed and transformed keys returns the block that the cipher of section 5.1 enciphered. |
| AesCipher.EquivalentInverse | user/src/oscomp/ktool.py:234-266 | On every input, enciphered or not, the order of steps that decrypt uses gives the same block as the step-by-step inverse cipher of section 5.3. |
| AesKeys.RconTable | user/src/oscomp/ktool.py:104 | The first ten round constants in the table are the successive powers of x in GF(2^8). |
| AesKeys.WordStep | user/src/oscomp/ktool.py:155-181 | The section 5.2 recurrence, re-indexed to batches of key length as the in-place expansion makes them, for 4, 6 and 8 words. |
| AesKeys.InverseScheduleInverts | user/src/oscomp/ktool.py:191-198 | The inverse schedule is the forward one reversed, with InvMixColumns on all but the two outer keys. |
| AesKeys.BlockRoundTrip | user/src/oscomp/ktool.py:200-266 | For every 16, 24 or 32 byte key and every 16-byte block, decrypting the enciphered block returns the block. |
| AesKeys.Rounds | user/src/oscomp/ktool.py:101 | Ten, twelve or fourteen rounds for 16, 24 or 32 bytes of key. |
| AesReference.EncryptBlockIsReference | user/src/oscomp/ktool.py:97-232 | For every key and block, the cipher that encrypt is proved to compute is an independent byte-by-byte one: sections 5.1 and 5.2 of FIPS-197 with the round counts, the ten round constants, the row offsets and the matrix (2 3 1 1) written out, sharing only the S-box, characterised above, and the field multiplication. |
| PyWords.NarrowStaysNarrow | user/src/oscomp/ktool.py:157-230 | Exclusive-or and arithmetic right shift of numbers from -2^32 to 2^32 - 1 stay in that range, so a 64-bit two's complement number loses nothing of Python's unbounded integers. |
| PyWords.XorIsWord | user/src/oscomp/ktool.py:158-181 | Exclusive-or keeps what every word of tk, _Ke, _Kd and t has throughout: it is in range, and its visible bytes are the FIPS-197 ones. |
| PyWords.PackedNarrow | user/src/oscomp/ktool.py:97-98 | Every packed word, every word unpacked as a signed integer and every shifted byte is in that range. |
| PyWords.PythonAgreesWithWords | user/src/oscomp/ktool.py:145-230 | The four bytes that the code extracts from a Python integer, negative or not, are those of the number modulo 2^32. |
| PyWords.BytesOfXor | user/src/oscomp/ktool.py:158-181 | Exclusive-or of Python integers adds the four visible bytes separately in GF(2^8). |
| PyWords.BytesOfSigned | user/src/oscomp/ktool.py:145 | A key word unpacked as a signed integer shows the same four bytes as the key. |
| PyWords.ForwardTables | user/src/oscomp/ktool.py:110-114 | Four lookups in the forward tables, combined by exclusive-or, are one column of MixColumns. |
| PyWords.InverseTables | user/src/oscomp/ktool.py:116-126 | Four lookups in the decryption tables, combined by exclusive-or, are one column of InvMixColumns. |
| KtoolAes.NextBatch | user/src/oscomp/ktool.py:157-181 | One pass over tk in place turns each word of batch m of the key schedule into the word of batch m + 1 at the same place, for all three key sizes. |
| KtoolAes.CopyBatch | user/src/oscomp/ktool.py:183-189 | A batch is copied to both tables up to their capacity; the last batch may be cut off. |
| KtoolAes.BatchBound | user/src/oscomp/ktool.py:153-163 | While key words are missing, the round-constant index is below ten, so the table does not run out. |
| KtoolAes.LoadKey | user/src/oscomp/ktool.py:145 | The loaded words are in range and show words 0 to nk - 1 of the key schedule. |
| KtoolAes.ExpandKey | user/src/oscomp/ktool.py:133-189 | Afterwards every word of _Ke is in range and shows the section 5.2 word of its place, and _Kd[r] equals _Ke[rounds - r] word for word. |
| KtoolAes.InvertKeys | user/src/oscomp/ktool.py:191-198 | The U-table pass turns the reversed rows in place into the key schedule of the equivalent inverse cipher, leaving the outer two rows as they are. |
| KtoolAes.AES.constructor | user/src/oscomp/ktool.py:128-198 | A new object holds both complete key schedules of its key, 11, 13 or 15 round keys each. |
| KtoolAes.EncryptColumn | user/src/oscomp/ktool.py:215-220 | The table expression for column i is column i of AddRoundKey(MixColumns(ShiftRows(SubBytes(state)))). |
| KtoolAes.DecryptColumn | user/src/oscomp/ktool.py:249-254 | The table expression for column i is column i of the corresponding inverse round. |
| KtoolAes.LastColumn | user/src/oscomp/ktool.py:223-230 | The four bytes that the special last round appends are column i of the last round, which has no MixColumns; both directions. |
| KtoolAes.AES.Encrypt | user/src/oscomp/ktool.py:200-232 | encrypt returns the FIPS-197 byte-level cipher of the block under the object's key, and raises exactly for blocks that are not 16 bytes long. |
| KtoolAes.AES.Decrypt | user/src/oscomp/ktool.py:234-266 | decrypt returns the equivalent inverse cipher of the block under the object's key, and raises exactly for blocks that are not 16 bytes long. |
| Cbc.CbcEncryptAt | user/src/oscomp/ktool.py:280-287 | Cipher block i is the encryption of the block whose byte k is byte k of plaintext block i, exclusive-or byte k of cipher block i - 1, or of the initialization vector for i = 0 (section 6.2 of NIST SP 800-38A). |
| Cbc.CbcRoundTrip | user/src/oscomp/ktool.py:268-297 | For every key, vector and number of blocks, decrypting from the same vector returns the plaintext blocks. |
| Cbc.AES_128_CBC.Encrypt | user/src/oscomp/ktool.py:280-287 | One call returns the cipher block of the plaintext exclusive-or the chained block, byte k with byte k, and keeps it for the next call; a wrong length raises and changes nothing. |
| Cbc.AES_128_CBC.Decrypt | user/src/oscomp/ktool.py:289-297 | Byte k of what one call returns is byte k of the deciphered block exclusive-or byte k of the chained one, and the cipher block is kept; a wrong length raises and changes nothing. |
| Cbc.EncryptAll | user/src/oscomp/ktool.py:280-287 | A run of encrypt calls on an object in any state enciphers the message from what the object has chained, and chains its last cipher block. |
| Cbc.DecryptAll | user/src/oscomp/ktool.py:289-297 | A run of decrypt calls on an object in any state deciphers the message from what the object has chained, and chains its last cipher block. |
| Cbc.EncryptThenDecrypt | user/src/oscomp/ktool.py:268-297 | What one new object enciphers, another new object with the same key and vector deciphers to the same blocks, for any number of blocks; bad keys and vectors raise. |
| Cbc.NewCbc | user/src/oscomp/ktool.py:270-277 | Raises exactly for a bad key length or a bad vector length; without a vector the chain starts from zeros. |
| Cbc.EncryptFirmware | user/src/oscomp/ktool.py:1164-1170 | The loop over padded 16-byte blocks produces the CBC image of the firmware, or raises for a bad key. |
| Cbc.CipherImageDecrypts | user/src/oscomp/ktool.py:1164-1174 | Appending 15 zero bytes and dropping the incomplete block gives ceil(n / 16) blocks that decrypt to the firmware followed by fewer than 16 zero bytes. |
| Cbc.CipherImageAt | user/src/oscomp/ktool.py:1164-1170 | Block i of the enciphered image is the cipher block of bytes 16i to 16i + 15 of the firmware, zeros after its end, exclusive-or block i - 1 of the image, or zeros for i = 0; the image has ceil(n / 16) blocks. |
| Slip.ReplacePasses | user/src/oscomp/ktool.py:761-764 | The two ordered replace passes equal one pass that escapes byte by byte. |
| Slip.FrameNumbers | user/src/oscomp/ktool.py:761-764 | The frame in numbers: 0xC0, then for every byte 0xDB 0xDC for 0xC0, 0xDB 0xDD for 0xDB and the byte itself otherwise, then 0xC0. |
| Slip.BodyHasNoEnd | user/src/oscomp/ktool.py:761-764 | The escaped body of a frame contains no 0xC0. |
| Slip.SplitsDoNotMatter | user/src/oscomp/ktool.py:440-473 | slip_reader yields the same packets, ends in the same state and raises in the same cases however a stream, well-formed or not, is split into non-empty reads. |
| Slip.ReaderLosesNothing | user/src/oscomp/ktool.py:440-473 | At every moment before an exception, the packets yielded so far, framed again, together with what the generator remembers, are exactly the bytes received. |
| Slip.ReaderRoundTrip | user/src/oscomp/ktool.py:440-473 | Every list of packets written back to back, empty ones included, is yielded again in order. |
| Slip.ReaderAcceptsExactlyWires | user/src/oscomp/ktool.py:440-473 | The generator finishes a stream with given packets, idle and without exception, if and only if the stream is those packets as written. |
| Slip.SlipReader.Take | user/src/oscomp/ktool.py:452-473 | The body of the inner loop, one byte, against the one-byte transition function. |
| Slip.SlipReader.Feed | user/src/oscomp/ktool.py:444-473 | One read, which may complete any number of packets; an empty read raises. |
| SlipLine.AwaitFrame | user/src/oscomp/ktool.py:770-804 | Receiving one frame fails if and only if an empty read follows an escape byte among the events used up, whose bytes are all of this frame; else it returns the packet and uses up just the frame. |
| SlipLine.ReceiveRoundTrip | user/src/oscomp/ktool.py:770-804 | For every list of packets written back to back and every pattern of empty reads in time, successive calls return exactly those packets in order and leave nothing behind, if and only if no empty read comes directly after an escape byte. |
| SlipLine.DeadlineDecides | user/src/oscomp/ktool.py:770-804 | A call that has no packet when the deadline passes, even inside a frame, raises whatever comes later; a packet that is complete before does not depend on what comes later. |
| SlipLine.LateEscapeFails | user/src/oscomp/ktool.py:788-798 | A concrete well-formed frame with an empty read inside an escape sequence, on which the call raises. |
| SlipLine.DecodersAgree | user/src/oscomp/ktool.py:440-473 | Whatever slip_reader reads to the end without an exception, recv_one_return reads as the same packets. |
| SlipLine.ReceivesExactly | user/src/oscomp/ktool.py:770-804 | The language of recv_one_return: calls read a byte stream to the end as given packets if and only if it is their frames, each with bytes before it that do not start a frame and with or without an escape byte right before its end. |
| SlipLine.DecodersAgreeExactly | user/src/oscomp/ktool.py:440-473 | On every stream of that language slip_reader reads the same packets if and only if there are no bytes before a frame and no such escape byte. |
| SlipLine.JunkIsSkipped | user/src/oscomp/ktool.py:774-780 | A concrete byte before a frame: recv_one_return skips it, slip_reader raises. |
| SlipLine.DecodersDiffer | user/src/oscomp/ktool.py:788-791 | A concrete stream that ends a frame inside an escape sequence: recv_one_return returns a packet, because it looks for 0xC0 before the escape flag, and slip_reader raises. |
| SlipLine.SerialPort.Write | user/src/oscomp/ktool.py:761-765 | Appends one frame to the line, which always is the framing of the list of packets written; on a closed port it raises and writes nothing. |
| SlipLine.SerialPort.RecvOneReturn | user/src/oscomp/ktool.py:770-804 | The two polling loops return the first frame, or raise, as the two-stage specification of one reception says, and consume exactly its events; every failure closes the port (lines 62-68), and a closed port raises at once. |
| StructPack.UnpackPackI | user/src/oscomp/ktool.py:1122 | A 32-bit number packed little-endian is read back unchanged. |
| StructPack.UnpackPackH | user/src/oscomp/ktool.py:1125 | A 16-bit number packed little-endian is read back unchanged. |
| StructPack.PackIsLittleEndian | user/src/oscomp/ktool.py:1122-1127 | Both packings are the number in base 256, least significant byte first. |
| FlashImage.ImageOpens | user/src/oscomp/ktool.py:1158-1178 | The stored bytes open again: flag, length and hash are right, and the body, deciphered where the flag says so, is the firmware followed by fewer than 16 zero bytes. |
| FlashImage.ImageExistsExactly | user/src/oscomp/ktool.py:1158-1178 | There is an image with header if and only if the key is empty or has 16, 24 or 32 bytes and the length of the body fits 32 bits. |
| FlashImage.PayloadBytes | user/src/oscomp/ktool.py:1115-1120 | Byte k of the data field of frame n is the image byte that belongs at that distance from the start, after padding and, if asked for, reversal of every four-byte word. |
| FlashImage.ParseRequest | user/src/oscomp/ktool.py:1122-1127 | A device that checks checksum and length takes every request apart into the operation, address and data that went in. |
| FlashImage.RequestBytes | user/src/oscomp/ktool.py:1122-1127 | Every request byte by byte: operation, two zero bytes, checksum of all that follows it, address, length and data, the numbers little-endian. |
| FlashImage.WriteRequestBytes | user/src/oscomp/ktool.py:1122-1127 | Frame n in numbers: operation 0xd8 for SRAM and 0xd4 for flash, address n * size + offset, size 4096 below 128 KiB and 65536 from there on, and each data byte, padded and swapped. |
| FlashImage.ResendsDoNothing | user/src/oscomp/ktool.py:1129-1141 | A stream in which every frame occurs one to five times in a row leaves a device in the same state as the stream with each frame once. |
| FlashImage.RequestsProgram | user/src/oscomp/ktool.py:1194-1200 | The first n frames put exactly the first n chunks of the image in place, without gap or overlap, and change nothing else. |
| Flasher.SwapData | user/src/oscomp/ktool.py:1115-1120 | The swap loop reverses every four-byte group, and raises exactly when the last group is cut off. |
| Flasher.FlashRecvDebug | user/src/oscomp/ktool.py:1002-1011 | Returns True just for ISP_RET_OK and False for the other known error codes; raises over an unparsable packet with the port still open, and over a failed reception with the port closed. |
| Flasher.JudgedExactly | user/src/oscomp/ktool.py:519-555 | Which packets parse and which say OK, in numbers: operations 0xd1 to 0xda, 0xde and 0xdf, error codes 0 and 0xe0 to 0xe4, 0xe0 alone for OK. |
| Flasher.SendFrame | user/src/oscomp/ktool.py:1129-1141 | The same frame goes out again only after a complete packet that does not parse, at most five times in all; once a reception has failed nothing more is written, and the process exits. |
| Flasher.GetsThroughExactly | user/src/oscomp/ktool.py:1129-1141 | The retry loop succeeds if and only if one of the five attempts gets an acceptable response and all attempts before it get complete packets that do not parse. |
| Flasher.ResponsesDecide | user/src/oscomp/ktool.py:1129-1141 | When a device answers in time, the loop succeeds if and only if one of its first five packets is acceptable. |
| Flasher.LateAcknowledgementExits | user/src/oscomp/ktool.py:1129-1141 | A concrete run: the acknowledgement comes after the deadline, and the process exits after one frame although a good acknowledgement is next on the line. |
| Flasher.EndsConfirmedExactly | user/src/oscomp/ktool.py:1131-1141 | The loop ends only with a response that says OK if and only if none of the five attempts gets another known error code after packets that do not parse. |
| Flasher.ErrorCodeEndsRetries | user/src/oscomp/ktool.py:1134-1141 | A concrete run: the device reports a bad checksum, and the call returns as after a good acknowledgement. |
| Flasher.SendDataToIsp | user/src/oscomp/ktool.py:1101-1141 | One request with the right operation, address, length, checksum and data goes out as often as the retry loop says; what struct.pack or the swap loop cannot handle raises before anything is sent. |
| Flasher.BuildImage | user/src/oscomp/ktool.py:1158-1189 | The bytes to be stored are flag, length, firmware (enciphered if there is a key) and hash, or the bare firmware. |
| Flasher.FlashFirmware | user/src/oscomp/ktool.py:1148-1224 | For every input, port and course of replies, the ending (return, exception or exit), everything written, the port and what is left of the replies are those of the frame-by-frame download; a prologue that raises writes nothing, and a bad key closes the port. |
| Flasher.SendingWrites | user/src/oscomp/ktool.py:1194-1200 | Whatever the replies, what the loop writes is a prefix of the image's write requests in order, each one to five times; all of them when it ends, and then the port is open. |
| Flasher.FlashingWrites | user/src/oscomp/ktool.py:1148-1224 | The same for the whole call; the start command can only follow the last frame, and does when the call returns and it is due. |
| Flasher.BootRequestBytes | user/src/oscomp/ktool.py:1220-1222 | The start command in numbers: operation 0xd9, address 0x80000000, no data, and the checksum of these. |
| Flasher.ReturnsExactly | user/src/oscomp/ktool.py:1148-1224 | The call returns if and only if all addresses have 32 bits, the port is open, every frame in turn gets through, and the reply to the start command, where one is due, passes. |
| Flasher.DownloadReturnsExactly | user/src/oscomp/ktool.py:1148-1224 | When a device answers in time, the call returns if and only if the addresses have 32 bits, every frame in turn finds an acceptable packet among the next five, and the packet after these is acceptable where the start command is due. |
| Flasher.PromptDeviceReturns | user/src/oscomp/ktool.py:1148-1224 | With one acceptable packet in time for every packet sent, the call returns and every frame has been sent exactly once. |
| Flasher.FlashedDevice | user/src/oscomp/ktool.py:1148-1224 | End to end: a device that decodes the SLIP stream of any run and stores each data field at its address ends with the image in place, zero-padded to a chunk multiple and word-swapped if asked, and nothing else changed. |
| Flasher.FlashDevice | user/src/oscomp/ktool.py:1148-1224 | The method together with the device on a new line: it returns exactly under the conditions of ReturnsExactly, the device then holds the whole image, in every other run the chunks of the frames written, and nothing else has changed. |
| Flasher.FlashBare | user/src/oscomp/ktool.py:1186-1224 | The same without header (into SRAM, or with sha256Prefix off), in terms of the firmware alone: the call returns exactly under the conditions of ReturnsExactly for the firmware itself, and then the memory written to reads from the offset on as the firmware, four-byte groups reversed if asked for, and zeros up to a multiple of 4096 or 65536; nothing else has changed. |
| Flasher.FlashHoldsImage | user/src/oscomp/ktool.py:1191-1200 | After a complete run the flash from the offset on reads as the image, word-swapped if asked, and zeros up to a chunk multiple, at most one chunk longer. |
| Flasher.FramesDiffer | user/src/oscomp/ktool.py:1199-1200 | No two of the total_chunk frames of an image are the same. |
| Bootloader.InstallFlashBootloader | user/src/oscomp/ktool.py:1072-1091 | In every run the frames sent are those of the install specification, in which the address moves on with every frame sent, acknowledged or not. |
| Bootloader.RecvDebug | user/src/oscomp/ktool.py:988-997 | Accepts, refuses or raises according to the error code; an unknown operation is only warned about, and only a failed reception closes the port. |
| Bootloader.AnswerExactly | user/src/oscomp/ktool.py:487-492 | The answers in numbers: error codes 0 and 0xe0 accept, 0xe1 to 0xe3 refuse, all others and shorter packets raise. |
| Bootloader.FrameBytes | user/src/oscomp/ktool.py:1083-1086 | A frame in numbers: operation 0xc3, the address, the length, the checksum and the data. |
| Bootloader.AllAcceptedExactly | user/src/oscomp/ktool.py:1080-1091 | A load from any chunk and address on completes without sending a frame twice if and only if the addresses have 32 bits and the next answers, one for each chunk left, all accept. |
| Bootloader.AcceptedInPlaceExactly | user/src/oscomp/ktool.py:1080-1091 | The call completes with every accepted chunk at start + offset if and only if the addresses have 32 bits and the first answer to every frame accepts it. |
| Bootloader.InstallStores | user/src/oscomp/ktool.py:1080-1091 | A device that stores every frame ends with one unbroken stretch: every chunk as often as it was sent. |
| Bootloader.LoadsWithoutResend | user/src/oscomp/ktool.py:1080-1091 | A completed load leaves the data at 0x805E0000 and on and everything else as it was, whatever was there before, if and only if no frame was sent again. |
| Bootloader.LoadsExactly | user/src/oscomp/ktool.py:1072-1091 | The call completes and leaves the data at 0x805E0000 and on, everything else as it was, whatever was there before, if and only if the addresses have 32 bits and the first answers to ceil(n / 1024) frames accept. |
| Bootloader.RefusedChunkMisplaced | user/src/oscomp/ktool.py:1089-1091 | A concrete run, one byte of data refused once, that completes with the byte at the wrong address. |
| FlashReader.ReadFlash | user/src/oscomp/ktool.py:1294-1328 | The loop asks for block after block and collects the data; a response of the wrong size exits, a failed reception closes the port and raises, a wrong checksum is ignored. |
| FlashReader.AnswersExactly | user/src/oscomp/ktool.py:1305-1328 | What the device may answer to a read request: any sixteen header bytes and then just the flash content asked for. |
| FlashReader.AskBytes | user/src/oscomp/ktool.py:1307-1309 | A read request in numbers: operation 0xda, the address, length 4, the block size as data, and the checksum. |
| FlashReader.ReadingAsks | user/src/oscomp/ktool.py:1305-1328 | In every run request k asks for the block at address + k * size, and all these addresses have 32 bits. |
| FlashReader.ReadingReturnsExactly | user/src/oscomp/ktool.py:1305-1328 | With packets in time, reading returns if and only if the addresses of all blocks needed have 32 bits and each of that many first packets is sixteen bytes longer than a block; the data are their bytes after the sixteenth. |
| FlashReader.ReadingReturnsFlash | user/src/oscomp/ktool.py:1305-1328 | When the line brings the device's answers, what is read is the content of the flash from the address on, in whole blocks. |
| FlashReader.ReadBack | user/src/oscomp/ktool.py:1294-1328 | Reading a range that was flashed before returns the stored image byte by byte, swapped if it was, also when the two commands use different block sizes; an unswapped image is a prefix of the data. |
| FlashReader.FirmwareArrives | user/src/oscomp/ktool.py:1148-1200 | The whole way: encipher, frame, chunk, pad, request, resend, SLIP, decode, store, open, decipher; the device that opens its flash finds the firmware, for every key and every pattern of resends. |
| FlashReader.FirmwareArrivesAtOnce | user/src/oscomp/ktool.py:1148-1200 | The same where every frame is sent once. |
| FlashReader.FlashAndOpen | user/src/oscomp/ktool.py:1148-1224 | The same from a run of the method: it returns exactly when the image builds and the conditions of ReturnsExactly hold, and then the device finds the firmware in its flash. |
| BoundedBuffer.WaitsExactly | user/src/ucore/ch8b_mpsc_sem.c:22-40 | A thread has to wait exactly at a taken mutex, or, with rounds left, at its semaphore while that is down; a producer has c.items rounds, the consumer c.items for each producer. |
| BoundedBuffer.NextInv | user/src/ucore/ch8b_mpsc_sem.c:20-48 | Every atomic step of every thread keeps the invariant: slots (empty + existed + threads between first down and last up = buffer size), mutex, indices, order and shares. |
| BoundedBuffer.AtAccess | user/src/ucore/ch8b_mpsc_sem.c:25-26 | A producer at its store finds no other index update under way and a slot whose value has already been read. |
| BoundedBuffer.Progress | user/src/ucore/ch8b_mpsc_sem.c:20-48 | Every state that satisfies the invariant and has work left has a thread that can move. |
| BoundedBuffer.NextLeft | user/src/ucore/ch8b_mpsc_sem.c:20-48 | Every step of every thread uses up exactly one unit of a bounded amount of work. |
| BoundedBuffer.RunExtends | user/src/ucore/ch8b_mpsc_sem.c:20-48 | A schedule goes on with thread t if and only if t can move in the state reached, and then with its step: the schedules are all interleavings. |
| BoundedBuffer.EveryRunIsSafe | user/src/ucore/ch8b_mpsc_sem.c:20-48 | For every buffer size, producer count, item count and schedule: at most one thread is in the mutex, the values consumed are a prefix of the values stored in mutex order, and no slot is overwritten before it is read. |
| BoundedBuffer.EveryRunCompletes | user/src/ucore/ch8b_mpsc_sem.c:20-62 | Every schedule can be extended exactly while it is shorter than a fixed length; at that length all threads have exited and each producer's number has been consumed exactly once per round. |
| DiningPhilosophers.WaitsExactly | user/src/ucore/ch8b_mut_phi_din.c:22-33 | A philosopher has to wait exactly for the lower of its two forks, which for the last one is fork 0, and then for the higher one. |
| DiningPhilosophers.NeighboursDoNotEatTogether | user/src/ucore/ch8b_mut_phi_din.c:31-39 | Under the fork-ownership invariant two neighbours are never both between their second lock and their first unlock. |
| DiningPhilosophers.NextInv | user/src/ucore/ch8b_mut_phi_din.c:26-40 | Every atomic step keeps fork ownership, the order of noted times and the separation of neighbours' meals. |
| DiningPhilosophers.OwnerMoves | user/src/ucore/ch8b_mut_phi_din.c:22-33 | Following the owners of taken forks upwards, fork numbers rise, so the chain ends at a philosopher who can move. |
| DiningPhilosophers.Progress | user/src/ucore/ch8b_mut_phi_din.c:20-42 | No reachable state with work left is deadlocked. |
| DiningPhilosophers.RunExtends | user/src/ucore/ch8b_mut_phi_din.c:20-42 | A schedule goes on with a philosopher at a time if and only if that philosopher can move and the time is not in the past: the schedules are all interleavings. |
| DiningPhilosophers.EveryRunIsSafe | user/src/ucore/ch8b_mut_phi_din.c:20-42 | For two or more philosophers, any rounds and any schedule: philosophers p and p + 1, the last and the first included, never eat together, and the start and end that they have written to eat[2r] and eat[2r + 1] for any two rounds never overlap. |
| DiningPhilosophers.EveryRunCompletes | user/src/ucore/ch8b_mut_phi_din.c:20-42 | For two or more philosophers every schedule can be extended exactly while it is shorter than a fixed length; at that length all have finished all rounds and exited. |
| DiningPhilosophers.DeadlockFreeExactly | user/src/ucore/ch8b_mut_phi_din.c:22-33 | No run gets stuck if and only if there is not exactly one philosopher, or there are no rounds. |
| DiningPhilosophers.SelfDeadlock | user/src/ucore/ch8b_mut_phi_din.c:22-33 | The one-philosopher run that gets stuck: both forks are the same mutex. |
| RaceCounter.WaitsExactly | user/src/ucore/ch8b_mut_race.c:20-21 | A thread has to wait exactly when it has rounds left and the mutex is taken. |
| RaceCounter.NextInv | user/src/ucore/ch8b_mut_race.c:20-28 | Every atomic step keeps: the counter is the number of increments written back, and the copy a thread has read under the mutex is still current. |
| RaceCounter.MutualExclusion | user/src/ucore/ch8b_mut_race.c:21-27 | Two different threads are never both between lock and unlock. |
| RaceCounter.RunExtends | user/src/ucore/ch8b_mut_race.c:17-29 | A schedule goes on with a thread if and only if it can move in the state reached: the schedules are all interleavings. |
| RaceCounter.NoUpdateIsLost | user/src/ucore/ch8b_mut_race.c:17-46 | For every thread count, round count and schedule: every run ends, with the counter at threads times rounds; thread k exits with k + 1 squared 500 times per round, that is (k + 1)^(2^(500 * rounds)) mod 10007. |
| RaceCounter.SquaredIsPower | user/src/ucore/ch8b_mut_race.c:23-25 | n rounds of t = t * t % 10007 give t to the power 2^n modulo 10007. |
| RaceCounter.SquareFits | user/src/ucore/ch8b_mut_race.c:23-25 | After the first squaring, the product computed by every later one fits a 32-bit int. |
| Memory.HasZeroFinds | user/lib/string.c:4-8 | HASZERO(w) is nonzero exactly when some byte of the word is zero. |
| Memory.HasByteFinds | user/lib/string.c:87-88 | HASZERO(w ^ ONES * c) is nonzero exactly when some byte of the word is c. |
| Memory.PackBytes | user/lib/string.c:113-116 | A little-endian word taken apart gives the eight bytes of memory it was read from. |
| StringLib.StrLen | user/lib/string.c:62-76 | For every address the length is that of the string; no byte before it and no aligned word past the one with the terminator is read. |
| StringLib.MemChr | user/lib/string.c:78-96 | For every address and length the result is the first place of the byte, or null; nothing outside [s, s + n) and no aligned word past the one with the byte is read. |
| StringLib.StrNLen | user/lib/string.c:98-102 | The distance to the first NUL within n bytes, or n. |
| StringLib.MemSet | user/lib/string.c:37-43 | Exactly n bytes are set, for n up to INT_MAX; the result is the start. |
| StringLib.StrCpy | user/lib/string.c:104-123 | For every pair of alignments and disjoint buffers the string and its terminator are written and nothing else changes; the result is the address of the new terminator. |
| StringLib.StrNCpy | user/lib/string.c:125-148 | Exactly n bytes are written, the string cut to n and then NULs, and nothing else changes; the result is the address after the last string byte. |
| StringOrder.StrCmp | user/lib/string.c:45-50 | The bytes before some place k are the same and not NUL, and the result is the difference of the two unsigned bytes at k: negative exactly when the left one is less, zero only at a common end. |
| StringOrder.StrNCmp | user/lib/string.c:52-60 | For buffers readable up to their first NUL or n bytes, terminated or not: the same, with k below n, and zero at a common end or after n equal bytes. |
| StringOrder.CutIsBounded | user/lib/string.c:52-60 | For a terminated string that text is the string cut to n bytes. |
| StringOrder.ValueOrders | user/lib/string.c:49-59 | Unsigned bytes keep their value and their order. |
| StringOrder.CompareSign | user/lib/string.c:45-60 | The left text is less exactly when, at the first place where the two differ, its byte is the smaller unsigned one or it has ended. |
| StringOrder.CompareAntisymmetric | user/lib/string.c:45-50 | The comparison is zero exactly for equal strings and changes sign when the arguments change places. |
| StringOrder.CompareTransitive | user/lib/string.c:45-50 | The order is transitive; with the row above, a total order. |
| Numbers.LayDigits | user/lib/stdio.c:48-52 | The do-while loop lays down the digits from the right, the last one at index 15, and stays inside the buffer. |
| Numbers.PrintInt | user/lib/stdio.c:37-60 | What goes out is the sign and the digits, with the wrap-around of the smallest int; the error branch is never taken when the text fits. |
| Numbers.DigitsFit | user/lib/stdio.c:50-52 | A number has at most k digits if and only if it is below the k-th power of the base. |
| Numbers.FitsExactly | user/lib/stdio.c:37-60 | The 17-byte buffer is large enough for every int, signed or unsigned, if and only if the base is at least 5. |
| Numbers.IntStringWrites | user/lib/stdio.c:37-60 | The text is a numeral of the number: digits 0 to 9 and a to f below the base, no leading zero, whose value is the number, with a minus sign before it for a negative one, or plus 2^32 when unsigned. |
| Numbers.Atoi | user/lib/string.c:20-35 | The number that a text means, spaces, sign and digits, is built up negated and never leaves the range of int. |
| Numbers.MeaningOf | user/lib/string.c:20-35 | Which number a text means, for every text: blanks (space and characters 9 to 13), perhaps one sign, digits whose decimal value counts, and a rest that is ignored. |
| Numbers.AtoiUndoesPrintInt | user/lib/string.c:20-35 | For every 32-bit int, the smallest one included, atoi reads back what printint(x, 10, 1) puts out. |
| Numbers.AppendU32 | user/src/test/test_fork_wait.c:68-89 | What printint in base 10, unsigned, puts out for the same 32 bits is written at the pointer, nothing else changes, and the pointer moves past it. |
| Numbers.TenDigits | user/src/test/test_fork_wait.c:70 | Ten scratch characters are enough for every 32-bit number. |
| Numbers.PrintPtr | user/lib/stdio.c:62-72 | Shifting out the top digit sixteen times puts out 0x and the sixteen hexadecimal digits. |
| Numbers.PtrStringWrites | user/lib/stdio.c:62-72 | These sixteen digits are a numeral of base 16 whose value is the pointer. |
| Printf.PlainRun | user/lib/stdio.c:86-87 | The scan to the next % accounts for a literal run of the meaning of the format. |
| Printf.PercentPairs | user/lib/stdio.c:88-89 | The scan over percent pairs moves z by one per pair, so that the output from a to z is the run and one % per pair. |
| Printf.Convert | user/lib/stdio.c:96-127 | One conversion, known or unknown, moves the format and the arguments on by what it uses and prints its text. |
| Printf.Printf | user/lib/stdio.c:75-130 | The pointer loop prints exactly what the recursive meaning of format and arguments says (literal runs, %%, all conversions, unknown ones, a trailing %), reads nothing past the NUL and returns. |
| Printf.FormatCharacter | user/lib/stdio.c:86-92 | A character other than % stands for itself. |
| Printf.FormatPercent | user/lib/stdio.c:88-95 | Two percent signs stand for one, and a last single one for nothing. |
| Printf.FormatUnknown | user/lib/stdio.c:97-124 | Any other character after %, an l without d included, is put out together with it. |
| Printf.FormatArgument | user/lib/stdio.c:97-119 | %d and %x write their int in base 10 and 16 with a sign, %ld the int that its long equals modulo 2^32, %p the pointer with sixteen digits after 0x, %s the string or its first 200 characters, and (null) for a null pointer. With the three rows above these equations determine what every format means. |
| Printf.ToIntIs | user/lib/stdio.c:98-100 | The int that a long is cut to differs from it by a multiple of 2^32. |
| Shell.GetArgv | user/src/ucore/usershell.c:39-56 | The pointers lead, from left to right, to the starts of exactly the maximal runs of non-spaces, each now a NUL-terminated copy of its word, a null pointer follows, and only spaces of the line are overwritten. |
| Shell.WordsUndoSpaced | user/src/ucore/usershell.c:39-56 | Splitting undoes joining words with any positive numbers of spaces, any number in front, and a last word with or without spaces after it; every line has this form. |
| Shell.LineBuffer.Push | user/src/ucore/usershell.c:19-22 | The key is added at the end of the line. |
| Shell.LineBuffer.Pop | user/src/ucore/usershell.c:24-27 | The last key of the line is removed. |
| Shell.LineBuffer.Key | user/src/ucore/usershell.c:103-117 | After every key that does not end the line, the buffer is what the keys typed so far leave. |
| Shell.TypedMore | user/src/ucore/usershell.c:103-117 | What the keys leave, in key codes: 8 and 127 take the last character away if there is one, any other key is added. |
| Shell.BackspacesUndo | user/src/ucore/usershell.c:103-117 | Typing a text and then as many backspaces leaves what was there before. |

## Left out

- The literal contents of the tables T1 to T8 and U1 to U4: they enter through their defining equations (for instance
  T1[x] = (2 S[x], S[x], S[x], 3 S[x])). The S-box pair and the round constants are literal.
- CRC-32, SHA-256 and text decoding: library functions, kept as parameters.
- Wall-clock time: polling deadlines become events; progress bar, log output and speed figures are not modelled.
- `checkKillExit`, reset and baud-rate sequences, greeting and flash initialization commands, `boot`, ELF and kfpkg files, argument
  parsing, the terminal: hardware and user interface.
- KtoolAes.AES.constructor: a key of the wrong length raises in `__init__`; that branch is stated by `Cbc.NewCbc`, the only caller.
- KtoolAes.CopyBatch: also stands for the first copying loop (lines 147-150), which does the same for the first batch.
- math.ceil of a floating-point quotient: taken as the exact ceiling, which it is for all lengths below 2^53.
- Flasher.FlashedDevice: the device stores every well-formed frame; a device that rejects one with an error code would leave a gap,
  because `send_data_to_isp` does not resend for it.
- DiningPhilosophers.Next: the `think` timestamps and the sleeps are one step; the clock is any non-decreasing number that is given with each step.
- RaceCounter.Next: the 500 squarings, which touch only the thread's own variable, are one step; the shared counter and the
  first squaring are taken to stay within int, which holds for all thread and round counts whose product and whose thread
  numbers squared do.
- BoundedBuffer.Next: the thread bodies of the three concurrent programs are transitions of a state machine, not methods, because
  their loops interleave; the printing in them is not a step. The same holds for the other two modules.
- Slip.SlipReader.Feed: the closing of the port when the generator raises is not repeated here; it ends the generator.
- Cbc.NewCbc: its exceptions close the port too; `Flasher.FlashFirmware`, the only caller with a port, does that.
- The kernel's semaphores, mutexes and threads: atomic primitives here; thread creation and joining in the three `main`
  functions are not steps.
- StringLib.MemSet: lengths above INT_MAX, for which the counter of the C loop would overflow.
- StringLib.StrCpy: overlapping buffers, which the C standard leaves undefined; likewise for strncpy.
- Numbers.Atoi: texts whose number does not fit an int, for which the C arithmetic overflows.
- Printf.Printf: arguments of the wrong number or type, which C leaves undefined; the return of `write` is ignored as in the code.
- Shell.GetArgv: lines with more than 31 words, which overrun the pointer array.
- Shell.LineBuffer.Push: more than 200 characters, which overrun the line; the end-of-line case of `main`, with fork, exec and waitpid, is not modelled.
- `user/lib/syscall.c`, `user/lib/tls_init.c`, clone and crt assembly, linker scripts: thin layers over a kernel that is not in the repository.
- The other test programs and log checkers: fixed small configurations or text matching.
