# loader64 upload protocol in Dafny

`loader64` uploads a ROM image to an EverDrive-64 cartridge over an FTDI USB link.
All of its logic is in `main` (loader64.c), and this project models that logic:

- **Transfer planning** (module `Planner`, planner.dfy). The file size is rounded up
  to a multiple of 0x10000. The fill step is needed when the result is below the
  CRC region `crclen` = 0x100000 + 4096. The chunk loop sends `length / 0x8000`
  writes.
- **Command frames** (modules `Bytes` and `Codec`, bytes.dfy and codec.dfy). A
  command is the tag `cmd`, a one-character opcode and two big-endian 32-bit fields
  in a zero-filled 512-byte buffer:
  - `Encode` and `Decode` are the value-level frame and its reading;
  - `Clear`, `PutHeader` and `PutBE32` build the frame in place in an `array<byte>`,
    as `main` does in `send_buff`;
  - the frames a session sends are the constants `TestFrame`, `FillFrame`,
    `FillCheckFrame` and `BootFrame` and the function `WriteFrame`.
- **The device and the file** (module `Transport`, transport.dfy). The class
  `Link` stands for the libftdi handle. It replays a `Script` of device answers
  (open result, the bytes of each read, the result of each write, close result) and
  records every write, the one-second pause and the close in its `log`. The class
  `RomFile` is the opened ROM: its bytes and the `fread` position.
- **The session** (module `Session`, session.dfy). `Expected(data, script)` is the
  reference behaviour: the events a run sends and its exit status. `Upload` is the
  run itself, written as imperative code over reused byte arrays. Its contract is
  `Outcome(link.log, status) == Expected(file.data, link.script)`.

  The properties of a run are lemmas about `Expected`:
  - which early exit ends it, and with which status;
  - that the fill step runs exactly for ROMs of at most 1 MiB;
  - that nothing follows a rejected chunk write;
  - the full frame order on a complete run.

  The chunk stream is specified by `BufferAfter`, the reused 0x8000-byte buffer
  after `k` reads. A short last read leaves the tail of the buffer as the previous
  chunk left it, or zero after the initial clear. That stale tail is sent too, as
  in the C code.

Exit statuses:
- A liveness or fill re-check reply whose byte 3 is not `r` ends the run with
  status success. No further frame is sent, and `ftdi_usb_close` is not called; the
  context is only freed.
- A negative chunk-write result ends the run with status failure. It sends no
  further chunk, no boot command and no close.
- A failed open or close gives failure.

A file of exactly 1 MiB (0x100000 bytes) is already a multiple of
0x10000, so `main` sends it unpadded as 0x800 blocks. Because 0x100000 is below
`crclen`, the fill step runs first (`Planner.OneMiBScenario`). It is not padded to
0x110000, and the fill step is not skipped.

## Model

| member | source | states |
|---|---|---|
| Bytes.BE32 | loader64.c:179-188 | a field is four bytes; what they spell is stated by the two round-trip lemmas below |
| Bytes.FromBE32OfBE32 | loader64.c:179-182 | the four `(char)(v >> 24)` … `(char)v` bytes, read back big-endian, give `v` modulo 2^32 |
| Bytes.BE32OfFromBE32 | loader64.c:234-243 | any four bytes are the big-endian encoding of the value they spell, so the field encoding is onto |
| Planner.PaddedLength | loader64.c:150-157 | the upload length is a multiple of 0x10000, at least the file size and less than the size plus 0x10000 |
| Planner.PaddedLengthIsLeast | loader64.c:155-157 | no multiple of 0x10000 that holds the file is smaller than the padded length |
| Planner.PaddedLengthKeepsAligned | loader64.c:155-157 | the length equals the size exactly when the size is aligned; an empty file gives 0 |
| Planner.PaddedLengthFitsInt | loader64.c:150-157 | for sizes up to 0x7FFF0000 the padded length fits a C `int` |
| Planner.NeedsFill | loader64.c:166-167 | on a whole number of 0x10000-byte granules, `length < crclen` holds exactly when the length is at most 0x100000 |
| Planner.NeedsFillIff | loader64.c:166-167 | the fill step is needed exactly for files of at most 0x100000 bytes |
| Planner.ChunkCount | loader64.c:253 | on a length that is a whole number of chunks, as every padded length is, the loop makes `n` passes with `n * 0x8000` equal to the length |
| Planner.ChunksCoverLength | loader64.c:253 | a padded length is a whole number of chunks, which cover it exactly, and a whole number of 512-byte blocks |
| Planner.FillBlocksExact | loader64.c:185-188 | `crclen / 512` is 0x808 and loses nothing |
| Planner.OneMiBScenario | loader64.c:150-167 | a 1 MiB file stays 0x100000 long, is sent as 0x800 blocks and takes the fill step |
| Planner.SmallFileScenarios | loader64.c:150-167 | 0x500 bytes pad to 0x10000 (two chunks) with fill; 0x100001, 0x100FFF and 0x101000 bytes pad to 0x110000 without fill |
| Codec.Encode | loader64.c:103-109 | a command frame is 512 bytes: `cmd`, the opcode, offset at bytes 4-7, blocks at 8-11, zeros after |
| Codec.Decode | loader64.c:227-243 | a buffer is read as a command exactly when it holds the tag; the fields read are 32-bit |
| Codec.DecodeEncode | loader64.c:227-243 | any prefix of at least 12 bytes of an encoded frame decodes to its command, fields taken modulo 2^32 |
| Codec.EncodeDecode | loader64.c:224-243 | a 512-byte buffer that decodes and is zero past byte 11 is the encoding of what it decodes to |
| Codec.AckByte | loader64.c:116-121 | byte 3 of the zeroed receive buffer after a bounded read is the reply's byte 3, or 0 for a reply shorter than four bytes |
| Codec.ShortReplyIsNoAck | loader64.c:116-121 | a reply shorter than four bytes is never an acknowledgement |
| Codec.AckByteInBuffer | loader64.c:205-211 | the acknowledgement byte is what the receive buffer holds at index 3 after the read |
| Codec.WriteFrame | loader64.c:224-245 | the 16-byte write header is `cmd`, `W`, BE 0x10000000, BE `length / 512`, then four zeros |
| Codec.TestFrameBytes | loader64.c:103-111 | the liveness test is `cmd`, `t` and 508 zero bytes |
| Codec.BootFrameBytes | loader64.c:268-276 | the boot command is `cmd`, `s` and twelve zero bytes |
| Codec.FillFrameBytes | loader64.c:172-190 | the fill frame is `cmd`, `c`, BE 0x10000000, BE 0x808, then zeros |
| Codec.FillCheckIsRetaggedFill | loader64.c:198-203 | the re-check frame is the 16-byte fill frame with only byte 3 changed to `t` |
| Codec.FramesDistinct | loader64.c:106-109 | the test, fill, re-check, write and boot frames are pairwise different |
| Codec.WriteFrameDecodes | loader64.c:224-245 | the write header decodes to opcode `W`, the base address and `length / 512` |
| Codec.Clear | loader64.c:103-104 | `memset` leaves the whole array zero |
| Codec.PutHeader | loader64.c:106-109 | the four header stores change bytes 0-3 to `cmd` and the opcode and nothing else |
| Codec.PutBE32 | loader64.c:179-182 | the four shifted and cast stores put the big-endian field at the given offset and change nothing else |
| Codec.BuiltInPlace | loader64.c:224-243 | a cleared buffer given header, offset and length holds the encoded command |
| Codec.HeaderOnlyInPlace | loader64.c:268-274 | a cleared buffer given only a header holds the command with zero fields |
| Codec.RetaggedInPlace | loader64.c:198-201 | rewriting the header of an encoded buffer changes only its opcode |
| Transport.Link.Open | loader64.c:84-88 | opening returns the scripted result |
| Transport.Link.Write | loader64.c:259-263 | a write records exactly the bytes handed to it, counts the call, and is negative exactly when the script rejects it |
| Transport.Link.Read | loader64.c:116 | a read stores at most `max` bytes of the next reply at the buffer's start and leaves the rest |
| Transport.Link.Sleep | loader64.c:196 | the pause is only a marker in the log |
| Transport.Link.Close | loader64.c:282-287 | closing is logged and returns the scripted result |
| Transport.RomFile.Read | loader64.c:254 | `fread` copies as many next file bytes as fit and remain to the buffer's start, advances by that many, and leaves the rest of the buffer |
| Session.ReadEnd | loader64.c:254 | after `k` reads the position is the file size or `k * 0x8000`, whichever is smaller |
| Session.ReadEndStep | loader64.c:254 | each read advances by at most one chunk, and a read that delivers bytes starts at the chunk boundary |
| Session.BufferAfter | loader64.c:163-164 | the reused chunk buffer always holds 0x8000 bytes |
| Session.FreshBytes | loader64.c:254-259 | a byte the read delivered is the file byte at chunk offset plus index |
| Session.StaleBytes | loader64.c:163-164 | a byte the read did not reach keeps the previous chunk's value, or 0 from the initial clear |
| Session.ChunkEvents | loader64.c:259 | `k` chunk writes are `k` events, each sending exactly 0x8000 bytes |
| Session.ChunkEventIsBuffer | loader64.c:253-259 | the `i`-th chunk write sends the buffer as the `i`-th read left it |
| Session.Stream | loader64.c:259 | `k` chunk writes hand `k * 0x8000` bytes to `ftdi_write_data` |
| Session.StreamCarriesFile | loader64.c:253-259 | the bytes handed to the chunk writes repeat the file in order, up to where the reads have reached |
| Session.WholeFileSent | loader64.c:253-264 | once the padded length is streamed, the whole file has been sent in order at the stream's start |
| Session.StreamIsChunkEvents | loader64.c:253-259 | the `i`-th chunk write is bytes `i * 0x8000` up to `(i + 1) * 0x8000` of the stream |
| Session.FirstRejected | loader64.c:259-263 | the result is the first rejected write number in the range, or its end when none is rejected |
| Session.FirstRejectedUnique | loader64.c:259-263 | a write number with no rejection before it, and rejected itself or the end, is the first rejection |
| Session.HeaderWrite | loader64.c:111-245 | the write header has write number 1, or 3 exactly when the fill step runs |
| Session.Preamble | loader64.c:103-222 | the events before the write header start with the test frame and contain the fill frame exactly when the fill step runs |
| Session.HeaderWriteCountsPreamble | loader64.c:111-245 | the write header's number is the number of writes the preamble makes |
| Session.Acknowledged | loader64.c:116-221 | the run goes on past the checks exactly when the liveness reply, and the re-check reply when the fill step runs, has at least four bytes and `r` at byte 3 |
| Session.ChunksSent | loader64.c:253-263 | the writes made are at most the chunk count; fewer only when the last one made was rejected and none before it |
| Session.ChunksWritten | loader64.c:253-263 | without a rejection all chunks are written; with one, at least one chunk is |
| Session.Transfer | loader64.c:224-293 | from the write header on, the boot frame and the close are each sent exactly when no chunk write is rejected, and the status is failure exactly on a rejection or a failed close |
| Session.Expected | loader64.c:84-293 | the reference run: nothing is sent exactly when the open fails; every log is a prefix of the full run (test, [fill, pause, re-check], header, all chunks, boot, close); the close is sent exactly when the log is that whole run; a run that ends with success without closing was refused an acknowledgement |
| Session.ChunkEventsPrefix | loader64.c:253-264 | the first `m` chunk writes are the start of the first `n` for `m <= n` |
| Session.TransferFollowsFullRun | loader64.c:224-293 | after the preamble, the transfer is a prefix of the full run, and all of it when no chunk write is rejected |
| Session.OpenFailureSendsNothing | loader64.c:84-88 | a device that cannot be opened is sent nothing, and the status is failure |
| Session.LivenessNackStops | loader64.c:103-127 | a liveness reply that is not acknowledged, or shorter than four bytes, ends the run with success after the test frame alone |
| Session.FillCheckNackStops | loader64.c:211-221 | an unacknowledged re-check ends the run with success after test, fill, pause and re-check, with no write header |
| Session.FillSentIff | loader64.c:166-190 | the fill frame is sent exactly when the device opened and acknowledged the test and the ROM is at most 1 MiB |
| Session.FillNotTransferred | loader64.c:224-276 | from the write header on, no fill frame is sent |
| Session.ChunkRejectionStops | loader64.c:259-263 | a rejected chunk write is the last event and the status is failure |
| Session.RejectionSkipsBoot | loader64.c:259-276 | after a rejected chunk write neither the boot frame nor the close is sent |
| Session.PreambleIsCommands | loader64.c:103-222 | the events before the write header contain no boot frame and no close |
| Session.CompleteRun | loader64.c:224-293 | with no rejection the log is test, [fill, pause, re-check], header, exactly `length / 0x8000` chunks, boot, close; status follows the close |
| Session.StreamOutcome | loader64.c:253-263 | the chunk loop ends by rejection exactly when a write before the last chunk is rejected, after that write |
| Session.ChunksAreData | loader64.c:259 | no chunk write is the test, fill, re-check, write-header (for any length) or boot frame, or the close |
| Session.FailureIff | loader64.c:84-293 | the status is failure exactly on a failed open, or after full acknowledgement on a rejected chunk write or a failed close |
| Session.HeaderAnnouncesStream | loader64.c:233-264 | the header announces the base and the padded length in blocks, and that is exactly the number of chunk bytes streamed |
| Session.StreamChunks | loader64.c:253-264 | the loop writes the chunk events up to and including the first rejected write, and reports success exactly when none is rejected |
| Session.SendNextChunk | loader64.c:254-263 | one pass reads the next chunk into the buffer and writes that whole buffer |
| Session.LivenessTest | loader64.c:103-121 | the 512-byte test frame is sent and the result is whether the reply is acknowledged |
| Session.FillStep | loader64.c:172-216 | fill frame, pause and re-check frame are sent in that order; the result is whether the re-check is acknowledged, and on success both buffers are zero again |
| Session.SendWriteHeader | loader64.c:224-245 | the 16-byte write header for the length is sent |
| Session.SendBoot | loader64.c:268-276 | the 16-byte boot frame is sent |
| Session.BootAndClose | loader64.c:268-293 | the boot frame and the close are logged; the status is failure exactly when the close fails |
| Session.Transmit | loader64.c:224-293 | from the header on, the session sends and ends exactly as the reference transfer says |
| Session.FillIfShort | loader64.c:166-222 | after this step the preamble has been sent, and the result is whether every acknowledgement came |
| Session.AfterLiveness | loader64.c:129-293 | after an acknowledged test the run matches the reference behaviour |
| Session.PadLength | loader64.c:150-157 | the assignment and the conditional compute the padded length, which fits a C `int` |
| Session.Upload | loader64.c:84-293 | the whole session sends exactly the reference log and ends with the reference status |

## Left out

- Command-line parsing with gopt (loader64.c:44-73, 134-137), the help text and the
  verbose flag: they only select the file and the amount of printing.
- `ftdi_new` failure (loader64.c:78-82): it is folded into a failed open, which also
  gives failure with nothing sent.
- Setting the USB timeouts and the `TYPE_R` chip-id query (loader64.c:90-100). The
  chip-id query only prints. The timeouts are not modelled as such. A read that times
  out is a script reply that is empty or past the script's end. A write that times
  out part-way is a short write, as the next line describes.
- Short writes: a write whose result is not negative but less than the count asked
  for, as the 1500 ms write timeout (loader64.c:29, 92) can give, is logged as the
  whole buffer. `main` checks only `ret_s < 0` (loader64.c:260), so it goes on just
  as the model does. The log and `Stream` record what was handed to
  `ftdi_write_data`, not what the device received.
- `printf` and `fprintf` output, including the progress dots.
- `fopen` and `stat` on the real filesystem (loader64.c:139-144): the ROM is given as
  its bytes. A missing file, which `main` does not check, is not modelled.
- Real time: `sleep(1)` is only a `Slept` marker in the log.
- A negative result from `ftdi_read_data`: the model's read returns the number of
  bytes delivered, and a failed read acts like an empty one. Either way the zeroed
  receive buffer keeps byte 3 at 0.
- The results of the command-frame writes and of the reads other than the
  acknowledgement byte (loader64.c:111, 116, 190, 203, 245, 276): `main` ignores
  them, and so does the model. Each such write still counts as a write of the script.
- Session.Upload: files larger than 0x7FFF0000 bytes are excluded by a precondition,
  and the model does not reproduce what C computes for them. From 0x7FFF0001 to
  0x7FFFFFFF bytes, the addition at loader64.c:156 overflows a C `int`. From 2^31
  bytes on, the size is already cut when `st.st_size` is stored in the `int` `fsize`
  at loader64.c:144.
- Session.StreamChunks: the loop runs over the chunk index `k` rather than the byte
  offset `s`. Because the length is a multiple of 0x8000, both take the same
  passes.
- loader64.h: it holds only constants and is not included by loader64.c.
