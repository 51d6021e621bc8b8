# XDAQ acquisition-frame codec

A Dafny model of the acquisition-frame codec used by the XDAQ I/O-expander demo
script (`io_expander_demo.py`). The script drives an FPGA-based neural-recording
controller. It reads a block of acquisition frames from the device and unpacks
a few frames into their fields: magic number, timestamp, headstage data,
8 analog inputs, digital input and digital output. The model covers the pure
parts of that script:

- `frame_size_bytes`: the length of one frame. It counts 4 magic words, 2
  timestamp words, 35 words per headstage stream, 0–3 alignment words, 8 ADC
  words, and 1 or 2 words each for digital in and digital out. The total is
  then doubled to give bytes.
- `simple_frame_unpack`: the fixed-offset little-endian decoder. Here it
  returns a `SampleFrame` record instead of printing the fields.
- The receive buffer. Its length is rounded up to whole 1024-byte blocks, and
  frame `i` is the slice `[frame_size*i, frame_size*(i+1))`. The byte count
  read back from the data-count register, `data_count * 2`, is
  `AcquisitionBuffer.BufferedBytes`. It is a plain doubling, so it has no
  contract and no row below.
- The status tests the script polls: "MCU busy" (`status & 4 == 4`) and
  "acquisition running" (`status & 1 == 1`). The expander-signature comparison
  is `DeviceStatus.ExpanderDetected`. It is a plain equality, so it has no
  contract and no row below.

Modules, one per component:

- `Bytes` (`bytes.dfy`): Python slicing, little-endian decode and its inverse,
  and spans that lie back to back.
- `FrameLayout` (`layout.dfy`): the frame-size formula and the decoder's offsets.
- `FrameCodec` (`codec.dfy`): the decoder, its inverse encoder, and the round trips.
- `AcquisitionBuffer` (`buffer.dfy`): buffer rounding, frame slicing, and the
  decoding loop.
- `DeviceStatus` (`status.dfy`): the status-register tests.

The central result is `FrameLayout.DecoderTilesFrame`. The byte ranges the
decoder reads lie back to back from byte 0, and the last one (digital out) ends
exactly at `frame_size_bytes`. So every field read stays inside one frame, and
the only frame bytes left unread are the alignment padding.
`FrameCodec.UnpackIgnoresPaddingAndTail` and `FrameCodec.UnpackReadsWholePayload`
together prove an if-and-only-if. For two whole frames, the decoder returns the
same record exactly when the frames agree on every byte outside the padding.

Points about the code that the model keeps as written:

- `simple_frame_unpack` does not check the length of its input. A short slice
  is clamped by Python's slicing: a field that runs past the end is read from
  the bytes that are there (`ReadFieldPastEnd`), and a field wholly past the end reads
  as 0, because `int.from_bytes(b'', 'little')` is 0. `UnpackFrame` models
  this, and `UnpackTruncatedFrame` shows it.
- The magic field is 8 bytes. The layout counts 4 words for it and the decoder
  reads `data[0:8]`, so the two agree.
- The headstage region is kept as the raw byte slice the decoder takes. It is
  not split into 16-bit words.
- The closed form of the frame size is `2*(16 + 35n + ((n + 2d) mod 4) + 2d)`
  (`FrameSizeClosedForm`). Each extra stream adds 64 or 72 bytes: 35 words,
  plus a padding change of +1 or −3 words.

## Model

| member | source | states |
|---|---|---|
| Bytes.Slice | io_expander_demo.py:105-131 | Python's `data[lo:hi]` never fails. With `len` the input's length, it is the sub-range from `lo` to `min(hi, len)` when `lo <= hi` and `lo <= len`, and empty when `hi <= lo` or `lo >= len`. Its k-th byte is byte `lo+k` of the input. |
| Bytes.LeDecode | io_expander_demo.py:105 | `int.from_bytes(..., 'little')` of k bytes is below 256^k. |
| Bytes.LeEncode | io_expander_demo.py:105 | The k-byte little-endian image used as the decoder's inverse is exactly k bytes long. |
| Bytes.LeDecodeEncode | io_expander_demo.py:105-131 | Any value that fits in k bytes, encoded little-endian and then decoded, comes back unchanged. This covers the 16-bit analog, 16/32-bit digital, 32-bit timestamp and 64-bit magic fields. |
| Bytes.LeEncodeDecode | io_expander_demo.py:105-131 | Decoding bytes and re-encoding them at the same width gives the same bytes back. |
| Bytes.LeDecodeInjective | io_expander_demo.py:105-131 | Two fields of the same width with the same decoded value hold the same bytes. |
| Bytes.ContiguousOrdered | io_expander_demo.py:104-134 | Byte ranges laid back to back are ordered, pairwise disjoint and inside the covered range. |
| Bytes.ContiguousCovers | io_expander_demo.py:104-134 | Every byte of the covered range lies in one of the ranges laid back to back. |
| Bytes.FlattenAtSpans | io_expander_demo.py:104-134 | Pieces written one after another, each with its range's width, sit exactly at those ranges. |
| FrameLayout.FrameSizeBytes | io_expander_demo.py:76-89 | A frame is a whole number of 16-bit words: its byte length is even. It is never shorter than 32 bytes. |
| FrameLayout.FrameSizeClosedForm | io_expander_demo.py:76-89 | The frame is `2*(16 + 35n + ((n+2d) mod 4) + 2d)` bytes, and `io_offset` is `12 + 70n + 2*((n+2d) mod 4)`. The frame size is `io_offset + 16` plus twice the digital width. |
| FrameLayout.DemoFrameSizes | io_expander_demo.py:89-93 | The demo's two configurations give 32-byte and 40-byte frames. With the expander, digital in is bytes 32–36 and digital out is bytes 36–40. |
| FrameLayout.FrameSizeStep | io_expander_demo.py:80-82 | One more stream adds 72 bytes, or 64 bytes exactly when the padding wraps from 3 words to 0. |
| FrameLayout.FrameSizeIncreasing | io_expander_demo.py:80-82 | The frame size is strictly increasing in the number of streams. |
| FrameLayout.AnalogSpansContiguous | io_expander_demo.py:115-118 | The eight 2-byte analog reads lie back to back and cover `[io_offset, io_offset+16)`. |
| FrameLayout.DecoderOffsets | io_expander_demo.py:105-131 | The decoder's 14 ranges in read order are the script's slices: magic `[0,8)`, timestamp `[8,12)`, headstage `[12, 12+70n)`, the skipped padding up to `io_offset`, analog input i at `[io_offset+2i, io_offset+2i+2)`, digital in from `io_offset+16`, and digital out right after it. The two digital fields are both 2 bytes wide, or both 4 bytes with `dio32`. |
| FrameLayout.DecoderTilesFrame | io_expander_demo.py:104-134 | The decoder reads magic, timestamp, headstage, then skips the padding, then reads 8 analog words, digital in and digital out. These ranges lie back to back from byte 0 and end exactly at `frame_size_bytes`. Each has the width the layout counts for it. |
| FrameCodec.ReadField | io_expander_demo.py:105-131 | A field read from `[lo, hi)` is below 256^(hi-lo). When the range is inside the data, the read is the little-endian value of exactly those bytes. |
| FrameCodec.ReadFieldPastEnd | io_expander_demo.py:105-131 | With no length check, a field whose range runs past the end of the data is the little-endian value of the bytes from `lo` to the end. A field that starts at or past the end reads as 0. |
| FrameCodec.ReadAnalogInputs | io_expander_demo.py:115-118 | Exactly eight analog values, each the 16-bit read of its own 2-byte range. |
| FrameCodec.UnpackFrame | io_expander_demo.py:104-134 | The decoder returns 8 analog inputs, and every field fits its width (64, 32, 16, and 16 or 32 bits). Given at least one whole frame, the record is well formed, with the full `70n`-byte headstage region. |
| FrameCodec.UnpackWholeFrame | io_expander_demo.py:104-131 | On a whole frame, magic is the little-endian value of bytes 0–8, timestamp of bytes 8–12, the headstage is bytes `12..12+70n`, analog input i is read from `io_offset+2i`, digital in from `io_offset+16`, and digital out from the last `w` bytes of the frame (w = 2, or 4 with `dio32`). |
| FrameCodec.FieldSpanInFrame | io_expander_demo.py:104-134 | Every range the decoder slices starts no later than it ends, and ends within one frame. |
| FrameCodec.PayloadByteField | io_expander_demo.py:104-134 | Every frame byte outside the padding lies in the range of some field the decoder reads. |
| FrameCodec.FramePieces | io_expander_demo.py:104-134 | The encoder's per-field byte strings have exactly the widths the decoder reads. |
| FrameCodec.PackFrame | io_expander_demo.py:76-89 | Packing a well-formed record gives exactly `frame_size_bytes` bytes. |
| FrameCodec.PackFrameSpans | io_expander_demo.py:104-134 | In a packed frame, each field's range holds that field's encoding, and the padding holds zeros. |
| FrameCodec.PackedPaddingZero | io_expander_demo.py:111-113 | In a packed frame, every byte of the alignment padding is zero. |
| FrameCodec.UnpackPack | io_expander_demo.py:104-134 | Round trip, in both digital widths: decoding a packed well-formed record returns the same magic, timestamp, headstage, analog inputs, digital in and digital out. |
| FrameCodec.UnpackIgnoresPaddingAndTail | io_expander_demo.py:109-113 | Bytes in the alignment padding, or past the end of the frame, never change the decoded record. |
| FrameCodec.UnpackReadsWholePayload | io_expander_demo.py:104-134 | Two whole frames that decode to the same record agree on every byte outside the padding. No payload byte goes unread. |
| FrameCodec.PackUnpack | io_expander_demo.py:104-134 | Decoding a whole frame and packing the record rebuilds every payload byte, with the padding as zeros. |
| FrameCodec.UnpackTruncatedFrame | io_expander_demo.py:116-131 | Without a length check, a slice that ends before `io_offset` still decodes, and its analog and digital fields read as 0. |
| AcquisitionBuffer.BufferLength | io_expander_demo.py:97 | The buffer length is a multiple of 1024, at least the data size, and less than the data size plus 1024. |
| AcquisitionBuffer.BufferLengthIsLeast | io_expander_demo.py:97 | The buffer length is the smallest multiple of 1024 that holds the data. |
| AcquisitionBuffer.FrameSlice | io_expander_demo.py:139 | A frame slice is never longer than a frame. When frame `i` ends inside the buffer, the slice is exactly `frame_size` bytes starting at `frame_size*i`. |
| AcquisitionBuffer.FrameInsideBuffer | io_expander_demo.py:95-97 | For `i < num_frames`, frame `i` ends within the data, and the data fits in the rounded buffer. |
| AcquisitionBuffer.FramesDisjoint | io_expander_demo.py:137-139 | Frame `i` ends no later than any later frame `j` begins. |
| AcquisitionBuffer.FramesPartitionData | io_expander_demo.py:137-139 | The first `num_frames` frame slices, laid end to end, are exactly the data part of the buffer. Only the padding beyond `num_frames*frame_size` is left out. |
| AcquisitionBuffer.DecodeEachFrame | io_expander_demo.py:137-139 | The loop over frame indices returns exactly `count` results, in order. Result `i` is the decoding of frame slice `i`. |
| AcquisitionBuffer.WholeFrameWellFormed | io_expander_demo.py:139 | A frame slice that lies wholly in the buffer decodes to a well-formed record. |
| AcquisitionBuffer.UnpackFrames | io_expander_demo.py:137-139 | The decoding loop returns one record per requested frame, each the decoding of that frame's slice. Each frame that lies wholly in the buffer gives a well-formed record. |
| AcquisitionBuffer.DemoBufferLengths | io_expander_demo.py:159-164 | The demo's 128 frames of 32 or 40 bytes fill 4096 or 5120 bytes. These are whole blocks, so neither buffer is padded. |
| DeviceStatus.BitAnd | io_expander_demo.py:41 | Python's `a & b` on non-negative integers is no larger than either operand. |
| DeviceStatus.BitAndOne | io_expander_demo.py:69 | Masking with 1 keeps exactly bit 0. |
| DeviceStatus.BitAndFour | io_expander_demo.py:41 | Masking with 4 keeps exactly bit 2. |
| DeviceStatus.McuBusy | io_expander_demo.py:41 | The MCU-busy test holds exactly when bit 2 of the status register is set. |
| DeviceStatus.AcquisitionRunning | io_expander_demo.py:69 | The running test holds exactly when bit 0 of the status register is set. |

## Left out

- Device transport: `OkBoard`, `config_fpga`, `SetWireInValue`, `SendTrig`, `ActivateTriggerIn`, `GetWireOutValue` and `ReadFromBlockPipeOut` are foreign calls whose behaviour the script does not show. The values they return become parameters: the status word, the expander id, the data count and the buffer contents.
- Busy-poll loops with `time.sleep` (io_expander_demo.py:41-42, 69-70, 153-154, 184-185): these are blocking device I/O with no bound. Only the tests they repeat (`McuBusy`, `AcquisitionRunning`) are modelled.
- The register-address enumeration `EP` and the USB3 tuning constants (io_expander_demo.py:20-37, 49-50): these are used only as arguments to transport calls.
- The digital-output writes (io_expander_demo.py:177-180): which bits then appear in decoded frames is device behaviour, not code.
- All printing and formatting. The decoder returns its fields as a record instead.
- Checks the script does not make: it does not compare a frame slice's length with `frame_size_bytes`, does not compare `res` with the buffer length, and does not bound its polls. The model adds none of these.
- `num_streams` is a natural number. The script only passes 0, and a negative count has no meaning for the frame layout.
- `PackFrame` is not in the script. It is the inverse encoder used to state the round trips, and it writes zeros in the padding.
