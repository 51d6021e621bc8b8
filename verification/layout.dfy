/** Geometry of one XDAQ acquisition frame: the word-count formula of
    `frame_size_bytes` and the fixed byte offsets at which
    `simple_frame_unpack` reads each field, with the proof that the two agree. */
module FrameLayout {
  import opened Bytes

  /** Python's `bool` used as an integer: True is 1, False is 0. */
  function Bit(flag: bool): nat
  {
    if flag then 1 else 0
  }

  /** `frame_size_bytes(dio32, num_streams)`: the frame length in bytes, from
      its count of 16-bit words. */
  function FrameSizeBytes(dio32: bool, numStreams: nat): (bytes: nat)
    ensures bytes % 2 == 0
    ensures bytes >= 32
  {
    var frameSize :=
      4 +                                        // magic number
      2 +                                        // time stamp
      numStreams * (32 + 3) +                    // 32 amplifier channels + 3 aux commands per stream
      (numStreams + 2 * Bit(dio32)) % 4 +        // padding for alignment
      8 +                                        // ADCs
      1 +                                        // digital input, 16 bits
      1 * Bit(dio32) +                           // expander digital input
      1 +                                        // digital output, 16 bits
      1 * Bit(dio32);                            // expander digital output
    frameSize * 2
  }

  /** Bytes of headstage data the decoder takes after the timestamp. */
  function HeadstageLength(numStreams: nat): nat
  {
    35 * 2 * numStreams
  }

  /** Bytes of alignment padding the decoder skips. */
  function PaddingLength(dio32: bool, numStreams: nat): nat
  {
    ((numStreams + 2 * Bit(dio32)) % 4) * 2
  }

  /** `io_offset`: where the analog inputs start. */
  function IoOffset(dio32: bool, numStreams: nat): nat
  {
    12 + HeadstageLength(numStreams) + PaddingLength(dio32, numStreams)
  }

  /** Byte width of each of digital in and digital out. */
  function DigitalWidth(dio32: bool): nat
  {
    if dio32 then 4 else 2
  }

  /** Positions of the fields in `DecoderSpans`, in the order the decoder meets them. */
  const MagicField := 0
  const TimestampField := 1
  const HeadstageField := 2
  const PaddingField := 3
  const FirstAnalogField := 4
  const AnalogChannels := 8
  const DigitalInField := 12
  const DigitalOutField := 13
  const FieldCount := 14

  /** The byte ranges `simple_frame_unpack` slices, with its own offsets:
      magic, timestamp, headstage, the padding it steps over, eight analog
      words, then digital in and digital out (2 bytes each, or 4 with dio32). */
  function DecoderSpans(dio32: bool, numStreams: nat): (spans: seq<Span>)
    ensures |spans| == FieldCount
  {
    HeadSpans(dio32, numStreams) + AnalogSpans(dio32, numStreams) + DigitalSpans(dio32, numStreams)
  }

  /** The decoder's ranges, field by field, are the script's own slices. */
  lemma DecoderOffsets(dio32: bool, numStreams: nat)
    ensures DecoderSpans(dio32, numStreams)[MagicField] == Span(0, 8) && DecoderSpans(dio32, numStreams)[TimestampField] == Span(8, 12)
    ensures DecoderSpans(dio32, numStreams)[HeadstageField] == Span(12, 12 + 70 * numStreams)
    ensures DecoderSpans(dio32, numStreams)[PaddingField] == Span(12 + 70 * numStreams, IoOffset(dio32, numStreams))
    ensures forall i :: 0 <= i < AnalogChannels ==>
      DecoderSpans(dio32, numStreams)[FirstAnalogField + i] == Span(IoOffset(dio32, numStreams) + 2 * i, IoOffset(dio32, numStreams) + 2 * i + 2)
    ensures DecoderSpans(dio32, numStreams)[DigitalInField].lo == IoOffset(dio32, numStreams) + 16
    ensures DecoderSpans(dio32, numStreams)[DigitalOutField].lo == DecoderSpans(dio32, numStreams)[DigitalInField].hi
    ensures DecoderSpans(dio32, numStreams)[DigitalOutField].hi == DecoderSpans(dio32, numStreams)[DigitalOutField].lo + (if dio32 then 4 else 2)
    ensures DecoderSpans(dio32, numStreams)[DigitalInField].hi - DecoderSpans(dio32, numStreams)[DigitalInField].lo == DecoderSpans(dio32, numStreams)[DigitalOutField].hi - DecoderSpans(dio32, numStreams)[DigitalOutField].lo
  {
    assert DecoderSpans(dio32, numStreams)
      == HeadSpans(dio32, numStreams) + AnalogSpans(dio32, numStreams) + DigitalSpans(dio32, numStreams);
  }

  /** The i-th analog input word: `data[io_offset + i*2 : io_offset + i*2 + 2]`. */
  function AnalogSpan(io: nat, i: nat): Span
  {
    Span(io + i * 2, io + i * 2 + 2)
  }

  /** Field widths the decoder reads, indexed like `DecoderSpans`. */
  function FieldWidth(dio32: bool, numStreams: nat, field: nat): nat
    requires field < FieldCount
  {
    if field == MagicField then 8
    else if field == TimestampField then 4
    else if field == HeadstageField then HeadstageLength(numStreams)
    else if field == PaddingField then PaddingLength(dio32, numStreams)
    else if field < DigitalInField then 2
    else DigitalWidth(dio32)
  }

  lemma {:induction false} AnalogSpansContiguous(io: nat, count: nat)
    ensures Contiguous(seq(count, i requires 0 <= i => AnalogSpan(io, i)), io, io + 2 * count)
    decreases count
  {
    if count > 0 {
      var spans := seq(count, i requires 0 <= i => AnalogSpan(io, i));
      var shifted := seq(count - 1, i requires 0 <= i => AnalogSpan(io + 2, i));
      assert spans[1..] == shifted;
      AnalogSpansContiguous(io + 2, count - 1);
    }
  }

  /** The decoder's first four ranges: magic, timestamp, headstage, padding. */
  function HeadSpans(dio32: bool, numStreams: nat): seq<Span>
  {
    var lenHeadstage := HeadstageLength(numStreams);
    [Span(0, 8), Span(8, 12), Span(12, 12 + lenHeadstage), Span(12 + lenHeadstage, IoOffset(dio32, numStreams))]
  }

  /** The decoder's eight analog ranges. */
  function AnalogSpans(dio32: bool, numStreams: nat): seq<Span>
  {
    seq(AnalogChannels, i requires 0 <= i => AnalogSpan(IoOffset(dio32, numStreams), i))
  }

  /** The decoder's digital-in and digital-out ranges. */
  function DigitalSpans(dio32: bool, numStreams: nat): seq<Span>
  {
    var io := IoOffset(dio32, numStreams);
    if !dio32 then [Span(io + 16, io + 18), Span(io + 18, io + 20)]
    else [Span(io + 16, io + 20), Span(io + 20, io + 24)]
  }

  lemma HeadSpansContiguous(dio32: bool, numStreams: nat)
    ensures Contiguous(HeadSpans(dio32, numStreams), 0, IoOffset(dio32, numStreams))
  {
    var head := HeadSpans(dio32, numStreams);
    var io := IoOffset(dio32, numStreams);
    assert Contiguous(head[3..], 12 + HeadstageLength(numStreams), io);
    assert Contiguous(head[2..], 12, io);
    assert Contiguous(head[1..], 8, io);
  }

  lemma DigitalSpansContiguous(dio32: bool, numStreams: nat)
    ensures Contiguous(DigitalSpans(dio32, numStreams), IoOffset(dio32, numStreams) + 16, FrameSizeBytes(dio32, numStreams))
  {
    FrameSizeClosedForm(dio32, numStreams);
    var digital := DigitalSpans(dio32, numStreams);
    assert Contiguous(digital[1..], digital[0].hi, FrameSizeBytes(dio32, numStreams));
  }

  /** Each of the decoder's ranges has the width the layout counts for its field. */
  lemma DecoderFieldWidths(dio32: bool, numStreams: nat)
    ensures forall f :: 0 <= f < FieldCount ==>
      DecoderSpans(dio32, numStreams)[f].hi - DecoderSpans(dio32, numStreams)[f].lo == FieldWidth(dio32, numStreams, f)
  {
    var spans := DecoderSpans(dio32, numStreams);
    forall f | 0 <= f < FieldCount
      ensures spans[f].hi - spans[f].lo == FieldWidth(dio32, numStreams, f)
    {
      if FirstAnalogField <= f < DigitalInField {
        assert spans[f] == AnalogSpan(IoOffset(dio32, numStreams), f - FirstAnalogField);
      }
    }
  }

  /** The decoder's offsets agree with the layout formula: its fields lie back
      to back from byte 0, and the last one, digital out, ends exactly at
      `frame_size_bytes`. So every field lies inside one frame and no byte of
      the frame is left unaccounted for. */
  lemma DecoderTilesFrame(dio32: bool, numStreams: nat)
    ensures Contiguous(DecoderSpans(dio32, numStreams), 0, FrameSizeBytes(dio32, numStreams))
    ensures forall f :: 0 <= f < FieldCount ==>
      DecoderSpans(dio32, numStreams)[f].hi - DecoderSpans(dio32, numStreams)[f].lo == FieldWidth(dio32, numStreams, f)
  {
    var io := IoOffset(dio32, numStreams);
    var head := HeadSpans(dio32, numStreams);
    var analog := AnalogSpans(dio32, numStreams);
    var digital := DigitalSpans(dio32, numStreams);
    assert DecoderSpans(dio32, numStreams) == head + analog + digital;
    HeadSpansContiguous(dio32, numStreams);
    AnalogSpansContiguous(io, AnalogChannels);
    DigitalSpansContiguous(dio32, numStreams);
    ContiguousAppend(head, analog, 0, io, io + 16);
    ContiguousAppend(head + analog, digital, 0, io + 16, FrameSizeBytes(dio32, numStreams));
    DecoderFieldWidths(dio32, numStreams);
  }

  /** The closed form of the frame size: 2 * (16 + 35n + ((n + 2d) mod 4) + 2d). */
  lemma FrameSizeClosedForm(dio32: bool, numStreams: nat)
    ensures FrameSizeBytes(dio32, numStreams)
      == 2 * (16 + 35 * numStreams + (numStreams + 2 * Bit(dio32)) % 4 + 2 * Bit(dio32))
    ensures IoOffset(dio32, numStreams) == 12 + 70 * numStreams + 2 * ((numStreams + 2 * Bit(dio32)) % 4)
    ensures FrameSizeBytes(dio32, numStreams) == IoOffset(dio32, numStreams) + 16 + 2 * DigitalWidth(dio32)
  {
    assert numStreams * (32 + 3) == 35 * numStreams;
  }

  /** The two configurations the demo acquires with. */
  lemma DemoFrameSizes()
    ensures FrameSizeBytes(false, 0) == 32
    ensures FrameSizeBytes(true, 0) == 40
    ensures DecoderSpans(true, 0)[DigitalInField] == Span(32, 36)
    ensures DecoderSpans(true, 0)[DigitalOutField] == Span(36, 40)
  {
  }

  /** One more stream adds 35 words and moves the padding by +1 or -3 words:
      64 or 72 bytes in all. */
  lemma FrameSizeStep(dio32: bool, numStreams: nat)
    ensures var step := FrameSizeBytes(dio32, numStreams + 1) - FrameSizeBytes(dio32, numStreams);
      (step == 64 <==> (numStreams + 2 * Bit(dio32)) % 4 == 3) &&
      (step == 72 <==> (numStreams + 2 * Bit(dio32)) % 4 != 3)
  {
  }

  /** The frame size is strictly increasing in the number of streams. */
  lemma {:induction false} FrameSizeIncreasing(dio32: bool, n: nat, m: nat)
    requires n < m
    ensures FrameSizeBytes(dio32, n) < FrameSizeBytes(dio32, m)
    decreases m - n
  {
    FrameSizeStep(dio32, n);
    if n + 1 < m {
      FrameSizeIncreasing(dio32, n + 1, m);
    }
  }
}
