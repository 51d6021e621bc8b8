/** The frame decoder `simple_frame_unpack`, returning its fields as a record
    instead of printing them, and the encoder that inverts it. */
module FrameCodec {
  import opened Bytes
  import opened FrameLayout

  /** One decoded frame. `headstage` is the raw headstage slice the decoder
      takes (amplifier and auxiliary-command words, not interpreted further). */
  datatype SampleFrame = SampleFrame(
    magic: nat,
    timestamp: nat,
    headstage: seq<Byte>,
    analogIn: seq<nat>,
    digitalIn: nat,
    digitalOut: nat)

  /** A record that a frame of this configuration can carry: every field fits
      its width and the headstage region has its full length. */
  predicate WellFormed(frame: SampleFrame, dio32: bool, numStreams: nat)
  {
    && frame.magic < Pow256(8)
    && frame.timestamp < Pow256(4)
    && |frame.headstage| == HeadstageLength(numStreams)
    && |frame.analogIn| == AnalogChannels
    && (forall i :: 0 <= i < |frame.analogIn| ==> frame.analogIn[i] < Pow256(2))
    && frame.digitalIn < Pow256(DigitalWidth(dio32))
    && frame.digitalOut < Pow256(DigitalWidth(dio32))
  }

  /** `int.from_bytes(data[lo:hi], byteorder='little')`. */
  function ReadField(data: seq<Byte>, span: Span): (v: nat)
    requires span.lo <= span.hi
    ensures v < Pow256(span.hi - span.lo)
    ensures span.hi <= |data| ==> v == LeDecode(data[span.lo..span.hi])
  {
    var bytes := Slice(data, span.lo, span.hi);
    Pow256Monotone(|bytes|, span.hi - span.lo);
    LeDecode(bytes)
  }

  /** A field that runs past the end of the data is read from the bytes that
      are there, and one that starts at or past the end reads as 0. */
  lemma ReadFieldPastEnd(data: seq<Byte>, span: Span)
    requires span.lo <= span.hi
    ensures span.lo <= |data| < span.hi ==> ReadField(data, span) == LeDecode(data[span.lo..])
    ensures |data| <= span.lo ==> ReadField(data, span) == 0
  {
    assert span.lo <= |data| < span.hi ==> Slice(data, span.lo, span.hi) == data[span.lo..];
  }

  /** The eight analog inputs, each read from its 2-byte span. */
  function ReadAnalogInputs(data: seq<Byte>, spans: seq<Span>): (values: seq<nat>)
    requires |spans| == FieldCount
    requires forall f :: FirstAnalogField <= f < DigitalInField ==> spans[f].lo + 2 == spans[f].hi
    ensures |values| == AnalogChannels
    ensures forall i :: 0 <= i < AnalogChannels ==>
      values[i] == ReadField(data, spans[FirstAnalogField + i]) && values[i] < Pow256(2)
  {
    seq(AnalogChannels, i requires 0 <= i < AnalogChannels => ReadAnalogInput(data, spans, i))
  }

  function ReadAnalogInput(data: seq<Byte>, spans: seq<Span>, i: int): nat
    requires |spans| == FieldCount && 0 <= i < AnalogChannels
    requires spans[FirstAnalogField + i].lo + 2 == spans[FirstAnalogField + i].hi
  {
    ReadField(data, spans[FirstAnalogField + i])
  }

  /** `simple_frame_unpack(data, dio32, num_streams)`. Like the script it does
      not check the length of `data`: a short slice is clamped by Python's
      slicing and the missing bytes read as nothing. */
  function UnpackFrame(data: seq<Byte>, dio32: bool, numStreams: nat): (frame: SampleFrame)
    ensures |frame.analogIn| == AnalogChannels
    ensures |frame.headstage| <= HeadstageLength(numStreams)
    ensures frame.magic < Pow256(8) && frame.timestamp < Pow256(4)
    ensures forall i :: 0 <= i < |frame.analogIn| ==> frame.analogIn[i] < Pow256(2)
    ensures frame.digitalIn < Pow256(DigitalWidth(dio32))
    ensures frame.digitalOut < Pow256(DigitalWidth(dio32))
    ensures |data| >= FrameSizeBytes(dio32, numStreams) ==> WellFormed(frame, dio32, numStreams)
  {
    var spans := DecoderSpans(dio32, numStreams);
    DecoderTilesFrame(dio32, numStreams);
    ContiguousOrdered(spans, 0, FrameSizeBytes(dio32, numStreams));
    SampleFrame(
      ReadField(data, spans[MagicField]),
      ReadField(data, spans[TimestampField]),
      Slice(data, spans[HeadstageField].lo, spans[HeadstageField].hi),
      ReadAnalogInputs(data, spans),
      ReadField(data, spans[DigitalInField]),
      ReadField(data, spans[DigitalOutField]))
  }

  /** The integer a frame record holds for field `field` of `DecoderSpans`
      (headstage and padding hold none). */
  function FieldValue(frame: SampleFrame, field: nat): nat
    requires field < FieldCount && field != HeadstageField && field != PaddingField
    requires |frame.analogIn| == AnalogChannels
  {
    if field == MagicField then frame.magic
    else if field == TimestampField then frame.timestamp
    else if field == DigitalInField then frame.digitalIn
    else if field == DigitalOutField then frame.digitalOut
    else frame.analogIn[field - FirstAnalogField]
  }

  /** Each integer field of the record is the little-endian value of its span. */
  lemma UnpackFieldValue(data: seq<Byte>, dio32: bool, numStreams: nat, field: nat)
    requires field < FieldCount && field != HeadstageField && field != PaddingField
    ensures DecoderSpans(dio32, numStreams)[field].lo <= DecoderSpans(dio32, numStreams)[field].hi
    ensures FieldValue(UnpackFrame(data, dio32, numStreams), field)
      == ReadField(data, DecoderSpans(dio32, numStreams)[field])
  {
    DecoderTilesFrame(dio32, numStreams);
    ContiguousOrdered(DecoderSpans(dio32, numStreams), 0, FrameSizeBytes(dio32, numStreams));
  }

  /** On a whole frame, every field is read from the offsets the script
      computes: magic from bytes 0-8, timestamp from 8-12, the headstage region
      after it, analog input i from `io_offset + 2i`, digital in from
      `io_offset + 16`, and digital out from the last bytes of the frame. */
  lemma UnpackWholeFrame(data: seq<Byte>, dio32: bool, numStreams: nat)
    requires |data| >= FrameSizeBytes(dio32, numStreams)
    ensures 12 + 70 * numStreams <= IoOffset(dio32, numStreams)
    ensures FrameSizeBytes(dio32, numStreams) == IoOffset(dio32, numStreams) + 16 + 2 * DigitalWidth(dio32)
    ensures UnpackFrame(data, dio32, numStreams).magic == LeDecode(data[0..8])
    ensures UnpackFrame(data, dio32, numStreams).timestamp == LeDecode(data[8..12])
    ensures UnpackFrame(data, dio32, numStreams).headstage == data[12..12 + 70 * numStreams]
    ensures forall i :: 0 <= i < AnalogChannels ==>
      IoOffset(dio32, numStreams) + 2 * i + 2 <= |data| &&
      UnpackFrame(data, dio32, numStreams).analogIn[i]
        == LeDecode(data[IoOffset(dio32, numStreams) + 2 * i .. IoOffset(dio32, numStreams) + 2 * i + 2])
    ensures UnpackFrame(data, dio32, numStreams).digitalIn
      == LeDecode(data[IoOffset(dio32, numStreams) + 16 .. IoOffset(dio32, numStreams) + 16 + DigitalWidth(dio32)])
    ensures UnpackFrame(data, dio32, numStreams).digitalOut
      == LeDecode(data[FrameSizeBytes(dio32, numStreams) - DigitalWidth(dio32) .. FrameSizeBytes(dio32, numStreams)])
  {
    FrameSizeClosedForm(dio32, numStreams);
    UnpackHeadFields(data, dio32, numStreams);
    forall i | 0 <= i < AnalogChannels
      ensures IoOffset(dio32, numStreams) + 2 * i + 2 <= |data|
      ensures UnpackFrame(data, dio32, numStreams).analogIn[i]
        == LeDecode(data[IoOffset(dio32, numStreams) + 2 * i .. IoOffset(dio32, numStreams) + 2 * i + 2])
    {
      UnpackAnalogField(data, dio32, numStreams, i);
    }
    UnpackDigitalFields(data, dio32, numStreams);
  }

  lemma UnpackHeadFields(data: seq<Byte>, dio32: bool, numStreams: nat)
    requires |data| >= FrameSizeBytes(dio32, numStreams)
    ensures UnpackFrame(data, dio32, numStreams).magic == LeDecode(data[0..8])
    ensures UnpackFrame(data, dio32, numStreams).timestamp == LeDecode(data[8..12])
    ensures UnpackFrame(data, dio32, numStreams).headstage == data[12..12 + 70 * numStreams]
  {
    DecoderOffsets(dio32, numStreams);
    FrameSizeClosedForm(dio32, numStreams);
  }

  lemma UnpackAnalogField(data: seq<Byte>, dio32: bool, numStreams: nat, i: nat)
    requires |data| >= FrameSizeBytes(dio32, numStreams) && i < AnalogChannels
    ensures IoOffset(dio32, numStreams) + 2 * i + 2 <= |data|
    ensures UnpackFrame(data, dio32, numStreams).analogIn[i]
      == LeDecode(data[IoOffset(dio32, numStreams) + 2 * i .. IoOffset(dio32, numStreams) + 2 * i + 2])
  {
    DecoderOffsets(dio32, numStreams);
    FrameSizeClosedForm(dio32, numStreams);
    var spans := DecoderSpans(dio32, numStreams);
    assert UnpackFrame(data, dio32, numStreams).analogIn == ReadAnalogInputs(data, spans);
    assert spans[FirstAnalogField + i].hi <= |data|;
  }

  lemma UnpackDigitalFields(data: seq<Byte>, dio32: bool, numStreams: nat)
    requires |data| >= FrameSizeBytes(dio32, numStreams)
    ensures FrameSizeBytes(dio32, numStreams) == IoOffset(dio32, numStreams) + 16 + 2 * DigitalWidth(dio32)
    ensures UnpackFrame(data, dio32, numStreams).digitalIn
      == LeDecode(data[IoOffset(dio32, numStreams) + 16 .. IoOffset(dio32, numStreams) + 16 + DigitalWidth(dio32)])
    ensures UnpackFrame(data, dio32, numStreams).digitalOut
      == LeDecode(data[FrameSizeBytes(dio32, numStreams) - DigitalWidth(dio32) .. FrameSizeBytes(dio32, numStreams)])
  {
    DecoderOffsets(dio32, numStreams);
    FrameSizeClosedForm(dio32, numStreams);
  }

  /** The bytes of each field of a well-formed record, in frame order; the
      padding is written as zeros. */
  function FramePieces(frame: SampleFrame, dio32: bool, numStreams: nat): (pieces: seq<seq<Byte>>)
    requires WellFormed(frame, dio32, numStreams)
    ensures |pieces| == FieldCount
    ensures forall f :: 0 <= f < FieldCount ==> |pieces[f]| == FieldWidth(dio32, numStreams, f)
  {
    var w := DigitalWidth(dio32);
    [LeEncode(frame.magic, 8), LeEncode(frame.timestamp, 4), frame.headstage, Zeros(PaddingLength(dio32, numStreams))]
    + seq(AnalogChannels, i requires 0 <= i < AnalogChannels => LeEncode(frame.analogIn[i], 2))
    + [LeEncode(frame.digitalIn, w), LeEncode(frame.digitalOut, w)]
  }

  /** The frame the device would emit for a record: the inverse of `UnpackFrame`. */
  function PackFrame(frame: SampleFrame, dio32: bool, numStreams: nat): (data: seq<Byte>)
    requires WellFormed(frame, dio32, numStreams)
    ensures |data| == FrameSizeBytes(dio32, numStreams)
  {
    var pieces := FramePieces(frame, dio32, numStreams);
    DecoderTilesFrame(dio32, numStreams);
    FlattenAtSpans(pieces, DecoderSpans(dio32, numStreams), 0, FrameSizeBytes(dio32, numStreams));
    Flatten(pieces)
  }

  /** Each span of a packed frame holds that field's encoding. */
  lemma PackFrameSpans(frame: SampleFrame, dio32: bool, numStreams: nat)
    requires WellFormed(frame, dio32, numStreams)
    ensures forall f :: 0 <= f < FieldCount ==>
      var span := DecoderSpans(dio32, numStreams)[f];
      span.lo <= span.hi <= FrameSizeBytes(dio32, numStreams) &&
      PackFrame(frame, dio32, numStreams)[span.lo..span.hi] == FramePieces(frame, dio32, numStreams)[f]
  {
    DecoderTilesFrame(dio32, numStreams);
    FlattenAtSpans(FramePieces(frame, dio32, numStreams), DecoderSpans(dio32, numStreams), 0, FrameSizeBytes(dio32, numStreams));
  }

  /** Two records with the same headstage slice and the same integer fields are equal. */
  lemma SameFieldsSameFrame(a: SampleFrame, b: SampleFrame)
    requires |a.analogIn| == AnalogChannels && |b.analogIn| == AnalogChannels
    requires a.headstage == b.headstage
    requires forall f :: 0 <= f < FieldCount && f != HeadstageField && f != PaddingField ==>
      FieldValue(a, f) == FieldValue(b, f)
    ensures a == b
  {
    assert FieldValue(a, MagicField) == FieldValue(b, MagicField);
    assert FieldValue(a, TimestampField) == FieldValue(b, TimestampField);
    assert FieldValue(a, DigitalInField) == FieldValue(b, DigitalInField);
    assert FieldValue(a, DigitalOutField) == FieldValue(b, DigitalOutField);
    forall i | 0 <= i < AnalogChannels
      ensures a.analogIn[i] == b.analogIn[i]
    {
      assert FieldValue(a, FirstAnalogField + i) == FieldValue(b, FirstAnalogField + i);
    }
  }

  /** The piece packed for an integer field is that field's little-endian encoding. */
  lemma FramePieceOfField(frame: SampleFrame, dio32: bool, numStreams: nat, field: nat)
    requires WellFormed(frame, dio32, numStreams)
    requires field < FieldCount && field != HeadstageField && field != PaddingField
    ensures FieldValue(frame, field) < Pow256(FieldWidth(dio32, numStreams, field))
    ensures FramePieces(frame, dio32, numStreams)[field]
      == LeEncode(FieldValue(frame, field), FieldWidth(dio32, numStreams, field))
  {
  }

  /** Each integer field of a packed record decodes to the value packed. */
  lemma UnpackPackField(frame: SampleFrame, dio32: bool, numStreams: nat, field: nat)
    requires WellFormed(frame, dio32, numStreams)
    requires field < FieldCount && field != HeadstageField && field != PaddingField
    ensures FieldValue(UnpackFrame(PackFrame(frame, dio32, numStreams), dio32, numStreams), field)
      == FieldValue(frame, field)
  {
    var data := PackFrame(frame, dio32, numStreams);
    var span := DecoderSpans(dio32, numStreams)[field];
    var w := FieldWidth(dio32, numStreams, field);
    var v := FieldValue(frame, field);
    PackFrameSpans(frame, dio32, numStreams);
    FramePieceOfField(frame, dio32, numStreams, field);
    assert data[span.lo..span.hi] == LeEncode(v, w);
    UnpackFieldValue(data, dio32, numStreams, field);
    LeDecodeEncode(v, w);
  }

  /** Packing a well-formed record and decoding it gives the record back, in
      both digital I/O widths. */
  lemma UnpackPack(frame: SampleFrame, dio32: bool, numStreams: nat)
    requires WellFormed(frame, dio32, numStreams)
    ensures UnpackFrame(PackFrame(frame, dio32, numStreams), dio32, numStreams) == frame
  {
    var decoded := UnpackFrame(PackFrame(frame, dio32, numStreams), dio32, numStreams);
    forall f | 0 <= f < FieldCount && f != HeadstageField && f != PaddingField
      ensures FieldValue(decoded, f) == FieldValue(frame, f)
    {
      UnpackPackField(frame, dio32, numStreams, f);
    }
    UnpackPackHeadstage(frame, dio32, numStreams);
    SameFieldsSameFrame(decoded, frame);
  }

  /** The headstage region of a packed record decodes to the region packed. */
  lemma UnpackPackHeadstage(frame: SampleFrame, dio32: bool, numStreams: nat)
    requires WellFormed(frame, dio32, numStreams)
    ensures UnpackFrame(PackFrame(frame, dio32, numStreams), dio32, numStreams).headstage == frame.headstage
  {
    var data := PackFrame(frame, dio32, numStreams);
    var span := DecoderSpans(dio32, numStreams)[HeadstageField];
    PackFrameSpans(frame, dio32, numStreams);
    assert data[span.lo..span.hi] == FramePieces(frame, dio32, numStreams)[HeadstageField];
  }

  /** Byte k of a frame lies in the alignment padding the decoder skips. */
  predicate InPadding(dio32: bool, numStreams: nat, k: nat)
  {
    12 + HeadstageLength(numStreams) <= k < IoOffset(dio32, numStreams)
  }

  /** a and b both hold a whole frame and agree on every byte of it outside the padding. */
  predicate SamePayload(a: seq<Byte>, b: seq<Byte>, dio32: bool, numStreams: nat)
  {
    && |a| >= FrameSizeBytes(dio32, numStreams)
    && |b| >= FrameSizeBytes(dio32, numStreams)
    && forall k :: 0 <= k < FrameSizeBytes(dio32, numStreams) && !InPadding(dio32, numStreams, k) ==> a[k] == b[k]
  }

  /** Frames with the same payload hold the same bytes in every field span but the padding. */
  lemma PayloadSpanEqual(a: seq<Byte>, b: seq<Byte>, dio32: bool, numStreams: nat, field: nat)
    requires SamePayload(a, b, dio32, numStreams)
    requires field < FieldCount && field != PaddingField
    ensures var span := DecoderSpans(dio32, numStreams)[field];
      span.lo <= span.hi <= FrameSizeBytes(dio32, numStreams) &&
      a[span.lo..span.hi] == b[span.lo..span.hi]
  {
    var spans := DecoderSpans(dio32, numStreams);
    DecoderTilesFrame(dio32, numStreams);
    ContiguousOrdered(spans, 0, FrameSizeBytes(dio32, numStreams));
    if field < PaddingField {
      assert spans[field].hi <= spans[PaddingField].lo;
    } else {
      assert spans[PaddingField].hi <= spans[field].lo;
    }
    forall k | spans[field].lo <= k < spans[field].hi
      ensures a[k] == b[k]
    {
      assert !InPadding(dio32, numStreams, k);
    }
  }

  /** The decoder reads nothing but the payload: padding bytes and bytes past
      the end of the frame do not change the record. */
  lemma UnpackIgnoresPaddingAndTail(a: seq<Byte>, b: seq<Byte>, dio32: bool, numStreams: nat)
    requires SamePayload(a, b, dio32, numStreams)
    ensures UnpackFrame(a, dio32, numStreams) == UnpackFrame(b, dio32, numStreams)
  {
    var fa := UnpackFrame(a, dio32, numStreams);
    var fb := UnpackFrame(b, dio32, numStreams);
    forall f | 0 <= f < FieldCount && f != HeadstageField && f != PaddingField
      ensures FieldValue(fa, f) == FieldValue(fb, f)
    {
      PayloadSpanEqual(a, b, dio32, numStreams, f);
      UnpackFieldValue(a, dio32, numStreams, f);
      UnpackFieldValue(b, dio32, numStreams, f);
    }
    PayloadSpanEqual(a, b, dio32, numStreams, HeadstageField);
    SameFieldsSameFrame(fa, fb);
  }

  /** Every field span of the decoder lies inside one frame. */
  lemma FieldSpanInFrame(dio32: bool, numStreams: nat, field: nat)
    requires field < FieldCount
    ensures DecoderSpans(dio32, numStreams)[field].lo <= DecoderSpans(dio32, numStreams)[field].hi
      <= FrameSizeBytes(dio32, numStreams)
  {
    DecoderTilesFrame(dio32, numStreams);
    ContiguousOrdered(DecoderSpans(dio32, numStreams), 0, FrameSizeBytes(dio32, numStreams));
  }

  /** Two whole frames that decode to the same record hold the same bytes in
      every field span but the padding. */
  lemma SameRecordSameSpan(a: seq<Byte>, b: seq<Byte>, dio32: bool, numStreams: nat, field: nat)
    requires |a| >= FrameSizeBytes(dio32, numStreams) && |b| >= FrameSizeBytes(dio32, numStreams)
    requires UnpackFrame(a, dio32, numStreams) == UnpackFrame(b, dio32, numStreams)
    requires field < FieldCount && field != PaddingField
    ensures var span := DecoderSpans(dio32, numStreams)[field];
      span.lo <= span.hi <= FrameSizeBytes(dio32, numStreams) &&
      a[span.lo..span.hi] == b[span.lo..span.hi]
  {
    var span := DecoderSpans(dio32, numStreams)[field];
    FieldSpanInFrame(dio32, numStreams, field);
    var sa := a[span.lo..span.hi];
    var sb := b[span.lo..span.hi];
    if field == HeadstageField {
      assert UnpackFrame(a, dio32, numStreams).headstage == sa;
      assert UnpackFrame(b, dio32, numStreams).headstage == sb;
    } else {
      UnpackFieldValue(a, dio32, numStreams, field);
      UnpackFieldValue(b, dio32, numStreams, field);
      assert LeDecode(sa) == LeDecode(sb);
      LeDecodeInjective(sa, sb);
    }
  }

  /** Every payload byte of a frame lies in the span of a field the decoder reads. */
  lemma PayloadByteField(dio32: bool, numStreams: nat, k: nat) returns (field: nat)
    requires k < FrameSizeBytes(dio32, numStreams) && !InPadding(dio32, numStreams, k)
    ensures field < FieldCount && field != PaddingField
    ensures DecoderSpans(dio32, numStreams)[field].lo <= k < DecoderSpans(dio32, numStreams)[field].hi
  {
    DecoderTilesFrame(dio32, numStreams);
    field := ContiguousCovers(DecoderSpans(dio32, numStreams), 0, FrameSizeBytes(dio32, numStreams), k);
  }

  /** The decoder reads every payload byte: two whole frames that decode to the
      same record agree everywhere outside the padding. */
  lemma UnpackReadsWholePayload(a: seq<Byte>, b: seq<Byte>, dio32: bool, numStreams: nat)
    requires |a| >= FrameSizeBytes(dio32, numStreams) && |b| >= FrameSizeBytes(dio32, numStreams)
    requires UnpackFrame(a, dio32, numStreams) == UnpackFrame(b, dio32, numStreams)
    ensures SamePayload(a, b, dio32, numStreams)
  {
    forall k | 0 <= k < FrameSizeBytes(dio32, numStreams) && !InPadding(dio32, numStreams, k)
      ensures a[k] == b[k]
    {
      var field := PayloadByteField(dio32, numStreams, k);
      var span := DecoderSpans(dio32, numStreams)[field];
      SameRecordSameSpan(a, b, dio32, numStreams, field);
      assert a[span.lo..span.hi][k - span.lo] == a[k];
      assert b[span.lo..span.hi][k - span.lo] == b[k];
    }
  }

  /** A packed frame holds zeros in its padding. */
  lemma PackedPaddingZero(frame: SampleFrame, dio32: bool, numStreams: nat, k: nat)
    requires WellFormed(frame, dio32, numStreams)
    requires k < FrameSizeBytes(dio32, numStreams) && InPadding(dio32, numStreams, k)
    ensures PackFrame(frame, dio32, numStreams)[k] == 0
  {
    var packed := PackFrame(frame, dio32, numStreams);
    var pad := DecoderSpans(dio32, numStreams)[PaddingField];
    PackFrameSpans(frame, dio32, numStreams);
    assert packed[pad.lo..pad.hi] == Zeros(PaddingLength(dio32, numStreams));
    assert packed[pad.lo..pad.hi][k - pad.lo] == packed[k];
  }

  /** Decoding a whole frame and packing the record rebuilds the frame, except
      that the padding comes back as zeros. */
  lemma PackUnpack(data: seq<Byte>, dio32: bool, numStreams: nat)
    requires |data| == FrameSizeBytes(dio32, numStreams)
    ensures var packed := PackFrame(UnpackFrame(data, dio32, numStreams), dio32, numStreams);
      SamePayload(packed, data, dio32, numStreams) &&
      forall k :: 0 <= k < |packed| && InPadding(dio32, numStreams, k) ==> packed[k] == 0
  {
    var frame := UnpackFrame(data, dio32, numStreams);
    var packed := PackFrame(frame, dio32, numStreams);
    UnpackPack(frame, dio32, numStreams);
    UnpackReadsWholePayload(packed, data, dio32, numStreams);
    forall k | 0 <= k < |packed| && InPadding(dio32, numStreams, k)
      ensures packed[k] == 0
    {
      PackedPaddingZero(frame, dio32, numStreams, k);
    }
  }

  /** A field whose span starts past the end of the data reads as 0. */
  lemma TruncatedFieldZero(data: seq<Byte>, dio32: bool, numStreams: nat, field: nat)
    requires |data| <= IoOffset(dio32, numStreams)
    requires FirstAnalogField <= field < FieldCount
    ensures FieldValue(UnpackFrame(data, dio32, numStreams), field) == 0
  {
    var spans := DecoderSpans(dio32, numStreams);
    DecoderOffsets(dio32, numStreams);
    UnpackFieldValue(data, dio32, numStreams, field);
    if field < DigitalInField {
      var i := field - FirstAnalogField;
      assert spans[FirstAnalogField + i].lo >= IoOffset(dio32, numStreams);
    }
    assert |data| <= spans[field].lo;
    ReadFieldPastEnd(data, spans[field]);
  }

  /** With no length check, a slice too short to reach the I/O fields still
      decodes: its analog and digital fields read as 0. */
  lemma UnpackTruncatedFrame(data: seq<Byte>, dio32: bool, numStreams: nat)
    requires |data| <= IoOffset(dio32, numStreams)
    ensures var frame := UnpackFrame(data, dio32, numStreams);
      frame.digitalIn == 0 && frame.digitalOut == 0 &&
      forall i :: 0 <= i < |frame.analogIn| ==> frame.analogIn[i] == 0
  {
    var frame := UnpackFrame(data, dio32, numStreams);
    TruncatedFieldZero(data, dio32, numStreams, DigitalInField);
    TruncatedFieldZero(data, dio32, numStreams, DigitalOutField);
    forall i | 0 <= i < |frame.analogIn|
      ensures frame.analogIn[i] == 0
    {
      TruncatedFieldZero(data, dio32, numStreams, FirstAnalogField + i);
    }
  }
}
