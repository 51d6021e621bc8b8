/** The receive buffer of one acquisition run: its size rounded up to the
    block-pipe granularity, and its partition into frame-sized slices. */
module AcquisitionBuffer {
  import opened Bytes
  import opened FrameLayout
  import opened FrameCodec

  /** Block size of the block-pipe read and of the buffer rounding. */
  const BlockSize: nat := 1024

  /** Frames the demo asks the device for (`num_frames`). */
  const DemoFrames: nat := 128

  /** `GetWireOutValue(EP.data_count) * 2`: the data-count register counts
      16-bit words; this is the same amount in bytes. */
  function BufferedBytes(dataCount: nat): nat
  {
    dataCount * 2
  }

  /** `((data_size + 1023) // 1024) * 1024`: the length of the buffer handed
      to the block-pipe read. */
  function BufferLength(dataSize: nat): (length: nat)
    ensures length % BlockSize == 0
    ensures dataSize <= length < dataSize + BlockSize
  {
    ((dataSize + 1023) / 1024) * 1024
  }

  /** The rounded length is the smallest multiple of the block size that holds the data. */
  lemma BufferLengthIsLeast(dataSize: nat, m: nat)
    requires m % BlockSize == 0 && dataSize <= m
    ensures BufferLength(dataSize) <= m
  {
    var length := BufferLength(dataSize);
    assert length == (length / BlockSize) * BlockSize;
    assert m == (m / BlockSize) * BlockSize;
  }

  lemma MulMonotone(a: nat, b: nat, c: nat)
    requires b <= c
    ensures a * b <= a * c
  {
  }

  /** `buffer[frame_size * i : frame_size * (i + 1)]`: the i-th frame of the buffer. */
  function FrameSlice(buffer: seq<Byte>, frameSize: nat, i: nat): (frame: seq<Byte>)
    ensures |frame| <= frameSize
    ensures frameSize * (i + 1) <= |buffer| ==>
      |frame| == frameSize && frame == buffer[frameSize * i .. frameSize * (i + 1)]
  {
    assert frameSize * (i + 1) == frameSize * i + frameSize;
    Slice(buffer, frameSize * i, frameSize * (i + 1))
  }

  /** Every one of the numFrames frames lies within the data, which lies within
      the rounded buffer: no frame slice reaches the padding. */
  lemma FrameInsideBuffer(numFrames: nat, frameSize: nat, i: nat)
    requires i < numFrames
    ensures frameSize * (i + 1) <= frameSize * numFrames <= BufferLength(frameSize * numFrames)
  {
    MulMonotone(frameSize, i + 1, numFrames);
  }

  /** Distinct frames occupy disjoint byte ranges, the earlier one first. */
  lemma FramesDisjoint(frameSize: nat, i: nat, j: nat)
    requires i < j
    ensures frameSize * (i + 1) <= frameSize * j
  {
    MulMonotone(frameSize, i + 1, j);
  }

  /** The first numFrames frame slices, laid end to end, are exactly the data
      part of the buffer: the frames partition it and leave only the padding. */
  lemma {:induction false} FramesPartitionData(buffer: seq<Byte>, numFrames: nat, frameSize: nat)
    requires frameSize * numFrames <= |buffer|
    ensures Flatten(seq(numFrames, i requires 0 <= i => FrameSlice(buffer, frameSize, i)))
      == buffer[..frameSize * numFrames]
  {
    if numFrames > 0 {
      var k := numFrames - 1;
      var lo := frameSize * k;
      var hi := frameSize * numFrames;
      var last := FrameSlice(buffer, frameSize, k);
      assert lo + frameSize == hi;
      var frames := seq(numFrames, i requires 0 <= i => FrameSlice(buffer, frameSize, i));
      var earlier := seq(k, i requires 0 <= i => FrameSlice(buffer, frameSize, i));
      assert frames == earlier + [last];
      FramesPartitionData(buffer, k, frameSize);
      FlattenSnoc(earlier, last);
      assert last == buffer[lo..hi];
      assert buffer[..hi] == buffer[..lo] + buffer[lo..hi];
    }
  }

  /** A frame slice that lies wholly in the buffer decodes to a well-formed record. */
  lemma WholeFrameWellFormed(buffer: seq<Byte>, dio32: bool, numStreams: nat, i: nat)
    requires FrameSizeBytes(dio32, numStreams) * (i + 1) <= |buffer|
    ensures WellFormed(UnpackFrame(FrameSlice(buffer, FrameSizeBytes(dio32, numStreams), i), dio32, numStreams), dio32, numStreams)
  {
  }

  /** The demo's loop `for i in range(count)`: apply `decode` to each of the
      first count frame slices of the buffer, in order. */
  method DecodeEachFrame<T>(buffer: seq<Byte>, frameSize: nat, count: nat, decode: seq<Byte> -> T)
    returns (records: seq<T>)
    ensures |records| == count
    ensures forall i :: 0 <= i < count ==> records[i] == decode(FrameSlice(buffer, frameSize, i))
  {
    records := [];
    var i := 0;
    while i < count
      invariant i <= count
      invariant |records| == i
      invariant forall j :: 0 <= j < i ==> records[j] == decode(FrameSlice(buffer, frameSize, j))
    {
      records := records + [decode(FrameSlice(buffer, frameSize, i))];
      i := i + 1;
    }
  }

  /** The demo's decoding loops (io_expander_demo.py lines 137-139, 168-170,
      199-201): the record of each of the first count frames of the buffer. */
  method UnpackFrames(buffer: seq<Byte>, dio32: bool, numStreams: nat, count: nat) returns (frames: seq<SampleFrame>)
    ensures |frames| == count
    ensures forall i :: 0 <= i < count ==>
      frames[i] == UnpackFrame(FrameSlice(buffer, FrameSizeBytes(dio32, numStreams), i), dio32, numStreams)
    ensures forall i :: 0 <= i < count && FrameSizeBytes(dio32, numStreams) * (i + 1) <= |buffer| ==>
      WellFormed(frames[i], dio32, numStreams)
  {
    var frameSize := FrameSizeBytes(dio32, numStreams);
    frames := DecodeEachFrame(buffer, frameSize, count, data => UnpackFrame(data, dio32, numStreams));
    forall j | 0 <= j < count && frameSize * (j + 1) <= |buffer|
      ensures WellFormed(frames[j], dio32, numStreams)
    {
      WholeFrameWellFormed(buffer, dio32, numStreams, j);
    }
  }

  /** The demo's two runs: 128 frames of 32 bytes, then of 40 bytes, fill
      4096 and 5120 bytes, already whole blocks, so neither buffer is padded. */
  lemma DemoBufferLengths()
    ensures BufferLength(DemoFrames * FrameSizeBytes(false, 0)) == 4096 == DemoFrames * FrameSizeBytes(false, 0)
    ensures BufferLength(DemoFrames * FrameSizeBytes(true, 0)) == 5120 == DemoFrames * FrameSizeBytes(true, 0)
  {
  }
}
