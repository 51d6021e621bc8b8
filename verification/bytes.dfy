/** Byte sequences as the acquisition script handles them: Python `bytearray`
    slicing and little-endian `int.from_bytes`, together with the encoder that
    inverts it and a small theory of byte ranges laid end to end. */
module Bytes {

  /** One octet of a `bytearray`. */
  type Byte = b: int | 0 <= b < 256

  /** 256 to the power k: a k-byte unsigned field holds exactly the values below it. */
  function Pow256(k: nat): (r: nat)
    ensures r > 0
  {
    if k == 0 then 1 else 256 * Pow256(k - 1)
  }

  lemma {:induction false} Pow256Monotone(j: nat, k: nat)
    requires j <= k
    ensures Pow256(j) <= Pow256(k)
    decreases k
  {
    if j < k {
      Pow256Monotone(j, k - 1);
    }
  }

  /** Python's `s[lo:hi]` for non-negative bounds: both bounds are clamped to
      the length, and a range whose start is past its end is empty. It never fails. */
  function Slice<T>(s: seq<T>, lo: nat, hi: nat): (r: seq<T>)
    ensures lo <= hi <= |s| ==> r == s[lo..hi]
    ensures lo <= hi ==> |r| <= hi - lo
    ensures forall k :: 0 <= k < |r| ==> lo + k < |s| && r[k] == s[lo + k]
    ensures lo <= hi && lo <= |s| ==> r == s[lo..if hi <= |s| then hi else |s|]
    ensures hi <= lo || |s| <= lo ==> r == []
  {
    var a := if lo < |s| then lo else |s|;
    var b := if hi < |s| then hi else |s|;
    if a <= b then s[a..b] else []
  }

  /** `int.from_bytes(s, byteorder='little')`: the first byte is the least
      significant one, and the empty sequence reads as 0. */
  function LeDecode(s: seq<Byte>): (v: nat)
    ensures v < Pow256(|s|)
  {
    if |s| == 0 then 0 else s[0] + 256 * LeDecode(s[1..])
  }

  /** The k-byte little-endian image of v (Python's `v.to_bytes(k, 'little')`
      for the values that fit). */
  function LeEncode(v: nat, k: nat): (s: seq<Byte>)
    ensures |s| == k
  {
    if k == 0 then [] else [v % 256] + LeEncode(v / 256, k - 1)
  }

  /** Encoding a value that fits in k bytes and decoding it gives the value back. */
  lemma {:induction false} LeDecodeEncode(v: nat, k: nat)
    requires v < Pow256(k)
    ensures LeDecode(LeEncode(v, k)) == v
  {
    if k > 0 {
      LeDecodeEncode(v / 256, k - 1);
      assert LeEncode(v, k)[1..] == LeEncode(v / 256, k - 1);
    }
  }

  /** Decoding a byte sequence and re-encoding it at its own width gives the bytes back. */
  lemma {:induction false} LeEncodeDecode(s: seq<Byte>)
    ensures LeEncode(LeDecode(s), |s|) == s
  {
    if |s| > 0 {
      LeEncodeDecode(s[1..]);
      var v := LeDecode(s);
      assert v % 256 == s[0];
      assert v / 256 == LeDecode(s[1..]);
    }
  }

  /** Two sequences of the same width with the same little-endian value are equal. */
  lemma LeDecodeInjective(a: seq<Byte>, b: seq<Byte>)
    requires |a| == |b| && LeDecode(a) == LeDecode(b)
    ensures a == b
  {
    LeEncodeDecode(a);
    LeEncodeDecode(b);
  }

  /** k zero bytes. */
  function Zeros(k: nat): (s: seq<Byte>)
    ensures |s| == k
    ensures forall i :: 0 <= i < k ==> s[i] == 0
  {
    seq(k, i => 0)
  }

  /** The pieces written one after another. */
  function Flatten<T>(pieces: seq<seq<T>>): seq<T>
  {
    if |pieces| == 0 then [] else pieces[0] + Flatten(pieces[1..])
  }

  lemma {:induction false} FlattenSnoc<T>(pieces: seq<seq<T>>, last: seq<T>)
    ensures Flatten(pieces + [last]) == Flatten(pieces) + last
  {
    if |pieces| == 0 {
      assert pieces + [last] == [last];
    } else {
      assert (pieces + [last])[1..] == pieces[1..] + [last];
      FlattenSnoc(pieces[1..], last);
    }
  }

  /** A half-open byte range [lo, hi) of a frame. */
  datatype Span = Span(lo: nat, hi: nat)

  /** The spans lie back to back from start to end: the first begins at start,
      each one begins where the one before it ends, and the last ends at end. */
  predicate Contiguous(spans: seq<Span>, start: nat, end: nat)
  {
    if |spans| == 0 then start == end
    else spans[0].lo == start && spans[0].lo <= spans[0].hi && Contiguous(spans[1..], spans[0].hi, end)
  }

  lemma {:induction false} ContiguousAppend(a: seq<Span>, b: seq<Span>, start: nat, mid: nat, end: nat)
    requires Contiguous(a, start, mid) && Contiguous(b, mid, end)
    ensures Contiguous(a + b, start, end)
  {
    if |a| == 0 {
      assert a + b == b;
    } else {
      assert (a + b)[1..] == a[1..] + b;
      ContiguousAppend(a[1..], b, a[0].hi, mid, end);
    }
  }

  /** Contiguous spans are ordered, pairwise disjoint and inside [start, end). */
  lemma {:induction false} ContiguousOrdered(spans: seq<Span>, start: nat, end: nat)
    requires Contiguous(spans, start, end)
    ensures start <= end
    ensures forall i :: 0 <= i < |spans| ==> start <= spans[i].lo <= spans[i].hi <= end
    ensures forall i, j :: 0 <= i < j < |spans| ==> spans[i].hi <= spans[j].lo
  {
    if |spans| > 0 {
      var rest := spans[1..];
      ContiguousOrdered(rest, spans[0].hi, end);
      forall i, j | 0 <= i < j < |spans|
        ensures spans[i].hi <= spans[j].lo
      {
        if i > 0 {
          assert spans[i] == rest[i - 1] && spans[j] == rest[j - 1];
        } else {
          assert spans[j] == rest[j - 1];
        }
      }
    }
  }

  /** Every position between start and end lies in one of the contiguous spans. */
  lemma {:induction false} ContiguousCovers(spans: seq<Span>, start: nat, end: nat, k: nat) returns (j: nat)
    requires Contiguous(spans, start, end)
    requires start <= k < end
    ensures j < |spans| && spans[j].lo <= k < spans[j].hi
  {
    if k < spans[0].hi {
      j := 0;
    } else {
      var j' := ContiguousCovers(spans[1..], spans[0].hi, end, k);
      j := j' + 1;
    }
  }

  lemma SliceOfAppendRight<T>(a: seq<T>, b: seq<T>, lo: nat, hi: nat)
    requires |a| <= lo <= hi <= |a| + |b|
    ensures (a + b)[lo..hi] == b[lo - |a| .. hi - |a|]
  {
  }

  /** Pieces whose lengths match contiguous spans flatten to the covered length. */
  lemma {:induction false} FlattenLength(pieces: seq<seq<Byte>>, spans: seq<Span>, start: nat, end: nat)
    requires Contiguous(spans, start, end)
    requires |pieces| == |spans|
    requires forall i :: 0 <= i < |spans| ==> |pieces[i]| == spans[i].hi - spans[i].lo
    ensures |Flatten(pieces)| == end - start
  {
    if |spans| > 0 {
      FlattenLength(pieces[1..], spans[1..], spans[0].hi, end);
    }
  }

  /** Once flattened, piece i sits exactly at span i. */
  lemma {:induction false} FlattenAtSpan(pieces: seq<seq<Byte>>, spans: seq<Span>, start: nat, end: nat, i: nat)
    requires Contiguous(spans, start, end)
    requires |pieces| == |spans|
    requires forall j :: 0 <= j < |spans| ==> |pieces[j]| == spans[j].hi - spans[j].lo
    requires i < |spans|
    ensures start <= spans[i].lo <= spans[i].hi <= end
    ensures |Flatten(pieces)| == end - start
    ensures Flatten(pieces)[spans[i].lo - start .. spans[i].hi - start] == pieces[i]
  {
    FlattenLength(pieces, spans, start, end);
    var f := Flatten(pieces);
    var tail := Flatten(pieces[1..]);
    assert f == pieces[0] + tail;
    if i == 0 {
      assert f[..|pieces[0]|] == pieces[0];
    } else {
      var rest := spans[1..];
      assert forall j :: 0 <= j < |rest| ==> |pieces[1..][j]| == rest[j].hi - rest[j].lo;
      FlattenAtSpan(pieces[1..], rest, spans[0].hi, end, i - 1);
      assert spans[i] == rest[i - 1] && pieces[i] == pieces[1..][i - 1];
      SliceOfAppendRight(pieces[0], tail, spans[i].lo - start, spans[i].hi - start);
    }
  }

  /** Pieces whose lengths match contiguous spans are laid out, once flattened,
      exactly at those spans: piece i is the slice of span i. */
  lemma FlattenAtSpans(pieces: seq<seq<Byte>>, spans: seq<Span>, start: nat, end: nat)
    requires Contiguous(spans, start, end)
    requires |pieces| == |spans|
    requires forall i :: 0 <= i < |spans| ==> |pieces[i]| == spans[i].hi - spans[i].lo
    ensures |Flatten(pieces)| == end - start
    ensures forall i :: 0 <= i < |spans| ==>
      start <= spans[i].lo <= spans[i].hi <= end &&
      Flatten(pieces)[spans[i].lo - start .. spans[i].hi - start] == pieces[i]
  {
    FlattenLength(pieces, spans, start, end);
    forall i | 0 <= i < |spans|
      ensures start <= spans[i].lo <= spans[i].hi <= end
      ensures Flatten(pieces)[spans[i].lo - start .. spans[i].hi - start] == pieces[i]
    {
      FlattenAtSpan(pieces, spans, start, end, i);
    }
  }
}
