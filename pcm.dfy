/**
 * Layout of the capture stream: raw 16 kHz mono PCM with 16-bit samples,
 * read in 500 ms windows, each cut into fifty 10 ms frames.
 */
module Pcm {
  import opened Seqs

  newtype byte = b: int | 0 <= b < 256

  /** Raw PCM bytes: one read from the capture pipe, one frame of it, or the whole stream. */
  type Bytes = seq<byte>

  const SampleRate: nat := 16000
  const BytesPerSample: nat := 2
  const FrameDurationMs: nat := 10
  const FramesPerCheck: nat := 50
  /** Bytes in one frame: 2 bytes per sample at 16 kHz for 10 ms (see SourceConstants). */
  const FrameWidth: nat := 320
  /** Bytes requested by each read: one window of FramesPerCheck frames. */
  const CheckWidth: nat := 16000
  /** Duration of one window, which is also what one non-appended window adds to the silence counter. */
  const WindowMs: nat := 500

  /** The widths and the window duration are the products the read loop computes them as. */
  lemma SourceConstants()
    ensures FrameWidth == BytesPerSample * SampleRate * FrameDurationMs / 1000
    ensures CheckWidth == FrameWidth * FramesPerCheck
    ensures WindowMs == FrameDurationMs * FramesPerCheck
    ensures CheckWidth / (BytesPerSample * SampleRate / 1000) == WindowMs
  {
  }

  function Min(a: nat, b: nat): nat { if a <= b then a else b }

  /**
   * Python's `data[lo:hi]` for non-negative bounds: both bounds are clamped to
   * the length, so a slice that runs past the end is short or empty.
   */
  function Slice(data: Bytes, lo: nat, hi: nat): (r: Bytes)
    ensures lo <= hi ==> |r| == Min(hi, |data|) - Min(lo, |data|)
    ensures hi < lo ==> r == []
    ensures forall k :: 0 <= k < |r| ==> r[k] == data[lo + k]
  {
    var a := Min(lo, |data|);
    var b := Min(hi, |data|);
    if a <= b then data[a..b] else []
  }

  /** Frame `i` of a window: the bytes `[i * FrameWidth, (i + 1) * FrameWidth)`. */
  function Frame(data: Bytes, i: nat): (f: Bytes)
    ensures |f| <= FrameWidth
    ensures (i + 1) * FrameWidth <= |data| ==> f == data[i * FrameWidth .. (i + 1) * FrameWidth]
    ensures |data| <= i * FrameWidth ==> f == []
  {
    Slice(data, i * FrameWidth, (i + 1) * FrameWidth)
  }

  /** Frames 0 .. k-1 of a window, put back together. */
  function JoinFrames(data: Bytes, k: nat): Bytes {
    if k == 0 then [] else JoinFrames(data, k - 1) + Frame(data, k - 1)
  }

  /**
   * A frame is 320 bytes and a window 16000 bytes; in a whole window, frame i
   * is exactly the bytes [i*320, (i+1)*320), and the first k frames put back
   * together are the first k*320 bytes: the frames tile the window with no gap
   * and no overlap.
   */
  lemma {:induction false} FramesTile(data: Bytes, k: nat)
    requires |data| == CheckWidth && k <= FramesPerCheck
    ensures forall i :: 0 <= i < k ==> Frame(data, i) == data[i * FrameWidth .. (i + 1) * FrameWidth]
    ensures JoinFrames(data, k) == data[..k * FrameWidth]
  {
    if k > 0 {
      FramesTile(data, k - 1);
      var f := Frame(data, k - 1);
      assert f == data[(k - 1) * FrameWidth .. k * FrameWidth];
      assert data[..(k - 1) * FrameWidth] + f == data[..k * FrameWidth];
    }
  }

  /** The whole windows the read loop gets from a stream, in order. */
  function Windows(stream: Bytes): (ws: seq<Bytes>)
    ensures forall i :: 0 <= i < |ws| ==> |ws[i]| == CheckWidth
    decreases |stream|
  {
    if |stream| < CheckWidth then [] else [stream[..CheckWidth]] + Windows(stream[CheckWidth..])
  }

  /** The short read left at the end of a stream, empty when the stream is a whole number of windows. */
  function Leftover(stream: Bytes): (r: Bytes)
    ensures |r| < CheckWidth
    decreases |stream|
  {
    if |stream| < CheckWidth then stream else Leftover(stream[CheckWidth..])
  }

  /**
   * The stream is consumed exactly once and in order: its whole windows followed
   * by the leftover give back the stream, there are |stream| / 16000 windows and
   * the leftover is the remainder.
   */
  lemma {:induction false} StreamSplit(stream: Bytes)
    ensures Join(Windows(stream)) + Leftover(stream) == stream
    ensures |Windows(stream)| == |stream| / CheckWidth
    ensures |Leftover(stream)| == |stream| % CheckWidth
    decreases |stream|
  {
    if |stream| >= CheckWidth {
      var w, rest := stream[..CheckWidth], stream[CheckWidth..];
      StreamSplit(rest);
      JoinAppend([w], Windows(rest));
      assert Join([w]) == w by { assert [w][..0] == []; }
      assert w + rest == stream;
    }
  }
}
