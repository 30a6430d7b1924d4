/**
 * The read loop of `AudioStream.process_audio_stream`: it reads the capture
 * stream one window at a time, classifies each window by a majority vote over
 * its frames, drives the segmenter, and flushes what is left in the buffer once
 * the stream ends. The capture process, the mp3 export and the transcription
 * call are not modelled: each flush is recorded as the windows it carries.
 */
module AudioStream {
  import opened Wrappers
  import opened Seqs
  import opened Pcm
  import opened Vad
  import opened Segmenter

  /** How the loop ended: the stream ran out, or the classifier rejected a short frame of a partial read. */
  datatype Ending = EndOfStream | FrameRejected

  /** The transcription requests of one session, in order, and how it ended. */
  datatype Report = Report(flushes: seq<seq<Bytes>>, finalFlush: Option<seq<Bytes>>, ending: Ending)

  /**
   * A whole window with the verdict of the majority vote on its frames, when
   * its first frame is frame number `first` of the stream.
   */
  function Classify(data: Bytes, isSpeech: Classifier, first: nat): (c: Classified)
    ensures c.data == data
    ensures c.speech <==> 2 * SpeechFrames(data, isSpeech, first, FramesPerCheck) > FramesPerCheck
  {
    Classified(data, IsSpeechWindow(SpeechFrames(data, isSpeech, first, FramesPerCheck)))
  }

  /** The windows of a stream, in order, each with its verdict; window i starts at frame i * FramesPerCheck. */
  function ClassifyAll(ws: seq<Bytes>, isSpeech: Classifier): seq<Classified> {
    seq(|ws|, i requires 0 <= i < |ws| => Classify(ws[i], isSpeech, i * FramesPerCheck))
  }

  /** The flush made after the loop: the buffer, if it is not empty. */
  function FinalFlush(s: State): (r: Option<seq<Bytes>>)
    ensures r.Some? <==> s.buffer != []
    ensures r.Some? ==> r.value == s.buffer
  {
    if BufferMs(s.buffer) > 0 then Some(s.buffer) else None
  }

  /**
   * What a session does with a stream: the segmenter runs over its whole
   * windows; if the stream ends on a window boundary the buffer gets its final
   * flush, and otherwise the partial last read is rejected by the classifier,
   * which ends the session without a final flush.
   */
  function Session(stream: Bytes, isSpeech: Classifier): Report {
    var t := Run(Idle, ClassifyAll(Windows(stream), isSpeech));
    if Leftover(stream) == [] then Report(t.flushes, FinalFlush(t.last), EndOfStream)
    else Report(t.flushes, None, FrameRejected)
  }

  /** All the windows a report sends to transcription, in order. */
  function Transcribed(r: Report): seq<Bytes> {
    Join(r.flushes) + (if r.finalFlush.Some? then r.finalFlush.value else [])
  }

  /**
   * The loop's account of the stream after reading up to `pos`: the windows
   * read so far, then the windows of the rest, are the stream's windows, and
   * the rest ends with the stream's leftover.
   */
  ghost predicate ReadUpTo(stream: Bytes, pos: nat, ws: seq<Bytes>)
    requires pos <= |stream|
  {
    Windows(stream) == ws + Windows(stream[pos..]) && Leftover(stream) == Leftover(stream[pos..])
  }

  /** What one read at `pos` returns, and how the loop's account of the stream moves on with it. */
  lemma ReadAt(stream: Bytes, pos: nat, ws: seq<Bytes>)
    requires pos <= |stream| && ReadUpTo(stream, pos, ws)
    ensures var data := Slice(stream, pos, pos + CheckWidth);
      && |data| <= CheckWidth
      && (|data| < CheckWidth ==> Windows(stream) == ws && (Leftover(stream) == [] <==> |data| == 0))
      && (|data| == CheckWidth ==>
            pos + CheckWidth <= |stream| && ReadUpTo(stream, pos + CheckWidth, ws + [data]))
  {
    var rest := stream[pos..];
    var data := Slice(stream, pos, pos + CheckWidth);
    if |rest| >= CheckWidth {
      assert data == rest[..CheckWidth];
      assert stream[pos + CheckWidth..] == rest[CheckWidth..];
    } else {
      assert data == rest;
    }
  }

  /** Classifying one more window extends the run by one step. */
  lemma RunOneMore(ws: seq<Bytes>, c: Classified, isSpeech: Classifier, s: State, flushes: seq<seq<Bytes>>)
    requires Run(Idle, ClassifyAll(ws, isSpeech)) == Trace(s, flushes)
    requires c == Classify(c.data, isSpeech, |ws| * FramesPerCheck)
    ensures Run(Idle, ClassifyAll(ws + [c.data], isSpeech)) == Trace(Step(s, c).next, flushes + Emitted(Step(s, c)))
  {
    var cs := ClassifyAll(ws, isSpeech);
    var cs' := ClassifyAll(ws + [c.data], isSpeech);
    assert cs' == cs + [c];
    assert cs'[..|cs'| - 1] == cs;
  }

  /** How the session report follows from the loop's state when the loop stops. */
  lemma SessionAtExit(stream: Bytes, isSpeech: Classifier, ws: seq<Bytes>, s: State, flushes: seq<seq<Bytes>>)
    requires Windows(stream) == ws
    requires Run(Idle, ClassifyAll(ws, isSpeech)) == Trace(s, flushes)
    ensures Leftover(stream) == [] ==> Session(stream, isSpeech) == Report(flushes, FinalFlush(s), EndOfStream)
    ensures Leftover(stream) != [] ==> Session(stream, isSpeech) == Report(flushes, None, FrameRejected)
  {
  }

  /**
   * The loop of `process_audio_stream`, with the stream as its input and the
   * per-frame classifier as a parameter.
   */
  method ProcessAudioStream(stream: Bytes, isSpeech: Classifier) returns (report: Report)
    ensures report == Session(stream, isSpeech)
  {
    var pos := 0;
    var buffer: seq<Bytes> := [];
    var silenceMs: nat := 0;
    var flushes: seq<seq<Bytes>> := [];
    var frameNo: nat := 0;
    ghost var ws: seq<Bytes> := [];
    while true
      invariant pos <= |stream|
      invariant frameNo == |ws| * FramesPerCheck
      invariant ReadUpTo(stream, pos, ws)
      invariant Run(Idle, ClassifyAll(ws, isSpeech)) == Trace(State(buffer, silenceMs), flushes)
      decreases |stream| - pos
    {
      var data := Slice(stream, pos, pos + CheckWidth);
      ReadAt(stream, pos, ws);
      if |data| == 0 {
        SessionAtExit(stream, isSpeech, ws, State(buffer, silenceMs), flushes);
        break;
      }
      WellFormedIffWhole(data);
      var count := CountSpeechFrames(data, isSpeech, frameNo);
      if count.None? {
        // the classifier raises on the short frame: the loop ends with no final flush
        SessionAtExit(stream, isSpeech, ws, State(buffer, silenceMs), flushes);
        return Report(flushes, None, FrameRejected);
      }
      var speech := IsSpeechWindow(count.value);
      ghost var c := Classified(data, speech);
      RunOneMore(ws, c, isSpeech, State(buffer, silenceMs), flushes);
      var flushed;
      buffer, silenceMs, flushed := Update(buffer, silenceMs, data, speech);
      if flushed.Some? {
        flushes := flushes + [flushed.value];
      }
      assert Run(Idle, ClassifyAll(ws + [data], isSpeech)) == Trace(State(buffer, silenceMs), flushes);
      ws := ws + [data];
      pos := pos + CheckWidth;
      frameNo := frameNo + FramesPerCheck;
    }
    var finalFlush := None;
    if BufferMs(buffer) > 0 {
      finalFlush := Some(buffer);
    }
    report := Report(flushes, finalFlush, EndOfStream);
  }

  /**
   * A session ends normally iff the stream is a whole number of windows, and
   * it classifies exactly |stream| / 16000 windows either way.
   */
  lemma SessionEnding(stream: Bytes, isSpeech: Classifier)
    ensures Session(stream, isSpeech).ending == EndOfStream <==> |stream| % CheckWidth == 0
    ensures |ClassifyAll(Windows(stream), isSpeech)| == |stream| / CheckWidth
  {
    StreamSplit(stream);
  }

  /**
   * The final flush: it happens exactly once when the stream ends normally
   * with a non-empty buffer, whatever the silence counter says, and carries
   * that buffer; it never happens after a rejected frame.
   */
  lemma SessionFinalFlush(stream: Bytes, isSpeech: Classifier)
    ensures var r := Session(stream, isSpeech);
      var last := Run(Idle, ClassifyAll(Windows(stream), isSpeech)).last;
      && (r.finalFlush.Some? <==> r.ending == EndOfStream && last.buffer != [])
      && (r.finalFlush.Some? ==> r.finalFlush.value == last.buffer)
  {
  }

  /**
   * What a session sends to transcription, flushes and final flush together,
   * is in order exactly the windows it appended to the buffer when the stream
   * ends normally, and a prefix of them otherwise; those are speech windows in
   * input order, and if the stream holds at most 15 speech windows, they are
   * all of them.
   */
  lemma SessionContent(stream: Bytes, isSpeech: Classifier)
    ensures var cs := ClassifyAll(Windows(stream), isSpeech);
      var r := Session(stream, isSpeech);
      && (r.ending == EndOfStream ==> Transcribed(r) == Kept(Idle, cs))
      && Transcribed(r) <= Kept(Idle, cs)
      && IsSubsequence(Kept(Idle, cs), SpeechWindows(cs))
      && (|SpeechWindows(cs)| <= MaxBufferedWindows && r.ending == EndOfStream ==> Transcribed(r) == SpeechWindows(cs))
  {
    var cs := ClassifyAll(Windows(stream), isSpeech);
    var t := Run(Idle, cs);
    var r := Session(stream, isSpeech);
    var sent, left := Join(t.flushes), t.last.buffer;
    ContentPreserved(Idle, cs);
    assert sent + left == Kept(Idle, cs);
    assert Transcribed(r) == sent || Transcribed(r) == sent + left by {
      assert r.flushes == t.flushes;
      if r.finalFlush.Some? {
        assert r.finalFlush.value == left;
      }
    }
    assert r.ending == EndOfStream ==> Transcribed(r) == sent + left by {
      if r.ending == EndOfStream && left == [] {
        assert sent + left == sent;
      }
    }
    assert sent <= sent + left;
    KeptAreSpeech(Idle, cs);
    if |SpeechWindows(cs)| <= MaxBufferedWindows {
      AllSpeechKeptBelowCap(Idle, cs);
    }
  }

  /**
   * Every transcription request of a session carries between 1 and 15
   * windows (at most 7500 ms of audio), each a whole 16000-byte read.
   */
  lemma SessionSegmentsBounded(stream: Bytes, isSpeech: Classifier)
    ensures var r := Session(stream, isSpeech);
      && (forall i :: 0 <= i < |r.flushes| ==>
            1 <= |r.flushes[i]| <= MaxBufferedWindows && AllWhole(r.flushes[i]))
      && (r.finalFlush.Some? ==>
            1 <= |r.finalFlush.value| <= MaxBufferedWindows && AllWhole(r.finalFlush.value))
  {
    var cs := ClassifyAll(Windows(stream), isSpeech);
    RunKeepsValid(Idle, cs);
    RunKeepsWhole(Idle, cs);
  }
}
