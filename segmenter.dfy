/**
 * The speech segmenter's state machine: one transition per classified window,
 * updating the speech buffer and the silence counter and sometimes flushing
 * the buffer to transcription. A flush is recorded as the buffered windows it
 * carries; encoding and the transcription call are not modelled.
 */
module Segmenter {
  import opened Wrappers
  import opened Seqs
  import opened Pcm

  /** Cap on the buffer length, in milliseconds: FramesPerCheck * 10 * 15, i.e. 15 windows. */
  const BufferCapMs: nat := 7500
  /** A flush needs strictly more silence than this, in milliseconds. */
  const FlushThresholdMs: nat := 2000
  /** The most windows the buffer can hold: BufferCapMs / WindowMs. */
  const MaxBufferedWindows: nat := 15

  /** The cap is the product the read loop computes it as, and a whole number of windows. */
  lemma CapConstants()
    ensures BufferCapMs == FramesPerCheck * 10 * 15
    ensures BufferCapMs == MaxBufferedWindows * WindowMs
  {
  }

  /** A window with the verdict of the majority vote on its frames. */
  datatype Classified = Classified(data: Bytes, speech: bool)

  /** The loop's two locals: the speech buffer (as its windows) and the silence counter. */
  datatype State = State(buffer: seq<Bytes>, silenceMs: nat)

  /** Before the first window and right after a flush. */
  const Idle := State([], 0)

  /**
   * Length of the buffered audio in milliseconds: every buffered window is a
   * whole read of CheckWidth bytes, i.e. WindowMs of audio.
   */
  function BufferMs(buffer: seq<Bytes>): nat { |buffer| * WindowMs }

  /** What one window does: the new state, whether the window was appended, and the flushed buffer if any. */
  datatype Outcome = Outcome(next: State, appended: bool, flushed: Option<seq<Bytes>>)

  function Emitted(o: Outcome): seq<seq<Bytes>> {
    if o.flushed.Some? then [o.flushed.value] else []
  }

  /**
   * One iteration of the read loop after classification. A window is appended
   * only when it is speech and the buffer holds fewer than 15 windows; every
   * other window, speech at the cap included, counts as 500 ms of silence, and
   * a flush happens when that makes the counter pass 2000 ms while the buffer
   * is non-empty. A flush carries the whole buffer and leaves the Idle state.
   */
  function Step(s: State, c: Classified): (o: Outcome)
    ensures o.appended <==> c.speech && |s.buffer| < MaxBufferedWindows
    ensures o.appended ==> o.next == State(s.buffer + [c.data], 0) && o.flushed == None
    ensures o.flushed.Some? <==> !o.appended && s.buffer != [] && s.silenceMs + WindowMs > FlushThresholdMs
    ensures o.flushed.Some? ==> o.flushed.value == s.buffer && o.next == Idle
    ensures !o.appended && o.flushed == None ==> o.next == State(s.buffer, s.silenceMs + WindowMs)
  {
    if c.speech && BufferMs(s.buffer) < BufferCapMs then
      Outcome(State(s.buffer + [c.data], 0), true, None)
    else
      var silenceMs := s.silenceMs + WindowMs;
      if silenceMs > FlushThresholdMs && BufferMs(s.buffer) > 0 then
        Outcome(Idle, false, Some(s.buffer))
      else
        Outcome(State(s.buffer, silenceMs), false, None)
  }

  /**
   * The buffer and counter update of the read loop for one classified window,
   * reporting the buffer it flushed, if any.
   */
  method Update(buffer: seq<Bytes>, silenceMs: nat, data: Bytes, speech: bool)
    returns (buffer': seq<Bytes>, silenceMs': nat, flushed: Option<seq<Bytes>>)
    ensures var o := Step(State(buffer, silenceMs), Classified(data, speech));
      State(buffer', silenceMs') == o.next && flushed == o.flushed
  {
    buffer', silenceMs', flushed := buffer, silenceMs, None;
    if speech && BufferMs(buffer') < BufferCapMs {
      buffer' := buffer' + [data];
      silenceMs' := 0;
    } else {
      silenceMs' := silenceMs' + WindowMs;
      if silenceMs' > FlushThresholdMs && BufferMs(buffer') > 0 {
        flushed := Some(buffer');
        buffer' := [];
        silenceMs' := 0;
      }
    }
  }

  /**
   * The invariant of the loop: the buffer holds at most 15 windows (7500 ms),
   * the silence counter is a multiple of 500 ms, and a non-empty buffer never
   * sits beside more than 2000 ms of silence.
   */
  predicate Valid(s: State) {
    |s.buffer| <= MaxBufferedWindows
    && s.silenceMs % WindowMs == 0
    && (s.buffer != [] ==> s.silenceMs <= FlushThresholdMs)
  }

  /** The state after a run of windows, and the flushes the run made, in order. */
  datatype Trace = Trace(last: State, flushes: seq<seq<Bytes>>)

  /** The windows processed in order from state `s`. */
  function Run(s: State, cs: seq<Classified>): Trace
    decreases |cs|
  {
    if cs == [] then Trace(s, [])
    else
      var t := Run(s, cs[..|cs| - 1]);
      var o := Step(t.last, cs[|cs| - 1]);
      Trace(o.next, t.flushes + Emitted(o))
  }

  /**
   * From a valid state, every state a run reaches is valid, and every flush
   * carries between 1 and 15 windows; a run flushes at most once per window.
   */
  lemma {:induction false} RunKeepsValid(s: State, cs: seq<Classified>)
    requires Valid(s)
    ensures Valid(Run(s, cs).last)
    ensures forall i :: 0 <= i < |Run(s, cs).flushes| ==> 1 <= |Run(s, cs).flushes[i]| <= MaxBufferedWindows
    ensures |Run(s, cs).flushes| <= |cs|
    decreases |cs|
  {
    if cs != [] {
      RunKeepsValid(s, cs[..|cs| - 1]);
    }
  }

  /** Every window is a whole read of CheckWidth bytes, i.e. WindowMs of audio. */
  predicate AllWhole(ws: seq<Bytes>) {
    forall i :: 0 <= i < |ws| ==> |ws[i]| == CheckWidth
  }

  /**
   * A run over whole windows only ever buffers and flushes whole windows, so
   * counting the buffer in windows of WindowMs is its length in milliseconds.
   */
  lemma {:induction false} RunKeepsWhole(s: State, cs: seq<Classified>)
    requires AllWhole(s.buffer)
    requires forall i :: 0 <= i < |cs| ==> |cs[i].data| == CheckWidth
    ensures AllWhole(Run(s, cs).last.buffer)
    ensures forall i :: 0 <= i < |Run(s, cs).flushes| ==> AllWhole(Run(s, cs).flushes[i])
    decreases |cs|
  {
    if cs != [] {
      RunKeepsWhole(s, cs[..|cs| - 1]);
    }
  }

  /** The windows a run appends to the buffer, in order. */
  function Kept(s: State, cs: seq<Classified>): seq<Bytes>
    decreases |cs|
  {
    if cs == [] then []
    else
      var c := cs[|cs| - 1];
      var o := Step(Run(s, cs[..|cs| - 1]).last, c);
      Kept(s, cs[..|cs| - 1]) + (if o.appended then [c.data] else [])
  }

  /** The windows classified as speech, in order. */
  function SpeechWindows(cs: seq<Classified>): seq<Bytes>
    decreases |cs|
  {
    if cs == [] then []
    else SpeechWindows(cs[..|cs| - 1]) + (if cs[|cs| - 1].speech then [cs[|cs| - 1].data] else [])
  }

  /** A window that `Step` would not append to a buffer of this size. */
  predicate NotAppendable(buffer: seq<Bytes>, c: Classified) {
    !c.speech || |buffer| >= MaxBufferedWindows
  }

  /**
   * Content preservation: what a run flushes, followed by what it leaves in the
   * buffer, is the starting buffer followed by every window the run appended,
   * with nothing lost, duplicated or reordered.
   */
  lemma {:induction false} ContentPreserved(s: State, cs: seq<Classified>)
    ensures Join(Run(s, cs).flushes) + Run(s, cs).last.buffer == s.buffer + Kept(s, cs)
    decreases |cs|
  {
    if cs != [] {
      var p := cs[..|cs| - 1];
      var t := Run(s, p);
      var o := Step(t.last, cs[|cs| - 1]);
      ContentPreserved(s, p);
      if o.flushed.Some? {
        assert (t.flushes + [t.last.buffer])[..|t.flushes|] == t.flushes;
        assert Join(t.flushes + [t.last.buffer]) == Join(t.flushes) + t.last.buffer;
        assert Run(s, cs) == Trace(Idle, t.flushes + [t.last.buffer]);
        assert Kept(s, cs) == Kept(s, p);
      } else if o.appended {
        assert Run(s, cs) == Trace(State(t.last.buffer + [cs[|cs| - 1].data], 0), t.flushes);
        assert Kept(s, cs) == Kept(s, p) + [cs[|cs| - 1].data];
        var x := cs[|cs| - 1].data;
        assert Join(t.flushes) + (t.last.buffer + [x]) == (Join(t.flushes) + t.last.buffer) + [x];
      } else {
        assert Run(s, cs) == Trace(o.next, t.flushes);
        assert Kept(s, cs) == Kept(s, p);
      }
    }
  }

  /** Only windows classified as speech are ever appended, and in input order. */
  lemma {:induction false} KeptAreSpeech(s: State, cs: seq<Classified>)
    ensures IsSubsequence(Kept(s, cs), SpeechWindows(cs))
    decreases |cs|
  {
    if cs != [] {
      var p := cs[..|cs| - 1];
      var c := cs[|cs| - 1];
      var o := Step(Run(s, p).last, c);
      KeptAreSpeech(s, p);
      var k, w := Kept(s, p), SpeechWindows(p);
      if o.appended {
        assert (k + [c.data])[..|k|] == k;
      } else if c.speech {
        assert Kept(s, cs) == k;
        assert SpeechWindows(cs) == w + [c.data];
        assert (w + [c.data])[..|w|] == w;
        assert IsSubsequence(k, (w + [c.data])[..|w|]);
      } else {
        assert Kept(s, cs) == k && SpeechWindows(cs) == w;
      }
    }
  }

  /**
   * If the buffer is below its cap whenever a speech window arrives, every
   * speech window is appended: the appended windows are exactly the speech
   * windows, however many flushes the run makes in between.
   */
  lemma {:induction false} AllSpeechKept(s: State, cs: seq<Classified>)
    requires forall i :: 0 <= i < |cs| && cs[i].speech ==> |Run(s, cs[..i]).last.buffer| < MaxBufferedWindows
    ensures Kept(s, cs) == SpeechWindows(cs)
    decreases |cs|
  {
    if cs != [] {
      var p := cs[..|cs| - 1];
      forall i | 0 <= i < |p| && p[i].speech
        ensures |Run(s, p[..i]).last.buffer| < MaxBufferedWindows
      {
        assert p[..i] == cs[..i];
      }
      AllSpeechKept(s, p);
    }
  }

  /**
   * A sufficient condition for the above that needs no run: when the starting
   * buffer and all the speech windows of the run together number at most 15,
   * the appended windows are exactly the speech windows.
   */
  lemma {:induction false} AllSpeechKeptBelowCap(s: State, cs: seq<Classified>)
    requires |s.buffer| + |SpeechWindows(cs)| <= MaxBufferedWindows
    ensures Kept(s, cs) == SpeechWindows(cs)
    decreases |cs|
  {
    if cs != [] {
      var p := cs[..|cs| - 1];
      var c := cs[|cs| - 1];
      AllSpeechKeptBelowCap(s, p);
      ContentPreserved(s, p);
      assert |Run(s, p).last.buffer| <= |s.buffer| + |Kept(s, p)|;
    }
  }

  /** Running `a` and then `b` is running `a + b`. */
  lemma {:induction false} RunAppend(s: State, a: seq<Classified>, b: seq<Classified>)
    ensures Run(s, a + b) == Trace(Run(Run(s, a).last, b).last, Run(s, a).flushes + Run(Run(s, a).last, b).flushes)
    decreases |b|
  {
    if b == [] {
      assert a + b == a;
    } else {
      var b', c := b[..|b| - 1], b[|b| - 1];
      assert (a + b)[..|a + b| - 1] == a + b';
      assert (a + b)[|a + b| - 1] == c;
      RunAppend(s, a, b');
      var mid := Run(s, a);
      var u := Run(mid.last, b');
      var o := Step(u.last, c);
      assert Run(mid.last, b) == Trace(o.next, u.flushes + Emitted(o));
      assert Run(s, a + b) == Trace(o.next, mid.flushes + u.flushes + Emitted(o));
      assert mid.flushes + u.flushes + Emitted(o) == mid.flushes + (u.flushes + Emitted(o));
    }
  }

  /**
   * With a non-empty buffer, windows that are not appended only add 500 ms
   * each to the counter, without flushing, while the counter stays at or below
   * 2000 ms.
   */
  lemma {:induction false} QuietRun(s: State, cs: seq<Classified>)
    requires s.buffer != []
    requires s.silenceMs + |cs| * WindowMs <= FlushThresholdMs
    requires forall i :: 0 <= i < |cs| ==> NotAppendable(s.buffer, cs[i])
    ensures Run(s, cs) == Trace(State(s.buffer, s.silenceMs + |cs| * WindowMs), [])
    decreases |cs|
  {
    if cs != [] {
      QuietRun(s, cs[..|cs| - 1]);
    }
  }

  /**
   * Arithmetic for the flush rule: the number of non-appended windows that
   * bring a valid counter up to exactly the threshold, which is 4 from 0.
   */
  lemma WindowsToThreshold(silenceMs: nat, n: int)
    requires silenceMs % WindowMs == 0 && silenceMs <= FlushThresholdMs
    requires n == (FlushThresholdMs - silenceMs) / WindowMs
    ensures n >= 0 && silenceMs + n * WindowMs == FlushThresholdMs
    ensures silenceMs == 0 ==> n == 4
  {
    var m := silenceMs / 500;
    assert silenceMs == m * 500;
    assert n == 4 - m;
  }

  /**
   * The flush rule: from a valid state with a non-empty buffer, the window
   * that flushes is the first non-appended window that takes the counter past
   * 2000 ms, so right after an append (counter 0) it is the fifth, not the
   * fourth. The flush carries the buffer and returns to Idle.
   */
  lemma FlushOnThresholdWindow(s: State, cs: seq<Classified>)
    requires Valid(s) && s.buffer != []
    requires |cs| == (FlushThresholdMs - s.silenceMs) / WindowMs + 1
    requires forall i :: 0 <= i < |cs| ==> NotAppendable(s.buffer, cs[i])
    ensures s.silenceMs == 0 ==> |cs| == 5
    ensures Run(s, cs[..|cs| - 1]) == Trace(State(s.buffer, FlushThresholdMs), [])
    ensures Run(s, cs) == Trace(Idle, [s.buffer])
  {
    var n := |cs| - 1;
    WindowsToThreshold(s.silenceMs, n);
    var p := cs[..n];
    assert forall i :: 0 <= i < |p| ==> NotAppendable(s.buffer, p[i]);
    QuietRun(s, p);
    var t := Run(s, p);
    assert t == Trace(State(s.buffer, FlushThresholdMs), []);
    var o := Step(t.last, cs[n]);
    assert o.flushed == Some(s.buffer) && o.next == Idle;
    assert Run(s, cs) == Trace(o.next, t.flushes + Emitted(o));
  }

  /**
   * While the buffer is empty, silent windows never flush and never reset the
   * counter: it keeps growing by 500 ms per window, past any threshold.
   */
  lemma {:induction false} IdleRun(s: State, cs: seq<Classified>)
    requires s.buffer == []
    requires forall i :: 0 <= i < |cs| ==> !cs[i].speech
    ensures Run(s, cs) == Trace(State([], s.silenceMs + |cs| * WindowMs), [])
    decreases |cs|
  {
    if cs != [] {
      IdleRun(s, cs[..|cs| - 1]);
    }
  }

  /** Speech windows that fit in the buffer are all appended, and the counter ends at 0. */
  lemma {:induction false} SpeechRun(s: State, cs: seq<Classified>)
    requires cs != []
    requires forall i :: 0 <= i < |cs| ==> cs[i].speech
    requires |s.buffer| + |cs| <= MaxBufferedWindows
    ensures |SpeechWindows(cs)| == |cs|
    ensures Run(s, cs) == Trace(State(s.buffer + SpeechWindows(cs), 0), [])
    decreases |cs|
  {
    var p, c := cs[..|cs| - 1], cs[|cs| - 1];
    var before := s.buffer + SpeechWindows(p);
    if p != [] {
      SpeechRun(s, p);
    } else {
      assert SpeechWindows(p) == [] && Run(s, p) == Trace(s, []);
      assert before == s.buffer;
    }
    var t := Run(s, p);
    assert t.last.buffer == before && t.flushes == [];
    assert Step(t.last, c).next == State(before + [c.data], 0);
    assert SpeechWindows(cs) == SpeechWindows(p) + [c.data];
    assert before + [c.data] == s.buffer + SpeechWindows(cs);
  }

  /**
   * Speech that arrives while the buffer is full is dropped and counted as
   * silence, so five such windows in a row flush the full buffer, and none of
   * them is kept.
   */
  lemma CappedSpeechFlushes(s: State, cs: seq<Classified>)
    requires |s.buffer| == MaxBufferedWindows && s.silenceMs == 0
    requires |cs| == 5 && forall i :: 0 <= i < |cs| ==> cs[i].speech
    ensures Run(s, cs) == Trace(Idle, [s.buffer])
    ensures Kept(s, cs) == []
  {
    FlushOnThresholdWindow(s, cs);
    ContentPreserved(s, cs);
  }

  /**
   * Five speech windows followed by five silent ones, from Idle: nothing is
   * flushed after the fourth silent window; the fifth flushes exactly the
   * five speech windows and leaves the buffer empty.
   */
  lemma FiveSpeechThenFiveSilence(cs: seq<Classified>)
    requires |cs| == 10
    requires forall i :: 0 <= i < 5 ==> cs[i].speech
    requires forall i :: 5 <= i < 10 ==> !cs[i].speech
    ensures Run(Idle, cs[..9]).flushes == []
    ensures Run(Idle, cs) == Trace(Idle, [SpeechWindows(cs[..5])])
  {
    var a, b := cs[..5], cs[5..];
    var s := State(SpeechWindows(a), 0);
    SpeechRun(Idle, a);
    assert Run(Idle, a) == Trace(s, []);
    QuietAfterSpeech(s, b);
    RunAppend(Idle, a, b);
    assert cs == a + b;
    RunAppend(Idle, a, b[..4]);
    assert cs[..9] == a + b[..4];
  }

  /**
   * The silent half of the scenario above: five silent windows after a
   * five-window buffer, the fifth of which flushes it.
   */
  lemma QuietAfterSpeech(s: State, b: seq<Classified>)
    requires |s.buffer| == 5 && s.silenceMs == 0
    requires |b| == 5 && forall i :: 0 <= i < |b| ==> !b[i].speech
    ensures Run(s, b[..4]) == Trace(State(s.buffer, FlushThresholdMs), [])
    ensures Run(s, b) == Trace(Idle, [s.buffer])
  {
    FlushOnThresholdWindow(s, b);
  }
}
