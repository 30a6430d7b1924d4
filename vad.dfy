/**
 * Classification of one window. The voice-activity classifier itself is an
 * opaque predicate `isSpeech`, which is only ever handed a frame of exactly
 * FrameWidth bytes; a shorter frame makes the classifier raise instead.
 */
module Vad {
  import opened Wrappers
  import opened Pcm

  /**
   * The classifier's verdict on the frame with the given number in the stream
   * (counting from 0) and the given bytes. The classifier keeps state from one
   * frame to the next, so its verdict on a frame may depend on every frame
   * before it; indexing by the frame number lets any such verdict sequence be
   * represented.
   */
  type Classifier = (nat, Bytes) -> bool

  /**
   * How many of frames 0 .. k-1 of a window the classifier calls speech, when
   * the window's first frame is frame number `first` of the stream.
   */
  function SpeechFrames(data: Bytes, isSpeech: Classifier, first: nat, k: nat): (n: nat)
    ensures n <= k
  {
    if k == 0 then 0
    else SpeechFrames(data, isSpeech, first, k - 1) + (if isSpeech(first + k - 1, Frame(data, k - 1)) then 1 else 0)
  }

  /** Every frame of the window has the length the classifier accepts. */
  predicate FramesWellFormed(data: Bytes) {
    forall i :: 0 <= i < FramesPerCheck ==> |Frame(data, i)| == FrameWidth
  }

  /** Majority vote over the frames of a window. */
  predicate IsSpeechWindow(speechFrames: nat) {
    speechFrames > FramesPerCheck / 2
  }

  /**
   * A window is speech iff strictly more of its frames are speech than not;
   * with 50 frames that is 26 or more, and a 25-25 tie is silence.
   */
  lemma MajorityRule(speechFrames: nat)
    requires speechFrames <= FramesPerCheck
    ensures IsSpeechWindow(speechFrames) <==> speechFrames > FramesPerCheck - speechFrames
    ensures IsSpeechWindow(speechFrames) <==> speechFrames >= 26
    ensures !IsSpeechWindow(25)
  {
  }

  /**
   * A read of at most one window is accepted frame by frame iff it is a whole
   * window: any short read leaves the last frame short or empty.
   */
  lemma WellFormedIffWhole(data: Bytes)
    requires |data| <= CheckWidth
    ensures FramesWellFormed(data) <==> |data| == CheckWidth
  {
    if |data| == CheckWidth {
      FramesTile(data, FramesPerCheck);
    } else {
      var last := FramesPerCheck - 1;
      assert |Frame(data, last)| < FrameWidth;
    }
  }

  /**
   * The frame loop of one window: classifies each frame in turn and counts the
   * speech frames. It gives None when some frame is not FrameWidth bytes long,
   * which is where the classifier would raise.
   */
  method CountSpeechFrames(data: Bytes, isSpeech: Classifier, first: nat) returns (count: Option<nat>)
    ensures count.Some? <==> FramesWellFormed(data)
    ensures count.Some? ==> count.value == SpeechFrames(data, isSpeech, first, FramesPerCheck)
    ensures count.Some? ==> count.value <= FramesPerCheck
  {
    var n := 0;
    for i := 0 to FramesPerCheck
      invariant forall j :: 0 <= j < i ==> |Frame(data, j)| == FrameWidth
      invariant n == SpeechFrames(data, isSpeech, first, i)
    {
      var frame := Frame(data, i);
      if |frame| != FrameWidth {
        return None;
      }
      if isSpeech(first + i, frame) {
        n := n + 1;
      }
    }
    return Some(n);
  }
}
