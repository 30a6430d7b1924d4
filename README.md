# Streaming speech segmenter

A Dafny model of the read loop of `AudioStream.process_audio_stream`. The loop
reads a 16 kHz mono 16-bit PCM capture stream in 500 ms windows of 16000 bytes
and splits each window into 50 frames of 10 ms (320 bytes). A window counts as
speech when a strict majority of its frames do.

Speech windows are appended to a buffer capped at 7500 ms (15 windows). Every
window that is not appended adds 500 ms to a silence counter. When that counter
passes 2000 ms and the buffer is non-empty, the buffer is flushed to
transcription. When the stream ends, whatever is left in the buffer is flushed
once more.

The project has these modules:

- `Pcm` (`pcm.dfy`): the byte layout. It holds the constants, Python slice
  semantics, the frames of a window, and how a stream splits into windows and
  a leftover.
- `Vad` (`vad.dfy`): the per-frame vote. `CountSpeechFrames` is the inner
  counting loop, and `IsSpeechWindow` is the majority rule.
- `Segmenter` (`segmenter.dfy`): the transition function and its run over a
  sequence of classified windows. `Step` models one iteration's
  buffer/silence update and is the pure specification. `Update` is the same
  update written as the source's in-place if/else. `Run` folds `Step` over the
  windows.
- `AudioStream` (`audio_stream.dfy`): the whole loop. `ProcessAudioStream` is
  the imperative `while True` loop over the stream. It is proved equal to the
  pure `Session`, about which the session-level properties are proved.
- `Seqs` (`seqs.dfy`) and `Wrappers` (`wrappers.dfy`): sequence helpers and
  `Option`.

Several things are parameters or recorded values:

- The per-frame voice-activity classifier is a parameter,
  `isSpeech: Vad.Classifier`. It maps a frame's number in the stream and its
  320 bytes to a verdict. The webrtcvad classifier keeps state between calls:
  it adapts to the noise level and holds over after speech. Its verdict on a
  frame can therefore depend on every earlier frame. On a fixed stream, that
  history is fixed by the frame's number, so indexing by that number can
  represent any sequence of verdicts such a classifier could give.
- The capture stream is a parameter: the complete byte sequence the pipe
  delivers.
- Each transcription request is recorded in a `Report` as the sequence of
  windows it would carry.

The model follows the code in two places where the intended design reads
differently:

- A speech window that arrives while the buffer is at its 7500 ms cap fails
  the test at main2.py:60. It takes the `else` branch: it counts as 500 ms of
  silence, can cause a flush, and does not reset the counter.
- The flush test is strict (`> 2000`) and the counter moves in 500 ms steps.
  After speech, the flush therefore fires on the 5th consecutive window that
  is not appended, not the 4th.

## Model

| member | source | states |
|---|---|---|
| Pcm.SourceConstants | main2.py:40-43 | frame width 320 bytes = 2 bytes x 16000 Hz x 10 ms; window width 16000 = 320 x 50 frames; a window lasts 500 ms = 10 ms x 50, which is also its byte width divided by 32 bytes per ms |
| Pcm.Frame | main2.py:55 | frame i of a read is at most 320 bytes; it is exactly bytes `[320i, 320(i+1))` when the read is long enough, and empty when the read ends before byte 320i |
| Pcm.Leftover | main2.py:48-49 | the short read that ends the stream: the bytes after its last whole window, fewer than 16000 |
| Pcm.Slice | main2.py:55 | Python slice semantics: the result has `min(hi,len) - min(lo,len)` elements (none when `hi < lo`), and its k-th element is `data[lo+k]` |
| Pcm.FramesTile | main2.py:54-55 | on a whole window, frame i is exactly bytes `[320i, 320(i+1))`, and frames 0..k-1 concatenated are the first 320k bytes, so the 50 frames tile the window with no gap or overlap |
| Pcm.Windows | main2.py:47-50 | every window read from the stream is exactly 16000 bytes |
| Pcm.StreamSplit | main2.py:47-50 | the windows read, concatenated, followed by the partial last read, give back the whole stream; there are `len / 16000` windows and the leftover is `len % 16000` bytes |
| Vad.SpeechFrames | main2.py:53-57 | the number of frames among the first k that the classifier calls speech, numbering them from the window's first frame number in the stream; at most k |
| Vad.CountSpeechFrames | main2.py:53-57 | the counting loop returns a count iff all 50 frames are 320 bytes long (otherwise the classifier rejects a frame); the count is the number of frames the classifier calls speech, at most 50 |
| Vad.WellFormedIffWhole | main2.py:48-56 | a read of at most 16000 bytes has all 50 frames of full width iff it is a whole 16000-byte window |
| Vad.IsSpeechWindow | main2.py:58 | the majority vote: a window is speech when its speech-frame count exceeds `50 // 2` |
| Vad.MajorityRule | main2.py:58 | a window is speech iff its speech frames outnumber its non-speech frames, i.e. iff at least 26 of 50 are speech; exactly 25 is silence |
| Segmenter.CapConstants | main2.py:60 | the 7500 ms cap is `frames_per_check*10*15`, i.e. 15 windows of 500 ms |
| Segmenter.Step | main2.py:60-78 | a window is appended iff it is speech and the buffer holds fewer than 15 windows; appending adds it at the end and resets the counter to 0; otherwise the counter grows by 500 ms, and a flush happens iff the buffer is non-empty and the counter then exceeds 2000 ms; a flush carries the whole buffer and leaves an empty buffer and a zero counter |
| Segmenter.Run | main2.py:47-78 | the loop's buffer and counter over a sequence of classified windows: `Step` applied to each window in order, collecting the flushes in order |
| Segmenter.Update | main2.py:60-78 | the in-place if/else update of buffer and counter produces the state and flush that `Step` specifies |
| Segmenter.RunKeepsValid | main2.py:60-78 | from a valid state, every run keeps the buffer at most 15 windows (7500 ms) and the counter a multiple of 500 that is at most 2000 while the buffer is non-empty; every flush carries 1 to 15 windows, and there is at most one flush per window |
| Segmenter.RunKeepsWhole | main2.py:48-63 | if the buffer and every window are whole 16000-byte reads, so are the final buffer and every flushed window |
| Segmenter.ContentPreserved | main2.py:60-78 | flushed segments concatenated in order, followed by the final buffer, are the initial buffer followed by exactly the appended windows in input order: nothing is lost, duplicated or reordered |
| Segmenter.KeptAreSpeech | main2.py:60-63 | the appended windows are a subsequence of the speech windows |
| Segmenter.AllSpeechKept | main2.py:60-63 | if the buffer holds fewer than 15 windows whenever a speech window arrives, every speech window is appended: the appended windows are exactly the speech windows, across any number of flushes |
| Segmenter.AllSpeechKeptBelowCap | main2.py:60-63 | if the starting buffer plus all the speech windows of the run number at most 15, every speech window is appended |
| Segmenter.RunAppend | main2.py:47 | running two window sequences one after the other is running their concatenation; the flushes concatenate |
| Segmenter.QuietRun | main2.py:66-71 | with a non-empty buffer, windows that are not appended only add 500 ms each and flush nothing while the counter stays at or below 2000 |
| Segmenter.FlushOnThresholdWindow | main2.py:66-78 | from a valid state with a non-empty buffer, the flush comes on window `(2000 - counter)/500 + 1` of an unbroken run of non-appended windows (the 5th right after speech) and on no earlier window; it carries the buffer and leaves the idle state |
| Segmenter.IdleRun | main2.py:66-71 | while the buffer is empty, silent windows never flush and the counter grows by 500 per window without bound |
| Segmenter.SpeechRun | main2.py:60-64 | speech windows that fit under the cap are all appended in order, the counter ends at 0, and nothing is flushed |
| Segmenter.CappedSpeechFlushes | main2.py:60-78 | with a full buffer and the counter at 0, five more speech windows are all treated as silence: none is appended, and the fifth flushes the full buffer |
| Segmenter.FiveSpeechThenFiveSilence | main2.py:60-78 | from the idle state, five speech windows followed by five silent ones produce no flush in the first nine windows and exactly one flush, of the five speech windows, on the tenth |
| AudioStream.Classify | main2.py:53-58 | a whole window with its verdict: speech iff more than half of its 50 frames are classified speech, its frames numbered from the given first frame number |
| AudioStream.FinalFlush | main2.py:80-86 | the flush after the loop happens iff the buffer is non-empty (its length in ms is positive), and it carries the buffer |
| AudioStream.Session | main2.py:47-86 | the whole session on a stream: `Run` from the empty state over the stream's classified whole windows (window i starting at frame 50i); the final flush when the stream ends on a window boundary, and a rejected frame with no final flush otherwise |
| AudioStream.ProcessAudioStream | main2.py:40-86 | the read loop (whole windows, per-frame count, majority vote, buffer/counter update, mid-stream flushes, final flush) produces exactly the report of `Session` on the stream |
| AudioStream.SessionEnding | main2.py:47-56 | a session ends normally iff the stream length is a multiple of 16000; it classifies `len / 16000` windows either way |
| AudioStream.SessionFinalFlush | main2.py:80-86 | the final flush happens iff the stream ended normally with a non-empty buffer, and it carries that buffer |
| AudioStream.SessionContent | main2.py:60-86 | everything sent to transcription, in order, is exactly the appended windows when the stream ends normally, and a prefix of them otherwise; those are a subsequence of the speech windows, and all of them when there are at most 15 |
| AudioStream.SessionSegmentsBounded | main2.py:60-86 | every transcription request, mid-stream or final, carries 1 to 15 whole 16000-byte windows |

## Left out

- The ffmpeg capture process (main2.py:27-38, 88) is process I/O. The bytes it
  writes to the pipe are the `stream` parameter. The model takes a read to
  return a short chunk only at the end of the stream, so a whole stream is read
  as `len / 16000` full windows and one partial read.
- The webrtcvad classifier and its mode setting (main2.py:14-15, 56) belong to
  a foreign library. They are the `isSpeech` oracle, indexed by frame number
  as described above. It is handed only 320-byte frames. Every frame shorter
  than 320 bytes is rejected, as the library rejects it; that is the only
  other frame length this loop can produce.
- The rejection itself is modelled as ending the session with
  `FrameRejected`, no final flush, and the flushes made so far. The exception
  it raises is not modelled.
- The OpenAI client, `transcribe_audio` and the printed results
  (main2.py:16-24, 75-76, 85-86) are a network call. Each call is recorded as
  the windows it would send. A failing call, which would end the loop with an
  exception, is not modelled.
- The pydub `AudioSegment` construction and mp3 export (main2.py:62, 72-74,
  82-84) are a foreign codec. The buffer is the sequence of windows appended to
  it. Its length in milliseconds is 500 per window, which holds because every
  appended window is a whole 16000-byte read.
- All of main.py is left out. It covers process start and stop, the ticker
  thread, the signal handler and platform detection: concurrency, signals and
  I/O with no segmenting logic.
