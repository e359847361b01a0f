/**
 * The control skeleton of video processing: choosing the video track, and
 * the `while (!outputDone)` loop that feeds the decoder, handles each
 * decoded frame, and drains the encoder into the MP4 muxer.
 *
 * The codec, extractor and muxer are not modelled; what they answer on each
 * pass of the loop is an input to the model (a `Poll`), and what the loop does
 * with those answers is its output (a trace of `Action`s). A muxer used out of
 * order throws in Android's MediaMuxer: a second `addTrack` after `start`
 * throws `IllegalStateException`, and a sample written before `start` goes to
 * track -1 and throws `IllegalArgumentException`. The model ends the loop
 * with `Faulted` there.
 */
module FrameLoop {
  import opened Common

  /** Whether a track's MIME type (null when absent) starts with "video/". */
  predicate IsVideoMime(mime: Option<string>)
  {
    mime.Some? && "video/" <= mime.value
  }

  /**
   * selectVideoTrack: the first track whose MIME type starts with "video/",
   * or -1 when there is none.
   */
  method SelectVideoTrack(mimes: seq<Option<string>>) returns (index: int)
    ensures -1 <= index < |mimes|
    ensures index >= 0 ==> IsVideoMime(mimes[index])
    ensures forall j :: 0 <= j < |mimes| && (index < 0 || j < index) ==> !IsVideoMime(mimes[j])
  {
    for i := 0 to |mimes|
      invariant forall j :: 0 <= j < i ==> !IsVideoMime(mimes[j])
    {
      if IsVideoMime(mimes[i]) {
        return i;
      }
    }
    return -1;
  }

  /** What `dequeueInputBuffer` and then `readSampleData` answered. */
  datatype InputAnswer =
    | NoInputBuffer                                   // no free decoder input slot this pass
    | InputBuffer(sampleSize: int, sampleTime: int)   // a negative size means the extractor is exhausted

  /** What `dequeueOutputBuffer` on the decoder answered. */
  datatype DecoderAnswer =
    | NoDecoderOutput
    | DecodedBuffer(size: int, hasImage: bool, frameOk: bool, endOfStream: bool, time: int)
      // hasImage: getOutputImage was non-null; frameOk: the per-frame work did not throw

  /** What `dequeueOutputBuffer` on the encoder answered. */
  datatype EncoderAnswer =
    | NoEncoderOutput                                 // try-again and other negative statuses
    | FormatChanged(addedTrack: int)                  // the track index `muxer.addTrack` returns
    | EncodedBuffer(size: int, endOfStream: bool)

  /** Everything the environment answers during one pass of the loop. */
  datatype Poll = Poll(input: InputAnswer, decoder: DecoderAnswer, encoder: EncoderAnswer)

  /** What the loop does that can be observed from outside. */
  datatype Action =
    | QueueSample(size: int, time: int)
    | ReportProgress(time: int, totalDuration: int)   // progressCallback(time / totalDuration)
    | QueueEndOfStream
    | RenderFrame(time: int)
    | SignalEncoderEndOfStream
    | StartMuxer(track: int)
    | WriteSample(track: int, size: int)

  datatype LoopEnd = EncoderEndOfStream | Faulted | OutOfPolls

  predicate IsInputAction(a: Action)
  {
    a.QueueSample? || a.QueueEndOfStream?
  }

  /** Actions after which the decoder is fed no more (`inputDone = true`). */
  predicate EndsInput(a: Action)
  {
    a.QueueEndOfStream? || a.SignalEncoderEndOfStream?
  }

  /** A decoded buffer with data and an image: the frames `frameCount` counts. */
  predicate IsDecodedFrame(p: Poll)
  {
    p.decoder.DecodedBuffer? && p.decoder.size > 0 && p.decoder.hasImage
  }

  predicate IsEncoderEndOfStream(p: Poll)
  {
    p.encoder.EncodedBuffer? && p.encoder.endOfStream
  }

  /** Number of decoded frames among the polls, whatever became of their processing. */
  function CountFrames(polls: seq<Poll>): (n: nat)
    ensures n <= |polls|
  {
    if |polls| == 0 then 0
    else CountFrames(polls[..|polls| - 1]) + (if IsDecodedFrame(polls[|polls| - 1]) then 1 else 0)
  }

  /** Every sample write comes after the muxer was started, on the track `addTrack` returned. */
  predicate StartsBeforeWrites(trace: seq<Action>)
  {
    forall i :: 0 <= i < |trace| && trace[i].WriteSample? ==>
      exists j :: 0 <= j < i && trace[j] == StartMuxer(trace[i].track)
  }

  predicate WritesNonEmpty(trace: seq<Action>)
  {
    forall i :: 0 <= i < |trace| && trace[i].WriteSample? ==> trace[i].size > 0
  }

  /** Once the input side is closed, no sample and no second end-of-stream is queued. */
  predicate NoInputAfterEnd(trace: seq<Action>)
  {
    forall i, j :: 0 <= i < j < |trace| && EndsInput(trace[i]) ==> !IsInputAction(trace[j])
  }

  predicate SingleStart(trace: seq<Action>)
  {
    forall i, j :: 0 <= i < j < |trace| && trace[i].StartMuxer? ==> !trace[j].StartMuxer?
  }

  /** The muxer actions of a trace, in order: its starts and sample writes. */
  function MuxerPart(trace: seq<Action>): (m: seq<Action>)
    ensures |m| <= |trace|
    ensures forall i :: 0 <= i < |m| ==> m[i].StartMuxer? || m[i].WriteSample?
  {
    if |trace| == 0 then []
    else
      var a := trace[|trace| - 1];
      MuxerPart(trace[..|trace| - 1]) + (if a.StartMuxer? || a.WriteSample? then [a] else [])
  }

  lemma {:induction false} MuxerPartAppend(a: seq<Action>, b: seq<Action>)
    ensures MuxerPart(a + b) == MuxerPart(a) + MuxerPart(b)
    decreases |b|
  {
    if |b| > 0 {
      var b' := b[..|b| - 1];
      assert (a + b)[..|a + b| - 1] == a + b';
      MuxerPartAppend(a, b');
    } else {
      assert a + b == a;
    }
  }

  /** Appending actions that are neither starts nor writes leaves the muxer part as it was. */
  lemma {:induction false} NonMuxerAppend(trace: seq<Action>, extra: seq<Action>)
    requires forall i :: 0 <= i < |extra| ==> !extra[i].StartMuxer? && !extra[i].WriteSample?
    ensures MuxerPart(trace + extra) == MuxerPart(trace)
    decreases |extra|
  {
    if |extra| > 0 {
      var e' := extra[..|extra| - 1];
      assert (trace + extra)[..|trace + extra| - 1] == trace + e';
      NonMuxerAppend(trace, e');
    } else {
      assert trace + extra == trace;
    }
  }

  /** The muxer's track while started (`muxerTrackIndex` after `start`), None before. */
  function Started(muxerStarted: bool, track: int): Option<int>
  {
    if muxerStarted then Some(track) else None
  }

  /**
   * An encoder answer the muxer cannot take in its state: a second format
   * change (a second `addTrack` after `start`, `IllegalStateException`) or a
   * non-empty sample before `start` (written to track -1,
   * `IllegalArgumentException`).
   */
  predicate MisusesMuxer(started: Option<int>, e: EncoderAnswer)
  {
    (e.FormatChanged? && started.Some?) || (e.EncodedBuffer? && e.size > 0 && started.None?)
  }

  /** The muxer state after an encoder answer that does not misuse it. */
  function NextStarted(started: Option<int>, e: EncoderAnswer): (next: Option<int>)
    ensures started.Some? ==> next == started
    ensures next.Some? <==> started.Some? || e.FormatChanged?
  {
    if started.None? && e.FormatChanged? then Some(e.addedTrack) else started
  }

  /** The muxer actions one encoder answer leads to, when it does not misuse the muxer. */
  function MuxerStep(started: Option<int>, e: EncoderAnswer): (m: seq<Action>)
    ensures |m| <= 1
    ensures |m| == 1 <==> !MisusesMuxer(started, e) && (e.FormatChanged? || (e.EncodedBuffer? && e.size > 0))
  {
    match e
    case FormatChanged(track) => if started.None? then [StartMuxer(track)] else []
    case EncodedBuffer(size, _) => if size > 0 && started.Some? then [WriteSample(started.value, size)] else []
    case NoEncoderOutput => []
  }

  /** The track the muxer was started on by the first format change among the polls, if any. */
  function StartedTrack(polls: seq<Poll>): (started: Option<int>)
    ensures started.Some? <==> exists k :: 0 <= k < |polls| && polls[k].encoder.FormatChanged?
  {
    if |polls| == 0 then None
    else
      var before := polls[..|polls| - 1];
      assert forall k :: 0 <= k < |before| ==> before[k] == polls[k];
      NextStarted(StartedTrack(before), polls[|polls| - 1].encoder)
  }

  /** Whether poll `p`, coming after `before`, misuses the muxer. */
  predicate Misuse(before: seq<Poll>, p: Poll)
  {
    MisusesMuxer(StartedTrack(before), p.encoder)
  }

  /**
   * The muxer actions the polls call for: a start at the first format
   * change, then one write per non-empty encoded buffer, on that track.
   */
  function MuxerActions(polls: seq<Poll>): seq<Action>
  {
    if |polls| == 0 then []
    else
      var before := polls[..|polls| - 1];
      MuxerActions(before) + MuxerStep(StartedTrack(before), polls[|polls| - 1].encoder)
  }

  /**
   * The decoder-input part of a pass: nothing once input is done or without
   * a free slot; end of stream for a negative sample size; otherwise the
   * sample and a progress report.
   */
  function FeedActions(inputDone: bool, input: InputAnswer, totalDuration: int): (f: seq<Action>)
    ensures inputDone || input.NoInputBuffer? ==> f == []
    ensures |f| <= 2
    ensures QueueEndOfStream in f <==> !inputDone && input.InputBuffer? && input.sampleSize < 0
  {
    if inputDone || input.NoInputBuffer? then []
    else if input.sampleSize < 0 then [QueueEndOfStream]
    else [QueueSample(input.sampleSize, input.sampleTime), ReportProgress(input.sampleTime, totalDuration)]
  }

  /**
   * The decoder-output part of a pass: a decoded frame whose processing
   * succeeds is rendered, and a buffer flagged end-of-stream ends the
   * encoder's input.
   */
  function DecodeActions(output: DecoderAnswer): (d: seq<Action>)
    ensures |d| <= 2
    ensures (|d| > 0 && d[0].RenderFrame?) <==>
      output.DecodedBuffer? && output.size > 0 && output.hasImage && output.frameOk
    ensures |d| > 0 && d[0].RenderFrame? ==> d[0].time == output.time
    ensures !output.DecodedBuffer? ==> d == []
    ensures SignalEncoderEndOfStream in d <==> output.DecodedBuffer? && output.endOfStream
  {
    (if output.DecodedBuffer? && output.size > 0 && output.hasImage && output.frameOk
     then [RenderFrame(output.time)] else [])
    + (if output.DecodedBuffer? && output.endOfStream then [SignalEncoderEndOfStream] else [])
  }

  /** Whether a poll closes the input side: a negative sample size or a decoded end of stream. */
  predicate ClosesInput(p: Poll)
  {
    (p.input.InputBuffer? && p.input.sampleSize < 0) || (p.decoder.DecodedBuffer? && p.decoder.endOfStream)
  }

  /** Whether the input side is closed after a pass: it was, or the pass queued or signalled its end. */
  function InputDoneAfterPass(inputDone: bool, p: Poll): (done: bool)
    ensures inputDone ==> done
  {
    inputDone || ClosesInput(p)
  }

  /** The input side closes in a pass exactly when the pass queues or signals the end of the input. */
  lemma PassClosesInput(inputDone: bool, p: Poll, totalDuration: int)
    ensures InputDoneAfterPass(inputDone, p) <==>
      inputDone || QueueEndOfStream in FeedActions(inputDone, p.input, totalDuration)
      || SignalEncoderEndOfStream in DecodeActions(p.decoder)
  {
  }

  /**
   * Everything one pass does: feed the decoder, handle its output, then the
   * muxer's start or write. When the encoder's answer misuses the muxer the
   * muxer part is empty: the throw comes after the decoder part.
   */
  function PassActions(inputDone: bool, started: Option<int>, p: Poll, totalDuration: int): (a: seq<Action>)
    ensures |a| <= 5
    ensures MisusesMuxer(started, p.encoder) ==>
      a == FeedActions(inputDone, p.input, totalDuration) + DecodeActions(p.decoder)
  {
    FeedActions(inputDone, p.input, totalDuration) + DecodeActions(p.decoder) + MuxerStep(started, p.encoder)
  }

  /** Whether the input side is closed after the passes over `polls`. */
  function InputDoneAfter(polls: seq<Poll>): bool
  {
    |polls| > 0 && InputDoneAfterPass(InputDoneAfter(polls[..|polls| - 1]), polls[|polls| - 1])
  }

  /** The input side is closed after the passes over `polls` exactly when one of them closed it. */
  lemma {:induction false} InputDoneAt(polls: seq<Poll>)
    ensures InputDoneAfter(polls) <==> exists k :: 0 <= k < |polls| && ClosesInput(polls[k])
  {
    if |polls| > 0 {
      var before := polls[..|polls| - 1];
      InputDoneAt(before);
      assert forall k :: 0 <= k < |before| ==> before[k] == polls[k];
    }
  }

  /** Everything the passes over `polls` do, in order. */
  function LoopActions(polls: seq<Poll>, totalDuration: int): seq<Action>
  {
    if |polls| == 0 then []
    else
      var before := polls[..|polls| - 1];
      LoopActions(before, totalDuration)
      + PassActions(InputDoneAfter(before), StartedTrack(before), polls[|polls| - 1], totalDuration)
  }

  /** The muxer's part of one pass is its muxer step. */
  lemma PassMuxerPart(inputDone: bool, started: Option<int>, p: Poll, totalDuration: int)
    ensures MuxerPart(PassActions(inputDone, started, p, totalDuration)) == MuxerStep(started, p.encoder)
  {
    var side: seq<Action> := FeedActions(inputDone, p.input, totalDuration) + DecodeActions(p.decoder);
    var step := MuxerStep(started, p.encoder);
    assert MuxerPart(side) == [] by {
      assert forall i :: 0 <= i < |side| ==> !side[i].StartMuxer? && !side[i].WriteSample?;
      NonMuxerAppend([], side);
      assert [] + side == side;
    }
    assert MuxerPart(step) == step by {
      if |step| == 1 {
        assert step[0].StartMuxer? || step[0].WriteSample?;
        assert step[..0] == [];
      }
    }
    MuxerPartAppend(side, step);
  }

  /** The muxer's part of everything the loop does is exactly the muxer actions the polls call for. */
  lemma {:induction false} LoopMuxerPart(polls: seq<Poll>, totalDuration: int)
    ensures MuxerPart(LoopActions(polls, totalDuration)) == MuxerActions(polls)
  {
    if |polls| > 0 {
      var before := polls[..|polls| - 1];
      LoopMuxerPart(before, totalDuration);
      var pass := PassActions(InputDoneAfter(before), StartedTrack(before), polls[|polls| - 1], totalDuration);
      MuxerPartAppend(LoopActions(before, totalDuration), pass);
      PassMuxerPart(InputDoneAfter(before), StartedTrack(before), polls[|polls| - 1], totalDuration);
    }
  }

  /**
   * What the loop's local state says about the trace so far: the four trace
   * properties, the input side closed once an end-of-input action was taken,
   * and the muxer started exactly when a `StartMuxer` is in the trace.
   */
  predicate Consistent(trace: seq<Action>, inputDone: bool, muxerStarted: bool, muxerTrack: int, startAt: nat)
  {
    && StartsBeforeWrites(trace) && WritesNonEmpty(trace)
    && NoInputAfterEnd(trace) && SingleStart(trace)
    && (forall i :: 0 <= i < |trace| && EndsInput(trace[i]) ==> inputDone)
    && (muxerStarted ==> startAt < |trace| && trace[startAt] == StartMuxer(muxerTrack))
    && (!muxerStarted ==> forall i :: 0 <= i < |trace| ==> !trace[i].StartMuxer? && !trace[i].WriteSample?)
  }

  /**
   * Taking one more action the loop allows in its state keeps the trace
   * consistent with the state that action leads to.
   */
  lemma Extend(trace: seq<Action>, a: Action, inputDone: bool, muxerStarted: bool, muxerTrack: int, startAt: nat)
    requires Consistent(trace, inputDone, muxerStarted, muxerTrack, startAt)
    requires IsInputAction(a) ==> !inputDone
    requires a.StartMuxer? ==> !muxerStarted
    requires a.WriteSample? ==> muxerStarted && a.track == muxerTrack && a.size > 0
    ensures Consistent(trace + [a], inputDone || EndsInput(a), muxerStarted || a.StartMuxer?,
                       if a.StartMuxer? then a.track else muxerTrack, if a.StartMuxer? then |trace| else startAt)
  {
    var t := trace + [a];
    forall i | 0 <= i < |t| && t[i].WriteSample?
      ensures exists j :: 0 <= j < i && t[j] == StartMuxer(t[i].track)
    {
      if i < |trace| {
        var j :| 0 <= j < i && trace[j] == StartMuxer(trace[i].track);
        assert t[j] == trace[j];
      } else {
        assert t[startAt] == StartMuxer(t[i].track);
      }
    }
  }

  /**
   * First step of a pass: while the input side is open and the decoder has a
   * free slot, queue the next sample (and report progress) or, once the
   * extractor is exhausted, queue end-of-stream and close the input side.
   */
  method FeedDecoder(input: InputAnswer, totalDuration: int, trace: seq<Action>, inputDone: bool,
                     ghost muxerStarted: bool, ghost muxerTrack: int, ghost startAt: nat)
    returns (trace': seq<Action>, inputDone': bool)
    requires Consistent(trace, inputDone, muxerStarted, muxerTrack, startAt)
    ensures Consistent(trace', inputDone', muxerStarted, muxerTrack, startAt)
    ensures inputDone ==> trace' == trace && inputDone'
    ensures inputDone' <==> inputDone || (input.InputBuffer? && input.sampleSize < 0)
    ensures !inputDone && input.InputBuffer? && input.sampleSize < 0 ==> trace' == trace + [QueueEndOfStream]
    ensures !inputDone && input.InputBuffer? && input.sampleSize >= 0 ==>
      trace' == trace + [QueueSample(input.sampleSize, input.sampleTime),
                         ReportProgress(input.sampleTime, totalDuration)]
    ensures input.NoInputBuffer? ==> trace' == trace
    ensures trace' == trace + FeedActions(inputDone, input, totalDuration)
    ensures MuxerPart(trace') == MuxerPart(trace)
  {
    trace', inputDone' := trace, inputDone;
    if !inputDone && input.InputBuffer? {
      if input.sampleSize < 0 {
        Extend(trace, QueueEndOfStream, inputDone, muxerStarted, muxerTrack, startAt);
        trace', inputDone' := trace + [QueueEndOfStream], true;
        NonMuxerAppend(trace, [QueueEndOfStream]);
      } else {
        var queued := QueueSample(input.sampleSize, input.sampleTime);
        Extend(trace, queued, inputDone, muxerStarted, muxerTrack, startAt);
        var progress := ReportProgress(input.sampleTime, totalDuration);
        Extend(trace + [queued], progress, inputDone, muxerStarted, muxerTrack, startAt);
        trace' := trace + [queued] + [progress];
        assert trace' == trace + [queued, progress];
        NonMuxerAppend(trace, [queued, progress]);
      }
    }
  }

  /**
   * Second step: a decoded buffer with data and an image is processed and
   * counted, whether or not its processing throws; a buffer flagged
   * end-of-stream closes the input side and signals the encoder.
   */
  method HandleDecoded(output: DecoderAnswer, trace: seq<Action>, inputDone: bool,
                       ghost muxerStarted: bool, ghost muxerTrack: int, ghost startAt: nat)
    returns (trace': seq<Action>, inputDone': bool, counted: bool)
    requires Consistent(trace, inputDone, muxerStarted, muxerTrack, startAt)
    ensures Consistent(trace', inputDone', muxerStarted, muxerTrack, startAt)
    ensures counted <==> output.DecodedBuffer? && output.size > 0 && output.hasImage
    ensures inputDone' <==> inputDone || (output.DecodedBuffer? && output.endOfStream)
    ensures trace' == trace + (if counted && output.frameOk then [RenderFrame(output.time)] else [])
                            + (if output.DecodedBuffer? && output.endOfStream then [SignalEncoderEndOfStream] else [])
    ensures trace' == trace + DecodeActions(output)
    ensures MuxerPart(trace') == MuxerPart(trace)
  {
    trace', inputDone' := trace, inputDone;
    counted := output.DecodedBuffer? && output.size > 0 && output.hasImage;
    ghost var rendered: seq<Action> := [];
    if counted && output.frameOk {
      Extend(trace, RenderFrame(output.time), inputDone, muxerStarted, muxerTrack, startAt);
      NonMuxerAppend(trace, [RenderFrame(output.time)]);
      rendered := [RenderFrame(output.time)];
      trace' := trace + [RenderFrame(output.time)];
    }
    ghost var ended: seq<Action> := [];
    if output.DecodedBuffer? && output.endOfStream {
      Extend(trace', SignalEncoderEndOfStream, inputDone, muxerStarted, muxerTrack, startAt);
      NonMuxerAppend(trace', [SignalEncoderEndOfStream]);
      ended := [SignalEncoderEndOfStream];
      trace', inputDone' := trace' + [SignalEncoderEndOfStream], true;
    }
    assert rendered == if counted && output.frameOk then [RenderFrame(output.time)] else [];
    assert ended == if output.DecodedBuffer? && output.endOfStream then [SignalEncoderEndOfStream] else [];
    assert DecodeActions(output) == rendered + ended;
    AppendAssoc(trace, rendered, ended);
  }

  /**
   * Third step: a format change adds the track and starts the muxer; an
   * encoded buffer with data is written to the muxer's track, and one flagged
   * end-of-stream ends the loop. Misusing the muxer faults and changes nothing.
   */
  method DrainEncoder(status: EncoderAnswer, trace: seq<Action>, ghost inputDone: bool,
                      muxerStarted: bool, muxerTrack: int, ghost startAt: nat)
    returns (trace': seq<Action>, muxerStarted': bool, muxerTrack': int, ghost startAt': nat,
             faulted: bool, outputDone: bool)
    requires Consistent(trace, inputDone, muxerStarted, muxerTrack, startAt)
    ensures Consistent(trace', inputDone, muxerStarted', muxerTrack', startAt')
    ensures faulted <==> (status.FormatChanged? && muxerStarted)
                         || (status.EncodedBuffer? && status.size > 0 && !muxerStarted)
    ensures faulted ==> trace' == trace
    ensures outputDone <==> !faulted && status.EncodedBuffer? && status.endOfStream
    ensures !faulted && status.FormatChanged? ==>
      trace' == trace + [StartMuxer(status.addedTrack)] && muxerStarted' && muxerTrack' == status.addedTrack
    ensures !status.FormatChanged? ==> muxerStarted' == muxerStarted && muxerTrack' == muxerTrack
    ensures !faulted && status.EncodedBuffer? ==>
      trace' == trace + (if status.size > 0 then [WriteSample(muxerTrack, status.size)] else [])
    ensures status.NoEncoderOutput? ==> trace' == trace
    ensures faulted <==> MisusesMuxer(Started(muxerStarted, muxerTrack), status)
    ensures !faulted ==> Started(muxerStarted', muxerTrack') == NextStarted(Started(muxerStarted, muxerTrack), status)
    ensures !faulted ==> MuxerPart(trace') == MuxerPart(trace) + MuxerStep(Started(muxerStarted, muxerTrack), status)
    ensures trace' == trace + MuxerStep(Started(muxerStarted, muxerTrack), status)
    ensures faulted ==> muxerStarted' == muxerStarted && muxerTrack' == muxerTrack
  {
    trace', muxerStarted', muxerTrack', startAt' := trace, muxerStarted, muxerTrack, startAt;
    faulted, outputDone := false, false;
    match status {
      case NoEncoderOutput =>
      case FormatChanged(track) =>
        if muxerStarted {
          faulted := true;
          return;
        }
        Extend(trace, StartMuxer(track), inputDone, muxerStarted, muxerTrack, startAt);
        trace', muxerStarted', muxerTrack', startAt' := trace + [StartMuxer(track)], true, track, |trace|;
        MuxerPartAppend(trace, [StartMuxer(track)]);
      case EncodedBuffer(size, eos) =>
        if size > 0 {
          if !muxerStarted {
            faulted := true;
            return;
          }
          Extend(trace, WriteSample(muxerTrack, size), inputDone, muxerStarted, muxerTrack, startAt);
          trace' := trace + [WriteSample(muxerTrack, size)];
          MuxerPartAppend(trace, [WriteSample(muxerTrack, size)]);
        }
        outputDone := eos;
    }
  }

  /** The decoder's half of a pass: feed its input, then handle its output. */
  method DecoderSide(poll: Poll, totalDuration: int, trace: seq<Action>, inputDone: bool,
                     ghost muxerStarted: bool, ghost muxerTrack: int, ghost startAt: nat)
    returns (trace': seq<Action>, inputDone': bool, counted: bool)
    requires Consistent(trace, inputDone, muxerStarted, muxerTrack, startAt)
    ensures Consistent(trace', inputDone', muxerStarted, muxerTrack, startAt)
    ensures counted <==> IsDecodedFrame(poll)
    ensures inputDone' == InputDoneAfterPass(inputDone, poll)
    ensures trace' == trace + FeedActions(inputDone, poll.input, totalDuration) + DecodeActions(poll.decoder)
    ensures MuxerPart(trace') == MuxerPart(trace)
  {
    trace', inputDone' := FeedDecoder(poll.input, totalDuration, trace, inputDone,
                                      muxerStarted, muxerTrack, startAt);
    trace', inputDone', counted := HandleDecoded(poll.decoder, trace', inputDone',
                                                 muxerStarted, muxerTrack, startAt);
  }

  /**
   * One pass of the `while (!outputDone)` loop: feed the decoder, handle its
   * output, drain the encoder. `faulted` is the muxer throwing.
   */
  method LoopPass(poll: Poll, totalDuration: int, trace: seq<Action>, inputDone: bool,
                  muxerStarted: bool, muxerTrack: int, ghost startAt: nat)
    returns (trace': seq<Action>, inputDone': bool, muxerStarted': bool, muxerTrack': int, ghost startAt': nat,
             counted: bool, faulted: bool, outputDone: bool)
    requires Consistent(trace, inputDone, muxerStarted, muxerTrack, startAt)
    ensures Consistent(trace', inputDone', muxerStarted', muxerTrack', startAt')
    ensures counted <==> IsDecodedFrame(poll)
    ensures faulted <==> MisusesMuxer(Started(muxerStarted, muxerTrack), poll.encoder)
    ensures outputDone <==> !faulted && IsEncoderEndOfStream(poll)
    ensures Started(muxerStarted', muxerTrack') == NextStarted(Started(muxerStarted, muxerTrack), poll.encoder)
    ensures !faulted ==> MuxerPart(trace') == MuxerPart(trace) + MuxerStep(Started(muxerStarted, muxerTrack), poll.encoder)
    ensures faulted ==> MuxerPart(trace') == MuxerPart(trace)
    ensures trace' == trace + PassActions(inputDone, Started(muxerStarted, muxerTrack), poll, totalDuration)
    ensures inputDone' == InputDoneAfterPass(inputDone, poll)
  {
    trace', inputDone', counted := DecoderSide(poll, totalDuration, trace, inputDone,
                                               muxerStarted, muxerTrack, startAt);
    ghost var decoded := trace';
    trace', muxerStarted', muxerTrack', startAt', faulted, outputDone :=
      DrainEncoder(poll.encoder, trace', inputDone', muxerStarted, muxerTrack, startAt);
    PassTrace(trace, decoded, trace', inputDone, Started(muxerStarted, muxerTrack), poll, totalDuration);
  }

  /** The decoder's half of a pass followed by the muxer step appends the pass's actions. */
  lemma PassTrace(trace: seq<Action>, decoded: seq<Action>, drained: seq<Action>,
                  inputDone: bool, started: Option<int>, p: Poll, totalDuration: int)
    requires decoded == trace + FeedActions(inputDone, p.input, totalDuration) + DecodeActions(p.decoder)
    requires drained == decoded + MuxerStep(started, p.encoder)
    ensures drained == trace + PassActions(inputDone, started, p, totalDuration)
  {
    var f, d, m := FeedActions(inputDone, p.input, totalDuration), DecodeActions(p.decoder), MuxerStep(started, p.encoder);
    AppendAssoc(trace, f, d);
    AppendAssoc(trace, f + d, m);
  }

  /** Appending two runs of actions one after the other appends their concatenation. */
  lemma AppendAssoc(t: seq<Action>, a: seq<Action>, b: seq<Action>)
    ensures t + a + b == t + (a + b)
  {
  }

  /** Whether poll `p`, coming after `before`, ends the loop: end of stream or a throw. */
  predicate Stops(before: seq<Poll>, p: Poll)
  {
    IsEncoderEndOfStream(p) || Misuse(before, p)
  }

  /** Whether some pass over `polls` ends the loop. */
  predicate Halts(polls: seq<Poll>)
  {
    |polls| > 0 && (Halts(polls[..|polls| - 1]) || Stops(polls[..|polls| - 1], polls[|polls| - 1]))
  }

  /** `Halts` holds exactly when some poll, after the ones before it, stops the loop. */
  lemma {:induction false} HaltsAt(polls: seq<Poll>)
    ensures Halts(polls) <==> exists k :: 0 <= k < |polls| && Stops(polls[..k], polls[k])
  {
    if |polls| > 0 {
      var before := polls[..|polls| - 1];
      HaltsAt(before);
      assert forall k :: 0 <= k < |before| ==> before[..k] == polls[..k] && before[k] == polls[k];
    }
  }

  /** One more pass: the reference functions over the polls extend by that poll. */
  lemma PrefixStep(polls: seq<Poll>, c: nat, totalDuration: int)
    requires c < |polls|
    ensures CountFrames(polls[..c + 1]) == CountFrames(polls[..c]) + (if IsDecodedFrame(polls[c]) then 1 else 0)
    ensures StartedTrack(polls[..c + 1]) == NextStarted(StartedTrack(polls[..c]), polls[c].encoder)
    ensures MuxerActions(polls[..c + 1]) == MuxerActions(polls[..c]) + MuxerStep(StartedTrack(polls[..c]), polls[c].encoder)
    ensures Halts(polls[..c + 1]) <==> Halts(polls[..c]) || Stops(polls[..c], polls[c])
    ensures InputDoneAfter(polls[..c + 1]) == InputDoneAfterPass(InputDoneAfter(polls[..c]), polls[c])
    ensures LoopActions(polls[..c + 1], totalDuration) ==
      LoopActions(polls[..c], totalDuration)
      + PassActions(InputDoneAfter(polls[..c]), StartedTrack(polls[..c]), polls[c], totalDuration)
  {
    assert polls[..c + 1][..c] == polls[..c];
  }

  /** `Halts` over the first `c` polls, unfolded once. */
  lemma HaltsLast(polls: seq<Poll>, c: nat)
    requires 0 < c <= |polls|
    ensures Halts(polls[..c]) <==> Halts(polls[..c - 1]) || Stops(polls[..c - 1], polls[c - 1])
  {
    assert polls[..c][..c - 1] == polls[..c - 1];
  }

  /** A pass that misuses the muxer calls for no muxer action. */
  lemma FaultAddsNoMuxerActions(polls: seq<Poll>, c: nat)
    requires 0 < c <= |polls| && Misuse(polls[..c - 1], polls[c - 1])
    ensures MuxerActions(polls[..c]) == MuxerActions(polls[..c - 1])
  {
    assert polls[..c][..c - 1] == polls[..c - 1];
  }

  /**
   * The `while (!outputDone)` loop of processFrames, run over the
   * environment's answers until the encoder signals end-of-stream, a pass
   * misuses the muxer (`faulted`, the throw), or the polls run out.
   * `consumed` is the number of passes made.
   */
  method RunPasses(polls: seq<Poll>, totalDuration: int)
    returns (trace: seq<Action>, frameCount: nat, consumed: nat, outputDone: bool, faulted: bool)
    ensures consumed <= |polls|
    ensures outputDone || faulted || consumed == |polls|
    ensures StartsBeforeWrites(trace) && WritesNonEmpty(trace)
    ensures NoInputAfterEnd(trace) && SingleStart(trace)
    ensures frameCount == CountFrames(polls[..consumed])
    ensures !outputDone && !faulted ==> !Halts(polls[..consumed])
    ensures outputDone || faulted ==> consumed > 0 && !Halts(polls[..consumed - 1])
    ensures outputDone ==> !faulted && IsEncoderEndOfStream(polls[consumed - 1])
                           && !Misuse(polls[..consumed - 1], polls[consumed - 1])
    ensures faulted ==> Misuse(polls[..consumed - 1], polls[consumed - 1])
    ensures MuxerPart(trace) == MuxerActions(polls[..consumed])
    ensures trace == LoopActions(polls[..consumed], totalDuration)
  {
    trace, frameCount, consumed := [], 0, 0;
    var inputDone := false;
    outputDone, faulted := false, false;
    var muxerTrackIndex, muxerStarted := -1, false;
    ghost var startAt: nat := 0;
    ghost var last: nat := 0;
    while !outputDone && !faulted && consumed < |polls|
      invariant consumed <= |polls|
      invariant Consistent(trace, inputDone, muxerStarted, muxerTrackIndex, startAt)
      invariant frameCount == CountFrames(polls[..consumed])
      invariant !outputDone && !faulted ==> !Halts(polls[..consumed])
      invariant outputDone || faulted ==> consumed == last + 1 && !Halts(polls[..last])
      invariant outputDone ==> !faulted && IsEncoderEndOfStream(polls[last]) && !Misuse(polls[..last], polls[last])
      invariant faulted ==> Misuse(polls[..last], polls[last])
      invariant StartedTrack(polls[..consumed]) == Started(muxerStarted, muxerTrackIndex)
      invariant MuxerPart(trace) == MuxerActions(polls[..consumed])
      invariant trace == LoopActions(polls[..consumed], totalDuration)
      invariant inputDone == InputDoneAfter(polls[..consumed])
    {
      PrefixStep(polls, consumed, totalDuration);
      var counted;
      trace, inputDone, muxerStarted, muxerTrackIndex, startAt, counted, faulted, outputDone :=
        LoopPass(polls[consumed], totalDuration, trace, inputDone, muxerStarted, muxerTrackIndex, startAt);
      last, consumed := consumed, consumed + 1;
      if counted {
        frameCount := frameCount + 1;
      }
    }
  }

  /**
   * processFrames over the environment's answers: the loop ends at the first
   * encoder buffer flagged end-of-stream, unless a pass misuses the muxer
   * first, which throws (`Faulted`); with too few polls it is cut off
   * (`OutOfPolls`), where the real loop would keep polling. The muxer is
   * started at the first format change and every non-empty encoded buffer is
   * written to its track.
   */
  method ProcessFrames(polls: seq<Poll>, totalDuration: int)
    returns (trace: seq<Action>, frameCount: nat, consumed: nat, end: LoopEnd)
    ensures consumed <= |polls|
    ensures StartsBeforeWrites(trace) && WritesNonEmpty(trace)
    ensures NoInputAfterEnd(trace) && SingleStart(trace)
    ensures frameCount == CountFrames(polls[..consumed])
    ensures end != OutOfPolls ==> consumed > 0
    ensures end == OutOfPolls ==> consumed == |polls|
    ensures end == Faulted <==> consumed > 0 && Misuse(polls[..consumed - 1], polls[consumed - 1])
    ensures end == EncoderEndOfStream <==>
      consumed > 0 && IsEncoderEndOfStream(polls[consumed - 1]) && !Misuse(polls[..consumed - 1], polls[consumed - 1])
    ensures consumed > 0 ==> !Halts(polls[..consumed - 1])
    ensures end == OutOfPolls ==> !Halts(polls)
    ensures end != Faulted ==> MuxerPart(trace) == MuxerActions(polls[..consumed])
    ensures end == Faulted ==> consumed > 0 && MuxerPart(trace) == MuxerActions(polls[..consumed - 1])
    ensures trace == LoopActions(polls[..consumed], totalDuration)
  {
    var outputDone, faulted;
    trace, frameCount, consumed, outputDone, faulted := RunPasses(polls, totalDuration);
    end := if faulted then Faulted else if outputDone then EncoderEndOfStream else OutOfPolls;
    if faulted {
      FaultAddsNoMuxerActions(polls, consumed);
    } else if !outputDone {
      assert polls[..consumed] == polls;
      if consumed > 0 {
        HaltsLast(polls, consumed);
      }
    }
  }
}
