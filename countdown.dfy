/**
 * The countdown state of `MyApp` in MainActivity.kt: one integer,
 * `countdownMillis`, and the handle of the coroutine launched when a drag
 * stops, `currentCountdown`. The coroutine is modelled as a resumable job: it
 * waits for a first frame (its start time), then on every later frame sets the
 * countdown to `max(0, startCountdown - elapsed)` until that value is 0.
 *
 * The transitions are pure functions on State; class Timer holds the two
 * state fields and performs the same transitions in place.
 */
module Countdown {
  import opened Wrappers
  import TimeFormat

  /** Where the launched coroutine stands. */
  datatype Phase =
    | AwaitingStart                                   // launched, waiting for the frame that fixes startTime
    | Counting(startTime: int, startCountdown: int)   // inside the do-while loop
    | Finished                                        // the loop exited because the value reached 0

  datatype Job = Job(phase: Phase, cancelled: bool)

  datatype State = State(countdownMillis: int, currentCountdown: Option<Job>)

  /** Both state holders as `remember` creates them. */
  const Initial: State := State(0, None)

  /** A job that will still react to frames: launched, not cancelled, not finished. */
  predicate Running(job: Option<Job>)
  {
    job.Some? && !job.value.cancelled && !job.value.phase.Finished?
  }

  /** `onDelta`: the rounded millisecond delta is added, with no lower bound. */
  function Delta(s: State, deltaMillis: int): State
  {
    s.(countdownMillis := s.countdownMillis + deltaMillis)
  }

  /** `Job.cancel()`: marks the job cancelled; a job that has completed stays completed. */
  function Cancel(job: Option<Job>): Option<Job>
  {
    match job
    case None => None
    case Some(j) => Some(if j.phase.Finished? then j else j.(cancelled := true))
  }

  /** `onDragStarted`: `currentCountdown.value?.cancel()`. */
  function DragStarted(s: State): State
  {
    s.(currentCountdown := Cancel(s.currentCountdown))
  }

  /** `onDragStopped`: a freshly launched job replaces the handle. */
  function DragStopped(s: State): State
  {
    s.(currentCountdown := Some(Job(AwaitingStart, false)))
  }

  /** The value one loop step assigns: `(startCountdown - delta).coerceAtLeast(0)`. */
  function LoopValue(startCountdown: int, startTime: int, frameTime: int): int
  {
    var v := startCountdown - (frameTime - startTime);
    if v < 0 then 0 else v
  }

  /** What one rendered frame at `frameTime` does to the state. */
  function Frame(s: State, frameTime: int): State
  {
    if !Running(s.currentCountdown) then s
    else
      var job := s.currentCountdown.value;
      match job.phase
      case AwaitingStart =>
        s.(currentCountdown := Some(job.(phase := Counting(frameTime, s.countdownMillis))))
      case Counting(startTime, startCountdown) =>
        var v := LoopValue(startCountdown, startTime, frameTime);
        State(v, Some(if v > 0 then job else job.(phase := Finished)))
      case Finished => s
  }

  /** The state after a sequence of frames, in order. */
  function Frames(s: State, frameTimes: seq<int>): State
  {
    if frameTimes == [] then s
    else Frame(Frames(s, frameTimes[..|frameTimes| - 1]), frameTimes[|frameTimes| - 1])
  }

  /** The state right after a drag stops with countdown value m. */
  function Launched(m: int): State
  {
    State(m, Some(Job(AwaitingStart, false)))
  }

  /** The inputs the widget reacts to, in the order the host delivers them. */
  datatype Event = DragDelta(deltaMillis: int) | DragStart | DragStop | FrameAt(frameTime: int)

  function Apply(s: State, e: Event): State
  {
    match e
    case DragDelta(d) => Delta(s, d)
    case DragStart => DragStarted(s)
    case DragStop => DragStopped(s)
    case FrameAt(t) => Frame(s, t)
  }

  function Replay(s: State, events: seq<Event>): State
  {
    if events == [] then s else Apply(Replay(s, events[..|events| - 1]), events[|events| - 1])
  }

  /** The sum of the drag deltas among the events. */
  function DeltaSum(events: seq<Event>): int
  {
    if events == [] then 0
    else DeltaSum(events[..|events| - 1]) + (match events[|events| - 1] case DragDelta(d) => d case _ => 0)
  }

  /** A drag start cancels the job and changes nothing else; afterwards no job is running. */
  lemma DragStartOnlyCancels(s: State)
    ensures DragStarted(s).countdownMillis == s.countdownMillis
    ensures DragStarted(s).currentCountdown.Some? == s.currentCountdown.Some?
    ensures !Running(DragStarted(s).currentCountdown)
  {
  }

  /** The job a drag stop launches takes its startCountdown from the value current when the drag stopped. */
  lemma DragStopCapturesValue(s: State, frameTime: int)
    ensures Frame(DragStopped(s), frameTime)
            == State(s.countdownMillis, Some(Job(Counting(frameTime, s.countdownMillis), false)))
  {
  }

  /** One loop step: the value is `max(0, startCountdown - elapsed)`, never negative, and the loop goes on iff it is positive. */
  lemma LoopStep(m: int, startTime: int, startCountdown: int, frameTime: int)
    ensures var r := Frame(State(m, Some(Job(Counting(startTime, startCountdown), false))), frameTime);
      r.countdownMillis == LoopValue(startCountdown, startTime, frameTime) && r.countdownMillis >= 0 &&
      (Running(r.currentCountdown) <==> r.countdownMillis > 0)
  {
  }

  /** Frames do nothing to a state whose job is absent, cancelled or finished: no stale updates. */
  lemma {:induction false} InertFrames(s: State, frameTimes: seq<int>)
    requires !Running(s.currentCountdown)
    ensures Frames(s, frameTimes) == s
  {
    if frameTimes != [] {
      InertFrames(s, frameTimes[..|frameTimes| - 1]);
    }
  }

  lemma {:induction false} FramesAppend(s: State, xs: seq<int>, ys: seq<int>)
    ensures Frames(s, xs + ys) == Frames(Frames(s, xs), ys)
  {
    if ys == [] {
      assert xs + ys == xs;
    } else {
      var zs := xs + ys;
      assert zs[..|zs| - 1] == xs + ys[..|ys| - 1];
      FramesAppend(s, xs, ys[..|ys| - 1]);
    }
  }

  /**
   * The whole countdown loop after a drag stop with value m, on frames fs: fs[0]
   * fixes startTime and every later frame runs the loop body once. While every
   * step so far gave a positive value the job still runs and shows the last
   * step's value; once any step gave 0 the job is finished and the value is 0.
   */
  lemma {:induction false} LoopTrace(m: int, fs: seq<int>)
    requires |fs| >= 1
    ensures (forall k :: 1 <= k < |fs| ==> LoopValue(m, fs[0], fs[k]) > 0) ==>
      Frames(Launched(m), fs) ==
      State(if |fs| == 1 then m else LoopValue(m, fs[0], fs[|fs| - 1]), Some(Job(Counting(fs[0], m), false)))
    ensures (exists k :: 1 <= k < |fs| && LoopValue(m, fs[0], fs[k]) == 0) ==>
      Frames(Launched(m), fs) == State(0, Some(Job(Finished, false)))
  {
    var n := |fs|;
    if n == 1 {
      assert fs[..0] == [];
    } else {
      var p := fs[..n - 1];
      assert p[0] == fs[0];
      assert forall k :: 0 <= k < n - 1 ==> p[k] == fs[k];
      LoopTrace(m, p);
      if exists k :: 1 <= k < n - 1 && LoopValue(m, fs[0], fs[k]) == 0 {
        var k :| 1 <= k < n - 1 && LoopValue(m, fs[0], fs[k]) == 0;
        assert LoopValue(m, p[0], p[k]) == 0;
      } else {
        assert forall k :: 1 <= k < n - 1 ==> LoopValue(m, p[0], p[k]) > 0;
      }
    }
  }

  /** A drag stop at a non-positive value ends after one loop step, at 0, on a clock that does not run backwards. */
  lemma NonPositiveStartEndsAfterOneStep(m: int, fs: seq<int>)
    requires m <= 0 && |fs| >= 2 && fs[0] <= fs[1]
    ensures Frames(Launched(m), fs[..2]) == State(0, Some(Job(Finished, false)))
    ensures Frames(Launched(m), fs) == State(0, Some(Job(Finished, false)))
  {
    LoopTrace(m, fs[..2]);
    assert fs[..2][1] == fs[1];
    FramesAppend(Launched(m), fs[..2], fs[2..]);
    InertFrames(Frames(Launched(m), fs[..2]), fs[2..]);
    assert fs[..2] + fs[2..] == fs;
  }

  /**
   * Between loop steps i <= j the value never increases when fs[i] <= fs[j], and
   * it strictly decreases when fs[i] < fs[j] and it was still positive at step i.
   */
  lemma LoopNeverIncreases(m: int, fs: seq<int>, i: nat, j: nat)
    requires 1 <= i <= j < |fs| && fs[i] <= fs[j]
    ensures Frames(Launched(m), fs[..j + 1]).countdownMillis <= Frames(Launched(m), fs[..i + 1]).countdownMillis
    ensures fs[i] < fs[j] && Frames(Launched(m), fs[..i + 1]).countdownMillis > 0 ==>
      Frames(Launched(m), fs[..j + 1]).countdownMillis < Frames(Launched(m), fs[..i + 1]).countdownMillis
  {
    var pi, pj := fs[..i + 1], fs[..j + 1];
    assert forall k :: 0 <= k <= i ==> pi[k] == fs[k];
    assert forall k :: 0 <= k <= j ==> pj[k] == fs[k];
    LoopTrace(m, pi);
    LoopTrace(m, pj);
    if exists k :: 1 <= k <= j && LoopValue(m, fs[0], fs[k]) == 0 {
      var k :| 1 <= k <= j && LoopValue(m, fs[0], fs[k]) == 0;
      assert LoopValue(m, pj[0], pj[k]) == 0;
      if exists k' :: 1 <= k' <= i && LoopValue(m, fs[0], fs[k']) == 0 {
        var k' :| 1 <= k' <= i && LoopValue(m, fs[0], fs[k']) == 0;
        assert LoopValue(m, pi[0], pi[k']) == 0;
      } else {
        assert forall k' :: 1 <= k' < |pi| ==> LoopValue(m, pi[0], pi[k']) > 0;
      }
    } else {
      assert forall k :: 1 <= k < |pj| ==> LoopValue(m, pj[0], pj[k]) > 0;
      assert forall k :: 1 <= k < |pi| ==> LoopValue(m, pi[0], pi[k]) > 0;
    }
  }

  /**
   * After a drag start, and until the next drag stop, the old job never touches
   * the countdown again: the value moves only by the drag deltas, added exactly
   * and without a floor, and the job stays cancelled.
   */
  lemma {:induction false} NoStaleUpdates(s: State, events: seq<Event>)
    requires forall k :: 0 <= k < |events| ==> !events[k].DragStop?
    ensures Replay(DragStarted(s), events) ==
      State(s.countdownMillis + DeltaSum(events), Cancel(s.currentCountdown))
  {
    if events != [] {
      NoStaleUpdates(s, events[..|events| - 1]);
    }
  }

  /** Dragging below zero leaves a negative countdown, which is displayed as "0:00:000". */
  lemma NegativeWhileDragging()
    ensures Replay(Initial, [DragStart, DragDelta(-1500)]).countdownMillis == -1500
    ensures TimeFormat.DisplayText(Replay(Initial, [DragStart, DragDelta(-1500)]).countdownMillis) == "0:00:000"
  {
  }

  /** The two state holders of `MyApp`, updated in place by the drag callbacks and the frame clock. */
  class Timer {
    var countdownMillis: int
    var currentCountdown: Option<Job>

    function Snapshot(): State
      reads this
    {
      State(countdownMillis, currentCountdown)
    }

    constructor ()
      ensures Snapshot() == Initial
    {
      countdownMillis := 0;
      currentCountdown := None;
    }

    method OnDelta(deltaMillis: int)
      modifies this
      ensures Snapshot() == Delta(old(Snapshot()), deltaMillis)
    {
      countdownMillis := countdownMillis + deltaMillis;
    }

    method OnDragStarted()
      modifies this
      ensures Snapshot() == DragStarted(old(Snapshot()))
    {
      if currentCountdown.Some? && !currentCountdown.value.phase.Finished? {
        currentCountdown := Some(currentCountdown.value.(cancelled := true));
      }
    }

    method OnDragStopped()
      modifies this
      ensures Snapshot() == DragStopped(old(Snapshot()))
    {
      currentCountdown := Some(Job(AwaitingStart, false));
    }

    /**
     * Delivers the frames of `withFrameMillis`, one at a time, to the launched
     * job: the first fixes startTime and reads startCountdown, each later one
     * runs the do-while body. The loop stops once the job no longer runs; the
     * frames left over would change nothing.
     */
    method RunFrames(frameTimes: seq<int>)
      modifies this
      ensures Snapshot() == Frames(old(Snapshot()), frameTimes)
    {
      var i := 0;
      while i < |frameTimes| && Running(currentCountdown)
        invariant 0 <= i <= |frameTimes|
        invariant Snapshot() == Frames(old(Snapshot()), frameTimes[..i])
      {
        var frameTime := frameTimes[i];
        var job := currentCountdown.value;
        if job.phase.AwaitingStart? {
          currentCountdown := Some(job.(phase := Counting(frameTime, countdownMillis)));
        } else {
          var delta := frameTime - job.phase.startTime;
          countdownMillis := job.phase.startCountdown - delta;
          if countdownMillis < 0 {
            countdownMillis := 0;
          }
          if countdownMillis <= 0 {
            currentCountdown := Some(job.(phase := Finished));
          }
        }
        assert frameTimes[..i + 1][..i] == frameTimes[..i];
        i := i + 1;
      }
      if i < |frameTimes| {
        InertFrames(Snapshot(), frameTimes[i..]);
        FramesAppend(old(Snapshot()), frameTimes[..i], frameTimes[i..]);
        assert frameTimes[..i] + frameTimes[i..] == frameTimes;
      } else {
        assert frameTimes[..i] == frameTimes;
      }
    }
  }
}
