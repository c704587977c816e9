/** The playback controller (src/core/AlgorithmController.ts): it generates the bubble
    sort trace of its array, keeps a step index in [-1, |steps| - 1], and rebuilds the
    array at the current index by replaying the swap steps. */
module Controller {
  import opened Steps
  import opened Bubble

  /** What the controller hands to its listener (`arr` is the source's `array`). */
  datatype AlgorithmState = AlgorithmState(
    arr: seq<int>,
    history: seq<Step>,
    currentStepIndex: int,
    isPlaying: bool,
    speed: int,
    isFinished: bool)

  /** The state the controller reports for a trace, a current index into it and the playback
      settings: the initial array with the swaps of steps 0..index replayed. */
  function Snapshot(initial: seq<int>, steps: seq<Step>, index: int, playing: bool, speed: int): (s: AlgorithmState)
    requires -1 <= index < |steps|
    ensures |s.arr| == |initial| && s.history == steps && s.currentStepIndex == index
  {
    AlgorithmState(ReplaySwaps(initial, steps[..index + 1]), steps, index, playing, speed, index == |steps| - 1)
  }

  const DefaultSpeed := 1000

  class AlgorithmController {
    var initialArray: seq<int>
    var steps: seq<Step>
    var currentStepIndex: int
    var isPlaying: bool
    var speed: int
    /** The interval timer, if one is running: the period it was started with. */
    var timer: Option<int>
    /** Every state passed to the listener, in order. */
    ghost var emitted: seq<AlgorithmState>

    /** The current index stays in [-1, |steps| - 1], a timer runs exactly while playing,
        and the trace is always the bubble sort trace of the initial array. */
    ghost predicate Valid()
      reads this
    {
      -1 <= currentStepIndex < |steps| &&
      (timer.Some? <==> isPlaying) &&
      steps == BubbleTrace(initialArray)
    }

    /** The state as the controller reports it now. */
    function State(): AlgorithmState
      reads this
      requires -1 <= currentStepIndex < |steps|
    {
      Snapshot(initialArray, steps, currentStepIndex, isPlaying, speed)
    }

    constructor(initial: seq<int>)
      ensures Valid()
      ensures initialArray == initial && steps == BubbleTrace(initial)
      ensures currentStepIndex == -1 && !isPlaying && speed == DefaultSpeed && timer == None
      ensures emitted == [State()]
    {
      initialArray := initial;
      steps := [];
      currentStepIndex := -1;
      isPlaying := false;
      speed := DefaultSpeed;
      timer := None;
      emitted := [];
      new;
      GenerateSteps();
      EmitState();
    }

    /** Runs the generator over the current initial array and collects its steps. */
    method GenerateSteps()
      modifies this
      ensures steps == BubbleTrace(initialArray)
      ensures initialArray == old(initialArray) && currentStepIndex == old(currentStepIndex)
      ensures isPlaying == old(isPlaying) && speed == old(speed) && timer == old(timer)
      ensures emitted == old(emitted)
    {
      steps := BubbleSort(initialArray);
    }

    /** Reports the current state to the listener. */
    method EmitState()
      requires -1 <= currentStepIndex < |steps|
      modifies this
      ensures initialArray == old(initialArray) && steps == old(steps)
      ensures currentStepIndex == old(currentStepIndex)
      ensures isPlaying == old(isPlaying) && speed == old(speed) && timer == old(timer)
      ensures emitted == old(emitted) + [State()]
    {
      var s := GetCurrentState();
      emitted := emitted + [s];
    }

    /** Starts playback: a no-op while playing; otherwise marks playing, reports that,
        and starts a timer with the current speed. */
    method Play()
      requires Valid()
      modifies this
      ensures Valid()
      ensures old(isPlaying) ==> unchanged(this)
      ensures !old(isPlaying) ==> isPlaying && timer == Some(speed) && emitted == old(emitted) + [State()]
      ensures initialArray == old(initialArray) && steps == old(steps)
      ensures currentStepIndex == old(currentStepIndex) && speed == old(speed)
    {
      if isPlaying {
        return;
      }
      isPlaying := true;
      EmitState();
      timer := Some(speed);
    }

    /** Stops playback: never playing and no timer afterwards, whatever the state was;
        on a paused controller it changes nothing but reports the same state again. */
    method Pause()
      requires Valid()
      modifies this
      ensures Valid()
      ensures !isPlaying && timer == None
      ensures State() == old(State()).(isPlaying := false)
      ensures !old(isPlaying) ==> State() == old(State())
      ensures emitted == old(emitted) + [State()]
      ensures initialArray == old(initialArray) && steps == old(steps)
      ensures currentStepIndex == old(currentStepIndex) && speed == old(speed)
    {
      isPlaying := false;
      if timer.Some? {
        timer := None;
      }
      EmitState();
    }

    /** Moves the current index one step on and reports it; at the last step it does
        nothing at all. */
    method Next()
      requires Valid()
      modifies this
      ensures Valid()
      ensures old(currentStepIndex) < |steps| - 1 ==>
        currentStepIndex == old(currentStepIndex) + 1 && emitted == old(emitted) + [State()]
      ensures old(currentStepIndex) == |steps| - 1 ==> unchanged(this)
      ensures initialArray == old(initialArray) && steps == old(steps)
      ensures isPlaying == old(isPlaying) && speed == old(speed) && timer == old(timer)
    {
      if currentStepIndex < |steps| - 1 {
        currentStepIndex := currentStepIndex + 1;
        EmitState();
      }
    }

    /** Moves the current index one step back and reports it; at -1 it does nothing at all. */
    method Prev()
      requires Valid()
      modifies this
      ensures Valid()
      ensures old(currentStepIndex) >= 0 ==>
        currentStepIndex == old(currentStepIndex) - 1 && emitted == old(emitted) + [State()]
      ensures old(currentStepIndex) == -1 ==> unchanged(this)
      ensures initialArray == old(initialArray) && steps == old(steps)
      ensures isPlaying == old(isPlaying) && speed == old(speed) && timer == old(timer)
    {
      if currentStepIndex >= 0 {
        currentStepIndex := currentStepIndex - 1;
        EmitState();
      }
    }

    /** The body of the timer callback, which only runs while a timer is live:
        advance one step if there is one left, otherwise pause. */
    method Tick()
      requires Valid() && timer.Some?
      modifies this
      ensures Valid()
      ensures old(currentStepIndex) < |steps| - 1 ==>
        currentStepIndex == old(currentStepIndex) + 1 && isPlaying && timer == old(timer) &&
        emitted == old(emitted) + [State()]
      ensures old(currentStepIndex) == |steps| - 1 ==>
        currentStepIndex == old(currentStepIndex) && !isPlaying && timer == None &&
        emitted == old(emitted) + [State()]
      ensures initialArray == old(initialArray) && steps == old(steps) && speed == old(speed)
    {
      if currentStepIndex < |steps| - 1 {
        Next();
      } else {
        Pause();
      }
    }

    /** Sets the speed; a running timer is restarted with the new period (pause and
        play, each reporting), and the new speed is reported. */
    method SetSpeed(ms: int)
      requires Valid()
      modifies this
      ensures Valid()
      ensures speed == ms && isPlaying == old(isPlaying)
      ensures timer == if isPlaying then Some(ms) else None
      ensures old(isPlaying) ==>
        emitted == old(emitted) + [State().(isPlaying := false), State(), State()]
      ensures !old(isPlaying) ==> emitted == old(emitted) + [State()]
      ensures initialArray == old(initialArray) && steps == old(steps)
      ensures currentStepIndex == old(currentStepIndex)
    {
      speed := ms;
      if isPlaying {
        Pause();
        Play();
      }
      EmitState();
    }

    /** Pauses, takes a new array (and its trace) when one is given, and rewinds the
        current index to -1. */
    method Reset(newArray: Option<seq<int>>)
      requires Valid()
      modifies this
      ensures Valid()
      ensures currentStepIndex == -1 && !isPlaying && timer == None && speed == old(speed)
      ensures newArray.None? ==> initialArray == old(initialArray) && steps == old(steps)
      ensures newArray.Some? ==>
        initialArray == newArray.value && steps == BubbleTrace(newArray.value)
      ensures emitted == old(emitted) + [old(State()).(isPlaying := false), State()]
    {
      Pause();
      if newArray.Some? {
        initialArray := newArray.value;
        GenerateSteps();
      }
      currentStepIndex := -1;
      EmitState();
    }

    /** Rebuilds the array at the current index: a copy of the initial array on which the
        swap steps 0..currentStepIndex are replayed in order. */
    method GetCurrentState() returns (s: AlgorithmState)
      requires -1 <= currentStepIndex < |steps|
      ensures s == State()
    {
      var current := new int[|initialArray|](k requires 0 <= k < |initialArray| reads this => initialArray[k]);
      assert current[..] == ReplaySwaps(initialArray, steps[..0]);
      var i := 0;
      while i <= currentStepIndex
        invariant 0 <= i <= currentStepIndex + 1
        invariant current[..] == ReplaySwaps(initialArray, steps[..i])
      {
        var step := steps[i];
        if step.kind == Swap && |step.indices| >= 2 &&
           0 <= step.indices[0] < current.Length && 0 <= step.indices[1] < current.Length
        {
          var idx1, idx2 := step.indices[0], step.indices[1];
          var t := current[idx1];
          current[idx1] := current[idx2];
          current[idx2] := t;
        }
        ReplaySwapsNext(initialArray, steps, i);
        i := i + 1;
      }
      s := AlgorithmState(current[..], steps, currentStepIndex, isPlaying, speed,
                          currentStepIndex == |steps| - 1);
    }

    method GetStepsCount() returns (n: int)
      ensures n == |steps|
    {
      n := |steps|;
    }
  }
}

/** What the reported states promise. */
module ControllerFacts {
  import opened Steps
  import opened Bubble
  import opened BubbleFacts
  import opened Controller

  /** The reported array is always a permutation of the initial array; at -1 it is
      the initial array itself; the state reports finished exactly at the last step. */
  lemma SnapshotFacts(initial: seq<int>, steps: seq<Step>, index: int, playing: bool, speed: int)
    requires -1 <= index < |steps|
    ensures multiset(Snapshot(initial, steps, index, playing, speed).arr) == multiset(initial)
    ensures index == -1 ==> Snapshot(initial, steps, index, playing, speed).arr == initial
    ensures Snapshot(initial, steps, index, playing, speed).isFinished <==> index == |steps| - 1
  {
    ReplaySwapsPermutes(initial, steps[..index + 1]);
  }

  /** Advancing the current index by one applies exactly the swap, if any, of the next step. */
  lemma SnapshotAdvance(initial: seq<int>, steps: seq<Step>, index: int, playing: bool, speed: int)
    requires -1 <= index < |steps| - 1
    ensures Snapshot(initial, steps, index + 1, playing, speed).arr ==
            ApplySwap(Snapshot(initial, steps, index, playing, speed).arr, steps[index + 1])
  {
    ReplaySwapsNext(initial, steps, index + 1);
  }

  /** A finished controller shows the initial array sorted ascending. */
  lemma FinishedIsSorted(initial: seq<int>, playing: bool, speed: int)
    ensures var t := BubbleTrace(initial);
      var s := Snapshot(initial, t, |t| - 1, playing, speed);
      s.isFinished && Ascending(s.arr) && multiset(s.arr) == multiset(initial)
  {
    var t := BubbleTrace(initial);
    assert t[..|t| - 1 + 1] == t;
    BubbleSortSorts(initial);
  }
}
