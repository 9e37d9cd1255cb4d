/** Replay mode (`PlaybackSimulator`, simulator.py:61-128): the run is
    recorded once into `frames`, then a cursor `playbackPosition` moves over
    that buffer and publishes the frame under it. */
module Playback {
  import opened TraceTypes
  import opened Resolution
  import opened Recording

  /** The cursor after `stepForward`: `(p + 1) % n`. */
  function Forward(p: int, n: int): (q: int)
    requires n > 0
    ensures 0 <= q < n
  {
    (p + 1) % n
  }

  /** The cursor after `stepBack`: `(p - 1) % n`; Python's `%` with a
      positive divisor is never negative, as Dafny's is not. */
  function Back(p: int, n: int): (q: int)
    requires n > 0
    ensures 0 <= q < n
  {
    (p - 1) % n
  }

  /** The cursor after `k` calls of `stepForward`. */
  function ForwardN(p: int, k: nat, n: int): int
    requires n > 0
  {
    if k == 0 then p else Forward(ForwardN(p, k - 1, n), n)
  }

  /** The cursor after `k` calls of `stepBack`. */
  function BackN(p: int, k: nat, n: int): int
    requires n > 0
  {
    if k == 0 then p else Back(BackN(p, k - 1, n), n)
  }

  /** Below the last frame, a forward step does not wrap. */
  lemma ForwardInside(p: int, n: int)
    requires 0 <= p && p + 1 < n
    ensures Forward(p, n) == p + 1
  {
  }

  /** From the last frame, a forward step wraps to frame 0. */
  lemma ForwardWraps(n: int)
    requires n > 0
    ensures Forward(n - 1, n) == 0
  {
  }

  /** Above frame 0, a back step does not wrap. */
  lemma BackInside(p: int, n: int)
    requires 0 < p < n
    ensures Back(p, n) == p - 1
  {
  }

  /** From frame 0, a back step wraps to the last frame. */
  lemma BackWraps(n: int)
    requires n > 0
    ensures Back(0, n) == n - 1
  {
  }

  /** A step back undoes a step forward, and the other way round. */
  lemma BackUndoesForward(p: int, n: int)
    requires 0 <= p < n
    ensures Back(Forward(p, n), n) == p
    ensures Forward(Back(p, n), n) == p
  {
    if p + 1 < n {
      ForwardInside(p, n);
      BackInside(p + 1, n);
    } else {
      ForwardWraps(n);
      BackWraps(n);
    }
    if p == 0 {
      BackWraps(n);
      ForwardWraps(n);
    } else {
      BackInside(p, n);
      ForwardInside(p - 1, n);
    }
  }

  /** Forward steps that stay below `n` do not wrap. */
  lemma {:induction false} ForwardNoWrap(p: int, k: nat, n: int)
    requires 0 <= p && p + k < n
    ensures ForwardN(p, k, n) == p + k
  {
    if k > 0 {
      ForwardNoWrap(p, k - 1, n);
      ForwardInside(p + k - 1, n);
    }
  }

  /** Back steps that stay at or above 0 do not wrap. */
  lemma {:induction false} BackNoWrap(p: int, k: nat, n: int)
    requires 0 <= p - k && p < n
    ensures BackN(p, k, n) == p - k
  {
    if k > 0 {
      BackNoWrap(p, k - 1, n);
      BackInside(p - k + 1, n);
    }
  }

  lemma {:induction false} ForwardNAdd(p: int, a: nat, b: nat, n: int)
    requires n > 0
    ensures ForwardN(p, a + b, n) == ForwardN(ForwardN(p, a, n), b, n)
  {
    if b > 0 {
      ForwardNAdd(p, a, b - 1, n);
    }
  }

  lemma {:induction false} BackNAdd(p: int, a: nat, b: nat, n: int)
    requires n > 0
    ensures BackN(p, a + b, n) == BackN(BackN(p, a, n), b, n)
  {
    if b > 0 {
      BackNAdd(p, a, b - 1, n);
    }
  }

  /** `n` forward steps over `n` frames bring the cursor back to where it
      was: the timeline is cyclic. */
  lemma ForwardCycle(p: int, n: int)
    requires 0 <= p < n
    ensures ForwardN(p, n, n) == p
  {
    ForwardNoWrap(p, n - 1 - p, n);
    ForwardWraps(n);
    assert ForwardN(p, n - p, n) == 0;
    ForwardNoWrap(0, p, n);
    ForwardNAdd(p, n - p, p, n);
  }

  /** `n` back steps over `n` frames bring the cursor back as well. */
  lemma BackCycle(p: int, n: int)
    requires 0 <= p < n
    ensures BackN(p, n, n) == p
  {
    BackNoWrap(p, p, n);
    BackWraps(n);
    assert BackN(p, p + 1, n) == n - 1;
    BackNoWrap(n - 1, n - 1 - p, n);
    BackNAdd(p, p + 1, n - 1 - p, n);
  }

  class PlaybackSimulator {
    const arrayName: string
    const watches: seq<Watch>
    /** The recorded run, written by `generate` only. */
    var frames: seq<Frame>
    var playbackPosition: int
    var running: bool
    /** What the consumer reads after a notification. */
    var lines: seq<int>
    var arr: Val
    var highlighted: set<Cell>
    /** Every `update.emit()`, with the state the consumer then reads. */
    var emitted: seq<Frame>

    /** The cursor points into the buffer, or is 0 over an empty one. */
    ghost predicate Valid()
      reads this
    {
      0 <= playbackPosition && (playbackPosition < |frames| || playbackPosition == 0)
    }

    /** The state a consumer reads back. */
    function Shown(): Frame
      reads this
    {
      Frame(lines, arr, highlighted)
    }

    /** How many forward steps autoplay has left before the last frame. */
    function StepsLeft(): nat
      requires Valid()
      reads this
    {
      if |frames| == 0 then 0 else |frames| - 1 - playbackPosition
    }

    /** The field set-up of `__init__`, before `generate` runs. */
    constructor (arrayName: string, watches: seq<Watch>)
      ensures this.arrayName == arrayName && this.watches == watches
      ensures frames == [] && playbackPosition == 0 && !running && emitted == []
      ensures Shown() == Frame([], ListV([]), {})
      ensures Valid()
    {
      this.arrayName := arrayName;
      this.watches := watches;
      frames := [];
      playbackPosition := 0;
      running := false;
      lines, arr, highlighted := [], ListV([]), {};
      emitted := [];
    }

    /** `__init__`: set up, then record the whole run; an exception raised
        while recording, by the trace function or by the user's function
        (`userRaises`: it raises once its events are traced), escapes the
        constructor. */
    static method Create(arrayName: string, watches: seq<Watch>, events: seq<Event>, userRaises: bool)
      returns (r: Result<PlaybackSimulator>)
      ensures Trace(ReplayMode, arrayName, watches, events).Err? ==>
        r == Err(Trace(ReplayMode, arrayName, watches, events).error)
      ensures Trace(ReplayMode, arrayName, watches, events).Ok? && userRaises ==> r == Err(UserError)
      ensures Trace(ReplayMode, arrayName, watches, events).Ok? && !userRaises ==>
        && r.Ok?
        && fresh(r.value)
        && r.value.arrayName == arrayName && r.value.watches == watches
        && r.value.frames == Trace(ReplayMode, arrayName, watches, events).value
        && r.value.playbackPosition == 0 && !r.value.running && r.value.emitted == []
        && r.value.Valid()
    {
      var sim := new PlaybackSimulator(arrayName, watches);
      var o := sim.Generate(events, userRaises);
      if o.Fail? {
        return Err(o.error);
      }
      r := Ok(sim);
    }

    /** `trace` in replay mode: a qualifying event appends its frame. */
    method TraceEvent(e: Event) returns (r: Outcome)
      modifies this`frames
      ensures !Qualifies(arrayName, e) ==> r == Pass && frames == old(frames)
      ensures Qualifies(arrayName, e) ==>
        match Snapshot(ReplayMode, arrayName, watches, e)
        case Ok(f) => r == Pass && frames == old(frames) + [f]
        case Err(x) => r == Fail(x) && frames == old(frames)
    {
      if e.kind == Line && arrayName in e.scope {
        var lineNos := [e.line];
        if !e.scope[arrayName].ListV? {
          return Fail(TypeError);
        }
        var copy := ListV(CopyRows(e.scope[arrayName].items));
        var cells, o := CollectHighlights(e.scope, copy, watches);
        if o.Fail? {
          return o;
        }
        frames := frames + [Frame(lineNos, copy, cells)];
      }
      r := Pass;
    }

    /** `generate`: empty the buffer, then trace the run event by event.
        When the user's function raises after its events (`userRaises`),
        that exception escapes with every frame recorded. */
    method Generate(events: seq<Event>, userRaises: bool) returns (r: Outcome)
      modifies this`frames
      ensures r.Pass? <==> Trace(ReplayMode, arrayName, watches, events).Ok? && !userRaises
      ensures Trace(ReplayMode, arrayName, watches, events).Ok? ==>
        && frames == Trace(ReplayMode, arrayName, watches, events).value
        && (userRaises ==> r == Fail(UserError))
      ensures Trace(ReplayMode, arrayName, watches, events).Err? ==>
        && r == Fail(Trace(ReplayMode, arrayName, watches, events).error)
        && exists j ::
          && 0 <= j < |events|
          && Trace(ReplayMode, arrayName, watches, events[..j]) == Ok(frames)
          && Trace(ReplayMode, arrayName, watches, events[..j + 1]).Err?
    {
      frames := [];
      var i := 0;
      while i < |events|
        invariant 0 <= i <= |events|
        invariant Trace(ReplayMode, arrayName, watches, events[..i]) == Ok(frames)
      {
        assert events[..i + 1][..i] == events[..i];
        r := TraceEvent(events[i]);
        if r.Fail? {
          TraceErrorIsFinal(ReplayMode, arrayName, watches, events, i + 1, |events|);
          assert events[..|events|] == events;
          return;
        }
        i := i + 1;
      }
      assert events[..i] == events;
      r := if userRaises then Fail(UserError) else Pass;
    }

    /** `localUpdate`: publish the frame under the cursor and notify. */
    method LocalUpdate() returns (r: Outcome)
      requires Valid()
      modifies this`lines, this`arr, this`highlighted, this`emitted
      ensures |frames| == 0 ==> r == Fail(IndexError) && Shown() == old(Shown()) && emitted == old(emitted)
      ensures |frames| > 0 ==>
        && r == Pass
        && Shown() == frames[playbackPosition]
        && emitted == old(emitted) + [frames[playbackPosition]]
    {
      if playbackPosition >= |frames| {
        return Fail(IndexError);
      }
      var f := frames[playbackPosition];
      lines, arr, highlighted := f.lines, f.arr, f.cells;
      emitted := emitted + [Shown()];
      r := Pass;
    }

    /** `reset`: stop autoplay, rewind to frame 0 and publish it. */
    method Reset() returns (r: Outcome)
      requires Valid()
      modifies this`running, this`playbackPosition, this`lines, this`arr, this`highlighted, this`emitted
      ensures Valid() && !running && playbackPosition == 0
      ensures |frames| == 0 ==> r == Fail(IndexError) && Shown() == old(Shown()) && emitted == old(emitted)
      ensures |frames| > 0 ==> r == Pass && Shown() == frames[0] && emitted == old(emitted) + [frames[0]]
    {
      running := false;
      playbackPosition := 0;
      r := LocalUpdate();
    }

    /** `stepForward`: advance the cursor cyclically and publish. */
    method StepForward() returns (r: Outcome)
      requires Valid()
      modifies this`playbackPosition, this`lines, this`arr, this`highlighted, this`emitted
      ensures Valid()
      ensures |frames| == 0 ==>
        && r == Fail(ZeroDivisionError)
        && playbackPosition == old(playbackPosition)
        && Shown() == old(Shown()) && emitted == old(emitted)
      ensures |frames| > 0 ==>
        && r == Pass
        && playbackPosition == Forward(old(playbackPosition), |frames|)
        && Shown() == frames[playbackPosition]
        && emitted == old(emitted) + [frames[playbackPosition]]
    {
      if |frames| == 0 {
        return Fail(ZeroDivisionError);
      }
      playbackPosition := (playbackPosition + 1) % |frames|;
      r := LocalUpdate();
    }

    /** `stepBack`: move the cursor back cyclically and publish. */
    method StepBack() returns (r: Outcome)
      requires Valid()
      modifies this`playbackPosition, this`lines, this`arr, this`highlighted, this`emitted
      ensures Valid()
      ensures |frames| == 0 ==>
        && r == Fail(ZeroDivisionError)
        && playbackPosition == old(playbackPosition)
        && Shown() == old(Shown()) && emitted == old(emitted)
      ensures |frames| > 0 ==>
        && r == Pass
        && playbackPosition == Back(old(playbackPosition), |frames|)
        && Shown() == frames[playbackPosition]
        && emitted == old(emitted) + [frames[playbackPosition]]
    {
      if |frames| == 0 {
        return Fail(ZeroDivisionError);
      }
      playbackPosition := (playbackPosition - 1) % |frames|;
      r := LocalUpdate();
    }

    /** `stop`. */
    method Stop()
      modifies this`running
      ensures !running
    {
      running := false;
    }

    /** `run`, the autoplay loop: step forward while running and not at the
        last frame. A `stop()` from the controlling thread is given as the
        number of steps after which it lands (0: before the first test). */
    method Run(stopAfter: nat) returns (steps: nat)
      requires Valid()
      modifies this`running, this`playbackPosition, this`lines, this`arr, this`highlighted, this`emitted
      ensures Valid()
      ensures steps == if old(running) then Min(stopAfter, old(StepsLeft())) else 0
      ensures playbackPosition == old(playbackPosition) + steps
      ensures steps == 0 ==> emitted == old(emitted)
      ensures steps > 0 ==> emitted == old(emitted) + frames[old(playbackPosition) + 1..playbackPosition + 1]
      ensures steps > 0 ==> Shown() == frames[playbackPosition]
      ensures steps == 0 ==> Shown() == old(Shown())
      ensures running == (old(running) && stopAfter > old(StepsLeft()))
    {
      steps := 0;
      if stopAfter == 0 {
        Stop();
      }
      while playbackPosition < |frames| - 1 && running
        invariant Valid()
        invariant playbackPosition == old(playbackPosition) + steps
        invariant steps <= old(StepsLeft())
        invariant running == (old(running) && steps < stopAfter)
        invariant !old(running) ==> steps == 0
        invariant steps <= stopAfter
        invariant steps == 0 ==> emitted == old(emitted)
        invariant steps > 0 ==> emitted == old(emitted) + frames[old(playbackPosition) + 1..playbackPosition + 1]
        invariant steps > 0 ==> Shown() == frames[playbackPosition]
        invariant steps == 0 ==> Shown() == old(Shown())
        decreases |frames| - playbackPosition
      {
        ForwardInside(playbackPosition, |frames|);
        ghost var start, p := old(playbackPosition), playbackPosition;
        var _ := StepForward();
        assert playbackPosition == p + 1;
        assert start + 1 <= playbackPosition < |frames|;
        assert frames[start + 1..playbackPosition + 1] == frames[start + 1..playbackPosition] + [frames[playbackPosition]];
        steps := steps + 1;
        if steps == stopAfter {
          Stop();
        }
      }
    }

    /** `start`: set the flag and run autoplay (the worker thread is not
        modelled; the run is synchronous). */
    method Start(stopAfter: nat) returns (steps: nat)
      requires Valid()
      modifies this`running, this`playbackPosition, this`lines, this`arr, this`highlighted, this`emitted
      ensures Valid()
      ensures steps == Min(stopAfter, old(StepsLeft()))
      ensures playbackPosition == old(playbackPosition) + steps
      ensures steps == 0 ==> emitted == old(emitted)
      ensures steps > 0 ==> emitted == old(emitted) + frames[old(playbackPosition) + 1..playbackPosition + 1]
      ensures steps > 0 ==> Shown() == frames[playbackPosition]
      ensures steps == 0 ==> Shown() == old(Shown())
      ensures running == (stopAfter > old(StepsLeft()))
      ensures stopAfter > old(StepsLeft()) ==> playbackPosition == |frames| - 1 || |frames| == 0
    {
      running := true;
      steps := Run(stopAfter);
    }
  }
}
