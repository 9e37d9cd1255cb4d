/** Live mode (`RealTimeSimulator`, simulator.py:10-59): while the flag
    `running` holds, every qualifying line overwrites `lines`, `arr` and
    `var` and notifies the consumer; when the function returns, `lines` is
    cleared and a last notification is sent. */
module RealTime {
  import opened TraceTypes
  import opened Resolution
  import opened Recording

  /** The events the trace function sees while `running` holds, when a
      `stop()` lands just before event `stopAt` (or never, if `stopAt` is
      past the end). */
  function Observed(running: bool, stopAt: nat, events: seq<Event>): seq<Event>
  {
    if running then events[..Min(stopAt, |events|)] else []
  }

  function Last(fs: seq<Frame>): Frame
    requires fs != []
  {
    fs[|fs| - 1]
  }

  class RealTimeSimulator {
    const arrayName: string
    const watches: seq<Watch>
    var running: bool
    /** What the consumer reads after a notification. */
    var lines: seq<int>
    var arr: Val
    var highlighted: set<Cell>
    /** Every `update.emit()`, with the state the consumer then reads. */
    var emitted: seq<Frame>

    /** The state a consumer reads back. */
    function Shown(): Frame
      reads this
    {
      Frame(lines, arr, highlighted)
    }

    /** The field set-up of `__init__`. */
    constructor (arrayName: string, watches: seq<Watch>)
      ensures this.arrayName == arrayName && this.watches == watches
      ensures !running && emitted == [] && Shown() == Frame([], ListV([]), {})
    {
      this.arrayName := arrayName;
      this.watches := watches;
      running := false;
      lines, arr, highlighted := [], ListV([]), {};
      emitted := [];
    }

    /** `stop`: the worker sees the cleared flag at its next event. */
    method Stop()
      modifies this`running
      ensures !running
    {
      running := false;
    }

    /** `reset`: the same as `stop`; live mode keeps no history to rewind. */
    method Reset()
      modifies this`running
      ensures !running
    {
      running := false;
    }

    /** `trace` in live mode. While running, a qualifying event sets `lines`
        and `arr`, empties `var` and refills it watch by watch; if a watch
        raises, the exception leaves the partial set and no notification. */
    method TraceEvent(e: Event) returns (r: Outcome)
      modifies this`lines, this`arr, this`highlighted, this`emitted
      ensures !running || !Qualifies(arrayName, e) ==>
        r == Pass && Shown() == old(Shown()) && emitted == old(emitted)
      ensures running && Qualifies(arrayName, e) ==>
        && lines == [e.line]
        && arr == e.scope[arrayName]
        && Scan(highlighted, r) == Highlights(e.scope, arr, watches)
        && (r.Pass? ==> Snapshot(LiveMode, arrayName, watches, e) == Ok(Shown()))
        && (r.Fail? ==> Snapshot(LiveMode, arrayName, watches, e) == Err(r.error))
        && emitted == old(emitted) + (if r.Pass? then [Shown()] else [])
    {
      if !running {
        return Pass;
      }
      if e.kind == Line && arrayName in e.scope {
        lines := [e.line];
        arr := e.scope[arrayName];
        highlighted, r := CollectHighlights(e.scope, arr, watches);
        if r.Fail? {
          return;
        }
        emitted := emitted + [Shown()];
      }
      r := Pass;
    }

    /** `run`: trace the function's events, then clear `lines` and notify.
        A `stop()` from the controlling thread lands just before event
        `stopAt`. An exception from the trace function, or from the user's
        function once its events are traced (`userRaises`), escapes before
        `lines` is cleared and without the last notification. */
    method Run(events: seq<Event>, stopAt: nat, userRaises: bool) returns (r: Outcome)
      modifies this`running, this`lines, this`arr, this`highlighted, this`emitted
      ensures var seen := Observed(old(running), stopAt, events);
        r.Pass? <==> Trace(LiveMode, arrayName, watches, seen).Ok? && !userRaises
      ensures var seen := Observed(old(running), stopAt, events);
        Trace(LiveMode, arrayName, watches, seen).Ok? ==>
          var fs := Trace(LiveMode, arrayName, watches, seen).value;
          && (userRaises ==> r == Fail(UserError))
          && (!userRaises ==> lines == [])
          && (fs == [] && userRaises ==> lines == old(lines))
          && emitted == old(emitted) + fs + (if userRaises then [] else [Shown()])
          && (fs == [] ==> arr == old(arr) && highlighted == old(highlighted))
          && (fs != [] ==> arr == Last(fs).arr && highlighted == Last(fs).cells)
          && (fs != [] && userRaises ==> lines == Last(fs).lines)
          && running == (old(running) && stopAt >= |events|)
      ensures var seen := Observed(old(running), stopAt, events);
        Trace(LiveMode, arrayName, watches, seen).Err? ==>
          && running
          && r == Fail(Trace(LiveMode, arrayName, watches, seen).error)
          && exists j ::
            && 0 <= j < |seen| && Qualifies(arrayName, seen[j])
            && Trace(LiveMode, arrayName, watches, seen[..j]).Ok?
            && emitted == old(emitted) + Trace(LiveMode, arrayName, watches, seen[..j]).value
            && lines == [seen[j].line]
            && arr == seen[j].scope[arrayName]
            && Highlights(seen[j].scope, arr, watches) == Scan(highlighted, r)
    {
      ghost var seen := Observed(running, stopAt, events);
      // `fs`: the frames shown so far; `k`: the events traced while running
      ghost var fs: seq<Frame> := [];
      ghost var k := 0;
      var i := 0;
      while i < |events|
        invariant 0 <= i <= |events|
        invariant running == (old(running) && i <= stopAt)
        invariant k == (if old(running) then Min(i, stopAt) else 0) && k <= |seen|
        invariant Trace(LiveMode, arrayName, watches, seen[..k]) == Ok(fs)
        invariant emitted == old(emitted) + fs
        invariant fs == [] ==> Shown() == old(Shown())
        invariant fs != [] ==> Shown() == Last(fs)
      {
        if i == stopAt {
          Stop();
        }
        r := TraceEvent(events[i]);
        if running {
          assert k == i && seen[i] == events[i];
          assert seen[..i + 1][..i] == seen[..i];
          if r.Fail? {
            TraceErrorIsFinal(LiveMode, arrayName, watches, seen, i + 1, |seen|);
            assert seen[..|seen|] == seen;
            return;
          }
          if Qualifies(arrayName, events[i]) {
            fs := fs + [Shown()];
          }
          k := k + 1;
        }
        i := i + 1;
      }
      assert k == |seen| && seen[..|seen|] == seen;
      if userRaises {
        return Fail(UserError);
      }
      lines := [];
      emitted := emitted + [Shown()];
      r := Pass;
    }

    /** `start`: set the flag and run (the worker thread is not modelled; the
        run is synchronous). The frames shown are those of the events before
        the stop, and `lines` is empty once the function has returned. */
    method Start(events: seq<Event>, stopAt: nat, userRaises: bool) returns (r: Outcome)
      modifies this`running, this`lines, this`arr, this`highlighted, this`emitted
      ensures var seen := events[..Min(stopAt, |events|)];
        && (r.Pass? <==> Trace(LiveMode, arrayName, watches, seen).Ok? && !userRaises)
        && (Trace(LiveMode, arrayName, watches, seen).Ok? ==>
              var fs := Trace(LiveMode, arrayName, watches, seen).value;
              && (userRaises ==> r == Fail(UserError))
              && (!userRaises ==> lines == [])
              && (fs == [] && userRaises ==> lines == old(lines))
              && (fs != [] && userRaises ==> lines == Last(fs).lines)
              && emitted == old(emitted) + fs + (if userRaises then [] else [Shown()])
              && (fs == [] ==> arr == old(arr) && highlighted == old(highlighted))
              && (fs != [] ==> arr == Last(fs).arr && highlighted == Last(fs).cells)
              && running == (stopAt >= |events|))
        && (Trace(LiveMode, arrayName, watches, seen).Err? ==>
              r == Fail(Trace(LiveMode, arrayName, watches, seen).error))
    {
      running := true;
      r := Run(events, stopAt, userRaises);
    }
  }
}
