/** What the trace functions of simulator.py make of one run of the user's
    function, given as the sequence of events `sys.settrace` would deliver:
    the frame each qualifying `'line'` event produces, and the sequence of
    frames over a whole run. */
module Recording {
  import opened TraceTypes
  import opened Resolution

  /** Live mode shows the tracked value itself (simulator.py:45-56); replay
      mode stores a one-level copy of it (simulator.py:115-127). */
  datatype Mode = LiveMode | ReplayMode

  /** `[x if type(x) != list else [y for y in x] for x in arr]`: new outer
      list, new inner lists, same elements. As values the copy is equal to
      the original; that it shares no list with the running program is not
      expressible over values. */
  function CopyRows(xs: seq<Val>): (r: seq<Val>)
    ensures |r| == |xs|
    ensures forall i :: 0 <= i < |xs| ==> r[i] == xs[i]
  {
    seq(|xs|, i requires 0 <= i < |xs| =>
      match xs[i]
      case ListV(ys) => ListV(seq(|ys|, j requires 0 <= j < |ys| => ys[j]))
      case _ => xs[i])
  }

  /** The value a frame shows as `arr`: the tracked value in live mode, its
      copy in replay mode, where iterating a non-list raises `TypeError`. */
  function ArrValue(mode: Mode, tracked: Val): Result<Val>
  {
    match mode
    case LiveMode => Ok(tracked)
    case ReplayMode => if tracked.ListV? then Ok(ListV(CopyRows(tracked.items))) else Err(TypeError)
  }

  /** The frame one qualifying event produces, or the exception raised while
      building it. */
  function Snapshot(mode: Mode, arrayName: string, watches: seq<Watch>, e: Event): (r: Result<Frame>)
    requires Qualifies(arrayName, e)
    ensures r.Ok? ==>
      && r.value.lines == [e.line]
      && r.value.arr == e.scope[arrayName]
      && Highlights(e.scope, e.scope[arrayName], watches) == Scan(r.value.cells, Pass)
    ensures r.Err? ==>
      || (mode == ReplayMode && !e.scope[arrayName].ListV? && r.error == TypeError)
      || Highlights(e.scope, e.scope[arrayName], watches).outcome == Fail(r.error)
    ensures mode == ReplayMode && !e.scope[arrayName].ListV? ==> r == Err(TypeError)
  {
    match ArrValue(mode, e.scope[arrayName])
    case Err(x) => Err(x)
    case Ok(arr) =>
      assert arr == e.scope[arrayName];
      var scan := Highlights(e.scope, arr, watches);
      if scan.outcome.Fail? then Err(scan.outcome.error)
      else Ok(Frame([e.line], arr, scan.cells))
  }

  /** The frames of a run, in event order, or the first exception raised. */
  function Trace(mode: Mode, arrayName: string, watches: seq<Watch>, events: seq<Event>): Result<seq<Frame>>
    decreases |events|
  {
    if events == [] then Ok([])
    else
      var e := events[|events| - 1];
      match Trace(mode, arrayName, watches, events[..|events| - 1])
      case Err(x) => Err(x)
      case Ok(fs) =>
        if !Qualifies(arrayName, e) then Ok(fs)
        else match Snapshot(mode, arrayName, watches, e)
          case Err(x) => Err(x)
          case Ok(f) => Ok(fs + [f])
  }

  /** The qualifying events of a run, in order. */
  function Qualifying(arrayName: string, events: seq<Event>): (r: seq<Event>)
    ensures |r| <= |events|
    ensures forall i :: 0 <= i < |r| ==> Qualifies(arrayName, r[i])
    decreases |events|
  {
    if events == [] then []
    else if Qualifies(arrayName, events[|events| - 1])
    then Qualifying(arrayName, events[..|events| - 1]) + [events[|events| - 1]]
    else Qualifying(arrayName, events[..|events| - 1])
  }

  /** A run yields one frame per qualifying event, in event order: frame `i`
      is the snapshot of the `i`-th qualifying event, so there are exactly
      as many frames as qualifying events. */
  lemma {:induction false} TraceFrames(mode: Mode, arrayName: string, watches: seq<Watch>, events: seq<Event>)
    requires Trace(mode, arrayName, watches, events).Ok?
    ensures var fs := Trace(mode, arrayName, watches, events).value;
      var qs := Qualifying(arrayName, events);
      && |fs| == |qs|
      && forall i :: 0 <= i < |fs| ==> Snapshot(mode, arrayName, watches, qs[i]) == Ok(fs[i])
    decreases |events|
  {
    if events != [] {
      TraceFrames(mode, arrayName, watches, events[..|events| - 1]);
    }
  }

  /** Every one of the events qualifies and has a snapshot. */
  predicate AllSnapshot(mode: Mode, arrayName: string, watches: seq<Watch>, qs: seq<Event>)
  {
    forall i :: 0 <= i < |qs| ==> Qualifies(arrayName, qs[i]) && Snapshot(mode, arrayName, watches, qs[i]).Ok?
  }

  /** A run raises exactly when the snapshot of some qualifying event does. */
  lemma {:induction false} TraceOkIff(mode: Mode, arrayName: string, watches: seq<Watch>, events: seq<Event>)
    ensures Trace(mode, arrayName, watches, events).Ok? <==>
      AllSnapshot(mode, arrayName, watches, Qualifying(arrayName, events))
    decreases |events|
  {
    if events != [] {
      var init, e := events[..|events| - 1], events[|events| - 1];
      TraceOkIff(mode, arrayName, watches, init);
      var qs, qi := Qualifying(arrayName, events), Qualifying(arrayName, init);
      if Qualifies(arrayName, e) {
        assert qs == qi + [e];
        assert forall i :: 0 <= i < |qi| ==> qs[i] == qi[i];
        assert qs[|qi|] == e;
        if AllSnapshot(mode, arrayName, watches, qs) {
          assert forall i :: 0 <= i < |qi| ==> Snapshot(mode, arrayName, watches, qi[i]).Ok?;
          assert Snapshot(mode, arrayName, watches, e).Ok?;
        } else {
          var i :| 0 <= i < |qs| && !Snapshot(mode, arrayName, watches, qs[i]).Ok?;
          if i < |qi| {
            assert !Snapshot(mode, arrayName, watches, qi[i]).Ok?;
            assert !Trace(mode, arrayName, watches, init).Ok?;
          } else {
            assert !Snapshot(mode, arrayName, watches, e).Ok?;
          }
          assert !Trace(mode, arrayName, watches, events).Ok?;
        }
      } else {
        assert qs == qi;
      }
    }
  }

  /** Once a prefix of the run has raised, the longer prefixes raise the
      same exception. */
  lemma {:induction false} TraceErrorIsFinal(mode: Mode, arrayName: string, watches: seq<Watch>, events: seq<Event>, j: nat, k: nat)
    requires j <= k <= |events|
    requires Trace(mode, arrayName, watches, events[..j]).Err?
    ensures Trace(mode, arrayName, watches, events[..k]) == Trace(mode, arrayName, watches, events[..j])
    decreases k - j
  {
    if j < k {
      TraceErrorIsFinal(mode, arrayName, watches, events, j, k - 1);
      assert events[..k][..k - 1] == events[..k - 1];
    }
  }

  /** While every qualifying event tracks a list, replay mode records the
      very frames live mode shows. */
  lemma {:induction false} ModesAgree(arrayName: string, watches: seq<Watch>, events: seq<Event>)
    requires forall i :: 0 <= i < |events| && Qualifies(arrayName, events[i]) ==> events[i].scope[arrayName].ListV?
    ensures Trace(ReplayMode, arrayName, watches, events) == Trace(LiveMode, arrayName, watches, events)
    decreases |events|
  {
    if events != [] {
      var init, e := events[..|events| - 1], events[|events| - 1];
      assert forall i :: 0 <= i < |init| ==> init[i] == events[i];
      ModesAgree(arrayName, watches, init);
      if Qualifies(arrayName, e) {
        var items := e.scope[arrayName].items;
        assert CopyRows(items) == items;
      }
    }
  }
}
