# Algorithm-Visualizer trace engine in Dafny

This project models the trace and replay engine of Algorithm-Visualizer
(`simulator.py`). The user writes a function over an array. The engine runs
it under a line-level trace hook. At every executed `'line'` event where the
tracked array is a local variable, it captures a snapshot: the line number,
the array, and the set of highlighted `(row, col)` cells that the watch list
resolves to. There are two consumers of these snapshots:

- **Live mode** (`RealTimeSimulator`) overwrites its fields `lines`, `arr` and
  `var` at each qualifying line while its `running` flag holds, and notifies
  the UI. When the function returns, it clears `lines`.
- **Replay mode** (`PlaybackSimulator`) records every snapshot into `frames`
  once. After that, a cursor `playbackPosition` moves cyclically over the
  buffer (`stepForward`, `stepBack`), is rewound (`reset`), or autoplays up
  to the last frame (`run`).

One run of the user's function is given as the sequence of events the hook
would receive. Each event (`TraceTypes.Event`) has a kind, a line number
and a scope that maps local names to values. A value is an int, a list, or
anything else (`TraceTypes.Val`).

Modules, one file each:

- `types.dfy` (`TraceTypes`): values, events, watches (`Lit`, `Name`, or a
  `Pair` of literal-or-name references), frames, and the Python exceptions
  a run can end with.
- `highlights.dfy` (`Resolution`): the highlight rules. `ResolveWatch` gives
  the cell one watch contributes, if any. `Highlights` folds it over the
  watch list. `CollectHighlights` is the loop both trace functions run.
- `recording.dfy` (`Recording`): the snapshot of one event (`Snapshot`), the
  one-level copy (`CopyRows`), and the frames of a whole run (`Trace`), for
  either mode.
- `playback.dfy` (`Playback`): cursor arithmetic and the `PlaybackSimulator`
  class.
- `realtime.dfy` (`RealTime`): the `RealTimeSimulator` class.

The Python field `var` is a Dafny keyword, so it is called `highlighted`
here. Every `update.emit()` is modelled as appending the state the consumer
then reads (`lines`, `arr`, `var`) to a log field `emitted`.

Python exceptions are explicit results (`Result`, `Outcome`). The engine's
own exceptions arise in these places:

- A pair with a literal row and a named column, where the column is bound to
  an int `>= 0`, evaluates `f_locals[<int>]`. This raises `KeyError`
  (simulator.py:53, 123).
- A named row selecting an element that is not a list, with such a column,
  calls `len` on that element. This raises `TypeError`.
- In live mode, `len(arr)` on a tracked value that is not a list raises
  `TypeError`. This happens only once some name is bound to an int `>= 0`.
- Replay mode iterates the tracked value to copy it, so a tracked value that
  is not a list raises `TypeError`.
- `stepForward`/`stepBack` on an empty buffer raise `ZeroDivisionError` and
  change nothing.
- `reset` on an empty buffer first clears `running` and sets the cursor to
  0, then raises `IndexError`.

The user's function may also raise an exception of its own (`UserError`).
This is an input of a run (`userRaises`): the function raises once its
events have been traced. In live mode the exception escapes `run` before
`lines` is cleared and without the last notification. In replay mode it
escapes `generate` and the constructor with every frame recorded.

In these cases the model reproduces behaviour of the code that a reader
might not expect:

- Stepping an empty buffer raises instead of being a no-op.
- Literal watch components are never range-checked, so a highlight need not
  be a valid index. `NamedHighlightsInRange` proves validity only for watches
  whose references are all names.
- A bare literal int watch never highlights anything.
- Live mode shows the tracked object itself, not a copy.
- Replay copies one level deep.

## Model

| member | source | states |
|---|---|---|
| Resolution.CollectHighlights | simulator.py:118-126 | The watch loop returns exactly the highlight set of the rules, or the first exception together with the cells added before it. |
| Resolution.BareNameRule | simulator.py:125-126 | Over a list, a bare name adds `(value, 0)` iff it is in scope, bound to an int, and `0 <= value <= len(arr)-1`. Otherwise it adds nothing and never raises. |
| Resolution.PairRule | simulator.py:120-124 | A pair yields a cell iff both the row test and the column test pass, so no partial pair is added. The cell is the pair of the component values: a literal is taken as it is, a name gives its bound int. A named row lies in `[0, len(arr)-1]`. A named column lies within the row that a named row selects. A pair of names yields a cell exactly when the row name is bound to an int in `[0, len(arr)-1]` and the column name to an int in `[0, len(arr[row])-1]`. |
| Resolution.LiteralRowKeyError | simulator.py:123 | A literal row with a named column bound to an int `>= 0` raises `KeyError`. |
| Resolution.NonListRowTypeError | simulator.py:123 | A named row over a non-list element, with a named column bound to an int `>= 0`, raises `TypeError`. |
| Resolution.RaisesOnlyOnPairs | simulator.py:119-126 | Over a list, only a pair with a named column can raise: `KeyError` when its row is literal, `TypeError` when its row selects a non-list element. |
| Resolution.LiteralWatchesIgnored | simulator.py:125 | Removing the bare literal watches changes neither the highlights nor the exception, because an int is never a key of `f_locals`. |
| Resolution.HighlightsPassIff | simulator.py:119-126 | The loop completes iff no watch raises. |
| Resolution.HighlightsFailure | simulator.py:48-56 | When the loop raises, the exception comes from some watch `k`, and the set holds exactly what watches `0..k-1` added. This is the partial `var` that live mode is left with. |
| Resolution.FailureIsFinal | simulator.py:49-56 | After an exception, later watches change neither the set nor the exception. |
| Resolution.HighlightsSound | simulator.py:119-126 | Every highlighted cell is the cell some watch resolves to. |
| Resolution.HighlightsComplete | simulator.py:119-126 | When the loop completes, every cell some watch resolves to is highlighted, whatever the order or repetition of the watches. |
| Resolution.NamedHighlightsInRange | simulator.py:52-55 | With named references only, every highlighted row is an index into the tracked list. |
| Recording.CopyRows | simulator.py:117 | The one-level copy has the same length as the original and equal elements. |
| Recording.Snapshot | simulator.py:115-127 | A frame is `([lineno], array, highlights)`, with the highlights of the rules. In replay mode a tracked value that is not a list always fails with `TypeError`. Any other failure is the watch loop's exception. |
| Recording.TraceFrames | simulator.py:108-128 | A run that raises nothing records exactly one frame per qualifying event, in event order. So the number of frames equals the number of qualifying events. |
| Recording.TraceOkIff | simulator.py:114-128 | A run raises iff the snapshot of some qualifying event raises. |
| Recording.TraceErrorIsFinal | simulator.py:108-112 | Once a prefix of the run raises, every longer prefix raises the same exception. |
| Recording.ModesAgree | simulator.py:45-56 | When every qualifying event tracks a list, replay records the same frames that live mode shows. |
| Playback.Forward | simulator.py:96 | The cursor after `stepForward` lies in `[0, n)`. |
| Playback.Back | simulator.py:100 | The cursor after `stepBack` lies in `[0, n)`. |
| Playback.BackUndoesForward | simulator.py:95-101 | `stepBack` undoes `stepForward`, and `stepForward` undoes `stepBack`. |
| Playback.ForwardNoWrap | simulator.py:95-96 | `k` forward steps that stay below `n` move the cursor by exactly `k`. |
| Playback.BackNoWrap | simulator.py:99-100 | `k` back steps that stay at or above 0 move the cursor back by exactly `k`. |
| Playback.ForwardCycle | simulator.py:95-97 | `n` forward steps over `n` frames return the cursor to its start. |
| Playback.BackCycle | simulator.py:99-101 | `n` back steps over `n` frames return the cursor to its start. |
| Playback.PlaybackSimulator.constructor | simulator.py:64-75 | Fields start empty, with the cursor at 0. |
| Playback.PlaybackSimulator.Create | simulator.py:64-76 | Construction records the run: `frames` is the run's trace and the cursor is at 0. If the trace function raises, its exception escapes the constructor. If the user's function raises, `UserError` escapes. |
| Playback.PlaybackSimulator.TraceEvent | simulator.py:114-128 | A qualifying event appends its snapshot, or raises and leaves `frames` alone. Other events change nothing. |
| Playback.PlaybackSimulator.Generate | simulator.py:108-112 | `frames` becomes the run's trace, and the call raises `UserError` iff the user's function raises. When the trace function raises, `frames` holds exactly the frames recorded before the failing event, whose own snapshot raised. |
| Playback.PlaybackSimulator.LocalUpdate | simulator.py:86-88 | Publishes `frames[playbackPosition]` and logs one notification. On an empty buffer it raises `IndexError` and changes nothing. |
| Playback.PlaybackSimulator.Reset | simulator.py:90-93 | Clears `running`, sets the cursor to 0 and publishes frame 0. On an empty buffer it raises `IndexError` after the first two steps. |
| Playback.PlaybackSimulator.StepForward | simulator.py:95-97 | The cursor becomes `(p+1) % n` and the frame under it is published. With no frames it raises `ZeroDivisionError` and changes nothing. |
| Playback.PlaybackSimulator.StepBack | simulator.py:99-101 | The cursor becomes `(p-1) % n` and the frame under it is published. With no frames it raises `ZeroDivisionError` and changes nothing. |
| Playback.PlaybackSimulator.Stop | simulator.py:83-84 | Clears `running`. |
| Playback.PlaybackSimulator.Run | simulator.py:103-106 | Autoplay takes `min(stopAfter, n-1-p)` steps while running, and none if already at the last frame. It never wraps, publishes each frame it passes in order, and stops at the last frame unless a stop lands first. |
| Playback.PlaybackSimulator.Start | simulator.py:78-81 | Sets `running` and autoplays. Without a stop, it ends on the last frame. |
| RealTime.RealTimeSimulator.constructor | simulator.py:13-22 | Fields start empty and not running. |
| RealTime.RealTimeSimulator.Stop | simulator.py:29-30 | Clears `running`. |
| RealTime.RealTimeSimulator.Reset | simulator.py:32-33 | Clears `running` and rewinds nothing. |
| RealTime.RealTimeSimulator.TraceEvent | simulator.py:42-59 | While not running (simulator.py:43-44), or on a non-qualifying event, nothing changes. Otherwise `lines = [lineno]`, `arr` is the tracked value and `var` is the rule's highlight set (partial on an exception). One notification is logged iff no watch raised. |
| RealTime.RealTimeSimulator.Run | simulator.py:35-40 | Notifications are the live frames of the events before the stop, in order. When the user's function returns, one final notification with `lines == []` follows, whether or not the run was stopped. When it raises, there is no final notification and `lines` keeps the last frame's line. When the trace function raises, the state is that of the failing event and `lines` is not cleared. |
| RealTime.RealTimeSimulator.Start | simulator.py:24-27 | Sets `running` and runs. The frames shown are those of the events before the stop. `lines` ends empty when the user's function returns. When it raises, the run ends with `UserError` and `lines` keeps the last frame's line, or its old value when no frame was shown. With no frame shown, `arr` and `var` keep their old values. |

## Left out

- Loading and hooking the user's code is not modelled: `imp.new_module`, `exec`, `getattr` and `sys.settrace` (simulator.py:15-17, 36-38, 66-68, 110-112). One run is an input event sequence instead. That includes events from frames of nested calls, which the hook also sees.
- Threads, `time.sleep` and Qt signals are not modelled. `Start` runs synchronously. A concurrent `stop()` is an input: before event `stopAt` in live mode, or after `stopAfter` steps in replay autoplay. `update.emit()` appends to the `emitted` log. A second `start()` while running (which spawns a second worker in the source) and manual stepping concurrent with autoplay are not modelled.
- Live mode's `arr` is the running program's own list (simulator.py:47), aliased and still mutating. Value sequences cannot express aliasing, so the model shows the value at the event. In the same way, the copy at simulator.py:117 is equal to the original as a value; the model does not capture that it shares no list with the program.
- `OtherV` stands for every value that is neither an int nor a list. Strings, tuples and dicts, which in Python have a `len` and can be iterated, are treated as having neither. Bools count as not-int, as `type(x) == int` does.
- Watch entries other than an int, a string, or a 2-tuple of those are not modelled. For example, a float, or a tuple of another length (which raises `ValueError` on unpacking).
- Reading `lines`, `arr` or `var` before the first publish raises `AttributeError` in the source. `running` is unset in both modes before the first `start`/`stop`/`reset` (simulator.py:13-22 and 64-76 never set it). The model gives these fields empty initial values, with `running` false, as both constructors ensure.
- An exception from the user's function is modelled only at the end of its events (`userRaises`). One raised part-way through is the same run cut short, given as a shorter event sequence. That the hook then stays installed (`sys.settrace(None)` at simulator.py:38 and 112 is skipped) is not modelled, because the hook is not modelled.
- An exception raised in the trace function is modelled as ending the run. The user's function could catch it, and the hook is then removed; that is not modelled.
- `generate` does not reset the cursor. It is only called from the constructor, where the cursor is 0, and the model calls it only from `Create`.
- RealTime.RealTimeSimulator.Start: when the trace function raises, it states only which exception is raised, not the display state left behind; `RealTime.RealTimeSimulator.Run` states that.
- All of visualizer.py (the Qt UI, syntax highlighting, JSON save and open, argument parsing, drawing) is not part of this model.
