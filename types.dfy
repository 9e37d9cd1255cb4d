/** Values, trace events, watch specifications and recorded frames shared by
    the two simulators of simulator.py. */
module TraceTypes {

  /** A Python value as far as the engine looks at it: an `int` (exactly
      `type(v) == int`, so not a bool), a `list`, or anything else. */
  datatype Val = IntV(n: int) | ListV(items: seq<Val>) | OtherV

  /** The kind of event `sys.settrace` hands to the trace function. */
  datatype Kind = Call | Line | Return | Exception

  /** One call of the trace function: the event kind, `frame.f_lineno` and
      `frame.f_locals` (local names bound to values). */
  datatype Event = Event(kind: Kind, line: int, scope: map<string, Val>)

  /** One component of a paired watch: a literal `int` or a variable name. */
  datatype Ref = RLit(n: int) | RName(id: string)

  /** One entry of the watch list: a bare literal, a bare name, or a 2-tuple. */
  datatype Watch = Lit(n: int) | Name(id: string) | Pair(row: Ref, col: Ref)

  /** A highlighted cell `(row, col)`. */
  type Cell = (int, int)

  /** What a consumer reads back after an update notification:
      `lines`, `arr` and `var` of the simulator. */
  datatype Frame = Frame(lines: seq<int>, arr: Val, cells: set<Cell>)

  /** The Python exceptions a run can end with: those the engine itself
      raises, and `UserError`, any exception the user's function raises
      itself and does not catch. */
  datatype Error = KeyError | TypeError | IndexError | ZeroDivisionError | UserError

  datatype Option<T> = None | Some(value: T)

  datatype Result<T> = Ok(value: T) | Err(error: Error)

  datatype Outcome = Pass | Fail(error: Error)

  /** The test both trace functions apply before looking at an event:
      `event == 'line' and self.arrayName in frame.f_locals`. */
  predicate Qualifies(arrayName: string, e: Event)
  {
    e.kind == Line && arrayName in e.scope
  }

  function Min(a: int, b: int): int
  {
    if a <= b then a else b
  }
}
