/** Highlight resolution: how one trace event turns the watch list into the
    set of highlighted cells (simulator.py:48-56 and simulator.py:118-126,
    the same rules written twice in the source). */
module Resolution {
  import opened TraceTypes

  type Scope = map<string, Val>

  /** Python's `len(v)`; every value other than a list is taken to have no
      length. */
  function Len(v: Val): Result<int>
  {
    match v
    case ListV(items) => Ok(|items|)
    case _ => Err(TypeError)
  }

  /** `name in f_locals and type(f_locals[name]) == int and
      0 <= f_locals[name] <= size - 1`. The `and` and the chained comparison
      short-circuit, so `size` is only evaluated, and only fails, once the
      name is bound to a non-negative int. */
  function InRange(scope: Scope, name: string, size: Result<int>): Result<bool>
  {
    if name !in scope || !scope[name].IntV? || scope[name].n < 0 then Ok(false)
    else match size
      case Err(e) => Err(e)
      case Ok(n) => Ok(scope[name].n <= n - 1)
  }

  /** The test on the row component `x` of a pair: a literal passes unchecked,
      a name must be an in-scope int in `[0, len(arr) - 1]`. */
  function RowCheck(scope: Scope, arr: Val, x: Ref): Result<bool>
  {
    match x
    case RLit(_) => Ok(true)
    case RName(s) => InRange(scope, s, Len(arr))
  }

  /** `len(arr[f_locals[x]])`, reached only after the row test passed. A
      literal `x` is looked up in `f_locals` as a key, which no int is. */
  function RowLen(scope: Scope, arr: Val, x: Ref): Result<int>
    requires RowCheck(scope, arr, x) == Ok(true)
  {
    match x
    case RLit(_) => Err(KeyError)
    case RName(s) => Len(arr.items[scope[s].n])
  }

  /** The test on the column component `y`, bounded by the selected row. */
  function ColumnCheck(scope: Scope, arr: Val, x: Ref, y: Ref): Result<bool>
    requires RowCheck(scope, arr, x) == Ok(true)
  {
    match y
    case RLit(_) => Ok(true)
    case RName(s) => InRange(scope, s, RowLen(scope, arr, x))
  }

  /** `x if type(x) == int else f_locals[x]`. */
  function RefValue(scope: Scope, r: Ref): int
    requires r.RName? ==> r.id in scope && scope[r.id].IntV?
  {
    match r
    case RLit(n) => n
    case RName(s) => scope[s].n
  }

  /** The cell one watch contributes, if any, or the exception its tests
      raise. */
  function ResolveWatch(scope: Scope, arr: Val, w: Watch): Result<Option<Cell>>
  {
    match w
    // `v in f_locals` is False for an int key
    case Lit(_) => Ok(None)
    case Name(s) =>
      (match InRange(scope, s, Len(arr))
       case Err(e) => Err(e)
       case Ok(found) => if found then Ok(Some((scope[s].n, 0))) else Ok(None))
    case Pair(x, y) =>
      match RowCheck(scope, arr, x)
      case Err(e) => Err(e)
      case Ok(rowOk) =>
        if !rowOk then Ok(None)
        else match ColumnCheck(scope, arr, x, y)
          case Err(e) => Err(e)
          case Ok(colOk) =>
            if colOk then Ok(Some((RefValue(scope, x), RefValue(scope, y)))) else Ok(None)
  }

  /** The state of the highlight set after the watch loop: the cells added
      so far, and whether the loop ran to the end or an exception left it. */
  datatype Scan = Scan(cells: set<Cell>, outcome: Outcome)

  /** One turn of the watch loop: a raised exception ends the loop. */
  function Extend(prior: Scan, resolved: Result<Option<Cell>>): Scan
  {
    if prior.outcome.Fail? then prior
    else match resolved
      case Err(e) => Scan(prior.cells, Fail(e))
      case Ok(None) => prior
      case Ok(Some(c)) => Scan(prior.cells + {c}, Pass)
  }

  /** The watch loop, watch by watch in list order; the first exception
      stops it with the cells gathered before it. */
  function Highlights(scope: Scope, arr: Val, ws: seq<Watch>): Scan
    decreases |ws|
  {
    if ws == [] then Scan({}, Pass)
    else Extend(Highlights(scope, arr, ws[..|ws| - 1]), ResolveWatch(scope, arr, ws[|ws| - 1]))
  }

  /** The watch loop of both trace functions, adding into the set in place. */
  method CollectHighlights(scope: Scope, arr: Val, ws: seq<Watch>) returns (cells: set<Cell>, r: Outcome)
    ensures Scan(cells, r) == Highlights(scope, arr, ws)
  {
    cells := {};
    var i := 0;
    while i < |ws|
      invariant 0 <= i <= |ws|
      invariant Highlights(scope, arr, ws[..i]) == Scan(cells, Pass)
    {
      assert ws[..i + 1][..i] == ws[..i];
      match ResolveWatch(scope, arr, ws[i]) {
        case Err(e) =>
          r := Fail(e);
          FailureIsFinal(scope, arr, ws, i + 1);
          return;
        case Ok(None) =>
        case Ok(Some(c)) =>
          cells := cells + {c};
      }
      i := i + 1;
    }
    assert ws[..i] == ws;
    r := Pass;
  }

  /** Once the loop has raised, later watches change nothing. */
  lemma {:induction false} FailureIsFinal(scope: Scope, arr: Val, ws: seq<Watch>, k: nat)
    requires k <= |ws|
    requires Highlights(scope, arr, ws[..k]).outcome.Fail?
    ensures Highlights(scope, arr, ws) == Highlights(scope, arr, ws[..k])
    decreases |ws| - k
  {
    if k < |ws| {
      assert ws[..k + 1][..k] == ws[..k];
      FailureIsFinal(scope, arr, ws, k + 1);
    } else {
      assert ws[..k] == ws;
    }
  }

  /** The loop runs to the end exactly when no watch raises. */
  lemma {:induction false} HighlightsPassIff(scope: Scope, arr: Val, ws: seq<Watch>)
    ensures Highlights(scope, arr, ws).outcome.Pass?
        <==> forall i :: 0 <= i < |ws| ==> ResolveWatch(scope, arr, ws[i]).Ok?
    decreases |ws|
  {
    if ws != [] {
      var init := ws[..|ws| - 1];
      HighlightsPassIff(scope, arr, init);
      assert forall i :: 0 <= i < |init| ==> init[i] == ws[i];
    }
  }

  /** When the loop raises, it raises the exception of the first watch that
      raises, and the set holds what the watches before it contributed. */
  lemma {:induction false} HighlightsFailure(scope: Scope, arr: Val, ws: seq<Watch>)
    requires Highlights(scope, arr, ws).outcome.Fail?
    ensures exists k ::
      && 0 <= k < |ws|
      && ResolveWatch(scope, arr, ws[k]) == Err(Highlights(scope, arr, ws).outcome.error)
      && Highlights(scope, arr, ws[..k]) == Scan(Highlights(scope, arr, ws).cells, Pass)
    decreases |ws|
  {
    var init := ws[..|ws| - 1];
    if Highlights(scope, arr, init).outcome.Fail? {
      HighlightsFailure(scope, arr, init);
      var k :| 0 <= k < |init|
        && ResolveWatch(scope, arr, init[k]) == Err(Highlights(scope, arr, init).outcome.error)
        && Highlights(scope, arr, init[..k]) == Scan(Highlights(scope, arr, init).cells, Pass);
      assert init[..k] == ws[..k];
      assert init[k] == ws[k];
    } else {
      assert ws[..|ws| - 1] == init;
    }
  }

  /** Every highlighted cell comes from some watch that resolves to it, also
      in the partial set an exception leaves behind. */
  lemma {:induction false} HighlightsSound(scope: Scope, arr: Val, ws: seq<Watch>)
    ensures forall c :: c in Highlights(scope, arr, ws).cells ==>
      exists i :: 0 <= i < |ws| && ResolveWatch(scope, arr, ws[i]) == Ok(Some(c))
    decreases |ws|
  {
    if ws != [] {
      var init := ws[..|ws| - 1];
      HighlightsSound(scope, arr, init);
      forall c | c in Highlights(scope, arr, ws).cells
        ensures exists i :: 0 <= i < |ws| && ResolveWatch(scope, arr, ws[i]) == Ok(Some(c))
      {
        if c in Highlights(scope, arr, init).cells {
          var i :| 0 <= i < |init| && ResolveWatch(scope, arr, init[i]) == Ok(Some(c));
          assert init[i] == ws[i];
        } else {
          assert ResolveWatch(scope, arr, ws[|ws| - 1]) == Ok(Some(c));
        }
      }
    }
  }

  /** When no watch raises, every cell a watch resolves to is highlighted:
      nothing is dropped, whatever the order or repetition of the watches. */
  lemma {:induction false} HighlightsComplete(scope: Scope, arr: Val, ws: seq<Watch>)
    requires Highlights(scope, arr, ws).outcome.Pass?
    ensures forall i, c :: 0 <= i < |ws| && ResolveWatch(scope, arr, ws[i]) == Ok(Some(c)) ==>
      c in Highlights(scope, arr, ws).cells
    decreases |ws|
  {
    if ws != [] {
      var init := ws[..|ws| - 1];
      HighlightsComplete(scope, arr, init);
      forall i, c | 0 <= i < |ws| && ResolveWatch(scope, arr, ws[i]) == Ok(Some(c))
        ensures c in Highlights(scope, arr, ws).cells
      {
        if i < |init| {
          assert init[i] == ws[i];
        }
      }
    }
  }

  /** The watch list without its bare literal entries. */
  function DropLiterals(ws: seq<Watch>): (r: seq<Watch>)
    ensures forall i :: 0 <= i < |r| ==> !r[i].Lit?
    decreases |ws|
  {
    if ws == [] then []
    else if ws[|ws| - 1].Lit? then DropLiterals(ws[..|ws| - 1])
    else DropLiterals(ws[..|ws| - 1]) + [ws[|ws| - 1]]
  }

  /** Bare literal watches are inert: removing them from the watch list
      changes neither the highlights nor the exception raised. */
  lemma {:induction false} LiteralWatchesIgnored(scope: Scope, arr: Val, ws: seq<Watch>)
    ensures Highlights(scope, arr, ws) == Highlights(scope, arr, DropLiterals(ws))
    decreases |ws|
  {
    if ws != [] {
      var init, last := ws[..|ws| - 1], ws[|ws| - 1];
      LiteralWatchesIgnored(scope, arr, init);
      if !last.Lit? {
        var d := DropLiterals(init) + [last];
        assert d[..|d| - 1] == DropLiterals(init) && d[|d| - 1] == last;
      }
    }
  }

  /** A bare name highlights `(value, 0)` exactly when it is bound to an int
      in `[0, len(arr) - 1]`; it never raises over a list. */
  lemma BareNameRule(scope: Scope, items: seq<Val>, s: string)
    ensures ResolveWatch(scope, ListV(items), Name(s)) ==
      if s in scope && scope[s].IntV? && 0 <= scope[s].n <= |items| - 1
      then Ok(Some((scope[s].n, 0)))
      else Ok(None)
  {
  }

  /** A pair is added whole or not at all: it yields a cell exactly when both
      tests pass, and the cell is the pair of component values. A named row
      lies in `[0, len(arr) - 1]`; a named column lies in the row that a
      named row selects. For a pair of names, in plain terms: a cell (the
      pair of their values) is added exactly when the row name is bound to an int in
      `[0, len(arr) - 1]` and the column name to an int in
      `[0, len(arr[row]) - 1]`. */
  lemma PairRule(scope: Scope, items: seq<Val>, x: Ref, y: Ref)
    ensures ResolveWatch(scope, ListV(items), Pair(x, y)).Ok? &&
            ResolveWatch(scope, ListV(items), Pair(x, y)).value.Some? <==>
      RowCheck(scope, ListV(items), x) == Ok(true) && ColumnCheck(scope, ListV(items), x, y) == Ok(true)
    ensures ResolveWatch(scope, ListV(items), Pair(x, y)) == Ok(Some((x.n, y.n))) <== x.RLit? && y.RLit?
    ensures forall c: Cell :: ResolveWatch(scope, ListV(items), Pair(x, y)) == Ok(Some(c)) ==>
      c == (if x.RLit? then x.n else scope[x.id].n, if y.RLit? then y.n else scope[y.id].n)
    ensures x.RName? && y.RName? ==>
      (ResolveWatch(scope, ListV(items), Pair(x, y)).Ok? &&
       ResolveWatch(scope, ListV(items), Pair(x, y)).value.Some? <==>
        && x.id in scope && scope[x.id].IntV? && 0 <= scope[x.id].n <= |items| - 1
        && y.id in scope && scope[y.id].IntV? && items[scope[x.id].n].ListV?
        && 0 <= scope[y.id].n <= |items[scope[x.id].n].items| - 1)
    ensures forall c: Cell :: ResolveWatch(scope, ListV(items), Pair(x, y)) == Ok(Some(c)) ==>
      && (x.RName? ==> x.id in scope && c.0 == scope[x.id].n && 0 <= c.0 < |items|)
      && (y.RName? ==> x.RName? && y.id in scope && c.1 == scope[y.id].n &&
                       items[c.0].ListV? && 0 <= c.1 < |items[c.0].items|)
  {
  }

  /** A literal row with a named column bound to a non-negative int raises
      `KeyError`: the row is looked up in `f_locals` as if it were a name. */
  lemma LiteralRowKeyError(scope: Scope, arr: Val, n: int, y: string)
    requires y in scope && scope[y].IntV? && scope[y].n >= 0
    ensures ResolveWatch(scope, arr, Pair(RLit(n), RName(y))) == Err(KeyError)
  {
  }

  /** A named row selecting an element that is not a list, with a named
      column bound to a non-negative int, raises `TypeError` from `len`. */
  lemma NonListRowTypeError(scope: Scope, items: seq<Val>, x: string, y: string)
    requires x in scope && scope[x].IntV? && 0 <= scope[x].n < |items|
    requires !items[scope[x].n].ListV?
    requires y in scope && scope[y].IntV? && scope[y].n >= 0
    ensures ResolveWatch(scope, ListV(items), Pair(RName(x), RName(y))) == Err(TypeError)
  {
  }

  /** Over a list, only a pair with a literal row and a named column, or
      with a named row over a non-list element, can raise. */
  lemma RaisesOnlyOnPairs(scope: Scope, items: seq<Val>, w: Watch)
    requires ResolveWatch(scope, ListV(items), w).Err?
    ensures w.Pair? && w.col.RName?
    ensures w.row.RLit? ==> ResolveWatch(scope, ListV(items), w) == Err(KeyError)
    ensures w.row.RName? ==>
      && ResolveWatch(scope, ListV(items), w) == Err(TypeError)
      && !items[scope[w.row.id].n].ListV?
  {
  }

  /** A watch whose references are all names. */
  predicate NamedOnly(w: Watch)
  {
    match w
    case Lit(_) => false
    case Name(_) => true
    case Pair(x, y) => x.RName? && y.RName?
  }

  /** With named references only, every highlighted row is an index into the
      tracked list: cells name positions that exist at that moment. */
  lemma {:induction false} NamedHighlightsInRange(scope: Scope, items: seq<Val>, ws: seq<Watch>)
    requires forall i :: 0 <= i < |ws| ==> NamedOnly(ws[i])
    ensures forall c :: c in Highlights(scope, ListV(items), ws).cells ==> 0 <= c.0 < |items|
  {
    HighlightsSound(scope, ListV(items), ws);
    forall c | c in Highlights(scope, ListV(items), ws).cells
      ensures 0 <= c.0 < |items|
    {
      var i :| 0 <= i < |ws| && ResolveWatch(scope, ListV(items), ws[i]) == Ok(Some(c));
      if ws[i].Pair? {
        PairRule(scope, items, ws[i].row, ws[i].col);
      }
    }
  }
}
