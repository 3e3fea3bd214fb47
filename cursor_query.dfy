/**
 * The dispatch of `cursorQueryAllByType` (index.js:168-181): which trim serves a
 * `routes(first, after, last, before)` request, with which page size and cursor, and the
 * LIMIT the store is then asked for.
 */
module CursorQuery {
  import opened Wrappers
  import opened Pages
  import Forward
  import Backward

  /** The four optional arguments of `routes`. */
  datatype CursorArgs = CursorArgs(first: Option<int>, after: Option<string>, last: Option<int>, before: Option<string>)

  /** The call lines 168-181 make: `offsetAfterQuery(first, after)` or `offsetBeforeQuery(last, before)`. */
  datatype Plan =
    | After(first: int, after: Option<string>)
    | Before(last: Option<int>, before: Option<string>)

  /** The number of edges the chosen trim keeps at most. */
  function PageSize(p: Plan): int {
    match p
    case After(first, _) => first
    case Before(last, _) => Backward.PageSize(last)
  }

  /** The cursor the chosen trim anchors at, when there is one. */
  function CursorOf(p: Plan): Option<string> {
    match p
    case After(_, after) => if IsTruthyString(after) then after else None
    case Before(_, before) => if IsTruthyString(before) then before else None
  }

  /** The LIMIT of the store query the chosen trim issues (lines 196 and 236). */
  function QueryLimit(p: Plan): int {
    match p
    case After(first, after) => Forward.QueryLimit(first, after)
    case Before(last, before) => Backward.QueryLimit(last, before)
  }

  /**
   * Lines 168-181. With no cursor, a truthy `first` pages forward, else a truthy `last`
   * backward, else forward by 10. A truthy `after` wins over `before`; it needs `first`,
   * without which the LIMIT is NaN.
   */
  function Dispatch(args: CursorArgs): (r: Result<Plan, PageError>)
    ensures r.Failure? <==> IsTruthyString(args.after) && args.first.None?
    ensures r.Failure? ==> r.error == NaNLimit
    ensures r.Success? ==>
      (r.value.After? <==>
        IsTruthyString(args.after) || (!IsTruthyString(args.before) && (IsTruthyInt(args.first) || !IsTruthyInt(args.last))))
    ensures r.Success? ==>
      CursorOf(r.value) ==
        if IsTruthyString(args.after) then args.after
        else if IsTruthyString(args.before) then args.before
        else None
    ensures r.Success? ==>
      PageSize(r.value) ==
        if IsTruthyString(args.after) then args.first.value
        else if !IsTruthyString(args.before) && IsTruthyInt(args.first) then args.first.value
        else Backward.PageSize(args.last)
  {
    if !IsTruthyString(args.after) && !IsTruthyString(args.before) then
      if IsTruthyInt(args.first) then Success(After(args.first.value, None))
      else if IsTruthyInt(args.last) then Success(Before(args.last, None))
      else Success(After(10, None))
    else if IsTruthyString(args.after) then
      if args.first.Some? then Success(After(args.first.value, args.after)) else Failure(NaNLimit)
    else
      Success(Before(args.last, args.before))
  }

  /** The trim the plan calls, applied to the store's answer to the plan's LIMIT. */
  function Serve(p: Plan, rows: seq<Row>): (r: Result<Connection, PageError>)
    requires |rows| <= Max(0, QueryLimit(p))
    ensures r.Failure? ==> r.error == UndefinedRow
    ensures r.Success? ==> 1 <= |r.value.edges| <= PageSize(p)
  {
    match p
    case After(first, after) => Forward.AfterWindow(rows, first, after)
    case Before(last, before) => Backward.BeforeWindow(rows, last, before)
  }

  /**
   * `cursorQueryAllByType` (lines 168-181) on the store's answer: the NaN LIMIT of a bare
   * `after` fails before any row is read; otherwise the chosen trim serves the page.
   */
  function Routes(args: CursorArgs, rows: seq<Row>): (r: Result<Connection, PageError>)
    requires Dispatch(args).Success? ==> |rows| <= Max(0, QueryLimit(Dispatch(args).value))
    ensures (r.Failure? && r.error == NaNLimit) <==> Dispatch(args).Failure?
    ensures r.Success? ==> 1 <= |r.value.edges| <= PageSize(Dispatch(args).value)
  {
    match Dispatch(args)
    case Failure(e) => Failure(e)
    case Success(p) => Serve(p, rows)
  }

  /**
   * The LIMIT rule: backward asks for two rows beyond the page with a cursor and one without;
   * forward always asks for two, because line 186 turns a missing `after` into 10.
   */
  lemma LimitRule(args: CursorArgs)
    requires Dispatch(args).Success?
    ensures var p := Dispatch(args).value;
      QueryLimit(p) == PageSize(p) + (if p.After? || CursorOf(p).Some? then 2 else 1)
  {
  }

  /**
   * A request with no argument at all is served forward by 10: of the at most 12 rows the
   * store returns, the first 10 are the page, with a next page exactly when more came.
   */
  lemma DefaultRequest(rows: seq<Row>)
    requires |rows| <= 12
    ensures Dispatch(CursorArgs(None, None, None, None)) == Success(After(10, None))
    ensures Routes(CursorArgs(None, None, None, None), rows) == Assemble(rows[..Min(10, |rows|)], |rows| > 10, false)
  {
    Forward.MissingAfterIsFirstPlusOne(rows, 10, None);
  }

  /**
   * A negative size is passed on unchecked: `{first: -5}` pages forward with LIMIT -3, the
   * store returns no row, and reading the first edge's cursor throws.
   */
  lemma NegativeFirstFails()
    ensures Dispatch(CursorArgs(Some(-5), None, None, None)) == Success(After(-5, None))
    ensures QueryLimit(After(-5, None)) == -3
    ensures Routes(CursorArgs(Some(-5), None, None, None), []) == Failure(UndefinedRow)
  {
  }
}
