/**
 * `offsetBeforeQuery` (index.js:225-266) without its query: given the rows the store
 * answered in descending key order, apply the anchor step as written, trim to `last`,
 * put the page back in ascending order and derive the page info.
 */
module Backward {
  import opened Wrappers
  import opened Pages
  import Forward

  /** Line 226: a missing or zero `last` becomes 10. */
  function PageSize(last: Option<int>): (n: int)
    ensures n != 0
    ensures IsTruthyInt(last) ==> n == last.value
    ensures !IsTruthyInt(last) ==> n == 10
  {
    if IsTruthyInt(last) then last.value else 10
  }

  /**
   * The LIMIT of line 236. With a `before` cursor it is what the forward query asks for a page
   * of the same size (the page, the anchor and one row beyond); without one it is a row less,
   * since no anchor can come back.
   */
  function QueryLimit(last: Option<int>, before: Option<string>): (n: int)
    ensures IsTruthyString(before) ==> n == Forward.QueryLimit(PageSize(last), before)
    ensures !IsTruthyString(before) ==> n == Forward.QueryLimit(PageSize(last), before) - 1
  {
    if IsTruthyString(before) then PageSize(last) + 2 else PageSize(last) + 1
  }

  /** The test of line 244, as written: the LAST fetched row against `before`. */
  predicate TailIsAnchor(rows: seq<Row>, before: Option<string>) {
    IsTruthyString(before) && |rows| > 0 && rows[|rows| - 1].cursor == before.value
  }

  /** How many rows the anchor step of lines 243-251 takes off the front. */
  function TailSkip(rows: seq<Row>, before: Option<string>): nat {
    if TailIsAnchor(rows, before) then 1 else 0
  }

  /** Lines 243-251 take the full-answer branch: a `before` cursor, no tail match, `last + 2` rows. */
  predicate DropsSurplus(rows: seq<Row>, last: Option<int>, before: Option<string>) {
    IsTruthyString(before) && !TailIsAnchor(rows, before) && |rows| == PageSize(last) + 2
  }

  /**
   * The backward page as written: when the last row is `before`, the FIRST row is skipped; of
   * the remaining rows at most `last` are kept and returned in reverse; there is a previous
   * page when more than `last` rows followed the skip, and a next page unless the full-answer
   * branch ran.
   */
  function BeforeWindow(rows: seq<Row>, last: Option<int>, before: Option<string>): (r: Result<Connection, PageError>)
    requires |rows| <= Max(0, QueryLimit(last, before))
    ensures r.Failure? ==> r.error == UndefinedRow
    ensures r.Success? <==> 0 < PageSize(last) && TailSkip(rows, before) < |rows|
    ensures r.Success? ==> 1 <= |r.value.edges| <= PageSize(last)
    ensures r.Success? ==> TailSkip(rows, before) + |r.value.edges| <= |rows|
    ensures r.Success? ==>
      Reversed(r.value.edges) == rows[TailSkip(rows, before)..TailSkip(rows, before) + |r.value.edges|]
    ensures r.Success? ==> (r.value.pageInfo.hasPreviousPage <==> |rows| - TailSkip(rows, before) > PageSize(last))
    ensures r.Success? ==> (r.value.pageInfo.hasNextPage <==> !DropsSurplus(rows, last, before))
    ensures r.Success? && !IsTruthyString(before) ==> r.value.pageInfo.hasNextPage
    ensures r.Success? ==>
      var e := r.value.edges;
      r.value.pageInfo.startCursor == e[0].cursor && r.value.pageInfo.endCursor == e[|e| - 1].cursor
  {
    var size := PageSize(last);
    var skip := TailSkip(rows, before);
    if size <= 0 || |rows| <= skip then Failure(UndefinedRow)
    else
      var window := Window(rows, skip, size);
      ReversedTwice(window);
      ReversedEnds(window);
      Assemble(Reversed(window), !DropsSurplus(rows, last, before), |rows| - skip > size)
  }

  /** The rows the trim of lines 253-258 keeps out of those after the skip: all of them, or `size` when more came. */
  function Window(rows: seq<Row>, skip: nat, size: int): (w: seq<Row>)
    requires 0 < size && skip < |rows|
    ensures 1 <= |w| <= size && skip + |w| <= |rows|
    ensures w == rows[skip..skip + |w|]
    ensures |rows| - skip > size ==> |w| == size
    ensures |rows| - skip <= size ==> w == rows[skip..]
  {
    rows[skip..skip + Min(size, |rows| - skip)]
  }

  /**
   * The page is never cut short: read in descending order its edges are the rows that follow
   * the skip, exactly `last` of them when a previous page is reported, and all of them otherwise.
   */
  lemma BeforeWindowIsFull(rows: seq<Row>, last: Option<int>, before: Option<string>)
    requires |rows| <= Max(0, QueryLimit(last, before))
    ensures var r := BeforeWindow(rows, last, before); var skip := TailSkip(rows, before);
      r.Success? ==>
        && (r.value.pageInfo.hasPreviousPage ==> |r.value.edges| == PageSize(last))
        && (!r.value.pageInfo.hasPreviousPage ==> Reversed(r.value.edges) == rows[skip..])
  {
  }

  /** Lines 226 and 238-265, on the local `edges` array, step by step as the source does. */
  method TrimBefore(rows: seq<Row>, last: Option<int>, before: Option<string>) returns (r: Result<Connection, PageError>)
    requires |rows| <= Max(0, QueryLimit(last, before))
    ensures r == BeforeWindow(rows, last, before)
  {
    var size := PageSize(last);
    var edges := rows;
    ghost var lo, hi := 0, |rows|;
    assert edges == rows[lo..hi];
    var hasPreviousPage: bool;
    var hasNextPage := true;
    if IsTruthyString(before) {
      if |edges| == 0 {
        return Failure(UndefinedRow);
      }
      SliceNarrows(rows, lo, hi);
      if edges[|edges| - 1].cursor == before.value {
        hasNextPage := true;
        edges, lo := edges[1..], lo + 1;
      } else if |edges| == size + 2 {
        edges, hi := DropLast(edges), hi - 1;
        hasNextPage := false;
      }
    }
    assert lo == TailSkip(rows, before) && hasNextPage == !DropsSurplus(rows, last, before);
    if |edges| > size {
      if lo < hi {
        SliceNarrows(rows, lo, hi);
        hi := hi - 1;
      }
      edges := DropLast(edges);
      hasPreviousPage := true;
    } else {
      hasPreviousPage := false;
    }
    assert edges == rows[lo..hi] && hi == lo + Max(0, Min(size, |rows| - lo));
    TrimmedIsBeforeWindow(rows, last, before, lo, hi, hasNextPage, hasPreviousPage);
    edges := Reversed(edges);
    r := Assemble(edges, hasNextPage, hasPreviousPage);
  }

  /** The rows left by the trim, reversed and assembled with its two flags, are the `BeforeWindow` page. */
  lemma TrimmedIsBeforeWindow(rows: seq<Row>, last: Option<int>, before: Option<string>,
                              lo: nat, hi: nat, hasNextPage: bool, hasPreviousPage: bool)
    requires |rows| <= Max(0, QueryLimit(last, before))
    requires lo == TailSkip(rows, before) && hi == lo + Max(0, Min(PageSize(last), |rows| - lo)) && hi <= |rows|
    requires hasNextPage == !DropsSurplus(rows, last, before) && hasPreviousPage == (|rows| - lo > PageSize(last))
    ensures Assemble(Reversed(rows[lo..hi]), hasNextPage, hasPreviousPage) == BeforeWindow(rows, last, before)
  {
    var size := PageSize(last);
    if 0 < size && lo < |rows| {
      assert rows[lo..hi] == Window(rows, lo, size);
    }
  }

  // ----- The anchor test on the wrong end, and its correction -----

  /** The anchor where the descending order puts it: the FIRST row, the one nearest `before`. */
  predicate HeadIsAnchor(rows: seq<Row>, before: Option<string>) {
    IsTruthyString(before) && |rows| > 0 && rows[0].cursor == before.value
  }

  /**
   * With distinct keys and the anchor at the top of a full answer, the test of line 244
   * misses it: the anchor row itself comes back as the last edge, and `hasNextPage` is false
   * although the anchor and what follows it exist.
   */
  lemma AsWrittenReturnsAnchor(rows: seq<Row>, last: Option<int>, before: Option<string>)
    requires DistinctCursors(rows)
    requires HeadIsAnchor(rows, before)
    requires PageSize(last) > 0 && |rows| == PageSize(last) + 2
    ensures var r := BeforeWindow(rows, last, before);
      && r.Success?
      && r.value.edges[|r.value.edges| - 1] == rows[0]
      && r.value.pageInfo.endCursor == before.value
      && !r.value.pageInfo.hasNextPage
  {
  }

  /**
   * The backward trim as the forward one mirrors it: the first descending row is the anchor
   * and is skipped; a next page exists exactly when it was there; at most `last` of the rest
   * are kept and returned in ascending order.
   */
  function BeforeWindowIntended(rows: seq<Row>, last: Option<int>, before: Option<string>): (r: Result<Connection, PageError>)
    requires |rows| <= Max(0, QueryLimit(last, before))
    ensures r.Success? ==> 1 <= |r.value.edges| <= PageSize(last)
    ensures r.Success? ==> r.value.pageInfo.hasNextPage == HeadIsAnchor(rows, before)
  {
    var size := PageSize(last);
    var skip := if HeadIsAnchor(rows, before) then 1 else 0;
    var kept := Max(0, Min(size, |rows| - skip));
    Assemble(Reversed(rows[skip..skip + kept]), skip == 1, |rows| - skip > size)
  }

  /** With unique keys, the corrected trim never returns the `before` anchor as an edge. */
  lemma IntendedExcludesAnchor(rows: seq<Row>, last: Option<int>, before: Option<string>)
    requires |rows| <= Max(0, QueryLimit(last, before))
    requires DistinctCursors(rows) && HeadIsAnchor(rows, before)
    ensures var r := BeforeWindowIntended(rows, last, before);
      r.Success? ==> forall i :: 0 <= i < |r.value.edges| ==> r.value.edges[i].cursor != before.value
  {
    var size := PageSize(last);
    var window := rows[1..1 + Max(0, Min(size, |rows| - 1))];
    assert forall i :: 0 <= i < |window| ==> window[i] == rows[1 + i];
    ReversedElements(window);
  }

  /** A forward page read backwards: edges reversed, the cursors and the two flags exchanged. */
  function Mirror(r: Result<Connection, PageError>): Result<Connection, PageError> {
    match r
    case Failure(e) => Failure(e)
    case Success(c) =>
      Success(Connection(Reversed(c.edges),
        CursorPageInfo(c.pageInfo.endCursor, c.pageInfo.startCursor, c.pageInfo.hasPreviousPage, c.pageInfo.hasNextPage)))
  }

  /** The corrected backward trim is exactly the forward trim of the descending rows, mirrored. */
  lemma IntendedMirrorsForward(rows: seq<Row>, last: Option<int>, before: Option<string>)
    requires |rows| <= Max(0, QueryLimit(last, before))
    ensures BeforeWindowIntended(rows, last, before) == Mirror(Forward.AfterWindow(rows, PageSize(last), before))
  {
    var size, skip := PageSize(last), Forward.HeadSkip(rows, before);
    var hi := skip + Max(0, Min(size, |rows| - skip));
    assert HeadIsAnchor(rows, before) == Forward.Anchored(rows, before);
    Forward.TrimmedIsAfterWindow(rows, size, before, skip, hi, |rows| - skip > size, skip == 1);
    TrimmedIsIntended(rows, last, before, skip, hi);
    MirrorAssembled(rows[skip..hi], |rows| - skip > size, skip == 1);
  }

  /** The corrected page, for the skip and the bound it keeps. */
  lemma TrimmedIsIntended(rows: seq<Row>, last: Option<int>, before: Option<string>, lo: nat, hi: nat)
    requires |rows| <= Max(0, QueryLimit(last, before))
    requires lo == (if HeadIsAnchor(rows, before) then 1 else 0)
    requires hi == lo + Max(0, Min(PageSize(last), |rows| - lo)) && hi <= |rows|
    ensures BeforeWindowIntended(rows, last, before) == Assemble(Reversed(rows[lo..hi]), lo == 1, |rows| - lo > PageSize(last))
  {
  }

  /** Mirroring an assembled page assembles the reversed edges with the flags exchanged. */
  lemma MirrorAssembled(edges: seq<Row>, hasNextPage: bool, hasPreviousPage: bool)
    ensures Mirror(Assemble(edges, hasNextPage, hasPreviousPage)) == Assemble(Reversed(edges), hasPreviousPage, hasNextPage)
  {
    if |edges| > 0 {
      ReversedEnds(edges);
    }
  }

  /**
   * Paging backward from `b` with `last: 1` over keys b > a1 > a0: as written the page is
   * the anchor `b` itself with no next page; corrected it is `a1`, with a next page.
   */
  lemma AnchorQuirkExample()
    ensures BeforeWindow([ExampleRow("b"), ExampleRow("a1"), ExampleRow("a0")], Some(1), Some("b"))
         == Success(Connection([ExampleRow("b")], CursorPageInfo("b", "b", false, true)))
    ensures BeforeWindowIntended([ExampleRow("b"), ExampleRow("a1"), ExampleRow("a0")], Some(1), Some("b"))
         == Success(Connection([ExampleRow("a1")], CursorPageInfo("a1", "a1", true, true)))
  {
    var rows := [ExampleRow("b"), ExampleRow("a1"), ExampleRow("a0")];
    assert rows[2].cursor != "b" && rows[0].cursor == "b";
    assert TailSkip(rows, Some("b")) == 0 && DropsSurplus(rows, Some(1), Some("b"));
    assert HeadIsAnchor(rows, Some("b"));
    assert Window(rows, 0, 1) == rows[0..1];
    assert rows[0..1] == [ExampleRow("b")] && rows[1..2] == [ExampleRow("a1")];
    assert Reversed([ExampleRow("b")]) == [ExampleRow("b")];
    assert Reversed([ExampleRow("a1")]) == [ExampleRow("a1")];
  }

  /**
   * The last two keys, requested with `last: 5` and no cursor: as written there is a next
   * page although nothing follows the greatest key; corrected there is none.
   */
  lemma NoBeforeExample()
    ensures BeforeWindow([ExampleRow("a2"), ExampleRow("a1")], Some(5), None)
         == Success(Connection([ExampleRow("a1"), ExampleRow("a2")], CursorPageInfo("a1", "a2", true, false)))
    ensures BeforeWindowIntended([ExampleRow("a2"), ExampleRow("a1")], Some(5), None)
         == Success(Connection([ExampleRow("a1"), ExampleRow("a2")], CursorPageInfo("a1", "a2", false, false)))
  {
    var rows := [ExampleRow("a2"), ExampleRow("a1")];
    assert rows[0..2] == rows;
    assert Reversed(rows) == [ExampleRow("a1"), ExampleRow("a2")];
  }
}
