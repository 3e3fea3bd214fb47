/**
 * `offsetAfterQuery` (index.js:185-223) without its query: given the rows the store
 * answered in ascending key order, drop the `after` anchor or the surplus row, trim to
 * `first`, and derive the page info.
 */
module Forward {
  import opened Wrappers
  import opened Pages

  /** What `after` holds once line 186 has run: the caller's key, or the number 10 put in place of a falsy one. */
  datatype Bound = Key(key: string) | NumberTen

  function BoundOf(after: Option<string>): Bound {
    if IsTruthyString(after) then Key(after.value) else NumberTen
  }

  /** JavaScript truthiness of the bound, tested at lines 191, 196 and 202. */
  predicate IsTruthyBound(b: Bound) {
    b.NumberTen? || b.key != ""
  }

  /**
   * `row.cursor == after`. Against a key this is string equality; against the number 10
   * the model lets no store key match.
   */
  predicate Matches(cursor: string, b: Bound) {
    b.Key? && cursor == b.key
  }

  /** The LIMIT of line 196. Line 186 leaves `after` truthy, so it is always `first + 2`. */
  function QueryLimit(first: int, after: Option<string>): (n: int)
    ensures n == first + 2
  {
    if IsTruthyBound(BoundOf(after)) then first + 2 else first + 1
  }

  /** The test of line 203: the first fetched row is the `after` anchor. */
  predicate Anchored(rows: seq<Row>, after: Option<string>) {
    |rows| > 0 && Matches(rows[0].cursor, BoundOf(after))
  }

  /** How many rows the anchor step of lines 202-205 takes off the front. */
  function HeadSkip(rows: seq<Row>, after: Option<string>): nat {
    if Anchored(rows, after) then 1 else 0
  }

  /**
   * The forward page as a slice of the fetched rows: the anchor row is skipped when it is
   * there; of the rows after it at most `first` are kept; a next page exists when more than
   * `first` rows follow the anchor, a previous one when the anchor was there.
   */
  function AfterWindow(rows: seq<Row>, first: int, after: Option<string>): (r: Result<Connection, PageError>)
    requires |rows| <= Max(0, QueryLimit(first, after))
    ensures r.Failure? ==> r.error == UndefinedRow
    ensures r.Success? <==> 0 < first && (if Anchored(rows, after) then 1 else 0) < |rows|
    ensures r.Success? ==> 1 <= |r.value.edges| <= first
    ensures r.Success? ==> r.value.pageInfo.hasPreviousPage == Anchored(rows, after)
    ensures r.Success? ==>
      (r.value.pageInfo.hasNextPage <==> |rows| == first + 2 || (!Anchored(rows, after) && |rows| == first + 1))
    ensures r.Success? ==>
      var e := r.value.edges;
      r.value.pageInfo.startCursor == e[0].cursor && r.value.pageInfo.endCursor == e[|e| - 1].cursor
    ensures r.Success? ==> HeadSkip(rows, after) + |r.value.edges| <= |rows|
  {
    var skip := HeadSkip(rows, after);
    var kept := Max(0, Min(first, |rows| - skip));
    Assemble(rows[skip..skip + kept], |rows| - skip > first, skip == 1)
  }

  /**
   * The page is never cut short: its edges are the rows that follow the anchor, in order,
   * exactly `first` of them when a next page is reported, and all of them otherwise.
   */
  lemma AfterWindowIsFull(rows: seq<Row>, first: int, after: Option<string>)
    requires |rows| <= Max(0, QueryLimit(first, after))
    ensures var r := AfterWindow(rows, first, after); var skip := HeadSkip(rows, after);
      r.Success? ==>
        && r.value.edges == rows[skip..skip + |r.value.edges|]
        && (r.value.pageInfo.hasNextPage ==> |r.value.edges| == first)
        && (!r.value.pageInfo.hasNextPage ==> r.value.edges == rows[skip..])
  {
  }

  /** Lines 186 and 198-222, on the local `edges` array, step by step as the source does. */
  method TrimAfter(rows: seq<Row>, first: int, after: Option<string>) returns (r: Result<Connection, PageError>)
    requires |rows| <= Max(0, QueryLimit(first, after))
    ensures r == AfterWindow(rows, first, after)
  {
    var bound := BoundOf(after);
    var edges := rows;
    ghost var lo, hi := 0, |rows|;
    assert edges == rows[lo..hi];
    var hasNextPage := true;
    var hasPreviousPage := false;
    if IsTruthyBound(bound) {
      if |edges| == 0 {
        return Failure(UndefinedRow);
      }
      SliceNarrows(rows, lo, hi);
      if Matches(edges[0].cursor, bound) {
        hasPreviousPage := true;
        edges, lo := edges[1..], lo + 1;
      } else if |edges| == first + 2 {
        edges, hi := DropLast(edges), hi - 1;
        hasPreviousPage := false;
      }
    }
    assert lo == HeadSkip(rows, after) && hasPreviousPage == (lo == 1);
    if |edges| > first {
      if lo < hi {
        SliceNarrows(rows, lo, hi);
        hi := hi - 1;
      }
      edges := DropLast(edges);
    } else {
      hasNextPage := false;
    }
    assert edges == rows[lo..hi] && hi == lo + Max(0, Min(first, |rows| - lo));
    TrimmedIsAfterWindow(rows, first, after, lo, hi, hasNextPage, hasPreviousPage);
    r := Assemble(edges, hasNextPage, hasPreviousPage);
  }

  /** The rows left by the trim, assembled with its two flags, are the `AfterWindow` page. */
  lemma TrimmedIsAfterWindow(rows: seq<Row>, first: int, after: Option<string>,
                             lo: nat, hi: nat, hasNextPage: bool, hasPreviousPage: bool)
    requires |rows| <= Max(0, QueryLimit(first, after))
    requires lo == HeadSkip(rows, after) && hi == lo + Max(0, Min(first, |rows| - lo)) && hi <= |rows|
    requires hasNextPage == (|rows| - lo > first) && hasPreviousPage == (lo == 1)
    ensures Assemble(rows[lo..hi], hasNextPage, hasPreviousPage) == AfterWindow(rows, first, after)
  {
  }

  /**
   * The anchor step of lines 202-210, case by case: the anchor row is dropped and flags a
   * previous page; otherwise a full answer of `first + 2` rows loses its last row; otherwise
   * the rows are kept as they came.
   */
  lemma AfterAnchorStep(rows: seq<Row>, first: int, after: Option<string>)
    requires |rows| <= Max(0, QueryLimit(first, after))
    ensures var r := AfterWindow(rows, first, after);
      r.Success? ==>
        if Anchored(rows, after) then
          r.value.pageInfo.hasPreviousPage && r.value.edges == rows[1..1 + |r.value.edges|]
        else if |rows| == first + 2 then
          !r.value.pageInfo.hasPreviousPage && r.value.edges == rows[..first]
        else
          !r.value.pageInfo.hasPreviousPage && r.value.edges == rows[..Min(first, |rows|)]
  {
  }

  /**
   * A missing (or empty) `after` is replaced by 10 and matches no row, so the forward trim
   * behaves as the `first + 1` rule: the first `min(first, n)` rows, a next page exactly when
   * more than `first` rows came, never a previous page; and the store's answer to
   * `LIMIT first + 1`, a prefix of its answer to `LIMIT first + 2`, gives the same page.
   */
  lemma MissingAfterIsFirstPlusOne(rows: seq<Row>, first: int, after: Option<string>)
    requires !IsTruthyString(after)
    requires |rows| <= Max(0, first + 2)
    ensures AfterWindow(rows, first, after) == Assemble(rows[..Max(0, Min(first, |rows|))], |rows| > first, false)
    ensures var k := Max(0, Min(|rows|, first + 1));
      AfterWindow(rows[..k], first, after) == AfterWindow(rows, first, after)
  {
    var k := Max(0, Min(|rows|, first + 1));
    assert rows[..k][..Max(0, Min(first, k))] == rows[..Max(0, Min(first, |rows|))];
  }

  /**
   * The usage example: twelve keys, pages of five, each next call passing the previous
   * `endCursor`. The keys are zero-padded so that the store's string order is the order shown.
   */
  lemma ForwardPagingExample(rows: seq<Row>)
    requires rows == [ExampleRow("a01"), ExampleRow("a02"), ExampleRow("a03"), ExampleRow("a04"),
                      ExampleRow("a05"), ExampleRow("a06"), ExampleRow("a07"), ExampleRow("a08"),
                      ExampleRow("a09"), ExampleRow("a10"), ExampleRow("a11"), ExampleRow("a12")]
    ensures AfterWindow(rows[0..7], 5, None) == Success(Connection(rows[0..5], CursorPageInfo("a01", "a05", true, false)))
    ensures AfterWindow(rows[4..11], 5, Some("a05")) == Success(Connection(rows[5..10], CursorPageInfo("a06", "a10", true, true)))
    ensures AfterWindow(rows[9..12], 5, Some("a10")) == Success(Connection(rows[10..12], CursorPageInfo("a11", "a12", false, true)))
  {
    var first, second, third := rows[0..7], rows[4..11], rows[9..12];
    assert HeadSkip(first, None) == 0 && first[0..5] == rows[0..5];
    TrimmedIsAfterWindow(first, 5, None, 0, 5, true, false);
    assert HeadSkip(second, Some("a05")) == 1 && second[1..6] == rows[5..10];
    TrimmedIsAfterWindow(second, 5, Some("a05"), 1, 6, true, true);
    assert HeadSkip(third, Some("a10")) == 1 && third[1..3] == rows[10..12];
    TrimmedIsAfterWindow(third, 5, Some("a10"), 1, 3, false, true);
  }
}
