/**
 * The values a cursor page is made of (index.js): the rows the store answers with,
 * the `CursorPageInfo` and connection objects the resolvers return, and the few
 * JavaScript behaviours the trimming code relies on (truthiness, `splice(-1)`,
 * `reverse()`, reading `cursor` off a missing element).
 */
module Pages {
  import opened Wrappers

  /** One row of the store's answer: `Meta().id as cursor` and the selected fields `as node`. */
  datatype Row = Row(cursor: string, node: map<string, string>)

  /** The `CursorPageInfo` object of the schema. */
  datatype CursorPageInfo = CursorPageInfo(
    startCursor: string,
    endCursor: string,
    hasNextPage: bool,
    hasPreviousPage: bool)

  /** `{ edges: edges, pageInfo: pageInfo }`. */
  datatype Connection = Connection(edges: seq<Row>, pageInfo: CursorPageInfo)

  /** The ways the modelled code rejects. */
  datatype PageError =
    | UndefinedRow     // `edges[0].cursor` (or the last element's) read on an empty array: a TypeError
    | NaNLimit         // `first + 2` with `first` undefined gives `LIMIT NaN`, which the store refuses
    | NonIntegerField  // a page number of Infinity, NaN or beyond 32 bits, which the `Int!` fields cannot carry

  /** JavaScript truthiness of an optional string argument: absent and "" are falsy. */
  predicate IsTruthyString(s: Option<string>) {
    s.Some? && s.value != ""
  }

  /** JavaScript truthiness of an optional `Int` argument: absent and 0 are falsy. */
  predicate IsTruthyInt(n: Option<int>) {
    n.Some? && n.value != 0
  }

  /** A row with the given key and no selected fields, as the examples use. */
  function ExampleRow(key: string): Row {
    Row(key, map[])
  }

  /** Store keys are unique, so no two rows of an answer share a cursor. */
  predicate DistinctCursors(rows: seq<Row>) {
    forall i, j :: 0 <= i < j < |rows| ==> rows[i].cursor != rows[j].cursor
  }

  function Min(a: int, b: int): int {
    if a < b then a else b
  }

  function Max(a: int, b: int): int {
    if a < b then b else a
  }

  /** `edges.splice(-1)`: removes the last element; an empty array stays empty. */
  function DropLast(s: seq<Row>): (r: seq<Row>)
    ensures |s| > 0 ==> |r| == |s| - 1
    ensures |s| == 0 ==> r == []
  {
    if |s| == 0 then s else s[..|s| - 1]
  }

  /** `splice(-1)` takes off the last element and keeps the rest in order. */
  lemma DropLastRemovesLast(s: seq<Row>)
    requires |s| > 0
    ensures DropLast(s) + [s[|s| - 1]] == s
  {
  }

  /** Taking the first or the last element off a slice narrows its bounds. */
  lemma SliceNarrows(s: seq<Row>, lo: int, hi: int)
    requires 0 <= lo < hi <= |s|
    ensures s[lo..hi][1..] == s[lo + 1..hi]
    ensures DropLast(s[lo..hi]) == s[lo..hi - 1]
  {
  }

  /** `edges.reverse()`. */
  function Reversed(s: seq<Row>): (r: seq<Row>)
    ensures |r| == |s|
  {
    if |s| == 0 then [] else [s[|s| - 1]] + Reversed(s[..|s| - 1])
  }

  /** Element `i` of the reversed sequence is element `|s| - 1 - i` of the original. */
  lemma {:induction false} ReversedAt(s: seq<Row>, i: int)
    requires 0 <= i < |s|
    ensures Reversed(s)[i] == s[|s| - 1 - i]
  {
    if i > 0 {
      ReversedAt(s[..|s| - 1], i - 1);
    }
  }

  /** Every element of the reversed sequence, by its position. */
  lemma ReversedElements(s: seq<Row>)
    ensures forall i :: 0 <= i < |s| ==> Reversed(s)[i] == s[|s| - 1 - i]
  {
    forall i | 0 <= i < |s| {
      ReversedAt(s, i);
    }
  }

  /** Reversing twice gives the sequence back. */
  lemma ReversedTwice(s: seq<Row>)
    ensures Reversed(Reversed(s)) == s
  {
    forall i | 0 <= i < |s|
      ensures Reversed(Reversed(s))[i] == s[i]
    {
      ReversedAt(Reversed(s), i);
      ReversedAt(s, |s| - 1 - i);
    }
  }

  /** The first element of a reversed sequence is the last one, and the other way round. */
  lemma ReversedEnds(s: seq<Row>)
    requires |s| > 0
    ensures Reversed(s)[0] == s[|s| - 1] && Reversed(s)[|s| - 1] == s[0]
  {
    ReversedAt(s, 0);
    ReversedAt(s, |s| - 1);
  }

  /**
   * The page object both trims return: the cursors are those of the first and the last
   * edge; on an empty page `edges[0]` is undefined and reading its `cursor` throws.
   */
  function Assemble(edges: seq<Row>, hasNextPage: bool, hasPreviousPage: bool): (r: Result<Connection, PageError>)
    ensures r.Failure? <==> edges == []
    ensures r.Failure? ==> r.error == UndefinedRow
    ensures r.Success? ==>
      && r.value.edges == edges
      && r.value.pageInfo.startCursor == edges[0].cursor
      && r.value.pageInfo.endCursor == edges[|edges| - 1].cursor
      && r.value.pageInfo.hasNextPage == hasNextPage
      && r.value.pageInfo.hasPreviousPage == hasPreviousPage
  {
    if |edges| == 0 then Failure(UndefinedRow)
    else Success(Connection(edges, CursorPageInfo(edges[0].cursor, edges[|edges| - 1].cursor, hasNextPage, hasPreviousPage)))
  }
}
