/** Chapter range resolution (IsoFileCore.get_title, after the clip and its
    boundary list are chosen): a query becomes the frames [start, end) of the
    chosen clip, looked up in its boundary list with Python's indexing. */
module Ranges {
  import opened Common
  import opened Titles
  import TitleFacts

  /** The `chapters` argument: None, an int, a (start, end) tuple or a list. */
  datatype Query =
    | Whole
    | Chapter(index: int)
    | Span(first: Option<int>, last: Option<int>)
    | Several(queries: seq<Query>)

  /** What get_title returns: the chosen clip itself, the slice
      `clip[start:end]`, or one result per query of a list. */
  datatype Selection =
    | Clip
    | Frames(start: int, end: int)
    | Each(items: seq<Selection>)

  /** A boundary lookup outside the list (Python's IndexError). */
  datatype RangeError = IndexOutOfRange

  /** `clip[start:end]` once both boundary lookups succeeded. The frames are
      recorded as looked up: a start past the end (a reversed or empty slice)
      is still a selection here, whatever the video library makes of it. */
  function Slice(start: Option<int>, end: Option<int>): Result<Selection, RangeError>
  {
    if start.Some? && end.Some? then Success(Frames(start.value, end.value))
    else Failure(IndexOutOfRange)
  }

  /** An integer query: chapter `c`, counted from the end when negative. The
      index one past the last chapter, `len - 1`, gives the last chapter too. */
  function ChapterRange(ranges: seq<int>, c: int): Result<Selection, RangeError>
  {
    var len := |ranges|;
    if len == 0 then Failure(IndexOutOfRange)
    else if c == len - 1 then Slice(PyIndex(ranges, -2), PyIndex(ranges, -1))
    else if c == 0 then Slice(PyIndex(ranges, 0), PyIndex(ranges, 1))
    else if c < 0 then Slice(PyIndex(ranges, len - 1 + c), PyIndex(ranges, len + c))
    else Slice(PyIndex(ranges, c), PyIndex(ranges, c + 1))
  }

  /** The start index of a tuple query: missing means 0, negative counts back
      from `len - 1`. */
  function SpanStart(len: int, first: Option<int>): int
  {
    match first
    case None => 0
    case Some(s) => if s < 0 then len - 1 + s else s
  }

  /** The end index of a tuple query: missing means `len - 1`, a non-negative
      end is inclusive (one is added), a negative end counts back from
      `len - 1` and gets nothing added. */
  function SpanEnd(len: int, last: Option<int>): int
  {
    match last
    case None => len - 1
    case Some(e) => if e < 0 then len - 1 + e else e + 1
  }

  function SpanRange(ranges: seq<int>, first: Option<int>, last: Option<int>): Result<Selection, RangeError>
  {
    Slice(PyIndex(ranges, SpanStart(|ranges|, first)), PyIndex(ranges, SpanEnd(|ranges|, last)))
  }

  /** The results of a list of queries, or the first error among them. */
  function Collect(results: seq<Result<Selection, RangeError>>): (r: Result<seq<Selection>, RangeError>)
    ensures r.Success? <==> forall i :: 0 <= i < |results| ==> results[i].Success?
    ensures r.Success? ==>
      |r.value| == |results| && forall i :: 0 <= i < |results| ==> r.value[i] == results[i].value
  {
    if results == [] then Success([])
    else if results[0].Failure? then Failure(results[0].error)
    else match Collect(results[1..])
      case Failure(e) => Failure(e)
      case Success(rest) => Success([results[0].value] + rest)
  }

  function Resolve(ranges: seq<int>, q: Query): Result<Selection, RangeError>
    decreases q
  {
    match q
    case Whole => Success(Clip)
    case Chapter(c) => ChapterRange(ranges, c)
    case Span(first, last) => SpanRange(ranges, first, last)
    case Several(qs) =>
      var results := seq(|qs|, i requires 0 <= i < |qs| => Resolve(ranges, qs[i]));
      match Collect(results)
      case Failure(e) => Failure(e)
      case Success(items) => Success(Each(items))
  }

  // ---------------------------------------------------------------------
  // Integer queries

  /** Chapter `c` of a list of `len` boundaries, `0 < c < len - 1`, runs
      from boundary `c` to boundary `c + 1`; so does chapter 0. */
  lemma ChapterBetweenBoundaries(ranges: seq<int>, c: int)
    requires 0 <= c && c + 1 < |ranges|
    ensures Resolve(ranges, Chapter(c)) == Success(Frames(ranges[c], ranges[c + 1]))
  {
  }

  /** Index `len - 1` is not rejected: it gives the last chapter, as index
      `len - 2` does. */
  lemma PastLastIndexGivesLastChapter(ranges: seq<int>)
    requires |ranges| >= 2
    ensures Resolve(ranges, Chapter(|ranges| - 1)) == Resolve(ranges, Chapter(|ranges| - 2))
    ensures Resolve(ranges, Chapter(|ranges| - 1))
         == Success(Frames(ranges[|ranges| - 2], ranges[|ranges| - 1]))
  {
  }

  /** A negative chapter `c` is chapter `len - 1 + c` counted from the front:
      -1 is the last chapter. */
  lemma NegativeChapterFromEnd(ranges: seq<int>, c: int)
    requires -(|ranges| - 1) <= c < 0
    ensures Resolve(ranges, Chapter(c)) == Resolve(ranges, Chapter(|ranges| - 1 + c))
    ensures Resolve(ranges, Chapter(c)) == Success(Frames(ranges[|ranges| - 1 + c], ranges[|ranges| + c]))
  {
  }

  /** An integer query fails from `len` upwards. Below zero both lookups
      are Python indices, so they wrap around a second time: the query only
      fails below `1 - 2 * len`. Chapter 0 of a one-entry list fails (it is
      also `len - 1`, which reads `ranges[-2]`), while chapter -1 of it
      selects the empty range at its only boundary. */
  lemma ChapterIndexErrors(ranges: seq<int>, c: int)
    ensures Resolve(ranges, Chapter(c)).Success? <==>
      1 - 2 * |ranges| <= c < |ranges| && (c != 0 || |ranges| >= 2)
    ensures |ranges| == 1 && c == -1 ==> Resolve(ranges, Chapter(c)) == Success(Frames(ranges[0], ranges[0]))
  {
  }

  /** On a well-formed boundary list every chapter query in range selects
      frames inside the list's span, start before end. */
  lemma ChapterWithinTitle(ranges: seq<int>, c: int)
    requires ranges != [] && ranges[0] == 0 && NonDecreasing(ranges)
    requires -(|ranges| - 1) <= c < |ranges|
    requires Resolve(ranges, Chapter(c)).Success?
    ensures var s := Resolve(ranges, Chapter(c)).value;
      s.Frames? && 0 <= s.start <= s.end <= Last(ranges)
  {
  }

  // ---------------------------------------------------------------------
  // Tuple queries

  /** `(a, b)` with `0 <= a` and `0 <= b` selects chapters `a` through `b`
      inclusive. */
  lemma SpanIsInclusive(ranges: seq<int>, a: int, b: int)
    requires 0 <= a < |ranges| && 0 <= b && b + 1 < |ranges|
    ensures Resolve(ranges, Span(Some(a), Some(b))) == Success(Frames(ranges[a], ranges[b + 1]))
  {
  }

  /** A negative end is not inclusive: `(a, b)` with `b < 0` is `(a, len - 2 + b)`,
      so `-1` stops before the last chapter. */
  lemma NegativeEndExcludesLast(ranges: seq<int>, first: Option<int>, b: int)
    requires b < 0 && 0 <= |ranges| - 2 + b
    ensures Resolve(ranges, Span(first, Some(b))) == Resolve(ranges, Span(first, Some(|ranges| - 2 + b)))
  {
  }

  /** A negative start counts back from `len - 1`. */
  lemma NegativeStartFromEnd(ranges: seq<int>, a: int, last: Option<int>)
    requires -(|ranges| - 1) <= a < 0
    ensures Resolve(ranges, Span(Some(a), last)) == Resolve(ranges, Span(Some(|ranges| - 1 + a), last))
  {
  }

  /** Missing ends select the whole list. */
  lemma OpenSpanIsWhole(ranges: seq<int>)
    requires ranges != []
    ensures Resolve(ranges, Span(None, None)) == Success(Frames(ranges[0], Last(ranges)))
  {
  }

  // ---------------------------------------------------------------------
  // Lists of queries

  /** A list of queries resolves each one in order against the same list, and
      fails when any of them fails. */
  lemma SeveralResolvesEach(ranges: seq<int>, qs: seq<Query>)
    ensures Resolve(ranges, Several(qs)).Success? <==>
      forall i :: 0 <= i < |qs| ==> Resolve(ranges, qs[i]).Success?
    ensures Resolve(ranges, Several(qs)).Success? ==>
      var s := Resolve(ranges, Several(qs)).value;
      s.Each? && |s.items| == |qs|
      && forall i :: 0 <= i < |qs| ==> s.items[i] == Resolve(ranges, qs[i]).value
  {
    var results := seq(|qs|, i requires 0 <= i < |qs| => Resolve(ranges, qs[i]));
    assert forall i :: 0 <= i < |qs| ==> results[i] == Resolve(ranges, qs[i]);
  }

  // ---------------------------------------------------------------------
  // The four-chapter example

  const Example: seq<int> := [0, 100, 200, 300]

  lemma ExampleQueries()
    ensures Resolve(Example, Chapter(0)) == Success(Frames(0, 100))
    ensures Resolve(Example, Chapter(1)) == Success(Frames(100, 200))
    ensures Resolve(Example, Chapter(3)) == Success(Frames(200, 300))
    ensures Resolve(Example, Chapter(-1)) == Success(Frames(200, 300))
    ensures Resolve(Example, Chapter(4)) == Failure(IndexOutOfRange)
    ensures Resolve(Example, Span(Some(1), Some(-1))) == Success(Frames(100, 200))
    ensures Resolve(Example, Span(Some(1), Some(2))) == Success(Frames(100, 300))
    ensures Resolve(Example, Span(None, None)) == Success(Frames(0, 300))
    ensures Resolve(Example, Whole) == Success(Clip)
    ensures Resolve(Example, Several([Chapter(0), Span(None, None)]))
         == Success(Each([Frames(0, 100), Frames(0, 300)]))
  {
    var qs := [Chapter(0), Span(None, None)];
    SeveralResolvesEach(Example, qs);
    assert Resolve(Example, qs[0]) == Success(Frames(0, 100));
    assert Resolve(Example, qs[1]) == Success(Frames(0, 300));
    assert Resolve(Example, Several(qs)).value.items == [Frames(0, 100), Frames(0, 300)];
  }

  // ---------------------------------------------------------------------
  // Choosing the clip

  /** The clip get_title slices (the joined clip, or one title's clip) and
      the selection made in it. */
  datatype Title = Title(clip: seq<Interval>, selection: Selection)

  /** get_title once the titles are split: with no clip index the joined
      clip and joined chapter list are used, otherwise the title's own
      (Python indexing, so negative indices count from the end). */
  function PickTitle(t: TitleSet, clipIndex: Option<int>, q: Query): Result<Title, RangeError>
  {
    var picked: Option<(seq<int>, seq<Interval>)> :=
      match clipIndex
      case None => Some((t.joined, t.clips))
      case Some(i) =>
        match (PyIndex(t.chapters, i), PyIndex(t.clips, i))
        case (Some(ranges), Some(clip)) => Some((ranges, [clip]))
        case _ => None;
    match picked
    case None => Failure(IndexOutOfRange)
    case Some((ranges, clip)) =>
      match Resolve(ranges, q)
      case Failure(e) => Failure(e)
      case Success(s) => Success(Title(clip, s))
  }

  /** Because the joined chapter list is the first title's list, extended in
      place, a query without a clip index selects the same frames as the
      same query on title 0, counted in the joined clip. */
  lemma JoinedQueriesMatchFirstTitle(rows: seq<seq<int>>, menu: nat, n: int, safe: bool, q: Query)
    requires AllNonEmpty(rows) && (rows != [] || menu != 0)
    ensures var t := SplitTitlesResult(rows, menu, n, safe).value;
      PickTitle(t, None, q).Success? <==> PickTitle(t, Some(0), q).Success?
    ensures var t := SplitTitlesResult(rows, menu, n, safe).value;
      PickTitle(t, None, q).Success? ==>
        PickTitle(t, None, q).value == Title(t.clips, PickTitle(t, Some(0), q).value.selection)
  {
    TitleFacts.FirstListIsJoined(rows, menu, n, safe);
  }

  /** A negative clip index picks the title counted from the end, and an
      index outside the title list fails, whatever the query. */
  lemma ClipIndexFromEnd(t: TitleSet, i: int, q: Query)
    requires |t.chapters| == |t.clips|
    ensures -|t.chapters| <= i < 0 ==> PickTitle(t, Some(i), q) == PickTitle(t, Some(|t.chapters| + i), q)
    ensures !(-|t.chapters| <= i < |t.chapters|) ==> PickTitle(t, Some(i), q) == Failure(IndexOutOfRange)
  {
    if -|t.chapters| <= i < 0 {
      assert PyIndex(t.chapters, i) == PyIndex(t.chapters, |t.chapters| + i);
      assert PyIndex(t.clips, i) == PyIndex(t.clips, |t.clips| + i);
    }
  }

  /** The split titles always have one chapter list per clip. */
  lemma SplitTitlesIndexFromEnd(rows: seq<seq<int>>, menu: nat, n: int, safe: bool, i: int, q: Query)
    requires AllNonEmpty(rows) && (rows != [] || menu != 0)
    ensures var t := SplitTitlesResult(rows, menu, n, safe).value;
      -|t.chapters| <= i < 0 ==> PickTitle(t, Some(i), q) == PickTitle(t, Some(|t.chapters| + i), q)
    ensures var t := SplitTitlesResult(rows, menu, n, safe).value;
      !(-|t.chapters| <= i < |t.chapters|) ==> PickTitle(t, Some(i), q) == Failure(IndexOutOfRange)
  {
    TitleFacts.FirstListIsJoined(rows, menu, n, safe);
    ClipIndexFromEnd(SplitTitlesResult(rows, menu, n, safe).value, i, q);
  }

  /** After the repair of `TitleFacts.ClampTitles` the clamp sits below the
      boundary kept before it, so chapter 1 of the first title is the reversed
      slice from frame 99 back to frame 97, and `get_title` on title 0 returns
      it as a selection of that title's clip. */
  lemma ReversedChapterAfterRepair()
    ensures var t := SplitTitlesResult(TitleFacts.ClampTitles, 0, 100, true).value;
      Resolve(t.chapters[0], Chapter(1)) == Success(Frames(99, 97))
    ensures var t := SplitTitlesResult(TitleFacts.ClampTitles, 0, 100, true).value;
      PickTitle(t, Some(0), Chapter(1)) == Success(Title([t.clips[0]], Frames(99, 97)))
  {
    TitleFacts.ExampleTitlesNonEmpty();
    TitleFacts.ClampBelowKeptBoundary();
    var t := SplitTitlesResult(TitleFacts.ClampTitles, 0, 100, true).value;
    ChapterBetweenBoundaries(t.chapters[0], 1);
  }

  /** With more titles than frames (`TitleFacts.ManyTitles`) the clamp is
      negative, and chapter 0 of the first title runs from frame 0 to -1. */
  lemma NegativeChapterAfterRepair()
    ensures var t := SplitTitlesResult(TitleFacts.ManyTitles, 0, 1, true).value;
      Resolve(t.chapters[0], Chapter(0)) == Success(Frames(0, -1))
    ensures var t := SplitTitlesResult(TitleFacts.ManyTitles, 0, 1, true).value;
      PickTitle(t, Some(0), Chapter(0)) == Success(Title([t.clips[0]], Frames(0, -1)))
  {
    TitleFacts.ExampleTitlesNonEmpty();
    TitleFacts.NegativeClampExample();
    var t := SplitTitlesResult(TitleFacts.ManyTitles, 0, 1, true).value;
    ChapterBetweenBoundaries(t.chapters[0], 0);
  }
}
