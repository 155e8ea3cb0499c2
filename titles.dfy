/** Title splitting, joining and the "safe indices" repair, on values.
    A title's sub-clip is the half-open interval of frame numbers it takes
    from the decoded clip, so a spliced clip is a list of intervals. These
    functions say what IsoFileCore.split_titles computes; IsoFiles.IsoFile
    reproduces how it computes it, in place and with its shared lists. */
module Titles {
  import opened Common

  /** The frames [lo, hi) of the decoded clip. */
  datatype Interval = Interval(lo: int, hi: int)

  function Length(iv: Interval): int
  {
    iv.hi - iv.lo
  }

  /** Number of frames of a clip spliced from intervals. */
  function FrameCount(clip: seq<Interval>): int
  {
    if clip == [] then 0 else FrameCount(clip[..|clip| - 1]) + Length(Last(clip))
  }

  ghost predicate Within(iv: Interval, n: int)
  {
    0 <= iv.lo <= iv.hi <= n
  }

  /** A well-formed chapter-boundary list: starts at 0 and never decreases. */
  ghost predicate Boundaries(row: seq<int>)
  {
    row != [] && row[0] == 0 && NonDecreasing(row)
  }

  ghost predicate AllNonEmpty(rows: seq<seq<int>>)
  {
    forall k :: 0 <= k < |rows| ==> rows[k] != []
  }

  // ---------------------------------------------------------------------
  // Menu length

  /** The first video is a menu when its size exceeds `2 << 12` bytes. */
  const MenuSizeThreshold: int := 8192

  /** The menu length: the number of frame-data records of the index when the
      first video is larger than the threshold, otherwise no menu. */
  function MenuLength(firstVideoSize: int, frameDataCount: nat): (menu: nat)
    ensures menu != 0 <==> firstVideoSize > MenuSizeThreshold && frameDataCount != 0
    ensures menu != 0 ==> menu == frameDataCount
  {
    if firstVideoSize > MenuSizeThreshold then frameDataCount else 0
  }

  // ---------------------------------------------------------------------
  // Splitting

  function Lasts(rows: seq<seq<int>>): seq<int>
    requires AllNonEmpty(rows)
  {
    seq(|rows|, k requires 0 <= k < |rows| && rows[k] != [] => Last(rows[k]))
  }

  /** `durations`: the running sums of the titles' last boundaries. */
  function Durations(rows: seq<seq<int>>): seq<int>
    requires AllNonEmpty(rows)
  {
    Accumulate(Lasts(rows))
  }

  /** The intervals between consecutive split points, after the first `menu` frames. */
  function Tiles(points: seq<int>, menu: int): (r: seq<Interval>)
    requires points != []
    ensures |r| == |points| - 1
  {
    seq(|points| - 1, i requires 0 <= i < |points| - 1 => Interval(menu + points[i], menu + points[i + 1]))
  }

  function MenuClip(menu: nat): seq<Interval>
  {
    if menu != 0 then [Interval(0, menu)] else []
  }

  function MenuRow(menu: nat): seq<seq<int>>
  {
    if menu != 0 then [[0, menu]] else []
  }

  /** The sub-clips of one split: one per title, then the menu. */
  function SplitClips(rows: seq<seq<int>>, menu: nat): seq<Interval>
    requires AllNonEmpty(rows)
  {
    Tiles(Durations(rows), menu) + MenuClip(menu)
  }

  /** The chapter lists after one split: the titles', then the menu's. */
  function SplitRows(rows: seq<seq<int>>, menu: nat): (r: seq<seq<int>>)
    requires AllNonEmpty(rows)
    ensures AllNonEmpty(r)
  {
    rows + MenuRow(menu)
  }

  /** Title `i` takes the frames after the menu and after every earlier title. */
  lemma TitleInterval(rows: seq<seq<int>>, menu: nat, i: nat)
    requires AllNonEmpty(rows) && i < |rows|
    ensures |SplitClips(rows, menu)| == |rows| + |MenuClip(menu)|
    ensures SplitClips(rows, menu)[i] ==
      Interval(menu + Sum(Lasts(rows)[..i]), menu + Sum(Lasts(rows)[..i + 1]))
  {
    AccumulateIsPrefixSum(Lasts(rows), i);
    AccumulateIsPrefixSum(Lasts(rows), i + 1);
  }

  lemma {:induction false} TilesFrameCount(points: seq<int>, menu: int)
    requires points != []
    ensures FrameCount(Tiles(points, menu)) == Last(points) - points[0]
  {
    var n := |points|;
    if n > 1 {
      TilesFrameCount(points[..n - 1], menu);
      assert Tiles(points, menu)[..n - 2] == Tiles(points[..n - 1], menu);
    }
  }

  lemma {:induction false} FrameCountAppend(a: seq<Interval>, b: seq<Interval>)
    ensures FrameCount(a + b) == FrameCount(a) + FrameCount(b)
  {
    if b != [] {
      FrameCountAppend(a, b[..|b| - 1]);
      assert (a + b)[..|a + b| - 1] == a + b[..|b| - 1];
    } else {
      assert a + b == a;
    }
  }

  /** The split takes exactly the menu plus every title's last boundary. */
  lemma SplitFrameCount(rows: seq<seq<int>>, menu: nat)
    requires AllNonEmpty(rows)
    ensures FrameCount(SplitClips(rows, menu)) == menu + Sum(Lasts(rows))
  {
    TilesFrameCount(Durations(rows), menu);
    AccumulateEndsAtSum(Lasts(rows));
    FrameCountAppend(Tiles(Durations(rows), menu), MenuClip(menu));
    if menu != 0 {
      assert FrameCount(MenuClip(menu)) == FrameCount([]) + menu;
    }
  }

  /** The title intervals are contiguous: the first starts right after the
      menu, each starts where the previous ends, the last ends at the menu
      plus the total of the titles. */
  lemma TitlesContiguous(rows: seq<seq<int>>, menu: nat)
    requires AllNonEmpty(rows) && rows != []
    ensures var clips := SplitClips(rows, menu);
      && clips[0].lo == menu
      && (forall i :: 0 < i < |rows| ==> clips[i].lo == clips[i - 1].hi)
      && clips[|rows| - 1].hi == menu + Sum(Lasts(rows))
  {
    AccumulateEndsAtSum(Lasts(rows));
  }

  /** With non-negative title lengths, every frame after the menu and before
      the end of the last title lies in exactly one title's interval. */
  lemma EveryFrameInOneTitle(rows: seq<seq<int>>, menu: nat, f: int)
    requires AllNonEmpty(rows)
    requires forall k :: 0 <= k < |rows| ==> Last(rows[k]) >= 0
    requires menu <= f < menu + Sum(Lasts(rows))
    ensures exists i :: 0 <= i < |rows| && SplitClips(rows, menu)[i].lo <= f < SplitClips(rows, menu)[i].hi
    ensures forall i, i' ::
      0 <= i < |rows| && 0 <= i' < |rows|
      && SplitClips(rows, menu)[i].lo <= f < SplitClips(rows, menu)[i].hi
      && SplitClips(rows, menu)[i'].lo <= f < SplitClips(rows, menu)[i'].hi
      ==> i == i'
  {
    var d := Durations(rows);
    var clips := SplitClips(rows, menu);
    AccumulateNonDecreasing(Lasts(rows));
    AccumulateEndsAtSum(Lasts(rows));
    assert forall i :: 0 <= i < |rows| ==> clips[i] == Tiles(d, menu)[i];
    var i := TileOf(d, menu, f);
    assert clips[i] == Tiles(d, menu)[i];
    TilesDisjoint(d, menu, f);
  }

  /** Over non-decreasing points, no frame lies in two different tiles. */
  lemma TilesDisjoint(points: seq<int>, menu: int, f: int)
    requires points != [] && NonDecreasing(points)
    ensures forall i, i' ::
      0 <= i < |points| - 1 && 0 <= i' < |points| - 1
      && Tiles(points, menu)[i].lo <= f < Tiles(points, menu)[i].hi
      && Tiles(points, menu)[i'].lo <= f < Tiles(points, menu)[i'].hi
      ==> i == i'
  {
    var t := Tiles(points, menu);
    forall i, i' | 0 <= i < i' < |points| - 1
      ensures !(t[i].lo <= f < t[i].hi && t[i'].lo <= f < t[i'].hi)
    {
      assert points[i + 1] <= points[i'];
    }
  }

  /** The index of the tile that holds `f`. */
  lemma {:induction false} TileOf(points: seq<int>, menu: int, f: int) returns (i: nat)
    requires points != [] && NonDecreasing(points)
    requires menu + points[0] <= f < menu + Last(points)
    ensures i < |points| - 1 && menu + points[i] <= f < menu + points[i + 1]
  {
    var n := |points|;
    if f < menu + points[n - 2] {
      i := TileOf(points[..n - 1], menu, f);
    } else {
      i := n - 2;
    }
  }

  // ---------------------------------------------------------------------
  // Joining

  /** `[r + d for r in row if r != 0]` */
  function Shifted(row: seq<int>, d: int): (r: seq<int>)
    ensures |r| <= |row|
  {
    if row == [] then []
    else (if row[0] != 0 then [row[0] + d] else []) + Shifted(row[1..], d)
  }

  /** Every boundary of the shifted list is a non-zero boundary of `row`
      moved by `d`, and every non-zero boundary of `row` is there. */
  lemma {:induction false} ShiftedMembers(row: seq<int>, d: int)
    ensures forall y :: y in Shifted(row, d) <==> y - d in row && y != d
  {
    if row != [] {
      ShiftedMembers(row[1..], d);
      assert row == [row[0]] + row[1..];
    }
  }

  /** Shifting distributes over concatenation, so the shifted list can be
      built one boundary at a time. */
  lemma {:induction false} ShiftedAppend(a: seq<int>, b: seq<int>, d: int)
    ensures Shifted(a + b, d) == Shifted(a, d) + Shifted(b, d)
  {
    if a == [] {
      assert a + b == b;
    } else {
      var head := if a[0] != 0 then [a[0] + d] else [];
      calc {
        Shifted(a + b, d);
        { assert (a + b)[0] == a[0]; }
        head + Shifted((a + b)[1..], d);
        { assert (a + b)[1..] == a[1..] + b; }
        head + Shifted(a[1..] + b, d);
        { ShiftedAppend(a[1..], b, d); }
        head + (Shifted(a[1..], d) + Shifted(b, d));
        (head + Shifted(a[1..], d)) + Shifted(b, d);
      }
    }
  }

  /** The merged boundary list: the first list, then each later list's
      non-zero boundaries shifted by the merged list's last value so far. */
  function Join(rows: seq<seq<int>>): (r: seq<int>)
    requires rows != [] && rows[0] != []
    ensures |rows[0]| <= |r| && r[..|rows[0]|] == rows[0]
  {
    if |rows| == 1 then rows[0]
    else
      var acc := Join(rows[..|rows| - 1]);
      acc + Shifted(Last(rows), Last(acc))
  }

  lemma {:induction false} ShiftedLast(row: seq<int>, d: int)
    requires Boundaries(row)
    ensures Last(row) == 0 ==> Shifted(row, d) == []
    ensures Last(row) != 0 ==> Shifted(row, d) != [] && Last(Shifted(row, d)) == Last(row) + d
  {
    if |row| > 1 {
      var rest := row[1..];
      assert Last(rest) == Last(row);
      ShiftedRest(rest, d);
      assert row[0] == 0;
      assert Shifted(row, d) == Shifted(rest, d);
    } else {
      assert Shifted(row, d) == Shifted([], d);
    }
  }

  lemma {:induction false} ShiftedRest(rest: seq<int>, d: int)
    requires rest != [] && (forall k :: 0 <= k < |rest| ==> rest[k] >= 0) && NonDecreasing(rest)
    ensures Last(rest) == 0 ==> Shifted(rest, d) == []
    ensures Last(rest) != 0 ==> Shifted(rest, d) != [] && Last(Shifted(rest, d)) == Last(rest) + d
  {
    if |rest| > 1 {
      assert rest[0] <= Last(rest);
      ShiftedRest(rest[1..], d);
      assert Last(rest[1..]) == Last(rest);
    } else {
      assert Shifted(rest, d) == (if rest[0] != 0 then [rest[0] + d] else []) + Shifted([], d);
    }
  }

  /** The merged list of the first `k + 1` lists extends that of the first `k`. */
  lemma JoinPrefixStep(rows: seq<seq<int>>, k: nat)
    requires 1 <= k < |rows| && rows[0] != []
    ensures Join(rows[..k + 1]) == Join(rows[..k]) + Shifted(rows[k], Last(Join(rows[..k])))
  {
    assert rows[..k + 1][..k] == rows[..k];
  }

  /** Appending a well-formed list moves the merged list's end by that
      list's last boundary. */
  lemma JoinLastStep(rows: seq<seq<int>>)
    requires |rows| > 1 && rows[0] != [] && Boundaries(Last(rows))
    ensures Last(Join(rows)) == Last(Join(rows[..|rows| - 1])) + Last(Last(rows))
  {
    var acc := Join(rows[..|rows| - 1]);
    var tail := Shifted(Last(rows), Last(acc));
    ShiftedLast(Last(rows), Last(acc));
    assert Join(rows) == acc + tail;
    if tail == [] {
      assert Last(Join(rows)) == Last(acc);
    } else {
      assert Last(Join(rows)) == Last(tail);
    }
  }

  lemma SumLastsStep(rows: seq<seq<int>>)
    requires rows != [] && AllNonEmpty(rows)
    ensures Sum(Lasts(rows)) == Sum(Lasts(rows[..|rows| - 1])) + Last(Last(rows))
  {
    var lasts := Lasts(rows);
    assert lasts[..|rows| - 1] == Lasts(rows[..|rows| - 1]);
  }

  /** The merged list ends at the sum of every list's last boundary. */
  lemma {:induction false} JoinEndsAtTotal(rows: seq<seq<int>>)
    requires rows != [] && AllNonEmpty(rows)
    requires forall k :: 1 <= k < |rows| ==> Boundaries(rows[k])
    ensures Last(Join(rows)) == Sum(Lasts(rows))
  {
    var n := |rows|;
    SumLastsStep(rows);
    if n == 1 {
      assert Lasts(rows[..0]) == [];
    } else {
      JoinEndsAtTotal(rows[..n - 1]);
      JoinLastStep(rows);
    }
  }

  lemma {:induction false} ShiftedAbove(row: seq<int>, d: int)
    requires (forall k :: 0 <= k < |row| ==> row[k] >= 0) && NonDecreasing(row)
    ensures NonDecreasing(Shifted(row, d))
    ensures forall k :: 0 <= k < |Shifted(row, d)| ==> Shifted(row, d)[k] > d
    ensures row != [] ==>
      forall k :: 0 <= k < |Shifted(row, d)| ==> row[0] + d <= Shifted(row, d)[k] <= Last(row) + d
  {
    if row != [] {
      var rest := row[1..];
      var head: seq<int> := if row[0] != 0 then [row[0] + d] else [];
      var t := Shifted(rest, d);
      var s := Shifted(row, d);
      assert s == head + t;
      if rest != [] {
        assert forall k :: 0 <= k < |rest| ==> rest[k] == row[k + 1];
        ShiftedAbove(rest, d);
        assert Last(rest) == Last(row);
        assert row[0] <= rest[0];
      }
      assert forall k :: 0 <= k < |t| ==> row[0] + d <= t[k] <= Last(row) + d;
      assert forall k :: 0 <= k < |s| ==> row[0] + d <= s[k] <= Last(row) + d by {
        forall k | 0 <= k < |s| ensures row[0] + d <= s[k] <= Last(row) + d {
          if k >= |head| {
            assert s[k] == t[k - |head|];
          } else {
            assert row[0] <= Last(row);
          }
        }
      }
    }
  }

  /** When every list is a well-formed boundary list, so is the merged list. */
  lemma {:induction false} JoinIsBoundaries(rows: seq<seq<int>>)
    requires rows != [] && Boundaries(rows[0])
    requires forall k :: 0 <= k < |rows| ==> Boundaries(rows[k])
    ensures Boundaries(Join(rows))
  {
    var n := |rows|;
    if n > 1 {
      var init := rows[..n - 1];
      JoinIsBoundaries(init);
      var acc := Join(init);
      var tail := Shifted(Last(rows), Last(acc));
      ShiftedAbove(Last(rows), Last(acc));
      var r := acc + tail;
      forall i, j | 0 <= i <= j < |r| ensures r[i] <= r[j] {
        if j < |acc| {
        } else if i >= |acc| {
          assert r[i] == tail[i - |acc|] && r[j] == tail[j - |acc|];
        } else {
          assert r[i] <= Last(acc);
          assert r[j] == tail[j - |acc|];
        }
      }
    }
  }

  // ---------------------------------------------------------------------
  // One split followed by the join

  /** What `split_titles` leaves behind. `chapters` are the boundary lists as
      the caller sees them afterwards: the join extends the first list in
      place, so `chapters[0]` is the merged list. */
  datatype TitleSet = TitleSet(chapters: seq<seq<int>>, clips: seq<Interval>, joined: seq<int>)

  /** The split table after the join has extended its first list in place. */
  function AfterJoin(rows: seq<seq<int>>): (r: seq<seq<int>>)
    requires rows != [] && rows[0] != []
    ensures |r| == |rows| && r[0] == Join(rows) && r[1..] == rows[1..]
    ensures AllNonEmpty(rows) ==> AllNonEmpty(r)
  {
    [Join(rows)] + rows[1..]
  }

  /** Split then join; `None` when there is neither a title nor a menu (the
      join then fails on an empty list). */
  function SplitJoin(rows: seq<seq<int>>, menu: nat): (r: Option<TitleSet>)
    requires AllNonEmpty(rows)
    ensures r.Some? <==> rows != [] || menu != 0
  {
    var split := SplitRows(rows, menu);
    if split == [] then None
    else Some(TitleSet(AfterJoin(split), SplitClips(rows, menu), Join(split)))
  }

  // ---------------------------------------------------------------------
  // The safe-indices repair

  /** The first position whose boundary, moved by `offset`, reaches `n`. */
  function FirstReaching(row: seq<int>, offset: int, n: int): (j: Option<nat>)
    ensures j.Some? ==> j.value < |row| && row[j.value] + offset >= n
    ensures j.Some? ==> forall k :: 0 <= k < j.value ==> row[k] + offset < n
    ensures j.None? ==> forall k :: 0 <= k < |row| ==> row[k] + offset < n
  {
    if row == [] then None
    else if row[0] + offset >= n then Some(0)
    else match FirstReaching(row[1..], offset, n)
      case None => None
      case Some(j) => Some(j + 1)
  }

  /** The synthetic end put in place of the first boundary that reaches `n`,
      in row `i` of a table of `count` lists (the menu's included). */
  function ClampedEnd(n: int, menu: nat, count: nat, i: nat): int
  {
    n - menu - count + i + 2
  }

  /** Rows `i..` of the repaired table once the walk stopped at boundary `j`
      of row `i`: that row is cut there and ends at the clamped value, every
      later title becomes `[0, 1]`, and the menu's list is put back. */
  function AfterStop(rows: seq<seq<int>>, i: nat, j: nat, n: int, menu: nat): (r: seq<seq<int>>)
    requires i < |rows| && j <= |rows[i]|
    ensures |r| == |rows| - i
  {
    seq(|rows| - i, d requires 0 <= d < |rows| - i =>
      if menu != 0 && i + d == |rows| - 1 then rows[|rows| - 1]
      else if d == 0 then rows[i][..j] + [ClampedEnd(n, menu, |rows|, i)]
      else [0, 1])
  }

  /** Rows `i..` of the repaired table, `offset` being the total length of the
      rows before `i` that the walk went through. */
  function RepairFrom(rows: seq<seq<int>>, i: nat, offset: int, n: int, menu: nat): (r: seq<seq<int>>)
    requires i <= |rows| && AllNonEmpty(rows)
    ensures |r| == |rows| - i && AllNonEmpty(r)
    decreases |rows| - i
  {
    if i == |rows| then []
    else match FirstReaching(rows[i], offset, n)
      case None => [rows[i]] + RepairFrom(rows, i + 1, offset + Last(rows[i]), n, menu)
      case Some(j) => AfterStop(rows, i, j, n, menu)
  }

  /** The table the safe-indices walk builds. */
  function Repair(rows: seq<seq<int>>, n: int, menu: nat): (r: seq<seq<int>>)
    requires AllNonEmpty(rows)
    ensures |r| == |rows| && AllNonEmpty(r)
  {
    RepairFrom(rows, 0, 0, n, menu)
  }

  /** The walk over the table left by the first split: rows are copied while
      their boundaries, moved by the length of the rows already walked, stay
      below `n`; the first boundary that reaches `n` ends the walk. */
  method RepairChapters(rows: seq<seq<int>>, n: int, menu: nat) returns (fixed: seq<seq<int>>)
    requires AllNonEmpty(rows)
    ensures fixed == Repair(rows, n, menu)
  {
    var count := |rows|;
    var offset := 0;
    ghost var target := Repair(rows, n, menu);
    fixed := seq(count, _ => []);
    for i := 0 to count
      invariant |fixed| == count
      invariant fixed[..i] == rows[..i]
      invariant forall k :: i <= k < count ==> fixed[k] == []
      invariant target == rows[..i] + RepairFrom(rows, i, offset, n, menu)
    {
      var kept, stop := WalkRow(rows[i], offset, n);
      fixed := fixed[i := kept];
      if stop.Some? {
        fixed := StopWalk(rows, i, stop.value, n, menu, fixed);
        RepairFromStop(rows, i, offset, n, menu, stop.value);
        return;
      }
      assert fixed[..i + 1] == rows[..i + 1];
      RepairFromStep(rows, i, offset, n, menu);
      offset := offset + Last(rows[i]);
      assert target == rows[..i + 1] + RepairFrom(rows, i + 1, offset, n, menu);
    }
    assert fixed == fixed[..count] && rows == rows[..count];
  }

  /** The inner loop of the walk: copies the boundaries of one row that stay
      below `n` once moved by `offset`, up to the first one that does not. */
  method WalkRow(row: seq<int>, offset: int, n: int) returns (kept: seq<int>, stop: Option<nat>)
    ensures stop == FirstReaching(row, offset, n)
    ensures stop.None? ==> kept == row
    ensures stop.Some? ==> kept == row[..stop.value]
  {
    kept := [];
    for j := 0 to |row|
      invariant kept == row[..j]
      invariant forall k :: 0 <= k < j ==> row[k] + offset < n
    {
      if row[j] + offset < n {
        kept := kept + [row[j]];
      } else {
        return kept, Some(j);
      }
    }
    assert row[..|row|] == row;
    return kept, None;
  }

  lemma RepairFromStep(rows: seq<seq<int>>, i: nat, offset: int, n: int, menu: nat)
    requires i < |rows| && AllNonEmpty(rows)
    requires forall k :: 0 <= k < |rows[i]| ==> rows[i][k] + offset < n
    ensures rows[..i] + RepairFrom(rows, i, offset, n, menu)
         == rows[..i + 1] + RepairFrom(rows, i + 1, offset + Last(rows[i]), n, menu)
  {
    assert FirstReaching(rows[i], offset, n) == None;
    var rest := RepairFrom(rows, i + 1, offset + Last(rows[i]), n, menu);
    assert RepairFrom(rows, i, offset, n, menu) == [rows[i]] + rest;
    assert rows[..i] + [rows[i]] == rows[..i + 1];
    assert rows[..i] + ([rows[i]] + rest) == (rows[..i] + [rows[i]]) + rest;
  }

  lemma RepairFromStop(rows: seq<seq<int>>, i: nat, offset: int, n: int, menu: nat, j: nat)
    requires i < |rows| && AllNonEmpty(rows) && j < |rows[i]|
    requires rows[i][j] + offset >= n
    requires forall k :: 0 <= k < j ==> rows[i][k] + offset < n
    ensures RepairFrom(rows, i, offset, n, menu) == AfterStop(rows, i, j, n, menu)
  {
    assert FirstReaching(rows[i], offset, n) == Some(j);
  }

  /** The end of the walk at boundary `j` of row `i`: the clamped end replaces
      the boundary, later titles become `[0, 1]` and the menu's list is put back. */
  method StopWalk(rows: seq<seq<int>>, i: nat, j: nat, n: int, menu: nat, walked: seq<seq<int>>)
    returns (fixed: seq<seq<int>>)
    requires i < |rows| && j < |rows[i]| && |walked| == |rows|
    requires walked[..i] == rows[..i] && walked[i] == rows[i][..j]
    requires forall k :: i < k < |rows| ==> walked[k] == []
    ensures fixed == rows[..i] + AfterStop(rows, i, j, n, menu)
  {
    var count := |rows|;
    fixed := walked[i := walked[i] + [ClampedEnd(n, menu, count, i)]];
    var last := count - (if menu > 0 then 1 else 0);
    var k := i + 1;
    while k < last
      invariant i + 1 <= k <= count && |fixed| == count
      invariant fixed[..i] == rows[..i] && fixed[i] == rows[i][..j] + [ClampedEnd(n, menu, count, i)]
      invariant forall k' :: i < k' < k ==> fixed[k'] == [0, 1]
      invariant forall k' :: k <= k' < count && k' > i ==> fixed[k'] == []
    {
      fixed := fixed[k := [0, 1]];
      k := k + 1;
    }
    if menu != 0 {
      fixed := fixed[count - 1 := rows[count - 1]];
    }
    var expected := rows[..i] + AfterStop(rows, i, j, n, menu);
    forall m | 0 <= m < count ensures fixed[m] == expected[m] {
      if m < i {
        assert fixed[m] == fixed[..i][m];
      }
    }
  }

  /** The lists the repair hands to the second split: the menu's list is
      dropped, as the split appends it again. */
  function Trimmed(fixed: seq<seq<int>>, menu: nat): (r: seq<seq<int>>)
    requires AllNonEmpty(fixed) && (menu != 0 ==> fixed != [])
    ensures AllNonEmpty(r) && |r| == |fixed| - (if menu != 0 then 1 else 0)
  {
    if menu == 0 then fixed else fixed[..|fixed| - 1]
  }

  /** The safe-indices branch: the repair walk over the joined table, then a
      second split and join of what it kept. */
  function RepairedSplit(chapters: seq<seq<int>>, n: int, menu: nat): (r: Option<TitleSet>)
    requires AllNonEmpty(chapters) && chapters != []
    ensures r.Some?
  {
    SplitJoin(Trimmed(Repair(chapters, n, menu), menu), menu)
  }

  /** The outcome of `split_titles`: the split and join, and, when the merged
      list ends past the clip's `n` frames and safe indices are on, the
      repair walk followed by a second split and join without the menu row. */
  function SplitTitlesResult(rows: seq<seq<int>>, menu: nat, n: int, safe: bool): (r: Option<TitleSet>)
    requires AllNonEmpty(rows)
    ensures r.Some? <==> rows != [] || menu != 0
  {
    match SplitJoin(rows, menu)
    case None => None
    case Some(first) =>
      if safe && Last(first.joined) > n then RepairedSplit(first.chapters, n, menu)
      else Some(first)
  }
}
