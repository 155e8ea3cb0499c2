/** What split_titles guarantees, and where it surprises: the merged list is
    the first title's list, the merged list's end is the joined clip's length,
    the intervals stay inside the clip when nothing overruns, and the
    safe-indices repair always stops in the first list and ends one frame past
    the clip when there is no menu. */
module TitleFacts {
  import opened Common
  import opened Titles

  /** The number of lists in the split table: the titles, and the menu's. */
  function TableSize(rows: seq<seq<int>>, menu: nat): nat
  {
    |rows| + |MenuRow(menu)|
  }

  /** After split_titles the first title's list is the merged list. */
  lemma FirstListIsJoined(rows: seq<seq<int>>, menu: nat, n: int, safe: bool)
    requires AllNonEmpty(rows) && (rows != [] || menu != 0)
    ensures var r := SplitTitlesResult(rows, menu, n, safe).value;
      r.chapters[0] == r.joined && |r.chapters| == |r.clips| == TableSize(rows, menu)
  {
    var first := SplitJoin(rows, menu).value;
    if safe && Last(first.joined) > n {
      var trimmed := Trimmed(Repair(first.chapters, n, menu), menu);
      assert |trimmed| == |rows|;
      assert SplitTitlesResult(rows, menu, n, safe) == SplitJoin(trimmed, menu);
    } else {
      assert SplitTitlesResult(rows, menu, n, safe) == Some(first);
    }
  }

  /** Without safe indices, and with them when the merged list stays within the
      clip, split_titles is one split and one join: nothing is repaired. */
  lemma RepairOnlyOnOverrun(rows: seq<seq<int>>, menu: nat, n: int)
    requires AllNonEmpty(rows) && (rows != [] || menu != 0)
    ensures SplitTitlesResult(rows, menu, n, false) == SplitJoin(rows, menu)
    ensures Last(Join(SplitRows(rows, menu))) <= n ==>
      SplitTitlesResult(rows, menu, n, true) == SplitJoin(rows, menu)
  {
  }

  lemma SumLastsWithMenu(rows: seq<seq<int>>, menu: nat)
    requires AllNonEmpty(rows)
    ensures Sum(Lasts(SplitRows(rows, menu))) == Sum(Lasts(rows)) + menu
  {
    var split := SplitRows(rows, menu);
    if menu != 0 {
      assert Lasts(split)[..|split| - 1] == Lasts(rows);
    } else {
      assert split == rows;
    }
  }

  /** The merged list of one split ends at the menu plus every title's last
      boundary, when the later lists are well-formed. */
  lemma SplitJoinedEnd(rows: seq<seq<int>>, menu: nat)
    requires AllNonEmpty(rows) && (rows != [] || menu != 0)
    requires forall k :: 1 <= k < |rows| ==> Boundaries(rows[k])
    ensures Last(Join(SplitRows(rows, menu))) == menu + Sum(Lasts(rows))
  {
    var split := SplitRows(rows, menu);
    forall k | 1 <= k < |split| ensures Boundaries(split[k]) {
      if k == |rows| {
        assert split[k] == [0, menu];
      }
    }
    JoinEndsAtTotal(split);
    SumLastsWithMenu(rows, menu);
  }

  /** One split and join: when the later lists are well-formed, the merged
      list ends at the length of the joined clip. */
  lemma SplitJoinLengthsAgree(rows: seq<seq<int>>, menu: nat)
    requires AllNonEmpty(rows) && (rows != [] || menu != 0)
    requires forall k :: 1 <= k < |rows| ==> Boundaries(rows[k])
    ensures Last(SplitJoin(rows, menu).value.joined) == FrameCount(SplitJoin(rows, menu).value.clips)
  {
    SplitJoinedEnd(rows, menu);
    SplitFrameCount(rows, menu);
  }

  /** When nothing overruns, every sub-clip lies within the decoded clip. */
  lemma UnrepairedClipsFit(rows: seq<seq<int>>, menu: nat, n: int)
    requires AllNonEmpty(rows) && (rows != [] || menu != 0)
    requires forall k :: 0 <= k < |rows| ==> Boundaries(rows[k])
    requires Last(Join(SplitRows(rows, menu))) <= n
    ensures forall c :: 0 <= c < |SplitJoin(rows, menu).value.clips| ==>
      Within(SplitJoin(rows, menu).value.clips[c], n)
  {
    SplitJoinedEnd(rows, menu);
    forall k | 0 <= k < |rows| ensures Lasts(rows)[k] >= 0 {
      assert Boundaries(rows[k]);
      assert rows[k][0] <= Last(rows[k]);
    }
    ClipsWithinTotal(rows, menu, n);
  }

  /** With non-negative title lengths, every sub-clip lies within the menu
      plus the titles' total. */
  lemma ClipsWithinTotal(rows: seq<seq<int>>, menu: nat, n: int)
    requires AllNonEmpty(rows)
    requires forall k :: 0 <= k < |rows| ==> Lasts(rows)[k] >= 0
    requires menu + Sum(Lasts(rows)) <= n
    ensures forall c :: 0 <= c < |SplitClips(rows, menu)| ==> Within(SplitClips(rows, menu)[c], n)
  {
    var lasts := Lasts(rows);
    AccumulateNonDecreasing(lasts);
    AccumulateEndsAtSum(lasts);
    var d := Durations(rows);
    var clips := SplitClips(rows, menu);
    forall c | 0 <= c < |clips| ensures Within(clips[c], n) {
      if c < |rows| {
        assert clips[c] == Interval(menu + d[c], menu + d[c + 1]);
        assert d[0] <= d[c] <= d[c + 1] <= Last(d);
      } else {
        assert clips[c] == Interval(0, menu);
        assert d[0] <= Last(d);
      }
    }
  }

  /** The first list of the table left by the join is the merged list, so
      when the merged list ends past `n` the repair walk stops in it. */
  lemma RepairStopsInFirstList(table: seq<seq<int>>, n: int, menu: nat)
    requires AllNonEmpty(table) && table != [] && Last(table[0]) > n
    ensures FirstReaching(table[0], 0, n).Some?
    ensures Repair(table, n, menu) == AfterStop(table, 0, FirstReaching(table[0], 0, n).value, n, menu)
  {
  }

  /** The titles' lists after the repair, before the second split: the first
      list cut at boundary `j` and ended at `clamped`, every other title `[0, 1]`. */
  function RepairedTitles(joined: seq<int>, j: nat, clamped: int, titles: nat): (r: seq<seq<int>>)
    requires j <= |joined| && titles > 0
    ensures |r| == titles && AllNonEmpty(r)
  {
    [joined[..j] + [clamped]] + seq(titles - 1, _ => [0, 1])
  }

  /** The repair of a table whose first list ends past `n`, menu row dropped. */
  lemma RepairedTable(table: seq<seq<int>>, n: int, menu: nat, titles: nat)
    requires AllNonEmpty(table) && titles > 0
    requires |table| == titles + |MenuRow(menu)|
    requires Last(table[0]) > n
    ensures FirstReaching(table[0], 0, n).Some?
    ensures Trimmed(Repair(table, n, menu), menu)
      == RepairedTitles(table[0], FirstReaching(table[0], 0, n).value, ClampedEnd(n, menu, |table|, 0), titles)
  {
    RepairStopsInFirstList(table, n, menu);
    var j := FirstReaching(table[0], 0, n).value;
    var after := AfterStop(table, 0, j, n, menu);
    var again := if menu == 0 then after else after[..|after| - 1];
    var expected := RepairedTitles(table[0], j, ClampedEnd(n, menu, |table|, 0), titles);
    forall k | 0 <= k < titles ensures again[k] == expected[k] {
      assert again[k] == after[k];
    }
  }

  lemma {:induction false} RepairedTitlesSum(joined: seq<int>, j: nat, clamped: int, titles: nat)
    requires j <= |joined| && titles > 0
    ensures Sum(Lasts(RepairedTitles(joined, j, clamped, titles))) == clamped + titles - 1
  {
    var r := RepairedTitles(joined, j, clamped, titles);
    var lasts := Lasts(r);
    if titles == 1 {
      assert lasts[..0] == [];
    } else {
      RepairedTitlesSum(joined, j, clamped, titles - 1);
      var shorter := RepairedTitles(joined, j, clamped, titles - 1);
      assert lasts[..titles - 1] == Lasts(shorter) by {
        forall k | 0 <= k < titles - 1 ensures lasts[k] == Lasts(shorter)[k] {
          assert r[k] == shorter[k];
        }
      }
      assert Last(lasts) == 1;
    }
  }

  /** After one split and join, the merged list starts with the first title's
      list, the later titles keep their lists, and the menu's list and clip
      come last. */
  lemma SplitJoinShape(rows: seq<seq<int>>, menu: nat)
    requires AllNonEmpty(rows) && rows != []
    ensures var r := SplitJoin(rows, menu).value;
      && |rows[0]| <= |r.joined| && r.joined[..|rows[0]|] == rows[0]
      && |r.chapters| == TableSize(rows, menu)
      && (forall k :: 1 <= k < |rows| ==> r.chapters[k] == rows[k])
      && (menu != 0 ==> Last(r.chapters) == [0, menu] && Last(r.clips) == Interval(0, menu))
  {
    var split := SplitRows(rows, menu);
    assert split[0] == rows[0];
  }

  /** The second split and join, over the repaired titles: the lists. */
  lemma SplitJoinRepairedLists(joined: seq<int>, j: nat, clamped: int, titles: nat, menu: nat)
    requires j <= |joined| && titles > 0
    ensures var r := SplitJoin(RepairedTitles(joined, j, clamped, titles), menu).value;
      && |r.joined| > j && r.joined[..j] == joined[..j] && r.joined[j] == clamped
      && (forall k :: 1 <= k < titles ==> r.chapters[k] == [0, 1])
      && (menu != 0 ==> Last(r.chapters) == [0, menu])
  {
    var again := RepairedTitles(joined, j, clamped, titles);
    SplitJoinShape(again, menu);
    var r := SplitJoin(again, menu).value;
    var first := joined[..j] + [clamped];
    assert again[0] == first;
    assert r.joined[..j + 1] == first;
    assert r.joined[..j] == first[..j];
    assert r.joined[j] == first[j];
    assert forall k :: 1 <= k < titles ==> again[k] == [0, 1];
  }

  /** The second split and join, over the repaired titles: where they end. */
  lemma SplitJoinRepairedEnd(joined: seq<int>, j: nat, clamped: int, titles: nat, menu: nat)
    requires j <= |joined| && titles > 0
    ensures var r := SplitJoin(RepairedTitles(joined, j, clamped, titles), menu).value;
      && Last(r.joined) == clamped + titles - 1 + menu
      && r.clips[titles - 1].hi == menu + clamped + titles - 1
  {
    var again := RepairedTitles(joined, j, clamped, titles);
    RepairedTitlesSum(joined, j, clamped, titles);
    var split := SplitRows(again, menu);
    forall k | 1 <= k < |split| ensures Boundaries(split[k]) {
      if k == |again| {
        assert split[k] == [0, menu];
      } else {
        assert split[k] == [0, 1];
      }
    }
    JoinEndsAtTotal(split);
    SumLastsWithMenu(again, menu);
    TitlesContiguous(again, menu);
  }

  /** The safe-indices repair: the boundaries of the merged list below `n` are
      kept, the first one that reaches `n` becomes `n - menu - T + 2` (`T`
      lists, the menu's included), every later title is one frame long, the
      menu keeps its list; the merged list then ends at `n` with a menu, but at
      `n + 1` without one, and so does the last title's interval. */
  lemma RepairOutcome(rows: seq<seq<int>>, menu: nat, n: int)
    requires AllNonEmpty(rows) && rows != []
    requires Last(Join(SplitRows(rows, menu))) > n
    ensures var before := Join(SplitRows(rows, menu));
      var j := FirstReaching(before, 0, n).value;
      var r := SplitTitlesResult(rows, menu, n, true).value;
      && j < |before|
      && (forall k :: 0 <= k < j ==> before[k] < n)
      && before[j] >= n
      && r.joined[..j] == before[..j]
      && r.joined[j] == n - menu - TableSize(rows, menu) + 2
      && (forall k :: 1 <= k < |rows| ==> r.chapters[k] == [0, 1])
      && (menu != 0 ==> Last(r.chapters) == [0, menu])
      && Last(r.joined) == n + (if menu == 0 then 1 else 0)
      && r.clips[|rows| - 1].hi == n + (if menu == 0 then 1 else 0)
  {
    var split := SplitRows(rows, menu);
    var table := AfterJoin(split);
    var before := Join(split);
    assert table[0] == before;
    RepairedTable(table, n, menu, |rows|);
    var j := FirstReaching(before, 0, n).value;
    var clamped := ClampedEnd(n, menu, |table|, 0);
    SplitJoinRepairedLists(before, j, clamped, |rows|, menu);
    SplitJoinRepairedEnd(before, j, clamped, |rows|, menu);
  }

  /** The repair does not keep the merged list non-decreasing: wherever the
      clamp falls below the boundary kept just before it, the repaired list
      goes down there. */
  lemma RepairCanGoDown(rows: seq<seq<int>>, menu: nat, n: int)
    requires AllNonEmpty(rows) && rows != []
    requires Last(Join(SplitRows(rows, menu))) > n
    ensures var before := Join(SplitRows(rows, menu));
      var j := FirstReaching(before, 0, n).value;
      var r := SplitTitlesResult(rows, menu, n, true).value;
      0 < j && n - menu - TableSize(rows, menu) + 2 < before[j - 1] ==>
        && r.joined[j - 1] == before[j - 1]
        && r.joined[j] == n - menu - TableSize(rows, menu) + 2
        && !NonDecreasing(r.joined)
  {
    var split := SplitRows(rows, menu);
    var table := AfterJoin(split);
    var before := Join(split);
    assert table[0] == before;
    RepairedTable(table, n, menu, |rows|);
    var j := FirstReaching(before, 0, n).value;
    var clamped := ClampedEnd(n, menu, |table|, 0);
    SplitJoinRepairedLists(before, j, clamped, |rows|, menu);
    var r := SplitTitlesResult(rows, menu, n, true).value;
    assert r == SplitJoin(RepairedTitles(before, j, clamped, |rows|), menu).value;
    if 0 < j && clamped < before[j - 1] {
      assert r.joined[j - 1] == r.joined[..j][j - 1] == before[..j][j - 1];
    }
  }

  /** One title, no menu, 250 frames decoded, boundaries [0, 100, 300]: the
      repaired list is [0, 100, 251] and the title's interval ends past the clip. */
  lemma OneTitleRepairExample()
    ensures SplitTitlesResult([[0, 100, 300]], 0, 250, true)
         == Some(TitleSet([[0, 100, 251]], [Interval(0, 251)], [0, 100, 251]))
  {
    var rows := [[0, 100, 300]];
    assert SplitRows(rows, 0) == rows;
    assert Join(rows) == [0, 100, 300];
    var table := AfterJoin(rows);
    assert table == rows;
    RepairedTable(table, 250, 0, 1);
    assert FirstReaching([0, 100, 300], 0, 250) == Some(2);
    var again := RepairedTitles([0, 100, 300], 2, 251, 1);
    assert [0, 100, 300][..2] + [251] == [0, 100, 251];
    assert seq(0, _ => [0, 1]) == [];
    assert again == [[0, 100, 251]];
    assert Repair(table, 250, 0) == again;
    assert Lasts(again) == [251];
    assert Accumulate([251]) == [0, 251];
    assert SplitClips(again, 0) == [Interval(0, 251)];
  }

  /** A table with a menu and no title is left as the menu's list `[0, menu]`
      whatever `n` is: the repair has no title to clamp, so with a menu longer
      than the clip the merged list and the menu's interval end past `n`. */
  lemma MenuOnlyTable(menu: nat, n: int, safe: bool)
    requires menu != 0
    ensures SplitTitlesResult([], menu, n, safe)
         == Some(TitleSet([[0, menu]], [Interval(0, menu)], [0, menu]))
  {
    var first := SplitJoin([], menu).value;
    assert SplitRows([], menu) == [[0, menu]];
    assert Join([[0, menu]]) == [0, menu];
    assert SplitClips([], menu) == [Interval(0, menu)];
    assert first == TitleSet([[0, menu]], [Interval(0, menu)], [0, menu]);
    if safe && Last(first.joined) > n {
      assert Trimmed(Repair(first.chapters, n, menu), menu) == [];
    }
  }

  /** Both example tables hold titles with non-empty lists. */
  lemma ExampleTitlesNonEmpty()
    ensures AllNonEmpty(ClampTitles) && ClampTitles != []
    ensures AllNonEmpty(ManyTitles) && ManyTitles != []
  {
  }

  /** The walk stops at `j` when boundary `j` is the first to reach `n`. */
  lemma {:induction false} FirstReachingAt(row: seq<int>, offset: int, n: int, j: nat)
    requires j < |row| && row[j] + offset >= n
    requires forall k :: 0 <= k < j ==> row[k] + offset < n
    ensures FirstReaching(row, offset, n) == Some(j)
  {
    if j > 0 {
      FirstReachingAt(row[1..], offset, n, j - 1);
    }
  }

  /** A two-entry list `[0, x]` adds the single boundary `x + d` to the join. */
  lemma ShiftedPair(x: int, d: int)
    requires x != 0
    ensures Shifted([0, x], d) == [x + d]
  {
    assert [0, x][1..] == [x];
    assert [x][1..] == [];
  }

  /** Five titles whose first list overruns a 100-frame clip early. */
  const ClampTitles: seq<seq<int>> := [[0, 99, 150], [0, 10], [0, 10], [0, 10], [0, 10]]

  /** Four titles against a one-frame clip. */
  const ManyTitles: seq<seq<int>> := [[0, 5], [0, 1], [0, 1], [0, 1]]

  /** Appending a two-entry list `[0, x]` adds one boundary, `x` past the
      merged list's end. */
  lemma JoinAppendPair(rows: seq<seq<int>>, x: int)
    requires rows != [] && rows[0] != [] && x != 0
    ensures Join(rows + [[0, x]]) == Join(rows) + [Last(Join(rows)) + x]
  {
    assert (rows + [[0, x]])[..|rows|] == rows;
    ShiftedPair(x, Last(Join(rows)));
  }

  /** The merged list of the first example below. */
  lemma ClampExampleJoin()
    ensures Join(SplitRows(ClampTitles, 0)) == [0, 99, 150, 160, 170, 180, 190]
  {
    var r1 := [[0, 99, 150]];
    assert Join(r1) == [0, 99, 150];
    JoinAppendPair(r1, 10);
    var r2 := r1 + [[0, 10]];
    JoinAppendPair(r2, 10);
    var r3 := r2 + [[0, 10]];
    JoinAppendPair(r3, 10);
    var r4 := r3 + [[0, 10]];
    JoinAppendPair(r4, 10);
    ExampleTitlesNonEmpty();
    assert ClampTitles == r4 + [[0, 10]];
    assert SplitRows(ClampTitles, 0) == ClampTitles;
  }

  /** The clamp can fall below a boundary the walk kept. Five titles, no menu,
      100 frames decoded: the merged list keeps 0 and 99, then takes the clamp
      `100 - 0 - 5 + 0 + 2 = 97`, so the repaired list goes down. */
  lemma ClampBelowKeptBoundary()
    ensures var r := SplitTitlesResult(ClampTitles, 0, 100, true).value;
      r.chapters[0] == r.joined
      && |r.joined| > 2 && r.joined[1] == 99 && r.joined[2] == 97 && !NonDecreasing(r.joined)
  {
    ExampleTitlesNonEmpty();
    FirstListIsJoined(ClampTitles, 0, 100, true);
    ClampExampleJoin();
    FirstReachingAt(Join(SplitRows(ClampTitles, 0)), 0, 100, 2);
    RepairCanGoDown(ClampTitles, 0, 100);
  }

  /** The merged list of the second example below. */
  lemma NegativeClampExampleJoin()
    ensures Join(SplitRows(ManyTitles, 0)) == [0, 5, 6, 7, 8]
  {
    var r1 := [[0, 5]];
    assert Join(r1) == [0, 5];
    JoinAppendPair(r1, 1);
    var r2 := r1 + [[0, 1]];
    JoinAppendPair(r2, 1);
    var r3 := r2 + [[0, 1]];
    JoinAppendPair(r3, 1);
    ExampleTitlesNonEmpty();
    assert ManyTitles == r3 + [[0, 1]];
    assert SplitRows(ManyTitles, 0) == ManyTitles;
  }

  /** With more titles than frames the clamp is negative. Four titles, no
      menu, one frame decoded: the clamp is `1 - 0 - 4 + 0 + 2 = -1`, so the
      first title's list goes from 0 down to -1. */
  lemma NegativeClampExample()
    ensures var r := SplitTitlesResult(ManyTitles, 0, 1, true).value;
      |r.joined| > 1 && r.joined[0] == 0 && r.joined[1] == -1 && r.chapters[0] == r.joined
  {
    ExampleTitlesNonEmpty();
    FirstListIsJoined(ManyTitles, 0, 1, true);
    NegativeClampExampleJoin();
    FirstReachingAt(Join(SplitRows(ManyTitles, 0)), 0, 1, 1);
    RepairCanGoDown(ManyTitles, 0, 1);
  }
}
