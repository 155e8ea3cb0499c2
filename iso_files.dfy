/** The state IsoFileCore keeps across split_titles and get_title, on the heap.
    Python lists that the code shares by reference are objects here: a list of
    boundaries is an `IntList`, the list of those lists a `ChapterTable`. The
    first split reuses the cached get_ifo_info chapter table, so it gets the
    menu's list appended, and the join extends that table's first list in
    place, which is also the list returned as the joined chapters. */
module IsoFiles {
  import opened Common
  import opened Chapters
  import opened Titles
  import opened Ranges

  /** A Python `List[int]`. */
  class IntList {
    var items: seq<int>

    constructor (items: seq<int>)
      ensures this.items == items
    {
      this.items := items;
    }

    /** `self += [r + self[-1] for r in other if r != 0]`: the new boundaries
        are all shifted by the last value before the extension. */
    method ExtendShifted(other: seq<int>)
      requires items != []
      modifies this
      ensures items == old(items) + Shifted(other, Last(old(items)))
    {
      var d := items[|items| - 1];
      var extra: seq<int> := [];
      for k := 0 to |other|
        invariant extra == Shifted(other[..k], d)
        invariant items == old(items)
      {
        ShiftedAppend(other[..k], [other[k]], d);
        assert other[..k + 1] == other[..k] + [other[k]];
        assert [other[k]][1..] == [];
        if other[k] != 0 {
          extra := extra + [other[k] + d];
        }
      }
      assert other[..|other|] == other;
      items := items + extra;
    }
  }

  /** The boundary lists held by a table's rows, in order. */
  function Values(rows: seq<IntList>): (r: seq<seq<int>>)
    reads rows
    ensures |r| == |rows|
  {
    seq(|rows|, k reads rows requires 0 <= k < |rows| => rows[k].items)
  }

  /** A table's values stay as they were while none of its lists changes. */
  twostate lemma ValuesUnchanged(rows: seq<IntList>)
    requires forall k :: 0 <= k < |rows| ==> old(rows[k].items) == rows[k].items
    ensures Values(rows) == old(Values(rows))
  {
  }

  /** No list object appears twice in a table. */
  ghost predicate Distinct(rows: seq<IntList>)
  {
    forall i, j :: 0 <= i < j < |rows| ==> rows[i] != rows[j]
  }

  /** A Python `List[List[int]]`. */
  class ChapterTable {
    var rows: seq<IntList>

    /** Every list is a separate object and holds at least one boundary. */
    ghost predicate Valid()
      reads this, rows
    {
      Distinct(rows) && AllNonEmpty(Values(rows))
    }

    /** A table and its lists that nothing changed keep their values and validity. */
    twostate lemma Unchanged()
      requires old(allocated(this)) && unchanged(this)
      requires forall k :: 0 <= k < |rows| ==> old(rows[k].items) == rows[k].items
      ensures Values(rows) == old(Values(rows)) && (Valid() <==> old(Valid()))
    {
      ValuesUnchanged(rows);
    }

    /** A table of fresh lists holding `values`. */
    constructor (values: seq<seq<int>>)
      ensures Values(rows) == values && Distinct(rows)
      ensures forall k :: 0 <= k < |rows| ==> fresh(rows[k])
    {
      var built: seq<IntList> := [];
      for k := 0 to |values|
        invariant |built| == k && Distinct(built)
        invariant forall m :: 0 <= m < k ==> fresh(built[m]) && built[m].items == values[m]
      {
        var list := new IntList(values[k]);
        built := built + [list];
      }
      rows := built;
    }
  }

  /** `__split_chapters_clips`: cuts one sub-clip per title after the menu,
      then, when there is a menu, appends its clip and appends the list
      `[0, menu]` to `table` itself. */
  method SplitChaptersClips(table: ChapterTable, menu: nat) returns (clips: seq<Interval>)
    requires Distinct(table.rows) && AllNonEmpty(Values(table.rows))
    modifies table
    ensures Distinct(table.rows)
    ensures clips == SplitClips(old(Values(table.rows)), menu)
    ensures Values(table.rows) == SplitRows(old(Values(table.rows)), menu)
    ensures menu == 0 ==> table.rows == old(table.rows)
    ensures |old(table.rows)| <= |table.rows| && table.rows[..|old(table.rows)|] == old(table.rows)
    ensures forall k :: |old(table.rows)| <= k < |table.rows| ==> fresh(table.rows[k])
  {
    var rows := Values(table.rows);
    var durations := Accumulate(Lasts(rows));
    clips := Tiles(durations, menu);
    if menu != 0 {
      clips := clips + [Interval(0, menu)];
      var entry := new IntList([0, menu]);
      ghost var before := table.rows;
      table.rows := table.rows + [entry];
      assert Values(table.rows) == rows + [[0, menu]];
      forall i, j | 0 <= i < j < |table.rows| ensures table.rows[i] != table.rows[j] {
        assert table.rows[i] == before[i];
        if j < |before| {
          assert table.rows[j] == before[j];
        }
      }
    }
  }

  /** `__gen_joined_clip`: splices the sub-clips in order; the first lookup
      fails on an empty list. */
  method JoinClips(clips: seq<Interval>) returns (joined: Option<seq<Interval>>)
    ensures joined.Some? <==> clips != []
    ensures joined.Some? ==> joined.value == clips
  {
    if clips == [] {
      return None;
    }
    var acc := [clips[0]];
    for k := 1 to |clips|
      invariant acc == clips[..k]
    {
      acc := acc + [clips[k]];
    }
    assert clips[..|clips|] == clips;
    return Some(acc);
  }

  /** `__gen_joined_chapts`: extends the table's first list in place with the
      non-zero boundaries of every later list, each shifted by the first
      list's last value so far, and returns that first list. */
  method GenJoinedChapters(table: ChapterTable) returns (joined: IntList)
    requires table.rows != [] && Distinct(table.rows) && AllNonEmpty(Values(table.rows))
    modifies table.rows[0]
    ensures joined == table.rows[0] && AllNonEmpty(Values(table.rows))
    ensures Values(table.rows) == AfterJoin(old(Values(table.rows)))
  {
    ghost var v := Values(table.rows);
    joined := table.rows[0];
    var count := |table.rows|;
    assert v[..1] == [v[0]];
    for k := 1 to count
      invariant joined.items == Join(v[..k])
      invariant forall m :: 1 <= m < count ==> table.rows[m].items == v[m]
    {
      JoinPrefixStep(v, k);
      joined.ExtendShifted(table.rows[k].items);
    }
    assert v[..count] == v;
    assert Values(table.rows) == AfterJoin(v);
  }

  /** One split followed by the join, on `table` in place. `joined` is null
      when there is nothing to join (Python's IndexError), and the table is
      then left as it was. */
  method SplitAndJoin(table: ChapterTable, menu: nat)
    returns (clips: seq<Interval>, joinedClip: seq<Interval>, joined: IntList?)
    requires table.Valid()
    modifies table, table.rows
    ensures var r := SplitJoin(old(Values(table.rows)), menu);
      (joined == null <==> r.None?)
      && (r.None? ==> table.rows == old(table.rows) && clips == [])
      && (r.Some? ==>
            table.rows != [] && joined == table.rows[0] && joinedClip == clips
            && r.value == TitleSet(Values(table.rows), clips, joined.items))
    ensures table.Valid()
    ensures |old(table.rows)| <= |table.rows| && table.rows[..|old(table.rows)|] == old(table.rows)
    ensures forall k :: |old(table.rows)| <= k < |table.rows| ==> fresh(table.rows[k])
  {
    clips := SplitChaptersClips(table, menu);
    var spliced := JoinClips(clips);
    if spliced.None? {
      joinedClip := [];
      joined := null;
      return;
    }
    joinedClip := spliced.value;
    joined := GenJoinedChapters(table);
  }

  /** The safe-indices branch of split_titles: the walk over `split`, the
      table the first split and join left, which it does not change; then a
      fresh table of the repaired lists (without the menu's,
      which the split appends again) split and joined once more. */
  method RepairAndSplit(split: ChapterTable, n: int, menu: nat)
    returns (table: ChapterTable, clips: seq<Interval>, joinedClip: seq<Interval>, joined: IntList)
    requires split.Valid() && split.rows != []
    ensures Values(split.rows) == old(Values(split.rows))
    ensures fresh(table) && table.Valid()
    ensures table.rows != [] && joined == table.rows[0] && joinedClip == clips
    ensures RepairedSplit(Values(split.rows), n, menu) == Some(TitleSet(Values(table.rows), clips, joined.items))
  {
    ghost var rows := Values(split.rows);
    var fixed := RepairChapters(Values(split.rows), n, menu);
    table := new ChapterTable(Trimmed(fixed, menu));
    var maybeJoined;
    clips, joinedClip, maybeJoined := SplitAndJoin(table, menu);
    joined := maybeJoined;
    assert Values(split.rows) == rows;
  }

  /** split_titles on the cached IFO table `ifo`: its split and join work on
      `ifo` itself; when the joined list ends past the clip's `n` frames and
      safe indices are on, the repaired lists go into a fresh table that is
      split and joined again. `table` is the table left as the split
      chapters, and `joined` is null where the join fails on an empty list. */
  method SplitTitlesOn(ifo: ChapterTable, menu: nat, n: int, safe: bool)
    returns (table: ChapterTable, clips: seq<Interval>, joinedClip: seq<Interval>, joined: IntList?)
    requires ifo.Valid()
    modifies ifo, ifo.rows
    ensures ifo.Valid()
    ensures table != ifo ==> fresh(table)
    ensures var r := SplitTitlesResult(old(Values(ifo.rows)), menu, n, safe);
      (joined != null <==> r.Some?)
      && (joined == null ==> table == ifo && clips == [] && Values(ifo.rows) == old(Values(ifo.rows)))
      && (joined != null ==>
            table.Valid() && table.rows != []
            && joined == table.rows[0] && clips != [] && joinedClip == r.value.clips
            && TitleSet(Values(table.rows), clips, joined.items) == r.value)
    ensures joined != null ==>
      var before := SplitRows(old(Values(ifo.rows)), menu);
      before != [] && Values(ifo.rows) == AfterJoin(before)
      && (table == ifo <==> !(safe && Last(Join(before)) > n))
  {
    ghost var v := Values(ifo.rows);
    ghost var result := SplitTitlesResult(v, menu, n, safe);
    table := ifo;
    clips, joinedClip, joined := SplitAndJoin(ifo, menu);
    if joined == null {
      assert result.None?;
      return;
    }
    ghost var first := SplitJoin(v, menu).value;
    ghost var before := SplitRows(v, menu);
    assert first.joined == Join(before) && first.chapters == AfterJoin(before);
    ghost var after := Values(ifo.rows);
    assert after == first.chapters;
    var last := joined.items[|joined.items| - 1];
    assert last == Last(first.joined);
    if last > n && safe {
      var repairedJoined;
      table, clips, joinedClip, repairedJoined := RepairAndSplit(ifo, n, menu);
      joined := repairedJoined;
      assert Values(ifo.rows) == after;
      assert result == RepairedSplit(after, n, menu);
      assert table != ifo;
    } else {
      assert result == Some(first);
    }
    assert TitleSet(Values(table.rows), clips, joined.items) == result.value;
  }

  /** The IsoFile state the chapter arithmetic reads and writes. */
  class IsoFile {
    /** `self.__clip.num_frames`, the length of the decoded clip. */
    const numFrames: int
    const safeIndices: bool
    /** `idx_info.videos[0].size` and `len(idx_info.frame_data)` of the index. */
    const firstVideoSize: int
    const frameDataCount: nat
    /** `get_ifo_info(...).chapters`: get_ifo_info is cached, so every
        split_titles call receives this same table. */
    const ifoChapters: ChapterTable
    var splitChapters: ChapterTable?
    var splitClips: seq<Interval>
    var joinedClip: seq<Interval>
    var joinedChapters: IntList?

    ghost predicate Valid()
      reads this, ifoChapters, ifoChapters.rows, splitChapters, joinedChapters
      reads if splitChapters != null then splitChapters.rows else []
    {
      ifoChapters.Valid()
      && (splitClips != [] ==>
            splitChapters != null && joinedChapters != null
            && splitChapters.Valid()
            && splitChapters.rows != [] && joinedChapters == splitChapters.rows[0])
    }

    /** `dvd_menu_length`. */
    function Menu(): nat
    {
      MenuLength(firstVideoSize, frameDataCount)
    }

    /** What get_title reads: the split chapter lists, the sub-clips and the
        joined chapter list. */
    function State(): TitleSet
      requires splitChapters != null && joinedChapters != null
      reads this, splitChapters, splitChapters.rows, joinedChapters
    {
      TitleSet(Values(splitChapters.rows), splitClips, joinedChapters.items)
    }

    /** A freshly opened image whose IFO files gave `info`. */
    constructor (info: IfoInfo, numFrames: int, safeIndices: bool, firstVideoSize: int, frameDataCount: nat)
      requires AllNonEmpty(info.chapters)
      ensures Valid() && fresh(ifoChapters)
      ensures Values(ifoChapters.rows) == info.chapters
      ensures splitChapters == null && splitClips == [] && joinedClip == [] && joinedChapters == null
      ensures this.numFrames == numFrames && this.safeIndices == safeIndices
      ensures this.firstVideoSize == firstVideoSize && this.frameDataCount == frameDataCount
    {
      this.numFrames := numFrames;
      this.safeIndices := safeIndices;
      this.firstVideoSize := firstVideoSize;
      this.frameDataCount := frameDataCount;
      ifoChapters := new ChapterTable(info.chapters);
      splitChapters := null;
      splitClips := [];
      joinedClip := [];
      joinedChapters := null;
    }

    /** `split_titles`, on this object's state: see `SplitTitlesOn`. `ok` is
        false where Python raises IndexError: no title and no menu. */
    method SplitTitles() returns (ok: bool)
      requires Valid()
      modifies this, ifoChapters, ifoChapters.rows
      ensures Valid()
      ensures var r := SplitTitlesResult(old(Values(ifoChapters.rows)), Menu(), numFrames, safeIndices);
        (ok <==> r.Some?)
        && (ok ==> splitClips != [] && State() == r.value && joinedClip == r.value.clips)
        && (!ok ==>
              splitChapters == ifoChapters && splitClips == []
              && Values(ifoChapters.rows) == old(Values(ifoChapters.rows)))
      ensures ok ==>
        var before := SplitRows(old(Values(ifoChapters.rows)), Menu());
        before != [] && Values(ifoChapters.rows) == AfterJoin(before)
        && (splitChapters == ifoChapters <==> !(safeIndices && Last(Join(before)) > numFrames))
    {
      var table, clips, spliced, joined := SplitTitlesOn(ifoChapters, Menu(), numFrames, safeIndices);
      StoreSplit(table, clips, spliced, joined);
      ok := joined != null;
    }

    /** The assignments of split_titles to `split_chapters`, `split_clips`,
        `joined_clip` and `joined_chapters`; the last two are not reached
        when the join raises IndexError (`joined` null). */
    method StoreSplit(table: ChapterTable, clips: seq<Interval>, spliced: seq<Interval>, joined: IntList?)
      requires ifoChapters.Valid()
      requires joined == null ==> clips == []
      requires joined != null ==> table.Valid() && table.rows != [] && joined == table.rows[0] && clips != []
      modifies this
      ensures Valid()
      ensures splitChapters == table && splitClips == clips
      ensures joined == null ==> joinedClip == old(joinedClip) && joinedChapters == old(joinedChapters)
      ensures joined != null ==> joinedClip == spliced && joinedChapters == joined
      ensures Values(ifoChapters.rows) == old(Values(ifoChapters.rows))
      ensures joined != null ==> State() == TitleSet(old(Values(table.rows)), clips, old(joined.items))
    {
      label Before:
      splitChapters, splitClips := table, clips;
      if joined != null {
        joinedClip, joinedChapters := spliced, joined;
        table.Unchanged@Before();
      }
      ifoChapters.Unchanged@Before();
    }

    /** `get_title`: splits the titles when no split exists yet (a later call
        reuses the split), then resolves `q` in the clip `clipIndex` picks. */
    method GetTitle(clipIndex: Option<int>, q: Query) returns (r: Result<Title, RangeError>)
      requires Valid()
      modifies this, ifoChapters, ifoChapters.rows
      ensures Valid()
      ensures splitClips == [] ==> r == Failure(IndexOutOfRange)
      ensures splitClips != [] ==> r == PickTitle(State(), clipIndex, q)
      ensures old(splitClips) != [] ==>
        unchanged(this) && unchanged(ifoChapters) && unchanged(ifoChapters.rows) && State() == old(State())
      ensures old(splitClips) == [] ==>
        var s := SplitTitlesResult(old(Values(ifoChapters.rows)), Menu(), numFrames, safeIndices);
        (splitClips != [] <==> s.Some?) && (s.Some? ==> State() == s.value)
    {
      if splitClips == [] {
        var ok := SplitTitles();
        if !ok {
          return Failure(IndexOutOfRange);
        }
      }
      r := PickTitle(TitleSet(Values(splitChapters.rows), splitClips, joinedChapters.items), clipIndex, q);
    }
  }
}
