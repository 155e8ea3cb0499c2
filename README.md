# IsoFileCore chapter arithmetic, in Dafny

This project models the frame-index arithmetic of `IsoFileCore` (vs-source,
`parsedvd/IsoFileCore.py`). That code turns the chapter metadata of a DVD
image into frame ranges of the decoded video. The decoded video is opaque
here: it is a length `N` (`num_frames`). A sub-clip is the half-open interval
`[lo, hi)` of frames it takes from the decoded clip, and a spliced clip is the
list of those intervals.

The model has five modules:

- `Common` holds `Option`/`Result`, Python list indexing (`PyIndex`: negative
  indices count from the end and anything else is an IndexError) and
  `itertools.accumulate` (`Accumulate`) with its prefix-sum lemmas.
- `Chapters` covers `get_ifo_info`. Program chains come in as decoded records,
  and the frame-rate-code table is an input map. For each title it builds the
  cumulative boundary list, checks that the chain has one frame-rate code, and
  reports the last chain's rate (30000/1001 when there is no chain). A refused
  chain is an error value, not an exception.
- `Titles` is the value-level meaning of `split_titles`:
  - the menu-length rule;
  - the split into one interval per title after the menu, then the menu's
    interval and boundary list;
  - the join of the boundary lists;
  - the broken-chapter trigger;
  - the safe-indices walk, as a function (`Repair`) and as the nested loop the
    code runs (`RepairChapters`, `WalkRow`, `StopWalk`);
  - the whole outcome (`SplitTitlesResult`).
- `TitleFacts` holds the properties of those functions: the merged list's end,
  the aliasing consequence, where the repair stops and how far it goes.
- `Ranges` covers `get_title`'s query arithmetic (integer, tuple, list and
  `None` queries) and the choice between the joined clip and one title's clip.
- `IsoFiles` is the heap model of the state `split_titles` and `get_title`
  share. A Python `List[int]` is an `IntList` object and the list of those is a
  `ChapterTable`. This reproduces two in-place effects of the code:
  - the split appends the menu's list to the cached `get_ifo_info` table it is
    given;
  - the join extends that table's first list with `+=` and returns that same
    list object as `joined_chapters`.

  `IsoFile` holds the fields (`split_chapters`, `split_clips`, `joined_clip`,
  `joined_chapters`). Each method is proved against the `Titles` functions.

### Where the code and its intended design differ (the model follows the code)

- With no IFO files, `get_ifo_info` does not raise. It returns no chapters and
  the default rate 30000/1001.
- A tuple query's negative end gets no `+1`, so `(1, -1)` on `[0, 100, 200, 300]`
  selects `[100, 200)`, not up to the last boundary.
- The safe-indices repair of a table with at least one title ends the merged
  list at `N + 1` without a menu, one frame past the clip (`RepairOutcome`,
  `OneTitleRepairExample`), and at `N` with a menu.
- A table with a menu and no title is left as the menu's list `[0, menu]`
  whatever `N` is: the repair has no title to clamp, so when the menu is longer
  than the clip the merged list and the menu's interval end past `N`
  (`MenuOnlyTable`).
- A negative chapter index is used in two Python lookups, so it wraps around
  twice. An integer query only fails below `1 - 2 * len` (or from `len` up),
  and chapter 0 of a one-entry list fails while chapter -1 of it succeeds
  (`ChapterIndexErrors`).
- The repair's clamp `N - menu - count + i + 2` does not look at the
  boundaries kept before it, so it can fall below them and the repaired list
  goes down (`RepairCanGoDown`; `ClampBelowKeptBoundary` gives `0, 99, 97`).
  When the lists outnumber `N - menu + 2` the clamp is negative
  (`NegativeClampExample`). `get_title` then slices backwards, for example
  `clip[99:97]` (`ReversedChapterAfterRepair`, `NegativeChapterAfterRepair`).
- The repair only handles an overrun. When the titles total less than `N`,
  nothing is repaired and the frames after the last title belong to no
  sub-clip: the sub-clips take exactly the menu plus the titles' total
  (`SplitFrameCount`, `UnrepairedClipsFit`).
- Because the first split appends to the cached `get_ifo_info` table and the
  join extends that table's first list, a second `split_titles` call works on
  the already-modified table. `IsoFile.SplitTitles` states this: the cached
  table ends up as `AfterJoin(SplitRows(old values, menu))`.

## Model

| member | source | states |
|---|---|---|
| Common.PyIndex | parsedvd/IsoFileCore.py:261-262 | a lookup succeeds exactly for `-len <= i < len`; a non-negative index reads element `i`, a negative one element `len + i` |
| Common.Accumulate | parsedvd/IsoFileCore.py:157-158 | `accumulate([0] + xs)` has one more entry than `xs`, starts at 0, and each entry is the previous plus the next step |
| Common.AccumulateIsPrefixSum | parsedvd/IsoFileCore.py:110 | entry `i` of the running sums is the sum of the first `i` steps |
| Common.AccumulateEndsAtSum | parsedvd/IsoFileCore.py:110 | the last running sum is the total of all steps |
| Common.AccumulateNonDecreasing | parsedvd/IsoFileCore.py:157-158 | running sums of non-negative steps never decrease |
| Chapters.RawFps | parsedvd/IsoFileCore.py:150 | the integer rate is 30 exactly when the numerator is 30000, else 25 |
| Chapters.ChainFps | parsedvd/IsoFileCore.py:144-148 | a chain is accepted exactly when it has playback times, all carry the first one's code, and the code is in the table; the rate is the table's entry for that code |
| Chapters.CollectChains | parsedvd/IsoFileCore.py:130-137 | the loop over the IFO files gathers every file's chains in order, skipping the first one of each when there are several files |
| Chapters.CheckChain | parsedvd/IsoFileCore.py:144-148 | the frame-rate check loop returns exactly the chain's rate or its refusal |
| Chapters.TitleBoundaries | parsedvd/IsoFileCore.py:152-158 | no contract of its own: `accumulate([0] + lengths)` of one chain; `TitleBoundariesShape`, `TitleBoundariesNonDecreasing` and `TitleEndIsTotal` state its properties |
| Chapters.Gather | parsedvd/IsoFileCore.py:134-137 | no contract of its own: every file's chains in file order, each file's first `skip` left out; `GatherPosition` and `GatherLength` state its properties |
| Chapters.ProgramChains | parsedvd/IsoFileCore.py:132-137 | no contract of its own: `Gather` skipping one chain per file when there are several files; `OneIfoKeepsEveryChain` and `SeveralIfosDropFirstChain` state its properties |
| Chapters.GetIfoInfo | parsedvd/IsoFileCore.py:125-160 | succeeds exactly when every chain is accepted; on failure the first refused chain's error is returned; on success title `k` gets the boundary list of chain `k` at its own rate, the reported rate is the last chain's (or 30000/1001 with no chain), and the several-IFO flag is set when there is more than one file |
| Chapters.TitleBoundariesShape | parsedvd/IsoFileCore.py:152-158 | a title's list has one entry per playback time plus one, starts at 0 and steps by `frames + (h*3600 + m*60 + s) * raw_fps` |
| Chapters.TitleBoundariesNonDecreasing | parsedvd/IsoFileCore.py:152-158 | with non-negative duration fields a title's list never decreases |
| Chapters.TitleEndIsTotal | parsedvd/IsoFileCore.py:157-158 | a title's last boundary is the sum of its chapter lengths |
| Chapters.MixedCodesRefused | parsedvd/IsoFileCore.py:145-148 | any two differing frame-rate codes in a chain make it refused as variable frame rate |
| Chapters.OneIfoKeepsEveryChain | parsedvd/IsoFileCore.py:132-137 | with one IFO file every chain of it is a title |
| Chapters.GatherPosition | parsedvd/IsoFileCore.py:134-137 | chain `p >= skip` of file `i` is at position (chains before file `i`) + `p - skip` of the gathered list |
| Chapters.SeveralIfosDropFirstChain | parsedvd/IsoFileCore.py:132-137 | with several files, chain `p >= 1` of file `i` is a title, at the position the files before it leave |
| Chapters.GatherLength | parsedvd/IsoFileCore.py:134-137 | the number of titles is the sum over the files of their chain counts minus the skipped chains |
| Titles.MenuLength | parsedvd/IsoFileCore.py:178-180 | there is a menu exactly when the first video is larger than 8192 bytes and the index has frame data; its length is then the frame-data count |
| Titles.Tiles | parsedvd/IsoFileCore.py:116 | the per-title trim gives one interval fewer than there are split points; `TitleInterval` states where each interval lies |
| Titles.SplitClips | parsedvd/IsoFileCore.py:110-120 | no contract of its own: the titles' intervals, then the menu's; `TitleInterval`, `SplitFrameCount`, `TitlesContiguous`, `EveryFrameInOneTitle` and `ClipsWithinTotal` state its properties |
| Titles.SplitRows | parsedvd/IsoFileCore.py:118-120 | the table with the menu's list `[0, menu]` appended keeps every list non-empty; `SplitJoinShape` states where the menu's list lands |
| Titles.TitleInterval | parsedvd/IsoFileCore.py:110-116 | title `i`'s interval is `[menu + D[i], menu + D[i+1])` with `D` the running sums of the titles' last boundaries |
| Titles.SplitFrameCount | parsedvd/IsoFileCore.py:110-119 | the sub-clips together take the menu plus every title's last boundary |
| Titles.TitlesContiguous | parsedvd/IsoFileCore.py:110-116 | the first interval starts at the menu's end, each starts where the previous ends, the last ends at the menu plus the titles' total |
| Titles.EveryFrameInOneTitle | parsedvd/IsoFileCore.py:110-116 | with non-negative title lengths every frame from the menu's end to the titles' end lies in exactly one title's interval |
| Titles.ShiftedMembers | parsedvd/IsoFileCore.py:200-202 | the boundaries a list contributes to the join are exactly its non-zero boundaries moved by the merged list's last value |
| Titles.Shifted | parsedvd/IsoFileCore.py:200-202 | the boundaries a list adds to the join are no more than its own; `ShiftedMembers`, `ShiftedLast` and `ShiftedAbove` state which ones and where they end |
| Titles.Join | parsedvd/IsoFileCore.py:194-204 | the merged list starts with the whole first list |
| Titles.JoinEndsAtTotal | parsedvd/IsoFileCore.py:194-204 | with well-formed later lists the merged list ends at the sum of every list's last boundary |
| Titles.JoinIsBoundaries | parsedvd/IsoFileCore.py:194-204 | merging well-formed boundary lists gives a well-formed list (starts at 0, never decreases) |
| Titles.AfterJoin | parsedvd/IsoFileCore.py:196-202 | after the join the table's first list is the merged list and every other list is unchanged |
| Titles.SplitJoin | parsedvd/IsoFileCore.py:182-192 | split and join fail (IndexError) exactly when there is no title and no menu |
| Titles.FirstReaching | parsedvd/IsoFileCore.py:221-224 | the walk stops at the first boundary that, moved by the offset, reaches `N`; every earlier one stays below, and with no stop all do |
| Titles.ClampedEnd | parsedvd/IsoFileCore.py:225-227 | no contract of its own: the value put in place of the first boundary reaching `N`; `RepairOutcome` and `RepairCanGoDown` state what it does to the merged list |
| Titles.AfterStop | parsedvd/IsoFileCore.py:224-235 | one list for each row from the stop on; `StopWalk` builds it and `RepairedTable` states its lists |
| Titles.RepairFrom | parsedvd/IsoFileCore.py:217-239 | one non-empty list per row still to walk; `RepairFromStep` and `RepairFromStop` relate it to the loop |
| Titles.Repair | parsedvd/IsoFileCore.py:217-239 | the repaired table has as many lists as the table walked, all non-empty; `RepairChapters` is the loop that builds it and `RepairedTable` states its lists |
| Titles.RepairChapters | parsedvd/IsoFileCore.py:217-239 | the nested walk with `break` and `for`-`else` builds exactly the repaired table `Repair` |
| Titles.WalkRow | parsedvd/IsoFileCore.py:221-224 | the inner loop copies a row's boundaries up to the first one that reaches `N` and reports where it stopped |
| Titles.StopWalk | parsedvd/IsoFileCore.py:225-235 | at the stop in list `i` the list is cut and ends at `N - menu - count + i + 2` (`count` lists, the menu's included), later titles become `[0, 1]` and the menu's list is put back |
| Titles.Trimmed | parsedvd/IsoFileCore.py:241-244 | the lists handed to the second split: one fewer than the repaired table when there is a menu, all non-empty |
| Titles.RepairedSplit | parsedvd/IsoFileCore.py:241-247 | the second split and join always has a result; `RepairOutcome`, `SplitJoinRepairedLists` and `SplitJoinRepairedEnd` state what it is |
| Titles.SplitTitlesResult | parsedvd/IsoFileCore.py:182-247 | `split_titles` has a result exactly when there is a title or a menu |
| TitleFacts.FirstListIsJoined | parsedvd/IsoFileCore.py:194-207 | after `split_titles` the first title's list is the joined list, and there are as many lists as clips (titles plus menu) |
| TitleFacts.RepairOnlyOnOverrun | parsedvd/IsoFileCore.py:209-215 | without safe indices, or when the merged list stays within `N`, the result is the single split and join |
| TitleFacts.SplitJoinedEnd | parsedvd/IsoFileCore.py:110-120 | with well-formed later lists the merged list ends at the menu plus the titles' total |
| TitleFacts.SplitJoinLengthsAgree | parsedvd/IsoFileCore.py:184-204 | with well-formed later lists the merged list ends at the joined clip's frame count |
| TitleFacts.UnrepairedClipsFit | parsedvd/IsoFileCore.py:209 | for well-formed lists, when the merged list ends within `N` every sub-clip lies within `[0, N]`, so the slices are in range |
| TitleFacts.ClipsWithinTotal | parsedvd/IsoFileCore.py:110-119 | with non-negative title lengths every sub-clip lies within the menu plus the titles' total |
| TitleFacts.RepairStopsInFirstList | parsedvd/IsoFileCore.py:220-235 | the first list is the merged list, so when it ends past `N` the walk stops in it |
| TitleFacts.RepairedTable | parsedvd/IsoFileCore.py:217-244 | the repaired titles are the merged list cut at the first boundary reaching `N` and ended at the clamp, and `[0, 1]` for every other title |
| TitleFacts.SplitJoinShape | parsedvd/IsoFileCore.py:116-120 | after a split and join, the merged list starts with the first list, later titles keep their lists, and the menu's list and clip come last |
| TitleFacts.SplitJoinRepairedLists | parsedvd/IsoFileCore.py:241-247 | the second split keeps the kept boundaries and the clamp in the merged list, every other title `[0, 1]` and the menu's list last |
| TitleFacts.SplitJoinRepairedEnd | parsedvd/IsoFileCore.py:241-247 | after the second split the merged list and the last title's interval end at the clamp plus the other titles plus the menu |
| TitleFacts.RepairOutcome | parsedvd/IsoFileCore.py:209-247 | on an overrun with safe indices and at least one title: boundaries below `N` kept, the first reaching `N` becomes `N - menu - T + 2`, later titles `[0, 1]`, the menu's list kept, and the merged list and last interval end at `N` with a menu and at `N + 1` without |
| TitleFacts.OneTitleRepairExample | parsedvd/IsoFileCore.py:217-247 | one title `[0, 100, 300]`, no menu, `N = 250` gives `[0, 100, 251]` and the interval `[0, 251)` |
| TitleFacts.MenuOnlyTable | parsedvd/IsoFileCore.py:209-247 | a menu and no title give the lists `[[0, menu]]`, the one interval `[0, menu)` and the merged list `[0, menu]` for every `N`, with or without safe indices, so a menu longer than the clip ends past `N` |
| TitleFacts.RepairCanGoDown | parsedvd/IsoFileCore.py:222-227 | the clamp does not depend on the boundaries kept before it: when it is below the last one kept, the repaired merged list goes down there and is not non-decreasing |
| TitleFacts.ClampBelowKeptBoundary | parsedvd/IsoFileCore.py:209-247 | five titles `[0, 99, 150]`, `[0, 10]` x 4, no menu, `N = 100`: the repaired merged list starts `0, 99, 97` and is not non-decreasing |
| TitleFacts.NegativeClampExample | parsedvd/IsoFileCore.py:209-247 | four titles `[0, 5]`, `[0, 1]` x 3, no menu, `N = 1`: the clamp is -1, so the repaired merged list starts `0, -1` |
| Ranges.Collect | parsedvd/IsoFileCore.py:303-304 | a list of results succeeds exactly when each does, with each value in order |
| Ranges.Slice | parsedvd/IsoFileCore.py:272-302 | no contract of its own: `clip[start:end]` once both lookups succeed, recorded as looked up (a reversed or empty slice included) |
| Ranges.ChapterRange | parsedvd/IsoFileCore.py:272-286 | no contract of its own: the integer-query branch; `ChapterBetweenBoundaries`, `PastLastIndexGivesLastChapter`, `NegativeChapterFromEnd`, `ChapterIndexErrors` and `ChapterWithinTitle` state its properties |
| Ranges.SpanStart | parsedvd/IsoFileCore.py:290-293 | no contract of its own: the tuple query's start index; `NegativeStartFromEnd` and `OpenSpanIsWhole` state its properties |
| Ranges.SpanEnd | parsedvd/IsoFileCore.py:295-300 | no contract of its own: the tuple query's end index; `SpanIsInclusive` and `NegativeEndExcludesLast` state its properties |
| Ranges.SpanRange | parsedvd/IsoFileCore.py:287-302 | no contract of its own: the tuple-query branch; `SpanIsInclusive`, `NegativeEndExcludesLast`, `NegativeStartFromEnd` and `OpenSpanIsWhole` state its properties |
| Ranges.Resolve | parsedvd/IsoFileCore.py:267-306 | no contract of its own: the query dispatch of `get_title`; `ExampleQueries`, `SeveralResolvesEach` and the integer and tuple lemmas state its properties |
| Ranges.ChapterBetweenBoundaries | parsedvd/IsoFileCore.py:277-284 | chapter `c` with `0 <= c < len - 1` selects `[ranges[c], ranges[c+1])` |
| Ranges.PastLastIndexGivesLastChapter | parsedvd/IsoFileCore.py:273-276 | index `len - 1` is accepted and selects the last chapter, like `len - 2` |
| Ranges.NegativeChapterFromEnd | parsedvd/IsoFileCore.py:279-281 | a negative chapter `c` (down to `-(len - 1)`) is chapter `len - 1 + c` |
| Ranges.ChapterIndexErrors | parsedvd/IsoFileCore.py:272-286 | an integer query succeeds exactly for `1 - 2*len <= c < len` except chapter 0 of a one-entry list; chapter -1 of a one-entry list selects an empty range |
| Ranges.ChapterWithinTitle | parsedvd/IsoFileCore.py:272-286 | on a well-formed list every in-range chapter selects frames with `0 <= start <= end <= ranges[-1]` |
| Ranges.SpanIsInclusive | parsedvd/IsoFileCore.py:287-302 | `(a, b)` with non-negative ends selects chapters `a` through `b` inclusive |
| Ranges.NegativeEndExcludesLast | parsedvd/IsoFileCore.py:295-300 | a negative end `b` is the end `len - 2 + b`, so `-1` stops before the last chapter |
| Ranges.NegativeStartFromEnd | parsedvd/IsoFileCore.py:290-293 | a negative start `a` is the start `len - 1 + a` |
| Ranges.OpenSpanIsWhole | parsedvd/IsoFileCore.py:290-296 | `(None, None)` selects from the first to the last boundary |
| Ranges.SeveralResolvesEach | parsedvd/IsoFileCore.py:303-304 | a list query resolves each element in order and fails when any element fails |
| Ranges.ExampleQueries | parsedvd/IsoFileCore.py:267-306 | on `[0, 100, 200, 300]`: 0, 1, 3, -1, 4, `(1, -1)`, `(1, 2)`, `(None, None)`, `None` and a list give the frame ranges worked out from the code (`Chapter(4)` fails, `(1, -1)` stops before the last chapter) |
| Ranges.PickTitle | parsedvd/IsoFileCore.py:260-306 | no contract of its own: the joined list and clip without a clip index, else the title's list and clip by Python indexing; `IsoFile.GetTitle` returns it, and `JoinedQueriesMatchFirstTitle`, `ClipIndexFromEnd` and `SplitTitlesIndexFromEnd` state its properties |
| Ranges.JoinedQueriesMatchFirstTitle | parsedvd/IsoFileCore.py:260-265 | a query without a clip index succeeds exactly when it does on title 0, and selects the same frames, taken from the joined clip |
| Ranges.ClipIndexFromEnd | parsedvd/IsoFileCore.py:260-262 | a negative clip index picks the title counted from the end; one outside the titles fails |
| Ranges.SplitTitlesIndexFromEnd | parsedvd/IsoFileCore.py:260-262 | the same for the titles `split_titles` leaves, which have one list per clip |
| Ranges.ReversedChapterAfterRepair | parsedvd/IsoFileCore.py:272-286 | after the repair of the five-title example, resolving chapter 1 on title 0's list gives the reversed slice from frame 99 to frame 97, and `get_title` with clip index 0 returns it as a selection of that title's clip |
| Ranges.NegativeChapterAfterRepair | parsedvd/IsoFileCore.py:272-286 | after the repair of the four-title example, chapter 0 of title 0 resolves to frames 0 to -1, and `get_title` with clip index 0 returns that selection of the title's clip |
| IsoFiles.IntList.ExtendShifted | parsedvd/IsoFileCore.py:199-202 | the in-place `+=` appends a list's non-zero boundaries, moved by the value last before the extension |
| IsoFiles.SplitChaptersClips | parsedvd/IsoFileCore.py:104-122 | returns the title and menu clips `SplitClips`; the table given becomes `SplitRows` of its old values, and with a menu it gets one new list appended |
| IsoFiles.JoinClips | parsedvd/IsoFileCore.py:184-192 | the joined clip is the clips in order, and fails exactly on an empty list |
| IsoFiles.GenJoinedChapters | parsedvd/IsoFileCore.py:194-204 | the returned list is the table's first list object, and the table's values become `AfterJoin` of the old ones |
| IsoFiles.SplitAndJoin | parsedvd/IsoFileCore.py:182-207 | the split and join in place give exactly `SplitJoin` of the old values, with the joined list being the table's first list; on failure the table is unchanged |
| IsoFiles.RepairAndSplit | parsedvd/IsoFileCore.py:217-247 | the walk over the joined table and the second split in a fresh table give exactly `RepairedSplit` of the joined table, which the walk leaves as it was |
| IsoFiles.SplitTitlesOn | parsedvd/IsoFileCore.py:182-247 | `split_titles` on the cached table gives exactly `SplitTitlesResult` of its old values, and the cached table becomes `AfterJoin` of the first split; the split table is the cached one exactly when no repair happens |
| IsoFiles.IsoFile.constructor | parsedvd/IsoFileCore.py:19-42 | a fresh image holds the IFO chapter table and no split |
| IsoFiles.IsoFile.SplitTitles | parsedvd/IsoFileCore.py:162-249 | the fields hold exactly `SplitTitlesResult` of the cached table's old values, or the IndexError case; the cached table is modified as above |
| IsoFiles.IsoFile.StoreSplit | parsedvd/IsoFileCore.py:182-207 | the field assignments of the split, where the joined clip and chapters are not reached on IndexError |
| IsoFiles.IsoFile.GetTitle | parsedvd/IsoFileCore.py:251-306 | splits on first use (IndexError when there is neither title nor menu), then returns exactly `PickTitle` of the split state; once split, a call changes nothing, so calls repeat their results |

## Left out

- Filesystem, mounting and file discovery (`_get_mount_path`, `_mount_folder_path`, `glob`, `open`, the path checks of the constructor): the decoded IFO records are inputs.
- Binary IFO decoding (`vts_ifo.load_vts_pgci`) and the frame-rate-code table: foreign code. The table is an input map.
- Normalisation of `Fraction`: Python keeps every fraction in lowest terms, while the model takes the table's entries as written, so `RawFps` reads 25 for an unreduced entry such as `60000/2002`. The decoder's table is taken to be in lowest terms.
- The indexer and index files (`source`, `index_files`, `get_idx_info`, the shared `index_info` list): external tools and I/O. The first video's size and the frame-data count are constructor inputs.
- VapourSynth decoding, `AssumeFPS`, clip slicing and concatenation: a clip is a list of frame intervals. A slice is recorded as the pair of boundaries looked up (`Ranges.Slice`), so a reversed slice (start after end) and an empty one are selections here; what the video library does with them, or with an interval outside `[0, N]`, is not modelled; `UnrepairedClipsFit` and `RepairOutcome` state when intervals stay inside and when one ends at `N + 1`.
- `lru_cache` as a mechanism: the cache is modelled by its effect, one shared chapter table that every `split_titles` call on the object receives.
- The printed warning on a broken chapter list without safe indices: output only.
- The lazy `source()` call at the start of `get_title` and `split_titles`: the clip length `N` is a constructor input.
- Python's `bool` being an `int` (a `True` chapter query): not a meaningful query.
- IsoFiles.IsoFile.constructor: takes the boundary lists as non-empty, which `get_ifo_info` always produces (each list starts with 0).
