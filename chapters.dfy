/** Chapter extraction: turns the program chains decoded from the VTS IFO files
    into one cumulative chapter-boundary list (in frames) per title, and picks
    the frame rate (IsoFileCore.get_ifo_info). The binary IFO decoding and the
    frame-rate-code table are collaborators: the decoded records and the table
    are inputs here. */
module Chapters {
  import opened Common

  /** A rational frame rate. Python's `Fraction` is always in lowest terms;
      here the table's entries are taken as given, so `RawFps` reads the
      numerator as written. */
  datatype Fraction = Fraction(numerator: int, denominator: int)

  /** One chapter mark of a program chain: its duration and frame-rate code. */
  datatype PlaybackTime = PlaybackTime(hours: int, minutes: int, seconds: int, frames: int, fps: int)

  datatype ProgramChain = ProgramChain(playbackTimes: seq<PlaybackTime>)

  /** The program-chain table decoded from one VTS IFO file. */
  datatype Pgci = Pgci(programChains: seq<ProgramChain>)

  datatype IfoInfo = IfoInfo(chapters: seq<seq<int>>, fps: Fraction, multipleIfos: bool)

  datatype ExtractError =
    | NoPlaybackTimes          // `dvd_fps_s[0]` on a chain without playback times
    | VariableFrameRate        // the chain mixes frame-rate codes
    | UnknownFrameRate(code: int)  // the code is not in the frame-rate table

  /** The decoder's table from frame-rate code to frame rate. */
  type FrameRateTable = map<int, Fraction>

  /** The frame rate reported when there is no program chain at all. */
  const DefaultFps: Fraction := Fraction(30000, 1001)

  /** The integer rate used to turn seconds into frames. */
  function RawFps(fps: Fraction): (raw: int)
    ensures raw == 30 <==> fps.numerator == 30000
    ensures raw == 30 || raw == 25
  {
    if fps.numerator == 30000 then 30 else 25
  }

  /** The length of one chapter in frames. */
  function PlaybackFrames(pt: PlaybackTime, rawFps: int): int
  {
    pt.frames + (pt.hours * 3600 + pt.minutes * 60 + pt.seconds) * rawFps
  }

  function ChapterLengths(pts: seq<PlaybackTime>, rawFps: int): seq<int>
  {
    seq(|pts|, k requires 0 <= k < |pts| => PlaybackFrames(pts[k], rawFps))
  }

  /** The boundary list of one title: 0, then the running sums of its chapter lengths. */
  function TitleBoundaries(chain: ProgramChain, rawFps: int): seq<int>
  {
    Accumulate(ChapterLengths(chain.playbackTimes, rawFps))
  }

  /** Python's `xs[n:]`, which is empty when `n` is past the end. */
  function Drop<T>(xs: seq<T>, n: nat): seq<T>
  {
    if n <= |xs| then xs[n..] else []
  }

  /** The chains of all IFOs in order, each IFO's first `skip` chains left out. */
  function Gather(ifos: seq<Pgci>, skip: nat): seq<ProgramChain>
  {
    if ifos == [] then []
    else Gather(ifos[..|ifos| - 1], skip) + Drop(Last(ifos).programChains, skip)
  }

  /** How many leading chains of each IFO are menus: one when there are several IFOs. */
  function MenuChains(ifos: seq<Pgci>): nat
  {
    if |ifos| > 1 then 1 else 0
  }

  function ProgramChains(ifos: seq<Pgci>): seq<ProgramChain>
  {
    Gather(ifos, MenuChains(ifos))
  }

  /** The frame rate of one chain, or why the chain is refused. */
  function ChainFps(chain: ProgramChain, table: FrameRateTable): (r: Result<Fraction, ExtractError>)
    ensures r.Success? <==>
      && chain.playbackTimes != []
      && (forall k :: 0 <= k < |chain.playbackTimes| ==>
            chain.playbackTimes[k].fps == chain.playbackTimes[0].fps)
      && chain.playbackTimes[0].fps in table
    ensures r.Success? ==> r.value == table[chain.playbackTimes[0].fps]
  {
    var pts := chain.playbackTimes;
    if pts == [] then Failure(NoPlaybackTimes)
    else if exists k :: 0 <= k < |pts| && pts[k].fps != pts[0].fps then Failure(VariableFrameRate)
    else if pts[0].fps !in table then Failure(UnknownFrameRate(pts[0].fps))
    else Success(table[pts[0].fps])
  }

  ghost predicate AllChainsValid(chains: seq<ProgramChain>, table: FrameRateTable)
  {
    forall k :: 0 <= k < |chains| ==> ChainFps(chains[k], table).Success?
  }

  /** The chains of all IFO files in file order (the loop over the IFO files). */
  method CollectChains(ifos: seq<Pgci>) returns (chains: seq<ProgramChain>)
    ensures chains == ProgramChains(ifos)
  {
    var skip := if |ifos| > 1 then 1 else 0;
    chains := [];
    for f := 0 to |ifos|
      invariant chains == Gather(ifos[..f], skip)
    {
      chains := chains + Drop(ifos[f].programChains, skip);
      assert ifos[..f + 1][..f] == ifos[..f];
    }
    assert ifos[..|ifos|] == ifos;
  }

  /** The frame-rate check of one chain: every playback time must carry the
      first one's code, and that code must be in the table. */
  method CheckChain(chain: ProgramChain, table: FrameRateTable) returns (r: Result<Fraction, ExtractError>)
    ensures r == ChainFps(chain, table)
  {
    var pts := chain.playbackTimes;
    var uniform := true;
    for k := 0 to |pts|
      invariant uniform <==> forall k' :: 0 <= k' < k ==> pts[k'].fps == pts[0].fps
    {
      if pts[0].fps != pts[k].fps {
        uniform := false;
      }
    }
    if !uniform {
      return Failure(VariableFrameRate);
    }
    if pts == [] {
      return Failure(NoPlaybackTimes);
    }
    if pts[0].fps !in table {
      return Failure(UnknownFrameRate(pts[0].fps));
    }
    return Success(table[pts[0].fps]);
  }

  /** Extracts the chapter boundaries of every title. A refused chain stops the
      extraction with that chain's error; otherwise every title gets its boundary
      list, converted at its own chain's rate, and the reported rate is the last
      chain's. */
  method GetIfoInfo(ifos: seq<Pgci>, table: FrameRateTable) returns (r: Result<IfoInfo, ExtractError>)
    ensures r.Success? <==> AllChainsValid(ProgramChains(ifos), table)
    ensures r.Failure? ==>
      var chains := ProgramChains(ifos);
      exists c :: 0 <= c < |chains| && AllChainsValid(chains[..c], table)
        && ChainFps(chains[c], table) == Failure(r.error)
    ensures r.Success? ==>
      var chains := ProgramChains(ifos);
      && |r.value.chapters| == |chains|
      && (forall k :: 0 <= k < |chains| ==>
            r.value.chapters[k] == TitleBoundaries(chains[k], RawFps(ChainFps(chains[k], table).value)))
      && r.value.fps == (if chains == [] then DefaultFps else ChainFps(Last(chains), table).value)
      && r.value.multipleIfos == (|ifos| > 1)
  {
    var chains := CollectChains(ifos);
    var lengths: seq<seq<int>> := [];
    var fps := DefaultFps;
    for c := 0 to |chains|
      invariant |lengths| == c
      invariant AllChainsValid(chains[..c], table)
      invariant forall k :: 0 <= k < c ==>
        lengths[k] == ChapterLengths(chains[k].playbackTimes, RawFps(ChainFps(chains[k], table).value))
      invariant fps == if c == 0 then DefaultFps else ChainFps(chains[c - 1], table).value
    {
      var checked := CheckChain(chains[c], table);
      if checked.Failure? {
        assert ChainFps(chains[c], table) == Failure(checked.error);
        assert !AllChainsValid(chains, table);
        r := Failure(checked.error);
        assert AllChainsValid(chains[..c], table);
        return;
      }
      fps := checked.value;
      assert fps == ChainFps(chains[c], table).value;
      lengths := lengths + [ChapterLengths(chains[c].playbackTimes, RawFps(fps))];
      assert chains[..c + 1] == chains[..c] + [chains[c]];
    }
    assert chains[..|chains|] == chains;
    assert chains != [] ==> fps == ChainFps(Last(chains), table).value;
    var chapters := seq(|lengths|, k requires 0 <= k < |lengths| => Accumulate(lengths[k]));
    assert forall k :: 0 <= k < |chains| ==>
      chapters[k] == TitleBoundaries(chains[k], RawFps(ChainFps(chains[k], table).value));
    r := Success(IfoInfo(chapters, fps, |ifos| > 1));
  }

  /** A title's boundary list has one entry more than its chain has playback
      times, starts at 0, and steps by each chapter's frame count. */
  lemma TitleBoundariesShape(chain: ProgramChain, rawFps: int)
    ensures var b := TitleBoundaries(chain, rawFps);
      && |b| == |chain.playbackTimes| + 1
      && b[0] == 0
      && forall k :: 0 <= k < |chain.playbackTimes| ==>
           b[k + 1] == b[k] + PlaybackFrames(chain.playbackTimes[k], rawFps)
  {
  }

  /** With non-negative duration fields every boundary list is non-decreasing. */
  lemma TitleBoundariesNonDecreasing(chain: ProgramChain, rawFps: int)
    requires rawFps >= 0
    requires forall k :: 0 <= k < |chain.playbackTimes| ==>
      var pt := chain.playbackTimes[k];
      pt.hours >= 0 && pt.minutes >= 0 && pt.seconds >= 0 && pt.frames >= 0
    ensures NonDecreasing(TitleBoundaries(chain, rawFps))
  {
    var lengths := ChapterLengths(chain.playbackTimes, rawFps);
    forall k | 0 <= k < |lengths| ensures lengths[k] >= 0 {
      var pt := chain.playbackTimes[k];
      assert (pt.hours * 3600 + pt.minutes * 60 + pt.seconds) * rawFps >= 0;
    }
    AccumulateNonDecreasing(lengths);
  }

  /** A title's last boundary is its total length in frames. */
  lemma TitleEndIsTotal(chain: ProgramChain, rawFps: int)
    ensures Last(TitleBoundaries(chain, rawFps)) == Sum(ChapterLengths(chain.playbackTimes, rawFps))
  {
    AccumulateEndsAtSum(ChapterLengths(chain.playbackTimes, rawFps));
  }

  /** A chain that mixes two frame-rate codes is refused as variable frame rate. */
  lemma MixedCodesRefused(chain: ProgramChain, table: FrameRateTable, i: nat, j: nat)
    requires i < |chain.playbackTimes| && j < |chain.playbackTimes|
    requires chain.playbackTimes[i].fps != chain.playbackTimes[j].fps
    ensures ChainFps(chain, table) == Failure(VariableFrameRate)
  {
    var pts := chain.playbackTimes;
    if pts[i].fps == pts[0].fps {
      assert pts[j].fps != pts[0].fps;
    } else {
      assert pts[i].fps != pts[0].fps;
    }
  }

  /** With one IFO file every one of its chains is a title. */
  lemma OneIfoKeepsEveryChain(ifos: seq<Pgci>)
    requires |ifos| == 1
    ensures ProgramChains(ifos) == ifos[0].programChains
  {
    assert MenuChains(ifos) == 0;
    assert ifos[..|ifos| - 1] == [];
    assert Gather(ifos[..|ifos| - 1], 0) == [];
    assert Drop(Last(ifos).programChains, 0) == ifos[0].programChains;
  }

  /** The chains taken from the first `i` IFOs. */
  function ChainsBefore(ifos: seq<Pgci>, skip: nat, i: nat): seq<ProgramChain>
    requires i <= |ifos|
  {
    Gather(ifos[..i], skip)
  }

  /** Every chain but the first `skip` of each IFO is kept, in IFO order and in
      chain order; nothing else is in the list. */
  lemma {:induction false} GatherPosition(ifos: seq<Pgci>, skip: nat, i: nat, p: nat)
    requires i < |ifos| && skip <= p < |ifos[i].programChains|
    ensures |ChainsBefore(ifos, skip, i)| + p - skip < |Gather(ifos, skip)|
    ensures Gather(ifos, skip)[|ChainsBefore(ifos, skip, i)| + p - skip] == ifos[i].programChains[p]
  {
    var n := |ifos|;
    var init := ifos[..n - 1];
    var tail := Drop(Last(ifos).programChains, skip);
    assert Gather(ifos, skip) == Gather(init, skip) + tail;
    if i == n - 1 {
      assert ifos[..i] == init;
      assert tail[p - skip] == ifos[i].programChains[p];
    } else {
      assert init[..i] == ifos[..i];
      GatherPosition(init, skip, i, p);
    }
  }

  /** With several IFO files, the chains are those of every IFO but its first. */
  lemma SeveralIfosDropFirstChain(ifos: seq<Pgci>, i: nat, p: nat)
    requires |ifos| > 1
    requires i < |ifos| && 1 <= p < |ifos[i].programChains|
    ensures |ChainsBefore(ifos, 1, i)| + p - 1 < |ProgramChains(ifos)|
    ensures ProgramChains(ifos)[|ChainsBefore(ifos, 1, i)| + p - 1] == ifos[i].programChains[p]
  {
    GatherPosition(ifos, 1, i, p);
  }

  /** How many chains survive: each IFO contributes all its chains but the first `skip`. */
  lemma {:induction false} GatherLength(ifos: seq<Pgci>, skip: nat)
    ensures |Gather(ifos, skip)| ==
      Sum(seq(|ifos|, i requires 0 <= i < |ifos| =>
        if skip <= |ifos[i].programChains| then |ifos[i].programChains| - skip else 0))
  {
    if ifos != [] {
      var n := |ifos|;
      GatherLength(ifos[..n - 1], skip);
      var counts := seq(n, i requires 0 <= i < n =>
        if skip <= |ifos[i].programChains| then |ifos[i].programChains| - skip else 0);
      var front := seq(n - 1, i requires 0 <= i < n - 1 =>
        if skip <= |ifos[..n - 1][i].programChains| then |ifos[..n - 1][i].programChains| - skip else 0);
      assert counts[..n - 1] == front;
    }
  }
}
