/**
 * Floor-area figures of the massing model and the Z-overlap rule that lets a
 * core (void) volume cut into a main volume.
 *
 * A core cuts a main volume when their vertical extents overlap by a
 * positive height. The gross floor area (GFA) of a main volume is its
 * footprint area times its height, less core area times overlap for every
 * cutting core; its per-level area loses the whole core footprint. Both are
 * clamped at zero. Two copies of the figures exist: the viewer's, over the
 * main volumes and the visible cores only, and the application's (the one
 * displayed), over every volume and every core. The renderer uses the same
 * overlap rule to carve each cutting core, clipped to the overlap, out of
 * the main volume's solid.
 */
module Metrics {
  import opened Wrappers
  import opened Volumes
  import opened Polygon

  /** `min(mainTop, coreTop) - max(mainBase, coreBase)`, with the `|| 1` and `|| 0` defaults. */
  function ZOverlap(main: Space, core: Space): (h: real)
    ensures h <= EffHeight(main) && h <= EffHeight(core)
  {
    Min(EffTop(main), EffTop(core)) - Max(EffBase(main), EffBase(core))
  }

  /** A core cuts the main volume exactly when both strictly overlap the other's vertical extent. */
  lemma OverlapPositiveIff(main: Space, core: Space)
    ensures ZOverlap(main, core) > 0.0 <==>
      EffBase(main) < EffTop(core) && EffBase(core) < EffTop(main) &&
      EffBase(main) < EffTop(main) && EffBase(core) < EffTop(core)
  {
  }

  /** A positive overlap is no larger than either height, and the same from both sides. */
  lemma OverlapBounds(main: Space, core: Space)
    ensures ZOverlap(main, core) == ZOverlap(core, main)
    ensures ZOverlap(main, core) > 0.0 ==> ZOverlap(main, core) <= EffHeight(main) && ZOverlap(main, core) <= EffHeight(core)
  {
  }

  /** The volume one core removes from the main volume's GFA. */
  function GfaCut(main: Space, core: Space): real {
    if ZOverlap(main, core) > 0.0 then Area(core.boundary) * ZOverlap(main, core) else 0.0
  }

  /** The footprint one core removes from the main volume's per-level area. */
  function AreaCut(main: Space, core: Space): real {
    if ZOverlap(main, core) > 0.0 then Area(core.boundary) else 0.0
  }

  /** The GFA removed by a list of cores, in list order. */
  function GfaDeduction(main: Space, cores: seq<Space>): (d: real)
    ensures d >= 0.0
  {
    if cores == [] then 0.0
    else GfaDeduction(main, cores[..|cores| - 1]) + GfaCut(main, cores[|cores| - 1])
  }

  /** The per-level area removed by a list of cores. */
  function AreaDeduction(main: Space, cores: seq<Space>): (d: real)
    ensures d >= 0.0
  {
    if cores == [] then 0.0
    else AreaDeduction(main, cores[..|cores| - 1]) + AreaCut(main, cores[|cores| - 1])
  }

  /** `area * (space.height || 1)`. */
  function GrossGfa(space: Space): real { Area(space.boundary) * EffHeight(space) }

  /** The clamped GFA of a volume once the given cores are subtracted. */
  function NetGfa(space: Space, cores: seq<Space>): (g: real)
    ensures g >= 0.0
  {
    Max(0.0, GrossGfa(space) - GfaDeduction(space, cores))
  }

  /** The clamped per-level area of a volume once the given cores are subtracted. */
  function NetArea(space: Space, cores: seq<Space>): (a: real)
    ensures a >= 0.0
  {
    Max(0.0, Area(space.boundary) - AreaDeduction(space, cores))
  }

  /** One more core extends both deductions by its own cut. */
  lemma DeductionStep(space: Space, cores: seq<Space>, i: int)
    requires 0 <= i < |cores|
    ensures GfaDeduction(space, cores[..i + 1]) == GfaDeduction(space, cores[..i]) + GfaCut(space, cores[i])
    ensures AreaDeduction(space, cores[..i + 1]) == AreaDeduction(space, cores[..i]) + AreaCut(space, cores[i])
  {
    assert cores[..i + 1][..i] == cores[..i];
  }

  /** The cut of one core, in terms of its area and its overlap. */
  lemma CutValue(space: Space, core: Space, a: real, h: real)
    requires a == Area(core.boundary) && h == ZOverlap(space, core)
    ensures GfaCut(space, core) == (if h > 0.0 then a * h else 0.0)
    ensures AreaCut(space, core) == (if h > 0.0 then a else 0.0)
  {
  }

  /**
   * The shared body of both metric copies: shoelace area, `gfa = area * height`,
   * then one pass over the cores subtracting every one with positive overlap,
   * then the clamp at zero.
   */
  method VolumeFigures(space: Space, cores: seq<Space>) returns (gfa: real, area: real)
    ensures gfa == NetGfa(space, cores)
    ensures area == NetArea(space, cores)
  {
    var a := ShoelaceArea(space.boundary);
    area := a;
    gfa := a * EffHeight(space);
    var i := 0;
    while i < |cores|
      invariant 0 <= i <= |cores|
      invariant gfa == GrossGfa(space) - GfaDeduction(space, cores[..i])
      invariant area == Area(space.boundary) - AreaDeduction(space, cores[..i])
    {
      var core := cores[i];
      var mainBase := EffBase(space);
      var mainTop := mainBase + EffHeight(space);
      var coreBase := EffBase(core);
      var coreTop := coreBase + EffHeight(core);
      var overlapStart := Max(mainBase, coreBase);
      var overlapEnd := Min(mainTop, coreTop);
      var overlapHeight := overlapEnd - overlapStart;
      assert overlapHeight == ZOverlap(space, core);
      DeductionStep(space, cores, i);
      if overlapHeight > 0.0 {
        var coreArea := ShoelaceArea(core.boundary);
        CutValue(space, core, coreArea, overlapHeight);
        gfa := gfa - coreArea * overlapHeight;
        area := area - coreArea;
      } else {
        CutValue(space, core, Area(core.boundary), overlapHeight);
      }
      i := i + 1;
    }
    assert cores[..|cores|] == cores;
    gfa := Max(0.0, gfa);
    area := Max(0.0, area);
  }

  /** Cores that do not overlap a volume leave its figures untouched (only the clamp applies). */
  lemma {:induction false} NoOverlapNoDeduction(space: Space, cores: seq<Space>)
    requires forall i :: 0 <= i < |cores| ==> ZOverlap(space, cores[i]) <= 0.0
    ensures GfaDeduction(space, cores) == 0.0 && AreaDeduction(space, cores) == 0.0
    ensures NetGfa(space, cores) == Max(0.0, GrossGfa(space))
    ensures NetArea(space, cores) == Area(space.boundary)
  {
    if cores != [] {
      NoOverlapNoDeduction(space, cores[..|cores| - 1]);
    }
  }

  /** Subtracting cores never raises the figures above the uncut ones. */
  lemma NetBelowGross(space: Space, cores: seq<Space>)
    ensures NetGfa(space, cores) <= Max(0.0, GrossGfa(space))
    ensures NetArea(space, cores) <= Area(space.boundary)
  {
  }

  /**
   * The worked example: a 100 m2 main volume 5 high on the ground and a
   * 10 m2 core 10 high from 2 overlap by 3, so GFA = 500 - 30 = 470 and the
   * per-level area is 100 - 10 = 90; raised to base 10 (height 2) the core no
   * longer overlaps and GFA stays 500.
   */
  lemma SingleCoreExample(main: Space, core: Space)
    requires Area(main.boundary) == 100.0 && main.height == Val(5.0) && main.baseZ == Some(0.0)
    requires Area(core.boundary) == 10.0 && core.height == Val(10.0)
    ensures core.baseZ == Some(2.0) ==> NetGfa(main, [core]) == 470.0 && NetArea(main, [core]) == 90.0
    ensures core.baseZ == Some(10.0) ==> NetGfa(main, [core]) == 500.0 && NetArea(main, [core]) == 100.0
  {
    assert [core][..0] == [];
    assert GfaDeduction(main, [core]) == GfaCut(main, core);
    assert AreaDeduction(main, [core]) == AreaCut(main, core);
    assert GrossGfa(main) == 500.0;
    if core.baseZ == Some(2.0) {
      assert ZOverlap(main, core) == 3.0;
      assert GfaCut(main, core) == 30.0;
    }
    if core.baseZ == Some(10.0) {
      assert ZOverlap(main, core) == -5.0;
    }
  }

  /** `coreVisibility[idx] === false`: only an explicit false hides a core. */
  predicate Hidden(visibility: map<int, bool>, idx: int) {
    idx in visibility && !visibility[idx]
  }

  /** `spaces.filter((space, idx) => space.isCore && coreVisibility[idx] !== false)` over the first k spaces. */
  function VisibleCoresUpTo(spaces: seq<Space>, visibility: map<int, bool>, k: nat): (r: seq<Space>)
    requires k <= |spaces|
    ensures forall i :: 0 <= i < |r| ==> r[i].isCore
  {
    if k == 0 then []
    else
      var keep := spaces[k - 1].isCore && !Hidden(visibility, k - 1);
      VisibleCoresUpTo(spaces, visibility, k - 1) + (if keep then [spaces[k - 1]] else [])
  }

  function VisibleCores(spaces: seq<Space>, visibility: map<int, bool>): seq<Space> {
    VisibleCoresUpTo(spaces, visibility, |spaces|)
  }

  /** With no core hidden, the visible cores are all the cores. */
  lemma {:induction false} AllCoresVisible(spaces: seq<Space>, visibility: map<int, bool>, k: nat)
    requires k <= |spaces|
    requires forall i :: 0 <= i < |spaces| ==> !Hidden(visibility, i)
    ensures VisibleCoresUpTo(spaces, visibility, k) == Cores(spaces[..k])
  {
    if k > 0 {
      AllCoresVisible(spaces, visibility, k - 1);
      assert spaces[..k][..k - 1] == spaces[..k - 1];
    }
  }

  /** With every core hidden, no core is visible. */
  lemma {:induction false} NoCoreVisible(spaces: seq<Space>, visibility: map<int, bool>, k: nat)
    requires k <= |spaces|
    requires forall i :: 0 <= i < |spaces| && spaces[i].isCore ==> Hidden(visibility, i)
    ensures VisibleCoresUpTo(spaces, visibility, k) == []
  {
    if k > 0 {
      NoCoreVisible(spaces, visibility, k - 1);
    }
  }

  /** The indices below k, in the whole list, of the cores `coreVisibility` does not hide, ascending. */
  function VisibleCoreIndices(spaces: seq<Space>, visibility: map<int, bool>, k: nat): (r: seq<nat>)
    requires k <= |spaces|
    ensures forall p, q :: 0 <= p < q < |r| ==> r[p] < r[q]
    ensures forall p :: 0 <= p < |r| ==> r[p] < k
  {
    if k == 0 then []
    else VisibleCoreIndices(spaces, visibility, k - 1) + (if spaces[k - 1].isCore && !Hidden(visibility, k - 1) then [k - 1] else [])
  }

  /** An index below k is listed exactly when it holds a core that is not hidden. */
  lemma {:induction false} VisibleCoreIndicesExact(spaces: seq<Space>, visibility: map<int, bool>, k: nat)
    requires k <= |spaces|
    ensures forall i :: 0 <= i < k ==> (i in VisibleCoreIndices(spaces, visibility, k) <==> spaces[i].isCore && !Hidden(visibility, i))
  {
    if k > 0 {
      VisibleCoreIndicesExact(spaces, visibility, k - 1);
      var js, js' := VisibleCoreIndices(spaces, visibility, k), VisibleCoreIndices(spaces, visibility, k - 1);
      var keep := spaces[k - 1].isCore && !Hidden(visibility, k - 1);
      assert js == js' + (if keep then [k - 1] else []);
      assert forall i :: i in js <==> i in js' || (keep && i == k - 1);
    }
  }

  /**
   * The filter keeps exactly the spaces at those indices, in order: a space at
   * index i of the list counts as a core exactly when it is a core and
   * `coreVisibility[i] !== false`.
   */
  lemma {:induction false} VisibleCoresAtIndices(spaces: seq<Space>, visibility: map<int, bool>, k: nat)
    requires k <= |spaces|
    ensures var r := VisibleCoresUpTo(spaces, visibility, k);
      var js := VisibleCoreIndices(spaces, visibility, k);
      |r| == |js| && forall p :: 0 <= p < |r| ==> r[p] == spaces[js[p]]
  {
    if k > 0 {
      VisibleCoresAtIndices(spaces, visibility, k - 1);
      var r, r' := VisibleCoresUpTo(spaces, visibility, k), VisibleCoresUpTo(spaces, visibility, k - 1);
      var js, js' := VisibleCoreIndices(spaces, visibility, k), VisibleCoreIndices(spaces, visibility, k - 1);
      var keep := spaces[k - 1].isCore && !Hidden(visibility, k - 1);
      assert r == r' + (if keep then [spaces[k - 1]] else []);
      assert js == js' + (if keep then [k - 1] else []);
      forall p | 0 <= p < |r|
        ensures r[p] == spaces[js[p]]
      {
        if p < |r'| {
          assert r[p] == r'[p] && js[p] == js'[p];
        }
      }
    }
  }

  /** One `perVolume` entry of the viewer copy; `idx` is the position among the main volumes. */
  datatype ViewEntry = ViewEntry(idx: nat, gfa: real, area: real, height: real)

  datatype ViewMetrics = ViewMetrics(totalGFA: real, totalLevels: nat, perVolume: seq<ViewEntry>)

  function SumViewGfa(entries: seq<ViewEntry>): real {
    if entries == [] then 0.0 else SumViewGfa(entries[..|entries| - 1]) + entries[|entries| - 1].gfa
  }

  function ViewEntries(mains: seq<Space>, cores: seq<Space>): seq<ViewEntry> {
    seq(|mains|, p requires 0 <= p < |mains| => ViewEntry(p, NetGfa(mains[p], cores), NetArea(mains[p], cores), EffHeight(mains[p])))
  }

  /** The viewer's `metrics` memo. */
  function ViewMetricsOf(spaces: seq<Space>, visibility: map<int, bool>): ViewMetrics {
    var entries := ViewEntries(Mains(spaces), VisibleCores(spaces, visibility));
    ViewMetrics(SumViewGfa(entries), |Mains(spaces)|, entries)
  }

  /** The viewer's memo as written: one loop over the main volumes accumulating `totalGFA`. */
  method ComputeViewMetrics(spaces: seq<Space>, visibility: map<int, bool>) returns (m: ViewMetrics)
    ensures m == ViewMetricsOf(spaces, visibility)
  {
    var mainVolumes := Mains(spaces);
    var coreVolumes := VisibleCores(spaces, visibility);
    var totalGFA := 0.0;
    var perVolume: seq<ViewEntry> := [];
    var idx := 0;
    while idx < |mainVolumes|
      invariant 0 <= idx <= |mainVolumes|
      invariant perVolume == ViewEntries(mainVolumes, coreVolumes)[..idx]
      invariant totalGFA == SumViewGfa(perVolume)
    {
      var space := mainVolumes[idx];
      var gfa, area := VolumeFigures(space, coreVolumes);
      totalGFA := totalGFA + gfa;
      var entry := ViewEntry(idx, gfa, area, EffHeight(space));
      assert (perVolume + [entry])[..idx] == perVolume;
      perVolume := perVolume + [entry];
      idx := idx + 1;
    }
    assert perVolume == ViewEntries(mainVolumes, coreVolumes);
    m := ViewMetrics(totalGFA, |mainVolumes|, perVolume);
  }

  /** One `perVolume` entry of the application copy; `idx` is the position in the whole list. */
  datatype AppEntry = AppEntry(idx: nat, gfa: real, area: real, height: real, name: string, isCore: bool)

  datatype AppMetrics = AppMetrics(totalGFA: real, totalLevels: nat, totalHeight: real, totalBuiltUp: real, perVolume: seq<AppEntry>)

  /** A core's entry is computed with no core subtracted; a main volume's with every core. */
  function AppEntryOf(space: Space, idx: nat, cores: seq<Space>): AppEntry {
    var deducted := if space.isCore then [] else cores;
    AppEntry(idx, NetGfa(space, deducted), NetArea(space, deducted), EffHeight(space), space.name, space.isCore)
  }

  function AppEntries(spaces: seq<Space>, cores: seq<Space>): seq<AppEntry> {
    seq(|spaces|, i requires 0 <= i < |spaces| => AppEntryOf(spaces[i], i, cores))
  }

  /** `totalGFA += !space.isCore ? gfa : 0` over the entries. */
  function NonCoreGfa(entries: seq<AppEntry>): real {
    if entries == [] then 0.0
    else NonCoreGfa(entries[..|entries| - 1]) + (if entries[|entries| - 1].isCore then 0.0 else entries[|entries| - 1].gfa)
  }

  function NonCoreHeight(entries: seq<AppEntry>): real {
    if entries == [] then 0.0
    else NonCoreHeight(entries[..|entries| - 1]) + (if entries[|entries| - 1].isCore then 0.0 else entries[|entries| - 1].height)
  }

  function NonCoreArea(entries: seq<AppEntry>): real {
    if entries == [] then 0.0
    else NonCoreArea(entries[..|entries| - 1]) + (if entries[|entries| - 1].isCore then 0.0 else entries[|entries| - 1].area)
  }

  /** The application's `metrics` memo (the displayed figures). */
  function AppMetricsOf(spaces: seq<Space>): AppMetrics {
    var entries := AppEntries(spaces, Cores(spaces));
    AppMetrics(NonCoreGfa(entries), |Mains(spaces)|, NonCoreHeight(entries), NonCoreArea(entries), entries)
  }

  /** The application's memo as written: one loop over all volumes with three running totals. */
  method ComputeAppMetrics(spaces: seq<Space>) returns (m: AppMetrics)
    ensures m == AppMetricsOf(spaces)
  {
    var coreVolumes := Cores(spaces);
    var totalGFA, totalHeight, totalBuiltUp := 0.0, 0.0, 0.0;
    var perVolume: seq<AppEntry> := [];
    var idx := 0;
    while idx < |spaces|
      invariant 0 <= idx <= |spaces|
      invariant perVolume == AppEntries(spaces, coreVolumes)[..idx]
      invariant totalGFA == NonCoreGfa(perVolume)
      invariant totalHeight == NonCoreHeight(perVolume)
      invariant totalBuiltUp == NonCoreArea(perVolume)
    {
      var space := spaces[idx];
      var gfa, area;
      if !space.isCore {
        gfa, area := VolumeFigures(space, coreVolumes);
      } else {
        gfa, area := VolumeFigures(space, []);
      }
      totalGFA := totalGFA + (if !space.isCore then gfa else 0.0);
      totalHeight := totalHeight + (if !space.isCore then EffHeight(space) else 0.0);
      totalBuiltUp := totalBuiltUp + (if !space.isCore then area else 0.0);
      var entry := AppEntry(idx, gfa, area, EffHeight(space), space.name, space.isCore);
      assert (perVolume + [entry])[..idx] == perVolume;
      perVolume := perVolume + [entry];
      idx := idx + 1;
    }
    assert perVolume == AppEntries(spaces, coreVolumes);
    m := AppMetrics(totalGFA, |Mains(spaces)|, totalHeight, totalBuiltUp, perVolume);
  }

  /** A core's entry carries its own gross figures: no core is subtracted from a core. */
  lemma CoreEntryUndeducted(space: Space, idx: nat, cores: seq<Space>)
    requires space.isCore
    ensures AppEntryOf(space, idx, cores).gfa == Max(0.0, GrossGfa(space))
    ensures AppEntryOf(space, idx, cores).area == Area(space.boundary)
  {
  }

  /** The GFA of the given volumes' entries, summed over the main volumes among them. */
  function SumNetGfa(mains: seq<Space>, cores: seq<Space>): real {
    if mains == [] then 0.0 else SumNetGfa(mains[..|mains| - 1], cores) + NetGfa(mains[|mains| - 1], cores)
  }

  lemma SumNetGfaSnoc(mains: seq<Space>, s: Space, cores: seq<Space>)
    ensures SumNetGfa(mains + [s], cores) == SumNetGfa(mains, cores) + NetGfa(s, cores)
  {
    assert (mains + [s])[..|mains|] == mains;
  }

  lemma NonCoreGfaStep(entries: seq<AppEntry>, k: nat)
    requires 0 < k <= |entries|
    ensures NonCoreGfa(entries[..k]) == NonCoreGfa(entries[..k - 1]) + (if entries[k - 1].isCore then 0.0 else entries[k - 1].gfa)
  {
    assert entries[..k][..k - 1] == entries[..k - 1];
  }

  lemma MainsStep(spaces: seq<Space>, k: nat)
    requires 0 < k <= |spaces|
    ensures Mains(spaces[..k]) == Mains(spaces[..k - 1]) + (if spaces[k - 1].isCore then [] else [spaces[k - 1]])
  {
    assert spaces[..k][..k - 1] == spaces[..k - 1];
  }

  /** What space k - 1 adds to the main-volume GFA sum. */
  function AddedGfa(s: Space, cores: seq<Space>): real {
    if s.isCore then 0.0 else NetGfa(s, cores)
  }

  lemma EntriesStep(spaces: seq<Space>, cores: seq<Space>, k: nat)
    requires 0 < k <= |spaces|
    ensures NonCoreGfa(AppEntries(spaces, cores)[..k]) == NonCoreGfa(AppEntries(spaces, cores)[..k - 1]) + AddedGfa(spaces[k - 1], cores)
  {
    var es := AppEntries(spaces, cores);
    NonCoreGfaStep(es, k);
    assert es[k - 1] == AppEntryOf(spaces[k - 1], k - 1, cores);
  }

  lemma MainsSumStep(spaces: seq<Space>, cores: seq<Space>, k: nat)
    requires 0 < k <= |spaces|
    ensures SumNetGfa(Mains(spaces[..k]), cores) == SumNetGfa(Mains(spaces[..k - 1]), cores) + AddedGfa(spaces[k - 1], cores)
  {
    MainsStep(spaces, k);
    if !spaces[k - 1].isCore {
      SumNetGfaSnoc(Mains(spaces[..k - 1]), spaces[k - 1], cores);
    } else {
      assert Mains(spaces[..k - 1]) + [] == Mains(spaces[..k - 1]);
    }
  }

  /** The application's total GFA sums exactly the main volumes' net GFA. */
  lemma {:induction false} AppTotalOverMains(spaces: seq<Space>, cores: seq<Space>, k: nat)
    requires k <= |spaces|
    ensures NonCoreGfa(AppEntries(spaces, cores)[..k]) == SumNetGfa(Mains(spaces[..k]), cores)
  {
    if k > 0 {
      var es := AppEntries(spaces, cores);
      var added := AddedGfa(spaces[k - 1], cores);
      AppTotalOverMains(spaces, cores, k - 1);
      var before := NonCoreGfa(es[..k - 1]);
      assert before == SumNetGfa(Mains(spaces[..k - 1]), cores);
      EntriesStep(spaces, cores, k);
      assert NonCoreGfa(es[..k]) == before + added;
      MainsSumStep(spaces, cores, k);
      assert SumNetGfa(Mains(spaces[..k]), cores) == before + added;
    }
  }

  /** The viewer's total GFA sums the main volumes' net GFA. */
  lemma {:induction false} ViewTotalOverMains(mains: seq<Space>, cores: seq<Space>, k: nat)
    requires k <= |mains|
    ensures SumViewGfa(ViewEntries(mains, cores)[..k]) == SumNetGfa(mains[..k], cores)
  {
    if k > 0 {
      ViewTotalOverMains(mains, cores, k - 1);
      var es := ViewEntries(mains, cores);
      assert es[..k][..k - 1] == es[..k - 1];
      assert mains[..k][..k - 1] == mains[..k - 1];
    }
  }

  /** The global index of every main volume, in order. */
  function MainIndices(spaces: seq<Space>): (r: seq<nat>)
    ensures |r| == |Mains(spaces)|
    ensures forall p :: 0 <= p < |r| ==> r[p] < |spaces| && spaces[r[p]] == Mains(spaces)[p]
  {
    if spaces == [] then []
    else
      var init := spaces[..|spaces| - 1];
      var last := spaces[|spaces| - 1];
      var prev := MainIndices(init);
      assert forall p :: 0 <= p < |prev| ==> spaces[prev[p]] == init[prev[p]];
      assert Mains(spaces) == Mains(init) + (if last.isCore then [] else [last]);
      prev + (if last.isCore then [] else [|spaces| - 1])
  }

  /**
   * With no core hidden the two copies agree: the same total GFA and level
   * count, and the p-th viewer entry has the figures of the application's
   * entry for the p-th main volume.
   */
  lemma ViewAgreesWithApp(spaces: seq<Space>, visibility: map<int, bool>)
    requires forall i :: 0 <= i < |spaces| ==> !Hidden(visibility, i)
    ensures ViewMetricsOf(spaces, visibility).totalGFA == AppMetricsOf(spaces).totalGFA
    ensures ViewMetricsOf(spaces, visibility).totalLevels == AppMetricsOf(spaces).totalLevels
    ensures forall p :: 0 <= p < |Mains(spaces)| ==>
      var v := ViewMetricsOf(spaces, visibility).perVolume[p];
      var a := AppMetricsOf(spaces).perVolume[MainIndices(spaces)[p]];
      v.gfa == a.gfa && v.area == a.area && v.height == a.height
  {
    AllCoresVisible(spaces, visibility, |spaces|);
    assert spaces[..|spaces|] == spaces;
    var mains := Mains(spaces);
    AppTotalOverMains(spaces, Cores(spaces), |spaces|);
    ViewTotalOverMains(mains, Cores(spaces), |mains|);
    assert AppEntries(spaces, Cores(spaces))[..|spaces|] == AppEntries(spaces, Cores(spaces));
    assert ViewEntries(mains, Cores(spaces))[..|mains|] == ViewEntries(mains, Cores(spaces));
    assert mains[..|mains|] == mains;
    forall p | 0 <= p < |Mains(spaces)|
      ensures var v := ViewMetricsOf(spaces, visibility).perVolume[p];
        var a := AppMetricsOf(spaces).perVolume[MainIndices(spaces)[p]];
        v.gfa == a.gfa && v.area == a.area && v.height == a.height
    {
      ViewEntryAgrees(spaces, visibility, p);
    }
  }

  /** The p-th viewer entry against the application's entry for the same volume. */
  lemma ViewEntryAgrees(spaces: seq<Space>, visibility: map<int, bool>, p: int)
    requires forall i :: 0 <= i < |spaces| ==> !Hidden(visibility, i)
    requires 0 <= p < |Mains(spaces)|
    ensures var v := ViewMetricsOf(spaces, visibility).perVolume[p];
      var a := AppMetricsOf(spaces).perVolume[MainIndices(spaces)[p]];
      v.gfa == a.gfa && v.area == a.area && v.height == a.height
  {
    AllCoresVisible(spaces, visibility, |spaces|);
    assert spaces[..|spaces|] == spaces;
    var k := MainIndices(spaces)[p];
    assert spaces[k] == Mains(spaces)[p];
    assert !spaces[k].isCore;
  }

  /** With every core hidden the viewer subtracts nothing. */
  lemma HiddenCoresIgnored(spaces: seq<Space>, visibility: map<int, bool>, p: nat)
    requires forall i :: 0 <= i < |spaces| && spaces[i].isCore ==> Hidden(visibility, i)
    requires p < |Mains(spaces)|
    ensures ViewMetricsOf(spaces, visibility).perVolume[p].gfa == Max(0.0, GrossGfa(Mains(spaces)[p]))
    ensures ViewMetricsOf(spaces, visibility).perVolume[p].area == Area(Mains(spaces)[p].boundary)
  {
    NoCoreVisible(spaces, visibility, |spaces|);
  }

  /** An extrusion: a closed profile, the height of its base and its depth (the volume's raw height for the main solid). */
  datatype Extrusion = Extrusion(profile: seq<Point>, z: real, depth: Height)

  /**
   * `subtractCoresFromVolume`: the main solid sits at `baseZ || 0` with the raw
   * `height` as depth; every core with positive overlap is cut out as a slab
   * of depth `overlapHeight` starting at `overlapStart`.
   */
  function CutFor(main: Space, core: Space): Option<Extrusion> {
    if ZOverlap(main, core) > 0.0
    then Some(Extrusion(core.boundary, Max(EffBase(main), EffBase(core)), Val(ZOverlap(main, core))))
    else None
  }

  function Cuts(main: Space, cores: seq<Space>): seq<Extrusion> {
    if cores == [] then []
    else
      var c := CutFor(main, cores[|cores| - 1]);
      Cuts(main, cores[..|cores| - 1]) + (if c.Some? then [c.value] else [])
  }

  datatype Composite = Composite(solid: Extrusion, voids: seq<Extrusion>)

  function CompositeOf(main: Space, cores: seq<Space>): Composite {
    Composite(Extrusion(main.boundary, EffBase(main), main.height), Cuts(main, cores))
  }

  /** Each slab has positive depth and lies within the vertical extents of both volumes. */
  lemma CutWithinBoth(main: Space, core: Space)
    requires CutFor(main, core).Some?
    ensures var s := CutFor(main, core).value;
      s.profile == core.boundary && s.depth.Val? && s.depth.value > 0.0 &&
      EffBase(main) <= s.z && s.z + s.depth.value <= EffTop(main) &&
      EffBase(core) <= s.z && s.z + s.depth.value <= EffTop(core)
  {
  }

  /** The volume of one slab: its profile's area times its depth. */
  function SlabOf(e: Extrusion): real { Area(e.profile) * (if e.depth.Val? then e.depth.value else 0.0) }

  function SlabVolume(slabs: seq<Extrusion>): real {
    if slabs == [] then 0.0 else SlabVolume(slabs[..|slabs| - 1]) + SlabOf(slabs[|slabs| - 1])
  }

  lemma SlabVolumeSnoc(slabs: seq<Extrusion>, e: Extrusion)
    ensures SlabVolume(slabs + [e]) == SlabVolume(slabs) + SlabOf(e)
  {
    assert (slabs + [e])[..|slabs + [e]| - 1] == slabs;
  }

  /** The slab one core contributes carries exactly its GFA cut. */
  lemma CutForVolume(main: Space, core: Space)
    requires CutFor(main, core).Some?
    ensures SlabOf(CutFor(main, core).value) == GfaCut(main, core)
  {
  }

  /** One more core adds its own cut to the carved volume. */
  lemma CutsStep(main: Space, cores: seq<Space>)
    requires cores != []
    ensures SlabVolume(Cuts(main, cores)) == SlabVolume(Cuts(main, cores[..|cores| - 1])) + GfaCut(main, cores[|cores| - 1])
  {
    if CutFor(main, cores[|cores| - 1]).Some? {
      OverlappingCutStep(main, cores);
    } else {
      assert Cuts(main, cores) == Cuts(main, cores[..|cores| - 1]) + [];
      assert Cuts(main, cores) == Cuts(main, cores[..|cores| - 1]);
    }
  }

  lemma OverlappingCutStep(main: Space, cores: seq<Space>)
    requires cores != [] && CutFor(main, cores[|cores| - 1]).Some?
    ensures SlabVolume(Cuts(main, cores)) == SlabVolume(Cuts(main, cores[..|cores| - 1])) + GfaCut(main, cores[|cores| - 1])
  {
    var last := cores[|cores| - 1];
    var cs := Cuts(main, cores[..|cores| - 1]);
    var c := CutFor(main, last).value;
    CutsUnfold(main, cores);
    SlabVolumeSnoc(cs, c);
    CutForVolume(main, last);
  }

  lemma CutsUnfold(main: Space, cores: seq<Space>)
    requires cores != [] && CutFor(main, cores[|cores| - 1]).Some?
    ensures Cuts(main, cores) == Cuts(main, cores[..|cores| - 1]) + [CutFor(main, cores[|cores| - 1]).value]
  {
  }

  /** The volume the renderer carves out is the GFA the metrics subtract. */
  lemma {:induction false} CarvedVolumeIsDeduction(main: Space, cores: seq<Space>)
    ensures SlabVolume(CompositeOf(main, cores).voids) == GfaDeduction(main, cores)
  {
    if cores != [] {
      CarvedVolumeIsDeduction(main, cores[..|cores| - 1]);
      CutsStep(main, cores);
    }
  }
}
