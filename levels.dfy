/**
 * Splitting a main volume into stacked levels.
 *
 * `handleSplitAllLevels` walks z = 0, interval, 2 * interval, ... while
 * z < height and emits one slice per step: same boundary, base
 * `baseZ + z`, height `min(interval, height - z)` (only the last one may be
 * shorter) and the name suffixed ` (L<k + 1>)`. The slices replace the
 * selected volume in place in the list; everything before and after it,
 * cores included, is kept.
 */
module Levels {
  import opened Wrappers
  import opened Volumes

  /** The loop variable after k steps: k * interval, accumulated by repeated addition. */
  function Offset(k: nat, interval: real): real {
    if k == 0 then 0.0 else Offset(k - 1, interval) + interval
  }

  lemma {:induction false} OffsetIsProduct(k: nat, interval: real)
    ensures Offset(k, interval) == (k as real) * interval
  {
    if k > 0 {
      OffsetIsProduct(k - 1, interval);
    }
  }

  function Ceil(x: real): (c: int)
    ensures c as real >= x && (c - 1) as real < x
  {
    -((-x).Floor)
  }

  /** The number of steps the loop takes: ceil(height / interval), none for a non-positive height. */
  function SliceCount(height: real, interval: real): nat
    requires interval > 0.0
  {
    if height <= 0.0 then 0 else Ceil(height / interval)
  }

  lemma CeilCompare(q: real, k: nat)
    ensures k < Ceil(q) <==> (k as real) < q
  {
  }

  /** Multiplying by a positive interval keeps a comparison, in both directions. */
  lemma ScaleCompare(a: real, b: real, c: real)
    requires c > 0.0
    ensures a < b <==> a * c < b * c
  {
    if a < b {
      assert (b - a) * c > 0.0;
    } else {
      assert (a - b) * c >= 0.0;
    }
  }

  lemma DivTimes(h: real, c: real)
    requires c > 0.0
    ensures (h / c) * c == h
  {
  }

  /** For a positive height, step k runs exactly when `k < height / interval`. */
  lemma PositiveSliceCount(height: real, interval: real, k: nat)
    requires interval > 0.0 && height > 0.0
    ensures k < SliceCount(height, interval) <==> (k as real) * interval < height
  {
    var q := height / interval;
    var kr := k as real;
    assert SliceCount(height, interval) == Ceil(q);
    CeilCompare(q, k);
    assert (k < Ceil(q)) == (kr < q);
    ScaleCompare(kr, q, interval);
    assert (kr < q) == (kr * interval < q * interval);
    DivTimes(height, interval);
    assert q * interval == height;
  }

  /** Step k runs exactly when its z is still below the height. */
  lemma SliceCountSpec(height: real, interval: real, k: nat)
    requires interval > 0.0
    ensures k < SliceCount(height, interval) <==> Offset(k, interval) < height
  {
    OffsetIsProduct(k, interval);
    if height > 0.0 {
      PositiveSliceCount(height, interval, k);
    } else {
      ScaleCompare(0.0, k as real, interval);
    }
  }

  /** The loop's level index `Math.floor(z / levelInterval)` is the step number. */
  lemma LevelIndex(k: nat, interval: real)
    requires interval > 0.0
    ensures (Offset(k, interval) / interval).Floor == k
  {
    OffsetIsProduct(k, interval);
    assert (k as real) * interval / interval == k as real;
  }

  function LevelName(name: string, k: nat): string {
    name + " (L" + NatToString(k + 1) + ")"
  }

  /** Slice k of a volume split at the interval. */
  function Slice(name: string, boundary: seq<Point>, height: real, baseZ: real, interval: real, k: nat): Space {
    var z := Offset(k, interval);
    Space(LevelName(name, k), boundary, Val(Min(interval, height - z)), Some(baseZ + z), false, Unspecified)
  }

  /** The first k slices, in order. */
  function SlicesUpTo(name: string, boundary: seq<Point>, height: real, baseZ: real, interval: real, k: nat): (r: seq<Space>)
    ensures |r| == k
    ensures forall j :: 0 <= j < k ==> r[j] == Slice(name, boundary, height, baseZ, interval, j)
  {
    if k == 0 then [] else SlicesUpTo(name, boundary, height, baseZ, interval, k - 1) + [Slice(name, boundary, height, baseZ, interval, k - 1)]
  }

  /** All slices of a volume of the given height and base. */
  function LevelSlices(name: string, boundary: seq<Point>, height: real, baseZ: real, interval: real): seq<Space>
    requires interval > 0.0
  {
    SlicesUpTo(name, boundary, height, baseZ, interval, SliceCount(height, interval))
  }

  /** The `for (z = 0; z < height; z += levelInterval)` loop pushing one slice per step. */
  method BuildSlices(name: string, boundary: seq<Point>, height: real, baseZ: real, interval: real) returns (splits: seq<Space>)
    requires interval > 0.0
    ensures splits == LevelSlices(name, boundary, height, baseZ, interval)
  {
    splits := [];
    var z := 0.0;
    ghost var k: nat := 0;
    while z < height
      invariant z == Offset(k, interval)
      invariant k <= SliceCount(height, interval)
      invariant splits == SlicesUpTo(name, boundary, height, baseZ, interval, k)
      decreases SliceCount(height, interval) - k
    {
      SliceCountSpec(height, interval, k);
      var h := Min(interval, height - z);
      LevelIndex(k, interval);
      var level := (z / interval).Floor;
      splits := splits + [Space(name + " (L" + NatToString(level + 1) + ")", boundary, Val(h), Some(baseZ + z), false, Unspecified)];
      z := z + interval;
      k := k + 1;
    }
    SliceCountSpec(height, interval, k);
  }

  /** Every slice has a height in (0, interval], the same boundary, no core flag and its level name. */
  lemma SliceShape(name: string, boundary: seq<Point>, height: real, baseZ: real, interval: real, k: nat)
    requires interval > 0.0
    requires k < SliceCount(height, interval)
    ensures var s := LevelSlices(name, boundary, height, baseZ, interval)[k];
      s.height.Val? && 0.0 < s.height.value <= interval &&
      s.boundary == boundary && !s.isCore && s.name == LevelName(name, k) &&
      s.baseZ == Some(baseZ + (k as real) * interval)
  {
    SliceCountSpec(height, interval, k);
    OffsetIsProduct(k, interval);
  }

  /** Each slice starts where the previous one ends, and the first at the volume's base. */
  lemma SlicesStack(name: string, boundary: seq<Point>, height: real, baseZ: real, interval: real, k: nat)
    requires interval > 0.0
    requires 0 < k < SliceCount(height, interval)
    ensures var r := LevelSlices(name, boundary, height, baseZ, interval);
      r[0].baseZ == Some(baseZ) &&
      r[k].baseZ.value == r[k - 1].baseZ.value + r[k - 1].height.value
  {
    SliceCountSpec(height, interval, k);
  }

  function ValueOr0(h: Height): real { if h.Val? then h.value else 0.0 }

  function SumHeights(spaces: seq<Space>): real {
    if spaces == [] then 0.0 else SumHeights(spaces[..|spaces| - 1]) + ValueOr0(spaces[|spaces| - 1].height)
  }

  /** The height of slice k. */
  function SliceHeight(height: real, interval: real, k: nat): real {
    Min(interval, height - Offset(k, interval))
  }

  /** The heights of the first k slices, added up. */
  function SliceHeightSum(height: real, interval: real, k: nat): real {
    if k == 0 then 0.0 else SliceHeightSum(height, interval, k - 1) + SliceHeight(height, interval, k - 1)
  }

  lemma {:induction false} SumHeightsOfSlices(name: string, boundary: seq<Point>, height: real, baseZ: real, interval: real, k: nat)
    ensures SumHeights(SlicesUpTo(name, boundary, height, baseZ, interval, k)) == SliceHeightSum(height, interval, k)
  {
    if k > 0 {
      SumHeightsOfSlices(name, boundary, height, baseZ, interval, k - 1);
      var r := SlicesUpTo(name, boundary, height, baseZ, interval, k);
      assert r[..k - 1] == SlicesUpTo(name, boundary, height, baseZ, interval, k - 1);
      assert r[k - 1].height == Val(SliceHeight(height, interval, k - 1));
    }
  }

  /** Before the last step every slice is a full interval high. */
  lemma {:induction false} FullSlicesSum(height: real, interval: real, k: nat)
    requires interval > 0.0
    requires k < SliceCount(height, interval)
    ensures SliceHeightSum(height, interval, k) == Offset(k, interval)
  {
    if k > 0 {
      FullSlicesSum(height, interval, k - 1);
      SliceCountSpec(height, interval, k);
    }
  }

  /** The slice heights add up to the original height (to nothing when the height is not positive). */
  lemma SliceHeightsSum(name: string, boundary: seq<Point>, height: real, baseZ: real, interval: real)
    requires interval > 0.0
    ensures SumHeights(LevelSlices(name, boundary, height, baseZ, interval)) == Max(0.0, height)
  {
    var n := SliceCount(height, interval);
    SumHeightsOfSlices(name, boundary, height, baseZ, interval, n);
    if n > 0 {
      FullSlicesSum(height, interval, n - 1);
      SliceCountSpec(height, interval, n - 1);
      SliceCountSpec(height, interval, n);
      assert SliceHeight(height, interval, n - 1) == height - Offset(n - 1, interval);
    } else {
      SliceCountSpec(height, interval, 0);
    }
  }

  /** A height of 7 split every 3 gives slices 3, 3 and 1 high at offsets 0, 3 and 6. */
  lemma SplitExample(name: string, boundary: seq<Point>)
    ensures var r := LevelSlices(name, boundary, 7.0, 0.0, 3.0);
      |r| == 3 &&
      r[0].height == Val(3.0) && r[1].height == Val(3.0) && r[2].height == Val(1.0) &&
      r[0].baseZ == Some(0.0) && r[1].baseZ == Some(3.0) && r[2].baseZ == Some(6.0)
  {
    SliceCountSpec(7.0, 3.0, 2);
    SliceCountSpec(7.0, 3.0, 3);
  }

  /**
   * The height the split loop compares with: the destructuring default
   * `height = 1` applies only to a missing height, so a zero height stays 0;
   * None for a NaN height, which makes `z < height` false from the start.
   */
  function SplitHeight(h: Height): (r: Option<real>)
    ensures r.None? <==> h.NaN?
    ensures h.Undefined? ==> r == Some(1.0)
    ensures h.Val? ==> r == Some(h.value)
  {
    match h
    case Undefined => Some(1.0)
    case NaN => None
    case Val(v) => Some(v)
  }

  /** The slices the loop pushes for a volume: none at all for a NaN height. */
  function SlicesOf(space: Space, interval: real): seq<Space>
    requires interval > 0.0
  {
    var h := SplitHeight(space.height);
    if h.None? then [] else LevelSlices(space.name, space.boundary, h.value, BaseOrZero(space.baseZ), interval)
  }

  /**
   * `handleSplitAllLevels`: None when it returns early (no selection, no
   * volume at the index, a non-positive interval, or a core); otherwise the
   * list with the selected volume replaced by its slices.
   */
  function SplitAllLevels(spaces: seq<Space>, selected: Option<int>, interval: real): (r: Option<seq<Space>>)
    ensures r.None? <==>
      selected.None? || !(0 <= selected.value < |spaces|) || interval <= 0.0 || spaces[selected.value].isCore
  {
    if selected.None? || !(0 <= selected.value < |spaces|) || interval <= 0.0 then None
    else
      var idx := selected.value;
      var space := spaces[idx];
      if space.isCore then None
      else Some(spaces[..idx] + SlicesOf(space, interval) + spaces[idx + 1..])
  }

  /** The volumes before and after the selected one are untouched; the slices stand in its place. */
  lemma SplitSplice(spaces: seq<Space>, idx: int, interval: real)
    requires 0 <= idx < |spaces| && interval > 0.0 && !spaces[idx].isCore
    ensures var s := spaces[idx];
      var slices := SlicesOf(s, interval);
      var r := SplitAllLevels(spaces, Some(idx), interval).value;
      |r| == |spaces| - 1 + |slices| &&
      r[..idx] == spaces[..idx] &&
      r[idx..idx + |slices|] == slices &&
      r[idx + |slices|..] == spaces[idx + 1..]
  {
  }

  /**
   * A volume of non-positive height yields no slice, and neither does one
   * whose height is NaN (a cleared height field): the split removes it.
   */
  lemma SplitFlatVolume(spaces: seq<Space>, idx: int, interval: real)
    requires 0 <= idx < |spaces| && interval > 0.0 && !spaces[idx].isCore
    requires spaces[idx].height.NaN? || (spaces[idx].height.Val? && spaces[idx].height.value <= 0.0)
    ensures SplitAllLevels(spaces, Some(idx), interval) == Some(spaces[..idx] + spaces[idx + 1..])
  {
    var s := spaces[idx];
    if s.height.Val? {
      assert SliceCount(s.height.value, interval) == 0;
    }
    assert SlicesOf(s, interval) == [];
    assert spaces[..idx] + [] == spaces[..idx];
  }

  /** A volume with no height property is split as if it were 1 high. */
  lemma SplitMissingHeight(space: Space, interval: real)
    requires interval > 0.0 && space.height.Undefined?
    ensures SlicesOf(space, interval) == LevelSlices(space.name, space.boundary, 1.0, BaseOrZero(space.baseZ), interval)
    ensures |SlicesOf(space, interval)| == SliceCount(1.0, interval)
  {
  }

  /** The split keeps every core, in order. */
  lemma SplitKeepsCores(spaces: seq<Space>, idx: int, interval: real)
    requires 0 <= idx < |spaces| && interval > 0.0 && !spaces[idx].isCore
    ensures Cores(SplitAllLevels(spaces, Some(idx), interval).value) == Cores(spaces)
  {
    var s := spaces[idx];
    var slices := SlicesOf(s, interval);
    SplitValue(spaces, idx, interval);
    Decompose(spaces, idx);
    if s.height.NaN? {
      assert slices == [];
    } else {
      SlicesAreMains(s.name, s.boundary, SplitHeight(s.height).value, BaseOrZero(s.baseZ), interval);
    }
    ReplaceKeepsCores(spaces[..idx], s, slices, spaces[idx + 1..]);
  }

  lemma SplitValue(spaces: seq<Space>, idx: int, interval: real)
    requires 0 <= idx < |spaces| && interval > 0.0 && !spaces[idx].isCore
    ensures var s := spaces[idx];
      SplitAllLevels(spaces, Some(idx), interval).value ==
        spaces[..idx] + SlicesOf(s, interval) + spaces[idx + 1..]
  {
  }

  lemma Decompose(spaces: seq<Space>, idx: int)
    requires 0 <= idx < |spaces|
    ensures spaces == spaces[..idx] + [spaces[idx]] + spaces[idx + 1..]
  {
  }

  /** No slice is a core. */
  lemma SlicesAreMains(name: string, boundary: seq<Point>, height: real, baseZ: real, interval: real)
    requires interval > 0.0
    ensures forall i :: 0 <= i < |LevelSlices(name, boundary, height, baseZ, interval)| ==> !LevelSlices(name, boundary, height, baseZ, interval)[i].isCore
  {
  }

  /** Replacing one main volume by main volumes leaves the cores as they were. */
  lemma ReplaceKeepsCores(before: seq<Space>, s: Space, slices: seq<Space>, after: seq<Space>)
    requires !s.isCore
    requires forall i :: 0 <= i < |slices| ==> !slices[i].isCore
    ensures Cores(before + slices + after) == Cores(before + [s] + after)
  {
    NoCoreSlices(slices);
    CoresAppend(before, slices);
    CoresAppend(before + slices, after);
    assert [s][..0] == [];
    assert Cores([s]) == [];
    CoresAppend(before, [s]);
    CoresAppend(before + [s], after);
  }

  lemma {:induction false} NoCoreSlices(slices: seq<Space>)
    requires forall i :: 0 <= i < |slices| ==> !slices[i].isCore
    ensures Cores(slices) == []
  {
    if slices != [] {
      NoCoreSlices(slices[..|slices| - 1]);
    }
  }
}
