/**
 * IFC export: the records the frontend sends and the extrusions the backend
 * builds from them.
 *
 * The frontend maps every volume to `{name, boundary, height, baseZ || 0,
 * !!isCore}`. The backend validates each record (a missing height is a
 * validation error), splits the list into main spaces and cores, and for
 * every main space emits one extruded solid: its closed outline as the outer
 * profile, the closed outlines of the cores it contains and overlaps in Z as
 * voids, extruded from `baseZ` by `height`. Polygon containment is the
 * geometry library's and is a parameter here; the IFC entities themselves
 * are not modelled.
 */
module Export {
  import opened Wrappers
  import opened Volumes
  import Edits

  // ---------------------------------------------------------------- frontend records

  /**
   * A record as sent; `height` is the raw field. `JSON.stringify` leaves the
   * key out when the volume has no height and writes `null` for a NaN one.
   */
  datatype Record = Record(name: string, boundary: seq<Point>, height: Height, baseZ: real, isCore: bool)

  function RecordOf(s: Space): (r: Record)
    ensures r.name == s.name && r.boundary == s.boundary && r.height == s.height
    ensures r.baseZ == EffBase(s) && r.isCore == s.isCore
  {
    Record(s.name, s.boundary, s.height, BaseOrZero(s.baseZ), s.isCore)
  }

  /** `spaces.map(space => ({...}))`, shared by both export buttons. */
  function Records(spaces: seq<Space>): (r: seq<Record>)
    ensures |r| == |spaces| && forall i :: 0 <= i < |r| ==> r[i] == RecordOf(spaces[i])
  {
    seq(|spaces|, i requires 0 <= i < |spaces| => RecordOf(spaces[i]))
  }

  // ---------------------------------------------------------------- backend input

  /** `SpaceInput`: `baseZ` defaults to 0.0 and `isCore` to False; `height` is required. */
  datatype SpaceInput = SpaceInput(name: string, boundary: seq<Point>, height: real, baseZ: real, isCore: bool)

  /** A required field that is absent, or a `null` where a float is required. */
  datatype ValidationError = MissingHeight(index: nat) | NullHeight(index: nat)

  /** The error the record at `index` draws for a height that is not a number. */
  function HeightError(h: Height, index: nat): ValidationError {
    if h.NaN? then NullHeight(index) else MissingHeight(index)
  }

  function ParseRecord(r: Record, index: nat): (p: Result<SpaceInput, ValidationError>)
    ensures p.Ok? <==> r.height.Val?
    ensures p.Ok? ==> p.value == SpaceInput(r.name, r.boundary, r.height.value, r.baseZ, r.isCore)
    ensures p.Err? && r.height.Undefined? ==> p.error == MissingHeight(index)
    ensures p.Err? && r.height.NaN? ==> p.error == NullHeight(index)
  {
    match r.height
    case Undefined => Err(MissingHeight(index))
    case NaN => Err(NullHeight(index))
    case Val(h) => Ok(SpaceInput(r.name, r.boundary, h, r.baseZ, r.isCore))
  }

  /**
   * The request body is accepted only when every record validates. The
   * validator lists every failing record; the model reports the first one,
   * which is enough to tell acceptance from rejection.
   */
  function ParseAll(rs: seq<Record>): (p: Result<seq<SpaceInput>, ValidationError>)
    ensures p.Ok? ==> |p.value| == |rs|
  {
    if rs == [] then Ok([])
    else
      var init := ParseAll(rs[..|rs| - 1]);
      if init.Err? then init
      else
        var last := ParseRecord(rs[|rs| - 1], |rs| - 1);
        if last.Err? then Err(last.error) else Ok(init.value + [last.value])
  }

  predicate HasHeights(spaces: seq<Space>) {
    forall i :: 0 <= i < |spaces| ==> spaces[i].height.Val?
  }

  /** What the backend holds for a volume that has a height. */
  function InputOf(s: Space): (r: SpaceInput)
    requires s.height.Val?
    ensures r.name == s.name && r.boundary == s.boundary && r.height == s.height.value
    ensures r.baseZ == EffBase(s) && r.isCore == s.isCore
  {
    SpaceInput(s.name, s.boundary, s.height.value, BaseOrZero(s.baseZ), s.isCore)
  }

  function Inputs(spaces: seq<Space>): (r: seq<SpaceInput>)
    requires HasHeights(spaces)
    ensures |r| == |spaces| && forall i :: 0 <= i < |r| ==> r[i] == InputOf(spaces[i])
  {
    seq(|spaces|, i requires 0 <= i < |spaces| => InputOf(spaces[i]))
  }

  /**
   * Exporting succeeds exactly when every volume has a height, and then the
   * backend holds each volume's own values; otherwise the error names the
   * first volume without one.
   */
  lemma {:induction false} ExportValidates(spaces: seq<Space>)
    ensures HasHeights(spaces) ==> ParseAll(Records(spaces)) == Ok(Inputs(spaces))
    ensures !HasHeights(spaces) ==>
      exists i :: 0 <= i < |spaces| && !spaces[i].height.Val? &&
        ParseAll(Records(spaces)) == Err(HeightError(spaces[i].height, i)) && HasHeights(spaces[..i])
    decreases |spaces|
  {
    if spaces != [] {
      var n := |spaces| - 1;
      var init := spaces[..n];
      ExportValidates(init);
      assert Records(spaces)[..n] == Records(init);
      if HasHeights(init) {
        if spaces[n].height.Val? {
          assert Inputs(spaces) == Inputs(init) + [InputOf(spaces[n])];
        } else {
          assert init == spaces[..n];
        }
      } else {
        var i :| 0 <= i < |init| && !init[i].height.Val? &&
          ParseAll(Records(init)) == Err(HeightError(init[i].height, i)) && HasHeights(init[..i]);
        assert spaces[..i] == init[..i];
        assert spaces[i] == init[i];
      }
    }
  }

  /**
   * Clearing a core's height field stores NaN: the metrics read that core as
   * 1 high, while the export is rejected and names it.
   */
  lemma ClearedHeightRejected(spaces: seq<Space>, i: int)
    requires 0 <= i < |spaces|
    ensures var edited := Edits.SetCoreHeight(spaces, i, None);
      EffHeight(edited[i]) == 1.0 &&
      ParseRecord(RecordOf(edited[i]), i) == Err(NullHeight(i)) &&
      ParseAll(Records(edited)).Err?
  {
    var edited := Edits.SetCoreHeight(spaces, i, None);
    assert edited[i].height == NaN;
    assert !HasHeights(edited);
    ExportValidates(edited);
  }

  // ---------------------------------------------------------------- partition

  /** `main_spaces`: the records without `isCore`, in order. */
  function MainInputs(s: seq<SpaceInput>): (r: seq<SpaceInput>)
    ensures |r| <= |s| && forall i :: 0 <= i < |r| ==> !r[i].isCore && r[i] in s
  {
    if s == [] then [] else MainInputs(s[..|s| - 1]) + (if s[|s| - 1].isCore then [] else [s[|s| - 1]])
  }

  /** `core_spaces`: the records with `isCore`, in order. */
  function CoreInputs(s: seq<SpaceInput>): (r: seq<SpaceInput>)
    ensures |r| <= |s| && forall i :: 0 <= i < |r| ==> r[i].isCore && r[i] in s
  {
    if s == [] then [] else CoreInputs(s[..|s| - 1]) + (if s[|s| - 1].isCore then [s[|s| - 1]] else [])
  }

  lemma MainInputsSnoc(s: seq<SpaceInput>, x: SpaceInput)
    ensures MainInputs(s + [x]) == MainInputs(s) + (if x.isCore then [] else [x])
  {
    assert (s + [x])[..|s|] == s;
  }

  lemma CoreInputsSnoc(s: seq<SpaceInput>, x: SpaceInput)
    ensures CoreInputs(s + [x]) == CoreInputs(s) + (if x.isCore then [x] else [])
  {
    assert (s + [x])[..|s|] == s;
  }

  lemma {:induction false} PartitionMultiset(s: seq<SpaceInput>)
    ensures multiset(MainInputs(s)) + multiset(CoreInputs(s)) == multiset(s)
    decreases |s|
  {
    if s != [] {
      var init := s[..|s| - 1];
      var last := s[|s| - 1];
      PartitionMultiset(init);
      assert s == init + [last];
      MainInputsSnoc(init, last);
      CoreInputsSnoc(init, last);
    }
  }

  /** Every space goes to exactly one of the two lists: together they hold the input, no space lost or doubled. */
  lemma PartitionExact(s: seq<SpaceInput>)
    ensures multiset(MainInputs(s)) + multiset(CoreInputs(s)) == multiset(s)
    ensures |MainInputs(s)| + |CoreInputs(s)| == |s|
  {
    PartitionMultiset(s);
    assert |multiset(MainInputs(s))| == |MainInputs(s)|;
    assert |multiset(CoreInputs(s))| == |CoreInputs(s)|;
    assert |multiset(s)| == |s|;
  }

  /** `main_spaces` keeps the relative order of its spaces: the split distributes over concatenation. */
  lemma {:induction false} MainInputsAppend(a: seq<SpaceInput>, b: seq<SpaceInput>)
    ensures MainInputs(a + b) == MainInputs(a) + MainInputs(b)
    decreases |b|
  {
    if b == [] {
      assert a + b == a;
    } else {
      var b' := b[..|b| - 1];
      var last := b[|b| - 1];
      var tail := if last.isCore then [] else [last];
      MainInputsAppend(a, b');
      assert (a + b)[..|a + b| - 1] == a + b';
      assert MainInputs(a + b) == MainInputs(a) + MainInputs(b') + tail;
      assert MainInputs(b) == MainInputs(b') + tail;
    }
  }

  /** So does `core_spaces`. */
  lemma {:induction false} CoreInputsAppend(a: seq<SpaceInput>, b: seq<SpaceInput>)
    ensures CoreInputs(a + b) == CoreInputs(a) + CoreInputs(b)
    decreases |b|
  {
    if b == [] {
      assert a + b == a;
    } else {
      var b' := b[..|b| - 1];
      var last := b[|b| - 1];
      var tail := if last.isCore then [last] else [];
      CoreInputsAppend(a, b');
      assert (a + b)[..|a + b| - 1] == a + b';
      assert CoreInputs(a + b) == CoreInputs(a) + CoreInputs(b') + tail;
      assert CoreInputs(b) == CoreInputs(b') + tail;
    }
  }

  lemma InputsAppendOne(s: seq<Space>, x: Space)
    requires HasHeights(s) && x.height.Val?
    ensures HasHeights(s + [x]) && Inputs(s + [x]) == Inputs(s) + [InputOf(x)]
  {
    assert Inputs(s + [x])[|s|] == InputOf(x);
  }

  /** The backend's main spaces and cores are the frontend's main volumes and cores, in the same order. */
  lemma {:induction false} SamePartition(spaces: seq<Space>)
    requires HasHeights(spaces)
    ensures HasHeights(Mains(spaces)) && MainInputs(Inputs(spaces)) == Inputs(Mains(spaces))
    ensures HasHeights(Cores(spaces)) && CoreInputs(Inputs(spaces)) == Inputs(Cores(spaces))
    decreases |spaces|
  {
    if spaces != [] {
      var n := |spaces| - 1;
      var init := spaces[..n];
      var last := spaces[n];
      assert spaces == init + [last];
      assert HasHeights(init);
      SamePartition(init);
      InputsAppendOne(init, last);
      var x := InputOf(last);
      MainInputsSnoc(Inputs(init), x);
      CoreInputsSnoc(Inputs(init), x);
      var mi := Mains(init);
      var ci := Cores(init);
      if last.isCore {
        assert Mains(spaces) == mi + [];
        assert Cores(spaces) == ci + [last];
        InputsAppendOne(ci, last);
        assert MainInputs(Inputs(spaces)) == MainInputs(Inputs(init)) + [];
      } else {
        assert Mains(spaces) == mi + [last];
        assert Cores(spaces) == ci + [];
        InputsAppendOne(mi, last);
        assert CoreInputs(Inputs(spaces)) == CoreInputs(Inputs(init)) + [];
      }
    }
  }

  // ---------------------------------------------------------------- closing outlines

  /** `close_boundary`: repeat the first point at the end unless it is already there. */
  function Close(b: seq<Point>): (r: seq<Point>)
    requires |b| > 0
    ensures |r| > 0 && r[|r| - 1] == b[0] && r[0] == b[0]
    ensures b[0] == b[|b| - 1] ==> r == b
    ensures b[0] != b[|b| - 1] ==> r == b + [b[0]]
  {
    if b[0] != b[|b| - 1] then b + [b[0]] else b
  }

  /** Closing a closed outline changes nothing, so closing twice is closing once. */
  lemma CloseIdempotent(b: seq<Point>)
    requires |b| > 0
    ensures Close(Close(b)) == Close(b)
    ensures |Close(b)| <= |b| + 1
  {
  }

  // ---------------------------------------------------------------- voids and solids

  /** The backend's Z overlap, on the raw values (no defaults). */
  function Overlap(main: SpaceInput, core: SpaceInput): (h: real)
    ensures h <= main.height && h <= core.height
  {
    Min(main.baseZ + main.height, core.baseZ + core.height) - Max(main.baseZ, core.baseZ)
  }

  /**
   * Does the geometry library's (repaired) polygon of the first outline
   * contain that of the second? Taken as given.
   */
  type Contains = (seq<Point>, seq<Point>) -> bool

  /** A core is a void of a main space when it overlaps it in Z and lies inside it in plan. */
  predicate IsVoid(main: SpaceInput, core: SpaceInput, contains: Contains)
    requires |main.boundary| > 0 && |core.boundary| > 0
  {
    Overlap(main, core) > 0.0 && contains(Close(main.boundary), Close(core.boundary))
  }

  predicate Outlined(s: seq<SpaceInput>) {
    forall i :: 0 <= i < |s| ==> |s[i].boundary| > 0
  }

  /** The void outlines of one main space: the closed outlines of its voids, in core order. */
  function VoidsFor(main: SpaceInput, cores: seq<SpaceInput>, contains: Contains): (r: seq<seq<Point>>)
    requires |main.boundary| > 0 && Outlined(cores)
    ensures |r| <= |cores|
  {
    if cores == [] then []
    else
      var c := cores[|cores| - 1];
      VoidsFor(main, cores[..|cores| - 1], contains) + (if IsVoid(main, c, contains) then [Close(c.boundary)] else [])
  }

  /** The extrusion a main space becomes. */
  datatype Solid = Solid(name: string, outer: seq<Point>, voids: seq<seq<Point>>, originZ: real, depth: real)

  function SolidOf(main: SpaceInput, cores: seq<SpaceInput>, contains: Contains): Solid
    requires |main.boundary| > 0 && Outlined(cores)
  {
    Solid(main.name, Close(main.boundary), VoidsFor(main, cores, contains), main.baseZ, main.height)
  }

  function SolidsOf(mains: seq<SpaceInput>, cores: seq<SpaceInput>, contains: Contains): (r: seq<Solid>)
    requires Outlined(mains) && Outlined(cores)
    ensures |r| == |mains|
  {
    seq(|mains|, i requires 0 <= i < |mains| => SolidOf(mains[i], cores, contains))
  }

  /** The running `current_baseZ`: each main space adds its height less the 0.001 overlap. */
  function StackedBase(mains: seq<SpaceInput>): real {
    if mains == [] then 0.0 else StackedBase(mains[..|mains| - 1]) + mains[|mains| - 1].height - 0.001
  }

  lemma VoidsStep(main: SpaceInput, cores: seq<SpaceInput>, contains: Contains, c: int)
    requires |main.boundary| > 0 && Outlined(cores) && 0 <= c < |cores|
    ensures VoidsFor(main, cores[..c + 1], contains) ==
      VoidsFor(main, cores[..c], contains) + (if IsVoid(main, cores[c], contains) then [Close(cores[c].boundary)] else [])
  {
    assert cores[..c + 1][..c] == cores[..c];
  }

  lemma SolidsStep(mains: seq<SpaceInput>, cores: seq<SpaceInput>, contains: Contains, m: int)
    requires Outlined(mains) && Outlined(cores) && 0 <= m < |mains|
    ensures SolidsOf(mains[..m + 1], cores, contains) == SolidsOf(mains[..m], cores, contains) + [SolidOf(mains[m], cores, contains)]
    ensures StackedBase(mains[..m + 1]) == StackedBase(mains[..m]) + mains[m].height - 0.001
  {
    assert mains[..m + 1][..m] == mains[..m];
  }

  /**
   * The loop of `generate_ifc` over the main spaces, with the inner loop over
   * the cores collecting void outlines. `stacked` is the `current_baseZ` the
   * loop keeps; no solid reads it.
   */
  method GenerateSolids(mains: seq<SpaceInput>, cores: seq<SpaceInput>, contains: Contains) returns (solids: seq<Solid>, stacked: real)
    requires Outlined(mains) && Outlined(cores)
    ensures solids == SolidsOf(mains, cores, contains)
    ensures stacked == StackedBase(mains)
  {
    solids := [];
    stacked := 0.0;
    var m := 0;
    while m < |mains|
      invariant 0 <= m <= |mains|
      invariant solids == SolidsOf(mains[..m], cores, contains)
      invariant stacked == StackedBase(mains[..m])
    {
      var space := mains[m];
      var voids := [];
      var c := 0;
      while c < |cores|
        invariant 0 <= c <= |cores|
        invariant voids == VoidsFor(space, cores[..c], contains)
      {
        var core := cores[c];
        var overlapHeight := Min(space.baseZ + space.height, core.baseZ + core.height) - Max(space.baseZ, core.baseZ);
        var coreBoundary := Close(core.boundary);
        VoidsStep(space, cores, contains, c);
        assert overlapHeight == Overlap(space, core);
        if overlapHeight > 0.0 && contains(Close(space.boundary), coreBoundary) {
          voids := voids + [coreBoundary];
        }
        c := c + 1;
      }
      assert cores[..c] == cores;
      SolidsStep(mains, cores, contains, m);
      solids := solids + [Solid(space.name, Close(space.boundary), voids, space.baseZ, space.height)];
      stacked := stacked + space.height - 0.001;
      m := m + 1;
    }
    assert mains[..m] == mains;
  }

  /** Each solid extrudes its own main space, from that space's `baseZ` by its `height`, whatever `current_baseZ` says. */
  lemma SolidsUseIncomingBase(mains: seq<SpaceInput>, cores: seq<SpaceInput>, contains: Contains, i: int)
    requires Outlined(mains) && Outlined(cores) && 0 <= i < |mains|
    ensures var s := SolidsOf(mains, cores, contains)[i];
      s.name == mains[i].name && s.originZ == mains[i].baseZ && s.depth == mains[i].height &&
      s.outer == Close(mains[i].boundary) && s.outer[|s.outer| - 1] == mains[i].boundary[0]
  {
  }

  /** Two spaces on the ground: the second solid starts on the ground too, not at the `current_baseZ` on top of the first. */
  lemma StackedBaseIgnored(a: SpaceInput, b: SpaceInput, cores: seq<SpaceInput>, contains: Contains)
    requires |a.boundary| > 0 && |b.boundary| > 0 && Outlined(cores)
    requires a.baseZ == 0.0 && b.baseZ == 0.0 && a.height > 0.001
    ensures StackedBase([a]) == a.height - 0.001
    ensures SolidsOf([a, b], cores, contains)[1].originZ == 0.0
  {
    assert [a][..0] == [];
  }

  /** Every void outline is the closed outline of a core that overlaps the space and lies inside it. */
  lemma {:induction false} VoidsSound(main: SpaceInput, cores: seq<SpaceInput>, contains: Contains, v: seq<Point>)
    requires |main.boundary| > 0 && Outlined(cores)
    requires v in VoidsFor(main, cores, contains)
    ensures exists i :: 0 <= i < |cores| && IsVoid(main, cores[i], contains) && v == Close(cores[i].boundary)
    decreases |cores|
  {
    var n := |cores| - 1;
    var init := cores[..n];
    if v in VoidsFor(main, init, contains) {
      VoidsSound(main, init, contains, v);
      var i :| 0 <= i < |init| && IsVoid(main, init[i], contains) && v == Close(init[i].boundary);
      assert cores[i] == init[i];
    } else {
      assert IsVoid(main, cores[n], contains) && v == Close(cores[n].boundary);
    }
  }

  /** Conversely every core that overlaps the space and lies inside it contributes its closed outline. */
  lemma {:induction false} VoidsComplete(main: SpaceInput, cores: seq<SpaceInput>, contains: Contains, i: int)
    requires |main.boundary| > 0 && Outlined(cores)
    requires 0 <= i < |cores| && IsVoid(main, cores[i], contains)
    ensures Close(cores[i].boundary) in VoidsFor(main, cores, contains)
    decreases |cores|
  {
    var n := |cores| - 1;
    if i < n {
      var init := cores[..n];
      assert init[i] == cores[i];
      VoidsComplete(main, init, contains, i);
    }
  }

  /** A core that does not overlap the space in Z is never one of its voids, whatever the plan geometry. */
  lemma {:induction false} NoOverlapNoVoids(main: SpaceInput, cores: seq<SpaceInput>, contains: Contains)
    requires |main.boundary| > 0 && Outlined(cores)
    requires forall i :: 0 <= i < |cores| ==> Overlap(main, cores[i]) <= 0.0
    ensures VoidsFor(main, cores, contains) == []
    decreases |cores|
  {
    if cores != [] {
      NoOverlapNoVoids(main, cores[..|cores| - 1], contains);
    }
  }
}
