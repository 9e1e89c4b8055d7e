/**
 * The volume ("space") entity of the massing model: an extruded polygon with a
 * height, a base elevation, a core (void) flag, a name and a space type.
 *
 * The frontend keeps volumes as plain JavaScript objects whose `height` and
 * `baseZ` may be missing, and whose `height` may be NaN once a number field
 * has been cleared; every reader applies its own default, so the model keeps
 * those two fields partial and names each default once here.
 */
module Volumes {
  import opened Wrappers

  datatype Point = Point(x: real, y: real)

  datatype SpaceType = Unspecified | Basement | Residential | Commercial | Parking | Roof

  /**
   * A height as the JavaScript object holds it: no such property, NaN (what
   * `parseFloat` gives for a field that holds no number), or a number.
   */
  datatype Height = Undefined | NaN | Val(value: real)

  /** `parseFloat` of an input field, where None stands for a field with no number in it. */
  function Parsed(p: Option<real>): (h: Height)
    ensures !h.Undefined?
    ensures h.Val? <==> p.Some?
    ensures h.Val? ==> h.value == p.value
  {
    if p.Some? then Val(p.value) else NaN
  }

  /** `height` is Undefined and `baseZ` None where the JavaScript object has no such property. */
  datatype Space = Space(
    name: string,
    boundary: seq<Point>,
    height: Height,
    baseZ: Option<real>,
    isCore: bool,
    spaceType: SpaceType)

  /** `height || 1`: a missing, NaN or zero height reads as 1; any other value, negative ones included, is kept. */
  function HeightOrOne(h: Height): (r: real)
    ensures r != 0.0
    ensures !h.Val? ==> r == 1.0
    ensures h.Val? && h.value != 0.0 ==> r == h.value
  {
    if h.Val? && h.value != 0.0 then h.value else 1.0
  }

  /** `baseZ || 0`: a missing base elevation reads as 0 (a zero one stays 0). */
  function BaseOrZero(b: Option<real>): (r: real)
    ensures b.None? ==> r == 0.0
    ensures b.Some? ==> r == b.value
  {
    b.GetOr(0.0)
  }

  /** The height a reader of `space.height || 1` sees. */
  function EffHeight(s: Space): real { HeightOrOne(s.height) }

  /** The base elevation a reader of `space.baseZ || 0` sees. */
  function EffBase(s: Space): real { BaseOrZero(s.baseZ) }

  /** The top of a volume's vertical extent [base, base + height). */
  function EffTop(s: Space): real { EffBase(s) + EffHeight(s) }

  function Min(a: real, b: real): real { if a <= b then a else b }
  function Max(a: real, b: real): real { if a >= b then a else b }
  function Abs(a: real): real { if a >= 0.0 then a else -a }

  /** A volume as the drawing tools create it: no core flag and no space type (both read as their defaults). */
  function NewVolume(name: string, boundary: seq<Point>, height: real, baseZ: real): Space {
    Space(name, boundary, Val(height), Some(baseZ), false, Unspecified)
  }

  /** The decimal digits of a natural number, as JavaScript's string concatenation writes it. */
  function NatToString(n: nat): (s: string)
    ensures |s| > 0
    ensures forall i :: 0 <= i < |s| ==> '0' <= s[i] <= '9'
  {
    if n < 10 then [DigitChar(n)] else NatToString(n / 10) + [DigitChar(n % 10)]
  }

  function DigitChar(d: nat): (c: char)
    requires d < 10
    ensures '0' <= c <= '9'
  {
    ['0', '1', '2', '3', '4', '5', '6', '7', '8', '9'][d]
  }

  /** `spaces.filter(space => !space.isCore)`: the main (non-core) volumes, in order. */
  function Mains(spaces: seq<Space>): (r: seq<Space>)
    ensures |r| <= |spaces|
    ensures forall i :: 0 <= i < |r| ==> !r[i].isCore
  {
    if spaces == [] then []
    else Mains(spaces[..|spaces| - 1]) + (if spaces[|spaces| - 1].isCore then [] else [spaces[|spaces| - 1]])
  }

  /** `spaces.filter(space => space.isCore)`: the cores (voids), in order. */
  function Cores(spaces: seq<Space>): (r: seq<Space>)
    ensures |r| <= |spaces|
    ensures forall i :: 0 <= i < |r| ==> r[i].isCore
  {
    if spaces == [] then []
    else Cores(spaces[..|spaces| - 1]) + (if spaces[|spaces| - 1].isCore then [spaces[|spaces| - 1]] else [])
  }

  /** Filtering distributes over concatenation, so either filter keeps the relative order of its volumes. */
  lemma {:induction false} MainsAppend(a: seq<Space>, b: seq<Space>)
    ensures Mains(a + b) == Mains(a) + Mains(b)
    decreases |b|
  {
    if b == [] {
      assert a + b == a;
    } else {
      var b' := b[..|b| - 1];
      var x := b[|b| - 1];
      var tail := if x.isCore then [] else [x];
      MainsAppend(a, b');
      assert (a + b)[..|a + b| - 1] == a + b';
      assert Mains(a + b) == Mains(a) + Mains(b') + tail;
      assert Mains(b) == Mains(b') + tail;
    }
  }

  lemma {:induction false} CoresAppend(a: seq<Space>, b: seq<Space>)
    ensures Cores(a + b) == Cores(a) + Cores(b)
    decreases |b|
  {
    if b == [] {
      assert a + b == a;
    } else {
      var b' := b[..|b| - 1];
      var x := b[|b| - 1];
      var tail := if x.isCore then [x] else [];
      CoresAppend(a, b');
      assert (a + b)[..|a + b| - 1] == a + b';
      assert Cores(a + b) == Cores(a) + Cores(b') + tail;
      assert Cores(b) == Cores(b') + tail;
    }
  }
}
