/** One tentacle: a fixed-length chain of joints whose head eases toward a
    target and whose other joints each ease toward an orbit point behind their
    (already updated) predecessor, plus the path that draws the chain. */
module Tentacles {
  import opened Geometry

  // The numeric settings of the effect.
  const TentacleCount: nat := 60
  const Length: nat := 30
  const Radius: real := 10.0

  // Easing fractions and the visibility threshold used by move, draw and the frame loop.
  const HeadRate: real := 0.1
  const JointRate: real := 0.4
  const VisibleThreshold: real := 0.01

  /** The trigonometric functions the motion uses. Their floating-point
      behaviour is not modelled: they are supplied by the caller, and the
      lemmas that need a fact about them take it as a hypothesis. */
  datatype Trig = Trig(atan2: (real, real) -> real, sin: real -> real, cos: real -> real)

  ghost predicate SinBounded(t: Trig)
  {
    forall a :: -1.0 <= t.sin(a) <= 1.0
  }

  ghost predicate Pythagorean(t: Trig)
  {
    forall a :: t.sin(a) * t.sin(a) + t.cos(a) * t.cos(a) == 1.0
  }

  /** The orbit radius of joint i: the full radius at the head, shrinking
      linearly to half the radius at index Length. */
  function Taper(i: nat): (r: real)
    ensures i == 0 ==> r == Radius
    ensures 1 <= i < Length ==> Radius / 2.0 < r < Radius
    ensures i == Length ==> r == Radius / 2.0
  {
    Radius * (1.0 - (i as real) / (Length as real) * 0.5)
  }

  lemma TaperDecreasing(i: nat, j: nat)
    requires i < j
    ensures Taper(j) < Taper(i)
  {
  }

  /** The angular wave added to joint i's direction on a given tick; half a
      sine, so at most half a radian either way. */
  function Wave(tick: int, i: nat, angleOffset: real, trig: Trig): (w: real)
    ensures SinBounded(trig) ==> -0.5 <= w <= 0.5
  {
    trig.sin((tick as real) * 0.05 + (i as real) * 0.2 + angleOffset) * 0.5
  }

  /** The point joint i (at `curr`) aims for: from its predecessor `prev`, go
      back along the direction from `curr` to `prev`, turned by the wave, by
      the tapered radius. */
  function Orbit(prev: Point, curr: Point, i: nat, tick: int, angleOffset: real, trig: Trig): Point
  {
    var angle := trig.atan2(prev.y - curr.y, prev.x - curr.x);
    var theta := angle + Wave(tick, i, angleOffset, trig);
    Point(prev.x - trig.cos(theta) * Taper(i), prev.y - trig.sin(theta) * Taper(i))
  }

  /** When sin and cos lie on the unit circle, the orbit point is exactly the
      tapered radius away from the predecessor. */
  lemma OrbitOnCircle(prev: Point, curr: Point, i: nat, tick: int, angleOffset: real, trig: Trig)
    requires Pythagorean(trig)
    ensures Dist2(Orbit(prev, curr, i, tick, angleOffset, trig), prev) == Taper(i) * Taper(i)
  {
    var theta := trig.atan2(prev.y - curr.y, prev.x - curr.x) + Wave(tick, i, angleOffset, trig);
    var c, s, r := trig.cos(theta), trig.sin(theta), Taper(i);
    var o := Orbit(prev, curr, i, tick, angleOffset, trig);
    assert o.x - prev.x == -(c * r) && o.y - prev.y == -(s * r);
    assert s * s + c * c == 1.0;
    calc {
      Dist2(o, prev);
      (-(c * r)) * (-(c * r)) + (-(s * r)) * (-(s * r));
      (c * c) * (r * r) + (s * s) * (r * r);
      (s * s + c * c) * (r * r);
      r * r;
    }
  }

  /** The new position of joint i >= 1 (at `curr`) given its predecessor's
      new position `prev`: 40% of the way to its orbit point. */
  function Follow(prev: Point, curr: Point, i: nat, tick: int, angleOffset: real, trig: Trig): Point
  {
    EaseTo(curr, Orbit(prev, curr, i, tick, angleOffset, trig), JointRate)
  }

  /** Joint i after one call of move on the chain s: the head eases toward
      the target; every later joint follows the predecessor's NEW position,
      since the loop runs in index order. */
  function Joint(s: seq<Point>, i: nat, target: Point, tick: int, angleOffset: real, trig: Trig): Point
    requires i < |s|
    decreases i
  {
    if i == 0 then EaseTo(s[0], target, HeadRate)
    else Follow(Joint(s, i - 1, target, tick, angleOffset, trig), s[i], i, tick, angleOffset, trig)
  }

  /** The whole chain after one call of move. */
  function Moved(s: seq<Point>, target: Point, tick: int, angleOffset: real, trig: Trig): (r: seq<Point>)
    ensures |r| == |s|
  {
    MovedFrom(s, 0, target, tick, angleOffset, trig)
  }

  /** Joints n, n + 1, ... of the chain s after one call of move. */
  function MovedFrom(s: seq<Point>, n: nat, target: Point, tick: int, angleOffset: real, trig: Trig): (r: seq<Point>)
    requires n <= |s|
    ensures |r| == |s| - n
    decreases |s| - n
  {
    if n == |s| then []
    else [Joint(s, n, target, tick, angleOffset, trig)] + MovedFrom(s, n + 1, target, tick, angleOffset, trig)
  }

  lemma {:induction false} MovedFromJoints(s: seq<Point>, n: nat, target: Point, tick: int, angleOffset: real, trig: Trig)
    requires n <= |s|
    ensures forall i :: n <= i < |s| ==>
      MovedFrom(s, n, target, tick, angleOffset, trig)[i - n] == Joint(s, i, target, tick, angleOffset, trig)
    decreases |s| - n
  {
    if n < |s| {
      MovedFromJoints(s, n + 1, target, tick, angleOffset, trig);
    }
  }

  /** Joint i of the moved chain is Joint(s, i). */
  lemma MovedJoints(s: seq<Point>, target: Point, tick: int, angleOffset: real, trig: Trig)
    ensures forall i :: 0 <= i < |s| ==>
      Moved(s, target, tick, angleOffset, trig)[i] == Joint(s, i, target, tick, angleOffset, trig)
  {
    MovedFromJoints(s, 0, target, tick, angleOffset, trig);
    forall i | 0 <= i < |s|
      ensures Moved(s, target, tick, angleOffset, trig)[i] == Joint(s, i, target, tick, angleOffset, trig)
    {
      assert MovedFrom(s, 0, target, tick, angleOffset, trig)[i - 0] == Joint(s, i, target, tick, angleOffset, trig);
    }
  }

  /** The moved chain as a recurrence: the head eased 10% toward the target,
      and each later joint eased 40% toward the orbit point of the already
      moved joint before it. */
  lemma MovedRecurrence(s: seq<Point>, target: Point, tick: int, angleOffset: real, trig: Trig)
    ensures var r := Moved(s, target, tick, angleOffset, trig);
      && (|s| > 0 ==> r[0] == EaseTo(s[0], target, HeadRate))
      && forall i :: 1 <= i < |s| ==>
           r[i] == EaseTo(s[i], Orbit(r[i - 1], s[i], i, tick, angleOffset, trig), JointRate)
  {
    MovedJoints(s, target, tick, angleOffset, trig);
  }

  /** Head easing: each coordinate's offset from the target becomes exactly
      0.9 of what it was, so the distance to the target becomes 0.9 of the old
      one; it never grows, a head at the target stays there, and a head not at
      the target does not reach it. */
  lemma HeadEasing(s: seq<Point>, target: Point, tick: int, angleOffset: real, trig: Trig)
    requires |s| > 0
    ensures Moved(s, target, tick, angleOffset, trig)[0].x - target.x == 0.9 * (s[0].x - target.x)
    ensures Moved(s, target, tick, angleOffset, trig)[0].y - target.y == 0.9 * (s[0].y - target.y)
    ensures Dist2(Moved(s, target, tick, angleOffset, trig)[0], target) == 0.81 * Dist2(s[0], target)
    ensures Dist2(Moved(s, target, tick, angleOffset, trig)[0], target) <= Dist2(s[0], target)
    ensures s[0] == target <==> Moved(s, target, tick, angleOffset, trig)[0] == target
  {
    MovedRecurrence(s, target, tick, angleOffset, trig);
    EaseToContracts(s[0], target, HeadRate);
  }

  /** Joint easing: for 1 <= i, joint i closes exactly 40% of its gap to the
      orbit point it aims for (whose predecessor is the moved joint i - 1),
      and with unit-circle trigonometry that orbit point lies at the tapered
      radius from the moved predecessor. */
  lemma JointEasing(s: seq<Point>, i: nat, target: Point, tick: int, angleOffset: real, trig: Trig)
    requires 1 <= i < |s|
    ensures var r := Moved(s, target, tick, angleOffset, trig);
      var o := Orbit(r[i - 1], s[i], i, tick, angleOffset, trig);
      && r[i].x - o.x == 0.6 * (s[i].x - o.x)
      && r[i].y - o.y == 0.6 * (s[i].y - o.y)
      && Dist2(r[i], o) == 0.36 * Dist2(s[i], o)
      && (Pythagorean(trig) ==> Dist2(o, r[i - 1]) == Taper(i) * Taper(i))
  {
    MovedRecurrence(s, target, tick, angleOffset, trig);
    var r := Moved(s, target, tick, angleOffset, trig);
    var o := Orbit(r[i - 1], s[i], i, tick, angleOffset, trig);
    EaseToContracts(s[i], o, JointRate);
    if Pythagorean(trig) {
      OrbitOnCircle(r[i - 1], s[i], i, tick, angleOffset, trig);
    }
  }

  lemma {:induction false} JointPrefix(s: seq<Point>, t: seq<Point>, i: nat, target: Point, tick: int, angleOffset: real, trig: Trig)
    requires i < |s| && i < |t|
    requires forall j :: 0 <= j <= i ==> s[j] == t[j]
    ensures Joint(s, i, target, tick, angleOffset, trig) == Joint(t, i, target, tick, angleOffset, trig)
    decreases i
  {
    if i > 0 {
      JointPrefix(s, t, i - 1, target, tick, angleOffset, trig);
    }
  }

  /** Move is causal along the chain: the first k joints after a move depend
      only on the first k joints before it. */
  lemma MovedPrefix(s: seq<Point>, t: seq<Point>, k: nat, target: Point, tick: int, angleOffset: real, trig: Trig)
    requires k <= |s| && k <= |t| && s[..k] == t[..k]
    ensures Moved(s, target, tick, angleOffset, trig)[..k] == Moved(t, target, tick, angleOffset, trig)[..k]
  {
    MovedJoints(s, target, tick, angleOffset, trig);
    MovedJoints(t, target, tick, angleOffset, trig);
    forall i | 0 <= i < k
      ensures Joint(s, i, target, tick, angleOffset, trig) == Joint(t, i, target, tick, angleOffset, trig)
    {
      assert forall j :: 0 <= j <= i ==> s[j] == s[..k][j] == t[..k][j] == t[j];
      JointPrefix(s, t, i, target, tick, angleOffset, trig);
    }
  }

  /** The chain after k frames with a fixed target, the clock advancing by
      one before each move. */
  function Repeated(s: seq<Point>, target: Point, tick: int, angleOffset: real, trig: Trig, k: nat): seq<Point>
    decreases k
  {
    if k == 0 then s
    else Repeated(Moved(s, target, tick + 1, angleOffset, trig), target, tick + 1, angleOffset, trig, k - 1)
  }

  /** The algebra of one step of HeadAfterMoves, over plain variables. */
  lemma ScaleStep(d: real, moved: real, later: real, p: real, pk: real)
    requires moved == 0.9 * d && later == p * moved && pk == 0.9 * p
    ensures later == pk * d
  {
  }

  /** Convergence of the head: after k moves toward a fixed target its offset
      is 0.9^k times the first offset. */
  lemma {:induction false} HeadAfterMoves(s: seq<Point>, target: Point, tick: int, angleOffset: real, trig: Trig, k: nat)
    requires |s| > 0
    ensures |Repeated(s, target, tick, angleOffset, trig, k)| == |s|
    ensures Repeated(s, target, tick, angleOffset, trig, k)[0].x - target.x == Pow(0.9, k) * (s[0].x - target.x)
    ensures Repeated(s, target, tick, angleOffset, trig, k)[0].y - target.y == Pow(0.9, k) * (s[0].y - target.y)
    decreases k
  {
    if k > 0 {
      var m := Moved(s, target, tick + 1, angleOffset, trig);
      HeadEasing(s, target, tick + 1, angleOffset, trig);
      HeadAfterMoves(m, target, tick + 1, angleOffset, trig, k - 1);
      var r := Repeated(s, target, tick, angleOffset, trig, k);
      assert r == Repeated(m, target, tick + 1, angleOffset, trig, k - 1);
      var p, pk := Pow(0.9, k - 1), Pow(0.9, k);
      ScaleStep(s[0].x - target.x, m[0].x - target.x, r[0].x - target.x, p, pk);
      ScaleStep(s[0].y - target.y, m[0].y - target.y, r[0].y - target.y, p, pk);
    }
  }

  predicate AllAt(s: seq<Point>, p: Point)
  {
    forall k :: 0 <= k < |s| ==> s[k] == p
  }

  /** The canvas path commands a tentacle emits. */
  datatype PathCmd = MoveTo(p: Point) | QuadTo(ctrl: Point, end: Point) | LineTo(p: Point)

  /** Quadratic curves through the points of t: each controlled by a point and
      ending at the midpoint between it and the next point. */
  function Curves(t: seq<Point>): seq<PathCmd>
    decreases |t|
  {
    if |t| < 2 then [] else [QuadTo(t[0], Mid(t[0], t[1]))] + Curves(t[1..])
  }

  function Path(s: seq<Point>): seq<PathCmd>
    requires |s| > 0
  {
    [MoveTo(s[0])] + Curves(s[1..]) + [LineTo(s[|s| - 1])]
  }

  /** What draw emits at a given opacity: nothing when almost transparent. */
  function Drawn(s: seq<Point>, opacity: real): (r: seq<PathCmd>)
    requires |s| > 0
    ensures r == [] <==> opacity < VisibleThreshold
  {
    if opacity < VisibleThreshold then [] else Path(s)
  }

  lemma {:induction false} CurvesAt(t: seq<Point>)
    ensures |Curves(t)| == if |t| < 2 then 0 else |t| - 1
    ensures forall k :: 0 <= k < |t| - 1 ==> Curves(t)[k] == QuadTo(t[k], Mid(t[k], t[k + 1]))
    decreases |t|
  {
    if |t| >= 2 {
      CurvesAt(t[1..]);
      var c := Curves(t[1..]);
      assert Curves(t) == [QuadTo(t[0], Mid(t[0], t[1]))] + c;
      forall k | 1 <= k < |t| - 1
        ensures Curves(t)[k] == QuadTo(t[k], Mid(t[k], t[k + 1]))
      {
        assert Curves(t)[k] == c[k - 1];
        assert t[1..][k - 1] == t[k] && t[1..][k] == t[k + 1];
      }
    }
  }

  /** The shape of a drawn path: one moveTo the head, then a quadratic curve
      for every interior joint i (control point joint i, end point the midpoint
      of joints i and i + 1), then one lineTo the last joint. */
  lemma PathShape(s: seq<Point>)
    requires |s| > 0
    ensures |Path(s)| == if |s| == 1 then 2 else |s|
    ensures Path(s)[0] == MoveTo(s[0])
    ensures forall i :: 1 <= i < |s| - 1 ==> Path(s)[i] == QuadTo(s[i], Mid(s[i], s[i + 1]))
    ensures Path(s)[|Path(s)| - 1] == LineTo(s[|s| - 1])
  {
    var t := s[1..];
    CurvesAt(t);
    forall i | 1 <= i < |s| - 1
      ensures Path(s)[i] == QuadTo(s[i], Mid(s[i], s[i + 1]))
    {
      assert Path(s)[i] == Curves(t)[i - 1];
      assert t[i - 1] == s[i] && t[i] == s[i + 1];
    }
  }

  class Tentacle {
    const length: nat
    const segments: array<Point>
    const angleOffset: real

    predicate Valid()
    {
      length == Length && segments.Length == length
    }

    /** A new tentacle with every joint on the spawn point (x, y). */
    constructor (x: real, y: real, index: nat)
      ensures Valid() && fresh(segments)
      ensures angleOffset == (index as real) * 0.1
      ensures AllAt(segments[..], Point(x, y))
    {
      length := Length;
      angleOffset := (index as real) * 0.1;
      segments := new Point[Length];
      new;
      var i := 0;
      while i < length
        invariant 0 <= i <= length
        invariant forall k :: 0 <= k < i ==> segments[k] == Point(x, y)
      {
        segments[i] := Point(x, y);
        i := i + 1;
      }
    }

    /** Collapse every joint onto (x, y). */
    method Reset(x: real, y: real)
      requires Valid()
      modifies segments
      ensures AllAt(segments[..], Point(x, y))
    {
      var i := 0;
      while i < segments.Length
        invariant 0 <= i <= segments.Length
        invariant forall k :: 0 <= k < i ==> segments[k] == Point(x, y)
      {
        segments[i] := Point(x, y);
        i := i + 1;
      }
    }

    /** One step of motion toward (targetX, targetY) on the given tick. */
    method Move(targetX: real, targetY: real, tick: int, trig: Trig)
      requires Valid()
      modifies segments
      ensures segments[..] == Moved(old(segments[..]), Point(targetX, targetY), tick, angleOffset, trig)
    {
      ghost var s := segments[..];
      var target := Point(targetX, targetY);
      segments[0] := EaseTo(segments[0], target, HeadRate);
      var i := 1;
      while i < length
        invariant 1 <= i <= length
        invariant forall k :: 0 <= k < i ==> segments[k] == Joint(s, k, target, tick, angleOffset, trig)
        invariant forall k :: i <= k < length ==> segments[k] == s[k]
      {
        segments[i] := Follow(segments[i - 1], segments[i], i, tick, angleOffset, trig);
        i := i + 1;
      }
      ghost var m := Moved(s, target, tick, angleOffset, trig);
      MovedJoints(s, target, tick, angleOffset, trig);
      assert forall k :: 0 <= k < length ==> segments[..][k] == m[k];
    }

    /** The path this tentacle draws at the given opacity. */
    method Draw(opacity: real) returns (cmds: seq<PathCmd>)
      requires Valid()
      ensures cmds == Drawn(segments[..], opacity)
    {
      if opacity < VisibleThreshold {
        return [];
      }
      ghost var s := segments[..];
      cmds := [MoveTo(segments[0])];
      var i := 1;
      while i < length - 1
        invariant 1 <= i <= length - 1
        invariant |cmds| == i
        invariant cmds[0] == MoveTo(s[0])
        invariant forall k :: 1 <= k < i ==> cmds[k] == QuadTo(s[k], Mid(s[k], s[k + 1]))
      {
        var xc := (segments[i].x + segments[i + 1].x) / 2.0;
        var yc := (segments[i].y + segments[i + 1].y) / 2.0;
        cmds := cmds + [QuadTo(segments[i], Point(xc, yc))];
        i := i + 1;
      }
      var last := segments[length - 1];
      ghost var curves := cmds;
      cmds := cmds + [LineTo(last)];
      PathShape(s);
      assert |cmds| == |Path(s)| == |s|;
      forall k | 0 <= k < |cmds|
        ensures cmds[k] == Path(s)[k]
      {
        if k == 0 {
          assert cmds[0] == curves[0] == MoveTo(s[0]);
        } else if k < |curves| {
          assert cmds[k] == curves[k] == QuadTo(s[k], Mid(s[k], s[k + 1]));
          assert Path(s)[k] == QuadTo(s[k], Mid(s[k], s[k + 1]));
        } else {
          assert cmds[k] == LineTo(s[|s| - 1]);
        }
      }
    }
  }
}
