/** The animation controller: the effect's global state (pursued target,
    frame clock, current and target opacity, the tentacles), the per-frame
    update, and the pointer and touch handlers that engage and disengage the
    effect. */
module Animation {
  import opened Geometry
  import opened Tentacles

  /** Fraction of the remaining opacity gap closed on each frame. */
  const OpacityRate: real := 0.05

  /** One frame's opacity step keeps an opacity in [0, 1] inside [0, 1]
      whenever the target opacity is in [0, 1]. */
  lemma OpacityInRange(current: real, target: real)
    requires 0.0 <= current <= 1.0 && 0.0 <= target <= 1.0
    ensures 0.0 <= Ease(current, target, OpacityRate) <= 1.0
  {
    EaseBetween(current, target, OpacityRate);
  }

  /** After k frames with a fixed target opacity b the gap to b is 0.95^k
      times the first gap. */
  lemma {:induction false} OpacityGap(a: real, b: real, k: nat)
    decreases k
    ensures b - EaseIter(a, b, OpacityRate, k) == Pow(0.95, k) * (b - a)
  {
    if k > 0 {
      var a' := Ease(a, b, OpacityRate);
      OpacityGap(a', b, k - 1);
      MulAssoc(Pow(0.95, k - 1), 0.95, b - a);
    }
  }

  /** Fading in from fully transparent: after k frames with target opacity 1
      the opacity is 1 - 0.95^k, which stays in [0, 1) and never reaches 1. */
  lemma {:induction false} FadeIn(k: nat)
    ensures EaseIter(0.0, 1.0, OpacityRate, k) == 1.0 - Pow(0.95, k)
    ensures 0.0 <= EaseIter(0.0, 1.0, OpacityRate, k) < 1.0
  {
    OpacityGap(0.0, 1.0, k);
    PowPositive(0.95, k);
    PowAtMostOne(0.95, k);
  }

  /** Fading out from fully opaque: after k frames with target opacity 0 the
      opacity is 0.95^k, which stays in (0, 1] and never reaches 0. */
  lemma {:induction false} FadeOut(k: nat)
    ensures EaseIter(1.0, 0.0, OpacityRate, k) == Pow(0.95, k)
    ensures 0.0 < EaseIter(1.0, 0.0, OpacityRate, k) <= 1.0
  {
    OpacityGap(1.0, 0.0, k);
    PowPositive(0.95, k);
    PowAtMostOne(0.95, k);
  }

  lemma {:induction false} PowAtMostOne(b: real, k: nat)
    requires 0.0 <= b <= 1.0
    ensures Pow(b, k) <= 1.0
    decreases k
  {
    if k > 0 {
      PowAtMostOne(b, k - 1);
      PowNonneg(b, k - 1);
      assert b * Pow(b, k - 1) <= 1.0 * Pow(b, k - 1);
    }
  }

  lemma {:induction false} PowNonneg(b: real, k: nat)
    requires 0.0 <= b
    ensures Pow(b, k) >= 0.0
    decreases k
  {
    if k > 0 {
      PowNonneg(b, k - 1);
      ProductNonneg(b, Pow(b, k - 1));
    }
  }

  class Controller {
    var target: Point
    var tick: nat
    var currentOpacity: real
    var targetOpacity: real
    var tentacles: seq<Tentacle>

    /** The joint arrays of all tentacles: what a frame and a snap update. */
    ghost function Repr(): set<object>
      reads this
    {
      set t | t in tentacles :: t.segments
    }

    /** Every tentacle is well formed and owns its joint array; the opacity is
        in [0, 1] and the effect is either engaged (1) or disengaged (0). */
    ghost predicate Valid()
      reads this
    {
      && (forall i :: 0 <= i < |tentacles| ==> tentacles[i].Valid())
      && (forall i, j :: 0 <= i < j < |tentacles| ==> tentacles[i].segments != tentacles[j].segments)
      && 0.0 <= currentOpacity <= 1.0
      && (targetOpacity == 0.0 || targetOpacity == 1.0)
    }

    /** The state at load time, before init runs. */
    constructor ()
      ensures Valid()
      ensures target == Point(0.0, 0.0) && tick == 0
      ensures currentOpacity == 0.0 && targetOpacity == 0.0 && tentacles == []
    {
      target := Point(0.0, 0.0);
      tick := 0;
      currentOpacity := 0.0;
      targetOpacity := 0.0;
      tentacles := [];
    }

    /** Rebuild the tentacles for a surface of the given size: TentacleCount
        fresh tentacles collapsed on its centre, tentacle i with angle offset
        i * 0.1. Nothing else changes. */
    method Init(width: real, height: real)
      requires Valid()
      modifies this
      ensures Valid() && fresh(Repr())
      ensures |tentacles| == TentacleCount
      ensures forall i :: 0 <= i < |tentacles| ==>
        && tentacles[i].angleOffset == (i as real) * 0.1
        && AllAt(tentacles[i].segments[..], Point(width / 2.0, height / 2.0))
      ensures target == old(target) && tick == old(tick)
      ensures currentOpacity == old(currentOpacity) && targetOpacity == old(targetOpacity)
    {
      tentacles := [];
      var i := 0;
      while i < TentacleCount
        invariant 0 <= i <= TentacleCount && |tentacles| == i
        invariant forall k :: 0 <= k < i ==>
          && tentacles[k].Valid() && fresh(tentacles[k].segments)
          && tentacles[k].angleOffset == (k as real) * 0.1
          && AllAt(tentacles[k].segments[..], Point(width / 2.0, height / 2.0))
        invariant forall k, j :: 0 <= k < j < i ==> tentacles[k].segments != tentacles[j].segments
        invariant target == old(target) && tick == old(tick)
        invariant currentOpacity == old(currentOpacity) && targetOpacity == old(targetOpacity)
      {
        var t := new Tentacle(width / 2.0, height / 2.0, i);
        tentacles := tentacles + [t];
        i := i + 1;
      }
    }

    /** One animation frame: the opacity closes 5% of its gap to the target
        opacity, the clock advances by one, and every tentacle is moved
        toward the target on the new tick and then drawn at the new opacity.
        `glow` says whether the glow is switched on for this frame. */
    method Frame(trig: Trig) returns (glow: bool, paths: seq<seq<PathCmd>>)
      requires Valid()
      modifies this, Repr()
      ensures Valid()
      ensures currentOpacity == Ease(old(currentOpacity), targetOpacity, OpacityRate)
      ensures targetOpacity - currentOpacity == 0.95 * (targetOpacity - old(currentOpacity))
      ensures tick == old(tick) + 1
      ensures target == old(target) && targetOpacity == old(targetOpacity) && tentacles == old(tentacles)
      ensures glow <==> currentOpacity > VisibleThreshold
      ensures forall i :: 0 <= i < |tentacles| ==>
        tentacles[i].segments[..] == Moved(old(tentacles[i].segments[..]), target, tick, tentacles[i].angleOffset, trig)
      ensures |paths| == |tentacles|
      ensures forall i :: 0 <= i < |tentacles| ==> paths[i] == Drawn(tentacles[i].segments[..], currentOpacity)
    {
      currentOpacity := currentOpacity + (targetOpacity - currentOpacity) * OpacityRate;
      EaseBetween(old(currentOpacity), targetOpacity, OpacityRate);
      glow := currentOpacity > VisibleThreshold;
      tick := tick + 1;
      paths := MoveAndDrawAll(trig);
    }

    /** The tentacle loop of a frame: each tentacle in turn is moved toward the
        target on the current tick and drawn at the current opacity. */
    method MoveAndDrawAll(trig: Trig) returns (paths: seq<seq<PathCmd>>)
      requires Valid()
      modifies Repr()
      ensures forall i :: 0 <= i < |tentacles| ==>
        tentacles[i].segments[..] == Moved(old(tentacles[i].segments[..]), target, tick, tentacles[i].angleOffset, trig)
      ensures |paths| == |tentacles|
      ensures forall i :: 0 <= i < |tentacles| ==> paths[i] == Drawn(tentacles[i].segments[..], currentOpacity)
    {
      var ts, aim, clock, opacity := tentacles, target, tick, currentOpacity;
      paths := [];
      var j := 0;
      while j < |ts|
        invariant 0 <= j <= |ts| && |paths| == j
        invariant forall k :: 0 <= k < j ==>
          ts[k].segments[..] == Moved(old(ts[k].segments[..]), aim, clock, ts[k].angleOffset, trig)
        invariant forall k :: 0 <= k < j ==>
          paths[k] == Drawn(Moved(old(ts[k].segments[..]), aim, clock, ts[k].angleOffset, trig), opacity)
        invariant forall k :: j <= k < |ts| ==> ts[k].segments[..] == old(ts[k].segments[..])
      {
        var p := MoveAndDraw(ts[j], aim, clock, opacity, trig);
        paths := paths + [p];
        j := j + 1;
      }
    }

    /** Collapse every tentacle onto (x, y). */
    method ResetAll(x: real, y: real)
      requires Valid()
      modifies Repr()
      ensures forall i :: 0 <= i < |tentacles| ==> AllAt(tentacles[i].segments[..], Point(x, y))
    {
      var j := 0;
      while j < |tentacles|
        invariant 0 <= j <= |tentacles|
        invariant forall k :: 0 <= k < j ==> AllAt(tentacles[k].segments[..], Point(x, y))
      {
        tentacles[j].Reset(x, y);
        j := j + 1;
      }
    }

    /** The pointer (or first touch) moved to (x, y): when the effect was
        disengaged the tentacles first snap to the new point; in every case
        the effect becomes engaged and the target is the new point. */
    method PointerMove(x: real, y: real)
      requires Valid()
      modifies this, Repr()
      ensures Valid()
      ensures targetOpacity == 1.0 && target == Point(x, y)
      ensures tick == old(tick) && currentOpacity == old(currentOpacity) && tentacles == old(tentacles)
      ensures old(targetOpacity) == 0.0 ==>
        forall i :: 0 <= i < |tentacles| ==> AllAt(tentacles[i].segments[..], Point(x, y))
      ensures old(targetOpacity) != 0.0 ==>
        forall i :: 0 <= i < |tentacles| ==> tentacles[i].segments[..] == old(tentacles[i].segments[..])
    {
      if targetOpacity == 0.0 {
        target := Point(x, y);
        ResetAll(target.x, target.y);
      }
      targetOpacity := 1.0;
      target := Point(x, y);
    }

    /** The mousemove handler: `PointerMove` at the mouse coordinates. */
    method MouseMove(x: real, y: real)
      requires Valid()
      modifies this, Repr()
      ensures Valid()
      ensures targetOpacity == 1.0 && target == Point(x, y)
      ensures tick == old(tick) && currentOpacity == old(currentOpacity) && tentacles == old(tentacles)
      ensures old(targetOpacity) == 0.0 ==>
        forall i :: 0 <= i < |tentacles| ==> AllAt(tentacles[i].segments[..], Point(x, y))
      ensures old(targetOpacity) != 0.0 ==>
        forall i :: 0 <= i < |tentacles| ==> tentacles[i].segments[..] == old(tentacles[i].segments[..])
    {
      PointerMove(x, y);
    }

    /** The touchmove handler: `PointerMove` at the first touch's coordinates. */
    method TouchMove(x: real, y: real)
      requires Valid()
      modifies this, Repr()
      ensures Valid()
      ensures targetOpacity == 1.0 && target == Point(x, y)
      ensures tick == old(tick) && currentOpacity == old(currentOpacity) && tentacles == old(tentacles)
      ensures old(targetOpacity) == 0.0 ==>
        forall i :: 0 <= i < |tentacles| ==> AllAt(tentacles[i].segments[..], Point(x, y))
      ensures old(targetOpacity) != 0.0 ==>
        forall i :: 0 <= i < |tentacles| ==> tentacles[i].segments[..] == old(tentacles[i].segments[..])
    {
      PointerMove(x, y);
    }

    /** The pointer left the page: disengage; nothing else changes. */
    method MouseLeave()
      requires Valid()
      modifies this`targetOpacity
      ensures Valid() && targetOpacity == 0.0
    {
      targetOpacity := 0.0;
    }

    /** The last touch ended: disengage; nothing else changes. */
    method TouchEnd()
      requires Valid()
      modifies this`targetOpacity
      ensures Valid() && targetOpacity == 0.0
    {
      targetOpacity := 0.0;
    }

    /** The pointer entered the page at (x, y): engage, aim at the entry
        point and snap every tentacle onto it, whatever the previous state. */
    method MouseEnter(x: real, y: real)
      requires Valid()
      modifies this, Repr()
      ensures Valid()
      ensures targetOpacity == 1.0 && target == Point(x, y)
      ensures tick == old(tick) && currentOpacity == old(currentOpacity) && tentacles == old(tentacles)
      ensures forall i :: 0 <= i < |tentacles| ==> AllAt(tentacles[i].segments[..], Point(x, y))
    {
      targetOpacity := 1.0;
      target := Point(x, y);
      ResetAll(target.x, target.y);
    }
  }

  /** The body of the tentacle loop of a frame: move one tentacle, then draw it. */
  method MoveAndDraw(t: Tentacle, target: Point, tick: nat, opacity: real, trig: Trig) returns (p: seq<PathCmd>)
    requires t.Valid()
    modifies t.segments
    ensures t.segments[..] == Moved(old(t.segments[..]), target, tick, t.angleOffset, trig)
    ensures p == Drawn(t.segments[..], opacity)
  {
    t.Move(target.x, target.y, tick, trig);
    p := t.Draw(opacity);
  }

  /** Leaving and coming back with two pointer moves: only the first move
      after the leave snaps the tentacles; the second only retargets. */
  method Reengage(c: Controller, p: Point, q: Point)
    requires c.Valid()
    modifies c, c.Repr()
    ensures c.Valid() && c.targetOpacity == 1.0 && c.target == q
    ensures forall i :: 0 <= i < |c.tentacles| ==> AllAt(c.tentacles[i].segments[..], p)
  {
    c.MouseLeave();
    c.MouseMove(p.x, p.y);
    c.MouseMove(q.x, q.y);
  }
}
