/** Points in the plane and the easing step that every animated quantity of the
    effect uses: the tentacle head, each joint and the opacity all move a fixed
    fraction of the way toward where they are heading on each frame.
    JavaScript numbers are modelled as exact reals. */
module Geometry {

  datatype Point = Point(x: real, y: real)

  /** Squared Euclidean distance (Dafny has no square root; a distance that
      scales by c is a squared distance that scales by c * c). */
  function Dist2(p: Point, q: Point): (d: real)
    ensures d >= 0.0
    ensures p == q ==> d == 0.0
  {
    Square(p.x - q.x); Square(p.y - q.y);
    (p.x - q.x) * (p.x - q.x) + (p.y - q.y) * (p.y - q.y)
  }

  lemma Square(v: real)
    ensures v * v >= 0.0
  {
    if v < 0.0 {
      assert v * v == (-v) * (-v);
    }
  }

  lemma ProductNonneg(u: real, v: real)
    requires u >= 0.0 && v >= 0.0
    ensures u * v >= 0.0
  {
  }

  /** `a += (b - a) * f`: move the fraction f of the way from a to b. */
  function Ease(a: real, b: real, f: real): (r: real)
    // the remaining gap to b shrinks by the factor 1 - f
    ensures b - r == (1.0 - f) * (b - a)
  {
    a + (b - a) * f
  }

  /** For 0 <= f <= 1 an easing step lands between its start and its goal. */
  lemma EaseBetween(a: real, b: real, f: real)
    requires 0.0 <= f <= 1.0
    ensures a <= b ==> a <= Ease(a, b, f) <= b
    ensures b <= a ==> b <= Ease(a, b, f) <= a
  {
    if a <= b {
      ProductNonneg(b - a, f);
      ProductNonneg(b - a, 1.0 - f);
    } else {
      ProductNonneg(a - b, f);
      ProductNonneg(a - b, 1.0 - f);
    }
  }

  /** Componentwise easing of a point toward another. */
  function EaseTo(p: Point, q: Point, f: real): Point
  {
    Point(Ease(p.x, q.x, f), Ease(p.y, q.y, f))
  }

  /** Midpoint of two points. */
  function Mid(p: Point, q: Point): (m: Point)
    ensures Dist2(p, m) == Dist2(m, q)
    ensures Dist2(p, q) == 4.0 * Dist2(p, m)
  {
    var m := Point((p.x + q.x) / 2.0, (p.y + q.y) / 2.0);
    var hx, hy := (p.x - q.x) / 2.0, (p.y - q.y) / 2.0;
    assert p.x - m.x == hx == m.x - q.x && p.x - q.x == 2.0 * hx;
    assert p.y - m.y == hy == m.y - q.y && p.y - q.y == 2.0 * hy;
    assert (2.0 * hx) * (2.0 * hx) == 4.0 * (hx * hx);
    assert (2.0 * hy) * (2.0 * hy) == 4.0 * (hy * hy);
    assert Dist2(p, m) == hx * hx + hy * hy;
    assert Dist2(p, q) == 4.0 * (hx * hx) + 4.0 * (hy * hy);
    m
  }

  function Pow(b: real, k: nat): real
  {
    if k == 0 then 1.0 else b * Pow(b, k - 1)
  }

  /** Easing applied k times in a row toward a fixed b. */
  function EaseIter(a: real, b: real, f: real, k: nat): real
    decreases k
  {
    if k == 0 then a else EaseIter(Ease(a, b, f), b, f, k - 1)
  }

  /** One easing step shrinks the squared distance to the goal by (1 - f)^2;
      in particular it never grows for 0 <= f <= 1, and a point at q stays at q. */
  lemma EaseToContracts(p: Point, q: Point, f: real)
    ensures Dist2(EaseTo(p, q, f), q) == (1.0 - f) * (1.0 - f) * Dist2(p, q)
    ensures 0.0 <= f <= 1.0 ==> Dist2(EaseTo(p, q, f), q) <= Dist2(p, q)
    ensures p == q ==> EaseTo(p, q, f) == q
  {
    var r := EaseTo(p, q, f);
    var c := 1.0 - f;
    assert r.x - q.x == c * (p.x - q.x);
    assert r.y - q.y == c * (p.y - q.y);
    assert (r.x - q.x) * (r.x - q.x) == c * c * ((p.x - q.x) * (p.x - q.x));
    assert (r.y - q.y) * (r.y - q.y) == c * c * ((p.y - q.y) * (p.y - q.y));
    assert Dist2(r, q) == c * c * Dist2(p, q);
    if 0.0 <= f <= 1.0 {
      assert 0.0 <= c * c <= 1.0 by {
        assert 0.0 <= c <= 1.0;
        assert c * c <= c * 1.0;
      }
    }
  }

  lemma MulAssoc(x: real, y: real, z: real)
    ensures x * (y * z) == (y * x) * z
  {
  }

  lemma {:induction false} PowPositive(b: real, k: nat)
    requires b > 0.0
    ensures Pow(b, k) > 0.0
  {
    if k > 0 {
      PowPositive(b, k - 1);
    }
  }
}
