/** Axis-aligned rectangles as CoreGraphics' CGRect has them, over the reals. */
module Geometry {

  datatype Size = Size(width: real, height: real)

  /** A CGRect: an origin and an extent that may be negative. */
  datatype Rect = Rect(x: real, y: real, width: real, height: real)

  // CGRect's minX, maxX, width (and the same for y) read the rectangle as if
  // it were standardized, that is, as if its extent were made non-negative.

  function MinX(r: Rect): real { if r.width >= 0.0 then r.x else r.x + r.width }
  function MaxX(r: Rect): real { if r.width >= 0.0 then r.x + r.width else r.x }
  function Width(r: Rect): real { if r.width >= 0.0 then r.width else -r.width }
  function MinY(r: Rect): real { if r.height >= 0.0 then r.y else r.y + r.height }
  function MaxY(r: Rect): real { if r.height >= 0.0 then r.y + r.height else r.y }
  function Height(r: Rect): real { if r.height >= 0.0 then r.height else -r.height }

  /** CGRect.intersects, taken to be the strict overlap of the two rectangles'
      open x-intervals and open y-intervals. */
  predicate Intersects(a: Rect, b: Rect)
    ensures Intersects(a, b) && NonEmpty(a) && NonEmpty(b) ==>
      var px, py := Larger(MinX(a), MinX(b)), Larger(MinY(a), MinY(b));
      Covers(a, px, py) && Covers(b, px, py)
  {
    && MinX(a) < MaxX(b) && MinX(b) < MaxX(a)
    && MinY(a) < MaxY(b) && MinY(b) < MaxY(a)
  }

  /** The point lies in the rectangle's half-open area [minX, maxX) x [minY, maxY). */
  predicate Covers(r: Rect, px: real, py: real)
  {
    MinX(r) <= px < MaxX(r) && MinY(r) <= py < MaxY(r)
  }

  function Larger(u: real, v: real): real
  {
    if u >= v then u else v
  }

  /** The rectangle has a positive width and a positive height. */
  predicate NonEmpty(r: Rect)
  {
    Width(r) > 0.0 && Height(r) > 0.0
  }

  /** Rectangles sharing a point intersect; non-empty rectangles intersect
      exactly when they share a point. */
  lemma IntersectsIffCommonPoint(a: Rect, b: Rect)
    ensures (exists px, py :: Covers(a, px, py) && Covers(b, px, py)) ==> Intersects(a, b)
    ensures NonEmpty(a) && NonEmpty(b) ==>
      (Intersects(a, b) <==> exists px, py :: Covers(a, px, py) && Covers(b, px, py))
  {
    if Intersects(a, b) && NonEmpty(a) && NonEmpty(b) {
      var px, py := Larger(MinX(a), MinX(b)), Larger(MinY(a), MinY(b));
      assert Covers(a, px, py) && Covers(b, px, py);
    }
  }

  /** The rectangle lies within [0, width] x [0, height]. */
  predicate Inside(r: Rect, width: real, height: real)
  {
    0.0 <= MinX(r) && MaxX(r) <= width && 0.0 <= MinY(r) && MaxY(r) <= height
  }
}

/** Arithmetic about the row-major flattening of a two-dimensional index. */
module GridIndex {

  /** The flat subscript of position (a, b) in rows of n: a * n + b. */
  function Flat(a: nat, b: nat, n: nat): nat
  {
    a * n + b
  }

  /** Position (a, b), with b < n, of an m-by-n block lies inside the block. */
  lemma FlatIndexInRange(a: nat, b: nat, n: nat, m: nat)
    requires a < m && b < n
    ensures a * n + b < m * n
  {
    assert a * n + b < a * n + n == (a + 1) * n;
    assert (a + 1) * n <= m * n by { MultiplyMonotone(a + 1, m, n); }
  }

  lemma MultiplyMonotone(p: nat, q: nat, n: nat)
    requires p <= q
    ensures p * n <= q * n
  {
    assert q * n == p * n + (q - p) * n;
  }

  /** Position (a, b) with b < n is recovered from its flat index a * n + b. */
  lemma FlatIndexDecodes(a: nat, b: nat, n: nat)
    requires b < n
    ensures (a * n + b) / n == a && (a * n + b) % n == b
  {
    var k := a * n + b;
    var q, r := k / n, k % n;
    assert k == q * n + r && 0 <= r < n;
    if q < a {
      MultiplyMonotone(q + 1, a, n);
      assert false;
    } else if q > a {
      MultiplyMonotone(a + 1, q, n);
      assert false;
    }
  }

  /** Two positions of a block with rows of n share no flat index. */
  lemma FlatIndexInjective(a1: nat, b1: nat, a2: nat, b2: nat, n: nat)
    requires b1 < n && b2 < n && Flat(a1, b1, n) == Flat(a2, b2, n)
    ensures a1 == a2 && b1 == b2
  {
    FlatIndexDecodes(a1, b1, n);
    FlatIndexDecodes(a2, b2, n);
  }

  /** Every flat index k < m * n is exactly one position (k / n, k % n) of the block. */
  lemma FlatIndexEncodes(k: nat, n: nat, m: nat)
    requires k < m * n
    ensures n > 0 && k / n < m && k % n < n && (k / n) * n + k % n == k
  {
    if n == 0 {
      assert false;
    } else if k / n >= m {
      MultiplyMonotone(m, k / n, n);
      assert false;
    }
  }
}
