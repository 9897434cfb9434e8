/**
  Exact two- and three-component vectors over the reals, standing in for the
  single-precision glm::vec2 / glm::vec3 operations the line geometry uses.
 */
module Vec {

  datatype Vec2 = Vec2(x: real, y: real)

  datatype Vec3 = Vec3(x: real, y: real, z: real)

  function Add(a: Vec2, b: Vec2): Vec2 {
    Vec2(a.x + b.x, a.y + b.y)
  }

  function Sub(a: Vec2, b: Vec2): Vec2 {
    Vec2(a.x - b.x, a.y - b.y)
  }

  function Neg(a: Vec2): Vec2 {
    Vec2(-a.x, -a.y)
  }

  function Scale(a: Vec2, k: real): Vec2 {
    Vec2(a.x * k, a.y * k)
  }

  function Dot(a: Vec2, b: Vec2): real {
    a.x * b.x + a.y * b.y
  }

  /** The z-component of the 3D cross product of (a, 0) and (b, 0). */
  function PerpDot(a: Vec2, b: Vec2): real {
    a.x * b.y - a.y * b.x
  }

  /** glm::cross on three-component vectors. */
  function Cross3(a: Vec3, b: Vec3): Vec3 {
    Vec3(a.y * b.z - a.z * b.y, a.z * b.x - a.x * b.z, a.x * b.y - a.y * b.x)
  }

  /** A dot product is affine along a parametrised point p + t*e. */
  lemma DotAlong(n: Vec2, p: Vec2, e: Vec2, t: real)
    ensures Dot(n, Add(p, Scale(e, t))) == Dot(n, p) + t * Dot(n, e)
  {
  }

  /** A square is never negative. */
  lemma Square(x: real)
    ensures x * x >= 0.0
  {
    if x < 0.0 {
      assert x * x == (-x) * (-x);
    }
  }

  /** The square of a non-zero real is positive. */
  lemma SquarePositive(x: real)
    requires x != 0.0
    ensures x * x > 0.0
  {
    if x < 0.0 {
      assert x * x == (-x) * (-x);
    }
  }

  /** A product of reals is zero only when a factor is. */
  lemma ZeroProduct(x: real, y: real)
    requires x * y == 0.0
    ensures x == 0.0 || y == 0.0
  {
    if y != 0.0 {
      assert x == (x * y) / y;
    }
  }

  /** A product of non-zero reals is non-zero. */
  lemma NonZeroProduct(x: real, y: real)
    requires x != 0.0 && y != 0.0
    ensures x * y != 0.0
  {
    assert (x * y) / y == x;
  }

  /** Scaling the second argument of a dot product scales the product. */
  lemma DotScale(n: Vec2, e: Vec2, k: real)
    ensures Dot(n, Scale(e, k)) == k * Dot(n, e)
  {
  }

  /** Negating a vector keeps its squared magnitude. */
  lemma DotNeg(a: Vec2)
    ensures Dot(Neg(a), Neg(a)) == Dot(a, a)
  {
    assert (-a.x) * (-a.x) == a.x * a.x;
    assert (-a.y) * (-a.y) == a.y * a.y;
  }

  /** A squared magnitude is never negative, and positive unless the vector is zero. */
  lemma DotSelf(a: Vec2)
    ensures Dot(a, a) >= 0.0
    ensures a != Vec2(0.0, 0.0) ==> Dot(a, a) > 0.0
  {
    calc {
      Dot(a, a);
      a.x * a.x + a.y * a.y;
    >= { Square(a.x); Square(a.y); }
      0.0;
    }
    if a.x != 0.0 {
      calc {
        Dot(a, a);
        a.x * a.x + a.y * a.y;
      > { SquarePositive(a.x); Square(a.y); }
        0.0;
      }
    } else if a.y != 0.0 {
      calc {
        Dot(a, a);
        a.x * a.x + a.y * a.y;
      > { Square(a.x); SquarePositive(a.y); }
        0.0;
      }
    }
  }

  /**
    Two lines with normals n1 and n2 that are not parallel meet in at most one
    point: if p and q both satisfy both line equations, they coincide.
   */
  lemma {:induction false} NonParallelLinesMeetOnce(n1: Vec2, n2: Vec2, p: Vec2, q: Vec2)
    requires PerpDot(n1, n2) != 0.0
    requires Dot(n1, p) == Dot(n1, q) && Dot(n2, p) == Dot(n2, q)
    ensures p == q
  {
    var w := Sub(p, q);
    assert n1.x * w.x + n1.y * w.y == 0.0;
    assert n2.x * w.x + n2.y * w.y == 0.0;
    calc {
      PerpDot(n1, n2) * w.x;
      n2.y * (n1.x * w.x + n1.y * w.y) - n1.y * (n2.x * w.x + n2.y * w.y);
      0.0;
    }
    calc {
      PerpDot(n1, n2) * w.y;
      n1.x * (n2.x * w.x + n2.y * w.y) - n2.x * (n1.x * w.x + n1.y * w.y);
      0.0;
    }
  }
}
