/** Short Weierstrass curves: affine addition, Jacobian doubling and mixed addition,
    and the masked fixed-length ladder of _scalar_mult. */
module Ec {
  import opened Options
  import opened ModArith
  import opened Primes

  datatype Curve = Curve(p: int, a: int, n: nat) {
    /** An odd prime field. */
    ghost predicate Valid() { Prime(p) && p > 2 }
  }

  datatype Point = Infinity | Affine(x: int, y: int)

  /** z == 0 encodes infinity. */
  datatype Jacobian = Jacobian(x: int, y: int, z: int)

  /** pow(v, -1, p) for a prime p, which raises when p divides v. */
  function Invert(v: int, p: int): (r: Option<int>)
    requires Prime(p)
    ensures r.Some? <==> v % p != 0
  {
    if v % p == 0 then None else Some(Inverse(v % p, p))
  }

  /** The third point of the line of slope lam, mirrored. */
  function Chord(c: Curve, lam: int, x1: int, y1: int, x2: int): Point
    requires c.p > 0
  {
    var x3 := (lam * lam - x1 - x2) % c.p;
    Affine(x3, (lam * (x1 - x3) - y1) % c.p)
  }

  /** _point_add; None when the inversion raises. */
  function PointAdd(c: Curve, p1: Point, p2: Point): Option<Point>
    requires Prime(c.p)
  {
    if p1 == Infinity then Some(p2)
    else if p2 == Infinity then Some(p1)
    else if p1.x == p2.x then
      if (p1.y + p2.y) % c.p == 0 then Some(Infinity)
      else
        var i :- Invert(2 * p1.y, c.p);
        Some(Chord(c, (3 * p1.x * p1.x + c.a) * i % c.p, p1.x, p1.y, p2.x))
    else
      var i :- Invert((p2.x - p1.x) % c.p, c.p);
      Some(Chord(c, (p2.y - p1.y) * i % c.p, p1.x, p1.y, p2.x))
  }

  /** _jdouble. */
  function JDouble(c: Curve, j: Jacobian): Jacobian
    requires c.p > 0
  {
    var p := c.p;
    var xx := j.x * j.x % p;
    var yy := j.y * j.y % p;
    var yyyy := yy * yy % p;
    var zz := j.z * j.z % p;
    var s := 2 * ((j.x + yy) * (j.x + yy) - xx - yyyy) % p;
    var m := (3 * xx + c.a * zz * zz) % p;
    var t := (m * m - 2 * s) % p;
    Jacobian(t, (m * (s - t) - 8 * yyyy) % p, ((j.y + j.z) * (j.y + j.z) - yy - zz) % p)
  }

  /** _jadd_mixed; the flag says that the formula is degenerate. */
  function JAddMixed(c: Curve, j: Jacobian, x2: int, y2: int): (Jacobian, bool)
    requires c.p > 0
  {
    var p := c.p;
    var zz := j.z * j.z % p;
    var h := (x2 * zz - j.x) % p;
    var r := 2 * (y2 * j.z % p * zz - j.y) % p;
    var hh := h * h % p;
    var i := 4 * hh % p;
    var jj := h * i % p;
    var v := j.x * i % p;
    var x3 := (r * r - jj - 2 * v) % p;
    var y3 := (r * (v - x3) - 2 * j.y * jj) % p;
    var z3 := ((j.z + h) * (j.z + h) - zz - hh) % p;
    (Jacobian(x3, y3, z3), h == 0 && r == 0)
  }

  /** Left-to-right affine double-and-add over _point_add. */
  function DoubleAndAdd(c: Curve, k: nat, P: Point): Option<Point>
    requires Prime(c.p)
  {
    if k == 0 then Some(Infinity)
    else
      var half :- DoubleAndAdd(c, k / 2, P);
      var double :- PointAdd(c, half, half);
      if k % 2 == 1 then PointAdd(c, double, P) else Some(double)
  }
}
