// The orbits of x -> x + b modulo a + b, which permute_args walks one swap at
// a time.
module Cycles {

  function Gcd(a: int, b: int): (g: int)
    requires a > 0 && b > 0
    ensures 0 < g <= b
    decreases b
  {
    if a % b == 0 then b else Gcd(b, a % b)
  }

  lemma GcdOfMultiple(a: int, b: int)
    requires a > 0 && b > 0
    ensures a % b == 0 ==> Gcd(a, b) == b
    ensures a % b != 0 ==> Gcd(a, b) == Gcd(b, a % b)
  {
  }

  // Multiplication facts, kept apart from everything else.

  lemma MulAssoc(x: int, y: int, z: int)
    ensures (x * y) * z == x * (y * z)
  {
  }

  lemma MulAdd(x: int, y: int, z: int)
    ensures (x + y) * z == x * z + y * z
    ensures (x - y) * z == x * z - y * z
    ensures z * (x + y) == z * x + z * y
    ensures z * (x - y) == z * x - z * y
  {
  }

  lemma SmallMultiple(k: int, n: int)
    requires n > 0 && -n < k * n < n
    ensures k == 0
  {
    MulBound(k, n);
  }

  lemma MulBound(k: int, n: int)
    requires n > 0
    ensures k >= 1 ==> k * n >= n
    ensures k <= -1 ==> k * n <= -n
  {
  }

  lemma RemainderIs(x: int, n: int, q: int, r: int)
    requires n > 0 && x == q * n + r && 0 <= r < n
    ensures x % n == r && x / n == q
  {
    var p := x / n;
    assert x == p * n + x % n;
    MulAdd(p, q, n);
    SmallMultiple(p - q, n);
  }

  // g is a common divisor of a and b, and a combination of them.
  lemma {:induction false} Bezout(a: int, b: int) returns (p: int, q: int, u: int, v: int)
    requires a > 0 && b > 0
    ensures a == p * Gcd(a, b) && b == q * Gcd(a, b)
    ensures a * u + b * v == Gcd(a, b)
    decreases b
  {
    var r, k := a % b, a / b;
    assert a == k * b + r;
    if r == 0 {
      p, q, u, v := k, 1, 0, 1;
    } else {
      var p', q', u', v' := Bezout(b, r);
      var g := Gcd(b, r);
      MulAssoc(k, p', g);
      MulAdd(k * p', q', g);
      p, q := k * p' + q', p';
      MulAssoc(b, k, v');
      MulAdd(u', k * v', b);
      MulAdd(k * b, r, v');
      MulAssoc(k, b, v');
      MulAssoc(v', k, b);
      u, v := v', u' - k * v';
      assert b * v == b * u' - b * (k * v') by { MulAdd(u', k * v', b); }
      assert a * v' == (k * b) * v' + r * v' by { MulAdd(k * b, r, v'); }
      assert (k * b) * v' == b * (k * v') by { assert k * b == b * k; MulAssoc(b, k, v'); }
    }
  }

  // One step of the walk, on positions counted from the start of both blocks.
  function Next(a: int, b: int, x: int): int {
    if x >= a then x - a else x + b
  }

  // The walk's position after j steps from the i-th start.
  function Pos(a: int, b: int, i: int, j: int): int
    requires a > 0 && b > 0
  {
    (a + i + j * b) % (a + b)
  }

  lemma PosNext(a: int, b: int, i: int, j: int)
    requires a > 0 && b > 0
    ensures 0 <= Pos(a, b, i, j) < a + b
    ensures Pos(a, b, i, j + 1) == Next(a, b, Pos(a, b, i, j))
  {
    var n := a + b;
    var y := a + i + j * b;
    MulAdd(j, 1, b);
    assert y == y / n * n + y % n;
    if y % n >= a {
      MulAdd(y / n, 1, n);
      RemainderIs(y + b, n, y / n + 1, y % n - a);
    } else {
      RemainderIs(y + b, n, y / n, y % n + b);
    }
  }

  lemma PosDifference(a: int, b: int, i: int, j: int, i': int, j': int) returns (k: int)
    requires a > 0 && b > 0 && Pos(a, b, i, j) == Pos(a, b, i', j')
    ensures (i - i') + (j - j') * b == k * (a + b)
  {
    var n := a + b;
    var x, x' := a + i + j * b, a + i' + j' * b;
    assert x == x / n * n + x % n && x' == x' / n * n + x' % n;
    k := x / n - x' / n;
    MulAdd(x / n, x' / n, n);
    MulAdd(j, j', b);
  }

  // g divides n and b, so it divides i.
  lemma SameStart(g: int, n: int, b: int, l: int, q: int, i: int, d: int, k: int)
    requires g > 0 && n == l * g && b == q * g && -g < i < g
    requires i + d * b == k * n
    ensures i == 0
  {
    MulAssoc(k, l, g);
    MulAssoc(d, q, g);
    MulAdd(k * l, d * q, g);
    SmallMultiple(k * l - d * q, g);
  }

  // Two walks meet only at the same start and step.
  lemma {:induction false} PosInjective(a: int, b: int, l: int, i: int, j: int, i': int, j': int)
    requires a > 0 && b > 0 && l * Gcd(a, b) == a + b
    requires 0 <= i < Gcd(a, b) && 0 <= i' < Gcd(a, b) && 0 <= j < l && 0 <= j' < l
    requires Pos(a, b, i, j) == Pos(a, b, i', j')
    ensures i == i' && j == j'
  {
    var g, d := Gcd(a, b), j - j';
    var p, q, u, v := Bezout(a, b);
    var k := PosDifference(a, b, i, j, i', j');
    SameStart(g, a + b, b, l, q, i - i', d, k);
    StepsApart(a, b, l, d, k, u, v);
    var m := Multiple(d, l, g, a + b, k * (v - u) + d * u);
    SmallMultiple(m, l);
  }

  // Scaling d steps by the combination that makes g turns them into d * g.
  lemma StepsApart(a: int, b: int, l: int, d: int, k: int, u: int, v: int)
    requires d * b == k * (a + b)
    ensures d * (a * u + b * v) == (k * (v - u) + d * u) * (a + b)
  {
    var n := a + b;
    calc {
      d * (a * u + b * v);
      { assert a * u == n * u - b * u by { MulAdd(n, b, u); } MulAdd(v, u, b); }
      d * (n * u + b * (v - u));
      { MulAdd(n * u, b * (v - u), d); }
      d * (n * u) + d * (b * (v - u));
      { MulAssoc(d, b, v - u); assert n * u == u * n; MulAssoc(d, u, n); }
      (d * u) * n + (k * n) * (v - u);
      { assert (k * n) * (v - u) == (k * (v - u)) * n by { MulAssoc(k, n, v - u); MulAssoc(k, v - u, n); } }
      (d * u) * n + (k * (v - u)) * n;
      { MulAdd(d * u, k * (v - u), n); }
      (k * (v - u) + d * u) * n;
    }
  }

  lemma Multiple(d: int, l: int, g: int, n: int, m: int) returns (r: int)
    requires g > 0 && n == l * g && d * g == m * n
    ensures r == m && d == m * l
  {
    r := m;
    MulAssoc(m, l, g);
    MulAdd(d, m * l, g);
    SmallMultiple(d - m * l, g);
  }

  // Every position is met: from the start in its residue class, after a number
  // of steps below l.
  lemma {:induction false} PosSurjective(a: int, b: int, l: int, x: int) returns (i: int, j: int)
    requires a > 0 && b > 0 && l * Gcd(a, b) == a + b && 0 <= x < a + b
    ensures 0 <= i < Gcd(a, b) && 0 <= j < l && Pos(a, b, i, j) == x
  {
    var n, g := a + b, Gcd(a, b);
    var p, q, u, v := Bezout(a, b);
    MulBound(l, g);
    var m := (x - a) / g;
    i := (x - a) % g;
    assert x - a == m * g + i;
    var w := m * (v - u);
    j := w % l;
    assert w == w / l * l + j;
    StepsToMultiple(a, b, g, l, q, u, v, m, w / l, j);
    RemainderIs(a + i + j * b, n, -(m * u) - w / l * q, x);
  }

  lemma StepsToMultiple(a: int, b: int, g: int, l: int, q: int, u: int, v: int, m: int, k: int, j: int)
    requires a * u + b * v == g && l * g == a + b && b == q * g
    requires m * (v - u) == k * l + j
    ensures m * g + (-(m * u) - k * q) * (a + b) == j * b
  {
    var n := a + b;
    calc {
      j * b;
      { MulAdd(m * (v - u), k * l, b); }
      (m * (v - u)) * b - (k * l) * b;
      { assert (k * l) * b == (k * q) * n by { MulAssoc(k, l, b); MulAssoc(k, q, n); CrossMul(l, b, q, n, g); } }
      (m * (v - u)) * b - (k * q) * n;
      { MulAssoc(m, v - u, b); assert (v - u) * b == g - u * n by { MulAdd(v, u, b); MulAdd(a, b, u); } }
      m * (g - u * n) - (k * q) * n;
      { MulAdd(g, u * n, m); MulAssoc(m, u, n); }
      m * g - (m * u) * n - (k * q) * n;
      { MulAdd(-(m * u), k * q, n); }
      m * g + (-(m * u) - k * q) * n;
    }
  }

  lemma CrossMul(l: int, b: int, q: int, n: int, g: int)
    requires n == l * g && b == q * g
    ensures l * b == q * n
  {
    MulAssoc(l, q, g);
    MulAssoc(q, l, g);
  }

  ghost predicate At(a: int, b: int, l: int, x: int, i: int, j: int)
    requires a > 0 && b > 0
  {
    0 <= i < Gcd(a, b) && 0 <= j < l && Pos(a, b, i, j) == x
  }

  lemma AtExists(a: int, b: int, l: int, x: int)
    requires a > 0 && b > 0 && l * Gcd(a, b) == a + b && 0 <= x < a + b
    ensures exists i, j :: At(a, b, l, x, i, j)
  {
    var i, j := PosSurjective(a, b, l, x);
    assert At(a, b, l, x, i, j);
  }

  // The start and the step at which position x is met.
  ghost function Where(a: int, b: int, l: int, x: int): (r: (int, int))
    requires a > 0 && b > 0 && l * Gcd(a, b) == a + b && 0 <= x < a + b
    ensures At(a, b, l, x, r.0, r.1)
  {
    AtExists(a, b, l, x);
    var i, j :| At(a, b, l, x, i, j);
    (i, j)
  }

  lemma WhereIs(a: int, b: int, l: int, i: int, j: int)
    requires a > 0 && b > 0 && l * Gcd(a, b) == a + b && 0 <= i < Gcd(a, b) && 0 <= j < l
    ensures 0 <= Pos(a, b, i, j) < a + b && Where(a, b, l, Pos(a, b, i, j)) == (i, j)
  {
    PosNext(a, b, i, j);
    var x := Pos(a, b, i, j);
    var w := Where(a, b, l, x);
    PosInjective(a, b, l, i, j, w.0, w.1);
  }

  lemma PosWraps(a: int, b: int, l: int, i: int)
    requires a > 0 && b > 0 && l * Gcd(a, b) == a + b && 0 <= i < b
    ensures Pos(a, b, i, l) == Pos(a, b, i, 0) == a + i
  {
    var p, q, u, v := Bezout(a, b);
    CrossMul(l, b, q, a + b, Gcd(a, b));
    RemainderIs(a + i + l * b, a + b, q, a + i);
    RemainderIs(a + i + 0 * b, a + b, 0, a + i);
  }

  // The walk stays with its start and meets the positions in turn.
  lemma {:induction false} WhereNext(a: int, b: int, l: int, x: int)
    requires a > 0 && b > 0 && l * Gcd(a, b) == a + b && 0 <= x < a + b
    ensures 0 <= Next(a, b, x) < a + b
    ensures var w := Where(a, b, l, x);
            Where(a, b, l, Next(a, b, x)) == (w.0, if w.1 + 1 < l then w.1 + 1 else 0)
  {
    var w := Where(a, b, l, x);
    PosNext(a, b, w.0, w.1);
    if w.1 + 1 < l {
      WhereIs(a, b, l, w.0, w.1 + 1);
    } else {
      PosWraps(a, b, l, w.0);
      WhereIs(a, b, l, w.0, 0);
    }
  }
}
