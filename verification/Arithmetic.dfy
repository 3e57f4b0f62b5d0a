/** Division with a symbolic divisor, in small steps. */
module Arithmetic {

  lemma {:induction false} MulAtLeast(a: int, s: int)
    requires a >= 1 && s > 0
    ensures a * s >= s
    decreases a
  {
    if a > 1 { MulAtLeast(a - 1, s); }
  }

  lemma Distribute(a: int, b: int, s: int)
    ensures (a - b) * s == a * s - b * s
    ensures (a + b) * s == a * s + b * s
  {
  }

  /** Different multiples are a whole factor apart. */
  lemma Apart(a: int, b: int, s: int)
    requires s > 0
    ensures a > b ==> a * s >= b * s + s
  {
    if a > b {
      MulAtLeast(a - b, s);
      Distribute(a, b, s);
    }
  }

  lemma Unique(q: int, m: int, k: int, r: int, s: int)
    requires s > 0 && 0 <= r < s && 0 <= m < s && q * s + m == k * s + r
    ensures q == k && m == r
  {
    Apart(q, k, s);
    Apart(k, q, s);
  }

  lemma DivUnique(k: int, r: int, s: int)
    requires s > 0 && 0 <= r < s
    ensures (k * s + r) / s == k && (k * s + r) % s == r
  {
    var i := k * s + r;
    Unique(i / s, i % s, k, r, s);
  }

  lemma DivBelow(i: int, n: int, s: int)
    requires s > 0 && 0 <= i < n * s
    ensures 0 <= i / s < n && 0 <= i % s < s && i == (i / s) * s + i % s
  {
    Apart(i / s, n - 1, s);
    Apart(0, i / s, s);
    Distribute(n, 1, s);
  }

  lemma DivAbove(j: int, n: int, s: int)
    requires s > 0 && n * s <= j
    ensures n <= j / s
  {
    var q, r := j / s, j % s;
    assert j == q * s + r && r < s;
    Apart(n, q, s);
  }

  lemma Associate(a: int, b: int, s: int)
    ensures a * b * s == a * (b * s)
  {
  }

  /** Dividing in two steps: (i / s) mod n is (i mod n s) / s. */
  lemma DivMod(i: int, n: int, s: int)
    requires s > 0 && n > 0 && i >= 0 && n * s > 0
    ensures (i / s) % n == (i % (n * s)) / s && (i % (n * s)) % s == i % s
  {
    var q, r := i / s, i % s;
    var a, b := q / n, q % n;
    Distribute(a * n, b, s);
    Associate(a, n, s);
    assert i == a * (n * s) + (b * s + r);
    Apart(n, b, s);
    Apart(b, -1, s);
    DivUnique(a, b * s + r, n * s);
    DivUnique(b, r, s);
  }

  /** The next multiple of m above a number that is none. */
  lemma AlignUp(x: int, m: int)
    requires m > 0 && x % m != 0
    ensures (x + (m - x % m)) % m == 0 && 0 < m - x % m < m
  {
    var q, r := x / m, x % m;
    Distribute(q, 1, m);
    assert x + (m - r) == (q + 1) * m + 0;
    DivUnique(q + 1, 0, m);
  }

  lemma AlignUpLeast(x: int, m: int, a: int)
    requires m > 0 && x % m != 0 && a % m == 0 && a >= x
    ensures a >= x + (m - x % m)
  {
    var q, r, k := x / m, x % m, a / m;
    assert x == q * m + r && a == k * m;
    Apart(k, q, m);
    Apart(q, k, m);
  }
}
