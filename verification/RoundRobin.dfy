/** Counting visits to positions of a ring. */
module RoundRobin {

  /** Quotient and remainder are determined by their defining equation. */
  lemma DivModUnique(x: int, n: int, q: int, r: int)
    requires n > 0 && 0 <= r < n && x == q * n + r
    ensures x / n == q && x % n == r
  {
    var d := q - x / n;
    assert x == (x / n) * n + x % n;
    assert d * n == x % n - r;
    assert d >= 1 ==> d * n >= n;
    assert d <= -1 ==> d * n <= -n;
  }

  lemma DivModNext(x: nat, n: nat)
    requires n > 0
    ensures x % n + 1 < n ==> (x + 1) / n == x / n && (x + 1) % n == x % n + 1
    ensures x % n + 1 == n ==> (x + 1) / n == x / n + 1 && (x + 1) % n == 0
  {
    if x % n + 1 < n {
      DivModUnique(x + 1, n, x / n, x % n + 1);
    } else {
      assert x + 1 == (x / n) * n + n == (x / n + 1) * n;
      DivModUnique(x + 1, n, x / n + 1, 0);
    }
  }

  lemma ModOfSum(a: int, b: int, n: int)
    requires n > 0
    ensures (a + b) % n == (a % n + b % n) % n
  {
    var s := a % n + b % n;
    var q := a / n + b / n + s / n;
    assert a + b == (a / n) * n + (b / n) * n + (s / n) * n + s % n;
    assert a + b == q * n + s % n;
    DivModUnique(a + b, n, q, s % n);
  }

  /** Advancing by `m` comes back to the same position exactly when the ring size divides `m`. */
  lemma ReturnsIffDivides(start: nat, m: nat, n: nat)
    requires n > 0
    ensures (start + m) % n == start % n <==> m % n == 0
  {
    ModOfSum(start, m, n);
    var r, d := start % n, m % n;
    if r + d < n {
      DivModUnique(r + d, n, 0, r + d);
    } else {
      DivModUnique(r + d, n, 1, r + d - n);
    }
  }

  /** How many of the positions `start + 1`, ..., `start + m` of a ring of `n` are `p`. */
  function Visits(start: nat, m: nat, n: nat, p: nat): nat
    requires n > 0
  {
    if m == 0 then 0
    else Visits(start, m - 1, n, p) + if (start + m) % n == p then 1 else 0
  }

  /** Steps from position `start + 1` forward to position `p`. */
  function Distance(start: nat, n: nat, p: nat): (d: nat)
    requires p < n
    ensures d < n
  {
    (p - start - 1) % n
  }

  lemma SameSumSameTerm(s: nat, a: nat, b: nat, n: nat)
    requires s < n && a < n && b < n
    ensures (s + a) % n == (s + b) % n <==> a == b
  {
    if s + a < n { DivModUnique(s + a, n, 0, s + a); } else { DivModUnique(s + a, n, 1, s + a - n); }
    if s + b < n { DivModUnique(s + b, n, 0, s + b); } else { DivModUnique(s + b, n, 1, s + b - n); }
  }

  lemma ReachesAtDistance(start: nat, m: nat, n: nat, p: nat)
    requires p < n
    ensures (start + m + 1) % n == p <==> m % n == Distance(start, n, p)
  {
    var d := Distance(start, n, p);
    ModOfSum(start + 1, p - start - 1, n);
    assert (start + 1 + (p - start - 1)) % n == p % n == p by { DivModUnique(p, n, 0, p); }
    ModOfSum(start + 1, m, n);
    var s := (start + 1) % n;
    assert (s + d) % n == p && (s + m % n) % n == (start + m + 1) % n;
    SameSumSameTerm(s, d, m % n, n);
  }

  /** The exact count: every full turn visits a position once, the last partial turn only the nearest ones. */
  lemma {:induction false} VisitCount(start: nat, m: nat, n: nat, p: nat)
    requires p < n
    ensures Visits(start, m, n, p) == m / n + if Distance(start, n, p) < m % n then 1 else 0
  {
    if m == 0 {
      DivModUnique(0, n, 0, 0);
    } else {
      VisitCount(start, m - 1, n, p);
      ReachesAtDistance(start, m - 1, n, p);
      DivModNext(m - 1, n);
    }
  }

  lemma FullTurn(m: nat, n: nat)
    requires n > 0
    ensures m / n >= 1 <==> m >= n
  {
    if m < n {
      DivModUnique(m, n, 0, m);
    } else {
      DivModUnique(m, n, (m - n) / n + 1, (m - n) % n);
    }
  }

  /** Visits are fair: any two positions differ by at most one, and a full turn misses none. */
  lemma VisitsAreFair(start: nat, m: nat, n: nat, p: nat, q: nat)
    requires p < n && q < n
    ensures Visits(start, m, n, p) <= Visits(start, m, n, q) + 1
    ensures m >= n ==> Visits(start, m, n, p) >= 1
    ensures m % n == 0 ==> Visits(start, m, n, p) == m / n
  {
    VisitCount(start, m, n, p);
    VisitCount(start, m, n, q);
    FullTurn(m, n);
  }
}
