/** Counting the numbers below a bound that satisfy a predicate, by equal groups. */
module Counting {

  ghost function Count(p: nat -> bool, n: nat): nat {
    if n == 0 then 0 else Count(p, n - 1) + if p(n - 1) then 1 else 0
  }

  /** Hits among the `n` numbers from `a` on. */
  ghost function InGroup(p: nat -> bool, a: nat, n: nat): nat {
    if n == 0 then 0 else InGroup(p, a, n - 1) + if p(a + n - 1) then 1 else 0
  }

  lemma {:induction false} CountGroup(p: nat -> bool, a: nat, n: nat)
    ensures Count(p, a + n) == Count(p, a) + InGroup(p, a, n)
  {
    if n > 0 {
      CountGroup(p, a, n - 1);
    }
  }

  /** If every group of `s` numbers holds `c` hits where `q` holds of the group and none elsewhere, the hits
      below s * n are `c` times the groups below n where `q` holds. */
  lemma {:induction false} CountByGroups(p: nat -> bool, q: nat -> bool, s: nat, c: nat, n: nat)
    requires forall g: nat {:trigger q(g)} :: g < n ==> InGroup(p, s * g, s) == if q(g) then c else 0
    ensures Count(p, s * n) == c * Count(q, n)
  {
    hide Count, InGroup;
    if n == 0 {
      NoneBelowZero(p, s);
      NoneBelowZero(q, c);
    } else {
      var g := n - 1;
      CountByGroups(p, q, s, c, g);
      CountGroup(p, s * g, s);
      CountLast(q, g);
      assert InGroup(p, s * g, s) == if q(g) then c else 0;
      Distribute(s, g, 1);
      Distribute(c, Count(q, g), if q(g) then 1 else 0);
    }
  }

  lemma NoneBelowZero(p: nat -> bool, s: nat)
    ensures Count(p, s * 0) == 0 && Count(p, 0) == 0
  {
  }

  lemma CountLast(p: nat -> bool, n: nat)
    ensures Count(p, n + 1) == Count(p, n) + if p(n) then 1 else 0
  {
  }

  lemma Distribute(s: nat, a: nat, b: nat)
    ensures s * (a + b) == s * a + s * b
  {
  }

  lemma QuotientStep(v: nat, r: nat)
    requires r > 0
    ensures v % r == r - 1 ==> (v + 1) / r == v / r + 1 && (v + 1) % r == 0
    ensures v % r < r - 1 ==> (v + 1) / r == v / r && (v + 1) % r == v % r + 1
  {
    var q, m := v / r, v % r;
    assert v == r * q + m;
    if m == r - 1 {
      assert v + 1 == r * (q + 1) + 0;
      Unique(v + 1, r, q + 1, 0);
    } else {
      assert v + 1 == r * q + (m + 1);
      Unique(v + 1, r, q, m + 1);
    }
  }

  lemma Unique(v: nat, r: nat, q: nat, m: nat)
    requires v == r * q + m && m < r
    ensures v / r == q && v % r == m
  {
    var w := v / r;
    assert v == r * w + v % r;
    if w < q {
      Multiples(r, w, q);
    } else if q < w {
      Multiples(r, q, w);
    }
  }

  lemma Multiples(r: nat, a: nat, b: nat)
    requires a < b
    ensures r * a + r <= r * b
  {
    Distribute(r, a + 1, b - a - 1);
    Distribute(r, a, 1);
  }

  /** How many numbers below `n` leave the remainder `x`. */
  lemma {:induction false} CountResidue(p: nat -> bool, r: nat, x: nat, n: nat)
    requires r > 0 && x < r && forall v: nat {:trigger p(v)} :: v < n ==> (p(v) <==> v % r == x)
    ensures Count(p, n) == n / r + if x < n % r then 1 else 0
  {
    if n == 0 {
      Unique(0, r, 0, 0);
    } else {
      CountResidue(p, r, x, n - 1);
      QuotientStep(n - 1, r);
      assert p(n - 1) <==> (n - 1) % r == x;
    }
  }

  function CeilDiv(a: nat, b: nat): nat
    requires b > 0
  {
    a / b + if a % b == 0 then 0 else 1
  }
}
