/** Powers of two, and the optional results shared by the allocator models. */
module Powers {

  datatype Option<+T> = None | Some(value: T)

  const PAGE_SIZE: nat := 4096

  function Pow2(n: nat): (p: nat)
    ensures p >= 1
  {
    if n == 0 then 1 else 2 * Pow2(n - 1)
  }

  lemma {:induction false} Pow2Monotone(m: nat, n: nat)
    requires m <= n
    ensures Pow2(m) <= Pow2(n)
    ensures m < n ==> 2 * Pow2(m) <= Pow2(n)
    decreases n
  {
    if m < n {
      Pow2Monotone(m, n - 1);
    }
  }

  lemma Pow2Double(e: nat)
    ensures Pow2(0) == 1 && Pow2(e + 1) == 2 * Pow2(e)
  {
  }

  lemma {:induction false} Pow2Injective(m: nat, n: nat)
    requires Pow2(m) == Pow2(n)
    ensures m == n
  {
    if m < n {
      Pow2Monotone(m, n);
    } else if n < m {
      Pow2Monotone(n, m);
    }
  }

  lemma {:induction false} Pow2Sum(m: nat, n: nat)
    ensures Pow2(m + n) == Pow2(m) * Pow2(n)
  {
    if m > 0 {
      Pow2Sum(m - 1, n);
      assert Pow2(m + n) == 2 * Pow2((m - 1) + n);
      assert (2 * Pow2(m - 1)) * Pow2(n) == 2 * (Pow2(m - 1) * Pow2(n));
    }
  }

  ghost predicate IsPow2(x: nat) {
    exists e: nat :: x == Pow2(e)
  }

  /** The exponent of the largest power of two not above `x`. */
  function Log2(x: nat): (e: nat)
    requires x > 0
    ensures Pow2(e) <= x < Pow2(e + 1)
  {
    if x == 1 then 0 else 1 + Log2(x / 2)
  }

  lemma Log2Unique(x: nat, e: nat)
    requires Pow2(e) <= x < Pow2(e + 1)
    ensures x > 0 && Log2(x) == e
  {
    if Log2(x) < e {
      Pow2Monotone(Log2(x) + 1, e);
    } else if e < Log2(x) {
      Pow2Monotone(e + 1, Log2(x));
    }
  }

  /** The least power of two not below `x`, the reference for both size roundings. */
  function CeilPow2(x: nat): (p: nat)
    requires x > 0
    ensures IsPow2(p) && x <= p < 2 * x
  {
    var p := Pow2(Log2(x));
    if p == x then p else assert Pow2(Log2(x) + 1) == 2 * p; 2 * p
  }

  lemma CeilPow2Least(x: nat, e: nat)
    requires x > 0 && x <= Pow2(e)
    ensures CeilPow2(x) <= Pow2(e)
  {
    var l := Log2(x);
    if e < l {
      Pow2Monotone(e, l);
    } else if l < e {
      Pow2Monotone(l, e);
    }
  }

  lemma CeilPow2Unique(x: nat, p: nat)
    requires x > 0 && IsPow2(p) && x <= p < 2 * x
    ensures p == CeilPow2(x)
  {
    var e: nat :| p == Pow2(e);
    var f: nat :| CeilPow2(x) == Pow2(f);
    CeilPow2Least(x, e);
    if f < e {
      Pow2Monotone(f, e);
    } else if e < f {
      Pow2Monotone(e, f);
      CeilPow2Least(x, e);
    }
  }

  // ----- multiples -----

  lemma MulLe(a: nat, b: nat, u: nat)
    requires a <= b
    ensures a * u <= b * u
  {
  }

  lemma NextMultiple(i: nat, j: nat, u: nat)
    requires i < j
    ensures i * u + u <= j * u
  {
    MulLe(i + 1, j, u);
    assert (i + 1) * u == i * u + u;
  }

  lemma DivBounds(x: nat, d: nat, lo: nat, hi: nat)
    requires d > 0 && lo * d <= x < hi * d
    ensures lo <= x / d < hi && (x / d) * d <= x
  {
    var q := x / d;
    if q < lo {
      MulLe(q + 1, lo, d);
    } else if q >= hi {
      MulLe(hi, q, d);
    }
  }

  lemma QuotientUnique(x: nat, p: nat, q: nat, r: nat)
    requires p > 0 && x == q * p + r && r < p
    ensures x / p == q && x % p == r
  {
    if x / p < q {
      MulLe(x / p + 1, q, p);
    } else if x / p > q {
      MulLe(q + 1, x / p, p);
    }
  }

  lemma ModProduct(q: nat, p: nat)
    requires p > 0
    ensures (q * p) % p == 0 && q * p / p == q
  {
    QuotientUnique(q * p, p, q, 0);
  }

  lemma AlignedInOne(o: nat, p: nat)
    requires p > 0
    ensures o == 0 <==> o % p == 0 && o + p <= p
  {
  }

  lemma MultipleBelow(o: nat, p: nat, m: nat)
    requires p > 0 && o < m * p
    ensures o % p == 0 ==> o + p <= m * p
  {
    var q := o / p;
    if q < m {
      MulLe(q + 1, m, p);
    } else {
      MulLe(m, q, p);
    }
  }

  lemma ModShift(o: nat, p: nat, m: nat)
    requires p > 0 && o >= m * p
    ensures (o - m * p) % p == o % p
  {
    var q, r := (o - m * p) / p, (o - m * p) % p;
    assert o == (q + m) * p + r;
    QuotientUnique(o, p, q + m, r);
  }
}
