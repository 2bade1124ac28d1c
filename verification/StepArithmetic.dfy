/** Integer arithmetic shared by the adaptive controllers: repeated halving down to a minimum, and counting
    the whole windows in a streak. */
module StepArithmetic {

  function Max(a: int, b: int): int
  {
    if a >= b then a else b
  }

  function Min(a: int, b: int): int
  {
    if a <= b then a else b
  }

  function Pow2(k: nat): (p: nat)
    ensures p >= 1
  {
    if k == 0 then 1 else 2 * Pow2(k - 1)
  }

  lemma HalfOfQuotient(c: nat, p: nat)
    requires p >= 1
    ensures c / (2 * p) == c / p / 2
  {
    var q, r := c / p, c % p;
    var u, v := q / 2, q % 2;
    assert c == p * q + r && q == 2 * u + v;
    assert p * (2 * u + v) == (2 * p) * u + p * v;
    assert 0 <= p * v <= p;
    Quotient(c, 2 * p, u, p * v + r);
  }

  lemma Below(d: nat, a: nat, b: nat)
    ensures a < b ==> d * a + d <= d * b
  {
    if a < b {
      assert d * (a + 1) <= d * b;
    }
  }

  lemma Quotient(c: nat, d: nat, u: nat, r: nat)
    requires d >= 1 && c == d * u + r && r < d
    ensures c / d == u
  {
    assert d * (c / d) + c % d == c;
    Below(d, c / d, u);
    Below(d, u, c / d);
  }

  /** One halving step commutes with the floor at a minimum. */
  lemma HalvingStep(minimum: nat, c: nat, k: nat)
    requires minimum >= 1
    ensures Max(minimum, Max(minimum, c / Pow2(k)) / 2) == Max(minimum, c / Pow2(k + 1))
  {
    HalfOfQuotient(c, Pow2(k));
  }

  /** The whole windows of w in t, and what is left over. */
  function Windows(w: nat, t: nat): (nat, nat)
    requires w >= 1
  {
    if t < w then (0, t) else (Windows(w, t - w).0 + 1, Windows(w, t - w).1)
  }

  lemma {:induction false} NextWindow(w: nat, t: nat)
    requires w >= 1
    ensures Windows(w, t).1 < w
    ensures Windows(w, t + 1) == if Windows(w, t).1 + 1 == w then (Windows(w, t).0 + 1, 0)
      else (Windows(w, t).0, Windows(w, t).1 + 1)
  {
    if t >= w {
      NextWindow(w, t - w);
    }
  }

  lemma {:induction false} EnoughWindows(w: nat, t: nat, j: nat)
    requires w >= 1 && t >= j * w
    ensures Windows(w, t).0 >= j
  {
    if j > 0 {
      assert j * w == (j - 1) * w + w && (j - 1) * w >= 0;
      EnoughWindows(w, t - w, j - 1);
    }
  }
}
