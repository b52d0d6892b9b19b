/** Division facts that the solver does not find by itself for a variable divisor. */
module Arith {
  lemma {:induction false} MulAtLeast(k: int, p: int)
    requires k >= 1 && p >= 0
    ensures k * p >= p
  {
  }

  lemma {:induction false} MulSign(k: int, p: int)
    requires p > 0
    ensures (k >= 1 ==> k * p >= p) && (k <= -1 ==> k * p <= -p)
  {
  }

  /** Quotient and remainder are determined by their defining equation. */
  lemma {:induction false} DivModUnique(a: int, p: int, q: int, r: int)
    requires p > 0 && a == q * p + r && 0 <= r < p
    ensures a / p == q && a % p == r
  {
    var q', r' := a / p, a % p;
    assert a == p * q' + r';
    assert (q - q') * p == r' - r;
    MulSign(q - q', p);
  }

  lemma {:induction false} DivMod(a: int, p: int)
    requires p > 0
    ensures a == (a / p) * p + a % p && 0 <= a % p < p
  {
  }

  lemma {:induction false} MultipleMod(k: int, p: int)
    requires p > 0
    ensures (k * p) % p == 0 && (k * p) / p == k
  {
    DivModUnique(k * p, p, k, 0);
  }

  /** The remainder modulo a machine word, by repeated wrap-around: a name that keeps division out
      of contracts. */
  function Low(a: int, word: nat): (r: nat)
    requires word > 0
    ensures r < word
    decreases if a < 0 then word - a else a
  {
    if a < 0 then Low(a + word, word) else if a < word then a else Low(a - word, word)
  }

  lemma {:induction false} LowIs(a: int, word: nat)
    requires word > 0
    ensures Low(a, word) == a % word
    decreases if a < 0 then word - a else a
  {
    var q := if a < 0 then -1 else if a < word then 0 else 1;
    if q != 0 {
      LowIs(a - q * word, word);
      DivMod(a - q * word, word);
      DivModUnique(a, word, (a - q * word) / word + q, (a - q * word) % word);
    } else {
      DivModUnique(a, word, 0, a);
    }
  }
}
