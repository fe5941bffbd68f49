// Integer facts shared by the models.
module Arithmetic {

  function Min(a: int, b: int): int { if a <= b then a else b }

  function Max(a: int, b: int): int { if a >= b then a else b }

  lemma {:induction false} MulMono(a: nat, b: nat, m: nat)
    requires a <= b
    ensures 0 <= a * m <= b * m
  {
  }

  lemma {:induction false} OneMore(k: int, m: int)
    ensures (k + 1) * m == k * m + m
  {
  }
}
