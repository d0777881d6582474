// Shared vocabulary: optional values and sums over finite sets.
module Common {

  datatype Option<+T> = None | Some(value: T)

  function Min(a: int, b: int): int {
    if a <= b then a else b
  }

  function Max(a: int, b: int): int {
    if a >= b then a else b
  }

  function Pow2(n: nat): (p: nat)
    ensures p >= 1
  {
    if n == 0 then 1 else 2 * Pow2(n - 1)
  }
}

// Sums of an integer-valued function over a finite set.
module Sums {

  ghost function Sum<K>(ks: set<K>, f: K -> int): int {
    if ks == {} then 0
    else
      var k :| k in ks;
      f(k) + Sum(ks - {k}, f)
  }

  // The sum does not depend on which element is taken out first.
  lemma {:induction false} Pick<K>(ks: set<K>, f: K -> int, k: K)
    requires k in ks
    ensures Sum(ks, f) == f(k) + Sum(ks - {k}, f)
    decreases |ks|
  {
    var j :| j in ks && Sum(ks, f) == f(j) + Sum(ks - {j}, f);
    if j != k {
      Pick(ks - {j}, f, k);
      Pick(ks - {k}, f, j);
      assert ks - {j} - {k} == ks - {k} - {j};
    }
  }

  lemma {:induction false} Monotone<K>(ks: set<K>, f: K -> int, g: K -> int)
    requires forall k | k in ks :: f(k) <= g(k)
    ensures Sum(ks, f) <= Sum(ks, g)
    decreases |ks|
  {
    if ks != {} {
      var k :| k in ks;
      Pick(ks, f, k);
      Pick(ks, g, k);
      Monotone(ks - {k}, f, g);
    }
  }

  lemma Congruent<K>(ks: set<K>, f: K -> int, g: K -> int)
    requires forall k | k in ks :: f(k) == g(k)
    ensures Sum(ks, f) == Sum(ks, g)
  {
    Monotone(ks, f, g);
    Monotone(ks, g, f);
  }

  // Changing the function at one point changes the sum by the same amount.
  lemma Bump<K>(ks: set<K>, f: K -> int, g: K -> int, at: K)
    requires at in ks
    requires forall k | k in ks && k != at :: f(k) == g(k)
    ensures Sum(ks, g) == Sum(ks, f) + g(at) - f(at)
  {
    Pick(ks, f, at);
    Pick(ks, g, at);
    Congruent(ks - {at}, f, g);
  }

  lemma {:induction false} NonNegative<K>(ks: set<K>, f: K -> int)
    requires forall k | k in ks :: f(k) >= 0
    ensures Sum(ks, f) >= 0
    decreases |ks|
  {
    if ks != {} {
      var k :| k in ks;
      Pick(ks, f, k);
      NonNegative(ks - {k}, f);
    }
  }
}
