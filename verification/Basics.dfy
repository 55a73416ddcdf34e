/** Facts about finite sets, powers of two and multiples. */
module Basics {

  lemma SubsetSize<T>(a: set<T>, b: set<T>)
    requires a <= b
    ensures |a| <= |b|
  {
    if a != {} {
      var x :| x in a;
      SubsetSize(a - {x}, b - {x});
    }
  }

  lemma OneMore<T>(a: set<T>, m: set<T>, x: T)
    ensures |m + if x in a then {} else {x}| == |m| + if x in a + m then 0 else 1
    ensures a + m + {x} == a + (m + if x in a then {} else {x})
  {
    if x in m { assert m + {x} == m; }
  }

  lemma Member<T>(s: set<T>) returns (x: T)
    requires s != {}
    ensures x in s
  {
    x :| x in s;
  }

  function Pow2(n: nat): (p: nat)
    ensures p > 0
  {
    if n == 0 then 1 else 2 * Pow2(n - 1)
  }

  lemma AtLeastOnce(a: int, d: int)
    requires a >= 1 && d >= 0
    ensures a * d >= d
  {
    assert (a - 1) * d >= 0;
  }

  /** Of the multiples of d, only 0 is nearer to 0 than d. */
  lemma SmallMultiple(a: int, d: int)
    requires -d < a * d < d
    ensures a == 0
  {
    if a >= 1 { AtLeastOnce(a, d); }
    if a <= -1 { AtLeastOnce(-a, d); }
  }
}
