/** Counting how often a value occurs in a range of a function: multisets by their multiplicities. */
module Counting {

  /** How often `b` occurs among at(lo), at(lo + 1), .., at(lo + n - 1). */
  function Tally<B(==)>(at: int -> B, lo: int, n: nat, b: B): nat {
    if n == 0 then 0 else Tally(at, lo, n - 1, b) + if at(lo + n - 1) == b then 1 else 0
  }

  lemma {:induction false} TallyJoin<B>(at: int -> B, lo: int, m: nat, n: nat, b: B)
    ensures Tally(at, lo, m + n, b) == Tally(at, lo, m, b) + Tally(at, lo + m, n, b)
  {
    if n > 0 { TallyJoin(at, lo, m, n - 1, b); }
  }

  lemma {:induction false} TallyShift<B>(f: int -> B, g: int -> B, a: int, n: nat, b: B)
    requires forall k :: 0 <= k < n ==> f(k) == g(a + k)
    ensures Tally(f, 0, n, b) == Tally(g, a, n, b)
  {
    if n > 0 { TallyShift(f, g, a, n - 1, b); }
  }

  lemma {:induction false} TallyNone<B>(at: int -> B, lo: int, n: nat, b: B)
    requires forall k :: lo <= k < lo + n ==> at(k) != b
    ensures Tally(at, lo, n, b) == 0
  {
    if n > 0 { TallyNone(at, lo, n - 1, b); }
  }

  /** A value taken at one place only is counted once. */
  lemma {:induction false} TallyOnce<B>(at: int -> B, lo: int, n: nat, b: B, i: int)
    requires lo <= i < lo + n && at(i) == b && forall k :: lo <= k < lo + n && k != i ==> at(k) != b
    ensures Tally(at, lo, n, b) == 1
  {
    if i == lo + n - 1 { TallyNone(at, lo, n - 1, b); } else { TallyOnce(at, lo, n - 1, b, i); }
  }
}
