/** Facts about sets, sequences and numbers that the other modules share. */
module Basics {

  lemma SubsetCount<T>(a: set<T>, b: set<T>)
    requires a <= b
    ensures |a| <= |b|
  {
    assert b == a + (b - a);
  }

  lemma Regroup<T>(a: seq<T>, b: seq<T>, c: seq<T>)
    ensures (a + b) + c == a + (b + c)
  {
  }

  ghost predicate Inherits(p: nat -> bool, k: nat) {
    p(k) ==> p(k + 1)
  }

  lemma {:induction false} Upward(p: nat -> bool, i: nat, j: nat)
    requires i <= j && p(i) && forall k: nat :: i <= k < j ==> Inherits(p, k)
    ensures p(j)
    decreases j - i
  {
    if i < j {
      assert Inherits(p, i);
      Upward(p, i + 1, j);
    }
  }
}
