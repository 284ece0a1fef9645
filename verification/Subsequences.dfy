/** Sequences with some elements left out, and packets that end in one of three places. */
module Subsequences {

  /** `a` is `b` with some elements left out. */
  ghost predicate Subsequence<T>(a: seq<T>, b: seq<T>)
    decreases |b|
  {
    if a == [] then true
    else if b == [] then false
    else
      || (a[|a|-1] == b[|b|-1] && Subsequence(a[..|a|-1], b[..|b|-1]))
      || Subsequence(a, b[..|b|-1])
  }

  lemma {:induction false} SubsequenceGrows<T>(a: seq<T>, b: seq<T>, x: T)
    requires Subsequence(a, b)
    ensures Subsequence(a, b + [x]) && Subsequence(a + [x], b + [x])
  {
    assert (b + [x])[..|b|] == b && (a + [x])[..|a|] == a;
  }

  lemma {:induction false} SubsequencePrefix<T>(a: seq<T>, k: nat, b: seq<T>)
    requires Subsequence(a, b) && k <= |a|
    ensures Subsequence(a[..k], b)
    decreases |b|
  {
    if k == |a| {
      assert a[..k] == a;
    } else {
      var a', b' := a[..|a|-1], b[..|b|-1];
      if Subsequence(a, b') {
        SubsequencePrefix(a, k, b');
      } else {
        SubsequencePrefix(a', k, b');
        assert a'[..k] == a[..k];
      }
    }
  }

  lemma {:induction false} SubsequenceExtends<T>(a: seq<T>, b: seq<T>, c: seq<T>)
    requires Subsequence(a, b)
    ensures Subsequence(a, b + c)
  {
    if c == [] {
      assert b + c == b;
    } else {
      SubsequenceExtends(a, b, c[..|c|-1]);
      assert (b + c)[..|b + c|-1] == b + c[..|c|-1];
    }
  }

  lemma {:induction false} SubsequenceMembers<T>(a: seq<T>, b: seq<T>)
    requires Subsequence(a, b)
    ensures forall x :: x in a ==> x in b
    decreases |b|
  {
    if a != [] {
      var a', b' := a[..|a|-1], b[..|b|-1];
      if Subsequence(a, b') {
        SubsequenceMembers(a, b');
      } else {
        SubsequenceMembers(a', b');
        assert a == a' + [a[|a|-1]];
      }
    }
  }

  /** Every packet processed is in exactly one of three places, and those that go on kept their order. */
  ghost predicate Placed(freed: seq<nat>, keepalives: seq<nat>, onward: seq<nat>, processed: seq<nat>) {
    && multiset(freed) + multiset(keepalives) + multiset(onward) == multiset(processed)
    && Subsequence(onward, processed)
  }

  lemma PlacedOneMore(freed: seq<nat>, keepalives: seq<nat>, onward: seq<nat>, processed: seq<nat>, x: nat)
    requires Placed(freed, keepalives, onward, processed)
    ensures Placed(freed + [x], keepalives, onward, processed + [x])
    ensures Placed(freed, keepalives + [x], onward, processed + [x])
    ensures Placed(freed, keepalives, onward + [x], processed + [x])
  {
    hide Subsequence;
    SubsequenceGrows(onward, processed, x);
    assert multiset(processed + [x]) == multiset(processed) + multiset{x};
    assert multiset(freed + [x]) == multiset(freed) + multiset{x};
    assert multiset(keepalives + [x]) == multiset(keepalives) + multiset{x};
    assert multiset(onward + [x]) == multiset(onward) + multiset{x};
  }
}
