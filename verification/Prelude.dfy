/** Small sequence vocabulary shared by the components. */
module Prelude {
  datatype Option<+T> = None | Some(value: T)

  /** a can be obtained from b by deleting elements, the others staying in order. */
  predicate Subsequence<T(==)>(a: seq<T>, b: seq<T>)
    decreases |b|
  {
    |a| == 0 ||
    (|b| > 0 &&
     ((a[|a| - 1] == b[|b| - 1] && Subsequence(a[..|a| - 1], b[..|b| - 1])) ||
      Subsequence(a, b[..|b| - 1])))
  }

  lemma {:induction false} SubsequenceBothGrow<T>(a: seq<T>, b: seq<T>, c: seq<T>)
    requires Subsequence(a, b)
    ensures Subsequence(a + c, b + c)
    decreases |c|
  {
    if |c| == 0 {
      assert a + c == a && b + c == b;
    } else {
      var c' := c[..|c| - 1];
      SubsequenceBothGrow(a, b, c');
      assert (a + c)[..|a + c| - 1] == a + c';
      assert (b + c)[..|b + c| - 1] == b + c';
    }
  }

  lemma {:induction false} SubsequenceDropEnd<T>(a: seq<T>, c: seq<T>, b: seq<T>)
    requires Subsequence(a + c, b)
    ensures Subsequence(a, b)
    decreases |b|
  {
    if |a| > 0 {
      var b' := b[..|b| - 1];
      if |c| == 0 {
        assert a + c == a;
      } else if Subsequence(a + c, b') {
        SubsequenceDropEnd(a, c, b');
      } else {
        var c' := c[..|c| - 1];
        assert (a + c)[..|a + c| - 1] == a + c';
        SubsequenceDropEnd(a, c', b');
      }
    }
  }

  lemma {:induction false} SubsequenceWhole<T>(a: seq<T>, b: seq<T>)
    requires Subsequence(a, b)
    ensures |a| <= |b|
    ensures |a| == |b| ==> a == b
    decreases |b|
  {
    if |a| > 0 {
      var b' := b[..|b| - 1];
      if Subsequence(a, b') {
        SubsequenceWhole(a, b');
      } else {
        SubsequenceWhole(a[..|a| - 1], b');
        assert a == a[..|a| - 1] + [a[|a| - 1]];
        assert b == b' + [b[|b| - 1]];
      }
    }
  }

  lemma {:induction false} SubsequenceSelf<T>(a: seq<T>)
    ensures Subsequence(a, a)
  {
    if |a| > 0 { SubsequenceSelf(a[..|a| - 1]); }
  }

  lemma {:induction false} SubsequenceTransitive<T>(a: seq<T>, b: seq<T>, c: seq<T>)
    requires Subsequence(a, b) && Subsequence(b, c)
    ensures Subsequence(a, c)
    decreases |c|
  {
    if |a| > 0 {
      var a', b', c' := a[..|a| - 1], b[..|b| - 1], c[..|c| - 1];
      if Subsequence(b, c') {
        SubsequenceTransitive(a, b, c');
      } else if Subsequence(a, b') {
        SubsequenceTransitive(a, b', c');
      } else {
        SubsequenceTransitive(a', b', c');
      }
    }
  }

  lemma SubsequenceWithoutOne<T>(a: seq<T>, i: nat)
    requires i < |a|
    ensures Subsequence(a[..i] + a[i + 1..], a)
  {
    var front, rest := a[..i], a[i + 1..];
    SubsequenceSelf(front);
    assert (front + [a[i]])[..i] == front;
    SubsequenceBothGrow(front, front + [a[i]], rest);
    assert a == front + [a[i]] + rest;
  }
}
