/**
  Facts about sequences used by the calendar and notification models: the
  subsequence relation, distinctness, and Python's `list.remove`.
*/
module Lists {

  import opened Wrappers

  /** `a` is obtained from `b` by deleting elements and keeping the rest in order. */
  predicate IsSubsequence<T(==)>(a: seq<T>, b: seq<T>)
    decreases |b|
  {
    if a == [] then true
    else if b == [] then false
    else (a[|a| - 1] == b[|b| - 1] && IsSubsequence(a[..|a| - 1], b[..|b| - 1]))
         || IsSubsequence(a, b[..|b| - 1])
  }

  /** No value occurs twice. */
  predicate Distinct<T(==)>(s: seq<T>)
  {
    forall i, j :: 0 <= i < j < |s| ==> s[i] != s[j]
  }

  lemma {:induction false} SubsequenceLength<T>(a: seq<T>, b: seq<T>)
    requires IsSubsequence(a, b)
    ensures |a| <= |b|
    decreases |b|
  {
    if a != [] {
      var a', b' := a[..|a| - 1], b[..|b| - 1];
      if a[|a| - 1] == b[|b| - 1] && IsSubsequence(a', b') {
        SubsequenceLength(a', b');
      } else {
        SubsequenceLength(a, b');
      }
    }
  }

  /** Appending to the larger sequence keeps a subsequence a subsequence. */
  lemma {:induction false} SubsequenceExtend<T>(a: seq<T>, b: seq<T>, c: seq<T>)
    requires IsSubsequence(a, b)
    ensures IsSubsequence(a, b + c)
    decreases |c|
  {
    if c != [] && a != [] {
      var c' := c[..|c| - 1];
      assert (b + c)[..|b + c| - 1] == b + c';
      SubsequenceExtend(a, b, c');
    } else if c == [] {
      assert b + c == b;
    }
  }

  /** Subsequences of two sequences concatenate into a subsequence of their concatenation. */
  lemma {:induction false} SubsequenceConcat<T>(a1: seq<T>, b1: seq<T>, a2: seq<T>, b2: seq<T>)
    requires IsSubsequence(a1, b1) && IsSubsequence(a2, b2)
    ensures IsSubsequence(a1 + a2, b1 + b2)
    decreases |b2|
  {
    if a2 == [] {
      assert a1 + a2 == a1;
      SubsequenceExtend(a1, b1, b2);
    } else {
      var a2', b2' := a2[..|a2| - 1], b2[..|b2| - 1];
      var a, b := a1 + a2, b1 + b2;
      assert a[..|a| - 1] == a1 + a2';
      assert b[..|b| - 1] == b1 + b2';
      if a2[|a2| - 1] == b2[|b2| - 1] && IsSubsequence(a2', b2') {
        SubsequenceConcat(a1, b1, a2', b2');
      } else {
        SubsequenceConcat(a1, b1, a2, b2');
      }
    }
  }

  /**
    Python's `xs.remove(x)`: the first element equal to `x` is deleted;
    `None` stands for the `ValueError` raised when there is none.
  */
  function RemoveFirst<T(==)>(xs: seq<T>, x: T): (r: Option<seq<T>>)
    ensures r.None? <==> x !in xs
    ensures r.Some? ==> |r.value| == |xs| - 1
  {
    if xs == [] then None
    else
      assert xs == [xs[0]] + xs[1..];
      if xs[0] == x then Some(xs[1..])
      else match RemoveFirst(xs[1..], x)
        case None => None
        case Some(rest) => Some([xs[0]] + rest)
  }

  /** The occurrence removed is the first one: everything before it stays. */
  lemma {:induction false} RemoveFirstAt<T>(a: seq<T>, x: T, b: seq<T>)
    requires x !in a
    ensures RemoveFirst(a + [x] + b, x) == Some(a + b)
  {
    var xs := a + [x] + b;
    if a == [] {
      assert xs[0] == x && xs[1..] == b;
      assert xs != [];
      assert RemoveFirst(xs, x) == Some(xs[1..]);
      assert a + b == b;
    } else {
      assert xs[0] == a[0] != x;
      assert xs[1..] == a[1..] + [x] + b;
      RemoveFirstAt(a[1..], x, b);
      assert [a[0]] + (a[1..] + b) == a + b;
    }
  }

  /** `n` successive `xs.remove(x)` calls; `None` once one of them raises. */
  function RemoveRepeatedly<T(==)>(xs: seq<T>, x: T, n: nat): Option<seq<T>>
  {
    if n == 0 then Some(xs)
    else match RemoveRepeatedly(xs, x, n - 1)
      case None => None
      case Some(ys) => RemoveFirst(ys, x)
  }

  /** Once a removal has raised, more removals raise too. */
  lemma {:induction false} RemoveRepeatedlyStaysFailed<T>(xs: seq<T>, x: T, m: nat, n: nat)
    requires m <= n && RemoveRepeatedly(xs, x, m).None?
    ensures RemoveRepeatedly(xs, x, n).None?
    decreases n
  {
    if m < n {
      RemoveRepeatedlyStaysFailed(xs, x, m, n - 1);
    }
  }

  /**
    Removing a value that occurs exactly once: zero removals change nothing, one
    deletes it, and a second one raises.
  */
  lemma RemoveRepeatedlySingle<T>(a: seq<T>, x: T, b: seq<T>, n: nat)
    requires x !in a && x !in b
    ensures n == 0 ==> RemoveRepeatedly(a + [x] + b, x, n) == Some(a + [x] + b)
    ensures n == 1 ==> RemoveRepeatedly(a + [x] + b, x, n) == Some(a + b)
    ensures n >= 2 ==> RemoveRepeatedly(a + [x] + b, x, n).None?
  {
    RemoveFirstAt(a, x, b);
    if n >= 2 {
      assert RemoveRepeatedly(a + [x] + b, x, 1) == Some(a + b);
      assert RemoveRepeatedly(a + [x] + b, x, 2).None?;
      RemoveRepeatedlyStaysFailed(a + [x] + b, x, 2, n);
    }
  }
}
