/** The conventional optional value: `None` stands for JavaScript's `null`/`undefined`. */
module Wrappers {
  datatype Option<+T> = None | Some(value: T)
}

/**
 Sequence operations that the session object performs on its arrays:
 `Array.prototype.filter`, `splice` (remove one, insert one) and the notions
 of subsequence and reversal used to state what those operations keep.
 */
module Seqs {

  /** `filter` with a total predicate: keeps the elements that satisfy `keep`, in order. */
  function Filter<T>(s: seq<T>, keep: T -> bool): (r: seq<T>)
    ensures |r| <= |s|
  {
    if s == [] then [] else Filter(s[..|s| - 1], keep) + (if keep(s[|s| - 1]) then [s[|s| - 1]] else [])
  }

  /** `a` can be obtained from `b` by deleting elements: it keeps their relative order. */
  ghost predicate IsSubsequence<T>(a: seq<T>, b: seq<T>)
    decreases |b|
  {
    if a == [] then true
    else if b == [] then false
    else (a[|a| - 1] == b[|b| - 1] && IsSubsequence(a[..|a| - 1], b[..|b| - 1]))
         || IsSubsequence(a, b[..|b| - 1])
  }

  lemma SubsequenceExtend<T>(a: seq<T>, b: seq<T>, x: T)
    requires IsSubsequence(a, b)
    ensures IsSubsequence(a, b + [x])
    ensures IsSubsequence(a + [x], b + [x])
  {
    assert (b + [x])[..|b|] == b;
    assert (a + [x])[..|a|] == a;
  }

  /** Everything `Filter` returns satisfies `keep`, every element of `s` that satisfies
      `keep` is returned, and the result is empty exactly when no element of `s` does. */
  lemma {:induction false} FilterMembers<T>(s: seq<T>, keep: T -> bool)
    ensures forall x :: x in Filter(s, keep) <==> x in s && keep(x)
    ensures Filter(s, keep) == [] <==> forall i :: 0 <= i < |s| ==> !keep(s[i])
  {
    if s != [] {
      var init, last := s[..|s| - 1], s[|s| - 1];
      assert s == init + [last];
      FilterMembers(init, keep);
      var f := Filter(init, keep);
      assert forall x :: x in s <==> x in init || x == last;
      if keep(last) {
        assert Filter(s, keep) == f + [last];
      } else {
        assert Filter(s, keep) == f;
        assert (forall i :: 0 <= i < |s| ==> !keep(s[i])) <==> (forall i :: 0 <= i < |init| ==> !keep(init[i]));
      }
    }
  }

  /** `Filter` keeps the relative order of what it keeps. */
  lemma {:induction false} FilterOrder<T>(s: seq<T>, keep: T -> bool)
    ensures IsSubsequence(Filter(s, keep), s)
  {
    if s != [] {
      var init, last := s[..|s| - 1], s[|s| - 1];
      assert s == init + [last];
      FilterOrder(init, keep);
      var f := Filter(init, keep);
      SubsequenceExtend(f, init, last);
      if keep(last) {
        assert Filter(s, keep) == f + [last];
      } else {
        assert Filter(s, keep) == f;
      }
    }
  }

  /** `filter` distributes over concatenation. */
  lemma {:induction false} FilterAppend<T>(a: seq<T>, b: seq<T>, keep: T -> bool)
    ensures Filter(a + b, keep) == Filter(a, keep) + Filter(b, keep)
    decreases |b|
  {
    if b == [] {
      assert a + b == a;
    } else {
      var b', y := b[..|b| - 1], b[|b| - 1];
      assert a + b == (a + b') + [y];
      assert (a + b)[..|a + b| - 1] == a + b';
      FilterAppend(a, b', keep);
    }
  }

  /** `splice(i, 1)`: the sequence without its element at `i`. */
  function RemoveAt<T>(s: seq<T>, i: nat): (r: seq<T>)
    requires i < |s|
    ensures |r| == |s| - 1
    ensures forall k :: 0 <= k < i ==> r[k] == s[k]
    ensures forall k :: i <= k < |r| ==> r[k] == s[k + 1]
  {
    s[..i] + s[i + 1..]
  }

  /** `splice(i, 0, x)`: the sequence with `x` inserted so that it lands at index `i`. */
  function InsertAt<T>(s: seq<T>, i: nat, x: T): (r: seq<T>)
    requires i <= |s|
    ensures |r| == |s| + 1 && r[i] == x
    ensures forall k :: 0 <= k < i ==> r[k] == s[k]
    ensures forall k :: i < k < |r| ==> r[k] == s[k - 1]
  {
    s[..i] + [x] + s[i..]
  }

  /** Removing an element and inserting it again at the same index gives the sequence back. */
  lemma RemoveThenInsert<T>(s: seq<T>, i: nat)
    requires i < |s|
    ensures InsertAt(RemoveAt(s, i), i, s[i]) == s
  {
    var r := InsertAt(RemoveAt(s, i), i, s[i]);
    assert forall k :: 0 <= k < |s| ==> r[k] == s[k];
  }

  /** Inserting an element and removing it again gives the sequence back. */
  lemma InsertThenRemove<T>(s: seq<T>, i: nat, x: T)
    requires i <= |s|
    ensures RemoveAt(InsertAt(s, i, x), i) == s
  {
    var t := RemoveAt(InsertAt(s, i, x), i);
    assert forall k :: 0 <= k < |s| ==> t[k] == s[k];
  }

  /** Removing one element removes exactly one occurrence of it. */
  lemma RemoveAtMultiset<T>(s: seq<T>, i: nat)
    requires i < |s|
    ensures multiset(RemoveAt(s, i)) + multiset{s[i]} == multiset(s)
  {
    assert s == s[..i] + [s[i]] + s[i + 1..];
  }

  function Reverse<T>(s: seq<T>): (r: seq<T>)
    ensures |r| == |s|
  {
    if s == [] then [] else Reverse(s[1..]) + [s[0]]
  }

  /** The reverse holds the same elements, the last one first. */
  lemma {:induction false} ReverseSpec<T>(s: seq<T>)
    ensures forall k :: 0 <= k < |s| ==> Reverse(s)[k] == s[|s| - 1 - k]
    ensures multiset(Reverse(s)) == multiset(s)
  {
    if s != [] {
      ReverseSpec(s[1..]);
      assert s == [s[0]] + s[1..];
    }
  }
}
