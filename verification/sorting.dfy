/**
 The three orders offered for the file list, and `Array.prototype.sort`, which
 is stable: the result is ordered by the comparator and entries the comparator
 ties keep their previous relative order. The sort is specified by a stable
 insertion sort; what it guarantees is proved below for any total preorder.
 */
module Sorting {
  import opened Wrappers
  import opened Seqs
  import opened Records

  /** `le(x, y)` means the comparator lets `x` stay before `y` (it returns at most 0). */
  ghost predicate Total<T(!new)>(le: (T, T) -> bool) {
    forall x, y :: le(x, y) || le(y, x)
  }

  ghost predicate Transitive<T(!new)>(le: (T, T) -> bool) {
    forall x, y, z :: le(x, y) && le(y, z) ==> le(x, z)
  }

  ghost predicate TotalPreorder<T(!new)>(le: (T, T) -> bool) {
    Total(le) && Transitive(le)
  }

  ghost predicate Sorted<T>(s: seq<T>, le: (T, T) -> bool) {
    forall i, j :: 0 <= i < j < |s| ==> le(s[i], s[j])
  }

  /** Places `x` after every entry that may precede it: after its ties, so the later
      input stays later. */
  function Insert<T>(x: T, s: seq<T>, le: (T, T) -> bool): seq<T> {
    if s == [] then [x]
    else if le(s[0], x) then [s[0]] + Insert(x, s[1..], le)
    else [x] + s
  }

  /** The stable sort of `s` under `le`. */
  function SortBy<T>(s: seq<T>, le: (T, T) -> bool): seq<T> {
    if s == [] then [] else Insert(s[|s| - 1], SortBy(s[..|s| - 1], le), le)
  }

  lemma {:induction false} InsertPermutation<T>(x: T, s: seq<T>, le: (T, T) -> bool)
    ensures multiset(Insert(x, s, le)) == multiset(s) + multiset{x}
  {
    if s != [] && le(s[0], x) {
      InsertPermutation(x, s[1..], le);
      assert s == [s[0]] + s[1..];
    }
  }

  /** Sorting only reorders: the result holds exactly the entries of the input. */
  lemma {:induction false} SortByPermutation<T>(s: seq<T>, le: (T, T) -> bool)
    ensures multiset(SortBy(s, le)) == multiset(s)
    ensures |SortBy(s, le)| == |s|
  {
    if s != [] {
      SortByPermutation(s[..|s| - 1], le);
      InsertPermutation(s[|s| - 1], SortBy(s[..|s| - 1], le), le);
      assert s == s[..|s| - 1] + [s[|s| - 1]];
    }
  }

  lemma {:induction false} InsertSorted<T(!new)>(x: T, s: seq<T>, le: (T, T) -> bool)
    requires TotalPreorder(le)
    requires Sorted(s, le)
    ensures Sorted(Insert(x, s, le), le)
  {
    if s != [] {
      if le(s[0], x) {
        var tail := Insert(x, s[1..], le);
        InsertSorted(x, s[1..], le);
        InsertPermutation(x, s[1..], le);
        forall k | 0 <= k < |tail| ensures le(s[0], tail[k]) {
          assert tail[k] in multiset(tail);
          assert tail[k] == x || tail[k] in s[1..];
        }
      } else {
        assert le(x, s[0]);
      }
    }
  }

  /** Under a total preorder the result is in order. */
  lemma {:induction false} SortBySorted<T(!new)>(s: seq<T>, le: (T, T) -> bool)
    requires TotalPreorder(le)
    ensures Sorted(SortBy(s, le), le)
  {
    if s != [] {
      SortBySorted(s[..|s| - 1], le);
      InsertSorted(s[|s| - 1], SortBy(s[..|s| - 1], le), le);
    }
  }

  /** `x` and `k` are tied: the comparator puts neither before the other. */
  predicate Tied<T>(le: (T, T) -> bool, x: T, k: T) {
    le(x, k) && le(k, x)
  }

  /** The entries of `s` tied with `k`, in the order of `s`. */
  function TiesOf<T>(s: seq<T>, le: (T, T) -> bool, k: T): seq<T> {
    if s == [] then [] else (if Tied(le, s[0], k) then [s[0]] else []) + TiesOf(s[1..], le, k)
  }

  lemma {:induction false} TiesOfAppend<T>(a: seq<T>, b: seq<T>, le: (T, T) -> bool, k: T)
    ensures TiesOf(a + b, le, k) == TiesOf(a, le, k) + TiesOf(b, le, k)
  {
    if a == [] {
      assert a + b == b;
    } else {
      TiesOfAppend(a[1..], b, le, k);
      assert (a + b)[0] == a[0];
      assert (a + b)[1..] == a[1..] + b;
    }
  }

  lemma {:induction false} TiesOfNone<T>(s: seq<T>, le: (T, T) -> bool, k: T)
    requires forall i :: 0 <= i < |s| ==> !Tied(le, s[i], k)
    ensures TiesOf(s, le, k) == []
  {
    if s != [] {
      TiesOfNone(s[1..], le, k);
    }
  }

  /** When `x` is strictly before every entry of sorted `s`, the ties of `x` among `s` are none. */
  lemma NoTiesAfterStrictlyLater<T(!new)>(x: T, s: seq<T>, le: (T, T) -> bool, k: T)
    requires Transitive(le)
    requires Sorted(s, le)
    requires s != [] && !le(s[0], x)
    requires Tied(le, x, k)
    ensures TiesOf(s, le, k) == []
  {
    forall i | 0 <= i < |s| ensures !Tied(le, s[i], k) {
      if i > 0 {
        assert le(s[0], s[i]);
      }
    }
    TiesOfNone(s, le, k);
  }

  lemma {:induction false} InsertTies<T(!new)>(x: T, s: seq<T>, le: (T, T) -> bool, k: T)
    requires Transitive(le)
    requires Sorted(s, le)
    ensures TiesOf(Insert(x, s, le), le, k) == TiesOf(s, le, k) + (if Tied(le, x, k) then [x] else [])
  {
    if s == [] {
      assert Insert(x, s, le) == [x];
    } else if le(s[0], x) {
      var head, rest := [s[0]], s[1..];
      assert Sorted(rest, le);
      InsertTies(x, rest, le, k);
      var tail := Insert(x, rest, le);
      assert Insert(x, s, le) == head + tail;
      assert s == head + rest;
      TiesOfAppend(head, tail, le, k);
      TiesOfAppend(head, rest, le, k);
    } else {
      if Tied(le, x, k) {
        NoTiesAfterStrictlyLater(x, s, le, k);
      }
      assert Insert(x, s, le) == [x] + s;
      TiesOfAppend([x], s, le, k);
    }
  }

  /** Stability: for every entry `k`, the entries tied with it appear in the result in
      exactly their order in the input. */
  lemma {:induction false} SortByStable<T(!new)>(s: seq<T>, le: (T, T) -> bool, k: T)
    requires TotalPreorder(le)
    ensures TiesOf(SortBy(s, le), le, k) == TiesOf(s, le, k)
  {
    if s != [] {
      var init, last := s[..|s| - 1], s[|s| - 1];
      SortByStable(init, le, k);
      SortBySorted(init, le);
      InsertTies(last, SortBy(init, le), le, k);
      assert s == init + [last];
      TiesOfAppend(init, [last], le, k);
    }
  }

  /** No two different entries of `s` are tied. */
  ghost predicate TieFree<T>(s: seq<T>, le: (T, T) -> bool) {
    forall x, y :: x in s && y in s && le(x, y) && le(y, x) ==> x == y
  }

  lemma SortedHeadsEqual<T>(a: seq<T>, b: seq<T>, le: (T, T) -> bool)
    requires a != []
    requires Sorted(a, le) && Sorted(b, le)
    requires multiset(a) == multiset(b)
    requires TieFree(a, le)
    ensures b != [] && a[0] == b[0]
  {
    assert a[0] in multiset(b);
    assert b[0] in multiset(a);
    var j :| 0 <= j < |b| && b[j] == a[0];
    var i :| 0 <= i < |a| && a[i] == b[0];
    assert j == 0 || le(b[0], b[j]);
    assert i == 0 || le(a[0], a[i]);
  }

  /** Without ties, an order has exactly one arrangement of given entries. */
  lemma {:induction false} SortedUnique<T>(a: seq<T>, b: seq<T>, le: (T, T) -> bool)
    requires Sorted(a, le) && Sorted(b, le)
    requires multiset(a) == multiset(b)
    requires TieFree(a, le)
    ensures a == b
  {
    if a != [] {
      SortedHeadsEqual(a, b, le);
      var x, a', b' := a[0], a[1..], b[1..];
      assert a == [x] + a';
      assert b == [x] + b';
      assert multiset(a) == multiset{x} + multiset(a');
      assert multiset(b) == multiset{x} + multiset(b');
      forall y ensures multiset(a')[y] == multiset(b')[y] {
        assert multiset(a)[y] == multiset{x}[y] + multiset(a')[y];
        assert multiset(b)[y] == multiset{x}[y] + multiset(b')[y];
      }
      assert multiset(a') == multiset(b');
      assert forall y :: y in a' ==> y in a;
      SortedUnique(a', b', le);
    }
  }

  /** Sorting with the reverse comparator reverses a tie-free sorted list. */
  lemma SortReversedComparator<T(!new)>(t: seq<T>, le: (T, T) -> bool, ge: (T, T) -> bool)
    requires TotalPreorder(ge)
    requires forall x, y :: ge(x, y) == le(y, x)
    requires Sorted(t, le)
    requires TieFree(t, le)
    ensures SortBy(t, ge) == Reverse(t)
  {
    var u := SortBy(t, ge);
    SortBySorted(t, ge);
    SortByPermutation(t, ge);
    ReverseSpec(t);
    var r := Reverse(t);
    forall i, j | 0 <= i < j < |r| ensures ge(r[i], r[j]) {
      assert le(t[|t| - 1 - j], t[|t| - 1 - i]);
    }
    assert forall x :: x in u ==> x in multiset(t);
    SortedUnique(u, r, ge);
  }

  /** The sort keys of `sortFiles`. */
  datatype SortKey = NameAscending | NameDescending | DateDescending

  /** The `switch` of `sortFiles`: any other string selects no sort. */
  function ParseSortKey(kind: string): Option<SortKey> {
    if kind == "az" then Some(NameAscending)
    else if kind == "za" then Some(NameDescending)
    else if kind == "date" then Some(DateDescending)
    else None
  }

  /** The comparator of each key. `collate(a, b)` stands for `a.localeCompare(b) <= 0`;
      `b.lastModified - a.lastModified <= 0` puts the most recent first. */
  function Order(key: SortKey, collate: (string, string) -> bool): (FileRecord, FileRecord) -> bool {
    match key
    case NameAscending => (a: FileRecord, b: FileRecord) => collate(a.name, b.name)
    case NameDescending => (a: FileRecord, b: FileRecord) => collate(b.name, a.name)
    case DateDescending => (a: FileRecord, b: FileRecord) => a.lastModified >= b.lastModified
  }

  /** Each key's comparator is a total preorder when the collation is one. */
  lemma OrderTotalPreorder(key: SortKey, collate: (string, string) -> bool)
    requires TotalPreorder(collate)
    ensures TotalPreorder(Order(key, collate))
  {
    var le := Order(key, collate);
    forall x, y ensures le(x, y) || le(y, x) {
      assert collate(x.name, y.name) || collate(y.name, x.name);
    }
    forall x, y, z | le(x, y) && le(y, z) ensures le(x, z) {
      match key
      case NameAscending =>
        assert collate(x.name, y.name) && collate(y.name, z.name);
      case NameDescending =>
        assert collate(z.name, y.name) && collate(y.name, x.name);
      case DateDescending =>
    }
  }

  /** What each key guarantees of the sorted list: names non-decreasing under the collation
      for `az`, non-increasing for `za`, timestamps non-increasing for `date`. */
  lemma SortFilesOrdered(files: seq<FileRecord>, key: SortKey, collate: (string, string) -> bool)
    requires TotalPreorder(collate)
    ensures multiset(SortBy(files, Order(key, collate))) == multiset(files)
    ensures key == NameAscending ==> var r := SortBy(files, Order(key, collate));
      forall i, j :: 0 <= i < j < |r| ==> collate(r[i].name, r[j].name)
    ensures key == NameDescending ==> var r := SortBy(files, Order(key, collate));
      forall i, j :: 0 <= i < j < |r| ==> collate(r[j].name, r[i].name)
    ensures key == DateDescending ==> var r := SortBy(files, Order(key, collate));
      forall i, j :: 0 <= i < j < |r| ==> r[i].lastModified >= r[j].lastModified
  {
    OrderTotalPreorder(key, collate);
    SortBySorted(files, Order(key, collate));
    SortByPermutation(files, Order(key, collate));
  }

  /** On files no two of which the collation ties, sorting `za` after `az` gives exactly
      the reverse of the `az` order. */
  lemma AscendingThenDescendingReverses(files: seq<FileRecord>, collate: (string, string) -> bool)
    requires TotalPreorder(collate)
    requires forall i, j :: 0 <= i < j < |files| ==> !(collate(files[i].name, files[j].name) && collate(files[j].name, files[i].name))
    ensures var az := SortBy(files, Order(NameAscending, collate));
      SortBy(az, Order(NameDescending, collate)) == Reverse(az)
  {
    var le, ge := Order(NameAscending, collate), Order(NameDescending, collate);
    var az := SortBy(files, le);
    OrderTotalPreorder(NameAscending, collate);
    OrderTotalPreorder(NameDescending, collate);
    SortBySorted(files, le);
    SortByPermutation(files, le);
    forall x, y | x in az && y in az && le(x, y) && le(y, x) ensures x == y {
      assert x in multiset(files) && y in multiset(files);
      var i :| 0 <= i < |files| && files[i] == x;
      var j :| 0 <= j < |files| && files[j] == y;
      assert i == j;
    }
    SortReversedComparator(az, le, ge);
  }
}
