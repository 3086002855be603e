/** Go's string order and sorting by a comparison. */
module Ordering {

  /** strings.Compare: byte order, a proper prefix first. */
  function Compare(a: string, b: string): (c: int)
    ensures -1 <= c <= 1
    ensures c == 0 <==> a == b
  {
    if a == b then 0
    else if a == "" then -1
    else if b == "" then 1
    else if a[0] < b[0] then -1
    else if b[0] < a[0] then 1
    else
      assert a == [a[0]] + a[1..] && b == [b[0]] + b[1..];
      Compare(a[1..], b[1..])
  }

  /** The first byte that differs decides, and where none does the shorter text comes first. */
  lemma {:induction false} CompareIsBytewise(front: string, a: string, b: string)
    requires a == "" || b == "" || a[0] != b[0]
    ensures Compare(front + a, front + b) < 0 <==> (a == "" && b != "") || (a != "" && b != "" && a[0] < b[0])
  {
    if front == "" {
      assert front + a == a && front + b == b;
    } else {
      CompareIsBytewise(front[1..], a, b);
      assert front + a == [front[0]] + (front[1..] + a) && front + b == [front[0]] + (front[1..] + b);
      CompareSkips(front[0], front[1..] + a, front[1..] + b);
    }
  }

  lemma CompareSkips(c: char, a: string, b: string)
    ensures Compare([c] + a, [c] + b) == Compare(a, b)
  {
    assert ([c] + a)[1..] == a && ([c] + b)[1..] == b;
  }

  lemma {:induction false} CompareFlips(a: string, b: string)
    ensures Compare(a, b) == -Compare(b, a)
  {
    if a != b && a != "" && b != "" && a[0] == b[0] {
      CompareFlips(a[1..], b[1..]);
    }
  }

  lemma {:induction false} CompareTransitive(a: string, b: string, c: string)
    requires Compare(a, b) <= 0 && Compare(b, c) <= 0
    ensures Compare(a, c) <= 0
  {
    if a != b && b != c && a != "" && b != "" && c != "" && a[0] == b[0] && b[0] == c[0] {
      assert a[1..] != b[1..] by { assert a == [a[0]] + a[1..] && b == [b[0]] + b[1..]; }
      CompareTransitive(a[1..], b[1..], c[1..]);
      if a == c { CompareFlips(a, b); }
    }
  }

  ghost predicate TotalPreorder<T(!new)>(leq: (T, T) -> bool) {
    && (forall a, b :: leq(a, b) || leq(b, a))
    && (forall a, b, c :: leq(a, b) && leq(b, c) ==> leq(a, c))
  }

  ghost predicate Sorted<T>(s: seq<T>, leq: (T, T) -> bool) {
    forall i, j :: 0 <= i < j < |s| ==> leq(s[i], s[j])
  }

  function Insert<T>(x: T, s: seq<T>, leq: (T, T) -> bool): seq<T> {
    if s == [] || leq(x, s[0]) then [x] + s else [s[0]] + Insert(x, s[1..], leq)
  }

  function Sort<T>(s: seq<T>, leq: (T, T) -> bool): seq<T> {
    if s == [] then [] else Insert(s[0], Sort(s[1..], leq), leq)
  }

  lemma {:induction false} InsertAdds<T>(x: T, s: seq<T>, leq: (T, T) -> bool)
    ensures multiset(Insert(x, s, leq)) == multiset(s) + multiset{x}
  {
    if s != [] {
      assert s == [s[0]] + s[1..];
      if !leq(x, s[0]) {
        InsertAdds(x, s[1..], leq);
      }
    }
  }

  /** In front of a sorted sequence goes anything no larger than its elements. */
  lemma PrependSorted<T>(x: T, s: seq<T>, leq: (T, T) -> bool)
    requires Sorted(s, leq) && forall k :: 0 <= k < |s| ==> leq(x, s[k])
    ensures Sorted([x] + s, leq)
  {
  }

  lemma {:induction false} InsertSorted<T(!new)>(x: T, s: seq<T>, leq: (T, T) -> bool)
    requires TotalPreorder(leq) && Sorted(s, leq)
    ensures Sorted(Insert(x, s, leq), leq)
  {
    if s == [] || leq(x, s[0]) {
      forall k | 0 <= k < |s|
        ensures leq(x, s[k])
      {
        assert leq(s[0], s[0]) && leq(s[0], s[k]);
      }
      PrependSorted(x, s, leq);
    } else {
      InsertSorted(x, s[1..], leq);
      InsertAdds(x, s[1..], leq);
      var rest := Insert(x, s[1..], leq);
      forall k | 0 <= k < |rest|
        ensures leq(s[0], rest[k])
      {
        assert rest[k] in multiset(s[1..]) + multiset{x};
        assert rest[k] in multiset(s[1..]) ==> rest[k] in s[1..];
      }
      PrependSorted(s[0], rest, leq);
    }
  }

  /** Sorting orders the elements and keeps every one of them. */
  lemma {:induction false} SortSorts<T(!new)>(s: seq<T>, leq: (T, T) -> bool)
    requires TotalPreorder(leq)
    ensures Sorted(Sort(s, leq), leq) && multiset(Sort(s, leq)) == multiset(s)
  {
    if s != [] {
      SortSorts(s[1..], leq);
      InsertSorted(s[0], Sort(s[1..], leq), leq);
      InsertAdds(s[0], Sort(s[1..], leq), leq);
      assert s == [s[0]] + s[1..];
    }
  }

  lemma SameElements<T>(a: seq<T>, b: seq<T>)
    requires multiset(a) == multiset(b)
    ensures |a| == |b| && forall x :: x in a <==> x in b
  {
    assert |multiset(a)| == |a| && |multiset(b)| == |b|;
    assert forall x :: x in a <==> x in multiset(a);
    assert forall x :: x in b <==> x in multiset(b);
  }

  predicate NoDuplicates<T(==)>(s: seq<T>) {
    forall i, j :: 0 <= i < j < |s| ==> s[i] != s[j]
  }

  lemma {:induction false} NoDuplicatesCount<T>(s: seq<T>, x: T)
    requires NoDuplicates(s)
    ensures multiset(s)[x] <= 1
  {
    if s != [] {
      assert s == [s[0]] + s[1..];
      NoDuplicatesCount(s[1..], x);
      if x == s[0] {
        assert x !in s[1..];
        assert x !in multiset(s[1..]);
      }
    }
  }

  /** Reordering introduces no duplicates. */
  lemma PermutationKeepsDistinct<T>(s: seq<T>, t: seq<T>)
    requires NoDuplicates(s) && multiset(s) == multiset(t)
    ensures NoDuplicates(t)
  {
    forall i, j | 0 <= i < j < |t|
      ensures t[i] != t[j]
    {
      NoDuplicatesCount(s, t[i]);
      assert t == t[..i] + [t[i]] + t[i + 1..];
      assert t[j] in t[i + 1..];
      assert t[j] in multiset(t[i + 1..]);
    }
  }

  predicate StringOrder(a: string, b: string) {
    Compare(a, b) <= 0
  }

  lemma StringOrderIsTotal()
    ensures TotalPreorder(StringOrder)
  {
    forall a: string, b: string
      ensures StringOrder(a, b) || StringOrder(b, a)
    {
      CompareFlips(a, b);
    }
    forall a: string, b: string, c: string | StringOrder(a, b) && StringOrder(b, c)
      ensures StringOrder(a, c)
    {
      CompareTransitive(a, b, c);
    }
  }

  /** A running maximum of stamps that starts at 0. */
  function Newest(stamps: seq<int>): (m: int)
    ensures m >= 0 && (forall s <- stamps :: s <= m) && (m == 0 || m in stamps)
  {
    if stamps == [] then 0
    else
      var rest, last := Newest(stamps[..|stamps| - 1]), stamps[|stamps| - 1];
      assert stamps == stamps[..|stamps| - 1] + [last];
      if rest < last then last else rest
  }

  lemma NewestSnoc(stamps: seq<int>, stamp: int)
    ensures Newest(stamps + [stamp]) == if Newest(stamps) < stamp then stamp else Newest(stamps)
  {
    assert (stamps + [stamp])[..|stamps|] == stamps;
  }

  /** slices.Sorted(maps.Keys(m)), whatever order the keys come in. */
  method SortedKeys(keys: set<string>) returns (names: seq<string>)
    ensures Sorted(names, StringOrder) && NoDuplicates(names)
    ensures forall n :: n in names <==> n in keys
  {
    var all: seq<string> := [];
    var todo := keys;
    while todo != {}
      invariant todo <= keys && NoDuplicates(all)
      invariant forall n :: n in all <==> n in keys && n !in todo
      decreases |todo|
    {
      var n :| n in todo;
      todo := todo - {n};
      all := all + [n];
    }
    StringOrderIsTotal();
    SortSorts(all, StringOrder);
    names := Sort(all, StringOrder);
    PermutationKeepsDistinct(all, names);
    SameElements(names, all);
  }
}
