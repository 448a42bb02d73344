/** Sorting by a total order: the result depends only on what is sorted, not on its order. */
module Sorting {
  ghost predicate TotalOrder<T(!new)>(leq: (T, T) -> bool) {
    && (forall a, b :: leq(a, b) || leq(b, a))
    && (forall a, b :: leq(a, b) && leq(b, a) ==> a == b)
    && (forall a, b, c :: leq(a, b) && leq(b, c) ==> leq(a, c))
  }

  predicate Sorted<T>(s: seq<T>, leq: (T, T) -> bool) {
    forall i, j :: 0 <= i < j < |s| ==> leq(s[i], s[j])
  }

  function Insert<T>(x: T, s: seq<T>, leq: (T, T) -> bool): seq<T> {
    if s == [] then [x]
    else if leq(x, s[0]) then [x] + s
    else [s[0]] + Insert(x, s[1..], leq)
  }

  function Sort<T>(s: seq<T>, leq: (T, T) -> bool): seq<T> {
    if s == [] then [] else Insert(s[0], Sort(s[1..], leq), leq)
  }

  lemma Antisymmetric<T(!new)>(leq: (T, T) -> bool, a: T, b: T)
    requires TotalOrder(leq) && leq(a, b) && leq(b, a)
    ensures a == b
  {
  }

  lemma Chain<T(!new)>(leq: (T, T) -> bool, a: T, b: T, c: T)
    requires TotalOrder(leq) && leq(a, b) && leq(b, c)
    ensures leq(a, c)
  {
  }

  lemma OneWay<T(!new)>(leq: (T, T) -> bool, a: T, b: T)
    requires TotalOrder(leq)
    ensures leq(a, b) || leq(b, a)
  {
  }

  lemma ConsIsSorted<T(!new)>(x: T, s: seq<T>, leq: (T, T) -> bool)
    requires Sorted(s, leq) && forall j :: 0 <= j < |s| ==> leq(x, s[j])
    ensures Sorted([x] + s, leq)
  {
  }

  lemma TailIsSorted<T(!new)>(s: seq<T>, leq: (T, T) -> bool)
    requires Sorted(s, leq) && s != []
    ensures Sorted(s[1..], leq) && forall j :: 1 <= j < |s| ==> leq(s[0], s[j])
  {
  }

  lemma {:induction false} InsertIsSorted<T(!new)>(x: T, s: seq<T>, leq: (T, T) -> bool)
    requires TotalOrder(leq) && Sorted(s, leq)
    ensures Sorted(Insert(x, s, leq), leq)
    ensures multiset(Insert(x, s, leq)) == multiset(s) + multiset{x}
  {
    hide TotalOrder, Sorted;
    if s == [] {
      assert Insert(x, s, leq) == [x] + s;
      ConsIsSorted(x, s, leq);
    } else {
      assert s == [s[0]] + s[1..];
      OneWay(leq, x, s[0]);
      TailIsSorted(s, leq);
      if leq(x, s[0]) {
        forall j | 1 <= j < |s|
          ensures leq(x, s[j])
        {
          Chain(leq, x, s[0], s[j]);
        }
        ConsIsSorted(x, s, leq);
      } else {
        InsertIsSorted(x, s[1..], leq);
        var rest := Insert(x, s[1..], leq);
        forall j | 0 <= j < |rest|
          ensures leq(s[0], rest[j])
        {
          assert rest[j] in multiset(rest);
          if rest[j] != x {
            assert rest[j] in s[1..];
          }
        }
        ConsIsSorted(s[0], rest, leq);
      }
    }
  }

  lemma {:induction false} SortIsSorted<T(!new)>(s: seq<T>, leq: (T, T) -> bool)
    requires TotalOrder(leq)
    ensures Sorted(Sort(s, leq), leq) && multiset(Sort(s, leq)) == multiset(s)
  {
    if s != [] {
      SortIsSorted(s[1..], leq);
      InsertIsSorted(s[0], Sort(s[1..], leq), leq);
      assert s == [s[0]] + s[1..];
    }
  }

  lemma LeastComesFirst<T(!new)>(a: seq<T>, x: T, leq: (T, T) -> bool)
    requires TotalOrder(leq) && Sorted(a, leq) && x in multiset(a)
    ensures a != [] && leq(a[0], x)
  {
  }

  lemma TailMultiset<T>(a: seq<T>)
    requires a != []
    ensures multiset(a[1..]) == multiset(a) - multiset{a[0]}
  {
    assert a == [a[0]] + a[1..];
  }

  /** A collection has only one sorted arrangement. */
  lemma {:induction false} SortedIsUnique<T(!new)>(a: seq<T>, b: seq<T>, leq: (T, T) -> bool)
    requires TotalOrder(leq) && Sorted(a, leq) && Sorted(b, leq) && multiset(a) == multiset(b)
    ensures a == b
  {
    hide TotalOrder;
    if a == [] {
      assert |multiset(b)| == 0;
    } else {
      LeastComesFirst(b, a[0], leq);
      LeastComesFirst(a, b[0], leq);
      Antisymmetric(leq, a[0], b[0]);
      TailMultiset(a);
      TailMultiset(b);
      SortedIsUnique(a[1..], b[1..], leq);
      assert a == [a[0]] + a[1..] && b == [b[0]] + b[1..];
    }
  }

  /** Sorting forgets the order it was given, and nothing else. */
  lemma SortForgetsOrder<T(!new)>(a: seq<T>, b: seq<T>, leq: (T, T) -> bool)
    requires TotalOrder(leq)
    ensures Sort(a, leq) == Sort(b, leq) <==> multiset(a) == multiset(b)
  {
    SortIsSorted(a, leq);
    SortIsSorted(b, leq);
    if multiset(a) == multiset(b) {
      SortedIsUnique(Sort(a, leq), Sort(b, leq), leq);
    }
  }

  lemma SortOfSorted<T(!new)>(s: seq<T>, leq: (T, T) -> bool)
    requires TotalOrder(leq) && Sorted(s, leq)
    ensures Sort(s, leq) == s
  {
  }

  // ---- The orders of `String` and of pairs of strings ----

  predicate StringLeq(a: string, b: string) {
    a == "" || (b != "" && (a[0] < b[0] || (a[0] == b[0] && StringLeq(a[1..], b[1..]))))
  }

  predicate PairLeq(p: (string, string), q: (string, string)) {
    if p.0 == q.0 then StringLeq(p.1, q.1) else StringLeq(p.0, q.0)
  }

  /** Byte order: at the first position where two texts differ, the earlier one has ended or has the smaller byte. */
  ghost predicate Precedes(a: string, b: string) {
    a <= b || exists i :: 0 <= i < |a| && i < |b| && a[..i] == b[..i] && a[i] < b[i]
  }

  lemma {:induction false} StringLeqIsLexicographic(a: string, b: string)
    ensures StringLeq(a, b) <==> Precedes(a, b)
  {
    hide Precedes;
    if a == "" || b == "" {
      EmptyPrecedes(a, b);
    } else if a[0] == b[0] {
      StringLeqIsLexicographic(a[1..], b[1..]);
      SameStart(a, b);
    } else {
      FirstDecides(a, b);
    }
  }

  lemma EmptyPrecedes(a: string, b: string)
    requires a == "" || b == ""
    ensures Precedes(a, b) <==> a == ""
  {
  }

  lemma FirstDecides(a: string, b: string)
    requires a != "" && b != "" && a[0] != b[0]
    ensures Precedes(a, b) <==> a[0] < b[0]
  {
    assert a[..0] == b[..0];
    assert forall i :: 0 < i < |a| && i < |b| ==> a[..i][0] == a[0] && b[..i][0] == b[0];
  }

  /** Precedence of two texts with the same first character is that of the rest. */
  lemma SameStart(a: string, b: string)
    requires a != "" && b != "" && a[0] == b[0]
    ensures Precedes(a, b) <==> Precedes(a[1..], b[1..])
  {
    hide Precedes;
    if Precedes(a, b) {
      TailsOfPreceding(a, b);
    }
    if Precedes(a[1..], b[1..]) {
      TailsPrecede(a, b);
    }
  }

  lemma TailsOfPreceding(a: string, b: string)
    requires a != "" && b != "" && a[0] == b[0] && Precedes(a, b)
    ensures Precedes(a[1..], b[1..])
  {
    if a <= b {
      assert a[1..] == b[..|a|][1..] == b[1..][..|a| - 1];
    } else {
      var i :| 0 <= i < |a| && i < |b| && a[..i] == b[..i] && a[i] < b[i];
      CutTwice(a, i);
      CutTwice(b, i);
      assert a[1..][i - 1] < b[1..][i - 1];
    }
  }

  lemma TailsPrecede(a: string, b: string)
    requires a != "" && b != "" && a[0] == b[0] && Precedes(a[1..], b[1..])
    ensures Precedes(a, b)
  {
    var a', b' := a[1..], b[1..];
    assert a == [a[0]] + a' && b == [b[0]] + b';
    if !(a' <= b') {
      var i :| 0 <= i < |a'| && i < |b'| && a'[..i] == b'[..i] && a'[i] < b'[i];
      assert a[..i + 1] == [a[0]] + a'[..i] && b[..i + 1] == [b[0]] + b'[..i];
      assert a[i + 1] < b[i + 1];
    }
  }

  lemma CutTwice(s: string, i: nat)
    requires 1 <= i <= |s|
    ensures s[1..][..i - 1] == s[..i][1..]
  {
  }

  lemma {:induction false} StringLeqTotal(a: string, b: string)
    ensures StringLeq(a, b) || StringLeq(b, a)
    ensures StringLeq(a, b) && StringLeq(b, a) ==> a == b
  {
    if a != "" && b != "" && a[0] == b[0] {
      StringLeqTotal(a[1..], b[1..]);
      assert a == [a[0]] + a[1..] && b == [b[0]] + b[1..];
    }
  }

  lemma {:induction false} StringLeqTransitive(a: string, b: string, c: string)
    requires StringLeq(a, b) && StringLeq(b, c)
    ensures StringLeq(a, c)
  {
    if a != "" && a[0] == b[0] && b[0] == c[0] {
      StringLeqTransitive(a[1..], b[1..], c[1..]);
    }
  }

  lemma StringsAreOrdered()
    ensures TotalOrder(StringLeq)
  {
    forall a, b
      ensures StringLeq(a, b) || StringLeq(b, a)
      ensures StringLeq(a, b) && StringLeq(b, a) ==> a == b
    {
      StringLeqTotal(a, b);
    }
    forall a, b, c | StringLeq(a, b) && StringLeq(b, c)
      ensures StringLeq(a, c)
    {
      StringLeqTransitive(a, b, c);
    }
  }

  lemma PairsAreOrdered()
    ensures TotalOrder(PairLeq)
  {
    hide StringLeq;
    forall p, q
      ensures PairLeq(p, q) || PairLeq(q, p)
      ensures PairLeq(p, q) && PairLeq(q, p) ==> p == q
    {
      StringLeqTotal(p.0, q.0);
      StringLeqTotal(p.1, q.1);
    }
    forall p, q, r | PairLeq(p, q) && PairLeq(q, r)
      ensures PairLeq(p, r)
    {
      PairLeqTransitive(p, q, r);
    }
  }

  lemma PairLeqTransitive(p: (string, string), q: (string, string), r: (string, string))
    requires PairLeq(p, q) && PairLeq(q, r)
    ensures PairLeq(p, r)
  {
    hide StringLeq;
    if p.0 == q.0 && q.0 == r.0 {
      StringLeqTransitive(p.1, q.1, r.1);
    } else if p.0 != q.0 && q.0 != r.0 {
      StringLeqTransitive(p.0, q.0, r.0);
      StringLeqTotal(p.0, q.0);
    }
  }

  /** Sorted texts are in byte order. */
  lemma SortedTexts(s: seq<string>, i: nat, j: nat)
    requires i < j < |s|
    ensures j < |Sort(s, StringLeq)| && Precedes(Sort(s, StringLeq)[i], Sort(s, StringLeq)[j])
  {
    StringsAreOrdered();
    SortIsSorted(s, StringLeq);
    SameLength(Sort(s, StringLeq), s);
    StringLeqIsLexicographic(Sort(s, StringLeq)[i], Sort(s, StringLeq)[j]);
  }

  /** Sorted pairs are in the byte order of their first components, and among equal ones of their second. */
  lemma SortedPairs(s: seq<(string, string)>, i: nat, j: nat)
    requires i < j < |s|
    ensures j < |Sort(s, PairLeq)|
    ensures var p, q := Sort(s, PairLeq)[i], Sort(s, PairLeq)[j];
            if p.0 == q.0 then Precedes(p.1, q.1) else Precedes(p.0, q.0)
  {
    hide StringLeq, Precedes;
    PairsAreOrdered();
    SortIsSorted(s, PairLeq);
    SameLength(Sort(s, PairLeq), s);
    var p, q := Sort(s, PairLeq)[i], Sort(s, PairLeq)[j];
    StringLeqIsLexicographic(p.0, q.0);
    StringLeqIsLexicographic(p.1, q.1);
  }

  lemma SameLength<T>(a: seq<T>, b: seq<T>)
    requires multiset(a) == multiset(b)
    ensures |a| == |b|
  {
    assert |multiset(a)| == |a| && |multiset(b)| == |b|;
  }
}
