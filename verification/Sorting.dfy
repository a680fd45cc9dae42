/** Lexicographic order and the sorted form of a list: what any comparison sort returns. */
module Sorting {

  /** Element-wise lexicographic order: bytes.Compare(a, b) < 0 on bytes. */
  predicate LexLess(a: seq<int>, b: seq<int>) {
    if b == [] then false
    else if a == [] then true
    else if a[0] != b[0] then a[0] < b[0]
    else LexLess(a[1..], b[1..])
  }

  lemma {:induction false} LexTotal(a: seq<int>, b: seq<int>)
    ensures a == b || LexLess(a, b) || LexLess(b, a)
  {
    if a != [] && b != [] && a[0] == b[0] {
      LexTotal(a[1..], b[1..]);
      assert a == [a[0]] + a[1..] && b == [b[0]] + b[1..];
    }
  }

  lemma {:induction false} LexAsymmetric(a: seq<int>, b: seq<int>)
    requires LexLess(a, b)
    ensures !LexLess(b, a) && a != b
  {
    if a != [] && b != [] && a[0] == b[0] {
      LexAsymmetric(a[1..], b[1..]);
    }
  }

  lemma {:induction false} LexTransitive(a: seq<int>, b: seq<int>, c: seq<int>)
    requires LexLess(a, b) && LexLess(b, c)
    ensures LexLess(a, c)
  {
    if a != [] && a[0] == b[0] == c[0] {
      LexTransitive(a[1..], b[1..], c[1..]);
    }
  }

  /** s ascends strictly under the sort key f. */
  ghost predicate Ascending<T(!new)>(f: T -> seq<int>, s: seq<T>) {
    forall i, j :: 0 <= i < j < |s| ==> LexLess(f(s[i]), f(s[j]))
  }

  /** s is sorted under f: no later element is smaller. */
  ghost predicate Sorted<T(!new)>(f: T -> seq<int>, s: seq<T>) {
    forall i, j :: 0 <= i < j < |s| ==> !LexLess(f(s[j]), f(s[i]))
  }

  ghost predicate Injective<T(!new)>(f: T -> seq<int>) {
    forall x, y :: f(x) == f(y) ==> x == y
  }

  function Insert<T>(f: T -> seq<int>, x: T, s: seq<T>): seq<T> {
    if s == [] then [x]
    else if LexLess(f(s[0]), f(x)) then [s[0]] + Insert(f, x, s[1..])
    else [x] + s
  }

  function Sort<T>(f: T -> seq<int>, s: seq<T>): seq<T> {
    if s == [] then [] else Insert(f, s[0], Sort(f, s[1..]))
  }

  lemma SortNil<T>(f: T -> seq<int>)
    ensures Sort(f, []) == []
  {
  }

  lemma SortCons<T>(f: T -> seq<int>, s: seq<T>)
    requires s != []
    ensures Sort(f, s) == Insert(f, s[0], Sort(f, s[1..]))
  {
  }

  /** Where a scan past the smaller elements stops is where Insert puts the new one. */
  lemma {:induction false} InsertAt<T>(f: T -> seq<int>, x: T, s: seq<T>, i: nat)
    requires i <= |s|
    requires forall m :: 0 <= m < i ==> LexLess(f(s[m]), f(x))
    requires i == |s| || !LexLess(f(s[i]), f(x))
    ensures Insert(f, x, s) == s[..i] + [x] + s[i..]
  {
    hide LexLess;
    if i > 0 {
      InsertAt(f, x, s[1..], i - 1);
      assert s[..i] == [s[0]] + s[1..][..i - 1];
      assert s[1..][i - 1..] == s[i..];
    } else {
      assert s[..0] + [x] + s[0..] == [x] + s;
    }
  }

  lemma {:induction false} InsertMultiset<T>(f: T -> seq<int>, x: T, s: seq<T>)
    ensures multiset(Insert(f, x, s)) == multiset(s) + multiset{x}
  {
    if s != [] && LexLess(f(s[0]), f(x)) {
      InsertMultiset(f, x, s[1..]);
      assert s == [s[0]] + s[1..];
    }
  }

  /** Every element a sequence holds below its head is at least its head. */
  lemma SortedCons<T(!new)>(f: T -> seq<int>, x: T, s: seq<T>)
    requires Sorted(f, s)
    requires forall y :: y in s ==> !LexLess(f(y), f(x))
    ensures Sorted(f, [x] + s)
  {
    var r := [x] + s;
    forall i, j | 0 <= i < j < |r|
      ensures !LexLess(f(r[j]), f(r[i]))
    {
      assert r[j] == s[j - 1] && s[j - 1] in s;
      if i > 0 { assert r[i] == s[i - 1]; }
    }
  }

  lemma NotLessTransitive(a: seq<int>, b: seq<int>, c: seq<int>)
    requires !LexLess(b, a) && !LexLess(c, b)
    ensures !LexLess(c, a)
  {
    LexTotal(a, b);
    LexTotal(b, c);
    if LexLess(c, a) {
      if a != b { LexTransitive(c, a, b); }
      if b != c && a != b { LexAsymmetric(b, c); }
    }
  }

  lemma {:induction false} InsertSorted<T(!new)>(f: T -> seq<int>, x: T, s: seq<T>)
    requires Sorted(f, s)
    ensures Sorted(f, Insert(f, x, s))
  {
    if s == [] {
    } else if LexLess(f(s[0]), f(x)) {
      LexAsymmetric(f(s[0]), f(x));
      InsertSorted(f, x, s[1..]);
      InsertMultiset(f, x, s[1..]);
      var rest := Insert(f, x, s[1..]);
      forall y | y in rest
        ensures !LexLess(f(y), f(s[0]))
      {
        assert y in multiset(rest);
        assert y == x || y in s[1..];
      }
      SortedCons(f, s[0], rest);
    } else {
      forall y | y in s
        ensures !LexLess(f(y), f(x))
      {
        var i :| 0 <= i < |s| && s[i] == y;
        if i > 0 { NotLessTransitive(f(x), f(s[0]), f(y)); }
      }
      SortedCons(f, x, s);
    }
  }

  /** Sort returns a sorted permutation. */
  lemma {:induction false} SortCorrect<T(!new)>(f: T -> seq<int>, s: seq<T>)
    ensures Sorted(f, Sort(f, s)) && multiset(Sort(f, s)) == multiset(s)
    ensures |Sort(f, s)| == |s|
  {
    if s != [] {
      SortCorrect(f, s[1..]);
      InsertSorted(f, s[0], Sort(f, s[1..]));
      InsertMultiset(f, s[0], Sort(f, s[1..]));
      assert s == [s[0]] + s[1..];
    }
    assert |multiset(Sort(f, s))| == |multiset(s)|;
  }

  lemma SortedHead<T(!new)>(f: T -> seq<int>, s: seq<T>, x: T)
    requires Sorted(f, s) && x in multiset(s)
    ensures s != [] && !LexLess(f(x), f(s[0]))
  {
    hide LexLess;
    var i :| 0 <= i < |s| && s[i] == x;
    if i == 0 { NotLessSelf(f(x)); }
  }

  lemma {:induction false} NotLessSelf(a: seq<int>)
    ensures !LexLess(a, a)
  {
    if a != [] { NotLessSelf(a[1..]); }
  }

  lemma SortedTail<T(!new)>(f: T -> seq<int>, s: seq<T>)
    requires Sorted(f, s) && s != []
    ensures Sorted(f, s[1..])
  {
    hide LexLess;
  }

  /** Two sorted lists of the same elements have the same head. */
  lemma SameHead<T(!new)>(f: T -> seq<int>, s: seq<T>, t: seq<T>)
    requires Injective(f) && Sorted(f, s) && Sorted(f, t) && multiset(s) == multiset(t) && s != []
    ensures t != [] && s[0] == t[0]
  {
    hide LexLess, Sorted;
    assert s[0] in multiset(s);
    SortedHead(f, t, s[0]);
    assert t[0] in multiset(t);
    SortedHead(f, s, t[0]);
    LexTotal(f(s[0]), f(t[0]));
  }

  lemma TailMultiset<T>(s: seq<T>)
    requires s != []
    ensures multiset(s[1..]) == multiset(s) - multiset{s[0]}
  {
    assert s == [s[0]] + s[1..];
  }

  /** Under an injective key there is only one sorted permutation, so the result does not depend
      on the sorting algorithm nor on the input order. */
  lemma {:induction false} SortedUnique<T(!new)>(f: T -> seq<int>, s: seq<T>, t: seq<T>)
    requires Injective(f) && Sorted(f, s) && Sorted(f, t)
    requires multiset(s) == multiset(t)
    ensures s == t
  {
    hide LexLess, Sorted, Injective;
    if s == [] {
      assert |t| == |multiset(t)| == 0;
    } else {
      SameHead(f, s, t);
      TailMultiset(s);
      TailMultiset(t);
      SortedTail(f, s);
      SortedTail(f, t);
      SortedUnique(f, s[1..], t[1..]);
      assert s == [s[0]] + s[1..] && t == [t[0]] + t[1..];
    }
  }

  lemma SortPermutation<T(!new)>(f: T -> seq<int>, s: seq<T>, t: seq<T>)
    requires Injective(f) && multiset(s) == multiset(t)
    ensures Sort(f, s) == Sort(f, t)
  {
    SortCorrect(f, s);
    SortCorrect(f, t);
    SortedUnique(f, Sort(f, s), Sort(f, t));
  }

  /** A sorted list whose neighbours differ ascends strictly. */
  lemma {:induction false} AdjacentDistinctAscending<T(!new)>(f: T -> seq<int>, s: seq<T>)
    requires Injective(f) && Sorted(f, s)
    requires forall i :: 0 < i < |s| ==> s[i - 1] != s[i]
    ensures Ascending(f, s)
  {
    forall i, j | 0 <= i < j < |s|
      ensures LexLess(f(s[i]), f(s[j]))
    {
      LexTotal(f(s[i]), f(s[j]));
      if f(s[i]) == f(s[j]) {
        assert s[i] == s[j];
        assert !LexLess(f(s[i + 1]), f(s[i]));
        assert i + 1 == j || !LexLess(f(s[j]), f(s[i + 1]));
        LexTotal(f(s[i]), f(s[i + 1]));
      }
    }
  }

  lemma AscendingIsSorted<T(!new)>(f: T -> seq<int>, s: seq<T>)
    requires Ascending(f, s)
    ensures Sorted(f, s)
    ensures forall i, j :: 0 <= i < j < |s| ==> s[i] != s[j]
  {
    forall i, j | 0 <= i < j < |s|
      ensures !LexLess(f(s[j]), f(s[i])) && s[i] != s[j]
    {
      LexAsymmetric(f(s[i]), f(s[j]));
    }
  }
}
