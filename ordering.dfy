/** Total orders, sortedness, a functional reference sort, the in-place sort
    that stands for `Arrays.sort` and `Collections.sort`, and the two orders
    the job sorts by: `char` order and `String.compareTo` order. */
module Ordering {

  /** `le` is a total order: total, antisymmetric and transitive. */
  ghost predicate TotalOrder<T(!new)>(le: (T, T) -> bool)
  {
    && (forall x, y :: le(x, y) || le(y, x))
    && (forall x, y :: le(x, y) && le(y, x) ==> x == y)
    && (forall x, y, z :: le(x, y) && le(y, z) ==> le(x, z))
  }

  ghost predicate SortedBy<T>(s: seq<T>, le: (T, T) -> bool)
  {
    forall i, j :: 0 <= i < j < |s| ==> le(s[i], s[j])
  }

  /** No element occurs twice. */
  ghost predicate Distinct<T>(s: seq<T>)
  {
    forall i, j :: 0 <= i < j < |s| ==> s[i] != s[j]
  }

  /** Inserts `x` before the first element it is `le`-below. */
  function Insert<T>(x: T, s: seq<T>, le: (T, T) -> bool): (r: seq<T>)
    ensures multiset(r) == multiset(s) + multiset{x}
  {
    if s == [] || le(x, s[0]) then [x] + s
    else
      assert s == [s[0]] + s[1..];
      [s[0]] + Insert(x, s[1..], le)
  }

  /** Insertion sort: the reference definition every sort of the model is
      proved equal to. */
  function Sort<T>(s: seq<T>, le: (T, T) -> bool): (r: seq<T>)
    ensures multiset(r) == multiset(s)
  {
    if s == [] then []
    else
      assert s == [s[0]] + s[1..];
      Insert(s[0], Sort(s[1..], le), le)
  }

  lemma {:induction false} InsertSorted<T(!new)>(x: T, s: seq<T>, le: (T, T) -> bool)
    requires TotalOrder(le)
    requires SortedBy(s, le)
    ensures SortedBy(Insert(x, s, le), le)
  {
    if s != [] && !le(x, s[0]) {
      var t := s[1..];
      assert SortedBy(t, le);
      InsertSorted(x, t, le);
      var r := Insert(x, t, le);
      forall k | 0 <= k < |r|
        ensures le(s[0], r[k])
      {
        assert r[k] in multiset(r);
        if r[k] != x {
          assert r[k] in multiset(t);
          var m :| 0 <= m < |t| && t[m] == r[k];
          assert t[m] == s[m + 1];
        }
      }
    }
  }

  lemma {:induction false} SortSorted<T(!new)>(s: seq<T>, le: (T, T) -> bool)
    requires TotalOrder(le)
    ensures SortedBy(Sort(s, le), le)
  {
    if s != [] {
      SortSorted(s[1..], le);
      InsertSorted(s[0], Sort(s[1..], le), le);
    }
  }

  /** A sorted permutation is unique: two sequences that are sorted by the
      same total order and hold the same elements are equal. */
  lemma {:induction false} SortedUnique<T(!new)>(a: seq<T>, b: seq<T>, le: (T, T) -> bool)
    requires TotalOrder(le)
    requires SortedBy(a, le) && SortedBy(b, le)
    requires multiset(a) == multiset(b)
    ensures a == b
  {
    assert |a| == |b| by {
      assert |a| == |multiset(a)| && |b| == |multiset(b)|;
    }
    if a != [] {
      assert a[0] == b[0] by {
        HeadIsLeast(b, a[0], le);
        HeadIsLeast(a, b[0], le);
      }
      var a', b' := a[1..], b[1..];
      assert a == [a[0]] + a' && b == [b[0]] + b';
      assert multiset(a') == multiset(b') by {
        assert multiset(a) == multiset{a[0]} + multiset(a');
        assert multiset(b) == multiset{a[0]} + multiset(b');
        assert multiset(a') == multiset(a) - multiset{a[0]};
        assert multiset(b') == multiset(b) - multiset{a[0]};
      }
      SortedTail(a, le);
      SortedTail(b, le);
      SortedUnique(a', b', le);
    }
  }

  lemma SortedTail<T>(s: seq<T>, le: (T, T) -> bool)
    requires SortedBy(s, le) && s != []
    ensures SortedBy(s[1..], le)
  {
    forall i, j | 0 <= i < j < |s| - 1
      ensures le(s[1..][i], s[1..][j])
    {
      assert s[1..][i] == s[i + 1] && s[1..][j] == s[j + 1];
    }
  }

  lemma HeadIsLeast<T>(s: seq<T>, x: T, le: (T, T) -> bool)
    requires SortedBy(s, le) && x in multiset(s)
    requires forall y :: le(y, y)
    ensures le(s[0], x)
  {
    var j :| 0 <= j < |s| && s[j] == x;
  }

  /** Whatever the order of its input, `Sort` gives the one sorted
      permutation of it. */
  lemma SortIsUnique<T(!new)>(s: seq<T>, q: seq<T>, le: (T, T) -> bool)
    requires TotalOrder(le)
    requires SortedBy(q, le) && multiset(q) == multiset(s)
    ensures q == Sort(s, le)
  {
    SortSorted(s, le);
    SortedUnique(q, Sort(s, le), le);
  }

  /** Sorts `a` in place, as `Arrays.sort` and `Collections.sort` do; the
      result is the reference sort of the old contents. */
  method SortInPlace<T(!new)>(a: array<T>, le: (T, T) -> bool)
    requires TotalOrder(le)
    modifies a
    ensures a[..] == Sort(old(a[..]), le)
  {
    var i := 0;
    while i < a.Length
      invariant 0 <= i <= a.Length
      invariant SortedBy(a[..i], le)
      invariant multiset(a[..]) == multiset(old(a[..]))
    {
      InsertAt(a, i, le);
      i := i + 1;
    }
    assert a[..a.Length] == a[..];
    SortIsUnique(old(a[..]), a[..], le);
  }

  /** One pass of the insertion sort: swaps `a[i]` down into the sorted
      prefix `a[..i]`, leaving `a[..i + 1]` sorted. */
  method InsertAt<T(!new)>(a: array<T>, i: nat, le: (T, T) -> bool)
    requires TotalOrder(le)
    requires i < a.Length && SortedBy(a[..i], le)
    modifies a
    ensures SortedBy(a[..i + 1], le)
    ensures multiset(a[..]) == multiset(old(a[..]))
    ensures forall k :: i < k < a.Length ==> a[k] == old(a[k])
  {
    var j := i;
    while 0 < j && !le(a[j - 1], a[j])
      invariant 0 <= j <= i
      invariant forall p, q :: 0 <= p < q <= i && p != j && q != j ==> le(a[p], a[q])
      invariant forall q :: j < q <= i ==> le(a[j], a[q])
      invariant multiset(a[..]) == multiset(old(a[..]))
      invariant forall k :: i < k < a.Length ==> a[k] == old(a[k])
    {
      a[j - 1], a[j] := a[j], a[j - 1];
      j := j - 1;
    }
    forall p | 0 <= p < j
      ensures le(a[p], a[j])
    {
      if p < j - 1 {
        assert le(a[p], a[j - 1]);
      }
    }
  }

  /** Some listing of a finite set, in no particular order: the order in
      which a `HashSet` happens to hand out its elements. */
  ghost function ListOf<T>(s: set<T>): (q: seq<T>)
    ensures multiset(q) == multiset(s)
  {
    if s == {} then []
    else
      var x :| x in s;
      [x] + ListOf(s - {x})
  }

  /** Lists the elements of a set one by one, in whatever order they are
      picked, as `new ArrayList(set)` does with a `HashSet`. */
  method Elements<T>(s: set<T>) returns (q: seq<T>)
    ensures multiset(q) == multiset(s)
  {
    q := [];
    var rest := s;
    while rest != {}
      invariant rest <= s
      invariant multiset(q) + multiset(rest) == multiset(s)
      decreases |rest|
    {
      var x :| x in rest;
      assert multiset(rest) == multiset(rest - {x}) + multiset{x};
      q := q + [x];
      rest := rest - {x};
    }
  }

  /** The elements of a finite set in ascending order. */
  ghost function SortedElements<T>(s: set<T>, le: (T, T) -> bool): (q: seq<T>)
  {
    Sort(ListOf(s), le)
  }

  /** A sequence holding each element of a set exactly once has no duplicates. */
  lemma ListsOfSetsAreDistinct<T>(q: seq<T>, s: set<T>)
    requires multiset(q) == multiset(s)
    ensures Distinct(q)
  {
    forall i, j | 0 <= i < j < |q|
      ensures q[i] != q[j]
    {
      var x := q[i];
      assert q == q[..j] + q[j..];
      assert multiset(q)[x] == multiset(q[..j])[x] + multiset(q[j..])[x];
      assert x in multiset(q[..j]);
      assert multiset(q[j..])[x] == 0;
      assert q[j] in multiset(q[j..]);
    }
  }

  /** The ascending listing of a set holds exactly its elements, once each,
      sorted; and it is the only sequence that does. */
  lemma SortedElementsSpec<T(!new)>(s: set<T>, le: (T, T) -> bool, q: seq<T>)
    requires TotalOrder(le)
    ensures var r := SortedElements(s, le);
      && SortedBy(r, le) && Distinct(r) && |r| == |s|
      && (forall x :: x in r <==> x in s)
      && (SortedBy(q, le) && multiset(q) == multiset(s) ==> q == r)
  {
    var r := SortedElements(s, le);
    SortSorted(ListOf(s), le);
    ListsOfSetsAreDistinct(r, s);
    assert |r| == |multiset(r)| == |multiset(s)| == |s|;
    forall x ensures x in r <==> x in s {
      assert x in r <==> x in multiset(r);
    }
    if SortedBy(q, le) && multiset(q) == multiset(s) {
      SortIsUnique(ListOf(s), q, le);
    }
  }

  /** The order of `char` values, used by `Arrays.sort(char[])`. */
  predicate CharLe(x: char, y: char)
  {
    x <= y
  }

  lemma CharLeIsTotalOrder()
    ensures TotalOrder(CharLe)
  {
  }

  /** `String.compareTo(a, b) <= 0`: lexicographic, with a proper prefix
      ordered first. */
  predicate LexLe(a: string, b: string)
  {
    a == [] || (b != [] && (a[0] < b[0] || (a[0] == b[0] && LexLe(a[1..], b[1..]))))
  }

  /** `a` sorts before `b` by `String.compareTo`'s documented rule: `a` is a
      prefix of `b`, or `a` has the smaller character at the first index
      where they differ. */
  ghost predicate CompareToLe(a: string, b: string)
  {
    a <= b || exists k :: 0 <= k < |a| && k < |b| && a[..k] == b[..k] && a[k] < b[k]
  }

  /** `LexLe` is the order `String.compareTo` documents. */
  lemma {:induction false} LexLeSpec(a: string, b: string)
    ensures LexLe(a, b) <==> CompareToLe(a, b)
  {
    if a != [] && b != [] {
      if a[0] < b[0] {
        assert a[..0] == b[..0];
      } else if a[0] == b[0] {
        LexLeSpec(a[1..], b[1..]);
        CompareToLeCons(a, b);
      } else {
        forall k | 0 < k <= |a| && k <= |b|
          ensures a[..k] != b[..k]
        {
          assert a[..k][0] != b[..k][0];
        }
      }
    }
  }

  /** Equal first characters do not decide the order: the rest does. */
  lemma CompareToLeCons(a: string, b: string)
    requires a != [] && b != [] && a[0] == b[0]
    ensures CompareToLe(a, b) <==> CompareToLe(a[1..], b[1..])
  {
    var a', b' := a[1..], b[1..];
    assert a <= b <==> a' <= b' by {
      assert a == [a[0]] + a' && b == [b[0]] + b';
    }
    if k :| 0 <= k < |a'| && k < |b'| && a'[..k] == b'[..k] && a'[k] < b'[k] {
      DifferAtCons(a, b, k + 1);
    }
    if k :| 0 <= k < |a| && k < |b| && a[..k] == b[..k] && a[k] < b[k] {
      DifferAtCons(a, b, k);
    }
  }

  lemma DifferAtCons(a: string, b: string, k: nat)
    requires a != [] && b != [] && a[0] == b[0]
    requires 0 < k < |a| && k < |b|
    ensures a[..k] == b[..k] <==> a[1..][..k - 1] == b[1..][..k - 1]
    ensures a[k] == a[1..][k - 1] && b[k] == b[1..][k - 1]
  {
    assert a[..k] == [a[0]] + a[1..][..k - 1];
    assert b[..k] == [b[0]] + b[1..][..k - 1];
  }

  lemma {:induction false} LexLeTotal(a: string, b: string)
    ensures LexLe(a, b) || LexLe(b, a)
  {
    if a != [] && b != [] && a[0] == b[0] {
      LexLeTotal(a[1..], b[1..]);
    }
  }

  lemma {:induction false} LexLeAntisymmetric(a: string, b: string)
    requires LexLe(a, b) && LexLe(b, a)
    ensures a == b
  {
    if a != [] {
      LexLeAntisymmetric(a[1..], b[1..]);
      assert a == [a[0]] + a[1..] && b == [b[0]] + b[1..];
    }
  }

  lemma {:induction false} LexLeTransitive(a: string, b: string, c: string)
    requires LexLe(a, b) && LexLe(b, c)
    ensures LexLe(a, c)
  {
    if a != [] && a[0] == b[0] && b[0] == c[0] {
      LexLeTransitive(a[1..], b[1..], c[1..]);
    }
  }

  lemma LexLeIsTotalOrder()
    ensures TotalOrder(LexLe)
  {
    forall a, b ensures LexLe(a, b) || LexLe(b, a) {
      LexLeTotal(a, b);
    }
    forall a, b | LexLe(a, b) && LexLe(b, a) ensures a == b {
      LexLeAntisymmetric(a, b);
    }
    forall a, b, c | LexLe(a, b) && LexLe(b, c) ensures LexLe(a, c) {
      LexLeTransitive(a, b, c);
    }
  }
}
