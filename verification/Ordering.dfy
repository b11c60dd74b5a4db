/** Strings in code point order, stable sorting, and why a sorted arrangement is unique. */
module Ordering {

  // ---- Strings ----

  /** The strict order of `str`: UTF-8 compares like code points. */
  predicate Less(a: string, b: string)
    decreases |a|
  {
    b != "" && (a == "" || a[0] < b[0] || (a[0] == b[0] && Less(a[1..], b[1..])))
  }

  lemma {:induction false} LessTransitive(a: string, b: string, c: string)
    requires Less(a, b) && Less(b, c)
    ensures Less(a, c)
    decreases |a|
  {
    if a != "" && a[0] == b[0] && b[0] == c[0] {
      LessTransitive(a[1..], b[1..], c[1..]);
    }
  }

  lemma {:induction false} LessTotal(a: string, b: string)
    ensures Less(a, b) || Less(b, a) || a == b
    ensures !(Less(a, b) && Less(b, a))
    ensures !Less(a, a)
    decreases |a|
  {
    if a == "" {
    } else {
      if b != "" && a[0] == b[0] {
        LessTotal(a[1..], b[1..]);
        assert a[1..] == b[1..] ==> a == [a[0]] + a[1..] == [b[0]] + b[1..] == b;
      }
      LessTotal(a[1..], a[1..]);
    }
  }

  /** One string is a proper beginning of the other, or at the first difference it has the smaller character. */
  ghost predicate Precedes(a: string, b: string, k: int) {
    0 <= k <= |a| && k < |b| && a[..k] == b[..k] && (k == |a| || a[k] < b[k])
  }

  lemma SameStart(a: string, b: string, k: int)
    requires Precedes(a, b, k) && k > 0
    ensures a != "" && b != "" && a[0] == b[0]
  {
    assert a[..k][0] == b[..k][0];
  }

  lemma {:induction false} LessExactly(a: string, b: string)
    ensures Less(a, b) <==> exists k :: Precedes(a, b, k)
    decreases |a|
  {
    if a == "" || b == "" || a[0] != b[0] {
      assert b != "" && (a == "" || a[0] < b[0]) ==> Precedes(a, b, 0);
      forall k | Precedes(a, b, k) && k > 0
        ensures false
      {
        SameStart(a, b, k);
      }
    } else {
      LessExactly(a[1..], b[1..]);
      if k :| Precedes(a[1..], b[1..], k) {
        assert a[..k + 1] == [a[0]] + a[1..][..k] && b[..k + 1] == [b[0]] + b[1..][..k];
        assert Precedes(a, b, k + 1);
      }
      if k :| Precedes(a, b, k) {
        assert a[1..][..k - 1] == a[..k][1..] && b[1..][..k - 1] == b[..k][1..];
        assert Precedes(a[1..], b[1..], k - 1);
      }
    }
  }

  // ---- Sorting ----

  /** Total and transitive. */
  ghost predicate Preorder<T(!new)>(le: (T, T) -> bool) {
    && (forall x, y :: le(x, y) || le(y, x))
    && (forall x, y, z :: le(x, y) && le(y, z) ==> le(x, z))
  }

  ghost predicate Sorted<T>(le: (T, T) -> bool, s: seq<T>) {
    forall i, j :: 0 <= i < j < |s| ==> le(s[i], s[j])
  }

  /** Insert behind everything that is not greater. */
  function Insert<T>(le: (T, T) -> bool, s: seq<T>, x: T): seq<T>
    decreases |s|
  {
    if s == [] || le(s[|s| - 1], x) then s + [x] else Insert(le, s[..|s| - 1], x) + [s[|s| - 1]]
  }

  /** `sort_by`: a stable sort. */
  function SortBy<T>(le: (T, T) -> bool, s: seq<T>): seq<T>
    decreases |s|
  {
    if s == [] then [] else Insert(le, SortBy(le, s[..|s| - 1]), s[|s| - 1])
  }

  lemma {:induction false} InsertSorted<T(!new)>(le: (T, T) -> bool, s: seq<T>, x: T)
    requires Preorder(le) && Sorted(le, s)
    ensures Sorted(le, Insert(le, s, x)) && multiset(Insert(le, s, x)) == multiset(s) + multiset{x}
    decreases |s|
  {
    if s == [] {
    } else {
      var front, last := s[..|s| - 1], s[|s| - 1];
      assert s == front + [last];
      if le(last, x) {
        forall i | 0 <= i < |s|
          ensures le(s[i], x)
        {
          assert i < |s| - 1 ==> le(s[i], last);
        }
      } else {
        InsertSorted(le, front, x);
        var r := Insert(le, front, x);
        forall i | 0 <= i < |r|
          ensures le(r[i], last)
        {
          assert r[i] in multiset(r);
          assert r[i] in front || r[i] == x;
        }
      }
    }
  }

  lemma {:induction false} SortSorted<T(!new)>(le: (T, T) -> bool, s: seq<T>)
    requires Preorder(le)
    ensures Sorted(le, SortBy(le, s)) && multiset(SortBy(le, s)) == multiset(s)
    decreases |s|
  {
    if s == [] {
    } else {
      var front, last := s[..|s| - 1], s[|s| - 1];
      assert s == front + [last];
      SortSorted(le, front);
      InsertSorted(le, SortBy(le, front), last);
    }
  }

  // ---- Uniqueness ----

  /** No two different elements of `s` are equal in the order. */
  ghost predicate Strict<T>(le: (T, T) -> bool, s: seq<T>) {
    forall x, y :: x in s && y in s && le(x, y) && le(y, x) ==> x == y
  }

  /** Two sorted arrangements of the same elements, no two of them equal in the order, are one. */
  lemma {:induction false} SortedUnique<T>(le: (T, T) -> bool, a: seq<T>, b: seq<T>)
    requires Sorted(le, a) && Sorted(le, b) && multiset(a) == multiset(b) && Strict(le, a)
    ensures a == b
    decreases |a|
  {
    if a == [] || b == [] {
      EmptyTogether(a, b);
    } else {
      TailsMatch(le, a, b);
      SortedUnique(le, a[1..], b[1..]);
      ConsEqual(a, b);
    }
  }

  lemma EmptyTogether<T>(a: seq<T>, b: seq<T>)
    requires multiset(a) == multiset(b) && (a == [] || b == [])
    ensures a == b
  {
    assert |multiset(a)| == |a| && |multiset(b)| == |b|;
  }

  lemma ConsEqual<T>(a: seq<T>, b: seq<T>)
    requires a != [] && b != [] && a[0] == b[0] && a[1..] == b[1..]
    ensures a == b
  {
    assert a == [a[0]] + a[1..] && b == [b[0]] + b[1..];
  }

  lemma TailsMatch<T>(le: (T, T) -> bool, a: seq<T>, b: seq<T>)
    requires Sorted(le, a) && Sorted(le, b) && multiset(a) == multiset(b) && Strict(le, a) && a != [] && b != []
    ensures a[0] == b[0] && Sorted(le, a[1..]) && Sorted(le, b[1..]) && Strict(le, a[1..])
    ensures multiset(a[1..]) == multiset(b[1..])
  {
    HeadsAgree(le, a, b);
    TailMultiset(a);
    TailMultiset(b);
    TailSorted(le, a);
    TailSorted(le, b);
  }

  lemma TailMultiset<T>(s: seq<T>)
    requires s != []
    ensures multiset(s[1..]) == multiset(s) - multiset{s[0]}
  {
    assert s == [s[0]] + s[1..];
  }

  lemma TailSorted<T>(le: (T, T) -> bool, s: seq<T>)
    requires s != [] && Sorted(le, s)
    ensures Sorted(le, s[1..]) && (Strict(le, s) ==> Strict(le, s[1..]))
  {
  }

  lemma HeadsAgree<T>(le: (T, T) -> bool, a: seq<T>, b: seq<T>)
    requires Sorted(le, a) && Sorted(le, b) && multiset(a) == multiset(b) && Strict(le, a) && a != [] && b != []
    ensures a[0] == b[0]
  {
    assert a[0] in multiset(b) && b[0] in multiset(a);
    var i :| 0 <= i < |b| && b[i] == a[0];
    var j :| 0 <= j < |a| && a[j] == b[0];
  }

  ghost predicate Distinct<T>(s: seq<T>) {
    forall i, j :: 0 <= i < j < |s| ==> s[i] != s[j]
  }

  /** Two lists without repetition and with the same elements are arrangements of each other. */
  lemma {:induction false} SameElements<T>(a: seq<T>, b: seq<T>)
    requires Distinct(a) && Distinct(b) && (forall x :: x in a <==> x in b)
    ensures multiset(a) == multiset(b)
  {
    forall x
      ensures multiset(a)[x] == multiset(b)[x]
    {
      CountOne(a, x);
      CountOne(b, x);
    }
  }

  lemma {:induction false} CountOne<T>(s: seq<T>, x: T)
    requires Distinct(s)
    ensures multiset(s)[x] == if x in s then 1 else 0
    decreases |s|
  {
    if s == [] {
    } else {
      CountOne(s[1..], x);
      assert s == [s[0]] + s[1..];
      assert multiset(s) == multiset{s[0]} + multiset(s[1..]);
    }
  }

  /** An arrangement of a list without repetition has none either. */
  lemma {:induction false} DistinctArranged<T>(a: seq<T>, b: seq<T>)
    requires Distinct(a) && multiset(a) == multiset(b)
    ensures Distinct(b)
  {
    forall i, j | 0 <= i < j < |b|
      ensures b[i] != b[j]
    {
      if b[i] == b[j] {
        CountTwo(b, i, j);
        CountOne(a, b[i]);
      }
    }
  }

  lemma CountTwo<T>(s: seq<T>, i: nat, j: nat)
    requires i < j < |s| && s[i] == s[j]
    ensures multiset(s)[s[i]] >= 2
  {
    assert s == s[..j] + [s[j]] + s[j + 1..];
    assert s[i] in s[..j];
  }

  lemma SameMembers<T>(a: seq<T>, b: seq<T>)
    requires multiset(a) == multiset(b)
    ensures forall x :: x in a <==> x in b
  {
    assert forall x :: x in a <==> x in multiset(a);
    assert forall x :: x in b <==> x in multiset(b);
  }

  /** The last element of one arrangement, found in the middle of another. */
  lemma PullOut<T>(a: seq<T>, b: seq<T>) returns (left: seq<T>, right: seq<T>)
    requires a != [] && multiset(a) == multiset(b)
    ensures b == left + [a[|a| - 1]] + right && multiset(a[..|a| - 1]) == multiset(left + right)
  {
    var front, last := a[..|a| - 1], a[|a| - 1];
    assert a == front + [last];
    assert last in multiset(b);
    var j :| 0 <= j < |b| && b[j] == last;
    left, right := b[..j], b[j + 1..];
    assert b == left + [last] + right;
    assert multiset(front) == multiset(a) - multiset{last};
    assert multiset(left + right) == multiset(b) - multiset{last};
  }

  // ---- Strict orders ----

  /** Asymmetric, and not coming after is transitive. */
  ghost predicate WeakOrder<T(!new)>(before: (T, T) -> bool) {
    && (forall x, y :: before(x, y) ==> !before(y, x))
    && (forall x, y, z :: !before(y, x) && !before(z, y) ==> !before(z, x))
  }

  function NotAfter<T>(before: (T, T) -> bool): (T, T) -> bool {
    (a: T, b: T) => !before(b, a)
  }

  ghost predicate InOrder<T>(before: (T, T) -> bool, s: seq<T>) {
    forall i, j :: 0 <= i < j < |s| ==> before(s[i], s[j])
  }

  /** Sorting elements of which one always comes first leaves them strictly ordered. */
  lemma SortInOrder<T(!new)>(before: (T, T) -> bool, s: seq<T>)
    requires WeakOrder(before) && Distinct(s)
    requires forall x, y :: x in s && y in s && x != y ==> before(x, y) || before(y, x)
    ensures var sorted := SortBy(NotAfter(before), s); InOrder(before, sorted) && multiset(sorted) == multiset(s)
  {
    var sorted := SortBy(NotAfter(before), s);
    SortSorted(NotAfter(before), s);
    DistinctArranged(s, sorted);
    SameMembers(sorted, s);
    forall i, j | 0 <= i < j < |sorted|
      ensures before(sorted[i], sorted[j])
    {
      assert NotAfter(before)(sorted[i], sorted[j]) && sorted[i] in sorted && sorted[j] in sorted;
    }
  }

  /** Strictly ordered lists with the same members are the same. */
  lemma InOrderUnique<T(!new)>(before: (T, T) -> bool, a: seq<T>, b: seq<T>)
    requires WeakOrder(before) && InOrder(before, a) && InOrder(before, b) && forall x :: x in a <==> x in b
    ensures a == b
  {
    InOrderFacts(before, a);
    InOrderFacts(before, b);
    SameElements(a, b);
    SortedUnique(NotAfter(before), a, b);
  }

  lemma InOrderFacts<T(!new)>(before: (T, T) -> bool, a: seq<T>)
    requires WeakOrder(before) && InOrder(before, a)
    ensures Distinct(a) && Sorted(NotAfter(before), a) && Strict(NotAfter(before), a)
  {
    forall x, y | x in a && y in a && !before(x, y) && !before(y, x)
      ensures x == y
    {
      var i :| 0 <= i < |a| && a[i] == x;
      var j :| 0 <= j < |a| && a[j] == y;
    }
  }
}
