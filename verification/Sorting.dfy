/** Python's stable `sorted`, for an order given as a predicate. */
module Sorting {
  import opened Text

  ghost predicate TotalPreorder<T(!new)>(le: (T, T) -> bool) {
    && (forall x, y :: le(x, y) || le(y, x))
    && (forall x, y, z :: le(x, y) && le(y, z) ==> le(x, z))
  }

  ghost predicate Sorted<T>(le: (T, T) -> bool, s: seq<T>) {
    forall i, j | 0 <= i < j < |s| :: le(s[i], s[j])
  }

  /** `x` goes before the elements it does not exceed, so that equal elements keep their order. */
  function Insert<T>(le: (T, T) -> bool, x: T, s: seq<T>): seq<T> {
    if s == [] then [x] else if le(x, s[0]) then [x] + s else [s[0]] + Insert(le, x, s[1..])
  }

  function Sort<T>(le: (T, T) -> bool, s: seq<T>): seq<T> {
    if s == [] then [] else Insert(le, s[0], Sort(le, s[1..]))
  }

  lemma {:induction false} InsertPermutes<T>(le: (T, T) -> bool, x: T, s: seq<T>)
    ensures multiset(Insert(le, x, s)) == multiset{x} + multiset(s)
  {
    if s == [] {
    } else {
      assert s == [s[0]] + s[1..];
      if !le(x, s[0]) {
        InsertPermutes(le, x, s[1..]);
      }
    }
  }

  lemma {:induction false} SortPermutes<T>(le: (T, T) -> bool, s: seq<T>)
    ensures multiset(Sort(le, s)) == multiset(s)
    ensures |Sort(le, s)| == |s|
  {
    if s == [] {
    } else {
      SortPermutes(le, s[1..]);
      InsertPermutes(le, s[0], Sort(le, s[1..]));
      assert s == [s[0]] + s[1..];
    }
    assert |Sort(le, s)| == |multiset(Sort(le, s))| == |multiset(s)| == |s|;
  }

  lemma {:induction false} InsertSorted<T(!new)>(le: (T, T) -> bool, x: T, s: seq<T>)
    requires TotalPreorder(le) && Sorted(le, s)
    ensures Sorted(le, Insert(le, x, s))
  {
    if s != [] && !le(x, s[0]) {
      var rest := Insert(le, x, s[1..]);
      InsertSorted(le, x, s[1..]);
      InsertPermutes(le, x, s[1..]);
      forall j | 0 <= j < |rest|
        ensures le(s[0], rest[j])
      {
        assert rest[j] in multiset(rest);
        assert rest[j] == x || rest[j] in s[1..];
      }
    }
  }

  lemma {:induction false} SortSorted<T(!new)>(le: (T, T) -> bool, s: seq<T>)
    requires TotalPreorder(le)
    ensures Sorted(le, Sort(le, s))
  {
    if s == [] {
    } else {
      SortSorted(le, s[1..]);
      InsertSorted(le, s[0], Sort(le, s[1..]));
    }
  }

  /** A multiset has one sorted arrangement when equivalent elements are equal. */
  lemma {:induction false} SortedUnique<T(!new)>(le: (T, T) -> bool, a: seq<T>, b: seq<T>)
    requires TotalPreorder(le) && Sorted(le, a) && Sorted(le, b) && multiset(a) == multiset(b)
    requires forall x, y | x in a && y in a && le(x, y) && le(y, x) :: x == y
    ensures a == b
  {
    hide *;
    SameSize(a, b);
    if a == [] {
      assert b == [];
    } else {
      SameHead(le, a, b);
      SameTail(a, b, 0);
      SortedTail(le, a);
      SortedTail(le, b);
      assert b[..0] + b[1..] == b[1..];
      SortedUnique(le, a[1..], b[1..]);
      assert a == [a[0]] + a[1..] && b == [b[0]] + b[1..];
    }
  }

  lemma SameSize<T>(a: seq<T>, b: seq<T>)
    requires multiset(a) == multiset(b)
    ensures |a| == |b| && forall x :: x in a <==> x in b
  {
    assert |a| == |multiset(a)| == |multiset(b)| == |b|;
    forall x
      ensures x in a <==> x in b
    {
      assert x in a <==> x in multiset(a);
      assert x in b <==> x in multiset(b);
    }
  }

  lemma SameHead<T(!new)>(le: (T, T) -> bool, a: seq<T>, b: seq<T>)
    requires TotalPreorder(le) && Sorted(le, a) && Sorted(le, b) && multiset(a) == multiset(b) && a != []
    requires forall x, y | x in a && y in a && le(x, y) && le(y, x) :: x == y
    ensures b != [] && a[0] == b[0]
  {
    SameSize(a, b);
    LeastFirst(le, a, b[0]);
    LeastFirst(le, b, a[0]);
  }

  lemma LeastFirst<T(!new)>(le: (T, T) -> bool, s: seq<T>, x: T)
    requires TotalPreorder(le) && Sorted(le, s) && x in s
    ensures le(s[0], x)
  {
    var i :| 0 <= i < |s| && s[i] == x;
  }

  lemma SortedTail<T>(le: (T, T) -> bool, s: seq<T>)
    requires Sorted(le, s) && s != []
    ensures Sorted(le, s[1..])
  {
  }

  /** Taking one element out of both leaves permutations of each other. */
  lemma SameTail<T>(a: seq<T>, b: seq<T>, k: nat)
    requires multiset(a) == multiset(b) && a != [] && k < |b| && b[k] == a[0]
    ensures multiset(a[1..]) == multiset(b[..k] + b[k + 1..])
  {
    assert a == [a[0]] + a[1..];
    assert b == b[..k] + [b[k]] + b[k + 1..];
    assert multiset(a[1..]) == multiset(a) - multiset{a[0]};
    assert multiset(b[..k] + b[k + 1..]) == multiset(b) - multiset{b[k]};
  }

  lemma LexIsTotalPreorder()
    ensures TotalPreorder(LexLe)
  {
    forall x, y
      ensures LexLe(x, y) || LexLe(y, x)
    {
      LexTotal(x, y);
    }
    forall x, y, z | LexLe(x, y) && LexLe(y, z)
      ensures LexLe(x, z)
    {
      LexTransitive(x, y, z);
    }
  }

  // ----- sorted lists of distinct strings -----

  /** `r` is `sorted(s)` for a set of strings. */
  predicate Enumerates(r: seq<string>, s: set<string>) {
    && (forall x | x in s :: x in r)
    && (forall i | 0 <= i < |r| :: r[i] in s)
    && (forall i, j | 0 <= i < j < |r| :: LexLe(r[i], r[j]) && r[i] != r[j])
  }

  method SortedList(s: set<string>) returns (r: seq<string>)
    ensures Enumerates(r, s)
  {
    var items: seq<string> := [];
    var todo := s;
    while todo != {}
      invariant todo <= s
      invariant forall x :: x in items <==> x in s - todo
      invariant forall i, j | 0 <= i < j < |items| :: items[i] != items[j]
    {
      var x :| x in todo;
      items, todo := items + [x], todo - {x};
    }
    r := Sort(LexLe, items);
    LexIsTotalPreorder();
    SortSorted(LexLe, items);
    SortKeepsDistinct(LexLe, items);
    forall x
      ensures x in r <==> x in items
    {
      assert x in r <==> x in multiset(r);
      SortPermutes(LexLe, items);
      assert x in items <==> x in multiset(items);
    }
    assert forall i | 0 <= i < |r| :: r[i] in r;
  }

  predicate NoRepeats<T(==)>(s: seq<T>) {
    forall i, j | 0 <= i < j < |s| :: s[i] != s[j]
  }

  lemma NoRepeatsAppend<T>(a: seq<T>, b: seq<T>)
    ensures NoRepeats(a + b) <==> NoRepeats(a) && NoRepeats(b) && forall x | x in a :: x !in b
  {
    var s := a + b;
    assert forall i | 0 <= i < |a| :: s[i] == a[i];
    assert forall i | 0 <= i < |b| :: s[|a| + i] == b[i];
    if NoRepeats(a) && NoRepeats(b) && forall x | x in a :: x !in b {
      forall i, j | 0 <= i < j < |s|
        ensures s[i] != s[j]
      {
        if i < |a| <= j {
          assert a[i] in a && b[j - |a|] in b;
        } else if |a| <= i {
          assert b[i - |a|] != b[j - |a|];
        }
      }
    }
    if NoRepeats(s) {
      forall i, j | 0 <= i < j < |a|
        ensures a[i] != a[j]
      {
        assert s[i] != s[j];
      }
      forall i, j | 0 <= i < j < |b|
        ensures b[i] != b[j]
      {
        assert s[|a| + i] != s[|a| + j];
      }
      forall i, j | 0 <= i < |a| && 0 <= j < |b|
        ensures a[i] != b[j]
      {
        assert s[i] != s[|a| + j];
      }
    }
  }

  lemma {:induction false} NoRepeatsMultiset<T>(s: seq<T>)
    ensures NoRepeats(s) <==> forall x | x in s :: multiset(s)[x] == 1
  {
    if s == [] {
    } else {
      var init, last := s[..|s| - 1], s[|s| - 1];
      assert s == init + [last];
      NoRepeatsMultiset(init);
      assert multiset(s) == multiset(init) + multiset{last};
      if NoRepeats(s) {
        assert NoRepeats(init);
        assert last !in init;
      }
      if forall x | x in s :: multiset(s)[x] == 1 {
        assert multiset(s)[last] == 1;
        assert last !in init by {
          assert multiset(init)[last] == 0;
        }
        forall x | x in init
          ensures multiset(init)[x] == 1
        {
          assert x in s;
        }
      }
    }
  }

  lemma SortKeepsDistinct<T>(le: (T, T) -> bool, s: seq<T>)
    requires NoRepeats(s)
    ensures NoRepeats(Sort(le, s))
  {
    SortPermutes(le, s);
    NoRepeatsMultiset(s);
    forall x | x in Sort(le, s)
      ensures multiset(Sort(le, s))[x] == 1
    {
      assert x in multiset(Sort(le, s));
      assert x in s;
    }
    NoRepeatsMultiset(Sort(le, s));
  }

  /** Lists without repetition are permutations when they have the same elements. */
  lemma NoRepeatsPermute<T>(a: seq<T>, b: seq<T>)
    requires NoRepeats(a) && NoRepeats(b) && forall x :: x in a <==> x in b
    ensures multiset(a) == multiset(b)
  {
    NoRepeatsMultiset(a);
    NoRepeatsMultiset(b);
    forall x
      ensures multiset(a)[x] == multiset(b)[x]
    {
      if x in a {
        assert x in b;
      } else {
        assert x !in multiset(a) && x !in multiset(b);
      }
    }
  }

  // ----- mapping over a permutation -----

  function Mapped<S, T>(s: seq<S>, f: S -> T): seq<T> {
    seq(|s|, i requires 0 <= i < |s| => f(s[i]))
  }

  lemma MappedAppend<S, T>(a: seq<S>, b: seq<S>, f: S -> T)
    ensures Mapped(a + b, f) == Mapped(a, f) + Mapped(b, f)
  {
  }

  lemma MappedWithout<S, T>(b: seq<S>, k: nat, f: S -> T)
    requires k < |b|
    ensures multiset(Mapped(b, f)) == multiset{f(b[k])} + multiset(Mapped(b[..k] + b[k + 1..], f))
    ensures multiset(b) == multiset{b[k]} + multiset(b[..k] + b[k + 1..])
  {
    assert b == (b[..k] + [b[k]]) + b[k + 1..];
    MappedAppend(b[..k] + [b[k]], b[k + 1..], f);
    MappedAppend(b[..k], [b[k]], f);
    MappedAppend(b[..k], b[k + 1..], f);
    assert Mapped([b[k]], f) == [f(b[k])];
  }

  lemma {:induction false} MappedPermutes<S, T>(a: seq<S>, b: seq<S>, f: S -> T)
    requires multiset(a) == multiset(b)
    ensures multiset(Mapped(a, f)) == multiset(Mapped(b, f))
  {
    hide *;
    SameSize(a, b);
    if a == [] {
      assert b == [];
    } else {
      assert a[0] in a;
      var k :| 0 <= k < |b| && b[k] == a[0];
      MappedWithout(a, 0, f);
      MappedWithout(b, k, f);
      assert a[..0] + a[1..] == a[1..];
      SameTail(a, b, k);
      MappedPermutes(a[1..], b[..k] + b[k + 1..], f);
    }
  }
}
