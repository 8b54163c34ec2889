/** Python's `sorted` on a list of hours, as a functional insertion sort. */
module Sorting {

  predicate Sorted(s: seq<int>)
  {
    forall i, j :: 0 <= i < j < |s| ==> s[i] <= s[j]
  }

  /** Inserts `x` before the first element of `s` not smaller than it. */
  function Insert(x: int, s: seq<int>): (r: seq<int>)
    ensures |r| == |s| + 1
  {
    if |s| == 0 then [x]
    else if x <= s[0] then [x] + s
    else [s[0]] + Insert(x, s[1..])
  }

  /** The ascending arrangement of `xs`, duplicates kept. */
  function SortHours(xs: seq<int>): (r: seq<int>)
    ensures |r| == |xs|
  {
    if |xs| == 0 then [] else Insert(xs[|xs| - 1], SortHours(xs[..|xs| - 1]))
  }

  lemma {:induction false} InsertPermutes(x: int, s: seq<int>)
    ensures multiset(Insert(x, s)) == multiset(s) + multiset{x}
  {
    if |s| > 0 && x > s[0] {
      InsertPermutes(x, s[1..]);
      assert s == [s[0]] + s[1..];
    }
  }

  lemma {:induction false} InsertSorted(x: int, s: seq<int>)
    requires Sorted(s)
    ensures Sorted(Insert(x, s))
    ensures Insert(x, s)[0] == if |s| > 0 && s[0] < x then s[0] else x
  {
    var r := Insert(x, s);
    if |s| > 0 && x > s[0] {
      var rest := Insert(x, s[1..]);
      InsertSorted(x, s[1..]);
      assert r == [s[0]] + rest;
      assert s[0] <= rest[0];
      forall i, j | 0 <= i < j < |r| ensures r[i] <= r[j] {
        assert r[j] == rest[j - 1];
        if i > 0 {
          assert r[i] == rest[i - 1];
        } else if j > 1 {
          assert rest[0] <= rest[j - 1];
        }
      }
    } else if |s| > 0 {
      assert r == [x] + s;
      forall i, j | 0 <= i < j < |r| ensures r[i] <= r[j] {
        assert r[j] == s[j - 1];
        if i > 0 {
          assert r[i] == s[i - 1];
        } else if j > 1 {
          assert s[0] <= s[j - 1];
        }
      }
    }
  }

  /** SortHours returns its input rearranged in ascending order. */
  lemma {:induction false} SortHoursCorrect(xs: seq<int>)
    ensures Sorted(SortHours(xs))
    ensures multiset(SortHours(xs)) == multiset(xs)
  {
    if |xs| > 0 {
      var init := xs[..|xs| - 1];
      SortHoursCorrect(init);
      InsertSorted(xs[|xs| - 1], SortHours(init));
      InsertPermutes(xs[|xs| - 1], SortHours(init));
      SplitLast(xs);
    }
  }

  lemma SplitLast(xs: seq<int>)
    requires |xs| > 0
    ensures multiset(xs) == multiset(xs[..|xs| - 1]) + multiset{xs[|xs| - 1]}
  {
    assert xs == xs[..|xs| - 1] + [xs[|xs| - 1]];
  }

  lemma {:induction false} SortedHeadIsMinimum(s: seq<int>, x: int)
    requires Sorted(s) && |s| > 0 && x in multiset(s)
    ensures s[0] <= x
  {
    var k :| 0 <= k < |s| && s[k] == x;
  }

  lemma SortedTail(s: seq<int>)
    requires Sorted(s) && |s| > 0
    ensures Sorted(s[1..])
  {
  }

  lemma MultisetTail(s: seq<int>)
    requires |s| > 0
    ensures multiset(s[1..]) == multiset(s) - multiset{s[0]}
  {
    assert s == [s[0]] + s[1..];
    assert multiset(s) == multiset{s[0]} + multiset(s[1..]);
  }

  /** Two sorted arrangements of the same elements begin with the same, smallest, element. */
  lemma SameHead(a: seq<int>, b: seq<int>)
    requires Sorted(a) && Sorted(b) && |a| > 0
    requires multiset(a) == multiset(b)
    ensures |b| > 0 && a[0] == b[0]
  {
    assert a[0] in multiset(a);
    assert |b| > 0 by {
      assert a[0] in multiset(b);
    }
    assert b[0] in multiset(b);
    SortedHeadIsMinimum(b, a[0]);
    SortedHeadIsMinimum(a, b[0]);
  }

  /** Removing equal heads from two arrangements of the same elements leaves arrangements of the same elements. */
  lemma SameTails(a: seq<int>, b: seq<int>)
    requires |a| > 0 && |b| > 0 && a[0] == b[0]
    requires multiset(a) == multiset(b)
    ensures multiset(a[1..]) == multiset(b[1..])
  {
    MultisetTail(a);
    MultisetTail(b);
  }

  /**
    * A sorted list is determined by its multiset of elements, so every
    * correct sort of `xs`, Python's included, returns SortHours(xs).
    */
  lemma {:induction false} SortedPermutationIsUnique(a: seq<int>, b: seq<int>)
    requires Sorted(a) && Sorted(b)
    requires multiset(a) == multiset(b)
    ensures a == b
  {
    if |a| == 0 {
      assert |multiset(b)| == 0;
    } else {
      SameHead(a, b);
      SameTails(a, b);
      SortedTail(a);
      SortedTail(b);
      SortedPermutationIsUnique(a[1..], b[1..]);
      assert a == [a[0]] + a[1..] && b == [b[0]] + b[1..];
    }
  }

  /** Sorting keeps exactly the elements of the input. */
  lemma SortHoursElements(xs: seq<int>)
    ensures forall h :: h in SortHours(xs) <==> h in xs
  {
    var s := SortHours(xs);
    SortHoursCorrect(xs);
    forall h ensures h in s <==> h in xs {
      assert h in s <==> h in multiset(s);
      assert h in xs <==> h in multiset(xs);
    }
  }
}
