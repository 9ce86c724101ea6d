/** The derived views the pages compute from a quote list: the category
    filter (`Array.prototype.filter`), `new Set(...)` de-duplication in
    first-occurrence order, and sorting. Generic in the record type; the
    category is read through the accessor `category`. */
module Views {
  import opened Text

  /** `xs.filter(x => category(x) === sel)`: the records whose category is
      `sel`, in their original order. */
  function Select<T>(xs: seq<T>, category: T -> string, sel: string): (r: seq<T>)
    ensures |r| <= |xs|
    ensures forall x :: x in r ==> x in xs && category(x) == sel
    ensures forall x :: x in xs && category(x) == sel ==> x in r
    decreases |xs|
  {
    if xs == [] then []
    else if category(xs[0]) == sel then [xs[0]] + Select(xs[1..], category, sel)
    else Select(xs[1..], category, sel)
  }

  /** The view shown for a filter selection: the sentinel "all" selects the
      whole list, any other value the records of exactly that category. */
  function Filtered<T>(xs: seq<T>, category: T -> string, sel: string): (r: seq<T>)
    ensures sel == "all" ==> r == xs
    ensures sel != "all" ==> forall x :: x in r ==> x in xs && category(x) == sel
    ensures sel != "all" ==> forall x :: x in xs && category(x) == sel ==> x in r
    ensures sel != "all" && (forall x :: x in xs ==> category(x) != sel) ==> r == []
  {
    if sel == "all" then xs
    else
      var r := Select(xs, category, sel);
      assert r != [] ==> r[0] in r;
      r
  }

  /** Filtering distributes over concatenation: it keeps the relative order
      of the records it keeps. */
  lemma {:induction false} SelectAppend<T>(a: seq<T>, b: seq<T>, category: T -> string, sel: string)
    ensures Select(a + b, category, sel) == Select(a, category, sel) + Select(b, category, sel)
    decreases |a|
  {
    if a != [] {
      assert a + b != [];
      assert (a + b)[0] == a[0];
      assert (a + b)[1..] == a[1..] + b;
      SelectAppend(a[1..], b, category, sel);
      var head := if category(a[0]) == sel then [a[0]] else [];
      assert Select(a + b, category, sel) == head + Select(a[1..] + b, category, sel);
      assert Select(a, category, sel) == head + Select(a[1..], category, sel);
    } else {
      assert a + b == b;
    }
  }

  /** `a` can be obtained from `b` by deleting elements, the rest kept in
      order. */
  predicate IsSubsequence<T(==)>(a: seq<T>, b: seq<T>)
    decreases |b|
  {
    a == [] || (b != [] && (IsSubsequence(a, b[1..]) || (a[0] == b[0] && IsSubsequence(a[1..], b[1..]))))
  }

  /** The filtered view is a subsequence of the list: records keep their
      relative order. */
  lemma {:induction false} SelectIsSubsequence<T>(xs: seq<T>, category: T -> string, sel: string)
    ensures IsSubsequence(Select(xs, category, sel), xs)
    decreases |xs|
  {
    if xs != [] {
      SelectIsSubsequence(xs[1..], category, sel);
    }
  }

  /** The shown view is a subsequence of the list, whatever the selection. */
  lemma FilteredIsSubsequence<T>(xs: seq<T>, category: T -> string, sel: string)
    ensures IsSubsequence(Filtered(xs, category, sel), xs)
  {
    if sel == "all" {
      SubsequenceOfSelf(xs);
    } else {
      SelectIsSubsequence(xs, category, sel);
    }
  }

  lemma {:induction false} SubsequenceOfSelf<T>(xs: seq<T>)
    ensures IsSubsequence(xs, xs)
    decreases |xs|
  {
    if xs != [] {
      SubsequenceOfSelf(xs[1..]);
    }
  }

  /** Filtering keeps every copy of a matching record and no copy of any
      other: the filtered view is the sub-multiset of matching records. */
  lemma {:induction false} SelectCounts<T>(xs: seq<T>, category: T -> string, sel: string, x: T)
    ensures multiset(Select(xs, category, sel))[x] == if category(x) == sel then multiset(xs)[x] else 0
    decreases |xs|
  {
    if xs != [] {
      SelectCounts(xs[1..], category, sel, x);
      assert xs == [xs[0]] + xs[1..];
    }
  }

  /** `xs.filter(Boolean)` on strings: drops the empty ones, keeps order. */
  function NonEmpty(xs: seq<string>): (r: seq<string>)
    ensures forall x :: x in r <==> x in xs && x != ""
    decreases |xs|
  {
    if xs == [] then []
    else
      assert forall x :: x in xs <==> x == xs[0] || x in xs[1..];
      (if xs[0] == "" then [] else [xs[0]]) + NonEmpty(xs[1..])
  }

  /** No element occurs twice. */
  predicate NoDuplicates<T(==)>(xs: seq<T>) {
    forall i, j :: 0 <= i < j < |xs| ==> xs[i] != xs[j]
  }

  /** Index of the first occurrence of `x` in `xs`. */
  function FirstIndex<T(==)>(xs: seq<T>, x: T): (i: nat)
    requires x in xs
    ensures i < |xs| && xs[i] == x
    ensures forall j :: 0 <= j < i ==> xs[j] != x
    decreases |xs|
  {
    if xs[0] == x then 0 else 1 + FirstIndex(xs[1..], x)
  }

  /** `[...new Set(xs)]`: the distinct elements of `xs`. */
  function Distinct<T(==)>(xs: seq<T>): (r: seq<T>)
    ensures NoDuplicates(r)
    ensures forall x :: x in r ==> x in xs
    ensures forall x :: x in xs ==> x in r
    decreases |xs|
  {
    if xs == [] then []
    else
      var init := xs[..|xs| - 1];
      var last := xs[|xs| - 1];
      assert xs == init + [last];
      var d := Distinct(init);
      if last in d then d else d + [last]
  }

  /** The first occurrence of an element of a prefix is inside that prefix. */
  lemma FirstIndexInPrefix<T>(xs: seq<T>, k: nat, x: T)
    requires k <= |xs| && x in xs[..k]
    ensures FirstIndex(xs, x) == FirstIndex(xs[..k], x)
  {
    var i, j := FirstIndex(xs, x), FirstIndex(xs[..k], x);
    assert xs[..k][j] == xs[j];
    assert i <= j;
    assert xs[..k][i] == xs[i];
  }

  /** A `Set` iterates in insertion order: the distinct elements appear in
      the order of their first occurrence in `xs`. */
  lemma {:induction false} DistinctFirstOccurrenceOrder<T>(xs: seq<T>)
    ensures forall i, j :: 0 <= i < j < |Distinct(xs)| ==>
      FirstIndex(xs, Distinct(xs)[i]) < FirstIndex(xs, Distinct(xs)[j])
    decreases |xs|
  {
    if xs != [] {
      var n := |xs|;
      var init, last := xs[..n - 1], xs[n - 1];
      assert xs == init + [last];
      var d := Distinct(init);
      DistinctFirstOccurrenceOrder(init);
      forall y | y in d
        ensures FirstIndex(xs, y) == FirstIndex(init, y)
      {
        FirstIndexInPrefix(xs, n - 1, y);
      }
      if last !in d {
        assert FirstIndex(xs, last) == n - 1;
        var r := d + [last];
        forall i, j | 0 <= i < j < |r|
          ensures FirstIndex(xs, r[i]) < FirstIndex(xs, r[j])
        {
          assert r[i] in d;
          if j < |d| {
            assert r[j] in d;
          }
        }
      }
    }
  }

  /** Strictly increasing under `LexLess`, hence also free of duplicates. */
  predicate SortedStrictly(s: seq<string>) {
    forall i, j :: 0 <= i < j < |s| ==> LexLess(s[i], s[j])
  }

  /** Inserts a new element into a strictly sorted list at its place. */
  function Insert(x: string, s: seq<string>): (r: seq<string>)
    requires SortedStrictly(s) && x !in s
    ensures SortedStrictly(r)
    ensures forall y :: y in r <==> y == x || y in s
    ensures |r| == |s| + 1
    decreases |s|
  {
    if s == [] then [x]
    else
      LexTotal(x, s[0]);
      if LexLess(x, s[0]) then
        assert forall k :: 0 <= k < |s| ==> LexLess(x, s[k]) by {
          forall k | 0 <= k < |s| ensures LexLess(x, s[k]) {
            if k > 0 { LexTransitive(x, s[0], s[k]); }
          }
        }
        [x] + s
      else
        assert forall k :: 1 <= k < |s| ==> s[k] in s[1..];
        var t := Insert(x, s[1..]);
        assert forall y :: y in t ==> LexLess(s[0], y) by {
          forall y | y in t ensures LexLess(s[0], y) {
            if y != x {
              var m :| 0 <= m < |s| - 1 && s[1..][m] == y;
              assert s[m + 1] == y;
            }
          }
        }
        [s[0]] + t
  }

  /** `xs.sort(...)` of a list without duplicates: the same elements in
      strictly increasing order. */
  function Sort(xs: seq<string>): (r: seq<string>)
    requires NoDuplicates(xs)
    ensures SortedStrictly(r)
    ensures forall y :: y in r <==> y in xs
    ensures |r| == |xs|
    decreases |xs|
  {
    if xs == [] then []
    else
      assert forall k :: 1 <= k < |xs| ==> xs[k] in xs[1..];
      Insert(xs[0], Sort(xs[1..]))
  }

  /** A strictly sorted list is determined by its elements: any two lists
      sorted strictly with the same elements are equal. */
  lemma {:induction false} SortedUnique(a: seq<string>, b: seq<string>)
    requires SortedStrictly(a) && SortedStrictly(b)
    requires forall y :: y in a <==> y in b
    ensures a == b
    decreases |a|
  {
    assert a != [] ==> a[0] in a;
    assert b != [] ==> b[0] in b;
    if a != [] && b != [] {
      HeadsEqual(a, b);
      LexIrreflexive(a[0]);
      TailsAgree(a, b);
      TailsAgree(b, a);
      SortedUnique(a[1..], b[1..]);
      assert a == [a[0]] + a[1..] && b == [b[0]] + b[1..];
    }
  }

  /** The head of a strictly sorted list is below every other element. */
  lemma HeadIsLeast(a: seq<string>, y: string)
    requires SortedStrictly(a) && y in a
    ensures y == a[0] || LexLess(a[0], y)
  {
  }

  /** Helper of SortedUnique: two strictly sorted lists with the same
      elements start with the same element. */
  lemma HeadsEqual(a: seq<string>, b: seq<string>)
    requires SortedStrictly(a) && SortedStrictly(b) && a != [] && b != []
    requires forall y :: y in a <==> y in b
    ensures a[0] == b[0]
  {
    assert a[0] in a && b[0] in b;
    HeadIsLeast(a, b[0]);
    HeadIsLeast(b, a[0]);
    LexNotBoth(a[0], b[0]);
  }

  /** Helper of SortedUnique: with equal heads, the tail of `a` lies in the
      tail of `b`. */
  lemma TailsAgree(a: seq<string>, b: seq<string>)
    requires SortedStrictly(a) && a != [] && b != [] && a[0] == b[0]
    requires forall y :: y in a ==> y in b
    ensures forall y :: y in a[1..] ==> y in b[1..]
  {
    forall y | y in a[1..] ensures y in b[1..] {
      var k :| 0 <= k < |a| - 1 && a[1..][k] == y;
      assert a[k + 1] == y;
      LexIrreflexive(a[0]);
      assert y != b[0];
      assert y in b;
      var m :| 0 <= m < |b| && b[m] == y;
      assert b[1..][m - 1] == y;
    }
  }
}
