/** Generic sequence operations behind the Array built-ins the price widget uses:
    `find`, `filter`, `[...new Set(xs)]` and `sort` with a numeric comparator. */
module Seqs {
  import opened Wrappers

  /** Array.prototype.find, answered with the index of the element it finds. */
  function First<T>(s: seq<T>, p: T -> bool): (r: Option<nat>)
    ensures r.Some? ==> r.value < |s| && p(s[r.value])
    ensures r.Some? ==> forall j :: 0 <= j < r.value ==> !p(s[j])
    ensures r.None? ==> forall j :: 0 <= j < |s| ==> !p(s[j])
  {
    if |s| == 0 then None
    else if p(s[0]) then Some(0)
    else match First(s[1..], p)
      case None => None
      case Some(k) => Some(k + 1)
  }

  /** The first-match index is the only index with a match and no earlier match. */
  predicate IsFirst<T>(s: seq<T>, p: T -> bool, i: int) {
    0 <= i < |s| && p(s[i]) && forall j :: 0 <= j < i ==> !p(s[j])
  }

  lemma FirstIsUnique<T>(s: seq<T>, p: T -> bool, i: int)
    requires IsFirst(s, p, i)
    ensures First(s, p) == Some(i)
  {
    assert p(s[i]);
  }

  /** Array.prototype.filter. */
  function Filter<T(!new)>(s: seq<T>, p: T -> bool): (r: seq<T>)
    ensures |r| <= |s|
    ensures forall x :: x in r <==> x in s && p(x)
  {
    if |s| == 0 then []
    else
      assert forall x :: x in s <==> x == s[0] || x in s[1..];
      (if p(s[0]) then [s[0]] else []) + Filter(s[1..], p)
  }

  function Shift(xs: seq<nat>): (r: seq<nat>)
    ensures |r| == |xs|
  {
    seq(|xs|, i requires 0 <= i < |xs| => xs[i] + 1)
  }

  /** The positions in `s` of the elements that `Filter(s, p)` keeps. */
  function FilterIndices<T>(s: seq<T>, p: T -> bool): seq<nat>
  {
    if |s| == 0 then []
    else (if p(s[0]) then [0] else []) + Shift(FilterIndices(s[1..], p))
  }

  lemma {:induction false} FilterIndicesLength<T(!new)>(s: seq<T>, p: T -> bool)
    ensures |FilterIndices(s, p)| == |Filter(s, p)|
  {
    if |s| > 0 {
      FilterIndicesLength(s[1..], p);
    }
  }

  /** The positions are in range and strictly increasing. */
  lemma {:induction false} FilterIndicesAscending<T>(s: seq<T>, p: T -> bool)
    ensures forall j :: 0 <= j < |FilterIndices(s, p)| ==> FilterIndices(s, p)[j] < |s|
    ensures forall j1, j2 :: 0 <= j1 < j2 < |FilterIndices(s, p)| ==>
      FilterIndices(s, p)[j1] < FilterIndices(s, p)[j2]
  {
    if |s| > 0 {
      FilterIndicesAscending(s[1..], p);
    }
  }

  /** A position is listed exactly when its element passes the test. */
  lemma {:induction false} FilterIndicesMember<T>(s: seq<T>, p: T -> bool)
    ensures forall k :: 0 <= k < |s| ==> (k in FilterIndices(s, p) <==> p(s[k]))
  {
    if |s| > 0 {
      var s' := s[1..];
      FilterIndicesMember(s', p);
      var idx' := FilterIndices(s', p);
      var sh := Shift(idx');
      forall k | 1 <= k < |s| ensures k in sh <==> k - 1 in idx' {
        if k in sh {
          var m :| 0 <= m < |sh| && sh[m] == k;
          assert idx'[m] == k - 1;
        }
        if k - 1 in idx' {
          var m :| 0 <= m < |idx'| && idx'[m] == k - 1;
          assert sh[m] == k;
        }
      }
      assert 0 !in sh;
      forall k | 1 <= k < |s| ensures s[k] == s'[k - 1] { }
    }
  }

  /** The j-th kept element sits at the j-th listed position. */
  lemma {:induction false} FilterIndicesAt<T(!new)>(s: seq<T>, p: T -> bool)
    ensures forall j :: 0 <= j < |Filter(s, p)| && j < |FilterIndices(s, p)| ==>
      FilterIndices(s, p)[j] < |s| && Filter(s, p)[j] == s[FilterIndices(s, p)[j]]
  {
    FilterIndicesAscending(s, p);
    if |s| > 0 {
      FilterIndicesAt(s[1..], p);
    }
  }

  /** `Filter` keeps exactly the elements satisfying `p`, each once, in their original order:
      its j-th element is `s[FilterIndices(s, p)[j]]`, the indices increase, and an index
      is listed if and only if its element satisfies `p`. */
  lemma FilterCorrespond<T(!new)>(s: seq<T>, p: T -> bool)
    ensures |FilterIndices(s, p)| == |Filter(s, p)|
    ensures forall j :: 0 <= j < |Filter(s, p)| ==>
      FilterIndices(s, p)[j] < |s| && Filter(s, p)[j] == s[FilterIndices(s, p)[j]]
    ensures forall j1, j2 :: 0 <= j1 < j2 < |Filter(s, p)| ==>
      FilterIndices(s, p)[j1] < FilterIndices(s, p)[j2]
    ensures forall k :: 0 <= k < |s| ==> (k in FilterIndices(s, p) <==> p(s[k]))
  {
    FilterIndicesLength(s, p);
    FilterIndicesAscending(s, p);
    FilterIndicesMember(s, p);
    FilterIndicesAt(s, p);
  }

  /** A first element that passes the test is kept in front of the rest. */
  lemma FilterConsKept<T(!new)>(x: T, s: seq<T>, p: T -> bool)
    requires p(x)
    ensures Filter([x] + s, p) == [x] + Filter(s, p)
  {
    assert ([x] + s)[1..] == s;
  }

  /** A first element that fails the test is dropped. */
  lemma FilterConsDropped<T(!new)>(x: T, s: seq<T>, p: T -> bool)
    requires !p(x)
    ensures Filter([x] + s, p) == Filter(s, p)
  {
    assert ([x] + s)[1..] == s;
  }

  /** Nothing passes the test: nothing is kept. */
  lemma {:induction false} FilterNone<T(!new)>(s: seq<T>, p: T -> bool)
    requires forall i :: 0 <= i < |s| ==> !p(s[i])
    ensures Filter(s, p) == []
  {
    if |s| > 0 {
      FilterNone(s[1..], p);
    }
  }

  /** Everything passes the test: everything is kept. */
  lemma {:induction false} FilterKeepsAll<T(!new)>(s: seq<T>, p: T -> bool)
    requires forall i :: 0 <= i < |s| ==> p(s[i])
    ensures Filter(s, p) == s
  {
    if |s| > 0 {
      FilterKeepsAll(s[1..], p);
      assert s == [s[0]] + s[1..];
    }
  }

  /** No element occurs twice. */
  predicate Distinct<T(==)>(s: seq<T>) {
    forall i, j :: 0 <= i < j < |s| ==> s[i] != s[j]
  }

  /** `[...new Set(s)]`: each element once, in order of first occurrence. */
  function Dedupe<T(==,!new)>(s: seq<T>): (r: seq<T>)
    ensures Distinct(r)
    ensures forall x :: x in r <==> x in s
  {
    if |s| == 0 then []
    else
      var init, last := s[..|s| - 1], s[|s| - 1];
      assert s == init + [last];
      var d := Dedupe(init);
      if last in d then d else d + [last]
  }

  /** The position of the first occurrence of `x` in `s`. */
  function FirstIndexOf<T(==)>(s: seq<T>, x: T): (k: nat)
    requires x in s
    ensures k < |s| && s[k] == x && forall j :: 0 <= j < k ==> s[j] != x
  {
    if s[0] == x then 0 else 1 + FirstIndexOf(s[1..], x)
  }

  lemma {:induction false} FirstIndexOfPrefix<T>(s: seq<T>, y: T, x: T)
    requires x in s
    ensures FirstIndexOf(s + [y], x) == FirstIndexOf(s, x)
  {
    var k := FirstIndexOf(s, x);
    assert IsFirstOccurrence(s + [y], x, k);
    FirstOccurrenceUnique(s + [y], x, k);
  }

  predicate IsFirstOccurrence<T(==)>(s: seq<T>, x: T, k: int) {
    0 <= k < |s| && s[k] == x && forall j :: 0 <= j < k ==> s[j] != x
  }

  lemma FirstOccurrenceUnique<T>(s: seq<T>, x: T, k: int)
    requires IsFirstOccurrence(s, x, k)
    ensures FirstIndexOf(s, x) == k
  {
  }

  /** `Dedupe` keeps first-occurrence order: an earlier element of the result first occurs
      earlier in the input. */
  lemma {:induction false} DedupeOrder<T(!new)>(s: seq<T>)
    ensures forall i, j :: 0 <= i < j < |Dedupe(s)| ==>
      FirstIndexOf(s, Dedupe(s)[i]) < FirstIndexOf(s, Dedupe(s)[j])
  {
    if |s| > 0 {
      var init, last := s[..|s| - 1], s[|s| - 1];
      assert s == init + [last];
      DedupeOrder(init);
      var d := Dedupe(init);
      forall x | x in d ensures FirstIndexOf(s, x) == FirstIndexOf(init, x) {
        FirstIndexOfPrefix(init, last, x);
      }
      if last !in d {
        assert last !in init;
        assert IsFirstOccurrence(s, last, |s| - 1);
        FirstOccurrenceUnique(s, last, |s| - 1);
        assert Dedupe(s) == d + [last];
      }
    }
  }

  /** A sequence without repetitions is its own deduplication. */
  lemma {:induction false} DedupeOfDistinct<T(!new)>(s: seq<T>)
    requires Distinct(s)
    ensures Dedupe(s) == s
  {
    if |s| > 0 {
      var init, last := s[..|s| - 1], s[|s| - 1];
      DedupeOfDistinct(init);
      assert last !in init;
    }
  }

  predicate Ascending(s: seq<int>) {
    forall i, j :: 0 <= i < j < |s| ==> s[i] <= s[j]
  }

  predicate StrictlyAscending(s: seq<int>) {
    forall i, j :: 0 <= i < j < |s| ==> s[i] < s[j]
  }

  /** Insert `x` into a sequence before the first element not below it. */
  function Insert(x: int, s: seq<int>): seq<int>
  {
    if |s| == 0 then [x]
    else if x <= s[0] then [x] + s
    else [s[0]] + Insert(x, s[1..])
  }

  /** Inserting adds exactly one occurrence of `x`. */
  lemma {:induction false} InsertCount(x: int, s: seq<int>)
    ensures multiset(Insert(x, s)) == multiset(s) + multiset{x}
  {
    if |s| > 0 && x > s[0] {
      assert s == [s[0]] + s[1..];
      InsertCount(x, s[1..]);
    }
  }

  lemma AscendingCons(h: int, rest: seq<int>, strict: bool)
    requires if strict then StrictlyAscending(rest) else Ascending(rest)
    requires forall y :: y in rest ==> if strict then h < y else h <= y
    ensures if strict then StrictlyAscending([h] + rest) else Ascending([h] + rest)
  {
    var r := [h] + rest;
    forall i, j | 0 <= i < j < |r| ensures if strict then r[i] < r[j] else r[i] <= r[j] {
      assert r[j] == rest[j - 1] && rest[j - 1] in rest;
      if i == 0 {
        assert r[i] == h;
      } else {
        assert r[i] == rest[i - 1];
      }
    }
  }

  /** Inserting into an ascending sequence keeps it ascending. */
  lemma {:induction false} InsertSorted(x: int, s: seq<int>)
    requires Ascending(s)
    ensures Ascending(Insert(x, s))
  {
    if |s| > 0 {
      if x <= s[0] {
        AscendingCons(x, s, false);
      } else {
        InsertSorted(x, s[1..]);
        InsertCount(x, s[1..]);
        var rest := Insert(x, s[1..]);
        forall y | y in rest ensures s[0] <= y {
          assert y in multiset(rest);
        }
        AscendingCons(s[0], rest, false);
      }
    }
  }

  /** `xs.sort((a, b) => a - b)` on integers: the ascending permutation of `xs`. */
  function Sort(s: seq<int>): (r: seq<int>)
    ensures Ascending(r)
    ensures multiset(r) == multiset(s)
  {
    if |s| == 0 then []
    else
      assert s == [s[0]] + s[1..];
      InsertSorted(s[0], Sort(s[1..]));
      InsertCount(s[0], Sort(s[1..]));
      Insert(s[0], Sort(s[1..]))
  }

  lemma {:induction false} InsertFresh(x: int, s: seq<int>)
    requires StrictlyAscending(s) && x !in s
    ensures StrictlyAscending(Insert(x, s))
  {
    if |s| > 0 {
      if x < s[0] {
        AscendingCons(x, s, true);
      } else {
        assert x != s[0];
        InsertFresh(x, s[1..]);
        InsertCount(x, s[1..]);
        var rest := Insert(x, s[1..]);
        forall y | y in rest ensures s[0] < y {
          assert y in multiset(rest);
        }
        AscendingCons(s[0], rest, true);
      }
    }
  }

  /** Sorting a sequence without repetitions gives a strictly ascending sequence. */
  lemma {:induction false} SortDistinct(s: seq<int>)
    requires Distinct(s)
    ensures StrictlyAscending(Sort(s))
  {
    if |s| > 0 {
      var rest := s[1..];
      SortDistinct(rest);
      assert s[0] !in rest;
      assert s[0] !in multiset(Sort(rest));
      InsertFresh(s[0], Sort(rest));
    }
  }
}
