/** Sequence operations the portal's stores and pages are built from: the first-match search of
    `Array.prototype.find` / `findIndex`, the order-preserving `filter`, the running sum of
    `reduce`, and the first-occurrence de-duplication that iterating a JavaScript `Set` gives.
    Filter, sums and de-duplication are defined from the END of the sequence, so that each of
    them reads as "process one more element", the way the source's left-to-right callbacks do. */
module Seqs {

  datatype Option<+T> = None | Some(value: T)

  function Init<T>(s: seq<T>): seq<T>
    requires |s| > 0
  {
    s[..|s| - 1]
  }

  function Last<T>(s: seq<T>): T
    requires |s| > 0
  {
    s[|s| - 1]
  }

  lemma InitLast<T>(s: seq<T>)
    requires |s| > 0
    ensures s == Init(s) + [Last(s)]
  {
  }

  lemma InitOfSnoc<T>(s: seq<T>, x: T)
    ensures Init(s + [x]) == s && Last(s + [x]) == x
  {
  }

  /** One more element of a prefix. */
  lemma PrefixSnoc<T>(s: seq<T>, i: int)
    requires 0 <= i < |s|
    ensures s[..i + 1] == s[..i] + [s[i]]
  {
  }

  // ---------------------------------------------------------------------------------------------
  // find / findIndex

  /** The index of the first element satisfying `p`, as `findIndex` computes it (None for -1). */
  function FirstIndex<T>(s: seq<T>, p: T -> bool): (r: Option<nat>)
    ensures r.Some? ==> r.value < |s| && p(s[r.value])
    ensures r.Some? ==> forall j :: 0 <= j < r.value ==> !p(s[j])
    ensures r.None? ==> forall j :: 0 <= j < |s| ==> !p(s[j])
  {
    if s == [] then None
    else if p(s[0]) then Some(0)
    else
      match FirstIndex(s[1..], p)
      case None =>
        assert forall j :: 1 <= j < |s| ==> s[j] == s[1..][j - 1];
        None
      case Some(k) =>
        assert forall j :: 1 <= j < k + 1 ==> s[j] == s[1..][j - 1];
        Some(k + 1)
  }

  /** The first element satisfying `p`, as `find` returns it (None for `undefined`). */
  function Find<T>(s: seq<T>, p: T -> bool): (r: Option<T>)
    ensures r.None? <==> forall j :: 0 <= j < |s| ==> !p(s[j])
    ensures r.Some? ==> p(r.value) && r.value in s
    ensures r.Some? ==> exists i :: 0 <= i < |s| && s[i] == r.value && forall j :: 0 <= j < i ==> !p(s[j])
  {
    match FirstIndex(s, p)
    case None => None
    case Some(i) => Some(s[i])
  }

  /** `some`: at least one element satisfies `p`. */
  predicate Any<T>(s: seq<T>, p: T -> bool)
  {
    exists i :: 0 <= i < |s| && p(s[i])
  }

  // ---------------------------------------------------------------------------------------------
  // filter

  /** `r` is obtained from `s` by deleting elements, keeping the order of the rest. */
  ghost predicate Sublist<T>(r: seq<T>, s: seq<T>)
    decreases |s|
  {
    if s == [] then r == []
    else (|r| > 0 && Last(r) == Last(s) && Sublist(Init(r), Init(s))) || Sublist(r, Init(s))
  }

  /** `filter`: the elements satisfying `p`, in their original order. */
  function Filter<T(!new)>(s: seq<T>, p: T -> bool): (r: seq<T>)
    ensures |r| <= |s|
    ensures forall x :: x in r <==> x in s && p(x)
  {
    if s == [] then []
    else
      var rest := Filter(Init(s), p);
      InitLast(s);
      if p(Last(s)) then
        InitOfSnoc(rest, Last(s));
        rest + [Last(s)]
      else rest
  }

  /** `filter` keeps the order of what it keeps. */
  lemma {:induction false} FilterIsSublist<T(!new)>(s: seq<T>, p: T -> bool)
    ensures Sublist(Filter(s, p), s)
    decreases |s|
  {
    if s != [] {
      InitLast(s);
      FilterIsSublist(Init(s), p);
      if p(Last(s)) {
        InitOfSnoc(Filter(Init(s), p), Last(s));
      }
    }
  }

  /** A filter that loses nothing kept every element. */
  lemma {:induction false} FullFilterKeepsAll<T(!new)>(s: seq<T>, p: T -> bool)
    requires |Filter(s, p)| == |s|
    ensures forall i :: 0 <= i < |s| ==> p(s[i])
    decreases |s|
  {
    if s != [] {
      InitLast(s);
      var init := Init(s);
      assert p(Last(s));
      FullFilterKeepsAll(init, p);
      assert forall i :: 0 <= i < |init| ==> s[i] == init[i];
    }
  }

  /** `filter` keeps every occurrence of an element that passes and none of one that fails. */
  lemma {:induction false} FilterCounts<T(!new)>(s: seq<T>, p: T -> bool)
    ensures forall x :: multiset(Filter(s, p))[x] == if p(x) then multiset(s)[x] else 0
    decreases |s|
  {
    if s != [] {
      InitLast(s);
      FilterCounts(Init(s), p);
      assert multiset(s) == multiset(Init(s)) + multiset{Last(s)};
    }
  }

  /** Filtering distributes over concatenation: the part of the result that comes from `a`
      precedes the part that comes from `b`. */
  lemma {:induction false} FilterAppend<T(!new)>(a: seq<T>, b: seq<T>, p: T -> bool)
    ensures Filter(a + b, p) == Filter(a, p) + Filter(b, p)
    decreases |b|
  {
    if b == [] {
      assert a + b == a;
    } else {
      InitLast(b);
      assert a + b == (a + Init(b)) + [Last(b)];
      InitOfSnoc(a + Init(b), Last(b));
      FilterAppend(a, Init(b), p);
    }
  }

  /** A filter whose test every element passes returns its input. */
  lemma {:induction false} FilterKeepsAll<T(!new)>(s: seq<T>, p: T -> bool)
    requires forall i :: 0 <= i < |s| ==> p(s[i])
    ensures Filter(s, p) == s
    decreases |s|
  {
    if s != [] {
      InitLast(s);
      FilterKeepsAll(Init(s), p);
    }
  }

  /** A filter whose test no element passes returns nothing. */
  lemma {:induction false} FilterKeepsNone<T(!new)>(s: seq<T>, p: T -> bool)
    requires forall i :: 0 <= i < |s| ==> !p(s[i])
    ensures Filter(s, p) == []
    decreases |s|
  {
    if s != [] {
      InitLast(s);
      FilterKeepsNone(Init(s), p);
    }
  }

  // ---------------------------------------------------------------------------------------------
  // sums

  /** The sum of `f` over `s`. */
  function SumOf<T>(s: seq<T>, f: T -> int): int
    decreases |s|
  {
    if s == [] then 0 else SumOf(Init(s), f) + f(Last(s))
  }

  lemma {:induction false} SumOfAppend<T>(a: seq<T>, b: seq<T>, f: T -> int)
    ensures SumOf(a + b, f) == SumOf(a, f) + SumOf(b, f)
    decreases |b|
  {
    if b == [] {
      assert a + b == a;
    } else {
      InitLast(b);
      assert a + b == (a + Init(b)) + [Last(b)];
      InitOfSnoc(a + Init(b), Last(b));
      SumOfAppend(a, Init(b), f);
    }
  }

  /** Sums of two functions that agree on every element are equal. */
  lemma {:induction false} SumOfCongruent<T>(s: seq<T>, f: T -> int, g: T -> int)
    requires forall i :: 0 <= i < |s| ==> f(s[i]) == g(s[i])
    ensures SumOf(s, f) == SumOf(s, g)
    decreases |s|
  {
    if s != [] {
      SumOfCongruent(Init(s), f, g);
    }
  }

  /** Raising `f` by one at a single element that occurs once raises the sum by one. */
  lemma {:induction false} SumOfBump<T>(s: seq<T>, f: T -> int, g: T -> int, x: T)
    requires NoDuplicates(s) && x in s
    requires forall i :: 0 <= i < |s| ==> g(s[i]) == f(s[i]) + (if s[i] == x then 1 else 0)
    ensures SumOf(s, g) == SumOf(s, f) + 1
    decreases |s|
  {
    var init := Init(s);
    assert forall i :: 0 <= i < |init| ==> init[i] == s[i];
    if Last(s) == x {
      assert forall i :: 0 <= i < |init| ==> init[i] != x;
      SumOfCongruent(init, f, g);
    } else {
      assert x in init by {
        InitLast(s);
      }
      SumOfBump(init, f, g, x);
    }
  }

  /** `reduce((acc, x) => acc + f(x), acc)`: a left fold from the front. */
  function FoldSum<T>(acc: int, s: seq<T>, f: T -> int): int
    decreases |s|
  {
    if s == [] then acc else FoldSum(acc + f(s[0]), s[1..], f)
  }

  /** The left fold of `reduce` computes the sum, whatever the starting accumulator. */
  lemma {:induction false} FoldSumIsSum<T>(acc: int, s: seq<T>, f: T -> int)
    ensures FoldSum(acc, s, f) == acc + SumOf(s, f)
    decreases |s|
  {
    if s != [] {
      FoldSumIsSum(acc + f(s[0]), s[1..], f);
      assert s == [s[0]] + s[1..];
      SumOfAppend([s[0]], s[1..], f);
      assert SumOf([s[0]], f) == SumOf([], f) + f(s[0]);
    }
  }

  /** Two `filter(...).length` counts with tests no element passes together add up to at most
      the length of the input. */
  lemma {:induction false} FilterDisjointCounts<T(!new)>(s: seq<T>, p: T -> bool, q: T -> bool)
    requires forall x :: !(p(x) && q(x))
    ensures |Filter(s, p)| + |Filter(s, q)| <= |s|
    decreases |s|
  {
    if s != [] {
      InitLast(s);
      FilterDisjointCounts(Init(s), p, q);
    }
  }

  // ---------------------------------------------------------------------------------------------
  // de-duplication in first-occurrence order

  ghost predicate NoDuplicates<T>(s: seq<T>)
  {
    forall i, j :: 0 <= i < j < |s| ==> s[i] != s[j]
  }

  /** The distinct elements of `s`, each once, in the order of their first occurrence: what
      spreading `new Set(s)` into an array gives. */
  function Dedup<T(==,!new)>(s: seq<T>): (r: seq<T>)
    ensures forall x :: x in r <==> x in s
    ensures NoDuplicates(r)
    ensures |r| <= |s|
    decreases |s|
  {
    if s == [] then []
    else
      var d := Dedup(Init(s));
      InitLast(s);
      if Last(s) in d then d else d + [Last(s)]
  }

  /** De-duplicating keeps the order of what it keeps. */
  lemma {:induction false} DedupIsSublist<T(!new)>(s: seq<T>)
    ensures Sublist(Dedup(s), s)
    decreases |s|
  {
    if s != [] {
      InitLast(s);
      DedupIsSublist(Init(s));
      if Last(s) !in Dedup(Init(s)) {
        InitOfSnoc(Dedup(Init(s)), Last(s));
      }
    }
  }

  /** Elements already seen keep their places: de-duplicating a prefix gives a prefix of the
      result. With `NoDuplicates`, this pins the order down to first occurrence. */
  lemma {:induction false} DedupPrefix<T(!new)>(a: seq<T>, b: seq<T>)
    ensures Dedup(a) <= Dedup(a + b)
    decreases |b|
  {
    if b == [] {
      assert a + b == a;
    } else {
      InitLast(b);
      assert a + b == (a + Init(b)) + [Last(b)];
      InitOfSnoc(a + Init(b), Last(b));
      DedupPrefix(a, Init(b));
    }
  }
}
