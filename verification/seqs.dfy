/** Sequence vocabulary shared by every component: order-preserving filtering,
    flattening, Python-style prefix slicing and duplicate-free sequences. */
module Seqs {

  function Min(a: int, b: int): int { if a <= b then a else b }

  function Max(a: int, b: int): int { if a <= b then b else a }

  /** `a` is obtained from `b` by deleting elements, keeping the rest in order. */
  predicate IsSubseq<T(==)>(a: seq<T>, b: seq<T>)
    decreases |b|
  {
    if a == [] then true
    else if b == [] then false
    else if a[0] == b[0] then IsSubseq(a[1..], b[1..])
    else IsSubseq(a, b[1..])
  }

  lemma {:induction false} SubseqLength<T>(a: seq<T>, b: seq<T>)
    requires IsSubseq(a, b)
    ensures |a| <= |b|
    ensures |a| == |b| ==> a == b
    decreases |b|
  {
    if a == [] {
    } else if a[0] == b[0] {
      SubseqLength(a[1..], b[1..]);
      if |a| == |b| {
        assert a == [a[0]] + a[1..];
        assert b == [b[0]] + b[1..];
      }
    } else {
      SubseqLength(a, b[1..]);
    }
  }

  /** The elements of `s` that satisfy `p`, in their original order
      (a Python list comprehension with an `if` clause). */
  function Filter<T(==,!new)>(p: T -> bool, s: seq<T>): (r: seq<T>)
    ensures |r| <= |s|
    ensures forall i :: 0 <= i < |r| ==> p(r[i])
    ensures forall x :: x in r <==> x in s && p(x)
  {
    if s == [] then []
    else
      var rest := Filter(p, s[1..]);
      assert s == [s[0]] + s[1..];
      if p(s[0]) then [s[0]] + rest else rest
  }

  /** `Filter` keeps every occurrence of a selected element and nothing else. */
  lemma {:induction false} FilterCounts<T(!new)>(p: T -> bool, s: seq<T>)
    ensures forall x :: multiset(Filter(p, s))[x] == if p(x) then multiset(s)[x] else 0
    decreases |s|
  {
    if s != [] {
      FilterCounts(p, s[1..]);
      assert s == [s[0]] + s[1..];
    }
  }

  /** `Filter` keeps the selected elements in their original order. */
  lemma {:induction false} FilterSubseq<T(!new)>(p: T -> bool, s: seq<T>)
    ensures IsSubseq(Filter(p, s), s)
    decreases |s|
  {
    if s != [] {
      FilterSubseq(p, s[1..]);
      var rest := Filter(p, s[1..]);
      if p(s[0]) {
        assert ([s[0]] + rest)[1..] == rest;
      } else {
        SubseqDropFront(rest, s);
      }
    }
  }

  lemma {:induction false} SubseqDropFront<T>(a: seq<T>, b: seq<T>)
    requires b != [] && IsSubseq(a, b[1..])
    ensures IsSubseq(a, b)
    decreases |b|, 0
  {
    if a != [] && a[0] == b[0] {
      SubseqTail(a, b[1..]);
    }
  }

  lemma {:induction false} SubseqTail<T>(a: seq<T>, b: seq<T>)
    requires a != [] && IsSubseq(a, b)
    ensures IsSubseq(a[1..], b)
    decreases |b|, 1
  {
    if a[0] == b[0] {
      if a[1..] != [] {
        SubseqDropFront(a[1..], b);
      }
    } else {
      SubseqTail(a, b[1..]);
      if a[1..] != [] {
        SubseqDropFront(a[1..], b);
      }
    }
  }

  lemma {:induction false} FilterConcat<T(!new)>(p: T -> bool, a: seq<T>, b: seq<T>)
    ensures Filter(p, a + b) == Filter(p, a) + Filter(p, b)
    decreases |a|
  {
    if a == [] {
      assert a + b == b;
    } else {
      assert (a + b)[0] == a[0];
      assert (a + b)[1..] == a[1..] + b;
      FilterConcat(p, a[1..], b);
    }
  }

  lemma {:induction false} SubseqOfFilter<T(!new)>(p: T -> bool, r: seq<T>, s: seq<T>)
    requires IsSubseq(r, s)
    requires forall i :: 0 <= i < |r| ==> p(r[i])
    ensures IsSubseq(r, Filter(p, s))
    decreases |s|
  {
    if r == [] {
    } else if r[0] == s[0] {
      SubseqOfFilter(p, r[1..], s[1..]);
      var f := Filter(p, s[1..]);
      assert Filter(p, s) == [s[0]] + f;
      assert ([s[0]] + f)[1..] == f;
    } else {
      SubseqOfFilter(p, r, s[1..]);
      var f := Filter(p, s[1..]);
      if p(s[0]) {
        assert Filter(p, s) == [s[0]] + f;
        assert ([s[0]] + f)[1..] == f;
      }
    }
  }

  /** The contract of `Filter` pins its result down: any order-preserving
      selection of `p`-elements of `s` with `Filter`'s element counts is it. */
  lemma FilterUnique<T(!new)>(p: T -> bool, r: seq<T>, s: seq<T>)
    requires IsSubseq(r, s)
    requires forall i :: 0 <= i < |r| ==> p(r[i])
    requires forall x :: multiset(r)[x] == if p(x) then multiset(s)[x] else 0
    ensures r == Filter(p, s)
  {
    var f := Filter(p, s);
    FilterCounts(p, s);
    SubseqOfFilter(p, r, s);
    assert forall x :: multiset(r)[x] == multiset(f)[x];
    assert multiset(r) == multiset(f);
    assert |r| == |multiset(r)| == |multiset(f)| == |f|;
    SubseqLength(r, f);
  }

  /** Two selectors that agree on every element select the same elements. */
  lemma {:induction false} FilterCongruent<T(!new)>(p: T -> bool, q: T -> bool, s: seq<T>)
    requires forall x :: p(x) == q(x)
    ensures Filter(p, s) == Filter(q, s)
    decreases |s|
  {
    if s != [] {
      FilterCongruent(p, q, s[1..]);
    }
  }

  /** The elements of `s` transformed by `f`, position by position. */
  function MapSeq<T, U>(f: T -> U, s: seq<T>): (r: seq<U>)
    ensures |r| == |s|
    ensures forall i :: 0 <= i < |s| ==> r[i] == f(s[i])
  {
    seq(|s|, i requires 0 <= i < |s| => f(s[i]))
  }

  lemma MapSeqConcat<T, U>(f: T -> U, a: seq<T>, b: seq<T>)
    ensures MapSeq(f, a + b) == MapSeq(f, a) + MapSeq(f, b)
  {
  }

  /** Appending one element extends the mapped selection by that element's
      image exactly when it is selected. */
  lemma MapFilterSnoc<T(!new), U>(f: T -> U, p: T -> bool, s: seq<T>, x: T)
    ensures MapSeq(f, Filter(p, s + [x])) == MapSeq(f, Filter(p, s)) + (if p(x) then [f(x)] else [])
  {
    FilterConcat(p, s, [x]);
    assert Filter(p, [x]) == if p(x) then [x] else [];
    MapSeqConcat(f, Filter(p, s), Filter(p, [x]));
  }

  /** Every element of a mapped filter is the image of an accepted element. */
  lemma MapFilterFrom<T(!new), U>(f: T -> U, p: T -> bool, s: seq<T>)
    ensures forall y :: y in MapSeq(f, Filter(p, s)) ==> exists x :: x in s && p(x) && y == f(x)
  {
    var kept := Filter(p, s);
    forall y | y in MapSeq(f, kept) ensures exists x :: x in s && p(x) && y == f(x) {
      var i :| 0 <= i < |kept| && MapSeq(f, kept)[i] == y;
      assert kept[i] in s && p(kept[i]);
    }
  }

  /** Every accepted element has its image in a mapped filter. */
  lemma MapFilterCovers<T(!new), U>(f: T -> U, p: T -> bool, s: seq<T>)
    ensures forall x :: x in s && p(x) ==> f(x) in MapSeq(f, Filter(p, s))
  {
    var kept := Filter(p, s);
    forall x | x in s && p(x) ensures f(x) in MapSeq(f, kept) {
      var j :| 0 <= j < |kept| && kept[j] == x;
      assert MapSeq(f, kept)[j] == f(x);
    }
  }

  /** A mapped filter is empty exactly when nothing is accepted. */
  lemma MapFilterEmpty<T(!new), U>(f: T -> U, p: T -> bool, s: seq<T>)
    ensures MapSeq(f, Filter(p, s)) == [] <==> forall x :: x in s ==> !p(x)
  {
    var kept := Filter(p, s);
    assert kept != [] ==> kept[0] in s && p(kept[0]);
  }

  /** The images under `f` of the `p`-elements among the first `n` elements
      of `s`, in order: a loop that appends `f(x)` for every selected `x`. */
  function SelectMap<T, U>(p: T -> bool, f: T -> U, s: seq<T>, n: nat): seq<U>
    requires n <= |s|
    decreases n
  {
    if n == 0 then []
    else if p(s[n - 1]) then SelectMap(p, f, s, n - 1) + [f(s[n - 1])]
    else SelectMap(p, f, s, n - 1)
  }

  lemma {:induction false} SelectMapProjection<T(!new), U>(p: T -> bool, f: T -> U, s: seq<T>, n: nat)
    requires n <= |s|
    ensures SelectMap(p, f, s, n) == MapSeq(f, Filter(p, s[..n]))
    decreases n
  {
    if n > 0 {
      SelectMapProjection(p, f, s, n - 1);
      assert s[..n] == s[..n - 1] + [s[n - 1]];
      MapFilterSnoc(f, p, s[..n - 1], s[n - 1]);
    }
  }

  /** Index of the first element satisfying `p`, or `|s|` when there is none. */
  function FirstWhere<T>(p: T -> bool, s: seq<T>): (k: nat)
    ensures k <= |s|
    ensures k < |s| ==> p(s[k])
    ensures forall j :: 0 <= j < k ==> !p(s[j])
    decreases |s|
  {
    if s == [] then 0
    else if p(s[0]) then 0
    else 1 + FirstWhere(p, s[1..])
  }


  /** The test "equals `x`". */
  function EqualTo<T(==)>(x: T): T -> bool {
    y => y == x
  }

  /** Index of the first occurrence of `x` in `s`, or `|s|` when there is none
      (`list.index` and `str.find`, with the length standing for "absent"). */
  function IndexOf<T(==)>(s: seq<T>, x: T): (k: nat)
    ensures k <= |s|
    ensures k < |s| ==> s[k] == x
    ensures forall j :: 0 <= j < k ==> s[j] != x
    ensures k == |s| <==> x !in s
  {
    FirstWhere(EqualTo(x), s)
  }

  /** When every element is accepted, nothing is dropped. */
  lemma {:induction false} FilterAll<T(!new)>(p: T -> bool, s: seq<T>)
    requires forall i :: 0 <= i < |s| ==> p(s[i])
    ensures Filter(p, s) == s
    decreases |s|
  {
    if s != [] {
      FilterAll(p, s[1..]);
      assert s == [s[0]] + s[1..];
    }
  }

  /** When no element is accepted, nothing is kept. */
  lemma FilterNone<T(!new)>(p: T -> bool, s: seq<T>)
    requires forall i :: 0 <= i < |s| ==> !p(s[i])
    ensures Filter(p, s) == []
  {
  }

  /** A stretch with nothing selected, then one with everything selected. */
  /** Cutting `s` at `g` and at `w` and joining the three pieces gives `s` back. */
  lemma Split3<T>(s: seq<T>, g: nat, w: nat)
    requires g <= w <= |s|
    ensures s[..g] + s[g..w] + s[w..] == s
  {
    assert s[..g] + s[g..w] == s[..w];
  }

  lemma FilterDropKeep<T(!new)>(p: T -> bool, a: seq<T>, b: seq<T>, c: seq<T>)
    requires forall i :: 0 <= i < |a| ==> !p(a[i])
    requires forall i :: 0 <= i < |b| ==> p(b[i])
    ensures Filter(p, a + b + c) == b + Filter(p, c)
  {
    var ab := a + b;
    FilterConcat(p, ab, c);
    FilterConcat(p, a, b);
    FilterNone(p, a);
    FilterAll(p, b);
    calc {
      Filter(p, ab + c);
      Filter(p, ab) + Filter(p, c);
      Filter(p, a) + Filter(p, b) + Filter(p, c);
      [] + b + Filter(p, c);
    }
    assert [] + b == b;
  }

  /** Concatenation of a sequence of sequences (`list.extend` in a loop). */
  function Flatten<T>(ss: seq<seq<T>>): seq<T>
    decreases |ss|
  {
    if ss == [] then [] else ss[0] + Flatten(ss[1..])
  }

  lemma {:induction false} FlattenConcat<T>(a: seq<seq<T>>, b: seq<seq<T>>)
    ensures Flatten(a + b) == Flatten(a) + Flatten(b)
    decreases |a|
  {
    if a == [] {
      assert a + b == b;
    } else {
      assert (a + b)[0] == a[0];
      assert (a + b)[1..] == a[1..] + b;
      FlattenConcat(a[1..], b);
    }
  }

  /** An element of a concatenation comes from one of its parts. */
  lemma {:induction false} FlattenMember<T>(ss: seq<seq<T>>, x: T)
    ensures x in Flatten(ss) <==> exists i :: 0 <= i < |ss| && x in ss[i]
    decreases |ss|
  {
    if ss != [] {
      FlattenMember(ss[1..], x);
      if x in Flatten(ss[1..]) {
        var i :| 0 <= i < |ss[1..]| && x in ss[1..][i];
        assert x in ss[i + 1];
      }
      if exists i :: 0 <= i < |ss| && x in ss[i] {
        var i :| 0 <= i < |ss| && x in ss[i];
        if i > 0 {
          assert x in ss[1..][i - 1];
        }
      }
    }
  }


  /** Python's slice `s[:n]`: at most `n` elements from the front, and for a
      negative `n` everything except the last `-n` elements. */
  function PyPrefix<T>(s: seq<T>, n: int): (r: seq<T>)
    ensures r <= s
    ensures n >= 0 ==> |r| == Min(n, |s|)
    ensures n < 0 ==> |r| == Max(0, |s| + n)
  {
    if n >= 0 then (if n <= |s| then s[..n] else s)
    else if |s| + n >= 0 then s[..|s| + n]
    else []
  }

  predicate NoDuplicates<T(==)>(s: seq<T>) {
    forall i, j :: 0 <= i < j < |s| ==> s[i] != s[j]
  }

  /** The distinct elements of `s`, each at the position of its first occurrence. */
  function Distinct<T(==,!new)>(s: seq<T>): (r: seq<T>)
    ensures NoDuplicates(r)
    ensures forall x :: x in r <==> x in s
    decreases |s|
  {
    if s == [] then []
    else
      var init := s[..|s| - 1];
      var last := s[|s| - 1];
      assert s == init + [last];
      var d := Distinct(init);
      if last in d then d else d + [last]
  }
}
