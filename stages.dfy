/** What the buffer-free transformer stages yield when their upstream producer
    would yield the finite sequence `s`.

    Every stage keeps its own pull counter and hands it to its callback, so a
    callback sees an element together with that element's position in `s`:
    elements a stage rejects are counted too. */
module Stages {

  /** The negation of a callback, as `filterNot`, `takeWhile` and `first` use it. */
  function Not<T>(p: (T, nat) -> bool): (T, nat) -> bool
  {
    (x: T, i: nat) => !p(x, i)
  }

  /** The callback that recognises one value (the `===` tests of `indexOf` and `minusElement`). */
  function Is<T(==)>(e: T): (T, nat) -> bool
  {
    (x: T, i: nat) => x == e
  }

  /** The results of a callback applied to every element with its position. */
  function Mapped<T, U>(s: seq<T>, fn: (T, nat) -> U): (r: seq<U>)
    ensures |r| == |s|
    ensures forall k :: 0 <= k < |s| ==> r[k] == fn(s[k], k)
  {
    seq(|s|, k requires 0 <= k < |s| => fn(s[k], k))
  }

  // ------------------------------------------------------------------
  // filter, filterNot, minus
  // ------------------------------------------------------------------

  /** The elements `s[k]` with `p(s[k], k)`, in source order. */
  function Filtered<T>(s: seq<T>, p: (T, nat) -> bool): seq<T>
  {
    if s == [] then []
    else Filtered(s[..|s| - 1], p) + (if p(s[|s| - 1], |s| - 1) then [s[|s| - 1]] else [])
  }

  /** One more element: it is kept exactly when the callback accepts it at its position. */
  lemma FilteredStep<T>(s: seq<T>, p: (T, nat) -> bool, i: nat)
    requires i < |s|
    ensures Filtered(s[..i + 1], p) == Filtered(s[..i], p) + (if p(s[i], i) then [s[i]] else [])
  {
    var init := s[..i + 1];
    assert init[..|init| - 1] == s[..i];
  }

  /** The positions `k` of `s` with `p(s[k], k)`, ascending. */
  function KeptPositions<T>(s: seq<T>, p: (T, nat) -> bool): seq<nat>
  {
    if s == [] then []
    else KeptPositions(s[..|s| - 1], p) + (if p(s[|s| - 1], |s| - 1) then [|s| - 1] else [])
  }

  /** Position `k` is kept exactly when the callback accepts it. */
  lemma {:induction false} KeptAt<T>(s: seq<T>, p: (T, nat) -> bool, k: nat)
    requires k < |s|
    ensures k in KeptPositions(s, p) <==> p(s[k], k)
    decreases |s|
  {
    var init := s[..|s| - 1];
    if k < |s| - 1 {
      KeptAt(init, p, k);
      assert init[k] == s[k];
    } else if k in KeptPositions(init, p) {
      KeptBelow(init, p, k);
    }
  }

  /** Kept positions are positions of the source. */
  lemma {:induction false} KeptBelow<T>(s: seq<T>, p: (T, nat) -> bool, x: nat)
    requires x in KeptPositions(s, p)
    ensures x < |s|
    decreases |s|
  {
    var init := s[..|s| - 1];
    if x in KeptPositions(init, p) {
      KeptBelow(init, p, x);
    }
  }

  /** A filter keeps as many elements as it has kept positions. */
  lemma {:induction false} KeptCount<T>(s: seq<T>, p: (T, nat) -> bool)
    ensures |Filtered(s, p)| == |KeptPositions(s, p)|
  {
    if s != [] {
      KeptCount(s[..|s| - 1], p);
    }
  }

  /** The `j`-th element a filter keeps is the source element at the `j`-th kept position. */
  lemma {:induction false} FilteredAtKept<T>(s: seq<T>, p: (T, nat) -> bool)
    ensures forall j :: 0 <= j < |KeptPositions(s, p)| ==>
              KeptPositions(s, p)[j] < |s| && j < |Filtered(s, p)| && Filtered(s, p)[j] == s[KeptPositions(s, p)[j]]
  {
    KeptCount(s, p);
    if s != [] {
      var init := s[..|s| - 1];
      FilteredAtKept(init, p);
      KeptCount(init, p);
      var ks, r := KeptPositions(init, p), Filtered(init, p);
      forall j | 0 <= j < |ks|
        ensures KeptPositions(s, p)[j] == ks[j] && Filtered(s, p)[j] == r[j] && init[ks[j]] == s[ks[j]]
      {
      }
    }
  }

  /** Kept positions ascend strictly. */
  lemma {:induction false} KeptAscending<T>(s: seq<T>, p: (T, nat) -> bool)
    ensures forall j1, j2 :: 0 <= j1 < j2 < |KeptPositions(s, p)| ==>
              KeptPositions(s, p)[j1] < KeptPositions(s, p)[j2]
  {
    if s != [] {
      var init := s[..|s| - 1];
      KeptAscending(init, p);
      var ks := KeptPositions(init, p);
      forall j | 0 <= j < |ks|
        ensures ks[j] < |s| - 1
      {
        KeptBelow(init, p, ks[j]);
      }
    }
  }

  /** A filter keeps exactly the positions its callback accepts, in increasing order:
      the output is the subsequence of `s` at those positions. */
  lemma FilteredPicksKeptPositions<T>(s: seq<T>, p: (T, nat) -> bool)
    ensures |Filtered(s, p)| == |KeptPositions(s, p)|
    ensures forall j :: 0 <= j < |KeptPositions(s, p)| ==>
              KeptPositions(s, p)[j] < |s| && Filtered(s, p)[j] == s[KeptPositions(s, p)[j]]
    ensures forall j1, j2 :: 0 <= j1 < j2 < |KeptPositions(s, p)| ==>
              KeptPositions(s, p)[j1] < KeptPositions(s, p)[j2]
    ensures forall k :: 0 <= k < |s| ==> (k in KeptPositions(s, p) <==> p(s[k], k))
  {
    KeptCount(s, p);
    FilteredAtKept(s, p);
    KeptAscending(s, p);
    forall k | 0 <= k < |s|
      ensures k in KeptPositions(s, p) <==> p(s[k], k)
    {
      KeptAt(s, p, k);
    }
  }

  /** An element is in the filtered output exactly when some position holding it is accepted. */
  lemma FilteredMembership<T>(s: seq<T>, p: (T, nat) -> bool, x: T)
    ensures x in Filtered(s, p) <==> exists k :: 0 <= k < |s| && s[k] == x && p(s[k], k)
  {
    FilteredPicksKeptPositions(s, p);
    var r, ks := Filtered(s, p), KeptPositions(s, p);
    if x in r {
      var j :| 0 <= j < |r| && r[j] == x;
      assert ks[j] in ks;
    }
    if exists k :: 0 <= k < |s| && s[k] == x && p(s[k], k) {
      var k :| 0 <= k < |s| && s[k] == x && p(s[k], k);
      var j :| 0 <= j < |ks| && ks[j] == k;
      assert r[j] == x;
    }
  }

  /** `filter(p)` and `filterNot(p)` split the source between them: together they hold
      every element exactly as often as the source does. */
  lemma {:induction false} FilteredSplitsSource<T>(s: seq<T>, p: (T, nat) -> bool)
    ensures multiset(Filtered(s, p)) + multiset(Filtered(s, Not(p))) == multiset(s)
    ensures |Filtered(s, p)| + |Filtered(s, Not(p))| == |s|
  {
    if s != [] {
      var init, x := s[..|s| - 1], s[|s| - 1];
      FilteredSplitsSource(init, p);
      FilteredSplitStep(s, p, init, x, Filtered(init, p), Filtered(init, Not(p)));
      MultisetOfLast(s);
    }
  }

  /** The elements of a non-empty sequence: those before the last one, and the last one. */
  lemma MultisetOfLast<T>(s: seq<T>)
    requires s != []
    ensures multiset(s) == multiset(s[..|s| - 1]) + multiset{s[|s| - 1]}
  {
    assert s == s[..|s| - 1] + [s[|s| - 1]];
  }

  /** The last element goes to exactly one side of the split. */
  lemma FilteredSplitStep<T>(s: seq<T>, p: (T, nat) -> bool, init: seq<T>, x: T, yes: seq<T>, no: seq<T>)
    requires s != [] && init == s[..|s| - 1] && x == s[|s| - 1]
    requires yes == Filtered(init, p) && no == Filtered(init, Not(p))
    ensures multiset(Filtered(s, p)) + multiset(Filtered(s, Not(p))) == multiset(yes) + multiset(no) + multiset{x}
    ensures |Filtered(s, p)| + |Filtered(s, Not(p))| == |yes| + |no| + 1
  {
    assert Not(p)(x, |s| - 1) == !p(x, |s| - 1);
    if p(x, |s| - 1) {
      assert Filtered(s, p) == yes + [x] && Filtered(s, Not(p)) == no;
    } else {
      assert Filtered(s, p) == yes && Filtered(s, Not(p)) == no + [x];
    }
  }

  /** Two callbacks that agree on every (element, position) pair of `s` filter it alike. */
  lemma {:induction false} FilteredCongruent<T>(s: seq<T>, p: (T, nat) -> bool, q: (T, nat) -> bool)
    requires forall k :: 0 <= k < |s| ==> p(s[k], k) == q(s[k], k)
    ensures Filtered(s, p) == Filtered(s, q)
  {
    if s != [] {
      var init := s[..|s| - 1];
      assert forall k :: 0 <= k < |init| ==> init[k] == s[k];
      FilteredCongruent(init, p, q);
    }
  }

  // ------------------------------------------------------------------
  // take, drop
  // ------------------------------------------------------------------

  /** How many elements a count `n` covers in a source of length `len`: none for a negative
      count, all of them for a count past the end. */
  function Bound(n: int, len: nat): (b: nat)
    ensures b <= len
    ensures 0 <= n <= len ==> b == n
  {
    if n < 0 then 0 else if n < len then n else len
  }

  // ------------------------------------------------------------------
  // takeWhile, dropWhile, find, first, indexOfFirst
  // ------------------------------------------------------------------

  /** The first position whose element satisfies `p`, or `|s|` when none does. */
  function FirstMatch<T>(s: seq<T>, p: (T, nat) -> bool): (k: nat)
    ensures k <= |s|
    ensures forall j :: 0 <= j < k ==> !p(s[j], j)
    ensures k < |s| ==> p(s[k], k)
  {
    if s == [] then 0
    else
      var k := FirstMatch(s[..|s| - 1], p);
      if k < |s| - 1 then k
      else if p(s[|s| - 1], |s| - 1) then |s| - 1
      else |s|
  }

  /** Two callbacks that agree on `s` have the same first match. */
  lemma FirstMatchCongruent<T>(s: seq<T>, p: (T, nat) -> bool, q: (T, nat) -> bool)
    requires forall k :: 0 <= k < |s| ==> p(s[k], k) == q(s[k], k)
    ensures FirstMatch(s, p) == FirstMatch(s, q)
  {
  }

  // ------------------------------------------------------------------
  // minusElement
  // ------------------------------------------------------------------

  /** `s` without its first occurrence of `e` (unchanged when `e` does not occur). */
  function WithoutFirst<T(==)>(s: seq<T>, e: T): seq<T>
  {
    var m := FirstMatch(s, Is(e));
    if m < |s| then s[..m] + s[m + 1..] else s
  }

  /** Removing the first occurrence removes exactly one copy of `e`, if there is one. */
  lemma WithoutFirstRemovesOneCopy<T>(s: seq<T>, e: T)
    ensures multiset(WithoutFirst(s, e)) == multiset(s) - multiset{e}
    ensures e in s ==> |WithoutFirst(s, e)| == |s| - 1
  {
    var m := FirstMatch(s, Is(e));
    if m < |s| {
      assert Is(e)(s[m], m);
      MultisetWithout(s, m);
    } else {
      forall k | 0 <= k < |s| ensures s[k] != e {
        assert !Is(e)(s[k], k);
      }
      assert multiset(s)[e] == 0;
    }
  }

  /** Cutting out position `m` removes one copy of the element there. */
  lemma MultisetWithout<T>(s: seq<T>, m: nat)
    requires m < |s|
    ensures multiset(s[..m] + s[m + 1..]) == multiset(s) - multiset{s[m]}
  {
    var before, after := s[..m], s[m + 1..];
    assert s == before + [s[m]] + after;
  }

  // ------------------------------------------------------------------
  // distinct, distinctBy
  // ------------------------------------------------------------------

  /** First occurrences: `s[k]` is kept exactly when it does not occur in `s[..k]`. */
  function Distinct<T(==)>(s: seq<T>): seq<T>
  {
    if s == [] then []
    else Distinct(s[..|s| - 1]) + (if s[|s| - 1] in s[..|s| - 1] then [] else [s[|s| - 1]])
  }

  /** `distinct` keeps every value of the source and no other. */
  lemma {:induction false} DistinctElements<T>(s: seq<T>)
    ensures forall x :: x in Distinct(s) <==> x in s
  {
    if s != [] {
      var init := s[..|s| - 1];
      DistinctElements(init);
      assert s == init + [s[|s| - 1]];
    }
  }

  /** One value: it survives `distinct` exactly when it occurs in the source. */
  lemma DistinctMember<T>(s: seq<T>, x: T)
    ensures x in Distinct(s) <==> x in s
  {
    DistinctElements(s);
  }

  /** `distinct` never yields a value twice. */
  lemma {:induction false} DistinctHasNoDuplicates<T>(s: seq<T>)
    ensures forall i, j :: 0 <= i < j < |Distinct(s)| ==> Distinct(s)[i] != Distinct(s)[j]
  {
    if s != [] {
      var init := s[..|s| - 1];
      DistinctHasNoDuplicates(init);
      DistinctElements(init);
    }
  }

  /** A sequence without duplicates is its own `distinct`. */
  lemma {:induction false} DistinctOfUnique<T>(s: seq<T>)
    requires forall i, j :: 0 <= i < j < |s| ==> s[i] != s[j]
    ensures Distinct(s) == s
  {
    if s != [] {
      var init := s[..|s| - 1];
      DistinctOfUnique(init);
      assert s[|s| - 1] !in init by {
        forall i | 0 <= i < |init| ensures init[i] != s[|s| - 1] {
          assert init[i] == s[i];
        }
      }
      assert init + [s[|s| - 1]] == s;
    }
  }

  /** `distinct` is idempotent. */
  lemma DistinctIdempotent<T>(s: seq<T>)
    ensures Distinct(Distinct(s)) == Distinct(s)
  {
    DistinctHasNoDuplicates(s);
    DistinctOfUnique(Distinct(s));
  }

  /** Values that were all seen before add nothing to `distinct`. */
  lemma {:induction false} DistinctIgnoresSeen<T>(s: seq<T>, t: seq<T>)
    requires forall k :: 0 <= k < |t| ==> t[k] in s
    ensures Distinct(s + t) == Distinct(s)
  {
    if t == [] {
      assert s + t == s;
    } else {
      var init := t[..|t| - 1];
      DistinctIgnoresSeen(s, init);
      var st := s + t;
      assert st[..|st| - 1] == s + init;
      assert st[|st| - 1] == t[|t| - 1];
      assert t[|t| - 1] in s + init;
    }
  }

  /** The callback accepting the positions that hold a value's first occurrence. */
  function FirstSeen<T(==)>(s: seq<T>): (T, nat) -> bool
  {
    (x: T, k: nat) => k <= |s| && x !in s[..k]
  }

  /** `distinct` is the filter of first occurrences, so it keeps source order. */
  lemma {:induction false} DistinctIsFirstOccurrences<T>(s: seq<T>)
    ensures Distinct(s) == Filtered(s, FirstSeen(s))
  {
    if s != [] {
      var init := s[..|s| - 1];
      DistinctIsFirstOccurrences(init);
      forall k | 0 <= k < |init|
        ensures FirstSeen(init)(init[k], k) == FirstSeen(s)(init[k], k)
      {
        assert init[..k] == s[..k];
      }
      FilteredCongruent(init, FirstSeen(init), FirstSeen(s));
    }
  }

  /** First key occurrences: `s[k]` is kept exactly when its key does not occur among
      the keys of `s[..k]`. */
  function DistinctBy<T, K(==)>(s: seq<T>, f: (T, nat) -> K): seq<T>
  {
    if s == [] then []
    else
      DistinctBy(s[..|s| - 1], f)
      + (if f(s[|s| - 1], |s| - 1) in Mapped(s[..|s| - 1], f) then [] else [s[|s| - 1]])
  }

  /** The callback accepting the positions that hold a key's first occurrence. */
  function FreshKey<T, K(==)>(s: seq<T>, f: (T, nat) -> K): (T, nat) -> bool
  {
    (x: T, k: nat) => k <= |s| && f(x, k) !in Mapped(s[..k], f)
  }

  /** `distinctBy` is the filter of first key occurrences, so it keeps source order. */
  lemma {:induction false} DistinctByIsFirstKeyOccurrences<T, K>(s: seq<T>, f: (T, nat) -> K)
    ensures DistinctBy(s, f) == Filtered(s, FreshKey(s, f))
  {
    if s != [] {
      var init := s[..|s| - 1];
      DistinctByIsFirstKeyOccurrences(init, f);
      forall k | 0 <= k < |init|
        ensures FreshKey(init, f)(init[k], k) == FreshKey(s, f)(init[k], k)
      {
        assert init[..k] == s[..k];
      }
      FilteredCongruent(init, FreshKey(init, f), FreshKey(s, f));
    }
  }

  /** The elements `distinctBy` keeps have pairwise different keys. */
  lemma DistinctByKeysDiffer<T, K>(s: seq<T>, f: (T, nat) -> K)
    ensures var ks := KeptPositions(s, FreshKey(s, f));
      forall a, b :: 0 <= a < b < |s| && a in ks && b in ks ==> f(s[a], a) != f(s[b], b)
  {
    var p := FreshKey(s, f);
    var ks := KeptPositions(s, p);
    forall a, b | 0 <= a < b < |s| && a in ks && b in ks
      ensures f(s[a], a) != f(s[b], b)
    {
      KeptAt(s, p, b);
      var prefix := Mapped(s[..b], f);
      assert f(s[b], b) !in prefix;
      assert s[..b][a] == s[a];
      assert prefix[a] == f(s[a], a);
    }
  }

  /** Every key of the source is the key of an element `distinctBy` keeps, at or before
      the position where it occurs. */
  lemma DistinctByKeysCovered<T, K>(s: seq<T>, f: (T, nat) -> K, k: nat)
    requires k < |s|
    ensures exists a :: 0 <= a <= k && a in KeptPositions(s, FreshKey(s, f)) && f(s[a], a) == f(s[k], k)
  {
    var same := (x: T, i: nat) => f(x, i) == f(s[k], k);
    assert same(s[k], k);
    var a := FirstMatch(s, same);
    assert a <= k;
    var prefix := Mapped(s[..a], f);
    forall b | 0 <= b < a
      ensures prefix[b] != f(s[a], a)
    {
      assert s[..a][b] == s[b];
      assert !same(s[b], b);
    }
    KeptAt(s, FreshKey(s, f), a);
  }

  // ------------------------------------------------------------------
  // flatMap, flatten
  // ------------------------------------------------------------------

  /** The concatenation of the inner sequences, in order. */
  function Concat<T>(xss: seq<seq<T>>): seq<T>
  {
    if xss == [] then [] else Concat(xss[..|xss| - 1]) + xss[|xss| - 1]
  }

  /** An element is yielded by a flattening exactly when some inner sequence holds it. */
  lemma {:induction false} ConcatMembership<T>(xss: seq<seq<T>>, x: T)
    ensures x in Concat(xss) <==> exists j :: 0 <= j < |xss| && x in xss[j]
  {
    if xss != [] {
      var init := xss[..|xss| - 1];
      ConcatMembership(init, x);
      if x in Concat(init) {
        var j :| 0 <= j < |init| && x in init[j];
        assert xss[j] == init[j];
      }
      if exists j :: 0 <= j < |xss| && x in xss[j] {
        var j :| 0 <= j < |xss| && x in xss[j];
        if j < |init| {
          assert init[j] == xss[j];
        }
      }
    }
  }

  /** The total length of a flattening is the sum of the inner lengths. */
  function TotalLength<T>(xss: seq<seq<T>>): nat
  {
    if xss == [] then 0 else TotalLength(xss[..|xss| - 1]) + |xss[|xss| - 1]|
  }

  lemma {:induction false} ConcatLength<T>(xss: seq<seq<T>>)
    ensures |Concat(xss)| == TotalLength(xss)
  {
    if xss != [] {
      ConcatLength(xss[..|xss| - 1]);
    }
  }

  /** An item of a sequence being flattened: something iterable, or a value that is not. */
  datatype Nested<T> = Iterable(items: seq<T>) | NotIterable

  /** The callback recognising the items `flatten` rejects. */
  function IsNotIterable<T>(): (Nested<T>, nat) -> bool
  {
    (x: Nested<T>, i: nat) => x.NotIterable?
  }

  /** The contents of the iterable items, in order (a non-iterable item contributes nothing). */
  function Contents<T>(items: seq<Nested<T>>): seq<T>
  {
    if items == [] then []
    else
      Contents(items[..|items| - 1])
      + (match items[|items| - 1] case Iterable(xs) => xs case NotIterable => [])
  }

  /** Arrays seen as iterable items. */
  function AsIterables<T>(xss: seq<seq<T>>): (items: seq<Nested<T>>)
    ensures |items| == |xss|
    ensures forall j :: 0 <= j < |xss| ==> items[j] == Iterable(xss[j])
  {
    seq(|xss|, j requires 0 <= j < |xss| => Iterable(xss[j]))
  }

  /** Flattening arrays seen as iterable items concatenates them, and none is rejected. */
  lemma {:induction false} ContentsOfIterables<T>(xss: seq<seq<T>>)
    ensures Contents(AsIterables(xss)) == Concat(xss)
    ensures FirstMatch(AsIterables(xss), IsNotIterable()) == |xss|
  {
    var items := AsIterables(xss);
    if xss != [] {
      var init := xss[..|xss| - 1];
      ContentsOfIterables(init);
      assert items[..|items| - 1] == AsIterables(init);
    }
    if FirstMatch(items, IsNotIterable()) < |xss| {
      var m := FirstMatch(items, IsNotIterable());
      assert IsNotIterable()(items[m], m);
    }
  }

  // ------------------------------------------------------------------
  // withIndex, generateSequence
  // ------------------------------------------------------------------

  /** The `{ value, index }` records `withIndex` yields. */
  datatype Indexed<T> = Indexed(value: T, index: nat)

  /** Every element paired with its position: what `withIndex` yields, and the arguments
      `onEach` and `forEach` call their callback with. */
  function Indexing<T>(s: seq<T>): (r: seq<Indexed<T>>)
    ensures |r| == |s|
    ensures forall k :: 0 <= k < |s| ==> r[k] == Indexed(s[k], k)
  {
    seq(|s|, k requires 0 <= k < |s| => Indexed(s[k], k))
  }

  /** The seed of `generateSequence`: a value, or a function called once to produce it. */
  datatype Seed<T> = Value(value: T) | Supplier(supply: () -> T)

  function Start<T>(seed: Seed<T>): T
  {
    match seed
    case Value(v) => v
    case Supplier(f) => f()
  }

  /** The first `n` values of the infinite `generateSequence` stream started at `start`:
      value k is `fn(previous, k)`, the previous of value 0 being the seed itself. */
  function Iterates<T>(start: T, fn: (T, nat) -> T, n: nat): (r: seq<T>)
    ensures |r| == n
    ensures n > 0 ==> r[0] == fn(start, 0)
    ensures forall k :: 0 < k < n ==> r[k] == fn(r[k - 1], k)
  {
    if n == 0 then []
    else
      var prev := Iterates(start, fn, n - 1);
      prev + [fn(if n == 1 then start else prev[n - 2], n - 1)]
  }

  /** Asking for fewer values of the infinite stream yields a prefix of asking for more:
      a `take(n)` downstream sees the same values whatever it is combined with. */
  lemma {:induction false} IteratesArePrefixes<T>(start: T, fn: (T, nat) -> T, n: nat, m: nat)
    requires n <= m
    ensures Iterates(start, fn, n) == Iterates(start, fn, m)[..n]
    decreases m
  {
    if n < m {
      IteratesArePrefixes(start, fn, n, m - 1);
      assert Iterates(start, fn, m)[..m - 1] == Iterates(start, fn, m - 1);
    }
  }
}
