/** What the terminal operations of a sequence compute from the elements `s` they drain:
    folds, sums, the last match, the "best so far" scan behind the max/min family, and
    the text `joinTo` builds. */
module Folds {
  import opened Stages

  // ------------------------------------------------------------------
  // fold, reduce, sum
  // ------------------------------------------------------------------

  /** `fn` applied left to right, starting from `init`, each call seeing the element's position. */
  function FoldLeft<T, U>(s: seq<T>, init: U, fn: (U, T, nat) -> U): U
  {
    if s == [] then init
    else fn(FoldLeft(s[..|s| - 1], init, fn), s[|s| - 1], |s| - 1)
  }

  /** The fold seeded by the first element: position 0 only seeds the accumulator, so the
      callback's index starts at 1. */
  function Reduced<T>(s: seq<T>, fn: (T, T, nat) -> T): T
    requires |s| > 0
  {
    if |s| == 1 then s[0]
    else fn(Reduced(s[..|s| - 1], fn), s[|s| - 1], |s| - 1)
  }

  /** The callback of a reduction as seen by a fold over the tail: positions shift by one. */
  function Shifted<T>(fn: (T, T, nat) -> T): (T, T, nat) -> T
  {
    (acc: T, x: T, i: nat) => fn(acc, x, i + 1)
  }

  /** A reduction is the fold of the tail seeded with the head, with indices counted
      in the whole sequence. */
  lemma {:induction false} ReducedIsFoldOfTail<T>(s: seq<T>, fn: (T, T, nat) -> T)
    requires |s| > 0
    ensures Reduced(s, fn) == FoldLeft(s[1..], s[0], Shifted(fn))
  {
    if |s| > 1 {
      var init := s[..|s| - 1];
      ReducedIsFoldOfTail(init, fn);
      assert init[1..] == s[1..][..|s| - 2];
      assert s[1..][|s| - 2] == s[|s| - 1];
    }
  }

  /** The sum of integers (the library adds with `+=` from 0). */
  function Sum(s: seq<int>): int
  {
    if s == [] then 0 else Sum(s[..|s| - 1]) + s[|s| - 1]
  }

  /** One more number: the running sum grows by it. */
  lemma SumStep(s: seq<int>, i: nat)
    requires i < |s|
    ensures Sum(s[..i + 1]) == Sum(s[..i]) + s[i]
  {
    var init := s[..i + 1];
    assert init[..|init| - 1] == s[..i];
  }

  /** Summing is additive over concatenation. */
  lemma {:induction false} SumAppend(a: seq<int>, b: seq<int>)
    ensures Sum(a + b) == Sum(a) + Sum(b)
    decreases |b|
  {
    if b != [] {
      var b' := b[..|b| - 1];
      SumAppend(a, b');
      assert (a + b)[..|a + b| - 1] == a + b';
    } else {
      assert a + b == a;
    }
  }

  /** A sum is the fold that adds every element to 0. */
  lemma {:induction false} SumIsFold(s: seq<int>)
    ensures Sum(s) == FoldLeft(s, 0, (acc: int, x: int, i: nat) => acc + x)
  {
    if s != [] {
      SumIsFold(s[..|s| - 1]);
    }
  }

  // ------------------------------------------------------------------
  // findLast, indexOfLast, lastIndexOf, last
  // ------------------------------------------------------------------

  /** The last position whose element satisfies `p`, or -1 when none does. */
  function LastMatch<T>(s: seq<T>, p: (T, nat) -> bool): (r: int)
    ensures -1 <= r < |s|
    ensures 0 <= r ==> p(s[r], r)
    ensures forall j :: r < j < |s| ==> !p(s[j], j)
  {
    if s == [] then -1
    else if p(s[|s| - 1], |s| - 1) then |s| - 1
    else LastMatch(s[..|s| - 1], p)
  }

  /** The last match is -1 exactly when nothing matches, and it is the last of the kept
      positions of the corresponding filter. */
  lemma {:induction false} LastMatchIsLastKept<T>(s: seq<T>, p: (T, nat) -> bool)
    ensures (LastMatch(s, p) == -1 <==> KeptPositions(s, p) == [])
    ensures KeptPositions(s, p) != [] ==>
              LastMatch(s, p) == KeptPositions(s, p)[|KeptPositions(s, p)| - 1]
  {
    if s != [] && !p(s[|s| - 1], |s| - 1) {
      LastMatchIsLastKept(s[..|s| - 1], p);
    }
  }

  // ------------------------------------------------------------------
  // The max/min family: keep the first element, replace it by a later one
  // when that one is better than the current one.
  // ------------------------------------------------------------------

  /** The position a "best so far" scan ends on: position 0 seeds it and position `k`
      replaces the current one `c` exactly when `better(keys[c], keys[k])`. */
  function BestIndex<K>(keys: seq<K>, better: (K, K) -> bool): (r: nat)
    requires |keys| > 0
    ensures r < |keys|
  {
    if |keys| == 1 then 0
    else
      var c := BestIndex(keys[..|keys| - 1], better);
      if better(keys[c], keys[|keys| - 1]) then |keys| - 1 else c
  }

  /** One more key: key `i` replaces the best of the keys before it exactly when it is better. */
  lemma BestIndexStep<K>(keys: seq<K>, i: nat, better: (K, K) -> bool, c: nat)
    requires 0 < i < |keys| && c == BestIndex(keys[..i], better)
    ensures BestIndex(keys[..i + 1], better) == if better(keys[c], keys[i]) then i else c
  {
    var init := keys[..i + 1];
    assert init[..|init| - 1] == keys[..i];
  }

  /** `max`, `maxBy`, `maxOf`: a later value replaces the current one when strictly greater. */
  function Rises(): (int, int) -> bool
  {
    (cur: int, x: int) => x > cur
  }

  /** `min`, `minBy`, `minOf`: a later value replaces the current one when strictly smaller. */
  function Falls(): (int, int) -> bool
  {
    (cur: int, x: int) => x < cur
  }

  /** The `*With` variants: a later value replaces the current one when
      `comp(current, later) === signal` (1 for the max variants, -1 for the min ones). */
  function Signals<K>(comp: (K, K) -> int, signal: int): (K, K) -> bool
  {
    (cur: K, x: K) => comp(cur, x) == signal
  }

  /** `lt` is a strict weak order: irreflexive, transitive, and incomparability is transitive. */
  ghost predicate StrictWeakOrder<K(!new)>(lt: (K, K) -> bool)
  {
    (forall a :: !lt(a, a))
    && (forall a, b, c :: lt(a, b) && lt(b, c) ==> lt(a, c))
    && (forall a, b, c :: !lt(a, b) && !lt(b, c) ==> !lt(a, c))
  }

  /** When "x beats cur" is a strict weak order, the scan ends on an element nothing beats,
      and every element before it is beaten by it: it is the first of the best. */
  lemma {:induction false} BestIndexIsFirstBest<K(!new)>(keys: seq<K>, better: (K, K) -> bool)
    requires |keys| > 0 && StrictWeakOrder(better)
    ensures var r := BestIndex(keys, better);
      (forall k :: 0 <= k < |keys| ==> !better(keys[r], keys[k]))
      && (forall k :: 0 <= k < r ==> better(keys[k], keys[r]))
  {
    if |keys| > 1 {
      var init := keys[..|keys| - 1];
      var c := BestIndex(init, better);
      BestIndexIsFirstBest(init, better);
      var last := keys[|keys| - 1];
      if better(keys[c], last) {
        forall k | 0 <= k < |keys| - 1
          ensures better(keys[k], last)
        {
          assert !better(keys[c], keys[k]) by {
            assert init[k] == keys[k];
          }
        }
      } else {
        forall k | 0 <= k < |keys|
          ensures !better(keys[c], keys[k])
        {
          if k < |keys| - 1 {
            assert init[k] == keys[k];
          }
        }
      }
    }
  }

  lemma RisesIsStrictWeakOrder()
    ensures StrictWeakOrder(Rises())
  {
  }

  lemma FallsIsStrictWeakOrder()
    ensures StrictWeakOrder(Falls())
  {
  }

  /** `max` returns the first of the greatest elements: ties keep the earliest. */
  lemma MaxIsFirstGreatest(s: seq<int>)
    requires |s| > 0
    ensures var r := BestIndex(s, Rises());
      (forall k :: 0 <= k < |s| ==> s[k] <= s[r]) && (forall k :: 0 <= k < r ==> s[k] < s[r])
  {
    RisesIsStrictWeakOrder();
    BestIndexIsFirstBest(s, Rises());
  }

  /** `min` returns the first of the least elements: ties keep the earliest. */
  lemma MinIsFirstLeast(s: seq<int>)
    requires |s| > 0
    ensures var r := BestIndex(s, Falls());
      (forall k :: 0 <= k < |s| ==> s[r] <= s[k]) && (forall k :: 0 <= k < r ==> s[r] < s[k])
  {
    FallsIsStrictWeakOrder();
    BestIndexIsFirstBest(s, Falls());
  }

  /** A comparator that reports 1, 0 or -1 as its first argument is above, level with or
      below its second in the strict weak order `lt`. */
  ghost predicate ComparesBy<K(!new)>(comp: (K, K) -> int, lt: (K, K) -> bool)
  {
    forall a, b :: comp(a, b) == (if lt(b, a) then 1 else if lt(a, b) then -1 else 0)
  }

  /** `maxWith` replaces on `comp(cur, x) === 1`, i.e. when `x` is below `cur`: with a
      standard comparator it returns the first of the LEAST elements. */
  lemma MaxWithPicksLeast<K(!new)>(keys: seq<K>, comp: (K, K) -> int, lt: (K, K) -> bool)
    requires |keys| > 0 && StrictWeakOrder(lt) && ComparesBy(comp, lt)
    ensures var r := BestIndex(keys, Signals(comp, 1));
      (forall k :: 0 <= k < |keys| ==> !lt(keys[k], keys[r]))
      && (forall k :: 0 <= k < r ==> lt(keys[r], keys[k]))
  {
    var better := Signals(comp, 1);
    assert forall a, b :: better(a, b) <==> lt(b, a);
    BestIndexIsFirstBest(keys, better);
  }

  /** `minWith` replaces on `comp(cur, x) === -1`, i.e. when `x` is above `cur`: with a
      standard comparator it returns the first of the GREATEST elements. */
  lemma MinWithPicksGreatest<K(!new)>(keys: seq<K>, comp: (K, K) -> int, lt: (K, K) -> bool)
    requires |keys| > 0 && StrictWeakOrder(lt) && ComparesBy(comp, lt)
    ensures var r := BestIndex(keys, Signals(comp, -1));
      (forall k :: 0 <= k < |keys| ==> !lt(keys[r], keys[k]))
      && (forall k :: 0 <= k < r ==> lt(keys[k], keys[r]))
  {
    var better := Signals(comp, -1);
    assert forall a, b :: better(a, b) <==> lt(a, b);
    BestIndexIsFirstBest(keys, better);
  }

  // ------------------------------------------------------------------
  // joinTo, joinToString
  // ------------------------------------------------------------------

  /** Every part followed by the separator. */
  function Joined(parts: seq<string>, sep: string): string
  {
    if parts == [] then [] else Joined(parts[..|parts| - 1], sep) + parts[|parts| - 1] + sep
  }

  /** One more element adds its transformed text and a separator. */
  lemma JoinedStep<T>(s: seq<T>, i: nat, transform: (T, nat) -> string, sep: string)
    requires i < |s|
    ensures Joined(Mapped(s[..i + 1], transform), sep)
            == Joined(Mapped(s[..i], transform), sep) + transform(s[i], i) + sep
  {
    var ps := Mapped(s[..i + 1], transform);
    assert ps[..|ps| - 1] == Mapped(s[..i], transform);
    assert ps[|ps| - 1] == transform(s[i], i);
  }

  /** The parts with the separator between consecutive ones only. */
  function Interspersed(parts: seq<string>, sep: string): string
  {
    if parts == [] then []
    else if |parts| == 1 then parts[0]
    else Interspersed(parts[..|parts| - 1], sep) + sep + parts[|parts| - 1]
  }

  /** `text` without one trailing `suffix`, when it ends with it. */
  function StripSuffix(text: string, suffix: string): (r: string)
    ensures r == text || (|suffix| <= |text| && r + suffix == text)
  {
    if |suffix| <= |text| && text[|text| - |suffix|..] == suffix then text[..|text| - |suffix|]
    else text
  }

  /** The text `joinTo` returns: the buffer, the prefix, and every transformed element
      followed by the separator; when element number `limit` (limit >= 0) is reached, the
      `truncated` marker instead of it and everything after; then one trailing separator is
      removed if the whole text ends with it, and the postfix is appended. */
  function JoinText<T>(buffer: string, s: seq<T>, sep: string, prefix: string, postfix: string,
                       limit: int, truncated: string, transform: (T, nat) -> string): string
  {
    var body :=
      if 0 <= limit < |s| then Joined(Mapped(s[..limit], transform), sep) + truncated
      else Joined(Mapped(s, transform), sep);
    StripSuffix(buffer + prefix + body, sep) + postfix
  }

  /** `joinTo` over the whole producer, before the trailing separator is cut. */
  lemma JoinTextComplete<T>(buffer: string, s: seq<T>, sep: string, prefix: string, postfix: string,
                            limit: int, truncated: string, transform: (T, nat) -> string, text: string)
    requires limit < 0 || |s| <= limit
    requires text == buffer + prefix + Joined(Mapped(s[..|s|], transform), sep)
    ensures JoinText(buffer, s, sep, prefix, postfix, limit, truncated, transform)
            == StripSuffix(text, sep) + postfix
  {
    assert s[..|s|] == s;
  }

  /** `joinTo` stopped at element number `limit`, before the trailing separator is cut. */
  lemma JoinTextCut<T>(buffer: string, s: seq<T>, sep: string, prefix: string, postfix: string,
                       limit: int, truncated: string, transform: (T, nat) -> string, text: string)
    requires 0 <= limit < |s|
    requires text == buffer + prefix + Joined(Mapped(s[..limit], transform), sep) + truncated
    ensures JoinText(buffer, s, sep, prefix, postfix, limit, truncated, transform)
            == StripSuffix(text, sep) + postfix
  {
    var joined := Joined(Mapped(s[..limit], transform), sep);
    assert buffer + prefix + (joined + truncated) == text;
  }

  lemma {:induction false} JoinedIsInterspersed(parts: seq<string>, sep: string)
    requires parts != []
    ensures Joined(parts, sep) == Interspersed(parts, sep) + sep
  {
    if |parts| > 1 {
      JoinedIsInterspersed(parts[..|parts| - 1], sep);
    }
  }

  /** Without a limit (or with one past the end), a non-empty sequence joins to the buffer,
      the prefix, the transformed elements with the separator between them, and the postfix. */
  lemma JoinTextUnlimited<T>(buffer: string, s: seq<T>, sep: string, prefix: string, postfix: string,
                             limit: int, truncated: string, transform: (T, nat) -> string)
    requires s != [] && (limit < 0 || |s| <= limit)
    ensures JoinText(buffer, s, sep, prefix, postfix, limit, truncated, transform)
            == buffer + prefix + Interspersed(Mapped(s, transform), sep) + postfix
  {
    var parts := Mapped(s, transform);
    JoinedIsInterspersed(parts, sep);
    var text := buffer + prefix + Joined(parts, sep);
    assert text == (buffer + prefix + Interspersed(parts, sep)) + sep;
    assert text[|text| - |sep|..] == sep;
  }

  /** With the limit reached, the separator before the `truncated` marker survives unless the
      marker itself ends with the separator: only the first `limit` elements are joined. */
  lemma JoinTextTruncated<T>(buffer: string, s: seq<T>, sep: string, prefix: string, postfix: string,
                             limit: int, truncated: string, transform: (T, nat) -> string)
    requires 0 <= limit < |s|
    requires |sep| <= |truncated| && truncated[|truncated| - |sep|..] != sep
    ensures JoinText(buffer, s, sep, prefix, postfix, limit, truncated, transform)
            == buffer + prefix + Joined(Mapped(s[..limit], transform), sep) + truncated + postfix
  {
    var joined := Joined(Mapped(s[..limit], transform), sep);
    JoinTextCut(buffer, s, sep, prefix, postfix, limit, truncated, transform, buffer + prefix + joined + truncated);
    StripSuffixMissing(buffer + prefix + joined, truncated, sep);
  }

  /** A text whose tail does not end with `suffix` is left as it is. */
  lemma StripSuffixMissing(head: string, tail: string, suffix: string)
    requires |suffix| <= |tail| && tail[|tail| - |suffix|..] != suffix
    ensures StripSuffix(head + tail, suffix) == head + tail
  {
    var text := head + tail;
    assert text[|text| - |suffix|..] == tail[|tail| - |suffix|..];
  }
}
