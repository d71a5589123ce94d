/** The `Sequence` wrapper: an object holding one generator, whose chaining operations
    replace that generator by a transformer stage over it and return the wrapper itself,
    whose `map`-like operations wrap a transformer stage in a NEW wrapper, and whose
    terminal operations drain the generator with `for..of` (leaving it early closes it).

    The generator is modelled by the sequence `remaining` of values it would still
    yield: a pull takes its head, closing it empties it. */
module Sequences {
  import opened Outcomes
  import opened Stages
  import opened Buffers
  import opened Folds
  import opened JsCollections
  import Generators

  /** What the wrapper is built from: an array (`Array.isArray`), or a generator given by
      the values it would yield. */
  datatype Iterable<T> = ArrayOf(items: seq<T>) | GeneratorOf(values: seq<T>)

  /** The callback of `elementAt(i)` and its variants: the running position is `i`. */
  function At<T>(i: int): (T, nat) -> bool
  {
    (x: T, j: nat) => j == i
  }

  /** The callback of `minus(elements)`: `!elements.includes(x)`. */
  function NotIn<T(==)>(elements: seq<T>): (T, nat) -> bool
  {
    (x: T, i: nat) => x !in elements
  }

  /** The identity callback: the key of `max`, `min`, `maxWith` and `minWith` is the element. */
  function Self<T>(): (T, nat) -> T
  {
    (x: T, i: nat) => x
  }

  /** The pair callback of `associateBy` and `groupBy`: key `fn`, value `fn2`. */
  function Paired<T, K, V>(fn: (T, nat) -> K, fn2: (T, nat) -> V): (T, nat) -> (K, V)
  {
    (x: T, i: nat) => (fn(x, i), fn2(x, i))
  }

  /** The pair callback of `associateWith`: the element is the key. */
  function KeyedBySelf<T, V>(fn: (T, nat) -> V): (T, nat) -> (T, V)
  {
    (x: T, i: nat) => (x, fn(x, i))
  }

  /** Keying elements by themselves changes nothing. */
  lemma MappedSelf<T>(s: seq<T>)
    ensures Mapped(s, Self()) == s
  {
  }

  /** Filtering a prefix gives a prefix of filtering the whole. */
  lemma {:induction false} FilteredOfPrefix<T>(s: seq<T>, p: (T, nat) -> bool, i: nat)
    requires i <= |s|
    ensures Filtered(s[..i], p) <= Filtered(s, p)
    decreases |s|
  {
    if i < |s| {
      var init := s[..|s| - 1];
      FilteredOfPrefix(init, p, i);
      assert init[..i] == s[..i];
    } else {
      assert s[..i] == s;
    }
  }

  class Sequence<T(==)> {
    /** What the wrapped generator would still yield. */
    var remaining: seq<T>

    /** `Sequence(it)`: an array is wrapped in a generator over its elements, a generator is
        used as it is. */
    constructor (it: Iterable<T>)
      ensures it.ArrayOf? ==> remaining == it.items
      ensures it.GeneratorOf? ==> remaining == it.values
    {
      match it
      case ArrayOf(xs) =>
        var gn := Generators.ArrToSequence(xs);
        remaining := gn;
      case GeneratorOf(gn) =>
        remaining := gn;
    }

    // ------------------------------------------------------------------
    // The generator protocol
    // ------------------------------------------------------------------

    /** `next()`: the head of what is left, or `None` (`done`) when nothing is. */
    method Next() returns (r: Option<T>)
      modifies this
      ensures old(remaining) == [] ==> r == Option.None && remaining == []
      ensures old(remaining) != [] ==> r == Some(old(remaining)[0]) && remaining == old(remaining)[1..]
    {
      if remaining == [] {
        r := Option.None;
      } else {
        r := Some(remaining[0]);
        remaining := remaining[1..];
      }
    }

    /** What leaving a `for..of` early does to the generator (`return()`): it is finished. */
    method Close()
      modifies this
      ensures remaining == []
    {
      remaining := [];
    }

    // ------------------------------------------------------------------
    // The scans the terminal operations share
    // ------------------------------------------------------------------

    /** The loop of `all`, `any`, `none`, `contains`, `elementAt`, `find`, `indexOf` and
        `indexOfFirst`: pull until the callback accepts an element, then leave the loop. */
    method ScanFirst(fn: (T, nat) -> bool) returns (k: nat, found: Option<T>)
      modifies this
      ensures k == FirstMatch(old(remaining), fn)
      ensures found == if k < |old(remaining)| then Some(old(remaining)[k]) else Option.None
      ensures remaining == []
    {
      ghost var s := remaining;
      k := 0;
      while true
        invariant k <= |s| && remaining == s[k..]
        invariant forall j :: 0 <= j < k ==> !fn(s[j], j)
        decreases |remaining|
      {
        var next := Next();
        if next.None? {
          found := Option.None;
          return;
        }
        if fn(next.value, k) {
          found := next;
          Close();
          return;
        }
        k := k + 1;
      }
    }

    /** The loop of `findLast`, `indexOfLast`, `lastIndexOf`, `last` and `lastOrNull`: drain
        the generator, remembering the last accepted element and its position. */
    method ScanLast(fn: (T, nat) -> bool) returns (m: int, found: Option<T>)
      modifies this
      ensures m == LastMatch(old(remaining), fn)
      ensures found == if m >= 0 then Some(old(remaining)[m]) else Option.None
      ensures remaining == []
    {
      ghost var s := remaining;
      m, found := -1, Option.None;
      var i: nat := 0;
      while true
        invariant i <= |s| && remaining == s[i..]
        invariant m == LastMatch(s[..i], fn)
        invariant found == if m >= 0 then Some(s[m]) else Option.None
        decreases |remaining|
      {
        var next := Next();
        if next.None? {
          assert s[..i] == s;
          return;
        }
        assert s[..i + 1][..i] == s[..i];
        if fn(next.value, i) {
          m, found := i, next;
        }
        i := i + 1;
      }
    }

    /** The loop of the max/min family: the first element seeds the best pair of element and
        key, and a later element replaces it when `better(best key, its key)`. */
    method ScanBest<K>(key: (T, nat) -> K, better: (K, K) -> bool) returns (best: Option<(T, K)>)
      modifies this
      ensures old(remaining) == [] ==> best == Option.None
      ensures old(remaining) != [] ==>
                var b := BestIndex(Mapped(old(remaining), key), better);
                best == Some((old(remaining)[b], key(old(remaining)[b], b)))
      ensures remaining == []
    {
      ghost var s := remaining;
      ghost var keys := Mapped(s, key);
      best := Option.None;
      var i: nat := 0;
      while true
        invariant i <= |s| && remaining == s[i..]
        invariant i == 0 ==> best == Option.None
        invariant i > 0 ==> best == Some((s[BestIndex(keys[..i], better)], keys[BestIndex(keys[..i], better)]))
        decreases |remaining|
      {
        var next := Next();
        if next.None? {
          assert keys[..i] == keys;
          return;
        }
        var x := next.value;
        assert x == s[i] && keys[i] == key(x, i);
        if i == 0 {
          best := Some((x, key(x, i)));
        } else {
          BestIndexStep(keys, i, better, BestIndex(keys[..i], better));
          var transform := key(x, i);
          if better(best.value.1, transform) {
            best := Some((x, transform));
          }
        }
        i := i + 1;
      }
    }

    /** The loop of `reduce` and `reduceOrNull`: the first element seeds the accumulator,
        every later one is folded in with its position. */
    method ScanReduce(fn: (T, T, nat) -> T) returns (acc: Option<T>)
      modifies this
      ensures old(remaining) == [] ==> acc == Option.None
      ensures old(remaining) != [] ==> acc == Some(Reduced(old(remaining), fn))
      ensures remaining == []
    {
      ghost var s := remaining;
      acc := Option.None;
      var i: nat := 0;
      while true
        invariant i <= |s| && remaining == s[i..]
        invariant i == 0 ==> acc == Option.None
        invariant i > 0 ==> acc == Some(Reduced(s[..i], fn))
        decreases |remaining|
      {
        var next := Next();
        if next.None? {
          assert s[..i] == s;
          return;
        }
        assert s[..i + 1][..i] == s[..i];
        if i == 0 {
          acc := next;
        } else {
          acc := Some(fn(acc.value, next.value, i));
        }
        i := i + 1;
      }
    }

    /** The loop of `single` and `singleOrNull`: remember the accepted element, and leave the
        loop at a second one. */
    method ScanSingle(fn: (T, nat) -> bool) returns (several: bool, elem: Option<T>)
      modifies this
      ensures several <==> |Filtered(old(remaining), fn)| >= 2
      ensures !several ==>
                elem == if Filtered(old(remaining), fn) == [] then Option.None
                        else Some(Filtered(old(remaining), fn)[0])
      ensures remaining == []
    {
      ghost var s := remaining;
      elem := Option.None;
      several := false;
      var i: nat := 0;
      while true
        invariant i <= |s| && remaining == s[i..]
        invariant |Filtered(s[..i], fn)| <= 1
        invariant elem == if Filtered(s[..i], fn) == [] then Option.None else Some(Filtered(s[..i], fn)[0])
        decreases |remaining|
      {
        var next := Next();
        if next.None? {
          assert s[..i] == s;
          return;
        }
        FilteredStep(s, fn, i);
        if fn(next.value, i) {
          if elem.Some? {
            FilteredOfPrefix(s, fn, i + 1);
            several := true;
            Close();
            return;
          }
          elem := next;
        }
        i := i + 1;
      }
    }

    // ------------------------------------------------------------------
    // Searches: all, any, none, contains, elementAt, find, first, indexOf, last
    // ------------------------------------------------------------------

    /** `all(fn)`: every element is accepted. */
    method All(fn: (T, nat) -> bool) returns (r: bool)
      modifies this
      ensures r <==> forall k :: 0 <= k < |old(remaining)| ==> fn(old(remaining)[k], k)
      ensures remaining == []
    {
      ghost var s := remaining;
      var k, found := ScanFirst(Not(fn));
      r := found.None?;
      if !r {
        assert Not(fn)(s[k], k);
      }
    }

    /** `any(fn)`: some element is accepted. */
    method Any(fn: (T, nat) -> bool) returns (r: bool)
      modifies this
      ensures r <==> exists k :: 0 <= k < |old(remaining)| && fn(old(remaining)[k], k)
      ensures remaining == []
    {
      var k, found := ScanFirst(fn);
      r := found.Some?;
    }

    /** `none(fn)`: no element is accepted. */
    method NoneMatch(fn: (T, nat) -> bool) returns (r: bool)
      modifies this
      ensures r <==> forall k :: 0 <= k < |old(remaining)| ==> !fn(old(remaining)[k], k)
      ensures remaining == []
    {
      ghost var s := remaining;
      var k, found := ScanFirst(fn);
      r := found.None?;
      if !r {
        assert fn(s[k], k);
      }
    }

    /** `contains(x)`: some element is `x`. */
    method Contains(x: T) returns (r: bool)
      modifies this
      ensures r <==> x in old(remaining)
      ensures remaining == []
    {
      ghost var s := remaining;
      var k, found := ScanFirst(Is(x));
      r := found.Some?;
      if !r {
        forall j | 0 <= j < |s| ensures s[j] != x {
          assert !Is(x)(s[j], j);
        }
      }
    }

    /** `count(fn)`: how many elements are accepted (every one with the default callback). */
    method Count(fn: (T, nat) -> bool) returns (count: nat)
      modifies this
      ensures count == |Filtered(old(remaining), fn)|
      ensures remaining == []
    {
      ghost var s := remaining;
      count := 0;
      var i: nat := 0;
      while true
        invariant i <= |s| && remaining == s[i..]
        invariant count == |Filtered(s[..i], fn)|
        decreases |remaining|
      {
        var next := Next();
        if next.None? {
          assert s[..i] == s;
          return;
        }
        assert s[..i + 1][..i] == s[..i];
        if fn(next.value, i) {
          count := count + 1;
        }
        i := i + 1;
      }
    }

    /** `elementAt(i)`: the element at position `i`, an `ElementNotFound` error when there is
        none (a negative `i` included). */
    method ElementAt(i: int) returns (r: Result<T>)
      modifies this
      ensures 0 <= i < |old(remaining)| ==> r == Success(old(remaining)[i])
      ensures !(0 <= i < |old(remaining)|) ==> r == Failure(ElementNotFound)
      ensures remaining == []
    {
      var found := ElementAtOrNull(i);
      r := if found.Some? then Success(found.value) else Failure(ElementNotFound);
    }

    /** `elementAtOrElse(i, defaultValue)`. */
    method ElementAtOrElse(i: int, defaultValue: T) returns (r: T)
      modifies this
      ensures r == if 0 <= i < |old(remaining)| then old(remaining)[i] else defaultValue
      ensures remaining == []
    {
      var found := ElementAtOrNull(i);
      r := if found.Some? then found.value else defaultValue;
    }

    /** `elementAtOrNull(i)`. */
    method ElementAtOrNull(i: int) returns (r: Option<T>)
      modifies this
      ensures r == if 0 <= i < |old(remaining)| then Some(old(remaining)[i]) else Option.None
      ensures remaining == []
    {
      ghost var s := remaining;
      var k;
      k, r := ScanFirst(At(i));
      if 0 <= i < |s| {
        assert At(i)(s[i], i);
      }
    }

    /** `find(fn)`: the first accepted element, or null. */
    method Find(fn: (T, nat) -> bool) returns (r: Option<T>)
      modifies this
      ensures r.Some? <==> exists k :: 0 <= k < |old(remaining)| && fn(old(remaining)[k], k)
      ensures r.Some? ==> var k := FirstMatch(old(remaining), fn); r.value == old(remaining)[k]
      ensures remaining == []
    {
      ghost var s := remaining;
      var k;
      k, r := ScanFirst(fn);
    }

    /** `first(fn)`: the generator is replaced by `dropWhile(generator, !fn)` and pulled once;
        the first accepted element, whose successors stay in the generator, or an
        `EmptySequence` error when nothing is accepted. */
    method First(fn: (T, nat) -> bool) returns (r: Result<T>)
      modifies this
      ensures var k := FirstMatch(old(remaining), fn);
        if k < |old(remaining)| then r == Success(old(remaining)[k]) && remaining == old(remaining)[k + 1..]
        else r == Failure(EmptySequence) && remaining == []
    {
      var next := FirstOrNull(fn);
      r := if next.Some? then Success(next.value) else Failure(EmptySequence);
    }

    /** `firstOrNull(fn)`: as `first`, null instead of the error. */
    method FirstOrNull(fn: (T, nat) -> bool) returns (r: Option<T>)
      modifies this
      ensures var k := FirstMatch(old(remaining), fn);
        if k < |old(remaining)| then r == Some(old(remaining)[k]) && remaining == old(remaining)[k + 1..]
        else r == Option.None && remaining == []
    {
      ghost var s := remaining;
      var rest, calls := Generators.DropWhile(remaining, Not(fn));
      FirstMatchCongruent(s, Not(Not(fn)), fn);
      remaining := rest;
      r := Next();
    }

    /** `indexOf(elem)`: the first position holding `elem`, or -1. */
    method IndexOf(elem: T) returns (r: int)
      modifies this
      ensures -1 <= r < |old(remaining)|
      ensures r == -1 <==> elem !in old(remaining)
      ensures r >= 0 ==> old(remaining)[r] == elem && elem !in old(remaining)[..r]
      ensures remaining == []
    {
      ghost var s := remaining;
      var k, found := ScanFirst(Is(elem));
      r := if found.Some? then k else -1;
      forall j | 0 <= j < k ensures s[j] != elem {
        assert !Is(elem)(s[j], j);
      }
      if found.Some? {
        assert Is(elem)(s[k], k);
      }
    }

    /** `indexOfFirst(fn)`: the first accepted position, or -1. */
    method IndexOfFirst(fn: (T, nat) -> bool) returns (r: int)
      modifies this
      ensures -1 <= r < |old(remaining)|
      ensures r == -1 <==> forall k :: 0 <= k < |old(remaining)| ==> !fn(old(remaining)[k], k)
      ensures r >= 0 ==> fn(old(remaining)[r], r) && forall k :: 0 <= k < r ==> !fn(old(remaining)[k], k)
      ensures remaining == []
    {
      var k, found := ScanFirst(fn);
      r := if found.Some? then k else -1;
    }

    /** `indexOfLast(fn)`: the last accepted position, or -1. */
    method IndexOfLast(fn: (T, nat) -> bool) returns (r: int)
      modifies this
      ensures -1 <= r < |old(remaining)|
      ensures r >= 0 ==> fn(old(remaining)[r], r)
      ensures forall k :: r < k < |old(remaining)| ==> !fn(old(remaining)[k], k)
      ensures remaining == []
    {
      var found;
      r, found := ScanLast(fn);
    }

    /** `lastIndexOf(elem)`: the last position holding `elem`, or -1. */
    method LastIndexOf(elem: T) returns (r: int)
      modifies this
      ensures -1 <= r < |old(remaining)|
      ensures r >= 0 ==> old(remaining)[r] == elem
      ensures elem !in old(remaining)[r + 1..]
      ensures r == -1 <==> elem !in old(remaining)
      ensures remaining == []
    {
      ghost var s := remaining;
      var found;
      r, found := ScanLast(Is(elem));
      forall j | r < j < |s| ensures s[j] != elem {
        assert !Is(elem)(s[j], j);
      }
      if r >= 0 {
        assert Is(elem)(s[r], r);
      }
    }

    /** `findLast(fn)`: the last accepted element, or null. */
    method FindLast(fn: (T, nat) -> bool) returns (r: Option<T>)
      modifies this
      ensures r.Some? <==> exists k :: 0 <= k < |old(remaining)| && fn(old(remaining)[k], k)
      ensures r.Some? ==> r.value == old(remaining)[LastMatch(old(remaining), fn)]
      ensures remaining == []
    {
      var m;
      m, r := ScanLast(fn);
    }

    /** `last(fn)`: the last accepted element, or an `ElementNotFound` error. */
    method Last(fn: (T, nat) -> bool) returns (r: Result<T>)
      modifies this
      ensures var m := LastMatch(old(remaining), fn);
        r == if m >= 0 then Success(old(remaining)[m]) else Failure(ElementNotFound)
      ensures remaining == []
    {
      var m, found := ScanLast(fn);
      r := if found.Some? then Success(found.value) else Failure(ElementNotFound);
    }

    /** `lastOrNull(fn)`: the last accepted element, or null. */
    method LastOrNull(fn: (T, nat) -> bool) returns (r: Option<T>)
      modifies this
      ensures var m := LastMatch(old(remaining), fn);
        r == if m >= 0 then Some(old(remaining)[m]) else Option.None
      ensures remaining == []
    {
      var m;
      m, r := ScanLast(fn);
    }

    /** `single(fn)`: the only accepted element; `NotASingleSequence` at a second one,
        `EmptySequence` when there is none. */
    method Single(fn: (T, nat) -> bool) returns (r: Result<T>)
      modifies this
      ensures var f := Filtered(old(remaining), fn);
        r == if |f| >= 2 then Failure(NotASingleSequence)
             else if f == [] then Failure(EmptySequence)
             else Success(f[0])
      ensures remaining == []
    {
      var several, elem := ScanSingle(fn);
      r := if several then Failure(NotASingleSequence)
           else if elem.None? then Failure(EmptySequence)
           else Success(elem.value);
    }

    /** `singleOrNull(fn)`: the only accepted element, or null when there are none or several. */
    method SingleOrNull(fn: (T, nat) -> bool) returns (r: Option<T>)
      modifies this
      ensures var f := Filtered(old(remaining), fn);
        r == if |f| == 1 then Some(f[0]) else Option.None
      ensures remaining == []
    {
      var several, elem := ScanSingle(fn);
      r := if several then Option.None else elem;
    }

    // ------------------------------------------------------------------
    // Aggregates: fold, forEach, joinTo, partition, reduce, sumOf, toArray
    // ------------------------------------------------------------------

    /** `fold(initial, fn)`: the elements folded into `initial` left to right. */
    method Fold<U>(initial: U, fn: (U, T, nat) -> U) returns (acc: U)
      modifies this
      ensures acc == FoldLeft(old(remaining), initial, fn)
      ensures remaining == []
    {
      ghost var s := remaining;
      acc := initial;
      var i: nat := 0;
      while true
        invariant i <= |s| && remaining == s[i..]
        invariant acc == FoldLeft(s[..i], initial, fn)
        decreases |remaining|
      {
        var next := Next();
        if next.None? {
          assert s[..i] == s;
          return;
        }
        assert s[..i + 1][..i] == s[..i];
        acc := fn(acc, next.value, i);
        i := i + 1;
      }
    }

    /** `forEach(fn)`: the callback is called once per element, with its position; the calls
        are returned, in order. */
    method ForEach() returns (calls: seq<Indexed<T>>)
      modifies this
      ensures calls == Indexing(old(remaining))
      ensures remaining == []
    {
      ghost var s := remaining;
      calls := [];
      var i: nat := 0;
      while true
        invariant i <= |s| && remaining == s[i..]
        invariant calls == Indexing(s[..i])
        decreases |remaining|
      {
        var next := Next();
        if next.None? {
          assert s[..i] == s;
          return;
        }
        calls := calls + [Indexed(next.value, i)];
        i := i + 1;
      }
    }

    /** `reduce(fn)`: the elements folded into the first one, or an `EmptySequence` error. */
    method Reduce(fn: (T, T, nat) -> T) returns (r: Result<T>)
      modifies this
      ensures old(remaining) == [] ==> r == Failure(EmptySequence)
      ensures old(remaining) != [] ==> r == Success(Reduced(old(remaining), fn))
      ensures remaining == []
    {
      var acc := ScanReduce(fn);
      r := if acc.Some? then Success(acc.value) else Failure(EmptySequence);
    }

    /** `reduceOrNull(fn)`: as `reduce`, null for an empty sequence. */
    method ReduceOrNull(fn: (T, T, nat) -> T) returns (r: Option<T>)
      modifies this
      ensures old(remaining) == [] ==> r == Option.None
      ensures old(remaining) != [] ==> r == Some(Reduced(old(remaining), fn))
      ensures remaining == []
    {
      r := ScanReduce(fn);
    }

    /** `sumOf(fn)`: the sum of the callback's numbers. */
    method SumOf(fn: (T, nat) -> int) returns (sum: int)
      modifies this
      ensures sum == Folds.Sum(Mapped(old(remaining), fn))
      ensures remaining == []
    {
      ghost var s := remaining;
      ghost var terms := Mapped(s, fn);
      sum := 0;
      var i: nat := 0;
      while true
        invariant i <= |s| && remaining == s[i..]
        invariant sum == Folds.Sum(terms[..i])
        decreases |remaining|
      {
        var next := Next();
        if next.None? {
          assert terms[..i] == terms;
          return;
        }
        assert terms[..i + 1][..i] == terms[..i];
        sum := sum + fn(next.value, i);
        i := i + 1;
      }
    }

    /** `partition(fn)`: the accepted elements and the rejected ones, each in order. */
    method Partition(fn: (T, nat) -> bool) returns (ts: seq<T>, fs: seq<T>)
      modifies this
      ensures ts == Filtered(old(remaining), fn)
      ensures fs == Filtered(old(remaining), Not(fn))
      ensures remaining == []
    {
      ghost var s := remaining;
      ts, fs := [], [];
      var i: nat := 0;
      while true
        invariant i <= |s| && remaining == s[i..]
        invariant ts == Filtered(s[..i], fn) && fs == Filtered(s[..i], Not(fn))
        decreases |remaining|
      {
        var next := Next();
        if next.None? {
          assert s[..i] == s;
          return;
        }
        assert s[..i + 1][..i] == s[..i];
        if fn(next.value, i) {
          ts := ts + [next.value];
        } else {
          fs := fs + [next.value];
        }
        i := i + 1;
      }
    }

    /** `toArray()`: everything left, in order. */
    method ToArray() returns (xs: seq<T>)
      modifies this
      ensures xs == old(remaining)
      ensures remaining == []
    {
      ghost var s := remaining;
      xs := [];
      while true
        invariant s == xs + remaining
        decreases |remaining|
      {
        var next := Next();
        if next.None? {
          return;
        }
        xs := xs + [next.value];
      }
    }

    /** `joinTo(buffer, separator, prefix, postfix, limit, truncated, transform)`: the buffer,
        the prefix, each transformed element followed by the separator until element number
        `limit` is reached (then the `truncated` marker and the loop is left), one trailing
        separator removed, and the postfix. */
    method JoinTo(buffer: string, separator: string, prefix: string, postfix: string, limit: int,
                  truncated: string, transform: (T, nat) -> string) returns (r: string)
      modifies this
      ensures r == JoinText(buffer, old(remaining), separator, prefix, postfix, limit, truncated, transform)
      ensures remaining == []
    {
      ghost var s := remaining;
      var text := buffer + prefix;
      var i: nat := 0;
      while true
        invariant i <= |s| && remaining == s[i..]
        invariant limit < 0 || i <= limit
        invariant text == buffer + prefix + Joined(Mapped(s[..i], transform), separator)
        decreases |remaining|
      {
        var next := Next();
        if next.None? {
          JoinTextComplete(buffer, s, separator, prefix, postfix, limit, truncated, transform, text);
          break;
        }
        assert i < |s| && next.value == s[i];
        if i == limit {
          text := text + truncated;
          JoinTextCut(buffer, s, separator, prefix, postfix, limit, truncated, transform, text);
          Close();
          break;
        }
        ghost var head := buffer + prefix;
        ghost var joined := Joined(Mapped(s[..i], transform), separator);
        JoinedStep(s, i, transform, separator);
        text := text + transform(next.value, i) + separator;
        assert text == head + (joined + transform(s[i], i) + separator);
        i := i + 1;
      }
      text := TrimSeparator(text, separator);
      r := text + postfix;
    }

    /** `joinToString(...)`: `joinTo` into an empty buffer. */
    method JoinToString(separator: string, prefix: string, postfix: string, limit: int,
                        truncated: string, transform: (T, nat) -> string) returns (r: string)
      modifies this
      ensures r == JoinText("", old(remaining), separator, prefix, postfix, limit, truncated, transform)
      ensures remaining == []
    {
      r := JoinTo("", separator, prefix, postfix, limit, truncated, transform);
    }

    // ------------------------------------------------------------------
    // Collecting into arrays, maps and sets
    // ------------------------------------------------------------------

    /** `associateTo(map, fn)`: `map.set(k, v)` for the pair of every element, in order. */
    method AssociateTo<K(==), V>(target: JsMap<K, V>, fn: (T, nat) -> (K, V)) returns (r: JsMap<K, V>)
      requires target.Valid()
      modifies this, target
      ensures r == target && target.Valid()
      ensures target.entries == Associated(old(target.entries), Mapped(old(remaining), fn))
      ensures remaining == []
    {
      ghost var s := remaining;
      ghost var pairs := Mapped(s, fn);
      ghost var start := target.entries;
      var i: nat := 0;
      while true
        invariant i <= |s| && remaining == s[i..]
        invariant target.Valid() && target.entries == Associated(start, pairs[..i])
        decreases |remaining|
      {
        var next := Next();
        if next.None? {
          assert pairs[..i] == pairs;
          return target;
        }
        assert next.value == s[i];
        var (k, v) := fn(next.value, i);
        AssociatedStep(start, pairs, i, target.entries);
        target.Set(k, v);
        i := i + 1;
      }
    }

    /** `associate(fn)`: a new map set from the pair of every element. */
    method Associate<K(==), V>(fn: (T, nat) -> (K, V)) returns (target: JsMap<K, V>)
      modifies this
      ensures fresh(target) && target.Valid()
      ensures target.entries == Associated([], Mapped(old(remaining), fn))
      ensures remaining == []
    {
      target := new JsMap();
      target := AssociateTo(target, fn);
    }

    /** `associateByTo(map, fn, fn2)`: keys from `fn`, values from `fn2`. */
    method AssociateByTo<K(==), V>(target: JsMap<K, V>, fn: (T, nat) -> K, fn2: (T, nat) -> V)
      returns (r: JsMap<K, V>)
      requires target.Valid()
      modifies this, target
      ensures r == target && target.Valid()
      ensures target.entries == Associated(old(target.entries), Mapped(old(remaining), Paired(fn, fn2)))
      ensures remaining == []
    {
      r := AssociateTo(target, Paired(fn, fn2));
    }

    /** `associateBy(fn, fn2)`: a new map, keys from `fn`, values from `fn2`. */
    method AssociateBy<K(==), V>(fn: (T, nat) -> K, fn2: (T, nat) -> V) returns (target: JsMap<K, V>)
      modifies this
      ensures fresh(target) && target.Valid()
      ensures target.entries == Associated([], Mapped(old(remaining), Paired(fn, fn2)))
      ensures remaining == []
    {
      target := new JsMap();
      target := AssociateTo(target, Paired(fn, fn2));
    }

    /** `associateWithTo(map, fn)`: every element is a key, its value from `fn`. */
    method AssociateWithTo<V>(target: JsMap<T, V>, fn: (T, nat) -> V) returns (r: JsMap<T, V>)
      requires target.Valid()
      modifies this, target
      ensures r == target && target.Valid()
      ensures target.entries == Associated(old(target.entries), Mapped(old(remaining), KeyedBySelf(fn)))
      ensures remaining == []
    {
      r := AssociateTo(target, KeyedBySelf(fn));
    }

    /** `associateWith(fn)`: a new map, every element a key, its value from `fn`. */
    method AssociateWith<V>(fn: (T, nat) -> V) returns (target: JsMap<T, V>)
      modifies this
      ensures fresh(target) && target.Valid()
      ensures target.entries == Associated([], Mapped(old(remaining), KeyedBySelf(fn)))
      ensures remaining == []
    {
      target := new JsMap();
      target := AssociateTo(target, KeyedBySelf(fn));
    }

    /** `groupByTo(xs, fn, fn2)`: every element's `fn2` value is appended to the list of its
        `fn` key (a new key gets a one-value list). */
    method GroupByTo<K(==), V>(xs: JsMap<K, seq<V>>, fn: (T, nat) -> K, fn2: (T, nat) -> V)
      returns (r: JsMap<K, seq<V>>)
      requires xs.Valid()
      modifies this, xs
      ensures r == xs && xs.Valid()
      ensures xs.entries == Grouped(old(xs.entries), Mapped(old(remaining), Paired(fn, fn2)))
      ensures remaining == []
    {
      ghost var s := remaining;
      ghost var pairs := Mapped(s, Paired(fn, fn2));
      ghost var start := xs.entries;
      var i: nat := 0;
      while true
        invariant i <= |s| && remaining == s[i..]
        invariant xs.Valid() && xs.entries == Grouped(start, pairs[..i])
        decreases |remaining|
      {
        var next := Next();
        if next.None? {
          assert pairs[..i] == pairs;
          return xs;
        }
        var key := fn(next.value, i);
        GroupedStep(start, pairs, i, xs.entries, key, fn2(next.value, i));
        if xs.Has(key) {
          var y := xs.Get(key).value;
          xs.Set(key, y + [fn2(next.value, i)]);
        } else {
          xs.Set(key, [fn2(next.value, i)]);
        }
        i := i + 1;
      }
    }

    /** `groupBy(fn, fn2)`: `groupByTo` into a new map. */
    method GroupBy<K(==), V>(fn: (T, nat) -> K, fn2: (T, nat) -> V) returns (xs: JsMap<K, seq<V>>)
      modifies this
      ensures fresh(xs) && xs.Valid()
      ensures xs.entries == Grouped([], Mapped(old(remaining), Paired(fn, fn2)))
      ensures remaining == []
    {
      xs := new JsMap();
      xs := GroupByTo(xs, fn, fn2);
    }

    /** `toSet()`: a new set with every element added. */
    method ToSet() returns (target: JsSet<T>)
      modifies this
      ensures fresh(target)
      ensures target.elems == AddedAll([], old(remaining))
      ensures remaining == []
    {
      ghost var s := remaining;
      target := new JsSet();
      var i: nat := 0;
      while true
        invariant i <= |s| && remaining == s[i..]
        invariant target.elems == AddedAll([], s[..i])
        decreases |remaining|
      {
        var next := Next();
        if next.None? {
          assert s[..i] == s;
          return;
        }
        assert s[..i + 1][..i] == s[..i];
        target.Add(next.value);
        i := i + 1;
      }
    }

    /** Push every element that is left onto `xs`. */
    method PushAll(xs: JsArray<T>)
      modifies this, xs
      ensures xs.items == old(xs.items) + old(remaining)
      ensures remaining == []
    {
      ghost var s := remaining;
      while true
        invariant xs.items + remaining == old(xs.items) + s
        decreases |remaining|
      {
        var next := Next();
        if next.None? {
          return;
        }
        xs.Push(next.value);
      }
    }

    /** `filterTo(xs, fn)`: the generator becomes `filter(generator, fn)`, whose elements are
        pushed onto `xs`. */
    method FilterTo(xs: JsArray<T>, fn: (T, nat) -> bool) returns (r: JsArray<T>)
      modifies this, xs
      ensures r == xs && xs.items == old(xs.items) + Filtered(old(remaining), fn)
      ensures remaining == []
    {
      remaining := Generators.Filter(remaining, fn);
      PushAll(xs);
      r := xs;
    }

    /** `filterNotTo(xs, fn)`: as `filterTo` with the callback negated. */
    method FilterNotTo(xs: JsArray<T>, fn: (T, nat) -> bool) returns (r: JsArray<T>)
      modifies this, xs
      ensures r == xs && xs.items == old(xs.items) + Filtered(old(remaining), Not(fn))
      ensures remaining == []
    {
      remaining := Generators.Filter(remaining, Not(fn));
      PushAll(xs);
      r := xs;
    }

    /** `mapTo(xs, fn)`: the results of `map(generator, fn)` pushed onto `xs`. */
    method MapTo<U>(xs: JsArray<U>, fn: (T, nat) -> U) returns (r: JsArray<U>)
      modifies this, xs
      ensures r == xs && xs.items == old(xs.items) + Mapped(old(remaining), fn)
      ensures remaining == []
    {
      var gn := Generators.Map(remaining, fn);
      remaining := [];
      for k := 0 to |gn|
        invariant xs.items == old(xs.items) + gn[..k] && remaining == []
      {
        xs.Push(gn[k]);
        assert gn[..k + 1] == gn[..k] + [gn[k]];
      }
      assert gn[..|gn|] == gn;
      r := xs;
    }

    /** `flatMapTo(xs, fn)`: the results of `flatMap(generator, fn)` pushed onto `xs`. */
    method FlatMapTo<U>(xs: JsArray<U>, fn: (T, nat) -> seq<U>) returns (r: JsArray<U>)
      modifies this, xs
      ensures r == xs && xs.items == old(xs.items) + Concat(Mapped(old(remaining), fn))
      ensures remaining == []
    {
      var gn := Generators.FlatMap(remaining, fn);
      remaining := [];
      for k := 0 to |gn|
        invariant xs.items == old(xs.items) + gn[..k] && remaining == []
      {
        xs.Push(gn[k]);
        assert gn[..k + 1] == gn[..k] + [gn[k]];
      }
      assert gn[..|gn|] == gn;
      r := xs;
    }

    // ------------------------------------------------------------------
    // Chaining operations: the generator is replaced by a stage over it, the wrapper
    // itself is returned
    // ------------------------------------------------------------------

    /** `distinct()`. */
    method Distinct() returns (r: Sequence<T>)
      modifies this
      ensures r == this && remaining == Stages.Distinct(old(remaining))
    {
      remaining := Generators.Distinct(remaining);
      r := this;
    }

    /** `distinctBy(fn)`. */
    method DistinctBy<K(==)>(fn: (T, nat) -> K) returns (r: Sequence<T>)
      modifies this
      ensures r == this && remaining == Stages.DistinctBy(old(remaining), fn)
    {
      remaining := Generators.DistinctBy(remaining, fn);
      r := this;
    }

    /** `drop(n)`: a negative `n` is a `NegativeDropSize` error and changes nothing. */
    method Drop(n: int) returns (r: Result<Sequence<T>>)
      modifies this
      ensures n < 0 ==> r == Failure(NegativeDropSize) && remaining == old(remaining)
      ensures 0 <= n ==> r == Success(this) && remaining == old(remaining)[Bound(n, |old(remaining)|)..]
    {
      if n < 0 {
        return Failure(NegativeDropSize);
      }
      remaining := Generators.Drop(remaining, n);
      r := Success(this);
    }

    /** `dropWhile(fn)`. */
    method DropWhile(fn: (T, nat) -> bool) returns (r: Sequence<T>)
      modifies this
      ensures r == this && remaining == old(remaining)[FirstMatch(old(remaining), Not(fn))..]
    {
      var calls;
      remaining, calls := Generators.DropWhile(remaining, fn);
      r := this;
    }

    /** `filter(fn)`. */
    method Filter(fn: (T, nat) -> bool) returns (r: Sequence<T>)
      modifies this
      ensures r == this && remaining == Filtered(old(remaining), fn)
    {
      remaining := Generators.Filter(remaining, fn);
      r := this;
    }

    /** `filterNot(fn)`: `filter` with the callback negated. */
    method FilterNot(fn: (T, nat) -> bool) returns (r: Sequence<T>)
      modifies this
      ensures r == this && remaining == Filtered(old(remaining), Not(fn))
    {
      remaining := Generators.Filter(remaining, Not(fn));
      r := this;
    }

    /** `minus(elements)`: the elements that `elements` does not include. */
    method Minus(elements: seq<T>) returns (r: Sequence<T>)
      modifies this
      ensures r == this && remaining == Filtered(old(remaining), NotIn(elements))
    {
      remaining := Generators.Filter(remaining, NotIn(elements));
      r := this;
    }

    /** `minusElement(elem)`: the first occurrence of `elem` left out. */
    method MinusElement(elem: T) returns (r: Sequence<T>)
      modifies this
      ensures r == this && remaining == WithoutFirst(old(remaining), elem)
    {
      remaining := Generators.MinusElement(remaining, elem);
      r := this;
    }

    /** `onEach(fn)`: the same elements (the callback only observes them). */
    method OnEach() returns (r: Sequence<T>)
      modifies this
      ensures r == this && remaining == old(remaining)
    {
      var calls;
      remaining, calls := Generators.OnEach(remaining);
      r := this;
    }

    /** `plus(elements)`: `elements` after the rest. */
    method Plus(elements: seq<T>) returns (r: Sequence<T>)
      modifies this
      ensures r == this && remaining == old(remaining) + elements
    {
      remaining := Generators.Plus(remaining, elements);
      r := this;
    }

    /** `plusElement(elem)`: `plus([elem])`. */
    method PlusElement(elem: T) returns (r: Sequence<T>)
      modifies this
      ensures r == this && remaining == old(remaining) + [elem]
    {
      r := Plus([elem]);
    }

    /** `runningReduce(fn)`: every prefix's reduction. */
    method RunningReduce(fn: (T, T, nat) -> T) returns (r: Sequence<T>)
      modifies this
      ensures r == this && |remaining| == |old(remaining)|
      ensures forall k :: 0 <= k < |remaining| ==> remaining[k] == Reduced(old(remaining)[..k + 1], fn)
    {
      remaining := Generators.RunningReduce(remaining, fn);
      r := this;
    }

    /** `take(n)`: a negative `n` is an `OutOfBounds` error and changes nothing. */
    method Take(n: int) returns (r: Result<Sequence<T>>)
      modifies this
      ensures n < 0 ==> r == Failure(OutOfBounds) && remaining == old(remaining)
      ensures 0 <= n ==> r == Success(this) && remaining == old(remaining)[..Bound(n, |old(remaining)|)]
    {
      if n < 0 {
        return Failure(OutOfBounds);
      }
      var pulls;
      remaining, pulls := Generators.Take(remaining, n);
      r := Success(this);
    }

    /** `takeWhile(fn)`. */
    method TakeWhile(fn: (T, nat) -> bool) returns (r: Sequence<T>)
      modifies this
      ensures r == this && remaining == old(remaining)[..FirstMatch(old(remaining), Not(fn))]
    {
      var calls;
      remaining, calls := Generators.TakeWhile(remaining, fn);
      r := this;
    }

    // ------------------------------------------------------------------
    // Operations returning a new wrapper around a stage over the generator
    // ------------------------------------------------------------------

    /** `chunked(n, fn)`. */
    method Chunked<U(==)>(n: nat, fn: (seq<T>, nat) -> U) returns (r: Sequence<U>)
      requires 1 <= n
      ensures fresh(r) && r.remaining == Applied(Chunks(remaining, n), fn)
    {
      var gn := Generators.Chunked(remaining, n, fn);
      r := new Sequence(GeneratorOf(gn));
    }

    /** `flatMap(fn)`. */
    method FlatMap<U(==)>(fn: (T, nat) -> seq<U>) returns (r: Sequence<U>)
      ensures fresh(r) && r.remaining == Concat(Mapped(remaining, fn))
    {
      var gn := Generators.FlatMap(remaining, fn);
      r := new Sequence(GeneratorOf(gn));
    }

    /** `map(fn)`. */
    method Map<U(==)>(fn: (T, nat) -> U) returns (r: Sequence<U>)
      ensures fresh(r) && r.remaining == Mapped(remaining, fn)
    {
      var gn := Generators.Map(remaining, fn);
      r := new Sequence(GeneratorOf(gn));
    }

    /** `runningFold(initial, fn)`: `initial`, then every prefix's fold. */
    method RunningFold<U(==)>(initial: U, fn: (U, T, nat) -> U) returns (r: Sequence<U>)
      ensures fresh(r) && |r.remaining| == |remaining| + 1
      ensures forall k :: 0 <= k < |r.remaining| ==> r.remaining[k] == FoldLeft(remaining[..k], initial, fn)
    {
      var gn := Generators.RunningFold(remaining, initial, fn);
      r := new Sequence(GeneratorOf(gn));
    }

    /** `scan(initial, fn)`: `runningFold(initial, fn)`. */
    method Scan<U(==)>(initial: U, fn: (U, T, nat) -> U) returns (r: Sequence<U>)
      ensures fresh(r) && |r.remaining| == |remaining| + 1
      ensures forall k :: 0 <= k < |r.remaining| ==> r.remaining[k] == FoldLeft(remaining[..k], initial, fn)
    {
      r := RunningFold(initial, fn);
    }

    /** `windowed(size, step, partialWindows, transform)`. */
    method Windowed<U(==)>(size: nat, step: nat, partial: bool, transform: (seq<T>, nat) -> U)
      returns (r: Sequence<U>)
      requires 1 <= size && 1 <= step
      ensures fresh(r) && r.remaining == Applied(Windows(remaining, size, step, partial), transform)
    {
      var gn := Generators.Windowed(remaining, size, step, partial, transform);
      r := new Sequence(GeneratorOf(gn));
    }

    /** `withIndex()`. */
    method WithIndex() returns (r: Sequence<Indexed<T>>)
      ensures fresh(r) && r.remaining == Indexing(remaining)
    {
      var gn := Generators.WithIndex(remaining);
      r := new Sequence(GeneratorOf(gn));
    }

    /** `zip(other, fn)`: as many results as the shorter side has elements. */
    method Zip<U, R(==)>(other: seq<U>, fn: (T, U, nat) -> R) returns (r: Sequence<R>)
      ensures fresh(r)
      ensures |r.remaining| == if |remaining| < |other| then |remaining| else |other|
      ensures forall k :: 0 <= k < |r.remaining| ==> r.remaining[k] == fn(remaining[k], other[k], k)
    {
      var gn := Generators.Zip(remaining, other, fn);
      r := new Sequence(GeneratorOf(gn));
    }

    /** `zipWithNext(fn)`: one result per pair of consecutive elements, pairs not overlapping. */
    method ZipWithNext<R(==)>(fn: (T, T, nat) -> R) returns (r: Sequence<R>)
      ensures fresh(r) && |r.remaining| == |remaining| / 2
      ensures forall k :: 0 <= k < |r.remaining| ==>
                r.remaining[k] == fn(remaining[2 * k], remaining[2 * k + 1], k)
    {
      var gn := Generators.ZipWithNext(remaining, fn);
      r := new Sequence(GeneratorOf(gn));
    }

    // ------------------------------------------------------------------
    // The max/min family over keys and comparators
    // ------------------------------------------------------------------

    /** `maxBy(fn)`: the element whose key is the best under "strictly greater replaces". */
    method MaxBy(fn: (T, nat) -> int) returns (r: Result<T>)
      modifies this
      ensures old(remaining) == [] ==> r == Failure(EmptySequence)
      ensures old(remaining) != [] ==> r == Success(old(remaining)[BestIndex(Mapped(old(remaining), fn), Rises())])
      ensures remaining == []
    {
      var best := ScanBest(fn, Rises());
      r := if best.Some? then Success(best.value.0) else Failure(EmptySequence);
    }

    /** `maxByOrNull(fn)`. */
    method MaxByOrNull(fn: (T, nat) -> int) returns (r: Option<T>)
      modifies this
      ensures old(remaining) == [] ==> r == Option.None
      ensures old(remaining) != [] ==> r == Some(old(remaining)[BestIndex(Mapped(old(remaining), fn), Rises())])
      ensures remaining == []
    {
      var best := ScanBest(fn, Rises());
      r := if best.Some? then Some(best.value.0) else Option.None;
    }

    /** `minBy(fn)`: the element whose key is the best under "strictly smaller replaces". */
    method MinBy(fn: (T, nat) -> int) returns (r: Result<T>)
      modifies this
      ensures old(remaining) == [] ==> r == Failure(EmptySequence)
      ensures old(remaining) != [] ==> r == Success(old(remaining)[BestIndex(Mapped(old(remaining), fn), Falls())])
      ensures remaining == []
    {
      var best := ScanBest(fn, Falls());
      r := if best.Some? then Success(best.value.0) else Failure(EmptySequence);
    }

    /** `minByOrNull(fn)`. */
    method MinByOrNull(fn: (T, nat) -> int) returns (r: Option<T>)
      modifies this
      ensures old(remaining) == [] ==> r == Option.None
      ensures old(remaining) != [] ==> r == Some(old(remaining)[BestIndex(Mapped(old(remaining), fn), Falls())])
      ensures remaining == []
    {
      var best := ScanBest(fn, Falls());
      r := if best.Some? then Some(best.value.0) else Option.None;
    }

    /** `maxOf(fn)`: the greatest key. */
    method MaxOf(fn: (T, nat) -> int) returns (r: Result<int>)
      modifies this
      ensures old(remaining) == [] ==> r == Failure(EmptySequence)
      ensures old(remaining) != [] ==>
                var keys := Mapped(old(remaining), fn); r == Success(keys[BestIndex(keys, Rises())])
      ensures remaining == []
    {
      var best := ScanBest(fn, Rises());
      r := if best.Some? then Success(best.value.1) else Failure(EmptySequence);
    }

    /** `maxOfOrNull(fn)`. */
    method MaxOfOrNull(fn: (T, nat) -> int) returns (r: Option<int>)
      modifies this
      ensures old(remaining) == [] ==> r == Option.None
      ensures old(remaining) != [] ==>
                var keys := Mapped(old(remaining), fn); r == Some(keys[BestIndex(keys, Rises())])
      ensures remaining == []
    {
      var best := ScanBest(fn, Rises());
      r := if best.Some? then Some(best.value.1) else Option.None;
    }

    /** `minOf(fn)`: the least key. */
    method MinOf(fn: (T, nat) -> int) returns (r: Result<int>)
      modifies this
      ensures old(remaining) == [] ==> r == Failure(EmptySequence)
      ensures old(remaining) != [] ==>
                var keys := Mapped(old(remaining), fn); r == Success(keys[BestIndex(keys, Falls())])
      ensures remaining == []
    {
      var best := ScanBest(fn, Falls());
      r := if best.Some? then Success(best.value.1) else Failure(EmptySequence);
    }

    /** `minOfOrNull(fn)`. */
    method MinOfOrNull(fn: (T, nat) -> int) returns (r: Option<int>)
      modifies this
      ensures old(remaining) == [] ==> r == Option.None
      ensures old(remaining) != [] ==>
                var keys := Mapped(old(remaining), fn); r == Some(keys[BestIndex(keys, Falls())])
      ensures remaining == []
    {
      var best := ScanBest(fn, Falls());
      r := if best.Some? then Some(best.value.1) else Option.None;
    }

    /** `maxOfWithOrNull(comp, fn)`: the key a scan ends on when `comp(current, key) === 1`
        replaces; null for an empty sequence. */
    method MaxOfWithOrNull<U>(comp: (U, U) -> int, fn: (T, nat) -> U) returns (r: Option<U>)
      modifies this
      ensures old(remaining) == [] ==> r == Option.None
      ensures old(remaining) != [] ==>
                var keys := Mapped(old(remaining), fn); r == Some(keys[BestIndex(keys, Signals(comp, 1))])
      ensures remaining == []
    {
      var best := ScanBest(fn, Signals(comp, 1));
      r := if best.Some? then Some(best.value.1) else Option.None;
    }

    /** `maxOfWith(comp, fn)`: `maxOfWithOrNull`, an `EmptySequence` error for null. */
    method MaxOfWith<U>(comp: (U, U) -> int, fn: (T, nat) -> U) returns (r: Result<U>)
      modifies this
      ensures old(remaining) == [] ==> r == Failure(EmptySequence)
      ensures old(remaining) != [] ==>
                var keys := Mapped(old(remaining), fn); r == Success(keys[BestIndex(keys, Signals(comp, 1))])
      ensures remaining == []
    {
      var res := MaxOfWithOrNull(comp, fn);
      r := if res.Some? then Success(res.value) else Failure(EmptySequence);
    }

    /** `minOfWithOrNull(comp, fn)`: as `maxOfWithOrNull`, replacing on `comp(current, key) === -1`. */
    method MinOfWithOrNull<U>(comp: (U, U) -> int, fn: (T, nat) -> U) returns (r: Option<U>)
      modifies this
      ensures old(remaining) == [] ==> r == Option.None
      ensures old(remaining) != [] ==>
                var keys := Mapped(old(remaining), fn); r == Some(keys[BestIndex(keys, Signals(comp, -1))])
      ensures remaining == []
    {
      var best := ScanBest(fn, Signals(comp, -1));
      r := if best.Some? then Some(best.value.1) else Option.None;
    }

    /** `minOfWith(comp, fn)`: `minOfWithOrNull`, an `EmptySequence` error for null. */
    method MinOfWith<U>(comp: (U, U) -> int, fn: (T, nat) -> U) returns (r: Result<U>)
      modifies this
      ensures old(remaining) == [] ==> r == Failure(EmptySequence)
      ensures old(remaining) != [] ==>
                var keys := Mapped(old(remaining), fn); r == Success(keys[BestIndex(keys, Signals(comp, -1))])
      ensures remaining == []
    {
      var res := MinOfWithOrNull(comp, fn);
      r := if res.Some? then Success(res.value) else Failure(EmptySequence);
    }

    /** `maxWith(comp)`: the element a scan ends on when `comp(current, x) === 1` replaces. */
    method MaxWith(comp: (T, T) -> int) returns (r: Result<T>)
      modifies this
      ensures old(remaining) == [] ==> r == Failure(EmptySequence)
      ensures old(remaining) != [] ==> r == Success(old(remaining)[BestIndex(old(remaining), Signals(comp, 1))])
      ensures remaining == []
    {
      MappedSelf(remaining);
      var best := ScanBest(Self(), Signals(comp, 1));
      r := if best.Some? then Success(best.value.0) else Failure(EmptySequence);
    }

    /** `maxWithOrNull(comp)`. */
    method MaxWithOrNull(comp: (T, T) -> int) returns (r: Option<T>)
      modifies this
      ensures old(remaining) == [] ==> r == Option.None
      ensures old(remaining) != [] ==> r == Some(old(remaining)[BestIndex(old(remaining), Signals(comp, 1))])
      ensures remaining == []
    {
      MappedSelf(remaining);
      var best := ScanBest(Self(), Signals(comp, 1));
      r := if best.Some? then Some(best.value.0) else Option.None;
    }

    /** `minWith(comp)`: the element a scan ends on when `comp(current, x) === -1` replaces. */
    method MinWith(comp: (T, T) -> int) returns (r: Result<T>)
      modifies this
      ensures old(remaining) == [] ==> r == Failure(EmptySequence)
      ensures old(remaining) != [] ==> r == Success(old(remaining)[BestIndex(old(remaining), Signals(comp, -1))])
      ensures remaining == []
    {
      MappedSelf(remaining);
      var best := ScanBest(Self(), Signals(comp, -1));
      r := if best.Some? then Success(best.value.0) else Failure(EmptySequence);
    }

    /** `minWithOrNull(comp)`. */
    method MinWithOrNull(comp: (T, T) -> int) returns (r: Option<T>)
      modifies this
      ensures old(remaining) == [] ==> r == Option.None
      ensures old(remaining) != [] ==> r == Some(old(remaining)[BestIndex(old(remaining), Signals(comp, -1))])
      ensures remaining == []
    {
      MappedSelf(remaining);
      var best := ScanBest(Self(), Signals(comp, -1));
      r := if best.Some? then Some(best.value.0) else Option.None;
    }
  }

  // ------------------------------------------------------------------
  // Operations that only make sense for some element types
  // ------------------------------------------------------------------

  /** The end of `joinTo`: one trailing separator is cut off the text. */
  method TrimSeparator(text: string, separator: string) returns (r: string)
    ensures r == StripSuffix(text, separator)
  {
    r := text;
    if |separator| <= |text| && text[|text| - |separator|..] == separator {
      r := text[..|text| - |separator|];
    }
  }

  /** `generateSequence(seed, fn)`: a wrapper around the infinite stream, of which the first
      `n` values are modelled. */
  method GenerateSequence<T(==)>(seed: Seed<T>, fn: (T, nat) -> T, n: nat) returns (r: Sequence<T>)
    ensures fresh(r) && r.remaining == Iterates(Start(seed), fn, n)
  {
    var gn := Generators.GeneratePrefix(seed, fn, n);
    r := new Sequence(GeneratorOf(gn));
  }

  /** `max()` over numbers: the first of the greatest, or an `EmptySequence` error. */
  method Max(sq: Sequence<int>) returns (r: Result<int>)
    modifies sq
    ensures old(sq.remaining) == [] ==> r == Failure(EmptySequence)
    ensures old(sq.remaining) != [] ==> r == Success(old(sq.remaining)[BestIndex(old(sq.remaining), Rises())])
    ensures sq.remaining == []
  {
    MappedSelf(sq.remaining);
    var best := sq.ScanBest(Self(), Rises());
    r := if best.Some? then Success(best.value.0) else Failure(EmptySequence);
  }

  /** `maxOrNull()` over numbers. */
  method MaxOrNull(sq: Sequence<int>) returns (r: Option<int>)
    modifies sq
    ensures old(sq.remaining) == [] ==> r == Option.None
    ensures old(sq.remaining) != [] ==> r == Some(old(sq.remaining)[BestIndex(old(sq.remaining), Rises())])
    ensures sq.remaining == []
  {
    MappedSelf(sq.remaining);
    var best := sq.ScanBest(Self(), Rises());
    r := if best.Some? then Some(best.value.0) else Option.None;
  }

  /** `min()` over numbers: the first of the least, or an `EmptySequence` error. */
  method Min(sq: Sequence<int>) returns (r: Result<int>)
    modifies sq
    ensures old(sq.remaining) == [] ==> r == Failure(EmptySequence)
    ensures old(sq.remaining) != [] ==> r == Success(old(sq.remaining)[BestIndex(old(sq.remaining), Falls())])
    ensures sq.remaining == []
  {
    MappedSelf(sq.remaining);
    var best := sq.ScanBest(Self(), Falls());
    r := if best.Some? then Success(best.value.0) else Failure(EmptySequence);
  }

  /** `minOrNull()` over numbers. */
  method MinOrNull(sq: Sequence<int>) returns (r: Option<int>)
    modifies sq
    ensures old(sq.remaining) == [] ==> r == Option.None
    ensures old(sq.remaining) != [] ==> r == Some(old(sq.remaining)[BestIndex(old(sq.remaining), Falls())])
    ensures sq.remaining == []
  {
    MappedSelf(sq.remaining);
    var best := sq.ScanBest(Self(), Falls());
    r := if best.Some? then Some(best.value.0) else Option.None;
  }

  /** `sum()` over numbers: the elements added to 0. */
  method Sum(sq: Sequence<int>) returns (sum: int)
    modifies sq
    ensures sum == Folds.Sum(old(sq.remaining))
    ensures sq.remaining == []
  {
    ghost var s := sq.remaining;
    sum := 0;
    ghost var i: nat := 0;
    while true
      invariant i <= |s| && sq.remaining == s[i..]
      invariant sum == Folds.Sum(s[..i])
      decreases |sq.remaining|
    {
      var next := sq.Next();
      if next.None? {
        assert s[..i] == s;
        return;
      }
      assert s[..i + 1][..i] == s[..i];
      sum := sum + next.value;
      i := i + 1;
    }
  }

  /** A value as `average` sees it: a number, or something whose `typeof` is not "number". */
  datatype JsValue = Number(value: int) | NonNumber

  /** A quotient of numbers: a real number, or `NaN` (what `0 / 0` gives). */
  datatype Quotient = Finite(value: real) | NaN

  /** The number a value stands for in a sum (0 for a non-number, which `average` rejects). */
  function NumberValue(x: JsValue, i: nat): int
  {
    if x.Number? then x.value else 0
  }

  /** `average()`: the sum divided by the count (`NaN` when empty), or a
      `NonNumericSequence` error at the first element that is not a number. */
  method Average(sq: Sequence<JsValue>) returns (r: Result<Quotient>)
    modifies sq
    ensures (exists k :: 0 <= k < |old(sq.remaining)| && old(sq.remaining)[k].NonNumber?) ==>
              r == Failure(NonNumericSequence)
    ensures (forall k :: 0 <= k < |old(sq.remaining)| ==> old(sq.remaining)[k].Number?) ==>
              r == Success(if old(sq.remaining) == [] then NaN
                           else Finite(Folds.Sum(Mapped(old(sq.remaining), NumberValue)) as real
                                       / |old(sq.remaining)| as real))
    ensures sq.remaining == []
  {
    ghost var s := sq.remaining;
    ghost var values := Mapped(s, NumberValue);
    var avg := 0;
    var count: nat := 0;
    while true
      invariant count <= |s| && sq.remaining == s[count..]
      invariant forall k :: 0 <= k < count ==> s[k].Number?
      invariant avg == Folds.Sum(values[..count])
      decreases |sq.remaining|
    {
      var next := sq.Next();
      if next.None? {
        assert values[..count] == values;
        break;
      }
      if next.value.NonNumber? {
        sq.Close();
        return Failure(NonNumericSequence);
      }
      SumStep(values, count);
      avg := avg + next.value.value;
      count := count + 1;
    }
    r := Success(if count == 0 then NaN else Finite(avg as real / count as real));
  }

  /** `flatten()` over a sequence of iterables: a new wrapper over the contents, which fails
      with `ItemNotIterable` (reported in `error`) once it reaches an item that is not iterable. */
  method Flatten<T(==)>(sq: Sequence<Nested<T>>) returns (r: Sequence<T>, error: Option<Error>)
    ensures fresh(r)
    ensures var m := FirstMatch(sq.remaining, IsNotIterable());
      r.remaining == Contents(sq.remaining[..m])
      && (error.None? <==> m == |sq.remaining|)
      && (error.Some? ==> error.value == ItemNotIterable)
  {
    var gn;
    gn, error := Generators.Flatten(sq.remaining);
    r := new Sequence(GeneratorOf(gn));
  }

  /** `unzip()` over pairs: the first components and the second components, in order. */
  method Unzip<U(==)>(sq: Sequence<(U, U)>) returns (one: seq<U>, two: seq<U>)
    modifies sq
    ensures |one| == |old(sq.remaining)| && |two| == |old(sq.remaining)|
    ensures forall k :: 0 <= k < |one| ==> old(sq.remaining)[k] == (one[k], two[k])
    ensures sq.remaining == []
  {
    ghost var s := sq.remaining;
    one, two := [], [];
    while true
      invariant |one| == |two| <= |s| && sq.remaining == s[|one|..]
      invariant forall k :: 0 <= k < |one| ==> s[k] == (one[k], two[k])
      decreases |sq.remaining|
    {
      var next := sq.Next();
      if next.None? {
        return;
      }
      one := one + [next.value.0];
      two := two + [next.value.1];
    }
  }
}
