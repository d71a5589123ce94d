/** The generator transformers of the library, each run against a finite upstream
    producer `src` (the sequence of values it would still yield).

    Every method mirrors its generator's loop: a pull is `pos < |src|` (a value,
    `src[pos]`, after which `pos` moves on) or `pos == |src|` (`done`, and a finished
    producer stays finished); what the generator yields is appended to `out`. Each
    method is proved to yield exactly what its specification function says. */
module Generators {
  import opened Outcomes
  import opened Stages
  import opened Buffers
  import opened Folds

  /** `map`: every element transformed, the callback seeing the pull counter. */
  method Map<T, U>(src: seq<T>, fn: (T, nat) -> U) returns (out: seq<U>)
    ensures out == Mapped(src, fn)
  {
    var i := 0;
    out := [];
    while true
      invariant i <= |src|
      invariant out == Mapped(src[..i], fn)
      decreases |src| - i
    {
      if i == |src| {
        assert src[..i] == src;
        return;
      }
      out := out + [fn(src[i], i)];
      i := i + 1;
    }
  }

  /** `filter`: the accepted elements; the counter advances on every pull, rejected or not. */
  method Filter<T>(src: seq<T>, fn: (T, nat) -> bool) returns (out: seq<T>)
    ensures out == Filtered(src, fn)
  {
    var i := 0;
    out := [];
    while true
      invariant i <= |src|
      invariant out == Filtered(src[..i], fn)
      decreases |src| - i
    {
      if i == |src| {
        assert src[..i] == src;
        return;
      }
      var value := src[i];
      assert src[..i + 1][..i] == src[..i];
      if fn(value, i) {
        out := out + [value];
      }
      i := i + 1;
    }
  }

  /** `take(n)`: the first `n` elements (all of them when fewer); `pulls` counts the
      upstream requests, which never exceed `n`. */
  method Take<T>(src: seq<T>, n: int) returns (out: seq<T>, pulls: nat)
    ensures out == src[..Bound(n, |src|)]
    ensures pulls == if n <= |src| then Bound(n, |src|) else |src| + 1
    ensures pulls <= Bound(n, |src| + 1)
  {
    var i := 0;
    out := [];
    pulls := 0;
    while i < n
      invariant i <= |src| && pulls == i && (i == 0 || i <= n)
      invariant out == src[..i]
      decreases n - i
    {
      pulls := pulls + 1;
      if i == |src| {
        return;
      }
      out := out + [src[i]];
      i := i + 1;
    }
  }

  /** `takeWhile`: the longest prefix the predicate accepts. The stage keeps pulling, and
      keeps asking the predicate, to the end of the source: `calls` counts the questions. */
  method TakeWhile<T>(src: seq<T>, fn: (T, nat) -> bool) returns (out: seq<T>, calls: nat)
    ensures out == src[..FirstMatch(src, Not(fn))]
    ensures calls == |src|
  {
    ghost var m := FirstMatch(src, Not(fn));
    var broken := false;
    var i := 0;
    out := [];
    calls := 0;
    while true
      invariant i <= |src| && calls == i
      invariant broken <==> m < i
      invariant out == src[..if broken then m else i]
      decreases |src| - i
    {
      if i == |src| {
        return;
      }
      var value := src[i];
      calls := calls + 1;
      if !fn(value, i) {
        assert Not(fn)(value, i);
        broken := true;
      }
      if !broken {
        assert !Not(fn)(value, i);
        out := out + [value];
      }
      i := i + 1;
    }
  }

  /** `dropWhile`: the source from the first element the predicate rejects on. Like
      `takeWhile`, it asks the predicate about every element. */
  method DropWhile<T>(src: seq<T>, fn: (T, nat) -> bool) returns (out: seq<T>, calls: nat)
    ensures out == src[FirstMatch(src, Not(fn))..]
    ensures calls == |src|
  {
    ghost var m := FirstMatch(src, Not(fn));
    var broken := false;
    var i := 0;
    out := [];
    calls := 0;
    while true
      invariant i <= |src| && calls == i
      invariant broken <==> m < i
      invariant out == if broken then src[m..i] else []
      decreases |src| - i
    {
      if i == |src| {
        return;
      }
      var value := src[i];
      calls := calls + 1;
      if !fn(value, i) {
        assert Not(fn)(value, i);
        broken := true;
      }
      if broken {
        out := out + [value];
      }
      i := i + 1;
    }
  }

  /** `drop(n)`: the source after its first `n` elements. The counter runs on through
      `done` pulls until it reaches `n`, so a short source ends with nothing yielded. */
  method Drop<T>(src: seq<T>, n: int) returns (out: seq<T>)
    ensures out == src[Bound(n, |src|)..]
  {
    var i := 0;
    var pos := 0;
    out := [];
    while true
      invariant pos <= |src| && pos <= i && (pos < |src| ==> pos == i)
      invariant out == src[Bound(n, pos)..pos]
      decreases |src| - pos + (if i < n then n - i else 0)
    {
      var done := pos == |src|;
      if i >= n {
        if !done {
          out := out + [src[pos]];
        } else {
          return;
        }
      }
      if !done {
        pos := pos + 1;
      }
      i := i + 1;
    }
  }

  /** `chunked(n, fn)`: the source cut into chunks of `n`, each handed to `fn` with the
      chunk counter, the trailing partial chunk with the number of elements it holds. */
  method Chunked<T, U>(src: seq<T>, n: nat, fn: (seq<T>, nat) -> U) returns (out: seq<U>)
    requires 1 <= n
    ensures out == Applied(Chunks(src, n), fn)
  {
    ghost var goal := Applied(Chunks(src, n), fn);
    var pos := 0;
    var j := 0;
    out := [];
    assert src[0..] == src;
    while true
      invariant pos <= |src|
      invariant out + Applied(ChunksFrom(src[pos..], n, j), fn) == goal
      decreases |src| - pos
    {
      ghost var start := pos;
      var ls, i;
      ls, i, pos := PullChunk(src, pos, n);
      if i < n {
        // the source ran dry inside this chunk
        ChunksAtEnd(src, start, n, j, i, fn, out, goal, ls);
        if |ls| > 0 {
          out := out + [fn(ls, i)];
        }
        return;
      }
      assert pos == start + n;
      FullChunk(src, start, n, j, fn, out, goal, ls);
      out := out + [fn(ls, j)];
      j := j + 1;
    }
  }

  /** The inner loop of `chunked`: pull up to `n` elements into a fresh buffer, stopping
      early when the source runs dry. */
  method PullChunk<T>(src: seq<T>, pos: nat, n: nat) returns (ls: seq<T>, i: nat, next: nat)
    requires pos <= |src|
    ensures i <= n && next == pos + i <= |src| && ls == src[pos..next]
    ensures i < n ==> next == |src|
  {
    ls := [];
    next := pos;
    i := 0;
    while i < n
      invariant next == pos + i <= |src| && i <= n
      invariant ls == src[pos..next]
    {
      if next == |src| {
        return;
      }
      Pushed(src, pos, next);
      ls := ls + [src[next]];
      next := next + 1;
      i := i + 1;
    }
  }

  /** The step of `chunked` at a full chunk: the `n` elements from `p` are emitted with
      the chunk counter. */
  lemma FullChunk<T, U>(s: seq<T>, p: nat, n: nat, j: nat, fn: (seq<T>, nat) -> U,
                        out: seq<U>, goal: seq<U>, ls: seq<T>)
    requires 1 <= n && p + n <= |s| && ls == s[p..p + n]
    requires out + Applied(ChunksFrom(s[p..], n, j), fn) == goal
    ensures (out + [fn(ls, j)]) + Applied(ChunksFrom(s[p + n..], n, j + 1), fn) == goal
  {
    var rest := ChunksFrom(s[p + n..], n, j + 1);
    assert s[p..][..n] == s[p..p + n] && s[p..][n..] == s[p + n..];
    assert ChunksFrom(s[p..], n, j) == [(s[p..p + n], j)] + rest;
    AppliedAppend([(s[p..p + n], j)], rest, fn);
    assert Applied([(s[p..p + n], j)], fn) == [fn(s[p..p + n], j)];
    AppendAssoc(out, [fn(s[p..p + n], j)], Applied(rest, fn));
  }

  /** The end of `chunked`: the source ran dry after `i < n` elements of a chunk; they are
      the last chunk, with `i` as index, when there are any. */
  lemma ChunksAtEnd<T, U>(s: seq<T>, p: nat, n: nat, j: nat, i: nat, fn: (seq<T>, nat) -> U,
                          out: seq<U>, goal: seq<U>, ls: seq<T>)
    requires 1 <= n && p + i == |s| && i < n && ls == s[p..|s|]
    requires out + Applied(ChunksFrom(s[p..], n, j), fn) == goal
    ensures |ls| == i
    ensures i > 0 ==> out + [fn(ls, i)] == goal
    ensures i == 0 ==> out == goal
  {
    if i > 0 {
      assert s[p..] == s[p..|s|];
      assert ChunksFrom(s[p..], n, j) == [(s[p..|s|], i)];
      assert Applied([(s[p..|s|], i)], fn) == [fn(s[p..|s|], i)];
    } else {
      assert s[p..] == [];
    }
  }

  /** `ls.slice(k)`: the elements from index `k` on, none when `k` is past the end. */
  function Slice<T>(ls: seq<T>, k: nat): (r: seq<T>)
    ensures k <= |ls| ==> r == ls[k..]
    ensures |ls| < k ==> r == []
  {
    if k <= |ls| then ls[k..] else []
  }

  /** The step of `windowed` at a full window: the buffer `s[p..i + 1]` is emitted with
      index `i`, and sliding it by `step` leaves the buffer of the next window start. */
  lemma WindowSlides<T, U>(s: seq<T>, size: nat, step: nat, partial: bool, p: nat, i: nat, next: nat,
                           transform: (seq<T>, nat) -> U, out: seq<U>, goal: seq<U>)
    requires 1 <= size && 1 <= step && p + size == i + 1 <= |s| && next == p + Stride(size, step)
    requires out + Applied(WindowsFrom(s, size, step, partial, p), transform) == goal
    ensures out + [transform(s[p..i + 1], i)] + Applied(WindowsFrom(s, size, step, partial, next), transform) == goal
    ensures Slice(s[p..i + 1], step) == s[next..i + 1]
  {
    var rest := WindowsFrom(s, size, step, partial, next);
    assert WindowsFrom(s, size, step, partial, p) == [(s[p..i + 1], i)] + rest;
    AppliedAppend([(s[p..i + 1], i)], rest, transform);
    assert Applied([(s[p..i + 1], i)], transform) == [transform(s[p..i + 1], i)];
    assert out + [transform(s[p..i + 1], i)] + Applied(rest, transform)
        == out + ([transform(s[p..i + 1], i)] + Applied(rest, transform));
    if step < size {
      assert Slice(s[p..i + 1], step) == s[p..i + 1][step..];
    }
  }

  /** The drain of `windowed` at the end of the source: a leftover buffer `s[q..]` longer
      than `step` is emitted with index `|s|` and slid by `step`. */
  lemma LeftoverSlides<T, U>(s: seq<T>, q: nat, step: nat,
                             transform: (seq<T>, nat) -> U, out: seq<U>, goal: seq<U>)
    requires 1 <= step && q + step < |s|
    requires out + Applied(Leftovers(s, q, step), transform) == goal
    ensures out + [transform(s[q..], |s|)] + Applied(Leftovers(s, q + step, step), transform) == goal
    ensures Slice(s[q..], step) == s[q + step..]
  {
    var rest := Leftovers(s, q + step, step);
    AppliedAppend([(s[q..], |s|)], rest, transform);
    assert Applied([(s[q..], |s|)], transform) == [transform(s[q..], |s|)];
    assert out + [transform(s[q..], |s|)] + Applied(rest, transform)
        == out + ([transform(s[q..], |s|)] + Applied(rest, transform));
  }

  /** At the end of the source no full window is left: what remains is the leftovers when
      partial windows are asked for, and nothing otherwise. */
  lemma WindowsEnd<T, U>(s: seq<T>, size: nat, step: nat, partial: bool, p: nat,
                         transform: (seq<T>, nat) -> U, out: seq<U>, goal: seq<U>)
    requires 1 <= size && 1 <= step && p <= |s| < p + size
    requires out + Applied(WindowsFrom(s, size, step, partial, p), transform) == goal
    ensures partial ==> out + Applied(Leftovers(s, p, step), transform) == goal
    ensures !partial ==> out == goal
    ensures s[p..|s|] == s[p..]
  {
  }

  /** The last leftover buffer, no longer than `step`, is the last thing emitted. */
  lemma LastLeftover<T, U>(s: seq<T>, q: nat, step: nat,
                           transform: (seq<T>, nat) -> U, out: seq<U>, goal: seq<U>)
    requires 1 <= step && q <= |s| && |s| - q <= step
    requires out + Applied(Leftovers(s, q, step), transform) == goal
    ensures out + [transform(s[q..], |s|)] == goal
  {
    assert Leftovers(s, q, step) == [(s[q..], |s|)];
    assert Applied([(s[q..], |s|)], transform) == [transform(s[q..], |s|)];
  }

  /** The end of `windowed` with partial windows: the leftover buffer is emitted, with the
      last index, and slid by `step` as long as it is longer than `step`; then the last
      (possibly empty) leftover is emitted. */
  method YieldLeftovers<T, U>(ghost src: seq<T>, ghost q: nat, ls: seq<T>, i: nat, step: nat,
                              transform: (seq<T>, nat) -> U) returns (out: seq<U>)
    requires 1 <= step && q <= |src| && ls == src[q..] && i == |src|
    ensures out == Applied(Leftovers(src, q, step), transform)
  {
    ghost var goal := Applied(Leftovers(src, q, step), transform);
    ghost var p: nat := q;
    var buffer := ls;
    out := [];
    while |buffer| > step
      invariant p <= |src| && buffer == src[p..]
      invariant out + Applied(Leftovers(src, p, step), transform) == goal
      decreases |buffer|
    {
      LeftoverSlides(src, p, step, transform, out, goal);
      out := out + [transform(buffer, i)];
      buffer := Slice(buffer, step);
      p := p + step;
    }
    LastLeftover(src, p, step, transform, out, goal);
    out := out + [transform(buffer, i)];
  }

  /** Pushing the next element onto a buffer of consecutive elements. */
  lemma Pushed<T>(s: seq<T>, p: nat, i: nat)
    requires p <= i < |s|
    ensures s[p..i] + [s[i]] == s[p..i + 1]
  {
  }

  /** `windowed(size, step, partialWindows, transform)`: the sliding windows, each handed to
      `transform` with the position of the element that completed it; at the end, when
      partial windows are asked for, the leftover buffer slid by `step`. */
  method Windowed<T, U>(src: seq<T>, size: nat, step: nat, partial: bool,
                        transform: (seq<T>, nat) -> U) returns (out: seq<U>)
    requires 1 <= size && 1 <= step
    ensures out == Applied(Windows(src, size, step, partial), transform)
  {
    ghost var goal := Applied(Windows(src, size, step, partial), transform);
    var ls: seq<T> := [];
    var i: nat := 0;
    ghost var start: nat := 0;
    out := [];
    while true
      invariant start <= i <= |src| && i < start + size
      invariant ls == src[start..i]
      invariant out + Applied(WindowsFrom(src, size, step, partial, start), transform) == goal
      decreases |src| - i
    {
      if i == |src| {
        WindowsEnd(src, size, step, partial, start, transform, out, goal);
        if partial {
          var tail := YieldLeftovers(src, start, ls, i, step, transform);
          out := out + tail;
        }
        return;
      }
      Pushed(src, start, i);
      ls := ls + [src[i]];
      if |ls| == size {
        ghost var next := start + Stride(size, step);
        WindowSlides(src, size, step, partial, start, i, next, transform, out, goal);
        out := out + [transform(ls, i)];
        ls := Slice(ls, step);
        start := next;
      }
      i := i + 1;
    }
  }

  /** `distinct`: first occurrences, remembered in `seen` (the end of the source is never
      mistaken for an element). */
  method Distinct<T(==)>(src: seq<T>) returns (out: seq<T>)
    ensures out == Stages.Distinct(src)
  {
    var seen: seq<T> := [];
    var pos := 0;
    out := [];
    while true
      invariant pos <= |src|
      invariant out == seen == Stages.Distinct(src[..pos])
      decreases |src| - pos
    {
      if pos == |src| {
        assert src[..pos] == src;
        return;
      }
      var value := src[pos];
      assert src[..pos + 1][..pos] == src[..pos];
      DistinctElements(src[..pos]);
      if value !in seen {
        seen := seen + [value];
        out := out + [value];
      }
      pos := pos + 1;
    }
  }

  /** `distinctBy(fn)`: the elements whose key has not been seen before. */
  method DistinctBy<T, K(==)>(src: seq<T>, fn: (T, nat) -> K) returns (out: seq<T>)
    ensures out == Stages.DistinctBy(src, fn)
  {
    var seen: seq<K> := [];
    var i: nat := 0;
    out := [];
    while true
      invariant i <= |src|
      invariant out == Stages.DistinctBy(src[..i], fn)
      invariant seen == Stages.Distinct(Mapped(src[..i], fn))
      decreases |src| - i
    {
      if i == |src| {
        assert src[..i] == src;
        return;
      }
      var value := src[i];
      var transform := fn(value, i);
      DistinctByStep(src, fn, i);
      if transform !in seen {
        seen := seen + [transform];
        out := out + [value];
      }

      i := i + 1;
    }
  }

  /** The step of `distinctBy`: element `i` is kept, and its key remembered, exactly when
      the key is not among the keys seen so far. */
  lemma DistinctByStep<T, K>(src: seq<T>, fn: (T, nat) -> K, i: nat)
    requires i < |src|
    ensures fn(src[i], i) in Stages.Distinct(Mapped(src[..i], fn)) <==> fn(src[i], i) in Mapped(src[..i], fn)
    ensures Stages.DistinctBy(src[..i + 1], fn)
            == Stages.DistinctBy(src[..i], fn) + (if fn(src[i], i) in Mapped(src[..i], fn) then [] else [src[i]])
    ensures Stages.Distinct(Mapped(src[..i + 1], fn))
            == Stages.Distinct(Mapped(src[..i], fn))
               + (if fn(src[i], i) in Mapped(src[..i], fn) then [] else [fn(src[i], i)])
  {
    var keys := Mapped(src[..i], fn);
    var next := Mapped(src[..i + 1], fn);
    assert src[..i + 1][..i] == src[..i];
    assert next[..i] == keys && |next| == i + 1;
    var key := fn(src[i], i);
    assert next[i] == key;
    DistinctMember(keys, key);
  }

  /** `flatMap(fn)`: the arrays `fn` returns, concatenated. */
  method FlatMap<T, U>(src: seq<T>, fn: (T, nat) -> seq<U>) returns (out: seq<U>)
    ensures out == Concat(Mapped(src, fn))
  {
    var i := 0;
    out := [];
    while true
      invariant i <= |src|
      invariant out == Concat(Mapped(src[..i], fn))
      decreases |src| - i
    {
      if i == |src| {
        assert src[..i] == src;
        return;
      }
      var transform := fn(src[i], i);
      assert Mapped(src[..i + 1], fn)[..i] == Mapped(src[..i], fn);
      ghost var before := out;
      for k := 0 to |transform|
        invariant out == before + transform[..k]
      {
        out := out + [transform[k]];
      }
      assert transform[..|transform|] == transform;
      i := i + 1;
    }
  }

  /** `flatten`: the contents of the iterable items, in order; at the first item that is not
      iterable the stage throws "Item is not iterable", after yielding what came before. */
  method Flatten<T>(items: seq<Nested<T>>) returns (out: seq<T>, error: Option<Error>)
    ensures var m := FirstMatch(items, IsNotIterable());
      out == Contents(items[..m])
      && (error.None? <==> m == |items|)
      && (error.Some? ==> error.value == ItemNotIterable)
  {
    ghost var m := FirstMatch(items, IsNotIterable());
    var pos := 0;
    out := [];
    error := None;
    while true
      invariant pos <= m
      invariant out == Contents(items[..pos])
      decreases |items| - pos
    {
      if pos == |items| {
        return;
      }
      assert items[..pos + 1][..pos] == items[..pos];
      match items[pos]
      case NotIterable =>
        assert IsNotIterable()(items[pos], pos);
        error := Some(ItemNotIterable);
        return;
      case Iterable(xs) =>
        assert !IsNotIterable()(items[pos], pos);
        ghost var before := out;
        for k := 0 to |xs|
          invariant out == before + xs[..k]
        {
          out := out + [xs[k]];
        }
        assert xs[..|xs|] == xs;
      pos := pos + 1;
    }
  }

  /** `onEach(fn)`: every element passes through unchanged after `fn` is called on it;
      `calls` records the arguments of those calls, in order. */
  method OnEach<T>(src: seq<T>) returns (out: seq<T>, calls: seq<Indexed<T>>)
    ensures out == src
    ensures calls == Indexing(src)
  {
    var i := 0;
    out := [];
    calls := [];
    while true
      invariant i <= |src|
      invariant out == src[..i] && calls == Indexing(src[..i])
      decreases |src| - i
    {
      if i == |src| {
        assert src[..i] == src;
        return;
      }
      var value := src[i];
      calls := calls + [Indexed(value, i)];
      out := out + [value];
      i := i + 1;
    }
  }

  /** `plus(elements)`: the source, then the extra elements. */
  method Plus<T>(src: seq<T>, elements: seq<T>) returns (out: seq<T>)
    ensures out == src + elements
  {
    out := [];
    for pos := 0 to |src|
      invariant out == src[..pos]
    {
      out := out + [src[pos]];
    }
    for k := 0 to |elements|
      invariant out == src + elements[..k]
    {
      out := out + [elements[k]];
    }
  }

  /** `fold` (the running fold behind `runningFold` and `scan`): the initial value, then the
      accumulator after every element. */
  method RunningFold<T, U>(src: seq<T>, initial: U, fn: (U, T, nat) -> U) returns (out: seq<U>)
    ensures |out| == |src| + 1
    ensures forall k :: 0 <= k <= |src| ==> out[k] == FoldLeft(src[..k], initial, fn)
  {
    var i := 0;
    var acc := initial;
    out := [acc];
    while true
      invariant i <= |src| && |out| == i + 1
      invariant acc == FoldLeft(src[..i], initial, fn)
      invariant forall k :: 0 <= k <= i ==> out[k] == FoldLeft(src[..k], initial, fn)
      decreases |src| - i
    {
      if i == |src| {
        return;
      }
      assert src[..i + 1][..i] == src[..i];
      acc := fn(acc, src[i], i);
      out := out + [acc];
      i := i + 1;
    }
  }

  /** `reduce` (the running reduction behind `runningReduce`): the accumulator after every
      element, seeded by the first one; the callback's index starts at 1. */
  method RunningReduce<T>(src: seq<T>, fn: (T, T, nat) -> T) returns (out: seq<T>)
    ensures |out| == |src|
    ensures forall k :: 0 <= k < |src| ==> out[k] == Reduced(src[..k + 1], fn)
  {
    var i := 0;
    var acc: Option<T> := None;
    out := [];
    while true
      invariant i <= |src| && |out| == i
      invariant 0 < i ==> acc == Some(Reduced(src[..i], fn))
      invariant forall k :: 0 <= k < i ==> out[k] == Reduced(src[..k + 1], fn)
      decreases |src| - i
    {
      if i == |src| {
        return;
      }
      if i == 0 {
        acc := Some(src[i]);
      } else {
        assert src[..i + 1][..i] == src[..i];
        acc := Some(fn(acc.value, src[i], i));
      }
      out := out + [acc.value];
      i := i + 1;
    }
  }

  /** `withIndex`: every element with its position. */
  method WithIndex<T>(src: seq<T>) returns (out: seq<Indexed<T>>)
    ensures out == Indexing(src)
  {
    var index := 0;
    out := [];
    while true
      invariant index <= |src|
      invariant out == Indexing(src[..index])
      decreases |src| - index
    {
      if index == |src| {
        assert src[..index] == src;
        return;
      }
      out := out + [Indexed(src[index], index)];
      index := index + 1;
    }
  }

  /** `zip(other, fn)`: elements at the same position combined, until either side ends. */
  method Zip<T, U, R>(src: seq<T>, other: seq<U>, fn: (T, U, nat) -> R) returns (out: seq<R>)
    ensures |out| == if |src| < |other| then |src| else |other|
    ensures forall k :: 0 <= k < |out| ==> out[k] == fn(src[k], other[k], k)
  {
    var i := 0;
    out := [];
    while true
      invariant i <= |src| && i <= |other| && |out| == i
      invariant forall k :: 0 <= k < i ==> out[k] == fn(src[k], other[k], k)
      decreases |src| - i
    {
      var oneDone := i == |src|;
      var twoDone := i == |other|;
      if oneDone || twoDone {
        return;
      }
      out := out + [fn(src[i], other[i], i)];
      i := i + 1;
    }
  }

  /** `zipWithNext(fn)`: consecutive NON-overlapping pairs (each element is pulled once), the
      callback seeing the pair counter; an odd last element is dropped. */
  method ZipWithNext<T, R>(src: seq<T>, fn: (T, T, nat) -> R) returns (out: seq<R>)
    ensures |out| == |src| / 2
    ensures forall k :: 0 <= k < |out| ==> out[k] == fn(src[2 * k], src[2 * k + 1], k)
  {
    var i := 0;
    var pos := 0;
    out := [];
    while true
      invariant pos == 2 * i <= |src| && |out| == i
      invariant forall k :: 0 <= k < i ==> out[k] == fn(src[2 * k], src[2 * k + 1], k)
      decreases |src| - pos
    {
      if pos == |src| {
        return;
      }
      var one := src[pos];
      pos := pos + 1;
      if pos == |src| {
        return;
      }
      var two := src[pos];
      pos := pos + 1;
      out := out + [fn(one, two, i)];
      i := i + 1;
    }
  }

  /** `minusElement(elem)`: the filter whose callback drops the first element equal to
      `elem` and remembers, in `found`, that it did. */
  method MinusElement<T(==)>(src: seq<T>, elem: T) returns (out: seq<T>)
    ensures out == WithoutFirst(src, elem)
  {
    ghost var m := FirstMatch(src, Is(elem));
    var found := false;
    var i := 0;
    out := [];
    while true
      invariant i <= |src|
      invariant found <==> m < i
      invariant out == if found then src[..m] + src[m + 1..i] else src[..i]
      decreases |src| - i
    {
      if i == |src| {
        return;
      }
      var value := src[i];
      if value == elem && !found {
        assert Is(elem)(value, i);
        assert src[..i] == src[..i] + src[i + 1..i + 1];
        found := true;
      } else {
        assert found || !Is(elem)(value, i);
        SkippedStep(src, m, i, found);
        out := out + [value];
      }
      i := i + 1;
    }
  }

  /** The step of `minusElement` past an element it keeps: before the skipped position `m`
      the output is a plain prefix, after it the prefix without position `m`. */
  lemma SkippedStep<T>(src: seq<T>, m: nat, i: nat, found: bool)
    requires i < |src| && (found ==> m < i)
    ensures found ==> src[..m] + src[m + 1..i] + [src[i]] == src[..m] + src[m + 1..i + 1]
    ensures !found ==> src[..i] + [src[i]] == src[..i + 1]
  {
  }

  /** `_generateSequence(seed, fn)` as far as `n` pulls take it: the seed (a value, or a
      function called once for it) is never yielded; value `k` is `fn(previous, k)`. */
  method GeneratePrefix<T>(seed: Seed<T>, fn: (T, nat) -> T, n: nat) returns (out: seq<T>)
    ensures out == Iterates(Start(seed), fn, n)
  {
    var cur := match seed
      case Supplier(supply) => supply()
      case Value(v) => v;
    var i := 0;
    out := [];
    while i < n
      invariant i <= n
      invariant out == Iterates(Start(seed), fn, i)
      invariant cur == if i == 0 then Start(seed) else out[i - 1]
    {
      cur := fn(cur, i);
      out := out + [cur];
      i := i + 1;
    }
  }

  /** `arrToSequence(arr)`: the array's elements, in order. */
  method ArrToSequence<T>(arr: seq<T>) returns (out: seq<T>)
    ensures out == arr
  {
    out := [];
    for k := 0 to |arr|
      invariant out == arr[..k]
    {
      out := out + [arr[k]];
    }
  }
}
