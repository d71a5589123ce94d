/** What the buffering stages `chunked` and `windowed` yield for a finite upstream `s`.

    Both stages collect elements in a buffer `ls` and hand each full (or, at the end,
    partial) buffer to a transform together with an index. A batch is modelled as the
    pair (buffer contents, index); the stage's output is its transform applied to
    every batch in order. */
module Buffers {

  /** The transform applied to every batch, in order. */
  function Applied<T, U>(ws: seq<(seq<T>, nat)>, fn: (seq<T>, nat) -> U): (r: seq<U>)
    ensures |r| == |ws|
  {
    if ws == [] then [] else [fn(ws[0].0, ws[0].1)] + Applied(ws[1..], fn)
  }

  lemma {:induction false} AppliedAppend<T, U>(a: seq<(seq<T>, nat)>, b: seq<(seq<T>, nat)>,
                                               fn: (seq<T>, nat) -> U)
    ensures Applied(a + b, fn) == Applied(a, fn) + Applied(b, fn)
  {
    if a == [] {
      assert a + b == b;
    } else {
      assert (a + b)[0] == a[0] && (a + b)[1..] == a[1..] + b;
      AppliedAppend(a[1..], b, fn);
      AppendAssoc([fn(a[0].0, a[0].1)], Applied(a[1..], fn), Applied(b, fn));
    }
  }

  /** The concatenation of the batch contents, in order. */
  function Glued<T>(ws: seq<(seq<T>, nat)>): seq<T>
  {
    if ws == [] then [] else ws[0].0 + Glued(ws[1..])
  }

  // ------------------------------------------------------------------
  // chunked
  // ------------------------------------------------------------------

  /** The chunks of `s` when the chunk counter stands at `j`: full chunks of `n`
      elements get the counter as index; a trailing partial chunk gets the number of
      elements it holds (the inner loop counter at the moment the source ran dry). */
  function ChunksFrom<T>(s: seq<T>, n: nat, j: nat): seq<(seq<T>, nat)>
    requires 1 <= n
    decreases |s|
  {
    if s == [] then []
    else if |s| < n then [(s, |s|)]
    else [(s[..n], j)] + ChunksFrom(s[n..], n, j + 1)
  }

  /** The batches of `chunked(n)` over `s`. */
  function Chunks<T>(s: seq<T>, n: nat): seq<(seq<T>, nat)>
    requires 1 <= n
  {
    ChunksFrom(s, n, 0)
  }

  /** The chunks put back together are the source: no element is lost, repeated or moved. */
  lemma {:induction false} ChunksGlueBack<T>(s: seq<T>, n: nat, j: nat)
    requires 1 <= n
    ensures Glued(ChunksFrom(s, n, j)) == s
    decreases |s|
  {
    if |s| >= n {
      ChunksGlueBack(s[n..], n, j + 1);
      assert s == s[..n] + s[n..];
    }
  }

  /** There are ceil(|s| / n) chunks: none for an empty source, otherwise just enough for
      `n` elements per chunk to cover the source. */
  lemma {:induction false} ChunksCount<T>(s: seq<T>, n: nat, j: nat)
    requires 1 <= n
    ensures var cs := ChunksFrom(s, n, j);
      (s == [] <==> cs == []) && (s != [] ==> (|cs| - 1) * n < |s| <= |cs| * n)
    decreases |s|
  {
    if |s| >= n {
      var rs := ChunksFrom(s[n..], n, j + 1);
      ChunksCount(s[n..], n, j + 1);
      MulNext(|rs| - 1, n);
      MulNext(|rs|, n);
    }
  }

  /** Chunk `k` starts at element `o = k * n`: it is the next `n` elements indexed by the
      chunk counter when that many remain, and otherwise the rest of the source indexed by
      its own length. */
  lemma {:induction false} ChunkAt<T>(s: seq<T>, n: nat, j: nat, k: nat, o: nat)
    requires 1 <= n && k < |ChunksFrom(s, n, j)| && o == Times(k, n)
    ensures o < |s|
    ensures ChunksFrom(s, n, j)[k]
            == (if o + n <= |s| then (s[o..o + n], j + k) else (s[o..], |s| - o))
    decreases k
  {
    if k > 0 {
      assert n <= |s|;
      var rest := s[n..];
      var cs := ChunksFrom(rest, n, j + 1);
      assert ChunksFrom(s, n, j) == [(s[..n], j)] + cs;
      ChunkAt(rest, n, j + 1, k - 1, o - n);
      assert ChunksFrom(s, n, j)[k] == cs[k - 1];
      SliceOfRest(s, n, o);
    }
  }

  /** Slices of `s[n..]` are the slices of `s` shifted by `n`. */
  lemma SliceOfRest<T>(s: seq<T>, n: nat, o: nat)
    requires n <= o < |s|
    ensures o + n <= |s| ==> s[n..][o - n..o] == s[o..o + n]
    ensures s[n..][o - n..] == s[o..]
  {
  }

  /** Every chunk but the last holds exactly `n` elements. */
  lemma {:induction false} ChunksAreFullButLast<T>(s: seq<T>, n: nat, j: nat)
    requires 1 <= n
    ensures var cs := ChunksFrom(s, n, j);
      forall k :: 0 <= k < |cs| - 1 ==> |cs[k].0| == n
  {
    var cs := ChunksFrom(s, n, j);
    ChunksCount(s, n, j);
    forall k | 0 <= k < |cs| - 1
      ensures |cs[k].0| == n
    {
      TimesIsMul(k, n);
      ChunkAt(s, n, j, k, k * n);
      MulMonotone(k + 1, |cs| - 1, n);
      MulNext(k, n);
    }
  }

  /** The last chunk holds `|s| mod n` elements, or `n` when `n` divides `|s|`. */
  lemma {:induction false} LastChunkLength<T>(s: seq<T>, n: nat, j: nat)
    requires 1 <= n && s != []
    ensures var cs := ChunksFrom(s, n, j);
      |cs| > 0 && |cs[|cs| - 1].0| == (if |s| % n == 0 then n else |s| % n)
    decreases |s|
  {
    if |s| >= n {
      ModuloStep(|s|, n);
      if |s| == n {
        assert ChunksFrom(s[n..], n, j + 1) == [];
      } else {
        LastChunkLength(s[n..], n, j + 1);
      }
    } else {
      ModuloSmall(|s|, n);
    }
  }

  // ------------------------------------------------------------------
  // arithmetic
  // ------------------------------------------------------------------

  /** `k * n` by repeated addition, which keeps the offsets of consecutive batches linear. */
  function Times(k: nat, n: nat): nat
  {
    if k == 0 then 0 else Times(k - 1, n) + n
  }

  lemma {:induction false} TimesIsMul(k: nat, n: nat)
    ensures Times(k, n) == k * n
  {
    if k > 0 {
      TimesIsMul(k - 1, n);
      MulNext(k - 1, n);
    }
  }

  lemma MulNext(k: int, n: int)
    ensures (k + 1) * n == k * n + n
  {
  }

  lemma MulMonotone(a: int, b: int, n: nat)
    requires a <= b
    ensures a * n <= b * n
  {
    assert b * n - a * n == (b - a) * n;
  }

  lemma MulZero(d: int, n: int)
    requires 1 <= n && -n < n * d < n
    ensures d == 0
  {
    if d >= 1 {
      MulMonotone(1, d, n);
    } else if d <= -1 {
      MulMonotone(d, -1, n);
    }
  }

  lemma ModuloStep(x: int, n: int)
    requires 1 <= n
    ensures (x - n) % n == x % n
  {
    var q1, r1 := (x - n) / n, (x - n) % n;
    var q2, r2 := x / n, x % n;
    assert n * (q2 - q1 - 1) == r1 - r2;
    MulZero(q2 - q1 - 1, n);
  }

  lemma ModuloSmall(x: int, n: int)
    requires 0 <= x < n
    ensures x % n == x
  {
  }

  // ------------------------------------------------------------------
  // windowed
  // ------------------------------------------------------------------

  /** How far the buffer's start moves after a full window: `ls.slice(step)` drops `step`
      elements, or all `size` of them when `step` is at least `size`; no source element is
      ever skipped. */
  function Stride(size: nat, step: nat): (e: nat)
    requires 1 <= size && 1 <= step
    ensures 1 <= e <= size && e <= step
    ensures step <= size ==> e == step
  {
    if step < size then step else size
  }

  /** The windows still to come when the buffer starts at source position `p`: a full
      window is emitted as soon as its last element is pulled, with that element's position
      as index; at the end of the source the leftovers follow when partial windows are asked for. */
  function WindowsFrom<T>(s: seq<T>, size: nat, step: nat, partial: bool, p: nat): seq<(seq<T>, nat)>
    requires 1 <= size && 1 <= step && p <= |s|
    decreases |s| - p
  {
    if p + size <= |s| then
      [(s[p..p + size], p + size - 1)] + WindowsFrom(s, size, step, partial, p + Stride(size, step))
    else if partial then Leftovers(s, p, step)
    else []
  }

  /** The partial windows flushed at the end of the source: the buffer `s[q..]` is emitted
      and slid by `step` while it is longer than `step`, then emitted once more (even when
      empty); every one of them has the source length as index. */
  function Leftovers<T>(s: seq<T>, q: nat, step: nat): seq<(seq<T>, nat)>
    requires 1 <= step && q <= |s|
    decreases |s| - q
  {
    [(s[q..], |s|)] + (if |s| - q > step then Leftovers(s, q + step, step) else [])
  }

  /** The batches of `windowed(size, step, partial)` over `s`. */
  function Windows<T>(s: seq<T>, size: nat, step: nat, partial: bool): seq<(seq<T>, nat)>
    requires 1 <= size && 1 <= step
  {
    WindowsFrom(s, size, step, partial, 0)
  }

  /** Without partial windows, the windows stop exactly when the next one would run past
      the end of the source: `e` being the stride, the buffer then starts at `p + |ws| * e`,
      still inside the source, and fewer than `size` elements remain from there. */
  lemma {:induction false} FullWindowsCount<T>(s: seq<T>, size: nat, step: nat, p: nat)
    requires 1 <= size && 1 <= step && p <= |s|
    ensures var ws := WindowsFrom(s, size, step, false, p); var e := Stride(size, step);
      p + |ws| * e <= |s| < p + |ws| * e + size
    decreases |s| - p
  {
    var e := Stride(size, step);
    if p + size <= |s| {
      var rs := WindowsFrom(s, size, step, false, p + e);
      FullWindowsCount(s, size, step, p + e);
      MulNext(|rs|, e);
    }
  }

  /** Window `k` is the `size` elements starting at `p + o`, where `o = k * e` for the
      stride `e`, indexed by the position of its last element. */
  lemma {:induction false} FullWindowAt<T>(s: seq<T>, size: nat, step: nat, p: nat, k: nat, o: nat)
    requires 1 <= size && 1 <= step && p <= |s|
    requires k < |WindowsFrom(s, size, step, false, p)| && o == Times(k, Stride(size, step))
    ensures p + o + size <= |s|
    ensures WindowsFrom(s, size, step, false, p)[k] == (s[p + o..p + o + size], p + o + size - 1)
    decreases k
  {
    var ws := WindowsFrom(s, size, step, false, p);
    if k > 0 {
      var e := Stride(size, step);
      assert p + size <= |s|;
      var rest := WindowsFrom(s, size, step, false, p + e);
      assert ws == [(s[p..p + size], p + size - 1)] + rest;
      FullWindowAt(s, size, step, p + e, k - 1, o - e);
      assert ws[k] == rest[k - 1];
    }
  }

  /** Every window emitted without partial windows holds exactly `size` elements. */
  lemma FullWindowsHaveSize<T>(s: seq<T>, size: nat, step: nat)
    requires 1 <= size && 1 <= step
    ensures forall w :: w in Windows(s, size, step, false) ==> |w.0| == size
  {
    var ws := Windows(s, size, step, false);
    forall k | 0 <= k < |ws|
      ensures |ws[k].0| == size
    {
      FullWindowAt(s, size, step, 0, k, Times(k, Stride(size, step)));
    }
  }

  /** Where the buffer starts once no full window is left. */
  function FullEnd(s_len: nat, size: nat, step: nat, p: nat): (q: nat)
    requires 1 <= size && 1 <= step && p <= s_len
    ensures p <= q <= s_len < q + size
    decreases s_len - p
  {
    if p + size <= s_len then FullEnd(s_len, size, step, p + Stride(size, step)) else p
  }

  /** The buffer after the last full window starts `e` positions (the stride) after each
      full window's start. */
  lemma {:induction false} FullEndAfterWindows<T>(s: seq<T>, size: nat, step: nat, p: nat)
    requires 1 <= size && 1 <= step && p <= |s|
    ensures FullEnd(|s|, size, step, p) == p + |WindowsFrom(s, size, step, false, p)| * Stride(size, step)
    decreases |s| - p
  {
    var e := Stride(size, step);
    if p + size <= |s| {
      FullEndAfterWindows(s, size, step, p + e);
      MulNext(|WindowsFrom(s, size, step, false, p + e)|, e);
    }
  }

  /** With partial windows, the full windows come first and the leftovers of the buffer
      after the last full window follow them. */
  lemma {:induction false} PartialWindowsExtendFull<T>(s: seq<T>, size: nat, step: nat, p: nat)
    requires 1 <= size && 1 <= step && p <= |s|
    ensures WindowsFrom(s, size, step, true, p)
            == WindowsFrom(s, size, step, false, p) + Leftovers(s, FullEnd(|s|, size, step, p), step)
    decreases |s| - p
  {
    if p + size <= |s| {
      var n := p + Stride(size, step);
      PartialWindowsExtendFull(s, size, step, n);
      PartialWindowsStep(s, size, step, p, n);
    } else {
      PartialWindowsAtEnd(s, size, step, p);
    }
  }

  /** The step of `PartialWindowsExtendFull` past one full window. */
  lemma PartialWindowsStep<T>(s: seq<T>, size: nat, step: nat, p: nat, n: nat)
    requires 1 <= size && 1 <= step && p + size <= |s| && n == p + Stride(size, step)
    requires WindowsFrom(s, size, step, true, n)
      == WindowsFrom(s, size, step, false, n) + Leftovers(s, FullEnd(|s|, size, step, n), step)
    ensures WindowsFrom(s, size, step, true, p)
            == WindowsFrom(s, size, step, false, p) + Leftovers(s, FullEnd(|s|, size, step, p), step)
  {
    var w := (s[p..p + size], p + size - 1);
    var rs := WindowsFrom(s, size, step, false, n);
    var ls := Leftovers(s, FullEnd(|s|, size, step, n), step);
    assert WindowsFrom(s, size, step, false, p) == [w] + rs;
    assert WindowsFrom(s, size, step, true, p) == [w] + (rs + ls);
    AppendAssoc([w], rs, ls);
  }

  lemma AppendAssoc<X>(a: seq<X>, b: seq<X>, c: seq<X>)
    ensures a + (b + c) == (a + b) + c
  {
  }

  /** The base of `PartialWindowsExtendFull`: no full window is left. */
  lemma PartialWindowsAtEnd<T>(s: seq<T>, size: nat, step: nat, p: nat)
    requires 1 <= size && 1 <= step && p <= |s| < p + size
    ensures WindowsFrom(s, size, step, true, p)
            == WindowsFrom(s, size, step, false, p) + Leftovers(s, FullEnd(|s|, size, step, p), step)
  {
    assert WindowsFrom(s, size, step, false, p) == [];
  }

  /** The buffer is slid while it is longer than `step`: the last leftover holds at most
      `step` elements. */
  lemma {:induction false} LeftoversCount<T>(s: seq<T>, q: nat, step: nat)
    requires 1 <= step && q <= |s|
    ensures var ls := Leftovers(s, q, step);
      1 <= |ls| && |s| - (q + (|ls| - 1) * step) <= step
    decreases |s| - q
  {
    if |s| - q > step {
      var rs := Leftovers(s, q + step, step);
      LeftoversCount(s, q + step, step);
      MulNext(|rs| - 1, step);
    }
  }

  /** Leftover `k` is the source from `q + o` on, where `o = k * step`, indexed by the
      source length; every leftover but the last is longer than `step`. */
  lemma {:induction false} LeftoverAt<T>(s: seq<T>, q: nat, step: nat, k: nat, o: nat)
    requires 1 <= step && q <= |s| && k < |Leftovers(s, q, step)| && o == Times(k, step)
    ensures q + o <= |s|
    ensures Leftovers(s, q, step)[k] == (s[q + o..], |s|)
    ensures k < |Leftovers(s, q, step)| - 1 ==> |s| - (q + o) > step
    decreases k
  {
    var ls := Leftovers(s, q, step);
    if k > 0 {
      assert |s| - q > step;
      var rest := Leftovers(s, q + step, step);
      assert ls == [(s[q..], |s|)] + rest;
      LeftoverAt(s, q + step, step, k - 1, o - step);
      assert ls[k] == rest[k - 1];
    }
  }
}
