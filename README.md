# Lazy sequences over generators

This project models the core of `index.ts`, a small TypeScript library of Kotlin-style lazy
sequences built on JavaScript generators:

- the generator transformers that `Sequence` chains use (`map`, `filter`, `take`, `chunked`,
  `windowed`, `distinct`, …);
- `generateSequence`;
- the `Sequence(...)` wrapper, with its terminal, collecting and chaining operations;
- `arrToSequence`.

**Producers.** A producer is modelled as the finite sequence of the values it would still yield.

**Transformers.** Each transformer is a method (module `Generators`). Its `while` loop follows the
generator's own loop: the pulls, the counters, and the buffers for chunks, windows and seen
elements. Each method is proved to yield exactly what an independent specification function
computes. The specification functions live in `Stages`, `Buffers`, `Folds` and `JsCollections`,
where their properties are proved as lemmas:

- filters split their source as a multiset;
- `distinct` keeps first occurrences and holds no duplicates;
- the chunks glue back to the source, and every chunk but the last is full;
- windows are the stated slices;
- `reduce` is a fold of the tail;
- `max`/`min` pick the first greatest or least element;
- the last write wins in `associate`;
- `groupBy` collects the values for a key in order;
- `toSet` equals `distinct`.

**The wrapper.** It is the class `Sequences.Sequence`. Its one field, `remaining`, is what the
wrapped generator still yields.

- Terminal operations consume the producer. A `for..of` that exits early also closes the
  generator, so those operations leave `remaining == []`. `first`/`firstOrNull` pull with
  `next()` and leave the unread rest.
- Chaining operations that wrap a new generator around the same producer return the same object
  in the model, with its `remaining` replaced by the transformed values.
- Operations that build `Sequence(...)` of a transformer return a fresh wrapper.

**Errors.** `EmptySequence` ("Empty sequence"), `ElementNotFound`, `NotASingleSequence`,
`NegativeDropSize`, `OutOfBounds`, `NonNumericSequence` and `ItemNotIterable` are values of the error type in
`Outcomes`. Callbacks are pure functions of the element and its index. `Map`, `Set` and arrays
used as targets are the classes `JsMap`, `JsSet` and `JsArray`, which keep insertion order.

**Kept as the code behaves.** These behaviours are modelled exactly as the code has them:

- `maxWith` replaces the current element only when the comparator returns 1 for
  (current, next). So with an ordinary comparator it picks the least element, and `minWith`
  picks the greatest. The test file `index.spec.ts` expects exactly this.
- A partial chunk's index argument is its length, not its ordinal.
- `windowed` with `step > size` empties its buffer, so the windows start `size` apart and no
  element is skipped.
- With partial windows, the buffer left after the last full window is emitted, slid by
  `step` while it is longer than `step`, and then emitted once more. That last emission
  happens even when the buffer is empty. Every partial window gets the source length as its
  index.
- `zipWithNext` pairs disjoint neighbours: (0,1), (2,3), ….
- `generateSequence` yields `fn(seed, 0)` first, never the seed itself.

`Scenarios` derives from the contracts the outcomes that `index.spec.ts` asserts for some
concrete calls.

## Model

| member | source | states |
|---|---|---|
| Stages.Mapped | index.ts:1-12 | the mapped stream has the source's length and holds `fn(x, i)` at each index `i` |
| Stages.FilteredPicksKeptPositions | index.ts:14-24 | the filtered stream lists exactly the elements at the positions where the predicate holds, in increasing order |
| Stages.FilteredStep | index.ts:14-24 | one more source element is appended to the output exactly when the predicate accepts it at its index |
| Stages.KeptAt | index.ts:14-24 | position `k` is kept exactly when the predicate holds for the element at `k` with index `k` |
| Stages.KeptCount | index.ts:14-24 | the filter emits one element per kept position |
| Stages.FilteredAtKept | index.ts:14-24 | the `j`-th emitted element is the source element at the `j`-th kept position |
| Stages.KeptAscending | index.ts:14-24 | kept positions are strictly increasing, so the filter keeps the source order |
| Stages.FilteredMembership | index.ts:14-24 | a value is in the filtered stream iff it occurs in the source at a position where the predicate holds |
| Stages.FilteredSplitsSource | index.ts:1231-1246 | filtering by `fn` and by its negation splits the source as a multiset, and the two lengths add up to the source length |
| Stages.FilteredCongruent | index.ts:14-24 | predicates that agree on every (element, index) of the source filter it identically |
| Stages.Bound | index.ts:26-38 | a count `n` clamped to `0..len`; equal to `n` when `n` is in range |
| Stages.FirstMatch | index.ts:40-55 | the index of the first element that satisfies the predicate, or the length: nothing before it satisfies it, and it satisfies it when it is in range |
| Stages.FirstMatchCongruent | index.ts:128-143 | predicates that agree on the source have the same first match (so `dropWhile(fn)` and the first match of `!fn` agree) |
| Stages.WithoutFirstRemovesOneCopy | index.ts:1171-1181 | removing the first copy of `e` takes exactly one `e` out of the multiset and shortens the stream by one when `e` occurs |
| Stages.DistinctElements | index.ts:81-95 | `distinct` keeps exactly the values of the source |
| Stages.DistinctHasNoDuplicates | index.ts:81-95 | no value occurs twice after `distinct` |
| Stages.DistinctIsFirstOccurrences | index.ts:81-95 | `distinct` is the source filtered to first occurrences |
| Stages.DistinctOfUnique | index.ts:81-95 | a source without repeated values passes `distinct` unchanged |
| Stages.DistinctIdempotent | index.ts:81-95 | applying `distinct` twice gives the same as once |
| Stages.DistinctIgnoresSeen | index.ts:81-95 | values that were all seen earlier add nothing to the output of `distinct` |
| Stages.DistinctByIsFirstKeyOccurrences | index.ts:97-111 | `distinctBy` keeps the elements whose key has not been seen earlier |
| Stages.DistinctByKeysDiffer | index.ts:97-111 | the kept elements have pairwise different keys |
| Stages.DistinctByKeysCovered | index.ts:97-111 | every source element shares its key with a kept element at or before it |
| Stages.ConcatMembership | index.ts:145-157 | a value is in the flattened stream iff it is in one of the inner streams |
| Stages.ConcatLength | index.ts:145-157 | the flattened stream's length is the sum of the inner lengths |
| Stages.AsIterables | index.ts:159-169 | wraps each inner stream as an iterable item, index by index |
| Stages.ContentsOfIterables | index.ts:159-169 | flattening items that are all iterable concatenates them, and no item fails the check |
| Stages.Indexing | index.ts:254-262 | `withIndex` pairs every element with its own index, keeping the length |
| Stages.Iterates | index.ts:293-309 | the first `n` generated values number exactly `n`; the first is `fn(seed, 0)` and each later one is `fn(previous, k)`, so the seed itself is never emitted |
| Stages.IteratesArePrefixes | index.ts:293-309 | taking fewer generated values gives a prefix of taking more |
| Buffers.Applied | index.ts:57-79 | applying the transform to each buffer keeps the count |
| Buffers.AppliedAppend | index.ts:57-79 | applying the transform distributes over concatenation of buffers |
| Buffers.ChunksGlueBack | index.ts:57-79 | gluing the chunks back gives the source |
| Buffers.ChunksCount | index.ts:57-79 | no chunk iff the source is empty; otherwise (count-1)·n < len ≤ count·n, so there are ⌈len/n⌉ chunks |
| Buffers.ChunkAt | index.ts:57-79 | chunk `k` is the slice of at most `n` elements starting at `k*n`; a full chunk has index `j+k`, and the partial last one has its length as index |
| Buffers.ChunksAreFullButLast | index.ts:57-79 | every chunk but the last holds exactly `n` elements |
| Buffers.LastChunkLength | index.ts:57-79 | the last chunk holds `len mod n` elements, or `n` when that is 0 |
| Buffers.TimesIsMul | index.ts:57-79 | the offset of chunk `k` is `k*n` |
| Buffers.Stride | index.ts:221-252 | the distance between window starts is `step`, but never more than `size` |
| Buffers.FullWindowsCount | index.ts:221-252 | the number of full windows is the number of strides that fit before fewer than `size` elements remain |
| Buffers.FullWindowAt | index.ts:221-252 | full window `k` is the `size`-long slice at `p + k*stride`, passed the index of its last element |
| Buffers.FullWindowsHaveSize | index.ts:221-252 | without partial windows every window has exactly `size` elements |
| Buffers.FullEnd | index.ts:221-252 | the position where full windows stop lies within `size` of the end |
| Buffers.FullEndAfterWindows | index.ts:221-252 | that position is the start plus one stride per full window |
| Buffers.PartialWindowsExtendFull | index.ts:221-252 | with partial windows, the output is the full windows followed by the leftover windows |
| Buffers.PartialWindowsAtEnd | index.ts:221-252 | when fewer than `size` elements remain, only leftover windows follow |
| Buffers.LeftoversCount | index.ts:221-252 | there is at least one leftover window, and the last one starts within `step` of the end |
| Buffers.LeftoverAt | index.ts:221-252 | leftover window `k` is the suffix starting `k*step` further on, passed the source length as index; only the last is at most `step` long |
| Folds.ReducedIsFoldOfTail | index.ts:205-219 | reducing is folding the tail from the head, with indices shifted by one |
| Folds.SumAppend | index.ts:1333-1339 | the sum of a concatenation is the sum of the sums |
| Folds.SumIsFold | index.ts:1333-1339 | the sum is the fold of `+` from 0 |
| Folds.SumStep | index.ts:1333-1339 | the running sum grows by each new value |
| Folds.LastMatch | index.ts:761-771 | the index of the last match, or -1: it matches, and nothing after it does |
| Folds.LastMatchIsLastKept | index.ts:668-678 | the last match is the last of the kept positions, and -1 iff there are none |
| Folds.BestIndex | index.ts:868-887 | the position chosen by replacing the current best only when the new key is strictly better is in range |
| Folds.BestIndexStep | index.ts:868-887 | one more key replaces the current best exactly when `better(current, new)` holds |
| Folds.BestIndexIsFirstBest | index.ts:868-887 | under a strict weak order, no key beats the chosen one, and every earlier key is strictly worse |
| Folds.RisesIsStrictWeakOrder | index.ts:849-867 | `>` on keys is a strict weak order |
| Folds.FallsIsStrictWeakOrder | index.ts:1026-1044 | `<` on keys is a strict weak order |
| Folds.MaxIsFirstGreatest | index.ts:849-867 | `max` picks an element at least as large as every other, and strictly larger than those before it |
| Folds.MinIsFirstLeast | index.ts:1026-1044 | `min` picks an element at most as large as every other, and strictly smaller than those before it |
| Folds.MaxWithPicksLeast | index.ts:990-1008 | for a comparator consistent with an order, `maxWith` picks a least element (the first one) |
| Folds.MinWithPicksGreatest | index.ts:1182-1200 | for such a comparator, `minWith` picks a greatest element (the first one) |
| Folds.StripSuffix | index.ts:772-799 | the text is unchanged, or the suffix is removed from its end |
| Folds.JoinedIsInterspersed | index.ts:772-799 | appending each part with a trailing separator is the separator-interspersed join plus one separator |
| Folds.JoinTextUnlimited | index.ts:772-799 | within the limit, `joinTo` writes buffer + prefix + the parts joined by the separator + postfix |
| Folds.JoinTextTruncated | index.ts:772-799 | past the limit, it writes the first `limit` parts, each followed by the separator, then the truncation marker and the postfix |
| Folds.JoinTextComplete | index.ts:772-799 | when the source ends within the limit, the returned text is the accumulated text without one trailing separator, then the postfix |
| Folds.JoinTextCut | index.ts:772-799 | when the limit is reached, the returned text is the accumulated text plus the marker, without one trailing separator, then the postfix |
| Folds.StripSuffixMissing | index.ts:772-799 | a text that does not end with the separator keeps it |
| JsCollections.MapKeys | index.ts:533-542 | the keys of a map, in insertion order |
| JsCollections.Lookup | index.ts:533-542 | `get` finds a value iff the key is present, and the value is stored under that key |
| JsCollections.Put | index.ts:533-542 | `set` appends a new key or keeps the key order, and the key then maps to the new value |
| JsCollections.PutKeepsKeysUnique | index.ts:533-542 | `set` keeps the keys unique |
| JsCollections.PutKeepsOthers | index.ts:533-542 | `set` leaves every other key's value unchanged |
| JsCollections.AssociatedLookup | index.ts:533-542 | after `associateTo`, a key produced by the pairs maps to the value of its last pair; any other key keeps its old value |
| JsCollections.AssociatedKeepsKeys | index.ts:533-542 | `associateTo` keeps the target's keys and their uniqueness |
| JsCollections.GroupedStep | index.ts:727-744 | one more pair appends its value to the key's list, or starts a new list |
| JsCollections.GroupedLast | index.ts:727-744 | the last pair extends its key's list, an absent key counting as an empty list |
| JsCollections.GroupedLookup | index.ts:727-744 | after `groupByTo`, each key maps to its old list followed by the values of its pairs in order; untouched keys keep their lists |
| JsCollections.GroupedKeepsKeys | index.ts:727-744 | `groupByTo` keeps the target's keys |
| JsCollections.Added | index.ts:1360-1366 | `add` makes the value a member and grows the set only when the value is new |
| JsCollections.AddedAllIsDistinct | index.ts:1360-1366 | adding every element to an empty set gives `distinct` of the source, in order |
| JsCollections.JsArray.Push | index.ts:651-658 | `push` appends one element |
| JsCollections.JsMap.Has | index.ts:727-744 | `has` holds iff the key is present |
| JsCollections.JsMap.Set | index.ts:533-542 | `set` updates the entries as `Put` does and keeps the keys unique |
| JsCollections.JsSet.Add | index.ts:1360-1366 | `add` updates the elements as `Added` does |
| Generators.Map | index.ts:1-12 | yields `fn(x, i)` for each element |
| Generators.Filter | index.ts:14-24 | yields the elements that pass the predicate, in order |
| Generators.Take | index.ts:26-38 | yields the first `n` elements (none for a negative `n`, all for an `n` past the length); it pulls `n` times, or the whole source plus the final done pull |
| Generators.TakeWhile | index.ts:40-55 | yields the prefix before the first failing element, and keeps pulling and testing to the end of the source |
| Generators.DropWhile | index.ts:128-143 | yields the suffix from the first failing element on, testing every element |
| Generators.Drop | index.ts:113-126 | yields everything after the first `n` elements |
| Generators.Chunked | index.ts:57-79 | yields the transform of each chunk of `n` |
| Generators.PullChunk | index.ts:65-75 | the inner loop of `chunked` pulls the next `n` elements, or all that remain with fewer than `n` left |
| Generators.YieldLeftovers | index.ts:221-252 | the loop that drains the last buffer yields the leftover windows |
| Generators.Windowed | index.ts:221-252 | yields the transform of each window, full and (optionally) leftover |
| Generators.Distinct | index.ts:81-95 | yields the first occurrence of each value |
| Generators.DistinctBy | index.ts:97-111 | yields the first element for each key |
| Generators.FlatMap | index.ts:145-157 | yields the concatenation of `fn(x, i)` |
| Generators.Flatten | index.ts:159-169 | yields the contents of the leading iterable items; it stops with `ItemNotIterable` at the first item that is not iterable, and with no error when there is none |
| Generators.OnEach | index.ts:171-180 | yields the source unchanged and calls `fn` once per element with its index |
| Generators.Plus | index.ts:182-187 | yields the source followed by the extra elements |
| Generators.RunningFold | index.ts:189-203 | yields `initial` and then each partial fold: one more value than the source |
| Generators.RunningReduce | index.ts:205-219 | yields the reduction of each non-empty prefix |
| Generators.WithIndex | index.ts:254-262 | yields each element with its index |
| Generators.Zip | index.ts:264-277 | yields `fn` of the paired elements up to the shorter length |
| Generators.ZipWithNext | index.ts:279-291 | yields `fn` of disjoint neighbouring pairs (0,1), (2,3), …; an odd last element is dropped |
| Generators.MinusElement | index.ts:1171-1181 | yields the source without the first copy of the element |
| Generators.GeneratePrefix | index.ts:293-309 | yields the first `n` values `fn(prev, i)`, starting from the seed or from the seed function's result |
| Generators.ArrToSequence | index.ts:1407-1411 | yields the array's elements in order |
| Sequences.MappedSelf | index.ts:553-561 | mapping by the identity keeps the stream |
| Sequences.FilteredOfPrefix | index.ts:1295-1314 | filtering a prefix gives a prefix of the filtered stream |
| Sequences.Sequence.constructor | index.ts:468-476 | an array is read through `arrToSequence`, and a generator is used as it is |
| Sequences.Sequence.Next | index.ts:1218 | `next()` returns the head and advances, or reports done on an empty producer |
| Sequences.Sequence.Close | index.ts:480-485 | the close a `for..of` loop performs when it exits early: the current producer has nothing left to yield |
| Sequences.Sequence.ScanFirst | index.ts:659-667 | the shared early-exit loop finds the first match and closes the producer |
| Sequences.Sequence.ScanLast | index.ts:668-678 | the shared full loop finds the last match |
| Sequences.Sequence.ScanBest | index.ts:868-887 | the shared best-so-far loop returns the element at `BestIndex` together with its key |
| Sequences.Sequence.ScanReduce | index.ts:1255-1270 | the shared reduce loop returns the reduction, or nothing for an empty producer |
| Sequences.Sequence.ScanSingle | index.ts:1295-1314 | the shared single loop reports a second match iff at least two elements match; otherwise it returns the only match or nothing |
| Sequences.Sequence.All | index.ts:478-487 | true iff every element satisfies `fn` |
| Sequences.Sequence.Any | index.ts:488-497 | true iff some element satisfies `fn` |
| Sequences.Sequence.NoneMatch | index.ts:1219-1226 | true iff no element satisfies `fn` |
| Sequences.Sequence.Contains | index.ts:577-582 | true iff the value occurs |
| Sequences.Sequence.Count | index.ts:583-593 | the number of elements that satisfy `fn` |
| Sequences.Sequence.ElementAt | index.ts:611-618 | the element at `i`, or `ElementNotFound` for a negative or too large index |
| Sequences.Sequence.ElementAtOrElse | index.ts:619-626 | the element at `i`, or the default |
| Sequences.Sequence.ElementAtOrNull | index.ts:627-634 | the element at `i`, or null |
| Sequences.Sequence.Find | index.ts:659-667 | the first match, present iff some element matches |
| Sequences.Sequence.First | index.ts:679-685 | the first match, or `EmptySequence` when none matches; the elements after it stay unread |
| Sequences.Sequence.FirstOrNull | index.ts:686-692 | the first match or null; the elements after it stay unread |
| Sequences.Sequence.IndexOf | index.ts:745-752 | the first position of the value, or -1 iff it is absent |
| Sequences.Sequence.IndexOfFirst | index.ts:753-760 | the first position that matches, or -1 iff none matches |
| Sequences.Sequence.IndexOfLast | index.ts:761-771 | the last position that matches, or -1 |
| Sequences.Sequence.LastIndexOf | index.ts:816-826 | the last position of the value, or -1 iff it is absent |
| Sequences.Sequence.FindLast | index.ts:668-678 | the last match, present iff some element matches |
| Sequences.Sequence.Last | index.ts:802-815 | the last match, or `ElementNotFound` |
| Sequences.Sequence.LastOrNull | index.ts:827-837 | the last match, or null |
| Sequences.Sequence.Single | index.ts:1295-1314 | the only match; `NotASingleSequence` when two match, `EmptySequence` when none does |
| Sequences.Sequence.SingleOrNull | index.ts:1315-1332 | the only match, or null when none or several match |
| Sequences.Sequence.Fold | index.ts:706-714 | the left fold from `initial` |
| Sequences.Sequence.ForEach | index.ts:715-721 | `fn` is called once per element, with its index, in order |
| Sequences.Sequence.Reduce | index.ts:1255-1270 | the reduction, or `EmptySequence` |
| Sequences.Sequence.ReduceOrNull | index.ts:1271-1284 | the reduction, or null on an empty producer |
| Sequences.Sequence.SumOf | index.ts:1340-1348 | the sum of `fn(x, i)` |
| Sequences.Sequence.Partition | index.ts:1231-1246 | the elements that pass, and those that fail, each in order |
| Sequences.Sequence.ToArray | index.ts:1359 | all remaining elements, in order |
| Sequences.Sequence.JoinTo | index.ts:772-799 | the text `JoinText` describes: buffer, prefix, at most `limit` transformed parts with separators, the truncation marker, postfix |
| Sequences.TrimSeparator | index.ts:794-796 | removes one trailing separator exactly when the text ends with it |
| Sequences.Sequence.JoinToString | index.ts:800-801 | `joinTo` on an empty buffer |
| Sequences.Sequence.AssociateTo | index.ts:533-542 | the target gets a `set` for each pair `fn(x, i)` in order, and keeps its keys unique |
| Sequences.Sequence.Associate | index.ts:498-507 | `associateTo` on a fresh map |
| Sequences.Sequence.AssociateByTo | index.ts:520-532 | `associateTo` with the pairs `(fn(x, i), fn2(x, i))` |
| Sequences.Sequence.AssociateBy | index.ts:508-519 | `associateByTo` on a fresh map |
| Sequences.Sequence.AssociateWithTo | index.ts:553-561 | `associateTo` with the pairs `(x, fn(x, i))` |
| Sequences.Sequence.AssociateWith | index.ts:543-552 | `associateWithTo` on a fresh map |
| Sequences.Sequence.GroupByTo | index.ts:727-744 | each value `fn2(x, i)` is appended to the list of its key `fn(x, i)` |
| Sequences.Sequence.GroupBy | index.ts:723-726 | `groupByTo` on a fresh map |
| Sequences.Sequence.ToSet | index.ts:1360-1366 | a fresh set that receives every element (so it holds `distinct` of them) |
| Sequences.Sequence.PushAll | index.ts:651-658 | the shared loop that pushes every element onto an array |
| Sequences.Sequence.FilterTo | index.ts:651-658 | appends the elements that pass to `xs` and returns `xs` |
| Sequences.Sequence.FilterNotTo | index.ts:643-650 | appends the elements that fail to `xs` and returns `xs` |
| Sequences.Sequence.MapTo | index.ts:842-848 | appends `fn(x, i)` to `xs` and returns `xs` |
| Sequences.Sequence.FlatMapTo | index.ts:697-704 | appends the concatenation of `fn(x, i)` to `xs` and returns `xs` |
| Sequences.Sequence.Distinct | index.ts:594-597 | the same wrapper, now yielding `distinct` of its values |
| Sequences.Sequence.DistinctBy | index.ts:598-601 | the same wrapper, now yielding `distinctBy` of its values |
| Sequences.Sequence.Drop | index.ts:602-606 | `NegativeDropSize` for a negative count; otherwise the same wrapper without its first `n` values |
| Sequences.Sequence.DropWhile | index.ts:607-610 | the same wrapper, from the first failing value on |
| Sequences.Sequence.Filter | index.ts:635-638 | the same wrapper, yielding the values that pass |
| Sequences.Sequence.FilterNot | index.ts:639-642 | the same wrapper, yielding the values that fail |
| Sequences.Sequence.Minus | index.ts:1167-1170 | the same wrapper, without every value in `elements` |
| Sequences.Sequence.MinusElement | index.ts:1171-1181 | the same wrapper, without the first copy of the value |
| Sequences.Sequence.OnEach | index.ts:1227-1230 | the same wrapper, with the same values |
| Sequences.Sequence.Plus | index.ts:1247-1250 | the same wrapper, followed by `elements` |
| Sequences.Sequence.PlusElement | index.ts:1251-1254 | the same wrapper, followed by one value |
| Sequences.Sequence.RunningReduce | index.ts:1290-1293 | the same wrapper, yielding the reduction of each prefix |
| Sequences.Sequence.Take | index.ts:1349-1353 | `OutOfBounds` for a negative count; otherwise the same wrapper, cut to its first `n` values |
| Sequences.Sequence.TakeWhile | index.ts:1354-1357 | the same wrapper, cut before the first failing value |
| Sequences.Sequence.Chunked | index.ts:573-576 | a fresh wrapper that yields the transformed chunks |
| Sequences.Sequence.FlatMap | index.ts:693-696 | a fresh wrapper that yields the concatenated results |
| Sequences.Sequence.Map | index.ts:838-841 | a fresh wrapper that yields `fn(x, i)` |
| Sequences.Sequence.RunningFold | index.ts:1286-1289 | a fresh wrapper that yields `initial` and every partial fold |
| Sequences.Sequence.Scan | index.ts:1294 | the same as `runningFold` |
| Sequences.Sequence.Windowed | index.ts:1378-1386 | a fresh wrapper that yields the transformed windows |
| Sequences.Sequence.WithIndex | index.ts:1387-1390 | a fresh wrapper that yields each value with its index |
| Sequences.Sequence.Zip | index.ts:1391-1394 | a fresh wrapper that yields `fn` of the paired values, up to the shorter length |
| Sequences.Sequence.ZipWithNext | index.ts:1395-1398 | a fresh wrapper that yields `fn` of disjoint neighbouring pairs |
| Sequences.Sequence.MaxBy | index.ts:868-887 | the first element with the greatest key, or `EmptySequence` |
| Sequences.Sequence.MaxByOrNull | index.ts:888-905 | the first element with the greatest key, or null |
| Sequences.Sequence.MinBy | index.ts:1045-1064 | the first element with the least key, or `EmptySequence` |
| Sequences.Sequence.MinByOrNull | index.ts:1065-1082 | the first element with the least key, or null |
| Sequences.Sequence.MaxOf | index.ts:906-925 | the greatest key, or `EmptySequence` |
| Sequences.Sequence.MaxOfOrNull | index.ts:926-943 | the greatest key, or null |
| Sequences.Sequence.MinOf | index.ts:1083-1102 | the least key, or `EmptySequence` |
| Sequences.Sequence.MinOfOrNull | index.ts:1103-1120 | the least key, or null |
| Sequences.Sequence.MaxOfWithOrNull | index.ts:952-972 | the key kept by replacing the current key when `comp(current, key) === 1` (as `maxWith` does), or null |
| Sequences.Sequence.MaxOfWith | index.ts:944-951 | the same key, or `EmptySequence` |
| Sequences.Sequence.MinOfWithOrNull | index.ts:1129-1149 | the key kept by replacing the current key when `comp(current, key) === -1`, or null |
| Sequences.Sequence.MinOfWith | index.ts:1121-1128 | the same key, or `EmptySequence` |
| Sequences.Sequence.MaxWith | index.ts:990-1008 | the element kept by replacing the current one when `comp(current, next) == 1`, or `EmptySequence` |
| Sequences.Sequence.MaxWithOrNull | index.ts:1009-1025 | the same element, or null |
| Sequences.Sequence.MinWith | index.ts:1182-1200 | the element kept by replacing the current one when `comp(current, next) == -1`, or `EmptySequence` |
| Sequences.Sequence.MinWithOrNull | index.ts:1201-1217 | the same element, or null |
| Sequences.GenerateSequence | index.ts:463-466 | a fresh wrapper over the generated values |
| Sequences.Max | index.ts:849-867 | the first greatest number, or `EmptySequence` |
| Sequences.MaxOrNull | index.ts:973-989 | the first greatest number, or null |
| Sequences.Min | index.ts:1026-1044 | the first least number, or `EmptySequence` |
| Sequences.MinOrNull | index.ts:1150-1166 | the first least number, or null |
| Sequences.Sum | index.ts:1333-1339 | the sum of the numbers |
| Sequences.Average | index.ts:562-572 | `NonNumericSequence` when a value is not a number; otherwise the sum divided by the count, which is NaN for no values |
| Sequences.Flatten | index.ts:705 | a fresh wrapper over the flattened contents; the error of the first item that is not iterable |
| Sequences.Unzip | index.ts:1367-1377 | the two components of every pair, index by index |
| Scenarios.ChunkedPartial | index.spec.ts:329-333 | `[0, 1, 2]` in chunks of 2 is `[[0, 1], [2]]` |
| Scenarios.WindowedPartial | index.spec.ts:2462-2471 | 1..10 in partial windows of 5, step 3, ends with `[7..10]` and `[10]` |
| Scenarios.DistinctRepeated | index.spec.ts:413-417 | `distinct` of `[0, 1, 2, 0, 1, 2]` is `[0, 1, 2]` |
| Scenarios.GenerateWithIndex | index.spec.ts:2700-2704 | the first five values of `x + i` from 0 are `[0, 1, 3, 6, 10]` |
| Scenarios.MaxWithSwap | index.spec.ts:1515-1519 | `maxWith` over `[0, 1, 2, -1]` is -1 |
| Scenarios.MinWithAscending | index.spec.ts:1804-1808 | `minWith` over `[0, 1, 2]` is 2 |
| Scenarios.JoinToAll | index.spec.ts:1133-1138 | the fully parameterised `joinTo` gives `"result: [1,2,|]"` |
| Scenarios.SingleWithIndex | index.spec.ts:2232-2236 | the single element with `x*x - i != 0` in `[0, 1, 2]` is 2 |
| Scenarios.AverageNumbers | index.spec.ts:307-311 | the average of `[0, 1, 2]` is 1 |
| Scenarios.DropNegative | index.spec.ts:447-450 | `drop(-1)` fails with the negative drop size error |
| Scenarios.ElementAtNegative | index.spec.ts:509-512 | `elementAt(-1)` fails with element not found |

## Left out

- Laziness and interleaving: each producer is the finite list of what it still yields, so the model does not capture when a value is computed or how pulls through a chain interleave. `Generators.Take` and `Generators.TakeWhile` count the pulls and callback calls separately.
- Aliasing: a wrapper from `map`, `chunked` and the like shares the producer with the original in the code. In the model the original keeps its values; the code would let both draw from one generator.
- Infinite generators: `generateSequence` is modelled through its first `n` values (what `take(n)` asks for). An unbounded producer has no finite model here.
- `generator`, `throw`, `return` and `[Symbol.iterator]` hand out or forward to the raw generator. They are not modelled. `return` is bound once, to the generator the wrapper was built on (index.ts:1285); after an in-place chaining operation it closes that original producer, not the current chain. `Sequences.Sequence.Close` models only the close a `for..of` early exit performs on the current producer.
- Callback side effects: the `onEach`/`forEach` callbacks return nothing. The model records the (element, index) arguments they receive and leaves out their effects.
- Sequences.Sequence.OnEach: does not record the callback calls, because the wrapper only installs the transformer; `Generators.OnEach` records them.
- The null-or-element ambiguity: the `...OrNull` operations return `null` as a value, so a sequence that holds `null` cannot be told apart from an empty one. The model returns an `Option`.
- Sequences.Sequence.MaxOfWith: the code also reports "Empty sequence" when the chosen key is `null`. Keys in the model are never null; `MinOfWith` is the same.
- Keys of `maxBy`/`minBy`/`maxOf`/`minOf` and the numbers of `max`/`min`/`sum` are integers. JavaScript numbers (floating point, `NaN`, mixed types compared with `>`) are not modelled. Counts and positions (`take`, `drop`, `elementAt`, `limit`, `chunked`, `windowed`) are integers too: the code compares a loop counter with the count, so `take(2.5)` yields 3 elements; a non-integer count is not modelled.
- Sequences.Average: divides as real numbers, not IEEE doubles. An empty sequence gives `NaN` as the code does.
- `joinTo` converts each part with `+=`. The model asks the transform to return the text directly, so there is no string conversion of arbitrary values.
- Generators.Chunked and Generators.Windowed: require `n >= 1` and `size, step >= 1`; other values are not modelled. For them the code behaves as follows. `chunked` with `n <= 0` yields `fn([], j)` forever. `windowed` with `size <= 0` never fills a window, so it yields nothing, or only the leftover windows when partial windows are asked for. `windowed` with `step <= 0` slices from the end of the buffer, or not at all, and with partial windows its drain loop does not finish on a non-empty buffer.
- `flatten`'s error is thrown lazily, once the non-iterable item is reached. The model returns it as a separate out-value beside the values yielded before it.
- Values compare with Dafny equality everywhere. The code uses SameValueZero for `Map`/`Set` keys and for the `includes` checks of `minus`, `distinct` and `distinctBy`. It uses `===` in `indexOf`, `contains`, `lastIndexOf` and `minusElement`, where `NaN` never equals itself. Object identity and `NaN` are not modelled.
- Default arguments (`fn = () => true`, the identity transforms, `step = 1`, `partial = false`) are passed explicitly by the caller.
- The type-level helpers and the `Functions<T>` interface are declarations only and have nothing to verify.
