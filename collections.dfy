/** The JavaScript containers the terminal operations fill: arrays, `Map`s and `Set`s.
    A `Map` or `Set` iterates in insertion order, so each is modelled by the sequence of
    its entries in that order; keys and elements are compared with Dafny equality. */
module JsCollections {
  import opened Outcomes
  import opened Stages
  import opened Folds

  // ------------------------------------------------------------------
  // Map entries
  // ------------------------------------------------------------------

  /** The keys of the entries, in insertion order. */
  function MapKeys<K, V>(entries: seq<(K, V)>): (ks: seq<K>)
    ensures |ks| == |entries|
    ensures forall j :: 0 <= j < |entries| ==> ks[j] == entries[j].0
  {
    seq(|entries|, j requires 0 <= j < |entries| => entries[j].0)
  }

  /** No key occurs twice, as in every `Map`. */
  predicate UniqueKeys<K(==), V>(entries: seq<(K, V)>)
  {
    forall a, b :: 0 <= a < b < |entries| ==> entries[a].0 != entries[b].0
  }

  /** `map.get(k)`: the value stored under `k`, or `None` when `map.has(k)` is false. */
  function Lookup<K(==), V>(entries: seq<(K, V)>, k: K): (r: Option<V>)
    ensures r.None? <==> k !in MapKeys(entries)
    ensures r.Some? ==> (k, r.value) in entries
  {
    if entries == [] then None
    else if entries[0].0 == k then Some(entries[0].1)
    else Lookup(entries[1..], k)
  }

  /** `map.set(k, v)`: an existing key keeps its place and gets the new value; a new key
      goes last. */
  function Put<K(==), V>(entries: seq<(K, V)>, k: K, v: V): (r: seq<(K, V)>)
    ensures MapKeys(r) == if k in MapKeys(entries) then MapKeys(entries) else MapKeys(entries) + [k]
    ensures Lookup(r, k) == Some(v)
  {
    if entries == [] then [(k, v)]
    else if entries[0].0 == k then
      PutAtFront(entries, k, v);
      [(k, v)] + entries[1..]
    else
      var rest := Put(entries[1..], k, v);
      PutBehindFront(entries, k, v, rest);
      [entries[0]] + rest
  }

  /** The keys of a non-empty map: the first key, then the keys of the other entries. */
  lemma MapKeysSplit<K, V>(entries: seq<(K, V)>)
    requires entries != []
    ensures MapKeys(entries) == [entries[0].0] + MapKeys(entries[1..])
  {
  }

  /** Setting the first key replaces its value in place. */
  lemma PutAtFront<K, V>(entries: seq<(K, V)>, k: K, v: V)
    requires entries != [] && entries[0].0 == k
    ensures k in MapKeys(entries)
    ensures MapKeys([(k, v)] + entries[1..]) == MapKeys(entries)
    ensures Lookup([(k, v)] + entries[1..], k) == Some(v)
  {
    MapKeysSplit(entries);
    MapKeysSplit([(k, v)] + entries[1..]);
    assert ([(k, v)] + entries[1..])[1..] == entries[1..];
  }

  /** Setting a key other than the first one leaves the first entry in front of the rest
      of the map after the set. */
  lemma PutBehindFront<K, V>(entries: seq<(K, V)>, k: K, v: V, rest: seq<(K, V)>)
    requires entries != [] && entries[0].0 != k
    requires MapKeys(rest) == if k in MapKeys(entries[1..]) then MapKeys(entries[1..]) else MapKeys(entries[1..]) + [k]
    requires Lookup(rest, k) == Some(v)
    ensures MapKeys([entries[0]] + rest) == if k in MapKeys(entries) then MapKeys(entries) else MapKeys(entries) + [k]
    ensures Lookup([entries[0]] + rest, k) == Some(v)
  {
    var r := [entries[0]] + rest;
    MapKeysSplit(r);
    assert r[1..] == rest;
    KeysBehindFront(entries, k, MapKeys(rest));
  }

  /** The key list of a map whose first key is not `k`, after `k` is set behind it. */
  lemma KeysBehindFront<K, V>(entries: seq<(K, V)>, k: K, ks: seq<K>)
    requires entries != [] && entries[0].0 != k
    requires ks == if k in MapKeys(entries[1..]) then MapKeys(entries[1..]) else MapKeys(entries[1..]) + [k]
    ensures [entries[0].0] + ks == if k in MapKeys(entries) then MapKeys(entries) else MapKeys(entries) + [k]
  {
    MapKeysSplit(entries);
    var head, tail := entries[0].0, MapKeys(entries[1..]);
    if k in tail {
      assert k in [head] + tail;
    } else {
      assert k !in [head] + tail;
      assert [head] + (tail + [k]) == ([head] + tail) + [k];
    }
  }

  /** Keys stay unique under `map.set`. */
  lemma PutKeepsKeysUnique<K, V>(entries: seq<(K, V)>, k: K, v: V)
    requires UniqueKeys(entries)
    ensures UniqueKeys(Put(entries, k, v))
  {
    var r := Put(entries, k, v);
    var ks := MapKeys(r);
    var old_ks := MapKeys(entries);
    forall a, b | 0 <= a < b < |r|
      ensures r[a].0 != r[b].0
    {
      assert r[a].0 == ks[a] && r[b].0 == ks[b];
      assert ks[a] == old_ks[a] == entries[a].0;
      if b < |entries| {
        assert ks[b] == old_ks[b] == entries[b].0;
      } else {
        assert ks[b] == k && k !in old_ks;
      }
    }
  }

  /** `map.set(k, v)` leaves the value of every other key as it was. */
  lemma {:induction false} PutKeepsOthers<K, V>(entries: seq<(K, V)>, k: K, v: V, other: K)
    requires other != k
    ensures Lookup(Put(entries, k, v), other) == Lookup(entries, other)
  {
    if entries != [] && entries[0].0 != k {
      PutKeepsOthers(entries[1..], k, v, other);
    }
  }

  /** The entries after `map.set(k, v)` for every pair, in order. */
  function Associated<K(==), V>(entries: seq<(K, V)>, pairs: seq<(K, V)>): seq<(K, V)>
  {
    if pairs == [] then entries
    else
      var last := pairs[|pairs| - 1];
      Put(Associated(entries, pairs[..|pairs| - 1]), last.0, last.1)
  }

  /** One more pair is one more `map.set`. */
  lemma AssociatedStep<K, V>(entries: seq<(K, V)>, pairs: seq<(K, V)>, i: nat, a: seq<(K, V)>)
    requires i < |pairs| && a == Associated(entries, pairs[..i])
    ensures Associated(entries, pairs[..i + 1]) == Put(a, pairs[i].0, pairs[i].1)
  {
    var ps := pairs[..i + 1];
    assert ps[..|ps| - 1] == pairs[..i];
    assert ps[|ps| - 1] == pairs[i];
  }

  /** The callback recognising the pairs whose key is `k`. */
  function HasKey<K(==), V>(k: K): ((K, V), nat) -> bool
  {
    (pair: (K, V), i: nat) => pair.0 == k
  }

  /** After associating, a key holds the value of its LAST pair (a repeated key is
      overwritten), and keys no pair mentions keep their old value. */
  lemma {:induction false} AssociatedLookup<K, V>(entries: seq<(K, V)>, pairs: seq<(K, V)>, k: K)
    ensures var m := LastMatch(pairs, HasKey(k));
      Lookup(Associated(entries, pairs), k) == if m >= 0 then Some(pairs[m].1) else Lookup(entries, k)
  {
    if pairs != [] {
      var init := pairs[..|pairs| - 1];
      AssociatedLookup(entries, init, k);
      var last := pairs[|pairs| - 1];
      if last.0 != k {
        PutKeepsOthers(Associated(entries, init), last.0, last.1, k);
        assert !HasKey(k)(pairs[|pairs| - 1], |pairs| - 1);
        LastMatchOfPrefix(pairs, HasKey(k));
      }
    }
  }

  /** When the last element does not match, the last match lies in the prefix. */
  lemma LastMatchOfPrefix<T>(s: seq<T>, p: (T, nat) -> bool)
    requires s != [] && !p(s[|s| - 1], |s| - 1)
    ensures LastMatch(s, p) == LastMatch(s[..|s| - 1], p)
  {
  }

  /** Associating only adds keys: the old keys stay first, in their order. */
  lemma {:induction false} AssociatedKeepsKeys<K, V>(entries: seq<(K, V)>, pairs: seq<(K, V)>)
    ensures MapKeys(entries) <= MapKeys(Associated(entries, pairs))
    ensures UniqueKeys(entries) ==> UniqueKeys(Associated(entries, pairs))
  {
    if pairs != [] {
      var init := pairs[..|pairs| - 1];
      AssociatedKeepsKeys(entries, init);
      var a := Associated(entries, init);
      var last := pairs[|pairs| - 1];
      assert MapKeys(a) <= MapKeys(Put(a, last.0, last.1));
      if UniqueKeys(entries) {
        PutKeepsKeysUnique(a, last.0, last.1);
      }
    }
  }

  // ------------------------------------------------------------------
  // groupBy
  // ------------------------------------------------------------------

  /** The values of the pairs with key `k`, in order. */
  function ValuesFor<K(==), V>(pairs: seq<(K, V)>, k: K): seq<V>
  {
    if pairs == [] then []
    else
      var last := pairs[|pairs| - 1];
      ValuesFor(pairs[..|pairs| - 1], k) + (if last.0 == k then [last.1] else [])
  }

  /** The entries after appending every pair's value to its key's list: an existing list is
      replaced by a copy with the value at its end, a new key gets a one-value list. */
  function Grouped<K(==), V>(entries: seq<(K, seq<V>)>, pairs: seq<(K, V)>): seq<(K, seq<V>)>
  {
    if pairs == [] then entries
    else
      var g := Grouped(entries, pairs[..|pairs| - 1]);
      var (k, v) := pairs[|pairs| - 1];
      match Lookup(g, k)
      case Some(vs) => Put(g, k, vs + [v])
      case None => Put(g, k, [v])
  }

  /** One more pair: its value is appended to its key's list, or starts a new list. */
  lemma GroupedStep<K, V>(entries: seq<(K, seq<V>)>, pairs: seq<(K, V)>, i: nat,
                          g: seq<(K, seq<V>)>, k: K, v: V)
    requires i < |pairs| && pairs[i] == (k, v) && g == Grouped(entries, pairs[..i])
    ensures Lookup(g, k).Some? ==> Grouped(entries, pairs[..i + 1]) == Put(g, k, Lookup(g, k).value + [v])
    ensures Lookup(g, k).None? ==> Grouped(entries, pairs[..i + 1]) == Put(g, k, [v])
  {
    var ps := pairs[..i + 1];
    assert ps[..|ps| - 1] == pairs[..i];
    assert ps[|ps| - 1] == (k, v);
  }

  /** A key's list, or the empty list when the key is absent. */
  function OrEmpty<V>(o: Option<seq<V>>): seq<V>
  {
    match o
    case Some(vs) => vs
    case None => []
  }

  /** A key's lookup after `vs` were appended to its list: unchanged when `vs` is empty. */
  function Extended<V>(o: Option<seq<V>>, vs: seq<V>): Option<seq<V>>
  {
    if vs == [] then o else Some(OrEmpty(o) + vs)
  }

  /** The last pair of a grouping appends its value to its key's list, absent or not. */
  lemma GroupedLast<K, V>(entries: seq<(K, seq<V>)>, pairs: seq<(K, V)>)
    requires pairs != []
    ensures var g := Grouped(entries, pairs[..|pairs| - 1]);
            var last := pairs[|pairs| - 1];
            Grouped(entries, pairs) == Put(g, last.0, OrEmpty(Lookup(g, last.0)) + [last.1])
  {
    var g := Grouped(entries, pairs[..|pairs| - 1]);
    var (k, v) := pairs[|pairs| - 1];
    match Lookup(g, k)
    case Some(vs) =>
      assert Grouped(entries, pairs) == Put(g, k, vs + [v]);
    case None =>
      assert OrEmpty(Lookup(g, k)) + [v] == [v];
      assert Grouped(entries, pairs) == Put(g, k, [v]);
  }

  /** Appending one more value to a key's list extends the list by it. */
  lemma ExtendedStep<V>(o: Option<seq<V>>, vs: seq<V>, v: V)
    ensures Extended(o, vs + [v]) == Some(OrEmpty(Extended(o, vs)) + [v])
  {
    if vs == [] {
      assert OrEmpty(o) + ([] + [v]) == OrEmpty(o) + [v];
    } else {
      assert OrEmpty(o) + (vs + [v]) == (OrEmpty(o) + vs) + [v];
    }
  }

  /** After grouping, a key's list is its old list (empty when it was absent) followed by
      the values of its pairs in encounter order; keys without pairs are untouched. */
  lemma {:induction false} GroupedLookup<K, V>(entries: seq<(K, seq<V>)>, pairs: seq<(K, V)>, k: K)
    ensures Lookup(Grouped(entries, pairs), k) == Extended(Lookup(entries, k), ValuesFor(pairs, k))
  {
    if pairs != [] {
      var init := pairs[..|pairs| - 1];
      GroupedLookup(entries, init, k);
      GroupedLast(entries, pairs);
      var g := Grouped(entries, init);
      var last := pairs[|pairs| - 1];
      var list := OrEmpty(Lookup(g, last.0)) + [last.1];
      var grouped := Put(g, last.0, list);
      assert Grouped(entries, pairs) == grouped;
      if last.0 == k {
        assert ValuesFor(pairs, k) == ValuesFor(init, k) + [last.1];
        ExtendedStep(Lookup(entries, k), ValuesFor(init, k), last.1);
        assert Lookup(grouped, k) == Some(list);
      } else {
        assert ValuesFor(pairs, k) == ValuesFor(init, k);
        PutKeepsOthers(g, last.0, list, k);
        assert Lookup(grouped, k) == Lookup(g, k);
      }
    }
  }

  /** Grouping only adds keys: the old keys stay first, in their order. */
  lemma {:induction false} GroupedKeepsKeys<K, V>(entries: seq<(K, seq<V>)>, pairs: seq<(K, V)>)
    ensures MapKeys(entries) <= MapKeys(Grouped(entries, pairs))
  {
    if pairs != [] {
      GroupedKeepsKeys(entries, pairs[..|pairs| - 1]);
    }
  }

  // ------------------------------------------------------------------
  // Set
  // ------------------------------------------------------------------

  /** `set.add(x)`: a new element goes last, an existing one changes nothing. */
  function Added<T(==)>(elems: seq<T>, x: T): (r: seq<T>)
    ensures x in r && elems <= r
    ensures |r| == if x in elems then |elems| else |elems| + 1
  {
    if x in elems then elems else elems + [x]
  }

  /** The set after adding every element, in order. */
  function AddedAll<T(==)>(elems: seq<T>, s: seq<T>): seq<T>
  {
    if s == [] then elems else Added(AddedAll(elems, s[..|s| - 1]), s[|s| - 1])
  }

  /** A set filled from a sequence iterates like `distinct` over it: first occurrences in
      source order. */
  lemma {:induction false} AddedAllIsDistinct<T>(s: seq<T>)
    ensures AddedAll([], s) == Distinct(s)
  {
    if s != [] {
      var init := s[..|s| - 1];
      AddedAllIsDistinct(init);
      DistinctElements(init);
    }
  }

  // ------------------------------------------------------------------
  // The containers
  // ------------------------------------------------------------------

  /** A caller's array, which the `*To` operations push onto. */
  class JsArray<T> {
    var items: seq<T>

    constructor (items: seq<T>)
      ensures this.items == items
    {
      this.items := items;
    }

    /** `xs.push(x)`. */
    method Push(x: T)
      modifies this
      ensures items == old(items) + [x]
    {
      items := items + [x];
    }
  }

  /** A `Map`: its entries in insertion order, keys unique. */
  class JsMap<K(==), V> {
    var entries: seq<(K, V)>

    ghost predicate Valid()
      reads this
    {
      UniqueKeys(entries)
    }

    /** `new Map()`. */
    constructor ()
      ensures entries == [] && Valid()
    {
      entries := [];
    }

    /** `map.has(k)`. */
    function Has(k: K): (r: bool)
      reads this
      ensures r <==> k in MapKeys(entries)
    {
      Lookup(entries, k).Some?
    }

    /** `map.get(k)`, `None` standing for `undefined`. */
    function Get(k: K): Option<V>
      reads this
    {
      Lookup(entries, k)
    }

    /** `map.set(k, v)`. */
    method Set(k: K, v: V)
      requires Valid()
      modifies this
      ensures entries == Put(old(entries), k, v) && Valid()
    {
      PutKeepsKeysUnique(entries, k, v);
      entries := Put(entries, k, v);
    }
  }

  /** A `Set`: its elements in insertion order. */
  class JsSet<T(==)> {
    var elems: seq<T>

    /** `new Set()`. */
    constructor ()
      ensures elems == []
    {
      elems := [];
    }

    /** `set.add(x)`. */
    method Add(x: T)
      modifies this
      ensures elems == Added(old(elems), x)
    {
      elems := Added(elems, x);
    }
  }
}
