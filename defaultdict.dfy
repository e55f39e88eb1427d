/** A model of `collections.defaultdict(list)`, the only container
    finddupes.py builds: a map from keys to lists, where a missing key reads
    as the empty list, together with the order in which keys were first
    inserted (the order in which Python iterates a dict). */
module DefaultDict {

  /** No element occurs twice. */
  ghost predicate Distinct<T>(s: seq<T>) {
    forall i, j :: 0 <= i < j < |s| ==> s[i] != s[j]
  }

  /** `keys` holds every key once, in first-insertion order; `lists` holds
      the list stored under each key. */
  datatype Dict<K(==), V> = Dict(keys: seq<K>, lists: map<K, seq<V>>) {

    ghost predicate Valid() {
      && Distinct(keys)
      && (forall k :: k in lists ==> k in keys)
      && (forall k :: k in keys ==> k in lists)
    }

    /** The list under `k`, or the empty list a `defaultdict(list)` supplies. */
    function Get(k: K): seq<V> {
      if k in lists then lists[k] else []
    }

    /** `d[k].append(v)`: a missing key is first inserted with an empty list. */
    function Append(k: K, v: V): (d: Dict<K, V>)
      requires Valid()
      ensures d.Valid()
      ensures d.lists == lists[k := Get(k) + [v]]
      ensures k in lists ==> d.keys == keys
      ensures k !in lists ==> d.keys == keys + [k]
    {
      if k in lists then Dict(keys, lists[k := lists[k] + [v]])
      else
        assert Get(k) + [v] == [v];
        Dict(keys + [k], lists[k := [v]])
    }

    /** Reading `d[k]`: yields the list under `k` and, as `defaultdict` does
        on a read, leaves `k` present, bound to the empty list if it was
        missing. */
    function Subscript(k: K): (r: (seq<V>, Dict<K, V>))
      requires Valid()
      ensures r.1.Valid() && k in r.1.lists
      ensures r.0 == Get(k) && r.1.lists == lists[k := Get(k)]
    {
      if k in lists then (lists[k], this) else ([], Dict(keys + [k], lists[k := []]))
    }

    /** `del d[k]`. Python raises `KeyError` for a missing key, so the key
        must be present. */
    function Delete(k: K): (d: Dict<K, V>)
      requires Valid() && k in lists
      ensures d.Valid()
      ensures d.lists == lists - {k}
    {
      Dict(Without(keys, k), lists - {k})
    }
  }

  /** `s` with every occurrence of `x` removed, order kept. */
  function Without<T(==)>(s: seq<T>, x: T): (r: seq<T>)
    ensures forall y :: y in r ==> y in s && y != x
    ensures forall y :: y in s && y != x ==> y in r
    ensures Distinct(s) ==> Distinct(r)
  {
    if s == [] then []
    else
      var r' := Without(s[..|s| - 1], x);
      var last := s[|s| - 1];
      assert Distinct(s) ==> last !in s[..|s| - 1];
      r' + if last == x then [] else [last]
  }

  /** The dict built by `d = defaultdict(list)` and then
      `d[key(v)].append(v)` for each `v` of `xs` in turn. */
  function Index<K(==), V>(xs: seq<V>, key: V -> K): (d: Dict<K, V>)
    ensures d.Valid()
  {
    if xs == [] then Dict([], map[])
    else Index(xs[..|xs| - 1], key).Append(key(xs[|xs| - 1]), xs[|xs| - 1])
  }

  /** The elements of `xs` whose key is `k`, in their order in `xs`: the
      reference definition of one list of `Index(xs, key)`. */
  function Filed<K(==), V(==)>(xs: seq<V>, key: V -> K, k: K): (ys: seq<V>)
    ensures |ys| <= |xs|
    ensures forall v :: v in ys ==> v in xs && key(v) == k
    ensures forall v :: v in xs && key(v) == k ==> v in ys
  {
    if xs == [] then []
    else
      var last := xs[|xs| - 1];
      assert xs == xs[..|xs| - 1] + [last];
      Filed(xs[..|xs| - 1], key, k) + if key(last) == k then [last] else []
  }

  /** `d.items()`: each key with its list, in iteration order. */
  function Items<K(==), V>(keys: seq<K>, lists: map<K, seq<V>>): seq<(K, seq<V>)> {
    if keys == [] then []
    else
      var k := keys[|keys| - 1];
      Items(keys[..|keys| - 1], lists) + if k in lists then [(k, lists[k])] else []
  }

  /** The lists of `items`, one after another. */
  function Flatten<K, V>(items: seq<(K, seq<V>)>): seq<V> {
    if items == [] then []
    else Flatten(items[..|items| - 1]) + items[|items| - 1].1
  }

  /** Every value stored in `d`, list by list in iteration order. */
  function Members<K(==), V>(d: Dict<K, V>): seq<V> {
    Flatten(Items(d.keys, d.lists))
  }

  lemma FlattenSnoc<K, V>(items: seq<(K, seq<V>)>, item: (K, seq<V>))
    ensures Flatten(items + [item]) == Flatten(items) + item.1
  {
    assert (items + [item])[..|items|] == items;
  }

  /** A value is in the flattening exactly when it is in one of the lists. */
  lemma {:induction false} FlattenMember<K, V>(items: seq<(K, seq<V>)>, v: V)
    ensures v in Flatten(items) <==> exists i :: 0 <= i < |items| && v in items[i].1
  {
    if items != [] {
      var n := |items| - 1;
      FlattenMember(items[..n], v);
      assert items == items[..n] + [items[n]];
      FlattenSnoc(items[..n], items[n]);
      if v in Flatten(items[..n]) {
        var i :| 0 <= i < n && v in items[..n][i].1;
        assert v in items[i].1;
      }
    }
  }

  /** Every list of `Index(xs, key)` is exactly the elements of `xs` with
      that key, in their order in `xs`, and the keys are exactly the keys
      that occur. */
  lemma {:induction false} IndexIsFiled<K, V>(xs: seq<V>, key: V -> K, k: K)
    ensures k in Index(xs, key).lists <==> Filed(xs, key, k) != []
    ensures Index(xs, key).Get(k) == Filed(xs, key, k)
  {
    if xs != [] {
      IndexIsFiled(xs[..|xs| - 1], key, k);
    }
  }

  /** Each element of `xs` is filed under its own key exactly as often as it
      occurs in `xs`, and under no other key. */
  lemma {:induction false} FiledCount<K, V>(xs: seq<V>, key: V -> K, k: K, v: V)
    ensures multiset(Filed(xs, key, k))[v] == if key(v) == k then multiset(xs)[v] else 0
  {
    if xs != [] {
      var n := |xs| - 1;
      FiledCount(xs[..n], key, k, v);
      assert xs == xs[..n] + [xs[n]];
    }
  }

  /** Items only looks at the keys it is given. */
  lemma {:induction false} ItemsFrame<K, V>(keys: seq<K>, lists: map<K, seq<V>>, lists': map<K, seq<V>>)
    requires forall k :: k in keys ==> (k in lists <==> k in lists')
    requires forall k :: k in keys && k in lists ==> lists[k] == lists'[k]
    ensures Items(keys, lists) == Items(keys, lists')
  {
    if keys != [] {
      ItemsFrame(keys[..|keys| - 1], lists, lists');
    }
  }

  /** Appending `v` to the list of a key that occurs once in `keys` adds
      `v` once to the flattened items. */
  lemma {:induction false} ItemsGrow<K, V>(keys: seq<K>, lists: map<K, seq<V>>, k: K, v: V)
    requires Distinct(keys) && k in keys && k in lists
    ensures multiset(Flatten(Items(keys, lists[k := lists[k] + [v]])))
         == multiset(Flatten(Items(keys, lists))) + multiset{v}
  {
    var n := |keys| - 1;
    var grown := lists[k := lists[k] + [v]];
    var last := keys[n];
    var before := Items(keys[..n], lists);
    var after := Items(keys[..n], grown);
    if last == k {
      assert k !in keys[..n];
      ItemsFrame(keys[..n], lists, grown);
      assert Items(keys, lists) == before + [(k, lists[k])];
      assert Items(keys, grown) == before + [(k, lists[k] + [v])];
      FlattenSnoc(before, (k, lists[k]));
      FlattenSnoc(before, (k, lists[k] + [v]));
    } else {
      assert k in keys[..n] by {
        var i :| 0 <= i < |keys| && keys[i] == k;
        assert i != n;
        assert keys[..n][i] == k;
      }
      assert Distinct(keys[..n]);
      ItemsGrow(keys[..n], lists, k, v);
      if last in lists {
        assert Items(keys, lists) == before + [(last, lists[last])];
        assert Items(keys, grown) == after + [(last, lists[last])];
        FlattenSnoc(before, (last, lists[last]));
        FlattenSnoc(after, (last, lists[last]));
      } else {
        assert Items(keys, lists) == before;
        assert Items(keys, grown) == after;
      }
    }
  }

  /** `d[k].append(v)` adds exactly `v` to the values stored in `d`. */
  lemma AppendMembers<K, V>(d: Dict<K, V>, k: K, v: V)
    requires d.Valid()
    ensures multiset(Members(d.Append(k, v))) == multiset(Members(d)) + multiset{v}
  {
    if k in d.lists {
      ItemsGrow(d.keys, d.lists, k, v);
    } else {
      var lists' := d.lists[k := [v]];
      ItemsFrame(d.keys, d.lists, lists');
      assert (d.keys + [k])[..|d.keys|] == d.keys;
      FlattenSnoc(Items(d.keys, lists'), (k, [v]));
    }
  }

  lemma SnocMultiset<T>(xs: seq<T>)
    requires xs != []
    ensures multiset(xs) == multiset(xs[..|xs| - 1]) + multiset{xs[|xs| - 1]}
  {
    assert xs == xs[..|xs| - 1] + [xs[|xs| - 1]];
  }

  /** Filing one more value adds exactly that value to the dict. */
  lemma IndexSnocMembers<K, V>(xs: seq<V>, key: V -> K)
    requires xs != []
    ensures multiset(Members(Index(xs, key)))
         == multiset(Members(Index(xs[..|xs| - 1], key))) + multiset{xs[|xs| - 1]}
  {
    AppendMembers(Index(xs[..|xs| - 1], key), key(xs[|xs| - 1]), xs[|xs| - 1]);
  }

  /** Filing values by key neither loses nor duplicates any of them. */
  lemma {:induction false} IndexMembers<K, V>(xs: seq<V>, key: V -> K)
    ensures multiset(Members(Index(xs, key))) == multiset(xs)
  {
    if xs != [] {
      var n := |xs| - 1;
      IndexSnocMembers(xs, key);
      IndexMembers(xs[..n], key);
      SnocMultiset(xs);
    }
  }
}
