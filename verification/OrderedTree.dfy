// A search tree directed by a comparison function, standing in for libavl's avl_find() and
// avl_add() (which balance it as well).

module OrderedTree {
  import opened Wrappers

  datatype Tree<K, V> = Empty | Node(left: Tree<K, V>, key: K, value: V, right: Tree<K, V>)

  ghost predicate TotalOrder<K(!new)>(cmp: (K, K) -> int) {
    && (forall a, b :: cmp(a, b) == 0 <==> a == b)
    && (forall a, b :: cmp(a, b) < 0 <==> cmp(b, a) > 0)
    && (forall a, b, c :: cmp(a, b) < 0 && cmp(b, c) < 0 ==> cmp(a, c) < 0)
  }

  function Entries<K(==), V(==)>(t: Tree<K, V>): set<(K, V)> {
    match t
    case Empty => {}
    case Node(l, k, v, r) => Entries(l) + {(k, v)} + Entries(r)
  }

  ghost predicate Ordered<K(!new), V(!new)>(cmp: (K, K) -> int, t: Tree<K, V>) {
    match t
    case Empty => true
    case Node(l, k, v, r) =>
      && Ordered(cmp, l) && Ordered(cmp, r)
      && (forall e | e in Entries(l) :: cmp(e.0, k) < 0)
      && (forall e | e in Entries(r) :: cmp(k, e.0) < 0)
  }

  // avl_find()
  function Find<K, V>(cmp: (K, K) -> int, t: Tree<K, V>, key: K): Option<V> {
    match t
    case Empty => None
    case Node(l, k, v, r) =>
      var c := cmp(key, k);
      if c == 0 then Some(v) else if c < 0 then Find(cmp, l, key) else Find(cmp, r, key)
  }

  // avl_add()
  function Add<K, V>(cmp: (K, K) -> int, t: Tree<K, V>, key: K, value: V): Tree<K, V> {
    match t
    case Empty => Node(Empty, key, value, Empty)
    case Node(l, k, v, r) =>
      if cmp(key, k) < 0 then Node(Add(cmp, l, key, value), k, v, r)
      else Node(l, k, v, Add(cmp, r, key, value))
  }

  // In an ordered tree, looking up finds exactly what is stored.
  lemma {:induction false} FindIsExact<K(!new), V(!new)>(cmp: (K, K) -> int, t: Tree<K, V>, key: K)
    requires TotalOrder(cmp) && Ordered(cmp, t)
    ensures forall v :: Find(cmp, t, key) == Some(v) <==> (key, v) in Entries(t)
  {
    match t
    case Empty =>
    case Node(l, k, v, r) =>
      FindIsExact(cmp, l, key);
      FindIsExact(cmp, r, key);
      forall w | (key, w) in Entries(l) ensures cmp(key, k) < 0 {
        assert cmp((key, w).0, k) < 0;
      }
      forall w | (key, w) in Entries(r) ensures cmp(key, k) > 0 {
        assert cmp(k, (key, w).0) < 0;
      }
  }

  lemma {:induction false} AddStores<K(!new), V(!new)>(cmp: (K, K) -> int, t: Tree<K, V>, key: K, value: V)
    ensures Entries(Add(cmp, t, key, value)) == Entries(t) + {(key, value)}
  {
    match t
    case Empty =>
    case Node(l, k, v, r) =>
      if cmp(key, k) < 0 {
        AddStores(cmp, l, key, value);
      } else {
        AddStores(cmp, r, key, value);
      }
  }

  lemma {:induction false} AddKeepsOrder<K(!new), V(!new)>(cmp: (K, K) -> int, t: Tree<K, V>, key: K, value: V)
    requires TotalOrder(cmp) && Ordered(cmp, t) && Find(cmp, t, key).None?
    ensures Ordered(cmp, Add(cmp, t, key, value))
  {
    match t
    case Empty =>
    case Node(l, k, v, r) =>
      if cmp(key, k) < 0 {
        AddKeepsOrder(cmp, l, key, value);
        AddStores(cmp, l, key, value);
      } else {
        AddKeepsOrder(cmp, r, key, value);
        AddStores(cmp, r, key, value);
        assert cmp(k, key) < 0;
      }
  }

  // A tree that maps each key of a list to its position.
  ghost predicate Positions<K(!new)>(entries: set<(K, nat)>, keys: seq<K>) {
    && (forall k: nat | k < |keys| :: (keys[k], k) in entries)
    && (forall e | e in entries :: e.1 < |keys| && keys[e.1] == e.0)
  }

  lemma PositionsSnoc<K(!new)>(entries: set<(K, nat)>, keys: seq<K>, key: K)
    requires Positions(entries, keys)
    ensures Positions(entries + {(key, |keys|)}, keys + [key])
  {
  }

  ghost predicate Indexes<K(!new)>(cmp: (K, K) -> int, t: Tree<K, nat>, keys: seq<K>) {
    Ordered(cmp, t) && Positions(Entries(t), keys)
  }

  // Looking a key up finds its one position, if it is in the list.
  lemma IndexFinds<K(!new)>(cmp: (K, K) -> int, t: Tree<K, nat>, keys: seq<K>, key: K)
    requires TotalOrder(cmp) && Indexes(cmp, t, keys)
    ensures forall k: nat | k < |keys| :: keys[k] == key <==> Find(cmp, t, key) == Some(k)
    ensures Find(cmp, t, key).Some? ==> Find(cmp, t, key).value < |keys|
  {
    FindIsExact(cmp, t, key);
    forall k: nat | k < |keys| ensures keys[k] == key <==> Find(cmp, t, key) == Some(k) {
      assert (keys[k], k) in Entries(t);
      assert Find(cmp, t, key) == Some(k) ==> (key, k) in Entries(t);
    }
    assert Find(cmp, t, key).Some? ==> (key, Find(cmp, t, key).value) in Entries(t);
  }

  lemma IndexAdd<K(!new)>(cmp: (K, K) -> int, t: Tree<K, nat>, keys: seq<K>, key: K)
    requires TotalOrder(cmp) && Indexes(cmp, t, keys) && Find(cmp, t, key).None?
    ensures Indexes(cmp, Add(cmp, t, key, |keys|), keys + [key])
  {
    AddStores(cmp, t, key, |keys|);
    AddKeepsOrder(cmp, t, key, |keys|);
    PositionsSnoc(Entries(t), keys, key);
  }
}
