/** Model of src/maps.rs: a map kept together with its inverse, and the
    dense id assignment built on it. */
module Maps {
  import opened Wrappers

  /** `BiMap`: the forward map and the inverted one. */
  datatype BiMap<K, V> = BiMap(fwd: map<K, V>, inv: map<V, K>)

  function EmptyBiMap<K, V>(): (m: BiMap<K, V>)
    ensures Len(m) == 0 && IsEmpty(m)
  {
    BiMap(map[], map[])
  }

  function Get<K, V>(m: BiMap<K, V>, key: K): Option<V> {
    if key in m.fwd then Some(m.fwd[key]) else None
  }

  function IGet<K, V>(m: BiMap<K, V>, value: V): Option<K> {
    if value in m.inv then Some(m.inv[value]) else None
  }

  function ContainsKey<K, V>(m: BiMap<K, V>, key: K): (b: bool)
    ensures b <==> Get(m, key).Some?
  {
    key in m.fwd
  }

  function ContainsValue<K, V>(m: BiMap<K, V>, value: V): (b: bool)
    ensures b <==> IGet(m, value).Some?
  {
    value in m.inv
  }

  /** `len` counts the forward entries. */
  function Len<K, V>(m: BiMap<K, V>): nat {
    |m.fwd|
  }

  function IsEmpty<K, V>(m: BiMap<K, V>): (b: bool)
    ensures b <==> Len(m) == 0
  {
    m.fwd == map[]
  }

  /** `insert`: returns the value `key` had before. Both directions now
      answer the new pair; every other key and every other value keep what
      they had (an old value of `key`, or an old key of `value`, is left in
      place and can go stale). */
  function Insert<K(!new), V(!new)>(m: BiMap<K, V>, key: K, value: V): (r: (Option<V>, BiMap<K, V>))
    ensures r.0 == Get(m, key)
    ensures Get(r.1, key) == Some(value) && IGet(r.1, value) == Some(key)
    ensures forall k :: k != key ==> Get(r.1, k) == Get(m, k)
    ensures forall v :: v != value ==> IGet(r.1, v) == IGet(m, v)
    ensures Len(r.1) == if ContainsKey(m, key) then Len(m) else Len(m) + 1
  {
    (Get(m, key), BiMap(m.fwd[key := value], m.inv[value := key]))
  }

  /** The two directions agree: each is the inverse of the other. */
  predicate Consistent<K(!new), V(!new)>(m: BiMap<K, V>) {
    && (forall k :: k in m.fwd ==> m.fwd[k] in m.inv && m.inv[m.fwd[k]] == k)
    && (forall v :: v in m.inv ==> m.inv[v] in m.fwd && m.fwd[m.inv[v]] == v)
  }

  /** Inserting a pair whose key and value are both new keeps the two
      directions consistent. */
  lemma InsertFreshConsistent<K(!new), V(!new)>(m: BiMap<K, V>, key: K, value: V)
    requires Consistent(m) && !ContainsKey(m, key) && !ContainsValue(m, value)
    ensures Consistent(Insert(m, key, value).1)
  {
  }

  /** Re-binding a key does not clear its old value from the inverse: the
      source's `insert` leaves that stale entry behind. */
  lemma InsertLeavesStaleInverse<K(!new), V(!new)>(m: BiMap<K, V>, key: K, previous: V, value: V)
    requires Get(m, key) == Some(previous) && IGet(m, previous) == Some(key) && previous != value
    ensures IGet(Insert(m, key, value).1, previous) == Some(key)
    ensures Get(Insert(m, key, value).1, key) == Some(value)
    ensures !Consistent(Insert(m, key, value).1)
  {
    var r := Insert(m, key, value).1;
    assert previous in r.inv && r.inv[previous] == key && r.fwd[key] != previous;
  }

  /** `IdMap`: a BiMap from keys to the ids 0, 1, 2, ... in order of arrival. */
  datatype IdMap<T> = IdMap(m: BiMap<T, nat>)

  /** Ids are dense and both directions agree. */
  predicate Valid<T(!new)>(ids: IdMap<T>) {
    var m := ids.m;
    && Consistent(m)
    && (forall k :: k in m.fwd ==> m.fwd[k] < |m.fwd|)
    && (forall i :: 0 <= i < |m.fwd| ==> i in m.inv)
  }

  function EmptyIdMap<T(!new)>(): (ids: IdMap<T>)
    ensures Valid(ids) && Ids(ids) == {}
  {
    IdMap(EmptyBiMap())
  }

  /** `key`: the key that was given `id`. */
  function Key<T>(ids: IdMap<T>, id: nat): Option<T> {
    IGet(ids.m, id)
  }

  /** `ids`: the range 0..len. */
  function Ids<T>(ids: IdMap<T>): (r: set<nat>)
    ensures forall i: nat :: i in r <==> i < Len(ids.m)
  {
    Below(Len(ids.m))
  }

  /** The naturals below n. */
  function Below(n: nat): (r: set<nat>)
    ensures forall i: nat :: i in r <==> i < n
  {
    if n == 0 then {} else Below(n - 1) + {n - 1}
  }

  /** `id`: a known key keeps its id and the map is unchanged; a new key
      gets the next id, `len` before the call. */
  function Id<T(!new)>(ids: IdMap<T>, t: T): (r: (nat, IdMap<T>))
    requires Valid(ids)
    ensures Valid(r.1)
    ensures Key(r.1, r.0) == Some(t)
    ensures ContainsKey(ids.m, t) ==> r.1 == ids && Get(ids.m, t) == Some(r.0)
    ensures !ContainsKey(ids.m, t) ==> r.0 == Len(ids.m) && Len(r.1.m) == Len(ids.m) + 1
    ensures Ids(r.1) == Ids(ids) + {r.0}
    ensures forall i :: i != r.0 ==> Key(r.1, i) == Key(ids, i)
  {
    match Get(ids.m, t)
    case Some(v) => (v, ids)
    case None =>
      var v := Len(ids.m);
      assert !ContainsValue(ids.m, v);
      var r := IdMap(Insert(ids.m, t, v).1);
      InsertFreshConsistent(ids.m, t, v);
      assert Ids(r) == Ids(ids) + {v};
      (v, r)
  }

  /** Every id in range names a key, and asking for that key's id gives the
      id back. */
  lemma IdOfKey<T(!new)>(ids: IdMap<T>, i: nat)
    requires Valid(ids) && i in Ids(ids)
    ensures Key(ids, i).Some?
    ensures Id(ids, Key(ids, i).value) == (i, ids)
  {
  }

  /** Ids are injective: two keys holding the same id are the same key. */
  lemma IdsInjective<T(!new)>(ids: IdMap<T>, a: T, b: T)
    requires Valid(ids) && ContainsKey(ids.m, a) && ContainsKey(ids.m, b)
    requires Id(ids, a).0 == Id(ids, b).0
    ensures a == b
  {
  }
}
