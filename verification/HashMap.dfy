/** The open-addressing hash map: linear probing with wrap-around, growth at a
  * load of four fifths, and removal by tombstone. */
module HashMap {
  import opened Bytes

  type Key = seq<byte>

  /** A slot; a tombstone keeps its (dangling) key pointer and has removed set. */
  datatype Entry<+V> = Entry(removed: bool, key: Option<Key>, value: Option<V>) {
    predicate Live() { key.Some? && !removed }
    predicate IsEmpty() { !removed && key.None? && value.None? }
  }

  /** The slots probed from home before slot s, wrapping around at the end. */
  predicate OnPath(home: nat, t: nat, s: nat) {
    if home <= s then home <= t < s else t >= home || t < s
  }

  /** A table whose live slots store exactly m, each key at pos[key], with no
    * empty slot on the probe path from its home. */
  ghost predicate Stores<V>(es: seq<Entry<V>>, m: map<Key, V>, pos: map<Key, nat>, hash: Key -> nat)
  {
    && |es| > 0 && pos.Keys == m.Keys
    && (forall k | k in m :: pos[k] < |es| && es[pos[k]] == Entry(false, Some(k), Some(m[k])))
    && (forall i | 0 <= i < |es| && es[i].Live() :: es[i].key.value in m && pos[es[i].key.value] == i)
    && (forall i | 0 <= i < |es| && es[i].key.None? :: es[i].IsEmpty())
    && (forall k, t | k in m && 0 <= t < |es| && OnPath(hash(k) % |es|, t, pos[k]) :: es[t].key.Some?)
  }

  /** Slots with a key that has not been removed. */
  function LiveCount<V>(es: seq<Entry<V>>): (n: nat)
    ensures n <= |es|
  {
    if es == [] then 0 else (if es[0].Live() then 1 else 0) + LiveCount(es[1..])
  }

  lemma {:induction false} LiveUpdate<V>(es: seq<Entry<V>>, i: nat, e: Entry<V>)
    requires i < |es|
    ensures LiveCount(es[i := e]) + (if es[i].Live() then 1 else 0) == LiveCount(es) + if e.Live() then 1 else 0
  {
    if i == 0 {
      assert es[i := e][1..] == es[1..];
    } else {
      LiveUpdate(es[1..], i - 1, e);
      assert es[i := e][1..] == es[1..][i - 1 := e];
    }
  }

  lemma {:induction false} LiveSnoc<V>(es: seq<Entry<V>>, i: nat)
    requires i < |es|
    ensures LiveCount(es[..i + 1]) == LiveCount(es[..i]) + if es[i].Live() then 1 else 0
  {
    if i == 0 {
      assert es[..1][1..] == [];
    } else {
      LiveSnoc(es[1..], i - 1);
      assert es[..i + 1][1..] == es[1..][..i] && es[..i][1..] == es[1..][..i - 1];
    }
  }

  ghost predicate HasFreeSlot<V>(es: seq<Entry<V>>) {
    exists i :: 0 <= i < |es| && es[i].key.None?
  }

  ghost predicate NoTombstones<V>(es: seq<Entry<V>>) {
    forall i | 0 <= i < |es| :: !es[i].removed
  }

  /** Without tombstones, a table that is not full has a free slot. */
  lemma {:induction false} FreeSlotExists<V>(es: seq<Entry<V>>)
    requires NoTombstones(es) && LiveCount(es) < |es|
    ensures HasFreeSlot(es)
  {
    if es[0].key.Some? {
      FreeSlotExists(es[1..]);
      var i :| 0 <= i < |es[1..]| && es[1..][i].key.None?;
      assert es[i + 1].key.None?;
    }
  }

  lemma {:induction false} EmptyStores<V>(es: seq<Entry<V>>, hash: Key -> nat)
    requires |es| > 0 && forall i | 0 <= i < |es| :: es[i].IsEmpty()
    ensures Stores(es, map[], map[], hash) && LiveCount(es) == 0 && NoTombstones(es)
  {
    EmptyCount(es);
  }

  lemma {:induction false} EmptyCount<V>(es: seq<Entry<V>>)
    requires forall i | 0 <= i < |es| :: es[i].IsEmpty()
    ensures LiveCount(es) == 0
  {
    if es != [] { EmptyCount(es[1..]); }
  }

  /** Inserting a new key at the first empty slot of its probe path. */
  lemma {:induction false} InsertStores<V>(es: seq<Entry<V>>, m: map<Key, V>, pos: map<Key, nat>, hash: Key -> nat,
          key: Key, value: V, j: nat)
    requires Stores(es, m, pos, hash) && key !in m
    requires j < |es| && es[j].key.None?
    requires forall t | 0 <= t < |es| && OnPath(hash(key) % |es|, t, j) :: es[t].key.Some?
    ensures Stores(es[j := Entry(false, Some(key), Some(value))], m[key := value], pos[key := j], hash)
  {
  }

  /** Leaving a tombstone keeps every other probe path unbroken. */
  lemma {:induction false} RemoveStores<V>(es: seq<Entry<V>>, m: map<Key, V>, pos: map<Key, nat>, hash: Key -> nat,
          key: Key)
    requires Stores(es, m, pos, hash) && key in m
    ensures Stores(es[pos[key] := Entry(true, Some(key), None)], m - {key}, pos - {key}, hash)
  {
  }

  /** An absent key: probing reached an empty slot, or came all the way round. */
  lemma {:induction false} AbsentKey<V>(es: seq<Entry<V>>, m: map<Key, V>, pos: map<Key, nat>, hash: Key -> nat,
          key: Key, j: nat)
    requires Stores(es, m, pos, hash) && j < |es| && es[j].key.None?
    requires forall t | 0 <= t < |es| && OnPath(hash(key) % |es|, t, j) :: !(es[t].Live() && es[t].key == Some(key))
    ensures key !in m
  {
    if key in m {
      assert !OnPath(hash(key) % |es|, pos[key], j);
      assert pos[key] != j;
      assert OnPath(hash(key) % |es|, j, pos[key]);
    }
  }

  lemma {:induction false} PositionsInside<V>(es: seq<Entry<V>>, m: map<Key, V>, pos: map<Key, nat>, hash: Key -> nat)
    requires Stores(es, m, pos, hash)
    ensures |es| > 0 && pos.Keys == m.Keys && forall k | k in m :: pos[k] < |es|
  {
  }

  class HashMap<V> {
    var occupied: nat
    var entries: array<Entry<V>>
    const hash: Key -> nat

    /** The plain map this table refines, and where it keeps each key. */
    ghost var M: map<Key, V>
    ghost var pos: map<Key, nat>

    ghost predicate Valid()
      reads this, entries
    {
      Stores(entries[..], M, pos, hash) && occupied == LiveCount(entries[..])
    }

    predicate Overloaded()
      reads this
    {
      5 * occupied >= 4 * entries.Length
    }

    ghost predicate Clean()
      reads this, entries
    {
      NoTombstones(entries[..])
    }

    /** elems + elems * (1 - 0.8) slots. */
    constructor (elems: nat, hash: Key -> nat)
      requires elems > 0
      ensures Valid() && Clean() && fresh(entries) && M == map[] && this.hash == hash
      ensures entries.Length == elems + elems / 5
    {
      this.hash := hash;
      occupied := 0;
      entries := new Entry<V>[elems + elems / 5](_ => Entry(false, None, None));
      M, pos := map[], map[];
      new;
      EmptyStores(entries[..], hash);
    }

    /** M holds what the first i old slots held. */
    ghost predicate Copied(m: map<Key, V>, p: map<Key, nat>, i: nat)
      requires p.Keys == m.Keys
      reads this
    {
      && (forall k :: k in M <==> k in m && p[k] < i)
      && (forall k :: k in M ==> M[k] == m[k])
    }

    method Reset(len: nat)
      requires len > 0
      modifies this
      ensures Valid() && Clean() && fresh(entries) && entries.Length == len && M == map[] && occupied == 0
    {
      occupied := 0;
      entries := new Entry<V>[len](_ => Entry(false, None, None));
      M, pos := map[], map[];
      EmptyStores(entries[..], hash);
    }

    /** Doubles the table and adds every entry again; none of these additions
      * resizes in turn, which is what makes the recursion end. */
    method Resize()
      requires Valid() && Clean()
      modifies this
      ensures Valid() && Clean() && fresh(entries) && M == old(M)
      ensures entries.Length == 2 * old(entries.Length) && occupied == old(occupied)
      decreases 1
    {
      var oldEntries := entries;
      ghost var es, m, p := entries[..], M, pos;
      PositionsInside(es, m, p, hash);
      Reset(2 * oldEntries.Length);
      hide Stores, Copied;
      StartCopy(m, p);
      for i := 0 to oldEntries.Length
        invariant Valid() && Clean() && fresh(entries) && entries.Length == 2 * |es|
        invariant oldEntries[..] == es && occupied == LiveCount(es[..i]) <= i && Copied(m, p, i)
      {
        LiveSnoc(es, i);
        if oldEntries[i].key.Some? {
          ReAdd(es, m, p, i, oldEntries[i]);
        } else {
          SkipEmpty(es, m, p, i);
        }
      }
      assert es[..oldEntries.Length] == es;
      EndCopy(m, p, oldEntries.Length);
    }

    lemma {:induction false} StartCopy(m: map<Key, V>, p: map<Key, nat>)
      requires p.Keys == m.Keys && M == map[]
      ensures Copied(m, p, 0)
    {
    }

    lemma {:induction false} EndCopy(m: map<Key, V>, p: map<Key, nat>, n: nat)
      requires p.Keys == m.Keys && Copied(m, p, n) && forall k | k in m :: p[k] < n
      ensures M == m
    {
    }

    lemma {:induction false} SkipEmpty(es: seq<Entry<V>>, m: map<Key, V>, p: map<Key, nat>, i: nat)
      requires Stores(es, m, p, hash) && i < |es| && es[i].key.None? && Copied(m, p, i)
      ensures Copied(m, p, i + 1)
    {
    }

    /** One step of the loop of Resize. */
    method ReAdd(ghost es: seq<Entry<V>>, ghost m: map<Key, V>, ghost p: map<Key, nat>, ghost i: nat, e: Entry<V>)
      requires Valid() && Clean() && 5 * i < 4 * entries.Length && occupied <= i
      requires Stores(es, m, p, hash) && i < |es| && es[i] == e && e.Live() && Copied(m, p, i)
      modifies this, entries
      ensures Valid() && Clean() && occupied == old(occupied) + 1 && entries == old(entries)
      ensures Copied(m, p, i + 1)
      decreases 0, 1
    {
      var key := e.key.value;
      assert key in m && p[key] == i;
      Add(key, e.value.value);
    }

    /** The two probe loops of hashmap_add: they end at the first empty slot of the
      * probe path, or, when there is none, back at the home slot. */
    method Probe(home: nat) returns (j: nat, looped: bool)
      requires home < entries.Length
      ensures j < entries.Length
      ensures HasFreeSlot(entries[..]) <==> !looped || j != home
      ensures HasFreeSlot(entries[..]) <==> entries[j].key.None?
      ensures HasFreeSlot(entries[..]) ==>
        forall t | 0 <= t < entries.Length && OnPath(home, t, j) :: entries[t].key.Some?
    {
      j := home;
      while j < entries.Length && entries[j].key.Some?
        invariant home <= j <= entries.Length
        invariant forall t | home <= t < j :: entries[t].key.Some?
      {
        j := j + 1;
      }
      looped := j == entries.Length;
      if looped {
        j := 0;
        while j < home && entries[j].key.Some?
          invariant 0 <= j <= home
          invariant forall t | 0 <= t < j :: entries[t].key.Some?
        {
          j := j + 1;
        }
      }
      if entries[j].key.None? {
        assert entries[..][j].key.None?;
      }
    }

    /** hashmap_add once the load is low enough: its assertions hold if and only if
      * the table has a free slot, and then the key is added. */
    method AddWithoutResize(key: Key, value: V) returns (ok: bool)
      requires Valid() && !Overloaded() && key !in M
      modifies this`occupied, this`M, this`pos, entries
      ensures Valid() && (old(Clean()) ==> Clean())
      ensures ok <==> old(HasFreeSlot(entries[..]))
      ensures ok ==> M == old(M)[key := value] && occupied == old(occupied) + 1
      ensures !ok ==> M == old(M) && occupied == old(occupied) && entries[..] == old(entries[..])
    {
      var home := hash(key) % entries.Length;
      var j, looped := Probe(home);
      ok := (!looped || j != home) && entries[j].key == None && entries[j].value.None?;
      if ok {
        Store(j, key, value);
      }
    }

    /** hashmap_add. After a removal the caller must not need a resize and must
      * leave a free slot; without one, both come for free. */
    method Add(key: Key, value: V)
      requires Valid() && key !in M
      requires Clean() || (!Overloaded() && HasFreeSlot(entries[..]))
      modifies this, entries
      ensures Valid() && M == old(M)[key := value] && occupied == old(occupied) + 1
      ensures old(Clean()) ==> Clean()
      ensures if 5 * old(occupied) >= 4 * old(entries.Length)
              then fresh(entries) && entries.Length == 2 * old(entries.Length)
              else entries == old(entries)
      decreases if Overloaded() then 2 else 0, 0
    {
      if 5 * occupied >= 4 * entries.Length {
        Resize();
      }
      if Clean() { FreeSlotExists(entries[..]); }
      var ok := AddWithoutResize(key, value);
      assert ok;
    }

    method Store(j: nat, key: Key, value: V)
      requires Valid() && key !in M && j < entries.Length && entries[j].key.None?
      requires forall t | 0 <= t < entries.Length && OnPath(hash(key) % entries.Length, t, j) :: entries[t].key.Some?
      modifies this`occupied, this`M, this`pos, entries
      ensures Valid() && M == old(M)[key := value] && occupied == old(occupied) + 1
      ensures old(Clean()) ==> Clean()
    {
      var e := Entry(false, Some(key), Some(value));
      LiveUpdate(entries[..], j, e);
      InsertStores(entries[..], M, pos, hash, key, value, j);
      entries[j] := e;
      assert entries[..] == old(entries[..])[j := e];
      occupied := occupied + 1;
      M, pos := M[key := value], pos[key := j];
    }

    /** hashmap_get_index: the slot of the key, or the table length. It stops
      * even when no slot is empty. */
    method GetIndex(key: Key) returns (j: nat)
      requires Valid()
      ensures if key in M then j == pos[key] else j == entries.Length
    {
      var home := hash(key) % entries.Length;
      j := home;
      while j < entries.Length && (entries[j].removed || (entries[j].key.Some? && entries[j].key.value != key))
        invariant home <= j <= entries.Length
        invariant forall t | home <= t < j :: !(entries[t].Live() && entries[t].key == Some(key))
      {
        j := j + 1;
      }
      var looped := j == entries.Length;
      if looped {
        j := 0;
        while j < home && (entries[j].removed || (entries[j].key.Some? && entries[j].key.value != key))
          invariant 0 <= j <= home
          invariant forall t | 0 <= t < j :: !(entries[t].Live() && entries[t].key == Some(key))
        {
          j := j + 1;
        }
      }
      if looped && j == home {
        j := entries.Length;
      } else if entries[j].key.None? {
        AbsentKey(entries[..], M, pos, hash, key, j);
        j := entries.Length;
      }
    }

    method Get(key: Key) returns (v: Option<V>)
      requires Valid()
      ensures v == if key in M then Some(M[key]) else None
    {
      var i := GetIndex(key);
      if i == entries.Length {
        v := None;
      } else {
        v := entries[i].value;
      }
    }

    /** Hides the key and leaves every other lookup as it was. */
    method Remove(key: Key) returns (v: Option<V>)
      requires Valid()
      modifies this, entries
      ensures Valid() && M == old(M) - {key} && entries == old(entries)
      ensures entries[..] == if key !in old(M) then old(entries[..])
                             else old(entries[..])[old(pos)[key] := Entry(true, Some(key), None)]
      ensures v == if key in old(M) then Some(old(M)[key]) else None
    {
      var i := GetIndex(key);
      if i == entries.Length {
        assert M == M - {key};
        return None;
      }
      v := entries[i].value;
      ghost var e := Entry(true, Some(key), None);
      LiveUpdate(entries[..], i, e);
      RemoveStores(entries[..], M, pos, hash, key);
      entries[i] := Entry(true, entries[i].key, None);
      assert entries[..] == old(entries[..])[i := e];
      occupied := occupied - 1;
      M, pos := M - {key}, pos - {key};
    }
  }

  /** A run that comes to a failing assertion: a table made for one element, a key
    * added and removed again, and any key added. No slot is free although the count is
    * zero. */
  method AddRemoveAdd<V>(hash: Key -> nat, first: Key, v: V, second: Key, w: V) returns (ok: bool)
    ensures !ok
  {
    var hm := new HashMap<V>(1, hash);
    hm.Add(first, v);
    var _ := hm.Remove(first);
    assert hm.entries[..] == [Entry(true, Some(first), None)];
    assert hm.occupied == LiveCount([Entry<V>.Entry(true, Some(first), None)]) == 0 by {
      OneTombstone<V>(first);
    }
    ok := hm.AddWithoutResize(second, w);
  }

  lemma {:induction false} OneTombstone<V>(key: Key)
    ensures var es: seq<Entry<V>> := [Entry(true, Some(key), None)];
      LiveCount(es) == 0 && !HasFreeSlot(es)
  {
    var es: seq<Entry<V>> := [Entry(true, Some(key), None)];
    assert es[1..] == [];
  }

  /** The same entries in a plain map. */
  function PlainMap<V>(kvs: seq<(Key, V)>): map<Key, V> {
    if kvs == [] then map[] else PlainMap(kvs[..|kvs| - 1])[kvs[|kvs| - 1].0 := kvs[|kvs| - 1].1]
  }

  lemma {:induction false} PlainKeys<V>(kvs: seq<(Key, V)>)
    ensures forall k :: k in PlainMap(kvs) <==> exists i :: 0 <= i < |kvs| && kvs[i].0 == k
  {
    if kvs != [] {
      PlainKeys(kvs[..|kvs| - 1]);
    }
  }

  /** Any run of additions with distinct keys, through every resize, and then a
    * lookup: the answer of the plain map. */
  method AddAllThenGet<V>(elems: nat, hash: Key -> nat, kvs: seq<(Key, V)>, key: Key) returns (v: Option<V>)
    requires elems > 0
    requires forall i, j | 0 <= i < j < |kvs| :: kvs[i].0 != kvs[j].0
    ensures v == if key in PlainMap(kvs) then Some(PlainMap(kvs)[key]) else None
  {
    var hm := new HashMap<V>(elems, hash);
    for i := 0 to |kvs|
      invariant fresh(hm) && fresh(hm.entries) && hm.Valid() && hm.Clean()
      invariant hm.M == PlainMap(kvs[..i])
    {
      PlainKeys(kvs[..i]);
      hm.Add(kvs[i].0, kvs[i].1);
      assert kvs[..i + 1][..i] == kvs[..i];
    }
    assert kvs[..|kvs|] == kvs;
    v := hm.Get(key);
  }
}
