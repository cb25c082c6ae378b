/**
 Open-addressing hash table with linear probing and tombstones.

 A table of slots represents a finite map when every live key is reachable from its home slot
 without crossing an empty slot. The class below updates the table in place.
 */
module FlatOrderMaps {
  import opened Types
  import opened Bits

  const EMPTY_KEY: u64 := 0
  const TOMBSTONE_KEY: u64 := MAX_U64

  datatype Slot<V> = Slot(key: u64, value: V)

  /** What `find` returns: a null pointer, or a pointer into the table. */
  datatype Pointer = Null | At(slot: nat)

  predicate Legal(key: u64) {
    key != EMPTY_KEY && key != TOMBSTONE_KEY
  }

  /** The slot that the d-th probe for `key` looks at. */
  function Probe(key: u64, d: nat, cap: nat): (slot: nat)
    requires cap > 0
    ensures slot < cap
  {
    (key + d) % cap
  }

  /** Every slot before the d-th probe is occupied or deleted, and holds another key. */
  ghost predicate PathClear<V>(t: seq<Slot<V>>, key: u64, d: nat)
    requires |t| > 0
  {
    forall e: nat {:trigger Probe(key, e, |t|)} | e < d ::
      t[Probe(key, e, |t|)].key != EMPTY_KEY && t[Probe(key, e, |t|)].key != key
  }

  ghost predicate HeldAt<V>(t: seq<Slot<V>>, key: u64, d: nat) {
    d < |t| && t[Probe(key, d, |t|)].key == key
  }

  ghost predicate Reachable<V>(t: seq<Slot<V>>)
    requires |t| > 0
  {
    forall key: u64, d: nat | Legal(key) && HeldAt(t, key, d) :: PathClear(t, key, d)
  }

  /** The live slots of `t` are exactly the entries of `m`. */
  ghost predicate Represents<V>(t: seq<Slot<V>>, m: map<u64, V>)
    requires |t| > 0
  {
    && (forall j | 0 <= j < |t| && Legal(t[j].key) :: t[j].key in m && m[t[j].key] == t[j].value)
    && (forall key: u64 | key in m :: Legal(key) && exists d: nat :: HeldAt(t, key, d))
  }

  /** A deleted slot lies on the probe path of `key`, ahead of the slot that holds it. */
  ghost predicate TombstoneAhead<V>(t: seq<Slot<V>>, key: u64)
    requires |t| > 0
  {
    exists d: nat, e: nat :: e < d && HeldAt(t, key, d) && HeldByTombstone(t, key, e)
  }

  ghost predicate HeldByTombstone<V>(t: seq<Slot<V>>, key: u64, e: nat)
    requires |t| > 0
  {
    t[Probe(key, e, |t|)].key == TOMBSTONE_KEY
  }

  /** `u` is `t` with the key in the first slot of its path that is free, which is the d-th. */
  ghost predicate TakesSlot<V>(t: seq<Slot<V>>, key: u64, value: V, d: nat, u: seq<Slot<V>>) {
    && d < |t| && !Legal(t[Probe(key, d, |t|)].key)
    && (forall e: nat | e < d :: Legal(t[Probe(key, e, |t|)].key) && t[Probe(key, e, |t|)].key != key)
    && u == t[Probe(key, d, |t|) := Slot(key, value)]
  }

  /** `u` is `t` with a tombstone in place of the key of slot s. */
  ghost predicate BuriesSlot<V>(t: seq<Slot<V>>, s: nat, u: seq<Slot<V>>) {
    s < |t| && u == t[s := t[s].(key := TOMBSTONE_KEY)]
  }

  /** Within one lap, different probes look at different slots. */
  lemma ProbeInjective(key: u64, d: nat, e: nat, cap: nat)
    requires d < cap && e < cap
    ensures Probe(key, d, cap) == Probe(key, e, cap) ==> d == e
  {
    if Probe(key, d, cap) == Probe(key, e, cap) {
      if d <= e {
        ModuloInjective(key + d, key + e, cap);
      } else {
        ModuloInjective(key + e, key + d, cap);
      }
    }
  }

  /** One lap of probes looks at every slot. */
  lemma ProbeReaches(key: u64, j: nat, cap: nat) returns (d: nat)
    requires j < cap
    ensures d < cap && Probe(key, d, cap) == j
  {
    var h := key % cap;
    var q := key / cap;
    assert key == q * cap + h;
    if h <= j {
      d := j - h;
      RemainderUnique(key + d, cap, q, j);
    } else {
      d := cap - h + j;
      assert (q + 1) * cap == q * cap + cap;
      RemainderUnique(key + d, cap, q + 1, j);
    }
  }

  /** A live key sits in one slot only. */
  lemma LiveKeysDistinct<V>(t: seq<Slot<V>>, i: nat, j: nat)
    requires |t| > 0 && Reachable(t)
    requires i < |t| && j < |t| && Legal(t[i].key) && t[i].key == t[j].key
    ensures i == j
  {
    var key := t[i].key;
    var d := ProbeReaches(key, i, |t|);
    var e := ProbeReaches(key, j, |t|);
    assert HeldAt(t, key, d) && HeldAt(t, key, e);
    assert PathClear(t, key, d) && PathClear(t, key, e);
  }

  /** If the first n slots are all live, the map has at least n entries. */
  lemma {:induction false} LiveSlotsCounted<V>(t: seq<Slot<V>>, m: map<u64, V>, n: nat) returns (keys: set<u64>)
    requires |t| > 0 && Reachable(t) && Represents(t, m)
    requires n <= |t| && forall j | 0 <= j < n :: Legal(t[j].key)
    ensures keys <= m.Keys && |keys| == n
    ensures forall k | k in keys :: exists j | 0 <= j < n :: t[j].key == k
  {
    if n == 0 {
      keys := {};
    } else {
      var rest := LiveSlotsCounted(t, m, n - 1);
      var k := t[n - 1].key;
      if k in rest {
        var j :| 0 <= j < n - 1 && t[j].key == k;
        LiveKeysDistinct(t, j, n - 1);
        assert false;
      }
      keys := rest + {k};
    }
  }

  lemma SubsetSize<T>(a: set<T>, b: set<T>)
    requires a <= b
    ensures |a| <= |b|
  {
    assert b == a + (b - a);
  }

  /**
   Pigeonhole: while the map is smaller than the table, one lap of probes for any key meets a slot
   that can be taken, however many tombstones there are.
   */
  lemma FreeSlotOnPath<V>(t: seq<Slot<V>>, m: map<u64, V>, key: u64) returns (d: nat)
    requires |t| > 0 && Reachable(t) && Represents(t, m)
    requires |m| < |t|
    ensures d < |t| && !Legal(t[Probe(key, d, |t|)].key)
  {
    assert |m.Keys| == |m|;
    if j: nat :| j < |t| && !Legal(t[j].key) {
      d := ProbeReaches(key, j, |t|);
    } else {
      var keys := LiveSlotsCounted(t, m, |t|);
      SubsetSize(keys, m.Keys);
      assert false;
    }
  }

  /** Taking the first free slot on the path of an absent key adds exactly that key. */
  lemma TakeSlot<V>(t: seq<Slot<V>>, m: map<u64, V>, key: u64, value: V, d: nat)
    requires |t| > 0 && Reachable(t) && Represents(t, m)
    requires Legal(key) && key !in m
    requires d < |t| && !Legal(t[Probe(key, d, |t|)].key)
    requires forall e: nat | e < d :: Legal(t[Probe(key, e, |t|)].key)
    ensures var u := t[Probe(key, d, |t|) := Slot(key, value)];
            Reachable(u) && Represents(u, m[key := value])
  {
    var s := Probe(key, d, |t|);
    var u := t[s := Slot(key, value)];
    forall k: u64, c: nat | Legal(k) && HeldAt(u, k, c)
      ensures PathClear(u, k, c)
    {
      if Probe(k, c, |t|) == s {
        ProbeInjective(k, c, d, |t|);
        forall e: nat | e < c
          ensures u[Probe(k, e, |u|)].key != EMPTY_KEY && u[Probe(k, e, |u|)].key != k
        {
          ProbeInjective(k, e, c, |t|);
          assert Legal(t[Probe(k, e, |t|)].key);
        }
      } else {
        assert HeldAt(t, k, c) && k in m;
        assert PathClear(t, k, c);
      }
    }
    forall k: u64 | k in m[key := value]
      ensures Legal(k) && exists c: nat :: HeldAt(u, k, c)
    {
      if k == key {
        assert HeldAt(u, k, d);
      } else {
        var c: nat :| HeldAt(t, k, c);
        assert HeldAt(u, k, c);
      }
    }
  }

  /** Overwriting a live slot with a tombstone removes exactly its key. */
  lemma BurySlot<V>(t: seq<Slot<V>>, m: map<u64, V>, s: nat)
    requires |t| > 0 && Reachable(t) && Represents(t, m)
    requires s < |t| && Legal(t[s].key)
    ensures var u := t[s := t[s].(key := TOMBSTONE_KEY)];
            Reachable(u) && Represents(u, m - {t[s].key}) && |m - {t[s].key}| == |m| - 1
  {
    var key := t[s].key;
    var u := t[s := t[s].(key := TOMBSTONE_KEY)];
    var m' := m - {key};
    assert m'.Keys == m.Keys - {key} && |m'.Keys| == |m.Keys| - 1;
    forall k: u64, c: nat | Legal(k) && HeldAt(u, k, c)
      ensures PathClear(u, k, c)
    {
      assert HeldAt(t, k, c) && PathClear(t, k, c);
    }
    forall j | 0 <= j < |u| && Legal(u[j].key)
      ensures u[j].key in m' && m'[u[j].key] == u[j].value
    {
      if t[j].key == key {
        LiveKeysDistinct(t, s, j);
      }
    }
    forall k: u64 | k in m'
      ensures Legal(k) && exists c: nat :: HeldAt(u, k, c)
    {
      var c: nat :| HeldAt(t, k, c);
      assert HeldAt(u, k, c);
    }
  }

  /** Changing the value in a live slot changes exactly that entry. */
  lemma RewriteSlot<V>(t: seq<Slot<V>>, m: map<u64, V>, s: nat, value: V)
    requires |t| > 0 && Reachable(t) && Represents(t, m)
    requires s < |t| && Legal(t[s].key)
    ensures var u := t[s := t[s].(value := value)];
            Reachable(u) && Represents(u, m[t[s].key := value]) && |m[t[s].key := value]| == |m|
  {
    var u := t[s := t[s].(value := value)];
    var m' := m[t[s].key := value];
    assert m'.Keys == m.Keys;
    assert |m'.Keys| == |m'| && |m.Keys| == |m|;
    forall k: u64, c: nat | Legal(k) && HeldAt(u, k, c)
      ensures PathClear(u, k, c)
    {
      assert HeldAt(t, k, c) && PathClear(t, k, c);
    }
    forall j | 0 <= j < |u| && Legal(u[j].key)
      ensures u[j].key in m' && m'[u[j].key] == u[j].value
    {
      if t[j].key == t[s].key {
        LiveKeysDistinct(t, s, j);
      }
    }
    forall k: u64 | k in m'
      ensures Legal(k) && exists c: nat :: HeldAt(u, k, c)
    {
      var c: nat :| HeldAt(t, k, c);
      assert HeldAt(u, k, c);
    }
  }

  /** A key is absent when its path meets an empty slot, or a whole lap, without meeting the key. */
  lemma AbsentKey<V>(t: seq<Slot<V>>, m: map<u64, V>, key: u64, d: nat)
    requires |t| > 0 && Reachable(t) && Represents(t, m)
    requires Legal(key) && PathClear(t, key, d)
    requires d >= |t| || t[Probe(key, d, |t|)].key == EMPTY_KEY
    ensures key !in m
  {
    assert forall c: nat | HeldAt(t, key, c) :: PathClear(t, key, c);
    assert forall c: nat | HeldAt(t, key, c) :: c >= d && d < |t|;
  }

  class FlatOrderMap<V> {
    const table: array<Slot<V>>
    var count: nat
    ghost var Model: map<u64, V>

    ghost predicate Valid()
      reads this, table
    {
      && table.Length > 0 && IsPow2(table.Length)
      && Reachable(table[..]) && Represents(table[..], Model)
      && count == |Model| && count * 2 <= table.Length + 1
    }

    constructor (capacity: nat, zero: V)
      requires IsPow2(capacity)
      ensures Valid() && Model == map[] && table.Length == capacity && fresh(table)
    {
      table := new Slot<V>[capacity](_ => Slot(EMPTY_KEY, zero));
      count := 0;
      Model := map[];
    }

    /** The home slot of a key: its low bits. */
    method Home(key: u64) returns (idx: nat)
      requires Valid()
      ensures idx == Probe(key, 0, table.Length)
    {
      idx := And(key, table.Length - 1);
      ghost var n :| table.Length == Pow2(n);
      MaskIsModulo(key, n);
    }

    /** The slot after `idx`, wrapping at the end of the table. */
    method Next(key: u64, idx: nat, ghost d: nat) returns (next: nat)
      requires Valid() && idx == Probe(key, d, table.Length)
      ensures next == Probe(key, d + 1, table.Length)
    {
      next := And(idx + 1, table.Length - 1);
      ghost var n :| table.Length == Pow2(n);
      MaskIsModulo(idx + 1, n);
      ModuloSucc(key + d, table.Length);
    }

    method Find(key: u64) returns (p: Pointer)
      requires Valid()
      ensures p.Null? <==> key !in Model
      ensures p.At? ==> p.slot < table.Length && Legal(key) && table[p.slot] == Slot(key, Model[key])
    {
      if !Legal(key) { return Null; }
      var idx := Home(key);
      for i := 0 to table.Length
        invariant idx == Probe(key, i, table.Length)
        invariant PathClear(table[..], key, i)
      {
        if table[idx].key == EMPTY_KEY {
          AbsentKey(table[..], Model, key, i);
          return Null;
        }
        if table[idx].key == key { return At(idx); }
        idx := Next(key, idx, i);
      }
      AbsentKey(table[..], Model, key, table.Length);
      return Null;
    }

    /**
     Inserting an absent legal key succeeds exactly when less than half the table is live.
     A present key is refused, unless a tombstone lies ahead of it on its path: then a second slot
     gets the key, and the table no longer represents a map.
     */
    method Insert(key: u64, value: V) returns (ok: bool)
      requires Valid()
      modifies this, table
      ensures !ok ==> Valid() && Model == old(Model) && table[..] == old(table[..])
      ensures ok <==> Legal(key) && old(count) * 2 < table.Length &&
                      (key in old(Model) ==> TombstoneAhead(old(table[..]), key))
      ensures ok && key !in old(Model) ==> Valid() && Model == old(Model)[key := value]
      ensures ok && key in old(Model) ==> !Reachable(table[..])
      ensures ok ==> exists d: nat :: TakesSlot(old(table[..]), key, value, d, table[..])
    {
      if !Legal(key) { return false; }
      if count * 2 >= table.Length { return false; }
      var idx := Home(key);
      ghost var t := table[..];
      ghost var free := FreeSlotOnPath(t, Model, key);
      for i := 0 to table.Length
        invariant idx == Probe(key, i, table.Length)
        invariant table[..] == t && Valid() && Model == old(Model) && count == old(count)
        invariant forall e: nat | e < i :: Legal(t[Probe(key, e, |t|)].key) && t[Probe(key, e, |t|)].key != key
      {
        if !Legal(table[idx].key) {
          if key !in Model {
            TakeSlot(t, Model, key, value, i);
          } else {
            DuplicateBeyond(t, Model, key, value, i);
          }
          table[idx] := Slot(key, value);
          count := count + 1;
          Model := Model[key := value];
          assert table[..] == t[idx := Slot(key, value)];
          assert TakesSlot(t, key, value, i, table[..]);
          return true;
        }
        if table[idx].key == key {
          DuplicateMet(t, key, i);
          return false;
        }
        idx := Next(key, idx, i);
      }
      assert false;
    }

    method Erase(key: u64) returns (ok: bool)
      requires Valid()
      modifies this, table
      ensures Valid() && Model == old(Model) - {key}
      ensures ok <==> key in old(Model)
      ensures if ok then exists s: nat :: BuriesSlot(old(table[..]), s, table[..]) && old(table[..])[s].key == key
              else table[..] == old(table[..])
    {
      if !Legal(key) { return false; }
      var idx := Home(key);
      ghost var t := table[..];
      for i := 0 to table.Length
        invariant idx == Probe(key, i, table.Length)
        invariant table[..] == t && Valid() && Model == old(Model)
        invariant PathClear(t, key, i)
      {
        if table[idx].key == EMPTY_KEY {
          AbsentKey(t, Model, key, i);
          return false;
        }
        if table[idx].key == key {
          BurySlot(t, Model, idx);
          table[idx] := table[idx].(key := TOMBSTONE_KEY);
          count := count - 1;
          Model := Model - {key};
          assert BuriesSlot(t, idx, table[..]);
          return true;
        }
        idx := Next(key, idx, i);
      }
      AbsentKey(t, Model, key, table.Length);
      return false;
    }

    /** Assignment through a pointer that `Find` returned. */
    method Write(slot: nat, value: V)
      requires Valid() && slot < table.Length && Legal(table[slot].key)
      modifies this, table
      ensures Valid() && Model == old(Model)[old(table[slot].key) := value]
      ensures count == old(count)
    {
      RewriteSlot(table[..], Model, slot, value);
      ghost var t := table[..];
      Model := Model[table[slot].key := value];
      table[slot] := table[slot].(value := value);
      assert table[..] == t[slot := t[slot].(value := value)];
    }
  }

  /**
   Meeting a free slot before a present key means a tombstone lies ahead of the key. Taking that
   slot would leave the key in two slots of one path.
   */
  lemma DuplicateBeyond<V>(t: seq<Slot<V>>, m: map<u64, V>, key: u64, value: V, i: nat)
    requires |t| > 0 && Reachable(t) && Represents(t, m)
    requires key in m && i < |t| && !Legal(t[Probe(key, i, |t|)].key)
    requires forall e: nat | e < i :: !HeldAt(t, key, e)
    ensures TombstoneAhead(t, key)
    ensures !Reachable(t[Probe(key, i, |t|) := Slot(key, value)])
  {
    var d: nat :| HeldAt(t, key, d);
    assert PathClear(t, key, d);
    assert HeldByTombstone(t, key, i);
    var u := t[Probe(key, i, |t|) := Slot(key, value)];
    ProbeInjective(key, d, i, |t|);
    assert HeldAt(u, key, d) && HeldAt(u, key, i);
  }

  /** Meeting the key before any free slot means no tombstone lies ahead of it. */
  lemma DuplicateMet<V>(t: seq<Slot<V>>, key: u64, i: nat)
    requires |t| > 0 && Reachable(t)
    requires Legal(key) && HeldAt(t, key, i)
    requires forall e: nat | e < i :: Legal(t[Probe(key, e, |t|)].key)
    ensures !TombstoneAhead(t, key)
  {
    forall d: nat, e: nat | e < d && HeldAt(t, key, d)
      ensures !HeldByTombstone(t, key, e)
    {
      LiveKeysDistinct(t, Probe(key, d, |t|), Probe(key, i, |t|));
      ProbeInjective(key, d, i, |t|);
    }
  }
}
