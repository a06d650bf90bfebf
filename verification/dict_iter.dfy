/** Iteration over the hash table, during which the caller may delete each entry it was given. */
module DictIter {
  import opened Dict
  import opened Word32
  import opened MachineInts

  /** The entries slot by slot. */
  ghost function Flat<K, V>(chains: seq<seq<Entry<K, V>>>): seq<Entry<K, V>> {
    if chains == [] then [] else chains[0] + Flat(chains[1..])
  }

  /** Converted to int, the size of a larger table is not positive. */
  lemma SizeAsInt<K, V>(d: Dict<K, V>)
    requires d.Valid()
    ensures if d.size <= TWO31 / 2 then Wrap32(d.size) == d.size else d.size >= TWO31 && Wrap32(d.size) <= 0
  {
    hide Placed, Linked, Indexed, Pow2;
    if d.size > 0 {
      PowerAsInt(d.exponent);
    }
  }

  lemma PowerAsInt(e: nat)
    ensures if Pow2(e) <= TWO31 / 2 then Wrap32(Pow2(e)) == Pow2(e) else Pow2(e) >= TWO31 && Wrap32(Pow2(e)) <= 0
  {
    Pow62();
    if e <= 30 {
      Pow2Monotonic(e, 30);
    } else if e > 31 {
      Pow2Monotonic(32, e);
      var k := Turns(e);
      Multiple(k);
    }
  }

  lemma {:induction false} Turns(e: nat) returns (k: nat)
    requires e >= 32
    ensures Pow2(e) == TWO32 * k
  {
    Pow32();
    if e == 32 {
      k := 1;
    } else {
      k := Turns(e - 1);
      k := 2 * k;
    }
  }

  lemma Multiple(k: nat)
    ensures Wrap32(TWO32 * k) == 0
  {
    assert (TWO32 * k + TWO31) % TWO32 == TWO31;
  }

  // ----- every entry appears once

  ghost predicate Apart<K, V>(chains: seq<seq<Entry<K, V>>>) {
    forall a, b, c, d ::
      && 0 <= a < |chains| && 0 <= b < |chains[a]| && 0 <= c < |chains| && 0 <= d < |chains[c]|
      && chains[a][b] == chains[c][d] ==>
        a == c && b == d
  }

  ghost predicate NoRepeats<T>(s: seq<T>) {
    forall p, q :: 0 <= p < q < |s| ==> s[p] != s[q]
  }

  lemma {:induction false} FlatHas<K, V>(chains: seq<seq<Entry<K, V>>>, e: Entry<K, V>)
    ensures e in Flat(chains) <==> exists i :: 0 <= i < |chains| && e in chains[i]
  {
    if chains != [] {
      var rest := chains[1..];
      FlatHas(rest, e);
      assert forall i :: 0 <= i < |rest| ==> rest[i] == chains[i + 1];
      if i :| 0 <= i < |chains| && e in chains[i] {
        assert i > 0 ==> e in rest[i - 1];
      }
    }
  }

  lemma {:induction false} FlatDistinct<K, V>(chains: seq<seq<Entry<K, V>>>)
    requires Apart(chains)
    ensures NoRepeats(Flat(chains))
  {
    if chains != [] {
      var rest := chains[1..];
      assert forall i :: 0 <= i < |rest| ==> rest[i] == chains[i + 1];
      FlatDistinct(rest);
      forall b | 0 <= b < |chains[0]| ensures chains[0][b] !in Flat(rest) {
        FlatHas(rest, chains[0][b]);
      }
    }
  }

  lemma FlatIsAll<K, V>(chains: seq<seq<Entry<K, V>>>, all: set<Entry<K, V>>, hash: K -> word)
    requires Placed(chains, all, hash)
    ensures NoRepeats(Flat(chains))
    ensures forall i :: 0 <= i < |Flat(chains)| ==> Flat(chains)[i] in all
    ensures forall e :: e in all ==> e in Flat(chains)
  {
    Distinct(chains, all, hash);
    FlatDistinct(chains);
    forall i | 0 <= i < |Flat(chains)| ensures Flat(chains)[i] in all {
      FlatHas(chains, Flat(chains)[i]);
    }
    forall e | e in all ensures e in Flat(chains) {
      FlatHas(chains, e);
    }
  }

  /** An entry, if there is one, and what comes after it. */
  ghost function Pending<K, V>(he: Entry?<K, V>, todo: seq<Entry<K, V>>): seq<Entry<K, V>> {
    if he == null then [] else [he] + todo
  }

  class Iterator<K(==), V> {
    const ht: Dict<K, V>
    var index: int
    var entry: Entry?<K, V>
    var nextEntry: Entry?<K, V>

    /** What is still to come of the current chain. */
    ghost var rest: seq<Entry<K, V>>

    constructor (ht: Dict<K, V>)
      requires ht.Valid()
      ensures this.ht == ht && Valid()
      ensures Todo() == if ht.size < TWO31 then Flat(ht.chains) else []
    {
      hide Placed, Linked, Indexed, Pow2;
      this.ht, index, entry, nextEntry := ht, -1, null, null;
      rest := [];
      new;
      assert ht.chains[0..] == ht.chains;
    }

    ghost predicate Valid()
      reads this, ht, ht.table, ht.all
      ensures Valid() ==> index >= -1
    {
      ht.Valid() && index >= -1 && Tracks()
    }

    ghost predicate Tracks()
      reads this, ht
    {
      && (entry == null ==> rest == [])
      && (entry != null ==> 0 <= index < |ht.chains| && Ends(ht.chains[index], rest) && nextEntry == At(rest, 0))
    }

    /** The entries a caller that adds nothing will still be given. */
    ghost function Todo(): seq<Entry<K, V>>
      reads this, ht
      requires index >= -1
    {
      Coming(ht.chains, index, rest)
    }

    /** The entry just returned stands right before the rest of its chain. */
    ghost predicate Current()
      reads this, ht
    {
      && entry != null && 0 <= index < |ht.chains| && |rest| < |ht.chains[index]|
      && ht.chains[index][|ht.chains[index]| - |rest| - 1] == entry
    }

    /** Saves the link of the entry, which is where the given end of the chain starts. */
    method Save(ghost chain: seq<Entry<K, V>>)
      requires ht.Valid() && entry != null && 0 <= index < |ht.chains|
      requires Ends(ht.chains[index], chain) && entry == At(chain, 0)
      modifies this`nextEntry, this`rest
      ensures Valid() && Current() && Pending(entry, Todo()) == Coming(ht.chains, index, chain)
    {
      hide Placed, Indexed, Pow2, Flat, Slot, Ends, Coming, Pending;
      EndsNext(ht.chains[index], chain);
      nextEntry := entry.next;
      rest := chain[1..];
      PendingComing(ht.chains, index, entry, rest);
      assert chain == [entry] + rest;
    }

    /** Moves on in the chain or to the next slot; false when the slots are used up. */
    method Move() returns (more: bool, ghost chain: seq<Entry<K, V>>)
      requires Valid()
      modifies this`index, this`entry
      ensures !more ==> Valid() && Todo() == [] && old(Todo()) == []
      ensures more ==> 0 <= index < |ht.chains| && Ends(ht.chains[index], chain) && entry == At(chain, 0)
      ensures more ==> Coming(ht.chains, index, chain) == old(Todo())
      ensures more ==> index == if old(entry) == null then old(index) + 1 else old(index)
    {
      hide Placed, Linked, Indexed, Pow2, Flat;
      chain := rest;
      more := true;
      if entry == null {
        SizeAsInt(ht);
        index := index + 1;
        if index >= Wrap32(ht.size) {
          return false, [];
        }
        ComingStep(ht.chains, index - 1);
        HeadIs(ht, index);
        entry := ht.table[index];
        chain := ht.chains[index];
      } else {
        entry := nextEntry;
      }
    }

    /** The next entry, or null at the end. */
    method Next() returns (he: Entry?<K, V>)
      requires Valid()
      modifies this
      ensures Valid()
      ensures Pending(he, Todo()) == old(Todo()) && (he == null ==> Todo() == [])
      ensures he != null ==> Current() && he == entry
    {
      hide Placed, Linked, Indexed, Pow2, Flat, Slot, Wrap32, Coming, Pending;
      while true
        invariant Valid() && Todo() == old(Todo())
        decreases ht.size - index, if entry != null then 1 else 0
      {
        var more;
        ghost var chain;
        more, chain := Move();
        if !more {
          PendingNext(null, Todo());
          return null;
        }
        if entry != null {
          Save(chain);
          return entry;
        }
        rest := [];
      }
    }
  }

  ghost predicate Ends<T>(s: seq<T>, tail: seq<T>) {
    |tail| <= |s| && s[|s| - |tail|..] == tail
  }

  lemma EndsNext<K, V>(s: seq<Entry<K, V>>, tail: seq<Entry<K, V>>)
    requires Ends(s, tail) && tail != []
    ensures Ends(s, tail[1..]) && |tail| <= |s| && s[|s| - |tail|] == tail[0]
    ensures At(s, |s| - |tail| + 1) == At(tail[1..], 0)
  {
    assert s[|s| - |tail|..][1..] == s[|s| - |tail| + 1..];
  }

  ghost function Coming<K, V>(chains: seq<seq<Entry<K, V>>>, index: int, rest: seq<Entry<K, V>>): seq<Entry<K, V>>
    requires index >= -1
  {
    rest + if |chains| < TWO31 && index + 1 < |chains| then Flat(chains[index + 1..]) else []
  }

  lemma PendingComing<K, V>(chains: seq<seq<Entry<K, V>>>, index: int, e: Entry<K, V>, rest: seq<Entry<K, V>>)
    requires index >= -1
    ensures Pending(e, Coming(chains, index, rest)) == Coming(chains, index, [e] + rest)
  {
  }

  lemma ComingStep<K, V>(chains: seq<seq<Entry<K, V>>>, index: int)
    requires -1 <= index && index + 1 < |chains| < TWO31
    ensures Coming(chains, index, []) == Coming(chains, index + 1, chains[index + 1])
  {
    var later := chains[index + 1..];
    assert later[0] == chains[index + 1] && later[1..] == chains[index + 2..];
    assert Flat(later) == chains[index + 1] + Flat(chains[index + 2..]);
  }

  lemma HeadIs<K, V>(ht: Dict<K, V>, i: nat)
    requires ht.Valid() && i < ht.size
    ensures ht.table != null && i < ht.table.Length && ht.table[i] == At(ht.chains[i], 0)
  {
  }

  // ----- deleting on the way

  /** Deleting the entry just returned leaves the rest of the iteration as it was. */
  lemma DeletedCurrent<K, V>(chains: seq<seq<Entry<K, V>>>, all: set<Entry<K, V>>, hash: K -> word, h: nat, j: nat,
                             index: nat, p: nat, rest: seq<Entry<K, V>>)
    requires Placed(chains, all, hash) && h < |chains| && j < |chains[h]|
    requires index < |chains| && Ends(chains[index], rest) && |rest| + p + 1 == |chains[index]|
    requires chains[index][p] == chains[h][j]
    ensures h == index && Ends(Unlinked(chains, h, j)[index], rest)
    ensures Coming(Unlinked(chains, h, j), index, rest) == Coming(chains, index, rest)
  {
    if (h, j) != (index, p) {
      DistinctAt(chains, all, hash, h, j, index, p);
    }
    var shorter := Unlinked(chains, h, j);
    assert shorter[index][p..] == chains[index][p + 1..];
    assert index + 1 < |chains| ==> shorter[index + 1..] == chains[index + 1..];
  }

  lemma InChain<K, V>(d: Dict<K, V>, i: nat, p: nat)
    requires d.Valid() && i < |d.chains| && p < |d.chains[i]|
    ensures d.chains[i][p] in d.all && d.chains[i][p].key in d.entries
    ensures d.entries[d.chains[i][p].key] == d.chains[i][p]
  {
  }

  method DeleteCurrent<K(==), V>(d: Dict<K, V>, it: Iterator<K, V>)
    requires d.Valid() && it.ht == d && it.Valid() && it.Current()
    modifies d`used, d`all, d`entries, d`chains, d.table, d.all`next
    ensures d.Valid() && it.Valid() && it.Todo() == old(it.Todo()) && d.all <= old(d.all)
    ensures d.Contents() == old(d.Contents()) - {it.entry.key}
  {
    hide Placed, Linked, Indexed, Pow2, Flat, Coming, Slot;
    ghost var p := |d.chains[it.index]| - |it.rest| - 1;
    ghost var chains, all := d.chains, d.all;
    InChain(d, it.index, p);
    var ok;
    ghost var h, j;
    ok, h, j := d.Delete(it.entry.key);
    DeletedCurrent(chains, all, d.hash, h, j, it.index, p, it.rest);
  }

  ghost function Dropped<K, V>(visited: seq<Entry<K, V>>, drop: K -> bool): set<K> {
    set e | e in visited && drop(e.key) :: e.key
  }

  lemma DroppedNext<K, V, W>(visited: seq<Entry<K, V>>, drop: K -> bool, e: Entry<K, V>, m: map<K, W>)
    ensures m - Dropped(visited + [e], drop) ==
            if drop(e.key) then m - Dropped(visited, drop) - {e.key} else m - Dropped(visited, drop)
  {
    var before, after := Dropped(visited, drop), Dropped(visited + [e], drop);
    if drop(e.key) {
      assert e in visited + [e];
      assert after == before + {e.key};
    } else {
      assert after == before;
    }
  }

  /** Over the whole table these are all the chosen keys. */
  lemma DroppedAll<K, V>(d: Dict<K, V>, drop: K -> bool)
    requires d.Valid()
    ensures Dropped(Flat(d.chains), drop) == set k | k in d.entries && drop(k)
  {
    hide Linked;
    FlatIsAll(d.chains, d.all, d.hash);
    var flat := Flat(d.chains);
    assert forall i :: 0 <= i < |flat| ==> flat[i].key in d.entries;
    forall k | k in d.entries && drop(k) ensures k in Dropped(Flat(d.chains), drop) {
      assert d.entries[k] in Flat(d.chains);
    }
  }

  lemma PendingNext<K, V>(he: Entry?<K, V>, todo: seq<Entry<K, V>>)
    ensures he == null ==> Pending(he, todo) == []
    ensures he != null ==> Pending(he, todo) == [he] + todo
  {
  }

  method SweepStep<K(==), V>(d: Dict<K, V>, it: Iterator<K, V>, drop: K -> bool) returns (he: Entry?<K, V>)
    requires d.Valid() && it.ht == d && it.Valid() && it.Current()
    modifies it, d`used, d`all, d`entries, d`chains, d.table, d.all`next
    ensures d.Valid() && it.Valid() && d.all <= old(d.all)
    ensures Pending(he, it.Todo()) == old(it.Todo()) && (he != null ==> it.Current() && it.entry == he)
    ensures d.Contents() == if drop(old(it.entry.key)) then old(d.Contents()) - {old(it.entry.key)}
            else old(d.Contents())
  {
    hide Placed, Linked, Indexed, Pow2, Flat, Coming, Slot, Pending;
    if drop(it.entry.key) {
      DeleteCurrent(d, it);
    }
    he := it.Next();
  }

  /** Calls Next until it returns null and deletes the chosen entries as they come. */
  method Sweep<K(==), V>(d: Dict<K, V>, drop: K -> bool) returns (visited: seq<Entry<K, V>>)
    requires d.Valid()
    modifies d`used, d`all, d`entries, d`chains, d.table, d.all`next
    ensures d.Valid()
    ensures visited == if d.size < TWO31 then old(Flat(d.chains)) else []
    ensures d.Contents() == old(d.Contents()) - Dropped(visited, drop)
  {
    hide *;
    NoneDropped<K, V>(drop);
    visited := [];
    var it := new Iterator(d);
    ghost var todo, m := it.Todo(), d.Contents();
    var he := it.Next();
    while he != null
      invariant d.Valid() && it.Valid() && it.ht == d && d.all <= old(d.all)
      invariant he != null ==> it.Current() && it.entry == he
      invariant todo == visited + Pending(he, it.Todo())
      invariant d.Contents() == m - Dropped(visited, drop)
      modifies it, d`used, d`all, d`entries, d`chains, d.table, d.all`next
      decreases |Pending(he, it.Todo())|
    {
      DroppedNext(visited, drop, he, m);
      PendingNext(he, it.Todo());
      visited := visited + [he];
      he := SweepStep(d, it, drop);
    }
    PendingNext(he, it.Todo());
  }

  lemma NoneDropped<K, V>(drop: K -> bool)
    ensures Dropped<K, V>([], drop) == {}
  {
  }
}
