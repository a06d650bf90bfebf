/** The chained hash table: buckets of heap-linked entries, doubled in size when they are as many as the slots. */
module Dict {
  import opened Word32
  import opened MachineInts

  const INITIAL_SIZE: nat := 4

  /** The largest power of two below LONG_MAX; a table of that many pointers exceeds the address space. */
  const MAX_SIZE: nat := 0x4000_0000_0000_0000

  class Entry<K, V> {
    const key: K
    var val: V
    var next: Entry?<K, V>

    constructor (key: K, val: V, next: Entry?<K, V>)
      ensures this.key == key && this.val == val && this.next == next
    {
      this.key, this.val, this.next := key, val, next;
    }
  }

  // ----- chains as sequences

  function At<K, V>(chain: seq<Entry<K, V>>, j: nat): Entry?<K, V> {
    if j < |chain| then chain[j] else null
  }

  function Slot<K, V>(hash: K -> word, e: Entry<K, V>, size: nat): (i: nat)
    requires size > 0
    ensures i < size
  {
    hash(e.key) % size
  }

  /** Each entry of the set is in the chain of its hash, once, and nothing else is in any chain. */
  ghost predicate Placed<K, V>(chains: seq<seq<Entry<K, V>>>, all: set<Entry<K, V>>, hash: K -> word) {
    && (forall i, j :: 0 <= i < |chains| && 0 <= j < |chains[i]| ==>
          chains[i][j] in all && Slot(hash, chains[i][j], |chains|) == i)
    && (forall i, j, k :: 0 <= i < |chains| && 0 <= j < k < |chains[i]| ==> chains[i][j] != chains[i][k])
    && (forall e :: e in all ==> |chains| > 0 && e in chains[Slot(hash, e, |chains|)])
  }

  /** The heads and the next pointers follow the chains. */
  ghost predicate Linked<K, V>(table: array<Entry?<K, V>>, chains: seq<seq<Entry<K, V>>>, all: set<Entry<K, V>>)
    reads table, all
  {
    && table.Length == |chains|
    && (forall i :: 0 <= i < |chains| ==> table[i] == At(chains[i], 0))
    && NextFrom(chains, all, 0, 0)
  }

  /** The next pointers follow the chains from entry j of chain i on. */
  ghost predicate NextFrom<K, V>(chains: seq<seq<Entry<K, V>>>, all: set<Entry<K, V>>, i: nat, j: nat)
    reads all
  {
    forall a, b :: 0 <= a < |chains| && 0 <= b < |chains[a]| && (a > i || (a == i && b >= j)) ==>
      chains[a][b] in all && chains[a][b].next == At(chains[a], b + 1)
  }

  /** The members of the set are exactly the entries before entry j of chain i. */
  ghost predicate Before<K, V>(chains: seq<seq<Entry<K, V>>>, moved: set<Entry<K, V>>, i: nat, j: nat) {
    forall a, b :: 0 <= a < |chains| && 0 <= b < |chains[a]| ==>
      (chains[a][b] in moved <==> a < i || (a == i && b < j))
  }

  // ----- growth

  lemma {:induction false} Pow2Monotonic(a: nat, b: nat)
    requires a <= b
    ensures Pow2(a) <= Pow2(b)
  {
    if a < b {
      Pow2Monotonic(a, b - 1);
    }
  }

  /** The least power of two, from 4 up, that is not below the size. */
  method NextPower(size: nat) returns (i: nat, ghost e: nat)
    ensures e >= 2 && i == Pow2(e) && i >= size
    ensures forall f: nat :: f >= 2 && Pow2(f) >= size ==> Pow2(f) >= i
  {
    i, e := INITIAL_SIZE, 2;
    assert Pow2(2) == 4;
    while i < size
      invariant i > 0 && e >= 2 && i == Pow2(e)
      invariant forall f: nat :: 2 <= f < e ==> Pow2(f) < size
      decreases size - i
    {
      i, e := i * 2, e + 1;
    }
    forall f: nat | f >= 2 && Pow2(f) >= size ensures Pow2(f) >= i {
      Pow2Monotonic(e, f);
    }
  }

  lemma Pow62()
    ensures Pow2(31) == TWO31 && Pow2(32) == TWO32 && Pow2(62) == MAX_SIZE
  {
    Pow32();
    assert Pow2(40) == 0x100_0000_0000;
    assert Pow2(48) == 0x1_0000_0000_0000;
    assert Pow2(56) == 0x100_0000_0000_0000;
  }

  /** The size before the next entry goes in. */
  function Grown(size: nat, used: nat): (g: nat)
    ensures g > 0
  {
    if size == 0 then INITIAL_SIZE else if used == size then 2 * size else size
  }

  /** The slot of a new entry is returned as an int, with -1 for none. Every hash keeps its slot if and only if the
      table has at most 2^31 slots. */
  lemma SlotsAreInts(e: nat)
    ensures (forall h: word :: Wrap32(h % Pow2(e)) == h % Pow2(e)) <==> Pow2(e) <= TWO31
  {
    Pow62();
    if e <= 31 {
      Pow2Monotonic(e, 31);
      AllSlots(Pow2(e));
    } else {
      Pow2Monotonic(32, e);
      LastSlot(Pow2(e));
    }
  }

  lemma AllSlots(size: nat)
    requires 0 < size <= TWO31
    ensures forall h: word :: Wrap32(h % size) == h % size
  {
  }

  lemma LastSlot(size: nat)
    requires size >= TWO32
    ensures exists h: word :: Wrap32(h % size) != h % size
  {
    var h: word := TWO32 - 1;
    assert h % size == h && Wrap32(h) == -1;
  }

  /** The masked hash is the slot. */
  lemma MaskedSlot<K, V>(hash: K -> word, e: Entry<K, V>, k: nat)
    ensures BitAnd(32, hash(e.key), Pow2(k) - 1) == Slot(hash, e, Pow2(k))
  {
    Pow32();
    MaskIsLow(32, hash(e.key), k);
  }

  ghost function Pushed<K, V>(chains: seq<seq<Entry<K, V>>>, h: nat, e: Entry<K, V>): seq<seq<Entry<K, V>>>
    requires h < |chains|
  {
    chains[h := [e] + chains[h]]
  }

  lemma PlacedPush<K, V>(chains: seq<seq<Entry<K, V>>>, all: set<Entry<K, V>>, hash: K -> word, e: Entry<K, V>)
    requires Placed(chains, all, hash) && |chains| > 0 && e !in all
    ensures Placed(Pushed(chains, Slot(hash, e, |chains|), e), all + {e}, hash)
  {
    var h := Slot(hash, e, |chains|);
    var longer := Pushed(chains, h, e);
    forall a, b | 0 <= a < |longer| && 0 <= b < |longer[a]|
      ensures longer[a][b] in all + {e} && Slot(hash, longer[a][b], |longer|) == a
    {
      assert a == h && b > 0 ==> longer[a][b] == chains[a][b - 1];
    }
    assert longer[h][0] == e;
    forall f | f in all ensures f in longer[Slot(hash, f, |longer|)] {
      assert f in chains[Slot(hash, f, |chains|)];
    }
  }

  /** Makes an entry the head of a chain. */
  method Push<K, V>(e: Entry<K, V>, table: array<Entry?<K, V>>, h: nat,
                    ghost chains: seq<seq<Entry<K, V>>>, ghost all: set<Entry<K, V>>)
    requires Linked(table, chains, all) && h < |chains| && e !in all
    modifies table, e`next
    ensures Linked(table, Pushed(chains, h, e), all + {e})
  {
    e.next := table[h];
    table[h] := e;
    ghost var longer := Pushed(chains, h, e);
    forall a, b | 0 <= a < |longer| && 0 <= b < |longer[a]|
      ensures longer[a][b] in all + {e} && longer[a][b].next == At(longer[a], b + 1)
    {
      if a == h && b > 0 {
        assert longer[a][b] == chains[a][b - 1];
      } else if a != h {
        assert longer[a][b] == chains[a][b];
      }
    }
  }

  ghost function Unlinked<K, V>(chains: seq<seq<Entry<K, V>>>, h: nat, j: nat): seq<seq<Entry<K, V>>>
    requires h < |chains| && j < |chains[h]|
  {
    chains[h := chains[h][..j] + chains[h][j + 1..]]
  }

  lemma PlacedUnlink<K, V>(chains: seq<seq<Entry<K, V>>>, all: set<Entry<K, V>>, hash: K -> word, h: nat, j: nat)
    requires Placed(chains, all, hash) && h < |chains| && j < |chains[h]|
    ensures Placed(Unlinked(chains, h, j), all - {chains[h][j]}, hash)
  {
    var e := chains[h][j];
    var shorter := Unlinked(chains, h, j);
    Distinct(chains, all, hash);
    forall a, b | 0 <= a < |shorter| && 0 <= b < |shorter[a]|
      ensures shorter[a][b] in all - {e} && Slot(hash, shorter[a][b], |shorter|) == a
    {
      assert shorter[a][b] == chains[a][if a == h && b >= j then b + 1 else b];
    }
    forall f | f in all && f != e ensures f in shorter[Slot(hash, f, |shorter|)] {
      var s := Slot(hash, f, |chains|);
      var b :| 0 <= b < |chains[s]| && chains[s][b] == f;
      if s == h {
        assert b < j ==> shorter[s][b] == f;
        assert b > j ==> shorter[s][b - 1] == f;
      }
    }
  }

  lemma UnlinkedMembers<K, V>(chains: seq<seq<Entry<K, V>>>, all: set<Entry<K, V>>, hash: K -> word, h: nat, j: nat)
    requires Placed(chains, all, hash) && h < |chains| && j < |chains[h]|
    ensures forall a, b :: 0 <= a < |chains| && 0 <= b < |Unlinked(chains, h, j)[a]| ==>
      Unlinked(chains, h, j)[a][b] in all - {chains[h][j]}
  {
    PlacedUnlink(chains, all, hash, h, j);
  }

  /** Takes an entry out of its chain, given the entry before it. */
  method Unlink<K, V>(e: Entry<K, V>, before: Entry?<K, V>, table: array<Entry?<K, V>>, h: nat,
                      ghost chains: seq<seq<Entry<K, V>>>, ghost all: set<Entry<K, V>>,
                      ghost hash: K -> word, ghost j: nat)
    requires Linked(table, chains, all) && Placed(chains, all, hash)
    requires h < |chains| && j < |chains[h]| && e == chains[h][j]
    requires before == if j == 0 then null else chains[h][j - 1]
    modifies table, all`next
    ensures Linked(table, Unlinked(chains, h, j), all - {e})
  {
    hide Placed, Slot, At;
    ghost var shorter: seq<seq<Entry<K, V>>> := Unlinked(chains, h, j);
    assert e.next == At(chains[h], j + 1);
    UnlinkedHead(chains, h, j);
    if before != null {
      before.next := e.next;
    } else {
      table[h] := e.next;
    }
    UnlinkedMembers(chains, all, hash, h, j);
    forall a, b | 0 <= a < |shorter| && 0 <= b < |shorter[a]| ensures shorter[a][b].next == At(shorter[a], b + 1) {
      UnlinkedNext(chains, all, hash, h, j, a, b);
    }
  }

  lemma UnlinkedHead<K, V>(chains: seq<seq<Entry<K, V>>>, h: nat, j: nat)
    requires h < |chains| && j < |chains[h]|
    ensures At(Unlinked(chains, h, j)[h], 0) == if j == 0 then At(chains[h], 1) else At(chains[h], 0)
  {
  }

  /** What follows each entry that stays: only for the entry before the gap is it another one. */
  lemma UnlinkedNext<K, V>(chains: seq<seq<Entry<K, V>>>, all: set<Entry<K, V>>, hash: K -> word,
                           h: nat, j: nat, a: nat, b: nat)
    requires Placed(chains, all, hash) && h < |chains| && j < |chains[h]|
    requires a < |chains| && b < |Unlinked(chains, h, j)[a]|
    ensures var c := if a == h && b >= j then b + 1 else b;
      var e := Unlinked(chains, h, j)[a][b];
      && c < |chains[a]| && e == chains[a][c]
      && At(Unlinked(chains, h, j)[a], b + 1) ==
         if j > 0 && e == chains[h][j - 1] then At(chains[h], j + 1) else At(chains[a], c + 1)
  {
    hide Placed, Slot;
    var c := if a == h && b >= j then b + 1 else b;
    if j > 0 && !(a == h && c == j - 1) {
      DistinctAt(chains, all, hash, a, c, h, j - 1);
    }
  }

  lemma DistinctAt<K, V>(chains: seq<seq<Entry<K, V>>>, all: set<Entry<K, V>>, hash: K -> word,
                         a: nat, b: nat, c: nat, d: nat)
    requires Placed(chains, all, hash)
    requires a < |chains| && b < |chains[a]| && c < |chains| && d < |chains[c]| && (a, b) != (c, d)
    ensures chains[a][b] != chains[c][d]
  {
    Distinct(chains, all, hash);
  }

  lemma NotMoved<K, V>(chains: seq<seq<Entry<K, V>>>, all: set<Entry<K, V>>, hash: K -> word,
                       i: nat, j: nat, moved: set<Entry<K, V>>)
    requires i < |chains| && j < |chains[i]| && Placed(chains, all, hash) && Before(chains, moved, i, j)
    ensures chains[i][j] !in moved && Before(chains, moved + {chains[i][j]}, i, j + 1)
    ensures forall a, b :: 0 <= a < |chains| && 0 <= b < |chains[a]| && (a > i || (a == i && b >= j + 1)) ==>
      chains[a][b] != chains[i][j]
  {
    Distinct(chains, all, hash);
  }

  lemma Distinct<K, V>(chains: seq<seq<Entry<K, V>>>, all: set<Entry<K, V>>, hash: K -> word)
    requires Placed(chains, all, hash)
    ensures forall a, b, c, d ::
      && 0 <= a < |chains| && 0 <= b < |chains[a]| && 0 <= c < |chains| && 0 <= d < |chains[c]|
      && chains[a][b] == chains[c][d] ==>
        a == c && b == d
  {
    forall a, b, c, d |
      && 0 <= a < |chains| && 0 <= b < |chains[a]| && 0 <= c < |chains| && 0 <= d < |chains[c]|
      && chains[a][b] == chains[c][d]
      ensures a == c && b == d
    {
      assert Slot(hash, chains[a][b], |chains|) == a;
      assert Slot(hash, chains[c][d], |chains|) == c;
    }
  }

  lemma {:induction false} SameSet<T>(a: set<T>, b: set<T>)
    requires a <= b && |a| == |b|
    ensures a == b
  {
    assert |b - a| == |b| - |a|;
  }

  lemma Smaller<T>(a: set<T>, b: set<T>, x: T)
    requires a <= b && x in b && x !in a
    ensures |a + {x}| == |a| + 1 <= |b|
  {
    assert b == a + {x} + (b - a - {x});
  }

  /** The map a set of entries stands for. */
  ghost predicate Indexed<K, V>(entries: map<K, Entry<K, V>>, all: set<Entry<K, V>>) {
    && (forall k :: k in entries ==> entries[k] in all && entries[k].key == k)
    && (forall e :: e in all ==> e.key in entries && entries[e.key] == e)
  }

  lemma IndexedAdd<K, V>(entries: map<K, Entry<K, V>>, all: set<Entry<K, V>>, e: Entry<K, V>)
    requires Indexed(entries, all) && e !in all && e.key !in entries
    ensures Indexed(entries[e.key := e], all + {e}) && |all + {e}| == |all| + 1
  {
  }

  lemma IndexedRemove<K, V>(entries: map<K, Entry<K, V>>, all: set<Entry<K, V>>, e: Entry<K, V>)
    requires Indexed(entries, all) && e in all
    ensures Indexed(entries - {e.key}, all - {e}) && |all - {e}| == |all| - 1
  {
  }

  class Dict<K(==), V> {
    const hash: K -> word
    var table: array?<Entry?<K, V>>
    var size: nat
    var sizemask: nat
    var used: nat

    ghost var all: set<Entry<K, V>>
    ghost var entries: map<K, Entry<K, V>>
    ghost var chains: seq<seq<Entry<K, V>>>
    ghost var exponent: nat

    ghost predicate Valid()
      reads this, table, all
      ensures Valid() ==> Indexed(entries, all)
    {
      && Indexed(entries, all)
      && Placed(chains, all, hash)
      && |chains| == size
      && |all| == used <= size <= MAX_SIZE
      && (size == 0 ==> table == null && sizemask == 0)
      && (size > 0 ==> table != null && Linked(table, chains, all))
      && (size > 0 ==> exponent >= 2 && size == Pow2(exponent) && sizemask == size - 1)
    }

    ghost function Contents(): (m: map<K, V>)
      reads this, all
      requires Indexed(entries, all)
      ensures m.Keys == entries.Keys
    {
      map k | k in entries :: entries[k].val
    }

    constructor (hash: K -> word)
      ensures Valid() && Contents() == map[] && size == 0
      ensures this.hash == hash && all == {}
    {
      this.hash := hash;
      table, size, sizemask, used := null, 0, 0, 0;
      all, entries, chains, exponent := {}, map[], [], 0;
    }

    /** The index the code computes. */
    function Index(key: K): nat
      reads this
    {
      BitAnd(32, hash(key), sizemask)
    }

    lemma IndexIsSlot(key: K)
      requires Valid() && size > 0
      ensures Index(key) == hash(key) % size < size
    {
      hide Placed, Linked, Indexed, BitAnd;
      Pow32();
      MaskIsLow(32, hash(key), exponent);
    }

    /** The state between two moves: the first entries of the old chains, up to entry j of chain i, are
        in the new table. */
    ghost predicate Moving(newTable: array<Entry?<K, V>>, newChains: seq<seq<Entry<K, V>>>, moved: set<Entry<K, V>>,
                           i: nat, j: nat)
      reads this, table, all, newTable
    {
      && |chains| == size && Placed(chains, all, hash)
      && (size > 0 ==> table != null && table.Length == size)
      && (size > 0 ==> forall a :: 0 <= a < size ==> table[a] == At(chains[a], 0))
      && NextFrom(chains, all, i, j) && Before(chains, moved, i, j)
      && moved <= all && used + |moved| == |all|
      && |newChains| == newTable.Length > 0 && Placed(newChains, moved, hash) && Linked(newTable, newChains, moved)
    }

    method MoveEntry(he: Entry<K, V>, newTable: array<Entry?<K, V>>, mask: nat, ghost newChains: seq<seq<Entry<K, V>>>,
                     ghost moved: set<Entry<K, V>>, ghost e: nat, ghost i: nat, ghost j: nat)
      returns (nextHe: Entry?<K, V>, ghost newChains': seq<seq<Entry<K, V>>>)
      requires newTable != table && Moving(newTable, newChains, moved, i, j)
      requires i < size && j < |chains[i]| && he == chains[i][j]
      requires newTable.Length == Pow2(e) && mask == Pow2(e) - 1
      modifies this`used, he`next, newTable
      ensures Moving(newTable, newChains', moved + {he}, i, j + 1)
      ensures nextHe == At(chains[i], j + 1)
    {
      hide Placed, Before, Slot, BitAnd, Pow2, Linked;
      nextHe := he.next;
      MaskedSlot(hash, he, e);
      var h := BitAnd(32, hash(he.key), mask);
      NotMoved(chains, all, hash, i, j, moved);
      PlacedPush(newChains, moved, hash, he);
      newChains' := Pushed(newChains, h, he);
      Push(he, newTable, h, newChains, moved);
      Smaller(moved, all, he);
      used := used - 1;
    }

    method MoveChain(i: nat, newTable: array<Entry?<K, V>>, mask: nat, ghost newChains: seq<seq<Entry<K, V>>>,
                     ghost moved: set<Entry<K, V>>, ghost e: nat)
      returns (ghost newChains': seq<seq<Entry<K, V>>>, ghost moved': set<Entry<K, V>>)
      requires newTable != table && i < size && Moving(newTable, newChains, moved, i, 0)
      requires newTable.Length == Pow2(e) && mask == Pow2(e) - 1
      modifies this`used, all`next, newTable
      ensures Moving(newTable, newChains', moved', i + 1, 0)
    {
      newChains', moved' := newChains, moved;
      var he := table[i];
      ghost var j: nat := 0;
      while he != null
        invariant j <= |chains[i]| && he == At(chains[i], j)
        invariant Moving(newTable, newChains', moved', i, j)
        decreases |chains[i]| - j
      {
        ghost var was := he;
        he, newChains' := MoveEntry(he, newTable, mask, newChains', moved', e, i, j);
        moved', j := moved' + {was}, j + 1;
      }
    }

    lemma NothingMoved(newTable: array<Entry?<K, V>>, newChains: seq<seq<Entry<K, V>>>)
      requires Valid() && newTable.Length == |newChains| > 0
      requires forall i :: 0 <= i < |newChains| ==> newTable[i] == null && newChains[i] == []
      ensures Moving(newTable, newChains, {}, 0, 0)
    {
    }

    method Adopt(newTable: array<Entry?<K, V>>, count: nat, ghost newChains: seq<seq<Entry<K, V>>>, ghost e: nat)
      requires Indexed(entries, all) && Placed(newChains, all, hash) && Linked(newTable, newChains, all)
      requires newTable.Length == Pow2(e) && e >= 2 && count == |all| <= newTable.Length <= MAX_SIZE
      modifies `table, `size, `sizemask, `used, `chains, `exponent
      ensures Valid() && table == newTable && size == newTable.Length && used == count
    {
      hide Placed, Indexed, NextFrom, Slot, Pow2;
      table, size, sizemask, used := newTable, newTable.Length, newTable.Length - 1, count;
      chains, exponent := newChains, e;
    }

    twostate lemma SameContents()
      requires Indexed(entries, all) && all == old(all) && entries == old(entries)
      requires forall e :: e in all ==> e.val == old(e.val)
      ensures old(Indexed(entries, all)) && Contents() == old(Contents())
    {
    }

    /** Moves every entry; the old table is left empty-handed. */
    method MoveAll(newTable: array<Entry?<K, V>>, mask: nat, ghost e: nat)
      returns (ghost newChains: seq<seq<Entry<K, V>>>)
      requires Valid() && newTable != table
      requires newTable.Length == Pow2(e) && mask == Pow2(e) - 1
      requires forall i :: 0 <= i < newTable.Length ==> newTable[i] == null
      modifies this`used, all`next, newTable
      ensures Placed(newChains, all, hash) && Linked(newTable, newChains, all) && used == 0
    {
      hide Valid, Placed, Linked, NextFrom, Before, Indexed, Pow2;
      newChains := seq(newTable.Length, _ => []);
      ghost var moved: set<Entry<K, V>> := {};
      NothingMoved(newTable, newChains);
      var i := 0;
      while i < size && used > 0
        invariant 0 <= i <= size
        invariant Moving(newTable, newChains, moved, i, 0)
      {
        newChains, moved := MoveChain(i, newTable, mask, newChains, moved, e);
        i := i + 1;
      }
      AllMoved(i, moved);
    }

    method Rehash(realsize: nat, ghost e: nat)
      requires Valid() && used <= realsize == Pow2(e) <= MAX_SIZE && e >= 2
      modifies this, all`next
      ensures Valid() && all == old(all) && entries == old(entries) && Contents() == old(Contents())
      ensures fresh(table) && size == realsize && used == old(used)
    {
      hide Placed, Linked, NextFrom, Before, Indexed, Pow2;
      var mask, count := realsize - 1, used;
      var newTable := new Entry?<K, V>[realsize](_ => null);
      ghost var newChains := MoveAll(newTable, mask, e);
      assert used == 0;
      Adopt(newTable, count, newChains, e);
      SameContents();
    }

    /** Every entry moves to a table of the least power of two that is large enough. */
    method Expand(newSize: nat) returns (ok: bool)
      requires Valid() && newSize <= MAX_SIZE
      modifies this, all`next
      ensures Valid() && all == old(all) && entries == old(entries) && Contents() == old(Contents())
      ensures ok == (used <= newSize) && used == old(used)
      ensures !ok ==> unchanged(this) && unchanged(all)
      ensures ok ==> fresh(table) && size >= newSize
      ensures ok ==> forall f: nat :: f >= 2 && Pow2(f) >= newSize ==> Pow2(f) >= size
    {
      ghost var e: nat;
      var realsize;
      realsize, e := NextPower(newSize);
      if used > newSize {
        return false;
      }
      assert Pow2(62) == MAX_SIZE by { Pow62(); }
      hide Placed, Linked, NextFrom, Before, Indexed, Pow2;
      Rehash(realsize, e);
      return true;
    }

    lemma AllMoved(i: nat, moved: set<Entry<K, V>>)
      requires Placed(chains, all, hash) && |chains| == size && Before(chains, moved, i, 0) && moved <= all
      requires i >= size || used == 0
      requires used + |moved| == |all|
      ensures moved == all && used == 0
    {
      if i >= size {
        forall e | e in all ensures e in moved {
          assert e in chains[Slot(hash, e, size)];
        }
      } else {
        SameSet(moved, all);
      }
    }

    // ----- operations

    method ExpandIfNeeded() returns (ok: bool)
      requires Valid() && used < MAX_SIZE
      modifies this, all`next
      ensures Valid() && all == old(all) && entries == old(entries) && Contents() == old(Contents())
      ensures ok && used == old(used) < size
      ensures table == old(table) || fresh(table)
      ensures size == Grown(old(size), old(used))
    {
      if size == 0 {
        assert Pow2(2) == INITIAL_SIZE;
        ok := Expand(INITIAL_SIZE);
      } else if used == size {
        Doubled();
        ok := Expand(size * 2);
      } else {
        ok := true;
      }
    }

    lemma Doubled()
      requires Valid() && 0 < size < MAX_SIZE
      ensures size * 2 == Pow2(exponent + 1) <= MAX_SIZE
    {
      hide Placed, Linked, Indexed;
      assert Pow2(62) == MAX_SIZE by { Pow62(); }
      if exponent >= 62 {
        Pow2Monotonic(62, exponent);
      } else {
        Pow2Monotonic(exponent + 1, 62);
      }
    }

    /** An entry with the key, if any, is the one of the map, and it is in the chain of the key's slot. */
    lemma ChainHasKey(key: K)
      requires Valid() && size > 0
      ensures forall j :: 0 <= j < |chains[hash(key) % size]| && chains[hash(key) % size][j].key == key ==>
        key in entries && chains[hash(key) % size][j] == entries[key]
      ensures key in entries ==> entries[key].key == key && entries[key] in chains[hash(key) % size]
    {
      if key in entries {
        assert Slot(hash, entries[key], size) == hash(key) % size;
      }
    }

    /** Walks a chain up to the first entry with the key. */
    method Search(key: K) returns (h: nat, before: Entry?<K, V>, he: Entry?<K, V>, ghost j: nat)
      requires Valid() && size > 0
      ensures h == hash(key) % size < size && j <= |chains[h]| && he == At(chains[h], j)
      ensures before == if j == 0 then null else chains[h][j - 1]
      ensures he == if key in entries then entries[key] else null
      ensures he != null ==> he in all
    {
      hide Placed, Indexed, Slot, Pow2, BitAnd;
      IndexIsSlot(key);
      h := Index(key);
      before, he, j := null, table[h], 0;
      while he != null && he.key != key
        invariant j <= |chains[h]| && he == At(chains[h], j)
        invariant before == if j == 0 then null else chains[h][j - 1]
        invariant forall b :: 0 <= b < j ==> chains[h][b].key != key
        decreases |chains[h]| - j
      {
        before, he, j := he, he.next, j + 1;
      }
      ChainHasKey(key);
    }

    method Find(key: K) returns (he: Entry?<K, V>)
      requires Valid()
      ensures he == if key in entries then entries[key] else null
    {
      if size == 0 {
        EmptyTable();
        return null;
      }
      var h, before;
      ghost var j;
      h, before, he, j := Search(key);
    }

    lemma EmptyTable()
      requires Valid() && size == 0
      ensures all == {} && entries == map[]
    {
      assert forall k :: k !in entries;
    }

    /** The slot for a new key as an int, or -1 when the key is there. */
    method KeyIndex(key: K) returns (index: int)
      requires Valid() && used < MAX_SIZE
      modifies this, all`next
      ensures Valid() && all == old(all) && entries == old(entries) && Contents() == old(Contents())
      ensures used == old(used) < size == Grown(old(size), old(used)) && (table == old(table) || fresh(table))
      ensures index == if key in old(Contents()) then -1 else Wrap32(hash(key) % size)
    {
      hide Placed, Linked, NextFrom, Indexed, Pow2;
      var ok := ExpandIfNeeded();
      var h, before, he;
      ghost var j;
      h, before, he, j := Search(key);
      index := if he != null then -1 else Wrap32(h);
    }

    twostate lemma NewContents(entry: Entry<K, V>)
      requires old(Indexed(entries, all)) && Indexed(entries, all)
      requires entries == old(entries)[entry.key := entry] && all == old(all) + {entry}
      requires entry.key !in old(entries) && forall e :: e in old(all) ==> e.val == old(e.val)
      ensures Contents() == old(Contents())[entry.key := entry.val]
    {
    }

    method Insert(entry: Entry<K, V>, index: nat)
      requires Valid() && used < size && entry !in all && entry.key !in entries && index == hash(entry.key) % size
      modifies this`used, this`all, this`entries, this`chains, table, entry`next
      ensures Valid() && all == old(all) + {entry} && entries == old(entries)[entry.key := entry]
      ensures used == old(used) + 1
      ensures Contents() == old(Contents())[entry.key := entry.val]
    {
      hide Placed, Linked, Indexed, NextFrom, Pow2, Contents;
      IndexedAdd(entries, all, entry);
      PlacedPush(chains, all, hash, entry);
      Push(entry, table, index, chains, all);
      chains := Pushed(chains, index, entry);
      all, entries := all + {entry}, entries[entry.key := entry];
      used := used + 1;
      NewContents(entry);
    }

    /** The slot of a new entry with the key, as an int. */
    function NewSlot(key: K): int
      reads this
    {
      Wrap32(hash(key) % Grown(size, used))
    }

    /** A key that is absent is refused when its slot is 2^32 - 1; a slot that becomes smaller than -1 as an int
        is outside the table. */
    method Add(key: K, val: V) returns (ok: bool)
      requires Valid() && used < MAX_SIZE
      requires key in Contents() || NewSlot(key) >= -1
      modifies this, table, all`next
      ensures Valid() && fresh(all - old(all)) && (table == old(table) || fresh(table))
      ensures ok == (key !in old(Contents()) && old(NewSlot(key)) >= 0)
      ensures size == Grown(old(size), old(used)) && used == if ok then old(used) + 1 else old(used)
      ensures Contents() == if ok then old(Contents())[key := val] else old(Contents())
      ensures !ok ==> all == old(all) && entries == old(entries)
    {
      hide Placed, Linked, NextFrom, Indexed, Pow2, Valid, Contents, Grown;
      SlotIsSigned(hash(key) % Grown(size, used));
      var index := KeyIndex(key);
      if index == -1 {
        return false;
      }
      var entry := new Entry(key, val, null);
      Insert(entry, index);
      return true;
    }

    lemma SlotIsSigned(h: nat)
      requires h < TWO32
      ensures Wrap32(h) >= 0 ==> Wrap32(h) == h
    {
    }

    method SetVal(entry: Entry<K, V>, val: V)
      requires Valid() && entry in all
      modifies entry`val
      ensures Valid() && Contents() == old(Contents())[entry.key := val]
    {
      hide Placed, Pow2;
      entry.val := val;
    }

    /** True when the key is new, false when a value was replaced. */
    method Replace(key: K, val: V) returns (added: bool)
      requires Valid() && used < MAX_SIZE
      requires key in Contents() || NewSlot(key) >= 0
      modifies this, table, all
      ensures Valid() && fresh(all - old(all)) && (table == old(table) || fresh(table))
      ensures size == Grown(old(size), old(used))
      ensures added == (key !in old(Contents()))
      ensures Contents() == old(Contents())[key := val]
    {
      hide Placed, Linked, NextFrom, Pow2, Slot;
      added := Add(key, val);
      if added {
        return;
      }
      var entry := Find(key);
      SetVal(entry, val);
    }

    method Remove(de: Entry<K, V>, before: Entry?<K, V>, h: nat, ghost j: nat)
      requires Valid() && h < size && j < |chains[h]| && de == chains[h][j] && de in all
      requires before == if j == 0 then null else chains[h][j - 1]
      modifies this`used, this`all, this`entries, this`chains, table, all`next
      ensures Valid() && all == old(all) - {de} && entries == old(entries) - {de.key}
      ensures chains == Unlinked(old(chains), h, j)
    {
      hide Placed, Linked, Indexed, NextFrom, Pow2, Slot;
      IndexedRemove(entries, all, de);
      PlacedUnlink(chains, all, hash, h, j);
      Unlink(de, before, table, h, chains, all, hash, j);
      chains := Unlinked(chains, h, j);
      all, entries := all - {de}, entries - {de.key};
      used := used - 1;
    }

    method Delete(key: K) returns (ok: bool, ghost h: nat, ghost j: nat)
      requires Valid()
      modifies this`used, this`all, this`entries, this`chains, table, all`next
      ensures Valid() && all <= old(all)
      ensures ok == (key in old(Contents()))
      ensures Contents() == old(Contents()) - {key}
      ensures !ok ==> unchanged(this) && unchanged(all)
      ensures ok ==> h < old(size) && j < |old(chains)[h]| && old(chains)[h][j] == old(entries)[key]
      ensures ok ==> chains == Unlinked(old(chains), h, j)
    {
      hide Placed, Linked, Slot, NextFrom, Pow2;
      h, j := 0, 0;
      if size == 0 {
        EmptyTable();
        return false, h, j;
      }
      var slot, before, de;
      slot, before, de, j := Search(key);
      h := slot;
      if de == null {
        return false, h, j;
      }
      Remove(de, before, slot, j);
      return true, h, j;
    }
  }
}
