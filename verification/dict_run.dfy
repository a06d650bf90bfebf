/** Runs of hash table operations against a plain map. */
module DictRun {
  import opened Dict
  import opened Word32
  import opened MachineInts

  datatype Op<K, V> = Add(key: K, val: V) | Replace(key: K, val: V) | Delete(key: K) | Find(key: K)
  datatype Answer<V> = Changed(ok: bool) | Found(val: V) | Missing

  /** What a map answers: adding and deleting report whether the key was new or there; replacing, whether it was new. */
  function Step<K, V>(m: map<K, V>, op: Op<K, V>): (map<K, V>, Answer<V>) {
    match op
    case Add(k, v) => if k in m then (m, Changed(false)) else (m[k := v], Changed(true))
    case Replace(k, v) => (m[k := v], Changed(k !in m))
    case Delete(k) => (m - {k}, Changed(k in m))
    case Find(k) => (m, if k in m then Found(m[k]) else Missing)
  }

  function Outcome<K, V>(m: map<K, V>, ops: seq<Op<K, V>>): (r: (map<K, V>, seq<Answer<V>>)) {
    if ops == [] then (m, [])
    else
      var (before, answers) := Outcome(m, ops[..|ops| - 1]);
      var (after, answer) := Step(before, ops[|ops| - 1]);
      (after, answers + [answer])
  }

  /** The count kept in the table is the number of keys. */
  lemma {:induction false} UsedIsCount<K, V>(entries: map<K, Entry<K, V>>, all: set<Entry<K, V>>)
    requires Indexed(entries, all)
    ensures |entries| == |all|
  {
    if all == {} {
      assert forall k :: k !in entries;
      assert entries == map[];
    } else {
      var e :| e in all;
      IndexedRemove(entries, all, e);
      UsedIsCount(entries - {e.key}, all - {e});
      assert entries.Keys == (entries - {e.key}).Keys + {e.key};
    }
  }

  lemma ContentsCount<K, V>(d: Dict<K, V>)
    requires d.Valid()
    ensures |d.Contents()| == d.used
  {
    hide Placed, Linked, Pow2;
    UsedIsCount(d.entries, d.all);
    assert |d.Contents().Keys| == |d.entries.Keys|;
  }

  /** The table can index the key of the operation: it is there, or its new slot fits an int. */
  ghost predicate Indexable<K, V>(d: Dict<K, V>, op: Op<K, V>)
    reads d, d.table, d.all
    requires d.Valid()
  {
    op.Add? || op.Replace? ==> op.key in d.Contents() || d.NewSlot(op.key) >= 0
  }

  method Apply<K(==), V>(d: Dict<K, V>, op: Op<K, V>) returns (answer: Answer<V>)
    requires d.Valid() && d.used < MAX_SIZE && Indexable(d, op)
    modifies d, d.table, d.all
    ensures d.Valid() && fresh(d.all - old(d.all)) && (d.table == old(d.table) || fresh(d.table))
    ensures (d.Contents(), answer) == Step(old(d.Contents()), op)
    ensures d.used <= old(d.used) + 1
    ensures d.size == old(d.size) || d.size == Grown(old(d.size), old(d.used))
  {
    hide Placed, Linked, NextFrom, Pow2;
    ContentsCount(d);
    var ok;
    match op {
      case Add(k, v) =>
        ok := d.Add(k, v);
        answer := Changed(ok);
      case Replace(k, v) =>
        ok := d.Replace(k, v);
        answer := Changed(ok);
      case Delete(k) =>
        ghost var h, j;
        ok, h, j := d.Delete(k);
        answer := Changed(ok);
      case Find(k) =>
        var he := d.Find(k);
        answer := if he != null then Found(he.val) else Missing;
    }
    ContentsCount(d);
  }

  /** A run of n more operations keeps the table at 2^31 slots or fewer. */
  predicate Small(size: nat, used: nat, n: int) {
    size <= TWO31 && used + n <= TWO31
  }

  predicate LowHash<K, V>(op: Op<K, V>, hash: K -> word) {
    op.Add? || op.Replace? ==> hash(op.key) < TWO31
  }

  lemma SmallIndexes<K, V>(d: Dict<K, V>, op: Op<K, V>)
    requires d.Valid() && (Small(d.size, d.used, 1) || LowHash(op, d.hash))
    ensures Indexable(d, op)
    ensures Small(d.size, d.used, 1) ==> Grown(d.size, d.used) <= TWO31
  {
    hide Placed, Linked, Indexed, Pow2, Wrap32;
    if Small(d.size, d.used, 1) && d.used == d.size > 0 {
      HalfOrLess(d.exponent);
    }
    if op.Add? || op.Replace? {
      SlotFits(d.hash(op.key), Grown(d.size, d.used));
    }
  }

  lemma SlotFits(h: word, size: nat)
    requires size > 0 && (size <= TWO31 || h < TWO31)
    ensures Wrap32(h % size) >= 0
  {
    assert h % size < size && h % size <= h;
  }

  /** A power of two below 2^31 can be doubled. */
  lemma HalfOrLess(e: nat)
    ensures Pow2(e) < TWO31 ==> 2 * Pow2(e) <= TWO31
  {
    Pow62();
    if e <= 30 {
      Pow2Monotonic(e, 30);
    } else {
      Pow2Monotonic(31, e);
    }
  }

  /** Every run agrees with the map, whatever growth it causes, as long as the slots of new keys fit an int: in
      tables of 2^31 slots or fewer, or when the hashes are below 2^31. */
  method Run<K(==), V>(d: Dict<K, V>, ops: seq<Op<K, V>>) returns (answers: seq<Answer<V>>)
    requires d.Valid() && d.used + |ops| <= MAX_SIZE
    requires Small(d.size, d.used, |ops|) || forall i :: 0 <= i < |ops| ==> LowHash(ops[i], d.hash)
    modifies d, d.table, d.all
    ensures d.Valid()
    ensures (d.Contents(), answers) == Outcome(old(d.Contents()), ops)
  {
    hide Placed, Linked, NextFrom, Pow2, Indexed, LowHash, Indexable, Grown;
    answers := [];
    var i := 0;
    while i < |ops|
      invariant 0 <= i <= |ops|
      invariant d.Valid() && d.used <= old(d.used) + i
      invariant Small(d.size, d.used, |ops| - i) || forall i :: 0 <= i < |ops| ==> LowHash(ops[i], d.hash)
      invariant fresh(d.all - old(d.all)) && (d.table == old(d.table) || fresh(d.table))
      invariant (d.Contents(), answers) == Outcome(old(d.Contents()), ops[..i])
    {
      assert ops[..i + 1][..i] == ops[..i];
      SmallIndexes(d, ops[i]);
      var answer := Apply(d, ops[i]);
      answers := answers + [answer];
      i := i + 1;
    }
    assert ops[..i] == ops;
  }
}
