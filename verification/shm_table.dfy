/**
 The shared-memory hash table of TShmBuffer: a flat array of nodes, bucket heads first and an overflow
 area behind them, chained by index. Erased nodes stay in their chains with key 0 and are reused. The
 table is proved to refine a map, also across reallocations that nest, until the size of the memory no
 longer fits an int.
 */
module ShmTable {
  import opened MachineInts

  /** One node; keyno 0 is an empty node, next 0 the end of a chain. */
  datatype Node<T> = Node(keyno: nat, value: T, next: nat)

  /** The chains that the next fields form, for proofs: the node indices of every bucket's chain, the
      (bucket, position) of every used node, and the node of every live key. */
  datatype Index = Index(chains: seq<seq<nat>>, place: seq<(nat, nat)>, slot: map<nat, nat>)

  /** The index after position k in chain c, as its node's next field has it. */
  function After(c: seq<nat>, k: nat): nat {
    if k + 1 < |c| then c[k + 1] else 0
  }

  /** The chain of bucket b starts at its head and follows the next fields through used nodes. */
  ghost predicate ChainOk<T>(nodes: seq<Node<T>>, hash: nat, x: Index, b: nat, c: seq<nat>) {
    && |c| > 0 && c[0] == b
    && |x.place| <= |nodes|
    && forall k :: 0 <= k < |c| ==>
         && c[k] < |x.place| && x.place[c[k]] == (b, k)
         && (k > 0 ==> hash <= c[k])
         && nodes[c[k]].next == After(c, k)
  }

  /** Every used node lies in exactly one chain, once. */
  ghost predicate Chained<T>(nodes: seq<Node<T>>, hash: nat, x: Index) {
    && 0 < hash <= |x.place| <= |nodes| && |x.chains| == hash
    && (forall b :: 0 <= b < hash ==> ChainOk(nodes, hash, x, b, x.chains[b]))
    && (forall i :: 0 <= i < |x.place| ==>
          && x.place[i].0 < hash && x.place[i].1 < |x.chains[x.place[i].0]|
          && x.chains[x.place[i].0][x.place[i].1] == i)
  }

  /** The live keys: each is stored in exactly one node, in the chain of its bucket. */
  ghost predicate Keyed<T>(nodes: seq<Node<T>>, hash: nat, x: Index) {
    && 0 < hash && |x.place| <= |nodes|
    && (forall i :: 0 <= i < |x.place| && nodes[i].keyno > 0 ==>
          && nodes[i].keyno in x.slot && x.slot[nodes[i].keyno] == i
          && x.place[i].0 == nodes[i].keyno % hash)
    && (forall k :: k in x.slot ==> k > 0 && x.slot[k] < |x.place| && nodes[x.slot[k]].keyno == k)
  }

  /** The nodes that were never used are empty. */
  ghost predicate Unused<T>(nodes: seq<Node<T>>, from: nat) {
    forall i :: from <= i < |nodes| ==> nodes[i].keyno == 0 && nodes[i].next == 0
  }

  ghost predicate Wf<T>(nodes: seq<Node<T>>, hash: nat, x: Index) {
    Chained(nodes, hash, x) && Keyed(nodes, hash, x) && Unused(nodes, |x.place|)
  }

  /** The map that the table stands for. */
  ghost function MapOf<T>(nodes: seq<Node<T>>, x: Index): (m: map<nat, T>)
    requires forall k :: k in x.slot ==> x.slot[k] < |nodes|
    ensures m.Keys == x.slot.Keys
  {
    map k | k in x.slot :: nodes[x.slot[k]].value
  }

  ghost function EmptyIndex(hash: nat): Index {
    Index(seq(hash, b requires 0 <= b => [b]), seq(hash, i requires 0 <= i => (i, 0)), map[])
  }

  lemma EmptyWf<T>(nodes: seq<Node<T>>, hash: nat)
    requires 0 < hash <= |nodes| && Unused(nodes, 0)
    ensures Wf(nodes, hash, EmptyIndex(hash)) && MapOf(nodes, EmptyIndex(hash)) == map[]
  {
  }

  lemma SameNext<T>(nodes: seq<Node<T>>, nodes': seq<Node<T>>, hash: nat, x: Index, slot: map<nat, nat>)
    requires Chained(nodes, hash, x)
    requires |nodes'| == |nodes| && forall i :: 0 <= i < |nodes| ==> nodes'[i].next == nodes[i].next
    ensures Chained(nodes', hash, x.(slot := slot))
  {
    forall b | 0 <= b < hash
      ensures ChainOk(nodes', hash, x.(slot := slot), b, x.chains[b])
    {
      assert ChainOk(nodes, hash, x, b, x.chains[b]);
    }
  }

  /** A key goes into an empty node of its bucket's chain. */
  lemma FillWf<T>(nodes: seq<Node<T>>, hash: nat, x: Index, i: nat, keyno: nat, v: T)
    requires Wf(nodes, hash, x) && i < |x.place| && nodes[i].keyno == 0
    requires keyno > 0 && keyno !in x.slot && x.place[i].0 == keyno % hash
    ensures var nodes' := nodes[i := Node(keyno, v, nodes[i].next)];
            var x' := x.(slot := x.slot[keyno := i]);
            Wf(nodes', hash, x') && MapOf(nodes', x') == MapOf(nodes, x)[keyno := v]
  {
    hide Chained;
    SameNext(nodes, nodes[i := Node(keyno, v, nodes[i].next)], hash, x, x.slot[keyno := i]);
  }

  ghost function Appended(x: Index, b: nat, n: nat, keyno: nat): Index
    requires b < |x.chains|
  {
    Index(x.chains[b := x.chains[b] + [n]], x.place + [(b, |x.chains[b]|)], x.slot[keyno := n])
  }

  /** A key goes into a fresh node, linked behind the last node of its bucket's chain. */
  lemma AppendWf<T>(nodes: seq<Node<T>>, hash: nat, x: Index, last: nat, keyno: nat, v: T)
    requires Wf(nodes, hash, x) && last < |x.place| < |nodes| && nodes[last].next == 0
    requires keyno > 0 && keyno !in x.slot && x.place[last].0 == keyno % hash
    ensures var n := |x.place|;
            var nodes' := nodes[last := nodes[last].(next := n)][n := Node(keyno, v, 0)];
            var x' := Appended(x, keyno % hash, n, keyno);
            Wf(nodes', hash, x') && MapOf(nodes', x') == MapOf(nodes, x)[keyno := v]
  {
    var b, n := keyno % hash, |x.place|;
    var nodes' := nodes[last := nodes[last].(next := n)][n := Node(keyno, v, 0)];
    AppendChained(nodes, nodes', hash, x, last, keyno);
    AppendKeyed(nodes, nodes', hash, x, last, keyno, v);
    hide *;
  }

  lemma AppendKeyed<T>(nodes: seq<Node<T>>, nodes': seq<Node<T>>, hash: nat, x: Index, last: nat, keyno: nat, v: T)
    requires Wf(nodes, hash, x) && last < |x.place| < |nodes|
    requires keyno > 0 && keyno !in x.slot && keyno % hash < |x.chains|
    requires nodes' == nodes[last := nodes[last].(next := |x.place|)][|x.place| := Node(keyno, v, 0)]
    ensures var x' := Appended(x, keyno % hash, |x.place|, keyno);
            && Keyed(nodes', hash, x') && Unused(nodes', |x'.place|)
            && MapOf(nodes', x') == MapOf(nodes, x)[keyno := v]
  {
    hide Chained;
    var x' := Appended(x, keyno % hash, |x.place|, keyno);
    assert forall i :: 0 <= i < |x.place| ==> x'.place[i] == x.place[i] && nodes'[i].keyno == nodes[i].keyno;
  }

  /** A chain that the change does not reach. */
  lemma ChainKept<T>(nodes: seq<Node<T>>, nodes': seq<Node<T>>, hash: nat, x: Index, x': Index, d: nat, c: seq<nat>)
    requires ChainOk(nodes, hash, x, d, c) && x.place <= x'.place && |x'.place| <= |nodes'|
    requires forall k :: 0 <= k < |c| ==> nodes'[c[k]].next == nodes[c[k]].next
    ensures ChainOk(nodes', hash, x', d, c)
  {
  }

  lemma ChainExtended<T>(nodes: seq<Node<T>>, nodes': seq<Node<T>>, hash: nat, x: Index, x': Index,
                         b: nat, c: seq<nat>, n: nat)
    requires ChainOk(nodes, hash, x, b, c) && x.place < x'.place && |x'.place| <= |nodes'|
    requires n == |x.place| >= hash && x'.place[n] == (b, |c|)
    requires forall k :: 0 <= k < |c| - 1 ==> nodes'[c[k]].next == nodes[c[k]].next
    requires nodes'[c[|c| - 1]].next == n && nodes'[n].next == 0
    ensures ChainOk(nodes', hash, x', b, c + [n])
  {
  }

  lemma AppendChained<T>(nodes: seq<Node<T>>, nodes': seq<Node<T>>, hash: nat, x: Index, last: nat, keyno: nat)
    requires Chained(nodes, hash, x) && last < |x.place| < |nodes| && nodes[last].next == 0
    requires x.place[last].0 == keyno % hash
    requires |nodes'| == |nodes| && nodes'[last].next == |x.place| && nodes'[|x.place|].next == 0
    requires forall i :: 0 <= i < |x.place| && i != last ==> nodes'[i].next == nodes[i].next
    ensures Chained(nodes', hash, Appended(x, keyno % hash, |x.place|, keyno))
  {
    var b, n := keyno % hash, |x.place|;
    LastOfChain(nodes, hash, x, last);
    var x' := Appended(x, b, n, keyno);
    forall d | 0 <= d < hash
      ensures ChainOk(nodes', hash, x', d, x'.chains[d])
    {
      var c := x.chains[d];
      assert ChainOk(nodes, hash, x, d, c);
      forall k | 0 <= k < |c| && (d != b || k + 1 < |c|)
        ensures c[k] != last && nodes'[c[k]].next == nodes[c[k]].next
      {
        assert x.place[c[k]] == (d, k);
      }
      hide ChainOk;
      if d == b {
        assert c[|c| - 1] == last;
        ChainExtended(nodes, nodes', hash, x, x', b, c, n);
      } else {
        ChainKept(nodes, nodes', hash, x, x', d, c);
      }
    }
  }

  /** A node without successor is the last of its chain. */
  lemma LastOfChain<T>(nodes: seq<Node<T>>, hash: nat, x: Index, last: nat)
    requires Chained(nodes, hash, x) && last < |x.place| && nodes[last].next == 0
    ensures x.place[last].1 == |x.chains[x.place[last].0]| - 1
  {
    var (b, k) := x.place[last];
    assert ChainOk(nodes, hash, x, b, x.chains[b]);
  }

  lemma EraseWf<T>(nodes: seq<Node<T>>, hash: nat, x: Index, keyno: nat)
    requires Wf(nodes, hash, x) && keyno in x.slot
    ensures var nodes' := nodes[x.slot[keyno] := nodes[x.slot[keyno]].(keyno := 0)];
            var x' := x.(slot := x.slot - {keyno});
            Wf(nodes', hash, x') && MapOf(nodes', x') == MapOf(nodes, x) - {keyno}
  {
    hide Chained;
    SameNext(nodes, nodes[x.slot[keyno] := nodes[x.slot[keyno]].(keyno := 0)], hash, x, x.slot - {keyno});
  }

  lemma StoreWf<T>(nodes: seq<Node<T>>, hash: nat, x: Index, keyno: nat, v: T)
    requires Wf(nodes, hash, x) && keyno in x.slot
    ensures var nodes' := nodes[x.slot[keyno] := nodes[x.slot[keyno]].(value := v)];
            Wf(nodes', hash, x) && MapOf(nodes', x) == MapOf(nodes, x)[keyno := v]
  {
    hide Chained;
    SameNext(nodes, nodes[x.slot[keyno] := nodes[x.slot[keyno]].(value := v)], hash, x, x.slot);
  }

  /** A live key's node lies in the chain that starts at its bucket head. */
  lemma SlotInChain<T>(nodes: seq<Node<T>>, hash: nat, x: Index, keyno: nat)
    requires Wf(nodes, hash, x) && keyno in x.slot
    ensures var (b, k) := x.place[x.slot[keyno]];
            b == keyno % hash && k < |x.chains[b]| && x.chains[b][k] == x.slot[keyno]
  {
  }

  lemma LiveNode<T>(nodes: seq<Node<T>>, hash: nat, x: Index, i: nat)
    requires Wf(nodes, hash, x) && i < |x.place| && nodes[i].keyno > 0
    ensures nodes[i].keyno in x.slot && x.slot[nodes[i].keyno] == i
  {
  }

  lemma LiveSlot<T>(nodes: seq<Node<T>>, hash: nat, x: Index, k: nat)
    requires Wf(nodes, hash, x) && k in x.slot
    ensures 0 < k && x.slot[k] < |x.place| <= |nodes| && nodes[x.slot[k]].keyno == k
    ensures MapOf(nodes, x)[k] == nodes[x.slot[k]].value
  {
  }

  /** Scanning the array meets every live key once. */
  lemma ScanNode<T>(nodes: seq<Node<T>>, hash: nat, x: Index, i: nat)
    requires Wf(nodes, hash, x) && i < |nodes|
    ensures nodes[i].keyno > 0 ==>
              nodes[i].keyno in x.slot && x.slot[nodes[i].keyno] == i
              && MapOf(nodes, x)[nodes[i].keyno] == nodes[i].value
    ensures forall k :: k in x.slot ==> x.slot[k] < |nodes| && (x.slot[k] == i ==> k == nodes[i].keyno > 0)
  {
  }

  lemma BoundedKeys<T>(nodes: seq<Node<T>>, hash: nat, x: Index)
    requires Wf(nodes, hash, x)
    ensures forall k :: k in x.slot ==> x.slot[k] < |nodes|
  {
  }

  /** One step along a chain. */
  lemma ChainStep<T>(nodes: seq<Node<T>>, hash: nat, x: Index, b: nat, k: nat)
    requires Wf(nodes, hash, x) && b < hash && b < |x.chains| && k < |x.chains[b]|
    ensures var c := x.chains[b];
            && c[0] == b && c[k] < |x.place| <= |nodes| && x.place[c[k]] == (b, k)
            && nodes[c[k]].next == After(c, k)
            && (k + 1 < |c| <==> nodes[c[k]].next != 0)
            && (k + 1 < |c| ==> c[k + 1] < |x.place|)
  {
    assert ChainOk(nodes, hash, x, b, x.chains[b]);
    if k + 1 < |x.chains[b]| {
      assert x.chains[b][k + 1] >= hash;
    }
  }

  lemma BucketChain<T>(nodes: seq<Node<T>>, hash: nat, x: Index, b: nat)
    requires Wf(nodes, hash, x) && b < hash
    ensures |x.chains| == hash && |x.chains[b]| > 0 && |x.place| <= |nodes|
  {
    assert ChainOk(nodes, hash, x, b, x.chains[b]);
  }

  /** A key that none of the nodes of its bucket's chain holds is not in the table. */
  lemma NotInChain<T>(nodes: seq<Node<T>>, hash: nat, x: Index, keyno: nat)
    requires Wf(nodes, hash, x) && keyno % hash < |x.chains|
    requires forall j :: 0 <= j < |x.chains[keyno % hash]| ==>
               x.chains[keyno % hash][j] < |nodes| && nodes[x.chains[keyno % hash][j]].keyno != keyno
    ensures keyno !in x.slot
  {
    if keyno in x.slot {
      SlotInChain(nodes, hash, x, keyno);
      LiveSlot(nodes, hash, x, keyno);
    }
  }

  // ----- growth

  /** The sizes after a reallocation. */
  function GrownHash(hash: nat): nat {
    hash * 12 / 10
  }

  function GrownData(hash: nat, data: nat): (d: nat) {
    (hash + data) * 12 / 10 - GrownHash(hash)
  }

  /** Exactly when a reallocation makes the overflow area larger; with at least five nodes it always does. */
  lemma GrowthExact(hash: nat, data: nat)
    ensures GrownHash(hash) >= hash && GrownData(hash, data) >= data
    ensures GrownData(hash, data) > data <==> hash % 5 + data >= 5
    ensures data >= 5 ==> GrownData(hash, data) > data
  {
    TwelveTenths(hash);
    TwelveTenths(hash + data);
    var q, r := hash / 5, hash % 5;
    assert hash + data == 5 * q + (r + data);
    assert (hash + data) / 5 >= q + 1 <==> r + data >= 5;
  }

  lemma TwelveTenths(n: nat)
    ensures n * 12 / 10 == n + n / 5
  {
    var q, r := n / 5, n % 5;
    assert n * 12 == 10 * (6 * q + r) + 2 * r;
  }

  /** Very small tables never grow: the new sizes are the old ones, so Add, Realloc and Add again would
      go on for ever. */
  lemma NoGrowth(hash: nat, data: nat)
    requires hash + data < 5
    ensures GrownHash(hash) == hash && GrownData(hash, data) == data
  {
  }

  /** The table as a whole grows exactly when it has at least five nodes. */
  lemma GrowthSum(hash: nat, data: nat)
    ensures GrownHash(hash) >= hash && GrownData(hash, data) >= data
    ensures GrownHash(hash) + GrownData(hash, data) > hash + data <==> hash + data >= 5
  {
    TwelveTenths(hash);
    TwelveTenths(hash + data);
  }

  // ----- room

  /** The bucket heads that keys use. */
  ghost function Buckets(keys: set<nat>, hash: nat): set<nat>
    requires hash > 0
  {
    set k | k in keys :: k % hash
  }

  /** The overflow nodes that keys need: one for each key that is not alone or first in its bucket. */
  ghost function Need(keys: set<nat>, hash: nat): int
    requires hash > 0
  {
    |keys| - |Buckets(keys, hash)|
  }

  /** Whether keys find room: a table of five nodes or more grows until they do, a smaller one never grows. */
  ghost predicate Fits(keys: set<nat>, hash: nat, data: nat)
    requires hash > 0
  {
    hash + data >= 5 || Need(keys, hash) <= data
  }

  lemma {:induction false} Injects(from: set<nat>, m: map<nat, nat>, to: set<nat>)
    requires from <= m.Keys && forall k :: k in from ==> m[k] in to
    requires forall k, l :: k in from && l in from && m[k] == m[l] ==> k == l
    ensures |from| <= |to|
  {
    if from != {} {
      var k :| k in from;
      Injects(from - {k}, m, to - {m[k]});
    }
  }

  ghost function Range(lo: nat, hi: nat): (r: set<nat>)
    ensures forall i :: i in r <==> lo <= i < hi
    ensures lo <= hi ==> |r| == hi - lo
  {
    if lo >= hi then {} else Range(lo, hi - 1) + {hi - 1}
  }

  lemma OneMore(keys: set<nat>, k: nat, hash: nat)
    requires hash > 0 && k !in keys
    ensures Need(keys, hash) <= Need(keys + {k}, hash)
    ensures k % hash in Buckets(keys, hash) ==> Need(keys + {k}, hash) == Need(keys, hash) + 1
  {
    var b, b' := Buckets(keys, hash), Buckets(keys + {k}, hash);
    assert b' == b + {k % hash};
    assert |keys + {k}| == |keys| + 1;
    assert k % hash in b ==> b' == b;
  }

  /** More keys need no fewer nodes. */
  lemma {:induction false} NeedGrows(keys: set<nat>, more: set<nat>, hash: nat)
    requires hash > 0 && keys <= more
    ensures Need(keys, hash) <= Need(more, hash)
    decreases more
  {
    if keys != more {
      assert !(more <= keys);
      var k :| k in more && k !in keys;
      NeedGrows(keys, more - {k}, hash);
      OneMore(more - {k}, k, hash);
      assert more - {k} + {k} == more;
    }
  }

  ghost function AtHeads(x: Index, hash: nat): set<nat> {
    set k | k in x.slot && x.slot[k] < hash
  }

  ghost function Behind(x: Index, hash: nat): set<nat> {
    set k | k in x.slot && x.slot[k] >= hash
  }

  lemma HeadsAndBehind(x: Index, hash: nat)
    ensures |x.slot.Keys| == |AtHeads(x, hash)| + |Behind(x, hash)|
  {
    assert x.slot.Keys == AtHeads(x, hash) + Behind(x, hash);
    assert AtHeads(x, hash) !! Behind(x, hash);
  }

  /** The overflow nodes in use are at least as many as the keys need. */
  lemma UsedCoversNeed<T>(nodes: seq<Node<T>>, hash: nat, x: Index)
    requires Wf(nodes, hash, x)
    ensures Need(x.slot.Keys, hash) <= |x.place| - hash
  {
    HeadsAndBehind(x, hash);
    forall k | k in x.slot
      ensures x.slot[k] < |x.place| && nodes[x.slot[k]].keyno == k && (x.slot[k] < hash ==> x.slot[k] == k % hash)
    {
      LiveSlot(nodes, hash, x, k);
      SlotInChain(nodes, hash, x, k);
      if x.slot[k] < hash {
        HeadPlace(nodes, hash, x, x.slot[k]);
      }
    }
    hide Wf;
    Injects(Behind(x, hash), x.slot, Range(hash, |x.place|));
    Injects(AtHeads(x, hash), x.slot, Buckets(x.slot.Keys, hash));
  }

  lemma HeadPlace<T>(nodes: seq<Node<T>>, hash: nat, x: Index, b: nat)
    requires Wf(nodes, hash, x) && b < hash
    ensures b < |x.place| && x.place[b] == (b, 0)
  {
    assert ChainOk(nodes, hash, x, b, x.chains[b]);
  }

  /** Empty nodes are only heads of chains that have no other node: nothing was erased. */
  ghost predicate Compact<T>(nodes: seq<Node<T>>, hash: nat, x: Index) {
    && hash <= |x.chains| && |x.place| <= |nodes|
    && forall i :: 0 <= i < |x.place| && nodes[i].keyno == 0 ==> i < hash && |x.chains[i]| == 1
  }

  /** Then no more overflow nodes are in use than the keys need. */
  lemma CompactUsesNeed<T>(nodes: seq<Node<T>>, hash: nat, x: Index)
    requires Wf(nodes, hash, x) && Compact(nodes, hash, x)
    ensures |x.place| - hash <= Need(x.slot.Keys, hash)
  {
    HeadsAndBehind(x, hash);
    var buckets := Buckets(x.slot.Keys, hash);
    var keyAt := map i: nat | i < |x.place| :: nodes[i].keyno;
    forall i | i in Range(hash, |x.place|) ensures keyAt[i] in Behind(x, hash) && x.slot[keyAt[i]] == i {
      LiveNode(nodes, hash, x, i);
    }
    forall b | b in buckets ensures b in keyAt && keyAt[b] in AtHeads(x, hash) && x.slot[keyAt[b]] == b {
      var k :| k in x.slot && k % hash == b;
      HeadLives(nodes, hash, x, k);
      LiveNode(nodes, hash, x, b);
    }
    hide Wf, Compact;
    Injects(Range(hash, |x.place|), keyAt, Behind(x, hash));
    Injects(buckets, keyAt, AtHeads(x, hash));
  }

  lemma FillCompact<T>(nodes: seq<Node<T>>, hash: nat, x: Index, i: nat, keyno: nat, v: T)
    requires i < |nodes| && keyno > 0 && Compact(nodes, hash, x)
    ensures Compact(nodes[i := Node(keyno, v, nodes[i].next)], hash, x.(slot := x.slot[keyno := i]))
  {
  }

  lemma AppendCompact<T>(nodes: seq<Node<T>>, hash: nat, x: Index, last: nat, keyno: nat, v: T)
    requires Wf(nodes, hash, x) && Compact(nodes, hash, x) && last < |x.place| < |nodes| && keyno > 0
    requires keyno % hash < |x.chains| && nodes[keyno % hash].keyno > 0
    ensures var n := |x.place|;
            Compact(nodes[last := nodes[last].(next := n)][n := Node(keyno, v, 0)], hash,
                    Appended(x, keyno % hash, n, keyno))
  {
    hide Wf;
  }

  lemma EmptyCompact<T>(nodes: seq<Node<T>>, hash: nat)
    requires hash <= |nodes|
    ensures Compact(nodes, hash, EmptyIndex(hash))
  {
  }

  lemma HeadLives<T>(nodes: seq<Node<T>>, hash: nat, x: Index, k: nat)
    requires Wf(nodes, hash, x) && Compact(nodes, hash, x) && k in x.slot
    ensures k % hash < |x.place| && nodes[k % hash].keyno > 0
  {
    SlotInChain(nodes, hash, x, k);
    LiveSlot(nodes, hash, x, k);
    HeadPlace(nodes, hash, x, k % hash);
  }

  /** A key that must share its bucket needs a node that a compact full table does not have. */
  lemma CrowdedNeeds<T>(nodes: seq<Node<T>>, hash: nat, x: Index, keyno: nat)
    requires Wf(nodes, hash, x) && Compact(nodes, hash, x) && keyno !in x.slot
    requires keyno % hash < |nodes| && nodes[keyno % hash].keyno > 0
    ensures Need(x.slot.Keys + {keyno}, hash) > |x.place| - hash
  {
    HeadPlace(nodes, hash, x, keyno % hash);
    SharedBucket(nodes, hash, x, keyno);
    CompactUsesNeed(nodes, hash, x);
    UsedCoversNeed(nodes, hash, x);
    OneMore(x.slot.Keys, keyno, hash);
  }

  lemma SharedBucket<T>(nodes: seq<Node<T>>, hash: nat, x: Index, keyno: nat)
    requires Wf(nodes, hash, x) && keyno % hash < |x.place| && nodes[keyno % hash].keyno > 0
    ensures keyno % hash in Buckets(x.slot.Keys, hash)
  {
    var other := nodes[keyno % hash].keyno;
    HeadPlace(nodes, hash, x, keyno % hash);
    LiveNode(nodes, hash, x, keyno % hash);
    SlotInChain(nodes, hash, x, other);
    assert other in x.slot && other % hash == keyno % hash;
  }

  /** The sizes after any number of reallocations. */
  function GrownTimes(hash: nat, data: nat, n: nat): (nat, nat)
    decreases n
  {
    if n == 0 then (hash, data) else
      GrowthSum(hash, data);
      GrownTimes(GrownHash(hash), GrownData(hash, data), n - 1)
  }

  lemma {:induction false} NeverGrows(hash: nat, data: nat, n: nat)
    requires hash + data < 5
    ensures GrownTimes(hash, data, n) == (hash, data)
  {
    if n > 0 {
      NoGrowth(hash, data);
      NeverGrows(hash, data, n - 1);
    }
  }

  lemma {:induction false} GrownMore(hash: nat, data: nat, n: nat)
    ensures GrownTimes(hash, data, n).0 >= hash
    ensures GrownTimes(hash, data, n).0 + GrownTimes(hash, data, n).1 >= hash + data
    decreases n
  {
    if n > 0 {
      GrowthSum(hash, data);
      GrownMore(GrownHash(hash), GrownData(hash, data), n - 1);
    }
  }

  /** Below five nodes, keys that do not fit never will: no table that any number of reallocations leads to can
      hold them, in whatever order they came and whatever was erased in between. */
  lemma NeverRoom<T>(hash: nat, data: nat, n: nat, nodes: seq<Node<T>>, x: Index)
    requires 0 < hash && hash + data < 5 && |nodes| == GrownTimes(hash, data, n).0 + GrownTimes(hash, data, n).1
    requires GrownTimes(hash, data, n).0 > 0 && Wf(nodes, GrownTimes(hash, data, n).0, x)
    ensures Fits(x.slot.Keys, hash, data)
  {
    NeverGrows(hash, data, n);
    UsedCoversNeed(nodes, hash, x);
    BucketChain(nodes, hash, x, 0);
  }

  // ----- room in memory whose size is an int

  const HEAD_BYTES: nat := 32

  /** The memory for a table of n nodes of the given size each. */
  function Bytes(n: nat, unit: nat): nat {
    HEAD_BYTES + unit * n
  }

  lemma BytesMonotonic(m: nat, n: nat, unit: nat)
    requires m <= n
    ensures Bytes(m, unit) <= Bytes(n, unit)
  {
    assert unit * n == unit * m + unit * (n - m);
  }

  /** In a table that fits, the new sizes are computed without overflow, and the new number of bytes is below 2^32:
      as an int it is negative if and only if it does not fit one. */
  lemma GrownBytes(n: nat, unit: nat)
    requires unit >= 12 && Bytes(n, unit) < TWO31
    ensures n * 12 < TWO31 && n < TWO31
    ensures Wrap32(Bytes(n * 12 / 10, unit)) < 0 <==> Bytes(n * 12 / 10, unit) >= TWO31
  {
    assert unit * n == 12 * n + (unit - 12) * n;
    FifthMore(n, unit);
    Negative(Bytes(n * 12 / 10, unit));
  }

  lemma FifthMore(n: nat, unit: nat)
    ensures 10 * (unit * (n * 12 / 10)) <= 12 * (unit * n)
  {
    var m := n * 12 / 10;
    assert 10 * m <= 12 * n;
    Times(unit, 10 * m, 12 * n);
    Regrouped(unit, m, 10);
    Regrouped(unit, n, 12);
  }

  lemma Regrouped(a: nat, b: nat, c: nat)
    ensures a * (c * b) == c * (a * b)
  {
  }

  lemma Times(unit: nat, m: nat, n: nat)
    requires m <= n
    ensures unit * m <= unit * n
  {
    assert unit * n == unit * m + unit * (n - m);
  }

  lemma GrownBytesOfHeads(hash: nat, data: nat, unit: nat)
    requires unit >= 12 && (hash + data) * 12 < TWO31
    ensures Quotient(Wrap32(hash * 12), 10) == GrownHash(hash)
    ensures Quotient(Wrap32((hash + data) * 12), 10) == (hash + data) * 12 / 10
  {
  }

  lemma Negative(n: nat)
    requires n < 2 * TWO31
    ensures Wrap32(n) < 0 <==> n >= TWO31
  {
  }

  /** A table of integers, of 12 bytes a node, can be reallocated if and only if it has at most 149130806 nodes. */
  lemma LastGrowth(n: nat)
    ensures Bytes(n * 12 / 10, 12) < TWO31 <==> n <= 149130806
  {
    TwelveTenths(n);
  }

  /** Some number of reallocations leads to a size that fits and has the nodes that the keys need. */
  ghost predicate Room(keys: set<nat>, hash: nat, data: nat, unit: nat) {
    exists n: nat :: RoomAfter(keys, hash, data, unit, n)
  }

  ghost predicate RoomAfter(keys: set<nat>, hash: nat, data: nat, unit: nat, n: nat) {
    var (h, d) := GrownTimes(hash, data, n);
    h > 0 && Bytes(h + d, unit) < TWO31 && Need(keys, h) <= d
  }

  lemma RoomStep(keys: set<nat>, hash: nat, data: nat, unit: nat)
    requires hash > 0
    ensures GrownHash(hash) >= 0 && GrownData(hash, data) >= 0
    ensures Room(keys, hash, data, unit) <==>
            (Bytes(hash + data, unit) < TWO31 && Need(keys, hash) <= data)
            || Room(keys, GrownHash(hash), GrownData(hash, data), unit)
  {
    GrowthSum(hash, data);
    var h, d := GrownHash(hash), GrownData(hash, data);
    hide GrownHash, GrownData, Need, Bytes;
    if Room(keys, hash, data, unit) {
      var n: nat :| RoomAfter(keys, hash, data, unit, n);
      if n > 0 {
        assert RoomAfter(keys, h, d, unit, n - 1);
      }
    } else {
      assert !RoomAfter(keys, hash, data, unit, 0);
      forall n: nat ensures !RoomAfter(keys, h, d, unit, n) {
        assert !RoomAfter(keys, hash, data, unit, n + 1);
      }
    }
  }

  /** Room for the keys is found by reallocating a table of the given sizes. */
  ghost predicate RoomBeyond(keys: set<nat>, hash: nat, data: nat, unit: nat) {
    Room(keys, GrownHash(hash), GrownData(hash, data), unit)
  }

  lemma RoomHere<T>(nodes: seq<Node<T>>, hash: nat, data: nat, x: Index, unit: nat)
    requires Wf(nodes, hash, x) && 0 < hash && |x.place| <= hash + data && Bytes(hash + data, unit) < TWO31
    ensures Room(x.slot.Keys, hash, data, unit)
  {
    UsedCoversNeed(nodes, hash, x);
    hide *;
    RoomStep(x.slot.Keys, hash, data, unit);
  }

  /** Beyond the range of an int there is no room for anything. */
  lemma NoRoomBeyond(keys: set<nat>, hash: nat, data: nat, unit: nat)
    requires Bytes(hash + data, unit) >= TWO31
    ensures !Room(keys, hash, data, unit)
  {
    forall n: nat ensures !RoomAfter(keys, hash, data, unit, n) {
      var (h, d) := GrownTimes(hash, data, n);
      GrownMore(hash, data, n);
      BytesMonotonic(hash + data, h + d, unit);
    }
  }

  /** One size leads to another by reallocations. */
  ghost predicate Reaches(hash: nat, data: nat, h: nat, d: nat) {
    exists n: nat :: GrownTimes(hash, data, n) == (h, d)
  }

  lemma ReachesItself(hash: nat, data: nat)
    ensures Reaches(hash, data, hash, data)
  {
    assert GrownTimes(hash, data, 0) == (hash, data);
  }

  lemma ReachesGrown(hash: nat, data: nat, h: nat, d: nat)
    requires GrownData(hash, data) >= 0 && Reaches(GrownHash(hash), GrownData(hash, data), h, d)
    ensures Reaches(hash, data, h, d)
  {
    hide GrownHash, GrownData;
    var n: nat :| GrownTimes(GrownHash(hash), GrownData(hash, data), n) == (h, d);
    assert GrownTimes(hash, data, n + 1) == (h, d);
  }

  lemma ReachesOn(hash: nat, data: nat, h: nat, d: nat, h': nat, d': nat)
    requires Reaches(hash, data, h, d) && Reaches(h, d, h', d')
    ensures Reaches(hash, data, h', d')
  {
    var n: nat :| GrownTimes(hash, data, n) == (h, d);
    var m: nat :| GrownTimes(h, d, m) == (h', d');
    GrownSum(hash, data, n, m);
  }

  lemma {:induction false} GrownSum(hash: nat, data: nat, n: nat, m: nat)
    ensures var (h, d) := GrownTimes(hash, data, n); GrownTimes(hash, data, n + m) == GrownTimes(h, d, m)
    decreases n
  {
    if n > 0 {
      GrowthSum(hash, data);
      hide GrownHash, GrownData;
      GrownSum(GrownHash(hash), GrownData(hash, data), n - 1, m);
    }
  }

  // ----- growth towards room

  /** Reallocations lead from one size to another without passing by one that has room for the keys. */
  ghost predicate Leads(keys: set<nat>, hash: nat, data: nat, h: nat, d: nat, unit: nat) {
    && (Room(keys, hash, data, unit) <==> Room(keys, h, d, unit))
    && Ahead(keys, hash, data, h, d, unit)
  }

  /** Every size with room that can be reached from the first one can be reached from the second. */
  ghost predicate Ahead(keys: set<nat>, hash: nat, data: nat, h: nat, d: nat, unit: nat) {
    forall n: nat :: RoomAfter(keys, hash, data, unit, n) ==>
      Reaches(h, d, GrownTimes(hash, data, n).0, GrownTimes(hash, data, n).1)
  }

  lemma LeadsItself(keys: set<nat>, hash: nat, data: nat, unit: nat)
    ensures Leads(keys, hash, data, hash, data, unit)
  {
    hide RoomAfter, GrownTimes;
    forall n: nat | RoomAfter(keys, hash, data, unit, n)
      ensures Reaches(hash, data, GrownTimes(hash, data, n).0, GrownTimes(hash, data, n).1)
    {
      assert GrownTimes(hash, data, n) == (GrownTimes(hash, data, n).0, GrownTimes(hash, data, n).1);
    }
  }

  lemma LeadsOn(keys: set<nat>, hash: nat, data: nat, h: nat, d: nat, h': nat, d': nat, unit: nat)
    requires Leads(keys, hash, data, h, d, unit) && Leads(keys, h, d, h', d', unit)
    ensures Leads(keys, hash, data, h', d', unit)
  {
    hide Room, Need, Bytes, GrownTimes;
    forall n: nat | RoomAfter(keys, hash, data, unit, n)
      ensures Reaches(h', d', GrownTimes(hash, data, n).0, GrownTimes(hash, data, n).1)
    {
      var (a, b) := GrownTimes(hash, data, n);
      assert Reaches(h, d, a, b);
      var m: nat :| GrownTimes(h, d, m) == (a, b);
      assert RoomAfter(keys, h, d, unit, m);
    }
  }

  /** A size without room leads to the next one. */
  lemma LeadsToNext(keys: set<nat>, hash: nat, data: nat, unit: nat)
    requires hash > 0 && Need(keys, hash) > data
    ensures Leads(keys, hash, data, GrownHash(hash), GrownData(hash, data), unit)
  {
    RoomStep(keys, hash, data, unit);
    GrowthSum(hash, data);
    var h, d := GrownHash(hash), GrownData(hash, data);
    hide Room, Need, Bytes, GrownHash, GrownData;
    forall n: nat | RoomAfter(keys, hash, data, unit, n)
      ensures Reaches(h, d, GrownTimes(hash, data, n).0, GrownTimes(hash, data, n).1)
    {
      assert n > 0;
      assert GrownTimes(h, d, n - 1) == GrownTimes(hash, data, n);
    }
  }

  // ----- the table

  function Max0(n: int): nat {
    if n > 0 then n else 0
  }

  lemma {:induction false} SubsetSize(a: set<nat>, b: set<nat>)
    requires a <= b
    ensures |a| <= |b|
  {
    if a != {} {
      var k :| k in a;
      SubsetSize(a - {k}, b - {k});
    }
  }

  lemma StillFits(keys: set<nat>, hash: nat, data: nat, h: nat, d: nat)
    requires hash > 0 && Fits(keys, hash, data) && Grew(hash, data, h, d)
    ensures Fits(keys, h, d)
  {
    hide Need, Reaches;
  }

  /** Sizes that reallocations lead to; below five nodes they stay. */
  ghost predicate Grew(hash: nat, data: nat, h: nat, d: nat) {
    && Reaches(hash, data, h, d) && h >= hash && d >= data
    && (hash + data < 5 ==> h == hash && d == data)
  }

  lemma GrewOn(hash: nat, data: nat, h: nat, d: nat, h': nat, d': nat)
    requires Grew(hash, data, h, d) && Grew(h, d, h', d')
    ensures Grew(hash, data, h', d')
  {
    hide Reaches;
    ReachesOn(hash, data, h, d, h', d');
  }

  lemma GrewItself(hash: nat, data: nat)
    ensures Grew(hash, data, hash, data)
  {
    ReachesItself(hash, data);
  }

  ghost predicate ChainFull<T>(nodes: seq<Node<T>>, hash: nat, x: Index, b: nat)
    requires Wf(nodes, hash, x) && b < hash
  {
    forall j :: 0 <= j < |x.chains[b]| ==> nodes[x.chains[b][j]].keyno > 0
  }

  ghost predicate Part<T>(m: map<nat, T>, all: map<nat, T>) {
    forall k :: k in m ==> k in all && m[k] == all[k]
  }

  class Table<T> {
    const zero: T
    /** The bytes of one node. */
    const unit: nat
    /** False once a reallocation has destroyed the memory and got none in exchange. */
    var attached: bool
    var hashSize: nat
    var dataSize: nat
    var usedSize: nat
    var totalSize: nat
    var nodes: array<Node<T>>
    /** The iterator: -1 is the NULL pointer that Begin sets. */
    var cursor: int
    ghost var index: Index

    ghost predicate Valid()
      reads this, nodes
    {
      && attached && 0 < hashSize && nodes.Length == hashSize + dataSize && usedSize <= dataSize
      && unit >= 12 && Bytes(hashSize + dataSize, unit) < TWO31
      && |index.place| == hashSize + usedSize
      && Wf(nodes[..], hashSize, index)
      && |index.slot| <= totalSize
    }

    /** The map that the table stands for. */
    ghost function Map(): (m: map<nat, T>)
      reads this, nodes
      requires Valid()
      ensures m.Keys == index.slot.Keys
    {
      MapOf(nodes[..], index)
    }

    /** The table was not erased from since it was allocated. */
    ghost predicate Tight()
      reads this, nodes
    {
      Compact(nodes[..], hashSize, index)
    }

    /** Every node of the bucket's chain is live, and every overflow node is used. */
    ghost predicate Crowded(keyno: nat)
      reads this, nodes
      requires Valid()
    {
      ChainFull(nodes[..], hashSize, index, keyno % hashSize) && usedSize == dataSize
    }

    /** The key is there, its bucket or the overflow area has a free node, or reallocations make room for it. */
    ghost predicate Takes(keyno: nat)
      reads this, nodes
      requires Valid()
    {
      keyno in Map() || !Crowded(keyno) || RoomBeyond(index.slot.Keys + {keyno}, hashSize, dataSize, unit)
    }

    /** The outcome of a reallocation from the given sizes: no size with room for all the keys was passed by, or
        there was none. */
    ghost predicate Settled(all: set<nat>, hash: nat, data: nat, ok: bool)
      reads this
    {
      if ok then Leads(all, GrownHash(hash), GrownData(hash, data), hashSize, dataSize, unit)
      else !Room(all, GrownHash(hash), GrownData(hash, data), unit)
    }

    constructor (zero: T, unit: nat, nhash: nat, nrec: nat)
      requires 0 < nhash <= nrec && unit >= 12 && Bytes(nrec, unit) < TWO31
      ensures Valid() && fresh(nodes) && Map() == map[] && this.unit == unit
      ensures hashSize == nhash && dataSize == nrec - nhash && totalSize == 0
    {
      this.zero, this.unit, attached := zero, unit, true;
      hashSize, dataSize, usedSize, totalSize := nhash, nrec - nhash, 0, 0;
      nodes := new Node<T>[nrec](_ => Node(0, zero, 0));
      cursor := -1;
      index := EmptyIndex(nhash);
      new;
      EmptyWf(nodes[..], nhash);
    }

    /** The node of a key, or -1. Follows the chain of the key's bucket. */
    method Find(keyno: nat) returns (p: int)
      requires Valid() && keyno > 0
      ensures p >= 0 <==> keyno in Map()
      ensures p >= 0 ==> keyno in index.slot && p == index.slot[keyno] && p < nodes.Length
                         && nodes[p].keyno == keyno && nodes[p].value == Map()[keyno]
    {
      hide Wf, MapOf;
      var hash := keyno % hashSize;
      BucketChain(nodes[..], hashSize, index, hash);
      ghost var c := index.chains[hash];
      ghost var k := 0;
      ChainStep(nodes[..], hashSize, index, hash, 0);
      p := hash;
      while true
        invariant k < |c| && p == c[k] && p < hashSize + usedSize
        invariant forall j :: 0 <= j < k ==> c[j] < nodes.Length && nodes[c[j]].keyno != keyno
        decreases |c| - k
      {
        ChainStep(nodes[..], hashSize, index, hash, k);
        if nodes[p].keyno == keyno {
          LiveNode(nodes[..], hashSize, index, p);
          LiveSlot(nodes[..], hashSize, index, keyno);
          return;
        }
        if nodes[p].next == 0 {
          break;
        }
        p := nodes[p].next;
        k := k + 1;
      }
      NotInChain(nodes[..], hashSize, index, keyno);
      p := -1;
    }

    /** Walks the chain of a bucket to an empty node, or to the last node. */
    method LastInChain(hash: nat) returns (last: nat, empty: bool)
      requires Valid() && hash < hashSize
      ensures last < hashSize + usedSize && index.place[last].0 == hash
      ensures empty == (nodes[last].keyno == 0)
      ensures empty == !ChainFull(nodes[..], hashSize, index, hash)
      ensures !empty ==> nodes[last].next == 0 && nodes[hash].keyno > 0
    {
      hide Wf, MapOf;
      BucketChain(nodes[..], hashSize, index, hash);
      ghost var c := index.chains[hash];
      ghost var k := 0;
      ChainStep(nodes[..], hashSize, index, hash, 0);
      last := hash;
      while true
        invariant k < |c| && last == c[k] && last < hashSize + usedSize
        invariant k > 0 ==> nodes[hash].keyno > 0
        invariant forall j :: 0 <= j < k ==> c[j] < nodes.Length && nodes[c[j]].keyno > 0
        decreases |c| - k
      {
        ChainStep(nodes[..], hashSize, index, hash, k);
        if nodes[last].keyno == 0 {
          return last, true;
        }
        if nodes[last].next == 0 {
          return last, false;
        }
        last := nodes[last].next;
        k := k + 1;
      }
    }

    /** Adds a key that is not in the table. A full overflow area is reallocated first, which adds every live key to
        the new table in turn and may reallocate again. It fails only when there is no room up to 2^31 bytes for
        all the keys that are to be added, and then the table is gone. */
    method Add(keyno: nat, v: T, ghost all: set<nat>) returns (ok: bool)
      requires Valid() && keyno > 0 && keyno !in Map() && index.slot.Keys + {keyno} <= all
      requires Fits(index.slot.Keys + {keyno}, hashSize, dataSize)
      modifies this, nodes
      ensures ok ==> Valid() && (nodes == old(nodes) || fresh(nodes)) && (old(Tight()) ==> Tight())
      ensures ok ==> Map() == old(Map())[keyno := v] && cursor == old(cursor)
      ensures ok ==> Grew(old(hashSize), old(dataSize), hashSize, dataSize)
      ensures !old(Crowded(keyno)) ==> ok && hashSize == old(hashSize) && dataSize == old(dataSize)
      ensures !old(Crowded(keyno)) ==> usedSize <= old(usedSize) + 1
      ensures old(Crowded(keyno)) ==> Settled(all, old(hashSize), old(dataSize), ok) && (ok ==> Tight())
      decreases if Tight() then 0 else 1, Max0(TWO31 - hashSize - dataSize), 1
    {
      hide Wf, MapOf, Compact, Need, Bytes, Reaches, Room, Leads, ChainFull, GrownHash, GrownData;
      BucketChain(nodes[..], hashSize, index, 0);
      GrewItself(hashSize, dataSize);
      var hash := keyno % hashSize;
      var newone, empty := LastInChain(hash);
      if empty {
        Fill(newone, keyno, v);
        return true;
      }
      if usedSize >= dataSize {
        MustGrow(keyno);
        GrownBytes(hashSize + dataSize, unit);
        ok := Realloc(all);
        if ok {
          ghost var h, d, crowded := hashSize, dataSize, Crowded(keyno);
          GoesOn(keyno, all);
          ok := Add(keyno, v, all);
          if ok {
            GrewOn(old(hashSize), old(dataSize), h, d, hashSize, dataSize);
          }
          SettledOn(all, old(hashSize), old(dataSize), h, d, crowded, ok);
        }
        return;
      }
      Append(newone, keyno, v);
      return true;
    }

    /** Stores a key in an empty node of its chain. */
    method Fill(newone: nat, keyno: nat, v: T)
      requires Valid() && keyno > 0 && keyno !in Map()
      requires newone < hashSize + usedSize && nodes[newone].keyno == 0 && index.place[newone].0 == keyno % hashSize
      modifies this`index, this`totalSize, nodes
      ensures Valid() && Map() == old(Map())[keyno := v] && (old(Tight()) ==> Tight())
    {
      hide Wf, MapOf, Compact;
      FillWf(nodes[..], hashSize, index, newone, keyno, v);
      if Tight() {
        FillCompact(nodes[..], hashSize, index, newone, keyno, v);
      }
      nodes[newone] := Node(keyno, v, nodes[newone].next);
      index := index.(slot := index.slot[keyno := newone]);
      totalSize := totalSize + 1;
    }

    /** Links a fresh node behind the last one of a chain. */
    method Append(last: nat, keyno: nat, v: T)
      requires Valid() && keyno > 0 && keyno !in Map() && usedSize < dataSize
      requires last < hashSize + usedSize && nodes[last].next == 0 && index.place[last].0 == keyno % hashSize
      requires nodes[keyno % hashSize].keyno > 0
      modifies this`index, this`totalSize, this`usedSize, nodes
      ensures Valid() && Map() == old(Map())[keyno := v] && (old(Tight()) ==> Tight())
      ensures usedSize == old(usedSize) + 1
    {
      hide Wf, MapOf, Compact;
      BucketChain(nodes[..], hashSize, index, 0);
      AppendWf(nodes[..], hashSize, index, last, keyno, v);
      if Tight() {
        AppendCompact(nodes[..], hashSize, index, last, keyno, v);
      }
      var newone := hashSize + usedSize;
      nodes[last] := nodes[last].(next := newone);
      nodes[newone] := Node(keyno, v, 0);
      usedSize := usedSize + 1;
      index := Appended(index, keyno % hashSize, newone, keyno);
      totalSize := totalSize + 1;
    }

    /** A table that nothing was erased from is reallocated only if it can grow. */
    lemma MustGrow(keyno: nat)
      requires Valid() && keyno !in Map() && usedSize == dataSize
      requires nodes[keyno % hashSize].keyno > 0 && Fits(index.slot.Keys + {keyno}, hashSize, dataSize)
      ensures Tight() ==> hashSize + dataSize >= 5
    {
      if Tight() {
        CrowdedNeeds(nodes[..], hashSize, index, keyno);
      }
    }

    /** When it has to be reallocated, it has no room itself. */
    lemma GoesOn(keyno: nat, all: set<nat>)
      requires Valid() && Tight() && keyno !in Map() && index.slot.Keys + {keyno} <= all
      ensures Crowded(keyno) ==>
                Leads(all, hashSize, dataSize, GrownHash(hashSize), GrownData(hashSize, dataSize), unit)
    {
      if Crowded(keyno) {
        var b := keyno % hashSize;
        BucketChain(nodes[..], hashSize, index, b);
        HeadPlace(nodes[..], hashSize, index, b);
        assert nodes[..][index.chains[b][0]].keyno > 0;
        hide Wf, MapOf, Compact, Need, Room, Bytes;
        CrowdedNeeds(nodes[..], hashSize, index, keyno);
        NeedGrows(index.slot.Keys + {keyno}, all, hashSize);
        LeadsToNext(all, hashSize, dataSize, unit);
      }
    }

    /** A table has room for its keys. */
    lemma HasRoom()
      requires Valid()
      ensures Room(index.slot.Keys, hashSize, dataSize, unit)
    {
      hide Wf, MapOf, Room, Bytes;
      RoomHere(nodes[..], hashSize, dataSize, index, unit);
    }

    /** Two reallocations, the second one if the first was not enough. */
    lemma SettledOn(all: set<nat>, hash: nat, data: nat, h: nat, d: nat, crowded: bool, ok: bool)
      requires Leads(all, GrownHash(hash), GrownData(hash, data), h, d, unit)
      requires if crowded then Leads(all, h, d, GrownHash(h), GrownData(h, d), unit) && Settled(all, h, d, ok)
               else ok && hashSize == h && dataSize == d
      ensures Settled(all, hash, data, ok)
    {
      var h0, d0 := GrownHash(hash), GrownData(hash, data);
      var h1, d1 := GrownHash(h), GrownData(h, d);
      hide GrownHash, GrownData, Room, Ahead;
      if crowded {
        LeadsOn(all, h0, d0, h, d, h1, d1, unit);
        if ok {
          LeadsOn(all, h0, d0, h1, d1, hashSize, dataSize, unit);
        }
      }
    }

    /** While nothing was erased, no more overflow nodes are used than there are keys. */
    lemma FewNodesUsed()
      requires Valid()
      ensures Tight() ==> usedSize <= |index.slot.Keys|
    {
      if Tight() {
        CompactUsesNeed(nodes[..], hashSize, index);
      }
    }

    /** Replaces the table by one with the same contents, which is larger if the table has five nodes or more,
        and not erased from. */
    method Realloc(ghost all: set<nat>) returns (ok: bool)
      requires Valid() && index.slot.Keys <= all
      requires Tight() ==> hashSize + dataSize >= 5
      modifies this
      ensures ok ==> Valid() && fresh(nodes) && Map() == old(Map()) && Tight()
      ensures ok ==> index.slot.Keys == old(index.slot.Keys) && cursor == old(cursor)
      ensures ok ==> Grew(old(hashSize), old(dataSize), hashSize, dataSize)
      ensures ok && old(hashSize + dataSize) >= 5 ==> hashSize + dataSize > old(hashSize + dataSize)
      ensures Settled(all, old(hashSize), old(dataSize), ok)
      decreases if Tight() then 0 else 1, Max0(TWO31 - hashSize - dataSize), 0
    {
      hide Wf, MapOf, Compact, Need, Reaches, Room, Leads, Bytes, GrownHash, GrownData, Wrap32;
      var tmp := nodes[..];
      ghost var x, oldHash, oldData := index, hashSize, dataSize;
      UsedCoversNeed(tmp, oldHash, x);
      var nhash, nrec := NewSizes();
      ok := Alloc(nhash, nrec);
      if !ok {
        NoRoomBeyond(all, nhash, nrec - nhash, unit);
        return;
      }
      ok := CopyBack(tmp, oldHash, x, all);
      if ok {
        ReachesGrown(oldHash, oldData, hashSize, dataSize);
      }
    }

    /** The sizes after a reallocation, computed in ints. */
    method NewSizes() returns (nhash: nat, nrec: nat)
      requires Valid()
      ensures nhash == GrownHash(hashSize) && nrec == nhash + GrownData(hashSize, dataSize)
      ensures nhash >= hashSize && nrec - nhash >= dataSize
      ensures hashSize + dataSize >= 5 ==> nrec > hashSize + dataSize
      ensures hashSize + dataSize < 5 ==> nhash == hashSize && nrec == hashSize + dataSize
      ensures hashSize + dataSize < TWO31 && (Wrap32(Bytes(nrec, unit)) < 0 <==> Bytes(nrec, unit) >= TWO31)
    {
      hide Wf, Bytes, Wrap32, Quotient;
      GrownBytes(hashSize + dataSize, unit);
      GrownBytesOfHeads(hashSize, dataSize, unit);
      nhash := Quotient(Wrap32(hashSize * 12), 10);
      nrec := Quotient(Wrap32((hashSize + dataSize) * 12), 10);
      GrowthSum(hashSize, dataSize);
      if hashSize + dataSize < 5 {
        NoGrowth(hashSize, dataSize);
      }
    }

    /** Adds the live nodes of an old table to a new one. */
    method CopyBack(tmp: seq<Node<T>>, ghost hash: nat, ghost x: Index, ghost all: set<nat>) returns (ok: bool)
      requires Wf(tmp, hash, x) && x.slot.Keys <= all
      requires Valid() && Tight() && index.slot == map[]
      requires Fits(x.slot.Keys, hashSize, dataSize)
      modifies this, nodes
      ensures ok ==> Valid() && Tight() && (nodes == old(nodes) || fresh(nodes)) && cursor == old(cursor)
      ensures ok ==> index.slot.Keys == x.slot.Keys && Map() == MapOf(tmp, x)
      ensures ok ==> Grew(old(hashSize), old(dataSize), hashSize, dataSize)
      ensures Same(all, old(hashSize), old(dataSize), ok)
      decreases 0, Max0(TWO31 - hashSize - dataSize), 3
    {
      hide Wf, MapOf, Compact, Need, Reaches, Room, Leads, Bytes;
      BoundedKeys(tmp, hash, x);
      GrewItself(hashSize, dataSize);
      LeadsItself(all, hashSize, dataSize, unit);
      for p := 0 to |tmp|
        invariant Valid() && Tight() && cursor == old(cursor) && (nodes == old(nodes) || fresh(nodes))
        invariant Grew(old(hashSize), old(dataSize), hashSize, dataSize)
        invariant Fits(x.slot.Keys, hashSize, dataSize)
        invariant index.slot.Keys == set k | k in x.slot && x.slot[k] < p
        invariant Part(Map(), MapOf(tmp, x)) && Same(all, old(hashSize), old(dataSize), true)
      {
        ghost var h, d := hashSize, dataSize;
        ok := CopyNode(tmp, p, hash, x, all);
        SameOn(all, old(hashSize), old(dataSize), h, d, ok);
        if !ok {
          return;
        }
        GrewOn(old(hashSize), old(dataSize), h, d, hashSize, dataSize);
        StillFits(x.slot.Keys, h, d, hashSize, dataSize);
      }
      assert index.slot.Keys == x.slot.Keys;
      ok := true;
    }

    method CopyNode(tmp: seq<Node<T>>, p: nat, ghost hash: nat, ghost x: Index, ghost all: set<nat>) returns (ok: bool)
      requires Wf(tmp, hash, x) && p < |tmp| && x.slot.Keys <= all
      requires Valid() && Tight() && index.slot.Keys == set k | k in x.slot && x.slot[k] < p
      requires (forall k :: k in x.slot ==> x.slot[k] < |tmp|) && Part(Map(), MapOf(tmp, x))
      requires Fits(x.slot.Keys, hashSize, dataSize)
      modifies this, nodes
      ensures ok ==> Valid() && Tight() && (nodes == old(nodes) || fresh(nodes)) && cursor == old(cursor)
      ensures ok ==> index.slot.Keys == (set k | k in x.slot && x.slot[k] < p + 1) && Part(Map(), MapOf(tmp, x))
      ensures ok ==> Grew(old(hashSize), old(dataSize), hashSize, dataSize)
      ensures Same(all, old(hashSize), old(dataSize), ok)
      decreases 0, Max0(TWO31 - hashSize - dataSize), 2
    {
      hide Wf, MapOf, Compact, Need, Grew, Room, Leads, Bytes, GrownHash, GrownData, Same, Settled;
      ScanNode(tmp, hash, x, p);
      GrewItself(hashSize, dataSize);
      SameItself(all);
      ok := true;
      if tmp[p].keyno > 0 {
        NeedGrows(index.slot.Keys + {tmp[p].keyno}, x.slot.Keys, hashSize);
        ghost var h, d, crowded := hashSize, dataSize, Crowded(tmp[p].keyno);
        GoesOn(tmp[p].keyno, all);
        ok := Add(tmp[p].keyno, tmp[p].value, all);
        if crowded {
          SettledIsSame(all, h, d, ok);
        } else {
          SameItself(all);
        }
      }
    }

    /** No size with room for all the keys was passed by since the given one, or there was none. */
    ghost predicate Same(all: set<nat>, hash: nat, data: nat, ok: bool)
      reads this
    {
      if ok then Leads(all, hash, data, hashSize, dataSize, unit) else !Room(all, hash, data, unit)
    }

    lemma SameItself(all: set<nat>)
      ensures Same(all, hashSize, dataSize, true)
    {
      LeadsItself(all, hashSize, dataSize, unit);
    }

    lemma SameOn(all: set<nat>, hash: nat, data: nat, h: nat, d: nat, ok: bool)
      requires Leads(all, hash, data, h, d, unit) && Same(all, h, d, ok)
      ensures Same(all, hash, data, ok)
    {
      hide Room, Ahead;
      if ok {
        LeadsOn(all, hash, data, h, d, hashSize, dataSize, unit);
      }
    }

    lemma SettledIsSame(all: set<nat>, hash: nat, data: nat, ok: bool)
      requires Leads(all, hash, data, GrownHash(hash), GrownData(hash, data), unit) && Settled(all, hash, data, ok)
      ensures Same(all, hash, data, ok)
    {
      var h, d := GrownHash(hash), GrownData(hash, data);
      hide GrownHash, GrownData, Room, Ahead;
      SameOn(all, hash, data, h, d, ok);
    }

    /** Destroys the memory and allocates an empty table, if its size in bytes is not negative as an int. */
    method Alloc(nhash: nat, nrec: nat) returns (ok: bool)
      requires 0 < nhash <= nrec && unit >= 12
      requires Wrap32(Bytes(nrec, unit)) < 0 <==> Bytes(nrec, unit) >= TWO31
      modifies this
      ensures ok == (Bytes(nrec, unit) < TWO31)
      ensures ok ==> Valid() && fresh(nodes) && Map() == map[] && Tight() && index.slot == map[]
      ensures ok ==> hashSize == nhash && dataSize == nrec - nhash && totalSize == 0 && cursor == old(cursor)
    {
      var size := Wrap32(Bytes(nrec, unit));
      attached := size >= 0;
      if !attached {
        return false;
      }
      hashSize, dataSize, usedSize, totalSize := nhash, nrec - nhash, 0, 0;
      nodes := new Node<T>[nrec](_ => Node(0, zero, 0));
      index := EmptyIndex(nhash);
      EmptyWf(nodes[..], nhash);
      EmptyCompact(nodes[..], nhash);
      return true;
    }

    /** Empties the node of a key; the node stays in its chain. */
    method Erase(keyno: nat) returns (ok: bool)
      requires Valid() && keyno > 0
      modifies this`index, nodes
      ensures Valid() && ok == (keyno in old(Map())) && Map() == old(Map()) - {keyno}
    {
      hide Wf, MapOf, Bytes;
      var p := Find(keyno);
      if p < 0 {
        return false;
      }
      EmptyNode(p, keyno);
      ok := true;
    }

    method EmptyNode(p: nat, ghost keyno: nat)
      requires Valid() && keyno in index.slot && p == index.slot[keyno] && p < nodes.Length
      modifies this`index, nodes
      ensures Valid() && Map() == old(Map()) - {keyno}
    {
      hide Wf, MapOf, Bytes;
      ghost var before := nodes[..];
      EraseWf(before, hashSize, index, keyno);
      nodes[p] := nodes[p].(keyno := 0);
      assert nodes[..] == before[p := before[p].(keyno := 0)];
      index := index.(slot := index.slot - {keyno});
    }

    /** A store through the pointer that Find returned. */
    method Store(p: nat, v: T)
      requires Valid() && p < nodes.Length && nodes[p].keyno in index.slot && index.slot[nodes[p].keyno] == p
      modifies nodes
      ensures Valid() && Map() == old(Map())[old(nodes[p].keyno) := v]
    {
      hide Wf, MapOf;
      StoreWf(nodes[..], hashSize, index, nodes[p].keyno, v);
      nodes[p] := nodes[p].(value := v);
    }

    method Clear()
      requires Valid()
      modifies this`usedSize, this`totalSize, this`index, nodes
      ensures Valid() && Map() == map[] && totalSize == 0 && usedSize == 0
    {
      hide Wf, MapOf;
      forall i | 0 <= i < nodes.Length {
        nodes[i] := Node(0, zero, 0);
      }
      usedSize, totalSize := 0, 0;
      index := EmptyIndex(hashSize);
      EmptyWf(nodes[..], hashSize);
    }

    // ----- iteration

    /** The live keys that the iteration has still to visit. */
    ghost function Pending(): set<nat>
      reads this
    {
      set k | k in index.slot && index.slot[k] >= cursor
    }

    lemma BoundedSlots()
      requires Valid()
      ensures forall k :: k in index.slot ==>
                0 < k && index.slot[k] < hashSize + usedSize && nodes[index.slot[k]].keyno == k
    {
      forall k | k in index.slot
        ensures 0 < k && index.slot[k] < hashSize + usedSize && nodes[index.slot[k]].keyno == k
      {
        LiveSlot(nodes[..], hashSize, index, k);
      }
    }

    method Begin()
      requires Valid()
      modifies this`cursor
      ensures Valid() && Pending() == Map().Keys
    {
      hide Wf, MapOf;
      cursor := -1;
    }

    /** Visits the next live node. */
    method Next() returns (found: bool, keyno: nat, p: nat)
      requires Valid()
      modifies this`cursor
      ensures Valid() && found == (old(Pending()) != {})
      ensures found ==>
                && keyno in old(Pending()) && Pending() == old(Pending()) - {keyno}
                && p < nodes.Length && p == index.slot[keyno] && nodes[p].value == Map()[keyno]
      ensures !found ==> Pending() == {}
    {
      hide Wf, MapOf, Bytes;
      BoundedSlots();
      if cursor < 0 {
        cursor := 0;
      }
      while cursor < hashSize + usedSize
        invariant 0 <= cursor && Valid()
        invariant Pending() == old(Pending())
        decreases hashSize + usedSize - cursor
      {
        if nodes[cursor].keyno > 0 {
          LiveNode(nodes[..], hashSize, index, cursor);
          LiveSlot(nodes[..], hashSize, index, nodes[cursor].keyno);
          keyno, p := nodes[cursor].keyno, cursor;
          assert keyno in old(Pending());
          cursor := cursor + 1;
          return true, keyno, p;
        }
        cursor := cursor + 1;
      }
      found, keyno, p := false, 0, 0;
    }
  }
}
