/** Runs of operations on one shared-memory table against a plain map. */
module ShmRun {
  import opened ShmTable
  import opened MachineInts

  /** Storing a value as set_shm does, erasing, clearing, and looking up; keys are positive. */
  datatype Op<T> = Set(key: nat, val: T) | Erase(key: nat) | Clear | Find(key: nat)
  datatype Answer<T> = Done | Erased(ok: bool) | Found(val: T) | Missing

  predicate OpsOk<T>(ops: seq<Op<T>>) {
    forall i :: 0 <= i < |ops| && !ops[i].Clear? ==> ops[i].key > 0
  }

  function Step<T>(m: map<nat, T>, op: Op<T>): (map<nat, T>, Answer<T>) {
    match op
    case Set(k, v) => (m[k := v], Done)
    case Erase(k) => (m - {k}, Erased(k in m))
    case Clear => (map[], Done)
    case Find(k) => (m, if k in m then Found(m[k]) else Missing)
  }

  function Outcome<T>(m: map<nat, T>, ops: seq<Op<T>>): (r: (map<nat, T>, seq<Answer<T>>)) {
    if ops == [] then (m, [])
    else
      var (before, answers) := Outcome(m, ops[..|ops| - 1]);
      var (after, answer) := Step(before, ops[|ops| - 1]);
      (after, answers + [answer])
  }

  /** What a step does to the sizes and the used overflow nodes: nothing but using some more of them, or growing to
      the first size with room, where no more are used than there are keys. */
  ghost predicate Advanced(keys: set<nat>, h: nat, d: nat, used: nat, h': nat, d': nat, used': nat,
                           cost: nat, unit: nat) {
    || (h' == h && d' == d && used' <= used + cost)
    || (cost > 0 && used == d && used' <= |keys| && Leads(keys, GrownHash(h), GrownData(h, d), h', d', unit))
  }

  /** Finds the key and overwrites its value, or adds it. It fails if and only if the key is new, its bucket and
      the overflow area are full, and no reallocation makes room within the range of an int. */
  method SetValue<T>(t: Table<T>, key: nat, val: T) returns (ok: bool)
    requires t.Valid() && key > 0 && Fits(t.Map().Keys + {key}, t.hashSize, t.dataSize)
    modifies t, t.nodes
    ensures ok <==> old(t.Takes(key))
    ensures ok ==> t.Valid() && (t.nodes == old(t.nodes) || fresh(t.nodes)) && t.Map() == old(t.Map())[key := val]
    ensures ok ==> Grew(old(t.hashSize), old(t.dataSize), t.hashSize, t.dataSize)
    ensures ok ==> Advanced(t.Map().Keys, old(t.hashSize), old(t.dataSize), old(t.usedSize),
                            t.hashSize, t.dataSize, t.usedSize, 1, t.unit)
  {
    hide Wf, MapOf, Need, Room, Ahead, Reaches, Compact, GrownHash, GrownData;
    GrewItself(t.hashSize, t.dataSize);
    var p := t.Find(key);
    if p >= 0 {
      t.Store(p, val);
      return true;
    }
    ghost var all := t.index.slot.Keys + {key};
    ok := t.Add(key, val, all);
    if ok {
      assert t.index.slot.Keys == all;
      t.HasRoom();
      t.FewNodesUsed();
    }
  }

  method Apply<T>(t: Table<T>, op: Op<T>) returns (ok: bool, answer: Answer<T>)
    requires t.Valid() && (!op.Clear? ==> op.key > 0) && Fits(Step(t.Map(), op).0.Keys, t.hashSize, t.dataSize)
    modifies t, t.nodes
    ensures ok <==> !op.Set? || old(t.Takes(op.key))
    ensures ok ==> t.Valid() && (t.nodes == old(t.nodes) || fresh(t.nodes))
    ensures ok ==> (t.Map(), answer) == Step(old(t.Map()), op)
    ensures ok ==> Grew(old(t.hashSize), old(t.dataSize), t.hashSize, t.dataSize)
    ensures ok ==> Advanced(t.Map().Keys, old(t.hashSize), old(t.dataSize), old(t.usedSize),
                            t.hashSize, t.dataSize, t.usedSize, Cost(op), t.unit)
  {
    hide Wf, MapOf, Need, Reaches, Room, Ahead, GrownHash, GrownData;
    GrewItself(t.hashSize, t.dataSize);
    ok, answer := true, Done;
    match op {
      case Set(k, v) =>
        assert t.Map()[k := v].Keys == t.Map().Keys + {k};
        ok := SetValue(t, k, v);
      case Erase(k) =>
        var was := t.Erase(k);
        answer := Erased(was);
      case Clear => t.Clear();
      case Find(k) =>
        var p := t.Find(k);
        answer := if p >= 0 then Found(t.nodes[p].value) else Missing;
    }
  }

  function Cost<T>(op: Op<T>): nat {
    if op.Set? then 1 else 0
  }

  /** The keys that are in the map after every step find room in a table of the given sizes. */
  ghost predicate AllFit<T>(m: map<nat, T>, ops: seq<Op<T>>, hash: nat, data: nat)
    requires hash > 0
  {
    forall i :: 0 <= i <= |ops| ==> Fits(Outcome(m, ops[..i]).0.Keys, hash, data)
  }

  /** A table of these nodes cannot take the key: it is absent, every overflow node is used and every node of its
      bucket's chain is live, and no reallocation makes room within the range of an int. */
  ghost predicate Full<T>(nodes: seq<Node<T>>, x: Index, hash: nat, data: nat, unit: nat, m: map<nat, T>, key: nat) {
    && 0 < hash && Wf(nodes, hash, x) && |nodes| == hash + data == |x.place| && Bytes(hash + data, unit) < TWO31
    && (forall k :: k in x.slot ==> x.slot[k] < |nodes|) && MapOf(nodes, x) == m && key !in m
    && ChainFull(nodes, hash, x, key % hash)
    && !RoomBeyond(m.Keys + {key}, hash, data, unit)
  }

  ghost predicate FullTable<T(!new)>(hash: nat, data: nat, unit: nat, m: map<nat, T>, key: nat) {
    exists nodes: seq<Node<T>>, x: Index :: Full(nodes, x, hash, data, unit, m, key)
  }

  /** The run stops at operation i: a store, into a table that holds what the map holds by then, that has grown from
      the given sizes, and that cannot take the key. */
  ghost predicate StopsAt<T(!new)>(m: map<nat, T>, ops: seq<Op<T>>, i: nat, hash: nat, data: nat, unit: nat) {
    && i < |ops| && ops[i].Set?
    && exists h: nat, d: nat ::
         Reaches(hash, data, h, d) && FullTable(h, d, unit, Outcome(m, ops[..i]).0, ops[i].key)
  }

  function Stores<T>(ops: seq<Op<T>>): nat {
    if ops == [] then 0 else Stores(ops[..|ops| - 1]) + Cost(ops[|ops| - 1])
  }

  /** There are overflow nodes left for that many stores; or some later size fits an int and has an overflow node for
      each key and each store. */
  ghost predicate Enough(keys: nat, used: nat, stores: nat, hash: nat, data: nat, unit: nat) {
    || used + stores <= data
    || exists n: nat :: EnoughAfter(keys, stores, hash, data, unit, n)
  }

  predicate EnoughAfter(keys: nat, stores: nat, hash: nat, data: nat, unit: nat, n: nat) {
    var (h, d) := GrownTimes(hash, data, n);
    n > 0 && h > 0 && Bytes(h + d, unit) < TWO31 && keys + stores <= d
  }

  /** On the way to a size with enough overflow nodes, or there with enough of them left. */
  ghost predicate OnTrack(keys: nat, used: nat, budget: nat, h: nat, d: nat, H: nat, D: nat) {
    || (keys <= budget && Reaches(GrownHash(h), GrownData(h, d), H, D))
    || (used <= budget && h == H && d == D)
  }

  ghost predicate HasEnough<T>(t: Table<T>, stores: nat)
    reads t, t.nodes
    requires t.Valid()
  {
    Enough(|t.Map()|, t.usedSize, stores, t.hashSize, t.dataSize, t.unit)
  }

  /** The table has room for D - budget more stores, here or at the size that it is on the way to. */
  ghost predicate Provided<T>(t: Table<T>, budget: nat, H: nat, D: nat)
    reads t, t.nodes
    requires t.Valid()
  {
    && 0 < H && Bytes(H + D, t.unit) < TWO31
    && OnTrack(|t.Map()|, t.usedSize, budget, t.hashSize, t.dataSize, H, D)
  }

  /** One operation. A table on track takes it and stays on track; one that cannot take it is full. */
  method Try<T(!new)>(t: Table<T>, op: Op<T>, ghost onTrack: bool, ghost budget: nat, ghost H: nat, ghost D: nat)
    returns (ok: bool, answer: Answer<T>)
    requires t.Valid() && (!op.Clear? ==> op.key > 0) && Fits(Step(t.Map(), op).0.Keys, t.hashSize, t.dataSize)
    requires onTrack ==> Provided(t, budget, H, D) && budget + Cost(op) <= D
    modifies t, t.nodes
    ensures ok ==> t.Valid() && (t.nodes == old(t.nodes) || fresh(t.nodes))
    ensures ok ==> (t.Map(), answer) == Step(old(t.Map()), op)
    ensures ok ==> Grew(old(t.hashSize), old(t.dataSize), t.hashSize, t.dataSize)
    ensures !ok ==> op.Set? && FullTable(old(t.hashSize), old(t.dataSize), t.unit, old(t.Map()), op.key)
    ensures onTrack ==> ok && Provided(t, budget + Cost(op), H, D)
  {
    hide Wf, MapOf, Step, Need, Reaches, Room, Ahead, Bytes, ChainFull, RoomBeyond, GrownHash, GrownData;
    hide OnTrack, Advanced, GrownTimes, Full, Fits, Grew;
    ghost var h, d, used, m := t.hashSize, t.dataSize, t.usedSize, t.Map();
    if op.Set? {
      FullWhenNotTaken(t, op.key);
      if onTrack {
        TrackTakes(t, op.key, budget, H, D);
      }
    }
    ok, answer := Apply(t, op);
    if ok && onTrack {
      StaysOnTrack(m, op, h, d, used, t.hashSize, t.dataSize, t.usedSize, t.unit, budget, H, D);
    }
  }

  /** What a run is proved against: the map and the sizes it starts from, and, for one with enough nodes, the size
      that it is on the way to and the overflow nodes that are taken at the start. */
  datatype Plan<T> = Plan(m: map<nat, T>, hash: nat, data: nat, enough: bool, H: nat, D: nat, taken: nat)

  /** The state after i operations. */
  ghost predicate Progress<T>(t: Table<T>, plan: Plan<T>, ops: seq<Op<T>>, i: nat, answers: seq<Answer<T>>)
    reads t, t.nodes
    requires t.Valid()
  {
    && i <= |ops| && |answers| == i
    && Grew(plan.hash, plan.data, t.hashSize, t.dataSize)
    && (t.Map(), answers) == Outcome(plan.m, ops[..i])
    && (plan.enough ==> Provided(t, plan.taken + Stores(ops[..i]), plan.H, plan.D))
  }

  method Next<T(!new)>(t: Table<T>, ghost plan: Plan<T>, ops: seq<Op<T>>, i: nat, ghost answers: seq<Answer<T>>)
    returns (ok: bool, answer: Answer<T>)
    requires t.Valid() && OpsOk(ops) && plan.hash > 0 && AllFit(plan.m, ops, plan.hash, plan.data)
    requires i < |ops| && Progress(t, plan, ops, i, answers)
    requires plan.enough ==> plan.taken + Stores(ops) <= plan.D
    modifies t, t.nodes
    ensures ok ==> t.Valid() && (t.nodes == old(t.nodes) || fresh(t.nodes))
    ensures ok ==> Progress(t, plan, ops, i + 1, answers + [answer])
    ensures !ok ==> StopsAt(plan.m, ops, i, plan.hash, plan.data, t.unit) && !plan.enough
  {
    hide Wf, MapOf, Step, Need, Reaches, FullTable, Provided, Stores, Outcome, AllFit, Fits, Grew, StopsAt;
    hide Table.Valid;
    ghost var h, d := t.hashSize, t.dataSize;
    OutcomeStep(plan.m, ops, i);
    NextFits(plan.m, ops, i, plan.hash, plan.data, h, d);
    StoresSoFar(ops, i);
    ok, answer := Try(t, ops[i], plan.enough, plan.taken + Stores(ops[..i]), plan.H, plan.D);
    if ok {
      GrewOn(plan.hash, plan.data, h, d, t.hashSize, t.dataSize);
    } else {
      Stops(plan.m, ops, i, plan.hash, plan.data, h, d, t.unit);
    }
  }

  lemma Begun<T>(t: Table<T>, ops: seq<Op<T>>) returns (plan: Plan<T>)
    requires t.Valid()
    ensures plan.m == t.Map() && plan.hash == t.hashSize && plan.data == t.dataSize
    ensures plan.enough == HasEnough(t, Stores(ops)) && Progress(t, plan, ops, 0, [])
    ensures plan.enough ==> plan.taken + Stores(ops) <= plan.D
  {
    hide HasEnough, Table.Valid, Table.Map, Provided, Grew;
    GrewItself(t.hashSize, t.dataSize);
    plan := Plan(t.Map(), t.hashSize, t.dataSize, false, 0, 0, 0);
    if HasEnough(t, Stores(ops)) {
      var H, D, taken := Target(t, Stores(ops));
      plan := plan.(enough := true, H := H, D := D, taken := taken);
    }
  }

  lemma Ended<T>(t: Table<T>, plan: Plan<T>, ops: seq<Op<T>>, i: nat, answers: seq<Answer<T>>)
    requires t.Valid() && Progress(t, plan, ops, i, answers)
    ensures |answers| == i <= |ops| && answers == Outcome(plan.m, ops[..i]).1
    ensures i == |ops| ==> (t.Map(), answers) == Outcome(plan.m, ops)
  {
    hide Outcome;
    assert i == |ops| ==> ops[..i] == ops;
  }

  /** Every run agrees with the map, whatever reallocations it causes, up to the first store that the table cannot
      take; in a table below five nodes, as long as the keys fit. With enough nodes there is no such store. */
  method Run<T(!new)>(t: Table<T>, ops: seq<Op<T>>) returns (ok: bool, answers: seq<Answer<T>>)
    requires t.Valid() && OpsOk(ops) && AllFit(t.Map(), ops, t.hashSize, t.dataSize)
    modifies t, t.nodes
    ensures |answers| <= |ops| && answers == Outcome(old(t.Map()), ops[..|answers|]).1
    ensures ok ==> t.Valid() && (t.Map(), answers) == Outcome(old(t.Map()), ops)
    ensures !ok ==> StopsAt(old(t.Map()), ops, |answers|, old(t.hashSize), old(t.dataSize), t.unit)
    ensures old(HasEnough(t, Stores(ops))) ==> ok
  {
    SizesOk(t);
    hide *;
    ghost var plan := Begun(t, ops);
    answers := [];
    var i := 0;
    while i < |ops|
      invariant 0 <= i <= |ops| && t.Valid() && (t.nodes == old(t.nodes) || fresh(t.nodes))
      invariant Progress(t, plan, ops, i, answers)
    {
      Ended(t, plan, ops, i, answers);
      var answer;
      ok, answer := Next(t, plan, ops, i, answers);
      if !ok {
        return;
      }
      answers := answers + [answer];
      i := i + 1;
    }
    Ended(t, plan, ops, i, answers);
    ok := true;
  }

  lemma OutcomeStep<T>(m: map<nat, T>, ops: seq<Op<T>>, i: nat)
    requires i < |ops|
    ensures var (before, answers) := Outcome(m, ops[..i]);
            var (after, answer) := Step(before, ops[i]);
            Outcome(m, ops[..i + 1]) == (after, answers + [answer])
  {
    assert ops[..i + 1][..i] == ops[..i];
  }

  lemma NextFits<T>(m: map<nat, T>, ops: seq<Op<T>>, i: nat, hash: nat, data: nat, h: nat, d: nat)
    requires hash > 0 && AllFit(m, ops, hash, data) && Grew(hash, data, h, d) && i < |ops|
    ensures h > 0 && Fits(Outcome(m, ops[..i + 1]).0.Keys, h, d)
  {
    hide Outcome, Fits;
    StillFits(Outcome(m, ops[..i + 1]).0.Keys, hash, data, h, d);
  }

  lemma Stops<T(!new)>(m: map<nat, T>, ops: seq<Op<T>>, i: nat, hash: nat, data: nat, h: nat, d: nat, unit: nat)
    requires i < |ops| && ops[i].Set? && Grew(hash, data, h, d)
    requires FullTable(h, d, unit, Outcome(m, ops[..i]).0, ops[i].key)
    ensures StopsAt(m, ops, i, hash, data, unit)
  {
    hide FullTable, Reaches, Outcome;
  }

  lemma SizesOk<T>(t: Table<T>)
    requires t.Valid()
    ensures 0 < t.hashSize && Bytes(t.hashSize + t.dataSize, t.unit) < TWO31
  {
  }

  lemma Target<T>(t: Table<T>, stores: nat) returns (H: nat, D: nat, budget: nat)
    requires t.Valid() && HasEnough(t, stores)
    ensures budget + stores <= D && Provided(t, budget, H, D)
  {
    hide Wf, MapOf, Bytes, GrownHash, GrownData;
    var hash, data := t.hashSize, t.dataSize;
    if t.usedSize + stores <= data {
      H, D, budget := hash, data, t.usedSize;
    } else {
      var n: nat :| EnoughAfter(|t.Map()|, stores, hash, data, t.unit, n);
      var (h, d) := GrownTimes(hash, data, n);
      H, D, budget := h, d, |t.Map()|;
      GrowthSum(hash, data);
      assert GrownTimes(GrownHash(hash), GrownData(hash, data), n - 1) == (h, d);
    }
  }

  lemma RoomAtTarget(keys: set<nat>, h: nat, d: nat, unit: nat, H: nat, D: nat) returns (n: nat)
    requires Reaches(h, d, H, D) && H > 0 && Bytes(H + D, unit) < TWO31 && |keys| <= D
    ensures GrownTimes(h, d, n) == (H, D) && RoomAfter(keys, h, d, unit, n)
  {
    n :| GrownTimes(h, d, n) == (H, D);
  }

  lemma TrackTakes<T>(t: Table<T>, key: nat, budget: nat, H: nat, D: nat)
    requires t.Valid() && Provided(t, budget, H, D) && budget < D
    ensures t.Takes(key)
  {
    hide Wf, MapOf, ChainFull, Bytes, GrownHash, GrownData, GrownTimes, RoomAfter, Reaches;
    if t.Crowded(key) {
      var keys := t.index.slot.Keys + {key};
      assert |t.Map()| == |t.Map().Keys|;
      var n := RoomAtTarget(keys, GrownHash(t.hashSize), GrownData(t.hashSize, t.dataSize), t.unit, H, D);
    }
  }

  lemma StaysOnTrack<T>(m: map<nat, T>, op: Op<T>, h: nat, d: nat, used: nat, h': nat, d': nat, used': nat,
                        unit: nat, budget: nat, H: nat, D: nat)
    requires Advanced(Step(m, op).0.Keys, h, d, used, h', d', used', Cost(op), unit)
    requires OnTrack(|m|, used, budget, h, d, H, D)
    requires budget + Cost(op) <= D && H > 0 && Bytes(H + D, unit) < TWO31
    ensures OnTrack(|Step(m, op).0|, used', budget + Cost(op), h', d', H, D)
  {
    var m' := Step(m, op).0;
    AtMostOneMore(m, op);
    hide Step, Bytes, GrownHash, GrownData, GrownTimes, RoomAfter, Reaches, Room;
    if !(h' == h && d' == d && used' <= used + Cost(op)) {
      var n := RoomAtTarget(m'.Keys, GrownHash(h), GrownData(h, d), unit, H, D);
      ThereOrBefore(h', d', H, D);
    }
  }

  lemma ThereOrBefore(h: nat, d: nat, H: nat, D: nat)
    requires Reaches(h, d, H, D)
    ensures (h == H && d == D) || Reaches(GrownHash(h), GrownData(h, d), H, D)
  {
    var n: nat :| GrownTimes(h, d, n) == (H, D);
    hide GrownHash, GrownData;
    if n > 0 {
      GrowthSum(h, d);
      assert GrownTimes(GrownHash(h), GrownData(h, d), n - 1) == (H, D);
    }
  }

  lemma AtMostOneMore<T>(m: map<nat, T>, op: Op<T>)
    ensures |Step(m, op).0| <= |m| + Cost(op) && |Step(m, op).0| == |Step(m, op).0.Keys|
  {
    match op
    case Set(k, v) =>
      assert m[k := v].Keys == m.Keys + {k};
    case Erase(k) =>
      SubsetSize((m - {k}).Keys, m.Keys);
      assert |m - {k}| == |(m - {k}).Keys|;
    case Clear =>
    case Find(_) =>
  }

  lemma StoresSoFar<T>(ops: seq<Op<T>>, i: nat)
    requires i < |ops|
    ensures Stores(ops[..i + 1]) == Stores(ops[..i]) + Cost(ops[i])
    ensures Stores(ops[..i + 1]) <= Stores(ops)
  {
    assert ops[..i + 1][..i] == ops[..i];
    StoresGrow(ops, i + 1);
  }

  lemma {:induction false} StoresGrow<T>(ops: seq<Op<T>>, i: nat)
    requires i <= |ops|
    ensures Stores(ops[..i]) <= Stores(ops)
    decreases |ops| - i
  {
    if i < |ops| {
      assert ops[..i + 1][..i] == ops[..i];
      StoresGrow(ops, i + 1);
    } else {
      assert ops[..i] == ops;
    }
  }

  lemma FullWhenNotTaken<T(!new)>(t: Table<T>, key: nat)
    requires t.Valid()
    ensures !t.Takes(key) ==> FullTable(t.hashSize, t.dataSize, t.unit, t.Map(), key)
  {
    hide *;
    if !t.Takes(key) {
      NotTaken(t, key);
      FullIs(t.nodes[..], t.index, t.hashSize, t.dataSize, t.unit, t.Map(), key);
    }
  }

  lemma FullIs<T(!new)>(nodes: seq<Node<T>>, x: Index, hash: nat, data: nat, unit: nat, m: map<nat, T>, key: nat)
    requires Full(nodes, x, hash, data, unit, m, key)
    ensures FullTable(hash, data, unit, m, key)
  {
    hide Full;
  }

  lemma NotTaken<T>(t: Table<T>, key: nat)
    requires t.Valid() && !t.Takes(key)
    ensures Full(t.nodes[..], t.index, t.hashSize, t.dataSize, t.unit, t.Map(), key)
  {
    NotTakenFacts(t, key);
    NodesFacts(t);
    hide Wf, MapOf, ChainFull, RoomBeyond, Bytes, Table.Takes, Table.Crowded, Table.Valid, Table.Map;
  }

  lemma NodesFacts<T>(t: Table<T>)
    requires t.Valid()
    ensures 0 < t.hashSize && Wf(t.nodes[..], t.hashSize, t.index) && Bytes(t.hashSize + t.dataSize, t.unit) < TWO31
    ensures |t.nodes[..]| == t.hashSize + t.dataSize && |t.index.place| == t.hashSize + t.usedSize
    ensures forall k :: k in t.index.slot ==> t.index.slot[k] < |t.nodes[..]|
    ensures MapOf(t.nodes[..], t.index) == t.Map()
  {
    BoundedKeys(t.nodes[..], t.hashSize, t.index);
    hide Wf, MapOf, Bytes;
  }

  lemma NotTakenFacts<T>(t: Table<T>, key: nat)
    requires t.Valid() && !t.Takes(key)
    ensures key !in t.Map() && t.usedSize == t.dataSize
    ensures ChainFull(t.nodes[..], t.hashSize, t.index, key % t.hashSize)
    ensures !RoomBeyond(t.Map().Keys + {key}, t.hashSize, t.dataSize, t.unit)
  {
    hide Wf, MapOf, ChainFull, RoomBeyond, Bytes;
  }



  /** There is room for as many keys as the next size has overflow nodes, if it fits. */
  lemma FewKeysHaveRoom(keys: set<nat>, hash: nat, data: nat, unit: nat)
    requires hash > 0 && |keys| <= GrownData(hash, data)
    requires Bytes(GrownHash(hash) + GrownData(hash, data), unit) < TWO31
    ensures RoomBeyond(keys, hash, data, unit)
  {
    GrowthSum(hash, data);
    var h, d := GrownHash(hash), GrownData(hash, data);
    assert RoomAfter(keys, h, d, unit, 0);
  }

  /** There is no room for more keys than 2^31 bytes have nodes. */
  lemma ManyKeysHaveNone(keys: set<nat>, hash: nat, data: nat, unit: nat)
    requires Bytes(|keys|, unit) >= TWO31
    ensures !RoomBeyond(keys, hash, data, unit)
  {
    var h0, d0 := GrownHash(hash), GrownData(hash, data);
    forall n: nat ensures !RoomAfter(keys, h0, d0, unit, n) {
      var (h, d) := GrownTimes(h0, d0, n);
      if h > 0 && Need(keys, h) <= d {
        AtMostHeads(keys, h);
        BytesMonotonic(|keys|, h + d, unit);
      }
    }
  }

  lemma AtMostHeads(keys: set<nat>, hash: nat)
    requires hash > 0
    ensures |Buckets(keys, hash)| <= hash
  {
    SubsetSize(Buckets(keys, hash), Range(0, hash));
  }

  /** A table of integers, of which a quarter or less are heads as the program allocates it, takes every run that
      leaves it with no more than 111848106 keys and stores together. */
  lemma QuarterHeads<T>(t: Table<T>, stores: nat)
    requires t.Valid() && t.unit == 12 && 5 <= t.hashSize + t.dataSize <= 149130806
    requires 3 * t.hashSize <= t.dataSize && |t.Map()| + stores <= 111848106
    ensures HasEnough(t, stores)
  {
    SizesOk(t);
    hide Enough, Table.Valid, Table.Map;
    QuarterEnough(|t.Map()|, t.usedSize, stores, t.hashSize, t.dataSize);
  }

  lemma QuarterEnough(keys: nat, used: nat, stores: nat, hash: nat, data: nat)
    requires 0 < hash && 3 * hash <= data && 5 <= hash + data <= 149130806 && keys + stores <= 111848106
    ensures Enough(keys, used, stores, hash, data, 12)
  {
    var n := LastSize(hash, data);
    hide GrownTimes, Bytes;
    assert EnoughAfter(keys, stores, hash, data, 12, n);
  }

  lemma {:induction false} LastSize(hash: nat, data: nat) returns (n: nat)
    requires 0 < hash && 3 * hash <= data && 5 <= hash + data <= 149130806
    ensures n > 0
    ensures var (h, d) := GrownTimes(hash, data, n); h > 0 && Bytes(h + d, 12) < TWO31 && d >= 111848106
    decreases 149130806 - hash - data
  {
    var h, d := GrownHash(hash), GrownData(hash, data);
    GrowthSum(hash, data);
    QuarterStays(hash, data);
    LastGrowth(hash + data);
    hide GrownHash, GrownData;
    if h + d > 149130806 {
      n := 1;
      assert GrownTimes(h, d, 0) == (h, d);
    } else {
      n := LastSize(h, d);
      n := n + 1;
    }
  }

  lemma QuarterStays(hash: nat, data: nat)
    requires 3 * hash <= data
    ensures 3 * GrownHash(hash) <= GrownData(hash, data)
    ensures GrownHash(hash) + GrownData(hash, data) == (hash + data) * 12 / 10
  {
    TwelveTenths(hash);
    TwelveTenths(hash + data);
    assert (hash + data) / 5 >= 4 * (hash / 5);
  }

  /** What the last store for a key was, if nothing removed the key since. */
  function LastStored<T>(ops: seq<Op<T>>, key: nat): (r: Answer<T>) {
    if ops == [] then Missing
    else
      match ops[|ops| - 1]
      case Set(k, v) => if k == key then Found(v) else LastStored(ops[..|ops| - 1], key)
      case Erase(k) => if k == key then Missing else LastStored(ops[..|ops| - 1], key)
      case Clear => Missing
      case Find(_) => LastStored(ops[..|ops| - 1], key)
  }

  /** From an empty table a lookup answers the value stored last and not removed since. */
  lemma {:induction false} FindsLastStored<T>(ops: seq<Op<T>>, key: nat)
    ensures var m := Outcome(map[], ops).0;
            LastStored(ops, key) == if key in m then Found(m[key]) else Missing
  {
    if ops != [] {
      FindsLastStored(ops[..|ops| - 1], key);
    }
  }
}
