/**
 The monitoring counters behind a double buffer: increments go to the table that the index selects,
 and a reader flips the index, reads the other table to the end and clears it. Counters are ints, which wrap
 around: the sum of the increments of every key is conserved modulo 2^32 over every interleaving, and exactly
 up to the multiples of 2^32 that wrap-around loses, as long as no read begins while another one is open.
 */
module DoubleBuffer {
  import opened MachineInts

  const TWO32 := 2 * TWO31

  type Counters = map<nat, int32>

  /** A read between its begin and its end, with the keys that it found and has still to deliver. */
  datatype Open = Open(cur: nat, pending: set<nat>)

  /** Any number of processes may have a read open. */
  datatype State = State(index: nat, ms: seq<Counters>, open: seq<Open>)

  datatype Step = Inc(key: nat, val: int32) | BeginRead | Read(r: nat, key: nat) | EndRead(r: nat)

  const INITIAL := State(0, [map[], map[]], [])

  function At(m: Counters, key: nat): int32 {
    if key in m then m[key] else 0
  }

  /** An increment of an absent key stores it; a present one is added to, and may wrap around. */
  function Bump(m: Counters, key: nat, val: int32): Counters {
    m[key := if key in m then Wrap32(m[key] + val) else val]
  }

  /** Bitwise complement of an unsigned char. */
  function Complement(index: nat): nat
    requires index < 256
  {
    255 - index
  }

  /** A key is delivered while it is pending and in the table. A key that writers add to a table under reading,
      which takes a second reader, is not delivered by the reads that are open. */
  predicate Allowed(s: State, step: Step) {
    s.index < 256 && |s.ms| == 2 &&
    match step
    case Inc(_, _) => true
    case BeginRead => true
    case Read(r, key) => r < |s.open| && key in s.open[r].pending && key in s.ms[s.open[r].cur % 2]
    case EndRead(r) => r < |s.open|
  }

  function Apply(s: State, step: Step): State
    requires Allowed(s, step)
  {
    match step
    case Inc(key, val) =>
      s.(ms := s.ms[s.index % 2 := Bump(s.ms[s.index % 2], key, val)])
    case BeginRead =>
      s.(index := Complement(s.index), open := s.open + [Open(s.index, s.ms[s.index % 2].Keys)])
    case Read(r, key) =>
      s.(open := s.open[r := s.open[r].(pending := s.open[r].pending - {key})])
    case EndRead(r) =>
      s.(ms := s.ms[s.open[r].cur % 2 := map[]], open := s.open[..r] + s.open[r + 1..])
  }

  predicate AllowedRun(s: State, steps: seq<Step>)
    decreases |steps|
  {
    steps == [] || (Allowed(s, steps[0]) && AllowedRun(Apply(s, steps[0]), steps[1..]))
  }

  function Run(s: State, steps: seq<Step>): State
    requires AllowedRun(s, steps)
    decreases |steps|
  {
    if steps == [] then s else Run(Apply(s, steps[0]), steps[1..])
  }

  /** No read begins while another one is open. */
  predicate OneAtATime(s: State, steps: seq<Step>)
    requires AllowedRun(s, steps)
    decreases |steps|
  {
    steps == [] || ((steps[0] == BeginRead ==> s.open == []) && OneAtATime(Apply(s, steps[0]), steps[1..]))
  }

  // ----- accounts of one key

  function Incremented(steps: seq<Step>, key: nat): int {
    if steps == [] then 0
    else (if steps[0].Inc? && steps[0].key == key then steps[0].val else 0) + Incremented(steps[1..], key)
  }

  /** What one step delivers for the key. */
  function Delivers(s: State, step: Step, key: nat): int
    requires Allowed(s, step)
  {
    if step.Read? && step.key == key then s.ms[s.open[step.r].cur % 2][key] else 0
  }

  /** What one step throws away for the key, by ending a read before the key was delivered. */
  function Drops(s: State, step: Step, key: nat): int
    requires Allowed(s, step)
  {
    if step.EndRead? && key in s.open[step.r].pending then At(s.ms[s.open[step.r].cur % 2], key) else 0
  }

  function Delivered(s: State, steps: seq<Step>, key: nat): int
    requires AllowedRun(s, steps)
    decreases |steps|
  {
    if steps == [] then 0 else Delivers(s, steps[0], key) + Delivered(Apply(s, steps[0]), steps[1..], key)
  }

  function Dropped(s: State, steps: seq<Step>, key: nat): int
    requires AllowedRun(s, steps)
    decreases |steps|
  {
    if steps == [] then 0 else Drops(s, steps[0], key) + Dropped(Apply(s, steps[0]), steps[1..], key)
  }

  /** What one step loses for the key by wrap-around: a multiple of 2^32. */
  function Carries(s: State, step: Step, key: nat): (c: int)
    requires Allowed(s, step)
  {
    if step.Inc? && step.key == key then
      var sum := At(s.ms[s.index % 2], key) + step.val;
      sum - Wrap32(sum)
    else 0
  }

  function Carried(s: State, steps: seq<Step>, key: nat): int
    requires AllowedRun(s, steps)
    decreases |steps|
  {
    if steps == [] then 0 else Carries(s, steps[0], key) + Carried(Apply(s, steps[0]), steps[1..], key)
  }

  /** What the tables hold for the key. */
  function Stored(s: State, key: nat): int
    requires |s.ms| == 2
  {
    At(s.ms[0], key) + At(s.ms[1], key)
  }

  function Pending(ms: seq<Counters>, open: seq<Open>, key: nat): int
    requires |ms| == 2
  {
    if open == [] then 0
    else (if key in open[0].pending then At(ms[open[0].cur % 2], key) else 0) + Pending(ms, open[1..], key)
  }

  /** What the tables hold for the key and no read has delivered yet. */
  function Due(s: State, key: nat): int
    requires |s.ms| == 2
  {
    At(s.ms[s.index % 2], key) + Pending(s.ms, s.open, key)
  }

  /** Writers and the reader never meet: the table being read is not the one written to, and between two
      reads the table that is not written to is empty. */
  predicate Inv(s: State) {
    && s.index < 256 && |s.ms| == 2 && |s.open| <= 1
    && (s.open == [] ==> s.ms[1 - s.index % 2] == map[])
    && (s.open != [] ==>
          && s.open[0].cur < 256 && s.open[0].cur % 2 != s.index % 2
          && s.open[0].pending <= s.ms[s.open[0].cur % 2].Keys)
  }

  lemma PendingOne(s: State, key: nat)
    requires |s.ms| == 2
    ensures s.open == [] ==> Pending(s.ms, s.open, key) == 0
    ensures |s.open| == 1 ==>
              Pending(s.ms, s.open, key) == if key in s.open[0].pending then At(s.ms[s.open[0].cur % 2], key) else 0
  {
  }

  lemma StepKeepsInv(s: State, step: Step)
    requires Inv(s) && Allowed(s, step) && (step == BeginRead ==> s.open == [])
    ensures Inv(Apply(s, step))
  {
  }

  lemma StepConserves(s: State, step: Step, key: nat)
    requires Inv(s) && Allowed(s, step) && (step == BeginRead ==> s.open == [])
    ensures |Apply(s, step).ms| == 2
    ensures Due(s, key) + (if step.Inc? && step.key == key then step.val else 0) ==
            Due(Apply(s, step), key) + Delivers(s, step, key) + Drops(s, step, key) + Carries(s, step, key)
  {
    hide Pending, Wrap32;
    PendingOne(s, key);
    StepKeepsInv(s, step);
    PendingOne(Apply(s, step), key);
    IncAt(s.ms[s.index % 2], key, if step.Inc? then step.val else 0);
  }

  lemma IncAt(m: Counters, key: nat, val: int32)
    ensures At(Bump(m, key, val), key) == Wrap32(At(m, key) + val)
  {
  }

  /** The difference between what went in and what came out or is still due. */
  function Gap(s: State, steps: seq<Step>, key: nat): int
    requires |s.ms| == 2 && AllowedRun(s, steps) && |Run(s, steps).ms| == 2
  {
    Due(s, key) + Incremented(steps, key)
    - Delivered(s, steps, key) - Dropped(s, steps, key) - Due(Run(s, steps), key)
  }

  /** The account of a run balances: modulo 2^32 the increments of the key are delivered, dropped by a read that
      ended early, or still due. */
  predicate Balanced(s: State, steps: seq<Step>, key: nat)
    requires |s.ms| == 2 && AllowedRun(s, steps)
  {
    |Run(s, steps).ms| == 2 && Gap(s, steps, key) % TWO32 == 0
  }

  lemma {:induction false} RunKeepsInv(s: State, steps: seq<Step>)
    requires Inv(s) && AllowedRun(s, steps) && OneAtATime(s, steps)
    ensures Inv(Run(s, steps))
    decreases |steps|
  {
    if steps != [] {
      hide Apply, Inv;
      StepKeepsInv(s, steps[0]);
      RunKeepsInv(Apply(s, steps[0]), steps[1..]);
    }
  }

  /** Main theorem: in every run in which no read begins inside another one, what is missing is exactly what
      wrap-around lost. */
  lemma {:induction false} Conservation(s: State, steps: seq<Step>, key: nat)
    requires Inv(s) && AllowedRun(s, steps) && OneAtATime(s, steps)
    ensures Inv(Run(s, steps)) && Gap(s, steps, key) == Carried(s, steps, key)
    decreases |steps|
  {
    RunKeepsInv(s, steps);
    if steps != [] {
      hide Apply, Inv, Due, Delivers, Drops, Carries;
      StepKeepsInv(s, steps[0]);
      StepConserves(s, steps[0], key);
      Conservation(Apply(s, steps[0]), steps[1..], key);
    } else {
      hide Due;
    }
  }

  /** That is a multiple of 2^32, so that every such run balances. */
  lemma {:induction false} CarriedMultiple(s: State, steps: seq<Step>, key: nat)
    requires AllowedRun(s, steps)
    ensures Carried(s, steps, key) % TWO32 == 0
    decreases |steps|
  {
    if steps != [] {
      hide Apply, Carries;
      CarriesMultiple(s, steps[0], key);
      CarriedMultiple(Apply(s, steps[0]), steps[1..], key);
      SumOfMultiples(Carries(s, steps[0], key), Carried(Apply(s, steps[0]), steps[1..], key));
    }
  }

  lemma SumOfMultiples(a: int, b: int)
    requires a % TWO32 == 0 && b % TWO32 == 0
    ensures (a + b) % TWO32 == 0
  {
  }

  lemma CarriesMultiple(s: State, step: Step, key: nat)
    requires Allowed(s, step)
    ensures Carries(s, step, key) % TWO32 == 0
  {
    hide Wrap32;
    if step.Inc? && step.key == key {
      Wrap32Loses(At(s.ms[s.index % 2], key) + step.val);
    }
  }

  /** The counters of the key stay in the range of an int throughout the run. */
  predicate InRange(s: State, steps: seq<Step>, key: nat)
    requires AllowedRun(s, steps)
    decreases |steps|
  {
    steps == []
    || ((steps[0].Inc? && steps[0].key == key ==> -TWO31 <= At(s.ms[s.index % 2], key) + steps[0].val < TWO31)
        && InRange(Apply(s, steps[0]), steps[1..], key))
  }

  lemma {:induction false} NothingCarried(s: State, steps: seq<Step>, key: nat)
    requires AllowedRun(s, steps) && InRange(s, steps, key)
    ensures Carried(s, steps, key) == 0
    decreases |steps|
  {
    if steps != [] {
      hide Apply;
      NothingCarried(Apply(s, steps[0]), steps[1..], key);
    }
  }

  lemma {:induction false} NoLoss(steps: seq<Step>, key: nat)
    requires forall i :: 0 <= i < |steps| && steps[i].Inc? ==> steps[i].val >= 0
    ensures Incremented(steps, key) >= 0
  {
    if steps != [] {
      NoLoss(steps[1..], key);
    }
  }

  /** No counter of the key leaves the range of an int while the amounts are not negative and their sum, with what
      is stored, is below 2^31. */
  lemma {:induction false} SmallSums(s: State, steps: seq<Step>, key: nat)
    requires Inv(s) && AllowedRun(s, steps) && OneAtATime(s, steps) && At(s.ms[s.index % 2], key) >= 0
    requires forall i :: 0 <= i < |steps| && steps[i].Inc? ==> steps[i].val >= 0
    requires At(s.ms[s.index % 2], key) + Incremented(steps, key) < TWO31
    ensures InRange(s, steps, key)
    decreases |steps|
  {
    if steps != [] {
      NoLoss(steps[1..], key);
      StepKeepsInv(s, steps[0]);
      if steps[0].Inc? {
        IncAt(s.ms[s.index % 2], key, steps[0].val);
      }
      SmallSums(Apply(s, steps[0]), steps[1..], key);
    }
  }

  /** Every read that ends has gone on to the end before. */
  predicate ReadsToTheEnd(s: State, steps: seq<Step>)
    requires AllowedRun(s, steps)
    decreases |steps|
  {
    steps == [] || ((steps[0].EndRead? ==> s.open[steps[0].r].pending == {})
                   && ReadsToTheEnd(Apply(s, steps[0]), steps[1..]))
  }

  lemma {:induction false} NothingDropped(s: State, steps: seq<Step>, key: nat)
    requires AllowedRun(s, steps) && ReadsToTheEnd(s, steps)
    ensures Dropped(s, steps, key) == 0
    decreases |steps|
  {
    if steps != [] {
      hide Apply;
      NothingDropped(Apply(s, steps[0]), steps[1..], key);
    }
  }

  /** Starting from empty tables, with one read at a time that goes to the end, the increments of a key equal what
      was delivered plus what is still stored, whenever no read is open: modulo 2^32, and exactly when the counters
      stay in range. */
  lemma SumConserved(steps: seq<Step>, key: nat)
    requires AllowedRun(INITIAL, steps) && OneAtATime(INITIAL, steps) && ReadsToTheEnd(INITIAL, steps)
    ensures var s := Run(INITIAL, steps);
            && |s.ms| == 2
            && (Incremented(steps, key) - Delivered(INITIAL, steps, key) - Due(s, key)) % TWO32 == 0
            && (InRange(INITIAL, steps, key) ==>
                  Incremented(steps, key) == Delivered(INITIAL, steps, key) + Due(s, key))
            && (s.open == [] ==> Due(s, key) == Stored(s, key))
  {
    Conservation(INITIAL, steps, key);
    CarriedMultiple(INITIAL, steps, key);
    NothingDropped(INITIAL, steps, key);
    PendingOne(INITIAL, key);
    PendingOne(Run(INITIAL, steps), key);
    if InRange(INITIAL, steps, key) {
      NothingCarried(INITIAL, steps, key);
    }
  }

  lemma FirstStep(s: State, step: Step, rest: seq<Step>, key: nat)
    requires Allowed(s, step) && AllowedRun(Apply(s, step), rest)
    ensures AllowedRun(s, [step] + rest)
    ensures OneAtATime(s, [step] + rest) <==> (step == BeginRead ==> s.open == []) && OneAtATime(Apply(s, step), rest)
    ensures Delivered(s, [step] + rest, key) == Delivers(s, step, key) + Delivered(Apply(s, step), rest, key)
    ensures Incremented([step] + rest, key) ==
            (if step.Inc? && step.key == key then step.val else 0) + Incremented(rest, key)
  {
    assert ([step] + rest)[1..] == rest;
    hide Apply, Delivers;
  }

  /** The counter of the key after the two increments below, and the state in which it is read. */
  lemma TwoIncrements(key: nat)
    ensures var s1 := State(0, [map[key := TWO31 - 1], map[]], []);
            Apply(INITIAL, Inc(key, TWO31 - 1)) == s1
            && Apply(s1, Inc(key, 1)) == State(0, [map[key := -TWO31], map[]], [])
  {
    var m: Counters := map[key := TWO31 - 1];
    assert Wrap32(TWO31) == -TWO31;
    assert Bump(m, key, 1) == map[key := -TWO31];
  }

  lemma ReadAfter(key: nat)
    ensures var s := State(0, [map[key := -TWO31], map[]], []);
            var t := State(255, [map[key := -TWO31], map[]], [Open(0, {key})]);
            && Apply(s, BeginRead) == t && Allowed(t, Read(0, key)) && Delivers(t, Read(0, key), key) == -TWO31
  {
    assert (map[key := -TWO31]).Keys == {key};
  }

  /** Two increments that reach 2^31 are delivered as -2^31. */
  lemma OverflowIsDelivered(key: nat)
    ensures var steps := [Inc(key, TWO31 - 1), Inc(key, 1), BeginRead, Read(0, key)];
            && AllowedRun(INITIAL, steps) && OneAtATime(INITIAL, steps)
            && Incremented(steps, key) == TWO31 && Delivered(INITIAL, steps, key) == -TWO31
  {
    var s1 := State(0, [map[key := TWO31 - 1], map[]], []);
    var s2 := State(0, [map[key := -TWO31], map[]], []);
    var s3 := State(255, [map[key := -TWO31], map[]], [Open(0, {key})]);
    TwoIncrements(key);
    ReadAfter(key);
    assert AllowedRun(Apply(s3, Read(0, key)), []) && OneAtATime(Apply(s3, Read(0, key)), []);
    assert Delivered(Apply(s3, Read(0, key)), [], key) == 0 && Incremented([], key) == 0;
    hide Apply, AllowedRun, OneAtATime, Delivered, Incremented, Wrap32;
    FirstStep(s3, Read(0, key), [], key);
    assert [Read(0, key)] + [] == [Read(0, key)];
    FirstStep(s2, BeginRead, [Read(0, key)], key);
    FirstStep(s1, Inc(key, 1), [BeginRead] + [Read(0, key)], key);
    FirstStep(INITIAL, Inc(key, TWO31 - 1), [Inc(key, 1)] + ([BeginRead] + [Read(0, key)]), key);
    assert [Inc(key, TWO31 - 1)] + ([Inc(key, 1)] + ([BeginRead] + [Read(0, key)]))
        == [Inc(key, TWO31 - 1), Inc(key, 1), BeginRead, Read(0, key)];
  }

  // ----- a read that begins inside another one

  /** The state in which the first of the open reads has delivered everything. */
  function Exhausted(s: State): State
    requires s.open != []
  {
    s.(open := s.open[0 := s.open[0].(pending := {})])
  }

  /** The first of the open reads can go on to the end, and then the run continues as if it had. */
  lemma {:induction false} ReadOn(s: State, key: nat, tail: seq<Step>) returns (steps: seq<Step>)
    requires s.index < 256 && |s.ms| == 2 && s.open != [] && s.open[0].pending <= s.ms[s.open[0].cur % 2].Keys
    requires AllowedRun(Exhausted(s), tail) && OneAtATime(Exhausted(s), tail) && ReadsToTheEnd(Exhausted(s), tail)
    ensures AllowedRun(s, steps) && OneAtATime(s, steps) && ReadsToTheEnd(s, steps)
    ensures Run(s, steps) == Run(Exhausted(s), tail) && Incremented(steps, key) == Incremented(tail, key)
    ensures Delivered(s, steps, key) == Delivered(Exhausted(s), tail, key)
              + if key in s.open[0].pending then At(s.ms[s.open[0].cur % 2], key) else 0
    decreases s.open[0].pending
  {
    if s.open[0].pending == {} {
      steps := tail;
      assert Exhausted(s) == s;
    } else {
      var k :| k in s.open[0].pending;
      var t := Apply(s, Read(0, k));
      assert Exhausted(t) == Exhausted(s);
      var more := ReadOn(t, key, tail);
      steps := [Read(0, k)] + more;
      assert steps[1..] == more;
    }
  }

  /** From every state with a read open, a second begin can lose any increment: the first reader goes on to the
      end, an increment goes to its table, which the writers are back at, and the reader clears it. No read ends
      early and no other one begins. */
  lemma SecondBeginLoses(s: State, key: nat, val: int32) returns (steps: seq<Step>)
    requires Inv(s) && s.open != []
    ensures AllowedRun(s, [BeginRead] + steps) && ReadsToTheEnd(s, [BeginRead] + steps)
    ensures OneAtATime(Apply(s, BeginRead), steps)
    ensures Inv(Run(s, [BeginRead] + steps)) && Dropped(s, [BeginRead] + steps, key) == 0
    ensures Gap(s, [BeginRead] + steps, key) == val
  {
    var b := Apply(s, BeginRead);
    var e := Exhausted(b);
    var tail := [Inc(key, val), EndRead(0)];
    var i := Apply(e, tail[0]);
    var t := Apply(i, EndRead(0));
    TailRuns(e, key, val);
    steps := ReadOn(b, key, tail);
    var all := [BeginRead] + steps;
    assert all[1..] == steps;
    NothingDropped(s, all, key);
    PendingOne(s, key);
    PendingOne(t, key);
  }

  lemma TailRuns(e: State, key: nat, val: int32)
    requires e.index < 256 && |e.ms| == 2 && e.open != [] && e.open[0].pending == {}
    ensures var tail := [Inc(key, val), EndRead(0)];
            && AllowedRun(e, tail) && OneAtATime(e, tail) && ReadsToTheEnd(e, tail)
            && Run(e, tail) == Apply(Apply(e, Inc(key, val)), EndRead(0))
            && Incremented(tail, key) == val && Delivered(e, tail, key) == 0
  {
    var tail := [Inc(key, val), EndRead(0)];
    var i := Apply(e, Inc(key, val));
    assert tail[1..] == [EndRead(0)] && [EndRead(0)][1..] == [];
    assert AllowedRun(i, [EndRead(0)]);
    assert Incremented([EndRead(0)], key) == 0;
  }

  /** A run that begins a read, and in which no read begins inside another one after that. */
  predicate Continues(s: State, steps: seq<Step>)
    requires s.index < 256 && |s.ms| == 2
  {
    AllowedRun(s, [BeginRead] + steps) && AllowedRun(Apply(s, BeginRead), steps)
    && OneAtATime(Apply(s, BeginRead), steps)
  }

  /** Main theorem on overlap: beginning a read keeps the account of every key in every continuation balanced,
      modulo 2^32, if and only if no read is open. */
  lemma ExactlyWhenIdle(s: State)
    requires Inv(s)
    ensures s.open == [] <==>
            forall steps: seq<Step>, key: nat :: Continues(s, steps) ==> Balanced(s, [BeginRead] + steps, key)
  {
    if s.open == [] {
      forall steps: seq<Step>, key: nat | Continues(s, steps) ensures Balanced(s, [BeginRead] + steps, key) {
        assert ([BeginRead] + steps)[1..] == steps;
        Conservation(s, [BeginRead] + steps, key);
        CarriedMultiple(s, [BeginRead] + steps, key);
      }
    } else {
      var steps := SecondBeginLoses(s, 0, 1);
      assert ([BeginRead] + steps)[1..] == steps;
      assert Continues(s, steps) && !Balanced(s, [BeginRead] + steps, 0);
    }
  }
}

/** The class around the two tables. Every method is proved to take the step of the machine above. */
module NmShm {
  import opened DoubleBuffer
  import opened ShmTable
  import opened MachineInts

  /** The size of a node with an integer in it. */
  const UNIT := 12

  /** The state of this process's reader: between two reads, or inside one. */
  datatype Reading = Idle | Reading(cur: nat, pending: set<nat>)

  class Counter {
    var index: nat
    const first: Table<int32>
    const second: Table<int32>
    /** The protocol state of the one reader. */
    ghost var reader: Reading

    ghost predicate Valid()
      reads this, first, second, first.nodes, second.nodes
    {
      && index < 256 && first != second && first.nodes != second.nodes
      && first.Valid() && second.Valid() && first.unit == second.unit == UNIT
      && first.hashSize + first.dataSize >= 5 && second.hashSize + second.dataSize >= 5
      && (reader.Reading? ==>
            && reader.cur < 256 && reader.cur % 2 != index % 2
            && reader.pending == (if reader.cur % 2 == 0 then first else second).Pending())
      && (reader == Idle ==> (if index % 2 == 0 then second else first).Map() == map[])
    }

    ghost function Abs(): State
      reads this, first, second, first.nodes, second.nodes
      requires Valid()
    {
      State(index, [first.Map(), second.Map()], if reader == Idle then [] else [Open(reader.cur, reader.pending)])
    }

    constructor (nhash: nat, nrec: nat)
      requires 0 < nhash <= nrec && nrec >= 5 && Bytes(nrec, UNIT) < TWO31
      ensures Valid() && fresh(first) && fresh(second) && fresh(first.nodes) && fresh(second.nodes)
      ensures Abs() == INITIAL
    {
      index := 0;
      first := new Table(0, UNIT, nhash, nrec);
      second := new Table(0, UNIT, nhash, nrec);
      reader := Idle;
    }

    /** The table at an index. */
    function TableAt(i: nat): Table<int32> {
      if i % 2 == 0 then first else second
    }

    /** Adds val to a key's counter in the table being written to. It fails when the table is full for a new key and
        cannot be reallocated within the range of an int; the counters are lost then. */
    method Inc(alarmid: nat, val: int32) returns (ok: bool)
      requires Valid() && alarmid > 0
      modifies first, second, first.nodes, second.nodes
      ensures ok <==> old(TableAt(index).Takes(alarmid))
      ensures ok ==> Valid() && reader == old(reader)
      ensures ok ==> Allowed(old(Abs()), DoubleBuffer.Inc(alarmid, val))
      ensures ok ==> Abs() == Apply(old(Abs()), DoubleBuffer.Inc(alarmid, val))
    {
      hide Wf, MapOf, Bytes;
      if index % 2 == 0 {
        ok := IncTable(first, alarmid, val);
      } else {
        ok := IncTable(second, alarmid, val);
      }
    }

    static method IncTable(t: Table<int32>, alarmid: nat, val: int32) returns (ok: bool)
      requires t.Valid() && alarmid > 0 && t.hashSize + t.dataSize >= 5
      modifies t, t.nodes
      ensures ok <==> old(t.Takes(alarmid))
      ensures ok ==> t.Valid() && t.hashSize + t.dataSize >= 5 && (t.nodes == old(t.nodes) || fresh(t.nodes))
      ensures ok ==> t.Map() == Bump(old(t.Map()), alarmid, val)
    {
      hide Wf, MapOf, Room, Reaches, Bytes;
      var p := t.Find(alarmid);
      if p >= 0 {
        t.Store(p, Wrap32(t.nodes[p].value + val));
        return true;
      }
      ghost var all := t.index.slot.Keys + {alarmid};
      ok := t.Add(alarmid, val, all);
      if ok {
        assert t.index.slot.Keys == all;
        t.HasRoom();
      }
    }

    /** Flips the index and starts the iteration over the table written to so far. */
    method BeginRead() returns (cur: nat)
      requires Valid() && reader == Idle
      modifies this`index, this`reader, first`cursor, second`cursor
      ensures Valid() && cur == old(index) && Allowed(old(Abs()), DoubleBuffer.BeginRead)
      ensures Abs() == Apply(old(Abs()), DoubleBuffer.BeginRead)
    {
      hide Wf, MapOf, Bytes;
      cur := index;
      index := Complement(cur);
      var t := TableAt(cur);
      t.Begin();
      reader := Reading(cur, t.Pending());
    }

    /** Delivers a pending key and its value, or reports the end when there is none. */
    method ReadNext(cur: nat) returns (found: bool, alarmid: nat, value: int32)
      requires Valid() && reader.Reading? && reader.cur == cur
      modifies this`reader, first`cursor, second`cursor
      ensures Valid() && found == (old(reader.pending) != {})
      ensures found ==>
                && Allowed(old(Abs()), Read(0, alarmid)) && value == Delivers(old(Abs()), Read(0, alarmid), alarmid)
                && Abs() == Apply(old(Abs()), Read(0, alarmid))
      ensures !found ==> Abs() == old(Abs())
    {
      hide Wf, MapOf, Bytes;
      var t := TableAt(cur);
      var ok, keyno, p := t.Next();
      found, alarmid := ok, keyno;
      value := if found then t.nodes[p].value else 0;
      reader := reader.(pending := t.Pending());
    }

    method EndRead(cur: nat)
      requires Valid() && reader.Reading? && reader.cur == cur
      modifies this`reader, first, second, first.nodes, second.nodes
      ensures Valid() && Allowed(old(Abs()), DoubleBuffer.EndRead(0))
      ensures Abs() == Apply(old(Abs()), DoubleBuffer.EndRead(0))
    {
      hide Wf, MapOf, Bytes;
      var t := TableAt(cur);
      t.Clear();
      reader := Idle;
    }
  }
}
