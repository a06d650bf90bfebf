/** What whole runs of the task cache amount to. */
module DupRun {
  import opened DupCache
  import opened Word32

  datatype Op =
    | Add(h1: word, h2: word, h3: word, now: int)
    | Check(h1: word, h2: word, h3: word)
    | Clear(now: int)

  /** The live entries, every entry ever accepted, and the time of the last clearing. */
  datatype Past = Past(live: seq<Entry>, accepted: seq<Entry>, cleared: int)

  function Step(p: Past, op: Op): (Past, bool) {
    match op
    case Add(h1, h2, h3, now) =>
      var e := Entry(h1, h2, h3, now % TWO32);
      if |p.live| < DUPSIZE then (Past(p.live + [e], p.accepted + [e], p.cleared), true) else (p, false)
    case Check(h1, h2, h3) => (p, Known(p.live, h1, h2, h3))
    case Clear(now) => (p.(live := DropAged(p.live, now), cleared := now), true)
  }

  function Run(ops: seq<Op>): (r: (Past, seq<bool>)) {
    if ops == [] then (Past([], [], 0), [])
    else
      var (before, answers) := Run(ops[..|ops| - 1]);
      var (after, answer) := Step(before, ops[|ops| - 1]);
      (after, answers + [answer])
  }

  method Apply(c: DupCache, op: Op, ghost p: Past) returns (answer: bool)
    requires c.Valid() && c.Live() == p.live
    modifies c.links, c.links.next, c.links.prev, c.h1, c.h2, c.h3, c.t
    ensures c.Valid() && c.Live() == Step(p, op).0.live && answer == Step(p, op).1
  {
    hide CacheOk, TimeLinks, LiveOf, Known;
    answer := true;
    match op {
      case Add(h1, h2, h3, now) => answer := c.Add(h1, h2, h3, now);
      case Check(h1, h2, h3) => answer := c.Check(h1, h2, h3);
      case Clear(now) => c.ClearExpired(now);
    }
  }

  /** The cache behaves as the run says. */
  method Replay(ops: seq<Op>) returns (c: DupCache, answers: seq<bool>)
    ensures fresh(c) && c.Valid()
    ensures c.Live() == Run(ops).0.live && answers == Run(ops).1
  {
    hide CacheOk, TimeLinks, LiveOf, Step;
    c := new DupCache();
    answers := [];
    var i := 0;
    while i < |ops|
      invariant 0 <= i <= |ops|
      invariant fresh(c) && fresh(c.links) && fresh(c.links.next) && fresh(c.links.prev)
      invariant fresh(c.h1) && fresh(c.h2) && fresh(c.h3) && fresh(c.t)
      invariant c.Valid() && c.Live() == Run(ops[..i]).0.live && answers == Run(ops[..i]).1
    {
      assert ops[..i + 1][..i] == ops[..i];
      var answer := Apply(c, ops[i], Run(ops[..i]).0);
      answers := answers + [answer];
      i := i + 1;
    }
    assert ops[..i] == ops;
  }

  // ----- clearing

  /** The entries that are not aged. */
  function Keep(s: seq<Entry>, now: int): (r: seq<Entry>) {
    if s == [] then []
    else if Aged(s[|s| - 1], now) then Keep(s[..|s| - 1], now)
    else Keep(s[..|s| - 1], now) + [s[|s| - 1]]
  }

  /** No aged entry is behind a younger one. */
  predicate AgedFirst(s: seq<Entry>, now: int) {
    forall i, j :: 0 <= i < j < |s| && Aged(s[j], now) ==> Aged(s[i], now)
  }

  lemma {:induction false} KeepCons(e: Entry, s: seq<Entry>, now: int)
    ensures Keep([e] + s, now) == (if Aged(e, now) then [] else [e]) + Keep(s, now)
  {
    var t := [e] + s;
    if s == [] {
      assert t[..0] == [];
    } else {
      KeepCons(e, s[..|s| - 1], now);
      assert t[..|t| - 1] == [e] + s[..|s| - 1];
      assert t[|t| - 1] == s[|s| - 1];
    }
  }

  lemma {:induction false} KeepOnly(s: seq<Entry>, now: int)
    ensures |Keep(s, now)| <= |s|
    ensures forall i :: 0 <= i < |Keep(s, now)| ==> Keep(s, now)[i] in s && !Aged(Keep(s, now)[i], now)
    ensures Keep(s, now) == s <==> forall i :: 0 <= i < |s| ==> !Aged(s[i], now)
  {
    if s != [] {
      var t := s[..|s| - 1];
      KeepOnly(t, now);
      assert s == t + [s[|s| - 1]];
      if Aged(s[|s| - 1], now) {
        assert |Keep(s, now)| < |s|;
      }
    }
  }

  /** Clearing removes every aged entry and nothing else exactly when no aged entry is behind a younger one. */
  lemma {:induction false} DropIsKeep(s: seq<Entry>, now: int)
    ensures DropAged(s, now) == Keep(s, now) <==> AgedFirst(s, now)
  {
    if s != [] {
      var t := s[1..];
      assert s == [s[0]] + t;
      KeepCons(s[0], t, now);
      if Aged(s[0], now) {
        DropIsKeep(t, now);
        assert [] + Keep(t, now) == Keep(t, now);
        assert AgedFirst(s, now) <==> AgedFirst(t, now) by {
          assert forall i :: 0 <= i < |t| ==> t[i] == s[i + 1];
          if AgedFirst(s, now) {
            forall i, j | 0 <= i < j < |t| && Aged(t[j], now) ensures Aged(t[i], now) {
              assert Aged(s[j + 1], now);
            }
          } else {
          }
        }
      } else {
        KeepOnly(s, now);
      }
    }
  }

  // ----- runs with a clock that does not go back

  function Time(op: Op): int {
    match op
    case Add(_, _, _, now) => now
    case Check(_, _, _) => 0
    case Clear(now) => now
  }

  /** The times are 32-bit and never smaller than one before. */
  predicate Clocked(ops: seq<Op>) {
    && (forall i :: 0 <= i < |ops| ==> 0 <= Time(ops[i]) < TWO32)
    && (forall i, j :: 0 <= i < j < |ops| && !ops[i].Check? && !ops[j].Check? ==> Time(ops[i]) <= Time(ops[j]))
  }

  predicate UpTo(s: seq<Entry>, last: int) {
    && (forall i :: 0 <= i < |s| ==> s[i].t <= last)
    && (forall i, j :: 0 <= i < j < |s| ==> s[i].t <= s[j].t)
  }

  lemma {:induction false} KeepKeep(s: seq<Entry>, before: int, now: int)
    requires before <= now
    ensures Keep(Keep(s, before), now) == Keep(s, now)
  {
    if s != [] {
      KeepKeep(s[..|s| - 1], before, now);
      var k := Keep(s[..|s| - 1], before);
      if !Aged(s[|s| - 1], before) {
        assert (k + [s[|s| - 1]])[..|k|] == k;
      }
    }
  }

  lemma {:induction false} KeepSorted(s: seq<Entry>, before: int, last: int)
    requires UpTo(s, last)
    ensures UpTo(Keep(s, before), last)
  {
    if s != [] {
      var t, e := s[..|s| - 1], s[|s| - 1];
      assert UpTo(t, e.t);
      KeepSorted(t, before, e.t);
    }
  }

  /** The live entries are the accepted ones that had not aged at the last clearing. */
  lemma {:induction false} LiveIsRecent(ops: seq<Op>, last: int)
    requires Clocked(ops) && last >= 0
    requires forall i :: 0 <= i < |ops| ==> Time(ops[i]) <= last
    ensures var p := Run(ops).0;
            p.live == Keep(p.accepted, p.cleared) && UpTo(p.accepted, last) && 0 <= p.cleared <= last
  {
    if ops != [] {
      var earlier, op := ops[..|ops| - 1], ops[|ops| - 1];
      var p := Run(earlier).0;
      if op.Check? {
        LiveIsRecent(earlier, last);
      } else {
        LiveIsRecent(earlier, op.now);
        StepIsRecent(p, op);
      }
    }
  }

  lemma StepIsRecent(p: Past, op: Op)
    requires !op.Check? && 0 <= op.now < TWO32
    requires p.live == Keep(p.accepted, p.cleared) && UpTo(p.accepted, op.now) && 0 <= p.cleared <= op.now
    ensures var q := Step(p, op).0;
            q.live == Keep(q.accepted, q.cleared) && UpTo(q.accepted, op.now) && 0 <= q.cleared <= op.now
  {
    hide Keep, UpTo, DropAged;
    match op {
      case Add(h1, h2, h3, now) => AddIsRecent(p.accepted, Entry(h1, h2, h3, now), p.cleared);
      case Clear(now) => ClearIsRecent(p.accepted, p.cleared, now);
    }
  }

  lemma AddIsRecent(s: seq<Entry>, e: Entry, before: int)
    requires UpTo(s, e.t) && before <= e.t
    ensures Keep(s + [e], before) == Keep(s, before) + [e] && UpTo(s + [e], e.t)
  {
    assert (s + [e])[..|s|] == s;
  }

  lemma ClearIsRecent(s: seq<Entry>, before: int, now: int)
    requires UpTo(s, now) && before <= now
    ensures DropAged(Keep(s, before), now) == Keep(s, now)
  {
    hide Keep, DropAged;
    KeepSorted(s, before, now);
    DropIsKeep(Keep(s, before), now);
    KeepKeep(s, before, now);
  }

  /** The accepted entries are those of the additions that were answered with true. */
  lemma {:induction false} AcceptedAre(ops: seq<Op>, e: Entry)
    requires forall i | 0 <= i < |ops| && ops[i].Add? :: 0 <= ops[i].now < TWO32
    ensures var (p, answers) := Run(ops);
            && |answers| == |ops|
            && (e in p.accepted <==>
                exists i :: 0 <= i < |ops| && ops[i] == Add(e.h1, e.h2, e.h3, e.t) && answers[i])
  {
    if ops != [] {
      var earlier, op := ops[..|ops| - 1], ops[|ops| - 1];
      var (p, answers) := Run(earlier);
      var (q, answer) := Step(p, op);
      AcceptedAre(earlier, e);
      hide Run, Known, DropAged;
      assert e in q.accepted <==> e in p.accepted || (op == Add(e.h1, e.h2, e.h3, e.t) && answer);
      assert forall i | 0 <= i < |earlier| :: earlier[i] == ops[i] && (answers + [answer])[i] == answers[i];
      RunLast(ops);
    }
  }

  lemma RunLast(ops: seq<Op>)
    requires ops != []
    ensures var (p, answers) := Run(ops[..|ops| - 1]);
            var (q, answer) := Step(p, ops[|ops| - 1]);
            Run(ops) == (q, answers + [answer])
  {
  }

  lemma {:induction false} AnswerEach(ops: seq<Op>)
    ensures |Run(ops).1| == |ops|
  {
    if ops != [] {
      AnswerEach(ops[..|ops| - 1]);
    }
  }

  lemma AnswersKept(ops: seq<Op>, op: Op)
    ensures Run(ops + [op]).1 == Run(ops).1 + [Step(Run(ops).0, op).1] && |Run(ops).1| == |ops|
  {
    assert (ops + [op])[..|ops|] == ops;
    AnswerEach(ops);
  }

  /** After a clearing, the known tasks are those accepted less than a day before. */
  lemma RecentIsKnown(ops: seq<Op>, now: int, h1: word, h2: word, h3: word)
    requires Clocked(ops + [Clear(now)])
    ensures var p := Run(ops + [Clear(now)]).0;
            Known(p.live, h1, h2, h3) <==>
            exists e :: e in p.accepted && e.h1 == h1 && e.h2 == h2 && e.h3 == h3 && now - e.t < 86400
  {
    var all := ops + [Clear(now)];
    assert all[|all| - 1] == Clear(now) && all[..|all| - 1] == ops;
    forall i | 0 <= i < |all| ensures Time(all[i]) <= now {
    }
    LiveIsRecent(all, now);
    var p := Run(all).0;
    assert p.cleared == now;
    KeepOnly(p.accepted, now);
    forall i | 0 <= i < |p.accepted| && !Aged(p.accepted[i], now) ensures p.accepted[i] in p.live {
      KeepsYoung(p.accepted, now, i);
    }
    KnownIs(p.live, h1, h2, h3);
  }

  lemma KnownIs(live: seq<Entry>, h1: word, h2: word, h3: word)
    ensures Known(live, h1, h2, h3) <==> exists e :: e in live && e.h1 == h1 && e.h2 == h2 && e.h3 == h3
  {
  }

  /** After a clearing, a task is reported as a duplicate exactly when it was added less than 86400 seconds before
      and not refused. */
  lemma KnownAfterClear(ops: seq<Op>, now: int, h1: word, h2: word, h3: word)
    requires Clocked(ops + [Clear(now)])
    ensures var answers := Run(ops + [Clear(now)] + [Check(h1, h2, h3)]).1;
            && |answers| == |ops| + 2
            && (answers[|ops| + 1] <==>
                exists i :: 0 <= i < |ops| && ops[i].Add? && ops[i].h1 == h1 && ops[i].h2 == h2 && ops[i].h3 == h3
                            && answers[i] && now - ops[i].now < 86400)
  {
    var all := ops + [Clear(now)];
    var answers := Run(all + [Check(h1, h2, h3)]).1;
    AnswersKept(all, Check(h1, h2, h3));
    AnswersKept(ops, Clear(now));
    RunStep(ops, Clear(now));
    var p := Run(all).0;
    assert p.accepted == Run(ops).0.accepted && answers[|ops| + 1] == Known(p.live, h1, h2, h3);
    assert forall i | 0 <= i < |ops| :: answers[i] == Run(ops).1[i];
    forall i | 0 <= i < |ops| ensures 0 <= Time(ops[i]) < TWO32 {
      assert all[i] == ops[i];
    }
    RecentIsKnown(ops, now, h1, h2, h3);
    hide Run, Known, Clocked;
    forall i | 0 <= i < |ops| && ops[i].Add? && ops[i].h1 == h1 && ops[i].h2 == h2 && ops[i].h3 == h3 && answers[i]
      ensures Entry(h1, h2, h3, ops[i].now) in p.accepted
    {
      AcceptedAre(ops, Entry(h1, h2, h3, ops[i].now));
    }
    forall e | e in p.accepted
      ensures exists i :: 0 <= i < |ops| && ops[i] == Add(e.h1, e.h2, e.h3, e.t) && answers[i]
    {
      AcceptedAre(ops, e);
    }
  }

  /** A task is refused exactly when 1000000 tasks are recorded. */
  lemma RefusedWhenFull(ops: seq<Op>, h1: word, h2: word, h3: word, now: int)
    ensures var (p, answers) := Run(ops + [Add(h1, h2, h3, now)]);
            |answers| == |ops| + 1 && (answers[|ops|] <==> |Run(ops).0.live| < 1000000) && |p.live| <= 1000000
  {
    AnswersKept(ops, Add(h1, h2, h3, now));
    RunStep(ops, Add(h1, h2, h3, now));
    NeverOverfull(ops);
  }

  lemma {:induction false} NeverOverfull(ops: seq<Op>)
    ensures |Run(ops).0.live| <= DUPSIZE
  {
    if ops != [] {
      var p := Run(ops[..|ops| - 1]).0;
      NeverOverfull(ops[..|ops| - 1]);
      if ops[|ops| - 1].Clear? {
        DropShortens(p.live, ops[|ops| - 1].now);
      }
    }
  }

  lemma {:induction false} DropShortens(live: seq<Entry>, now: int)
    ensures |DropAged(live, now)| <= |live|
  {
    if live != [] {
      DropShortens(live[1..], now);
    }
  }

  lemma {:induction false} KeepsYoung(s: seq<Entry>, now: int, i: nat)
    requires i < |s| && !Aged(s[i], now)
    ensures s[i] in Keep(s, now)
  {
    if i < |s| - 1 {
      KeepsYoung(s[..|s| - 1], now, i);
    }
  }

  lemma RunStep(ops: seq<Op>, op: Op)
    ensures Run(ops + [op]).0 == Step(Run(ops).0, op).0
  {
    assert (ops + [op])[..|ops|] == ops;
  }

  /** When the clock is set back, a task can outlive its day behind a younger one. */
  lemma SetBackClockKeepsAged()
    ensures var p := Run([Add(2, 2, 2, 100000), Add(1, 1, 1, 5), Clear(86500)]).0;
            Known(p.live, 1, 1, 1) && 86500 - 5 >= 86400
  {
    var stale, young := Entry(1, 1, 1, 5), Entry(2, 2, 2, 100000);
    var ops := [Add(2, 2, 2, 100000), Add(1, 1, 1, 5)];
    assert [Add(2, 2, 2, 100000)] == [] + [Add(2, 2, 2, 100000)];
    RunStep([], Add(2, 2, 2, 100000));
    assert ops == [Add(2, 2, 2, 100000)] + [Add(1, 1, 1, 5)];
    RunStep([Add(2, 2, 2, 100000)], Add(1, 1, 1, 5));
    assert Run(ops).0.live == [young, stale];
    assert ops + [Clear(86500)] == [Add(2, 2, 2, 100000), Add(1, 1, 1, 5), Clear(86500)];
    RunStep(ops, Clear(86500));
    assert DropAged([young, stale], 86500) == [young, stale];
    assert [young, stale][1] == stale;
  }

  /** Times are stored in 32 bits. Clearing treats a single task as its age demands exactly when it was accepted
      before 2^32, or a day ago. */
  lemma StampsAreShort(now: nat, later: nat, h1: word, h2: word, h3: word)
    requires now <= later
    ensures var p := Run([Add(h1, h2, h3, now), Clear(later)]).0;
            (Known(p.live, h1, h2, h3) <==> later - now < 86400) <==>
            (now < 0x1_0000_0000 || later - now >= 86400)
  {
    var add, e := Add(h1, h2, h3, now), Entry(h1, h2, h3, now % TWO32);
    assert [add] == [] + [add] && [add, Clear(later)] == [add] + [Clear(later)];
    RunStep([], add);
    RunStep([add], Clear(later));
    assert Run([add]).0.live == [e];
    assert [e][0] == e && [e][1..] == [] && DropAged([], later) == [];
    assert DropAged([e], later) == if Aged(e, later) then [] else [e];
    assert Run([add, Clear(later)]).0.live == if Aged(e, later) then [] else [e];
  }

  /** A day after 2^32 every clearing forgets all tasks, those accepted in the same second included. */
  lemma LateClockForgets(ops: seq<Op>, now: int)
    requires now >= 0x1_0000_0000 + 86400
    ensures Run(ops + [Clear(now)]).0.live == []
  {
    RunStep(ops, Clear(now));
    DropAllAged(Run(ops).0.live, now);
  }

  lemma {:induction false} DropAllAged(s: seq<Entry>, now: int)
    requires now >= TWO32 + EXPIRE
    ensures DropAged(s, now) == []
  {
    if s != [] {
      DropAllAged(s[1..], now);
    }
  }
}
