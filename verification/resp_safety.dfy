/**
 Safety of the reader's task stack over every run: its depth, the bounds of every store through a parent
 array, and which slots of the reply under construction are filled. Array counts are converted to int, so
 that all of this depends on the counts in the array headers; how exactly is the main result.
 */
module RespSafety {
  import opened Bytes
  import opened MachineInts
  import opened RespSpec
  import opened RespChunks

  /** The reply has as many elements as it says, and none of its slots is left NULL. */
  predicate Complete(r: Reply) {
    match r
    case Null => false
    case Arr(n, el) => n == |el| && forall i :: 0 <= i < |el| ==> Complete(el[i])
    case _ => true
  }

  /** The check on the count of an array header: positive counts stay positive when they are converted to int,
      and the others are -1 or become 0. */
  predicate CountOk(e: int) {
    if e > 0 then Wrap32(e) > 0 else e == -1 || Wrap32(e) == 0
  }

  // ----- the stack

  /** In every run: at most nine tasks, arrays below the top, and every idx inside the array below it. Only
      directly below the top may the count have become zero or negative; then no idx is inside. */
  predicate Frames(stack: seq<Task>) {
    && |stack| <= MAX_STACK
    && (stack != [] ==> stack[0].idx == -1)
    && (|stack| == MAX_STACK ==> Top(stack).kind != KArray)
    && (forall k :: 0 <= k < |stack| - 1 ==> stack[k].kind == KArray)
    && (forall k :: 0 <= k < |stack| - 2 ==> stack[k].elements > 0)
    && (forall k :: 1 <= k < |stack| && stack[k - 1].elements > 0 ==> 0 <= stack[k].idx < stack[k - 1].elements)
  }

  /** Every task below the top is a non-empty array, and a task's idx is a slot of the array below it. */
  predicate StackShape(stack: seq<Task>) {
    && (forall k :: 0 <= k < |stack| - 1 ==> stack[k].kind == KArray && stack[k].elements > 0)
    && (forall k :: 1 <= k < |stack| ==> 0 <= stack[k].idx < stack[k - 1].elements)
  }

  // ----- the tree

  /** The array of each task has as many slots as its count is positive; those behind the next task's idx, and
      that one, are empty. */
  predicate TreeShape(tree: Reply, stack: seq<Task>)
    decreases |stack|
  {
    if |stack| <= 1 then tree == Null
    else if stack[0].elements <= 0 then tree.Arr? && tree.element == []
    else
      && tree.Arr? && tree.elements == stack[0].elements == |tree.element|
      && 0 <= stack[1].idx < |tree.element|
      && (forall j :: stack[1].idx < j < |tree.element| ==> tree.element[j] == Null)
      && TreeShape(tree.element[stack[1].idx], stack[1..])
  }

  /** Every task has its slot, and the slots before it are complete. */
  predicate Filled(tree: Reply, stack: seq<Task>)
    decreases |stack|
  {
    |stack| <= 1 ||
    (&& tree.Arr? && 0 <= stack[1].idx < |tree.element|
     && (forall j :: 0 <= j < stack[1].idx ==> Complete(tree.element[j]))
     && Filled(tree.element[stack[1].idx], stack[1..]))
  }

  /** What every run keeps, whatever the counts. */
  predicate Sound(s: State) {
    && Frames(s.stack) && TreeShape(s.tree, s.stack)
    && (s.err != NoErr ==> s == Fail(s.err))
  }

  /** The reader is in order: nothing is missing so far. */
  predicate Ok(s: State) {
    Sound(s) && Filled(s.tree, s.stack) && s.err != Fault
  }

  lemma PathTail(stack: seq<Task>)
    requires |stack| >= 2
    ensures Path(stack) == [stack[1].idx] + Path(stack[1..])
  {
  }

  /** A task has its slot exactly when no count below it has become zero or negative. */
  lemma {:induction false} SlotExists(tree: Reply, stack: seq<Task>)
    requires TreeShape(tree, stack) && stack != []
    ensures HasPath(tree, Path(stack)) <==> forall k :: 0 <= k < |stack| - 1 ==> stack[k].elements > 0
    decreases |stack|
  {
    if |stack| >= 2 {
      PathTail(stack);
      assert Path(stack)[1..] == Path(stack[1..]);
      if stack[0].elements > 0 {
        var rest := stack[1..];
        SlotExists(tree.element[stack[1].idx], rest);
        assert forall k :: 0 <= k < |rest| - 1 ==> rest[k] == stack[k + 1];
        assert forall k :: 1 <= k < |stack| - 1 ==> stack[k] == rest[k - 1];
      }
    }
  }

  lemma {:induction false} FilledHasSlots(tree: Reply, stack: seq<Task>)
    requires TreeShape(tree, stack) && Filled(tree, stack)
    ensures forall k :: 0 <= k < |stack| - 1 ==> stack[k].elements > 0
    decreases |stack|
  {
    if |stack| >= 2 {
      var rest := stack[1..];
      FilledHasSlots(tree.element[stack[1].idx], rest);
      assert forall k :: 1 <= k < |stack| - 1 ==> stack[k] == rest[k - 1];
    }
  }

  lemma FramesAreShape(stack: seq<Task>)
    requires Frames(stack) && forall k :: 0 <= k < |stack| - 1 ==> stack[k].elements > 0
    ensures StackShape(stack)
  {
    forall k | 1 <= k < |stack| ensures 0 <= stack[k].idx < stack[k - 1].elements {
      assert stack[k - 1].elements > 0;
    }
  }

  lemma ShapeOf(tree: Reply, stack: seq<Task>)
    requires Frames(stack) && TreeShape(tree, stack) && stack != []
    ensures HasPath(tree, Path(stack)) <==> StackShape(stack)
    ensures Filled(tree, stack) ==> HasPath(tree, Path(stack))
  {
    hide TreeShape, Filled, HasPath, Path;
    SlotExists(tree, stack);
    if HasPath(tree, Path(stack)) {
      FramesAreShape(stack);
    }
    if Filled(tree, stack) {
      FilledHasSlots(tree, stack);
    }
  }

  /** The shapes look at the idx of the tasks and at the counts below the top only. */
  lemma {:induction false} ShapeOfTop(tree: Reply, stack: seq<Task>, t: Task)
    requires stack != [] && TreeShape(tree, stack) && t.idx == Top(stack).idx
    ensures TreeShape(tree, SetTop(stack, t))
    ensures Filled(tree, SetTop(stack, t)) <==> Filled(tree, stack)
    decreases |stack|
  {
    if |stack| >= 2 {
      assert SetTop(stack, t)[1..] == SetTop(stack[1..], t);
      if stack[0].elements > 0 {
        ShapeOfTop(tree.element[stack[1].idx], stack[1..], t);
      }
    }
  }

  /** MoveNext seen from the root: the root's array is complete exactly when its last child is. */
  lemma {:induction false} MoveNextFront(stack: seq<Task>)
    requires |stack| >= 2
    ensures var sub := MoveNext(stack[1..]);
            MoveNext(stack) ==
            if sub != [] then [stack[0]] + sub
            else if stack[1].idx == stack[0].elements - 1 then []
            else [stack[0], Task(KNone, -1, stack[1].idx + 1)]
    decreases |stack|
  {
    if |stack| == 2 {
      assert stack[..1] == [stack[0]];
    } else {
      assert stack[1..][..|stack| - 2] == stack[..|stack| - 1][1..];
      assert Top(stack[1..]) == Top(stack);
      if Top(stack).idx == stack[|stack| - 2].elements - 1 {
        MoveNextFront(stack[..|stack| - 1]);
      }
    }
  }

  lemma StoreStep(tree: Reply, stack: seq<Task>, obj: Reply)
    requires |stack| >= 2 && tree.Arr? && 0 <= stack[1].idx < |tree.element|
    ensures Store(tree, stack, obj) ==
            WithChild(tree, stack[1].idx, Store(tree.element[stack[1].idx], stack[1..], obj))
  {
    PathTail(stack);
    assert Path(stack)[1..] == Path(stack[1..]);
  }

  /** What holds of a tree and a stack after the current task has ended with an object that is complete or not:
      the tree stays in shape; and it is filled, or complete when the stack has run empty, exactly when it was
      filled and the object is complete. */
  predicate Stored(tree: Reply, stack: seq<Task>, filled: bool) {
    if stack == [] then Complete(tree) <==> filled
    else TreeShape(tree, stack) && (Filled(tree, stack) <==> filled)
  }

  lemma {:induction false} StoreKeepsTree(tree: Reply, stack: seq<Task>, obj: Reply)
    requires stack != [] && StackShape(stack) && TreeShape(tree, stack)
    ensures Stored(Store(tree, stack, obj), MoveNext(stack), Filled(tree, stack) && Complete(obj))
    decreases |stack|
  {
    if |stack| >= 2 {
      hide Complete, Store, MoveNext, Stored;
      var child := tree.element[stack[1].idx];
      StoreKeepsTree(child, stack[1..], obj);
      StoreStep(tree, stack, obj);
      MoveNextFront(stack);
      LevelKeepsTree(tree, Store(child, stack[1..], obj), stack, Filled(child, stack[1..]) && Complete(obj));
    }
  }

  predicate CompleteBefore(tree: Reply, i: int)
    requires tree.Arr? && i <= |tree.element|
  {
    forall j :: 0 <= j < i ==> Complete(tree.element[j])
  }

  /** The same array with another child in the slot that is being filled. */
  function WithChild(tree: Reply, i: int, child: Reply): (t: Reply)
    requires tree.Arr? && 0 <= i < |tree.element|
    ensures t.Arr?
  {
    tree.(element := tree.element[i := child])
  }

  lemma BeforeKept(tree: Reply, i: int, child: Reply)
    requires tree.Arr? && 0 <= i < |tree.element|
    ensures CompleteBefore(WithChild(tree, i, child), i) <==> CompleteBefore(tree, i)
    ensures CompleteBefore(WithChild(tree, i, child), i + 1) <==> CompleteBefore(tree, i) && Complete(child)
  {
    hide Complete;
    var t := WithChild(tree, i, child);
    assert t.element[i] == child && forall j :: 0 <= j < i ==> t.element[j] == tree.element[j];
  }

  /** The child goes on. */
  lemma LevelGoesOn(tree: Reply, child: Reply, stack: seq<Task>, next: seq<Task>)
    requires |stack| >= 2 && StackShape(stack) && TreeShape(tree, stack)
    requires |next| >= 2 && next[0].elements == stack[0].elements && next[1].idx == stack[1].idx
    requires TreeShape(child, next[1..])
    ensures var t := WithChild(tree, stack[1].idx, child);
            && TreeShape(t, next)
            && (Filled(t, next) <==> CompleteBefore(tree, stack[1].idx) && Filled(child, next[1..]))
  {
    hide Complete;
    BeforeKept(tree, stack[1].idx, child);
  }

  /** The child was not the last. */
  lemma LevelAdvances(tree: Reply, child: Reply, stack: seq<Task>)
    requires |stack| >= 2 && StackShape(stack) && TreeShape(tree, stack) && stack[1].idx != stack[0].elements - 1
    ensures var t, next := WithChild(tree, stack[1].idx, child), [stack[0], Task(KNone, -1, stack[1].idx + 1)];
            && TreeShape(t, next)
            && (Filled(t, next) <==> CompleteBefore(tree, stack[1].idx) && Complete(child))
  {
    hide Complete;
    BeforeKept(tree, stack[1].idx, child);
    var next := [stack[0], Task(KNone, -1, stack[1].idx + 1)];
    assert next[1..] == [next[1]];
  }

  /** The child was the last. */
  lemma LevelEnds(tree: Reply, child: Reply, stack: seq<Task>)
    requires |stack| >= 2 && StackShape(stack) && TreeShape(tree, stack) && stack[1].idx == stack[0].elements - 1
    ensures Complete(WithChild(tree, stack[1].idx, child)) <==> CompleteBefore(tree, stack[1].idx) && Complete(child)
  {
    BeforeKept(tree, stack[1].idx, child);
  }

  lemma LevelKeepsTree(tree: Reply, child: Reply, stack: seq<Task>, filled: bool)
    requires |stack| >= 2 && StackShape(stack) && TreeShape(tree, stack)
    requires Stored(child, MoveNext(stack[1..]), filled)
    ensures var sub := MoveNext(stack[1..]);
            Stored(WithChild(tree, stack[1].idx, child),
                   if sub != [] then [stack[0]] + sub
                   else if stack[1].idx == stack[0].elements - 1 then []
                   else [stack[0], Task(KNone, -1, stack[1].idx + 1)],
                   CompleteBefore(tree, stack[1].idx) && filled)
  {
    hide Complete, MoveNext, Filled, WithChild, CompleteBefore;
    var sub := MoveNext(stack[1..]);
    if sub != [] {
      MoveNextBase(stack[1..]);
      assert ([stack[0]] + sub)[1..] == sub;
      LevelGoesOn(tree, child, stack, [stack[0]] + sub);
    } else if stack[1].idx == stack[0].elements - 1 {
      LevelEnds(tree, child, stack);
    } else {
      LevelAdvances(tree, child, stack);
    }
  }

  lemma {:induction false} MoveNextBase(stack: seq<Task>)
    requires stack != [] && MoveNext(stack) != []
    ensures |stack| >= 2 && MoveNext(stack)[0].idx == stack[0].idx
    ensures |MoveNext(stack)| >= 2
    decreases |stack|
  {
    if Top(stack).idx == stack[|stack| - 2].elements - 1 {
      MoveNextBase(stack[..|stack| - 1]);
    }
  }

  lemma {:induction false} MoveNextKeepsStack(stack: seq<Task>)
    requires stack != [] && Frames(stack) && StackShape(stack)
    ensures Frames(MoveNext(stack)) && StackShape(MoveNext(stack)) && |MoveNext(stack)| <= |stack|
    decreases |stack|
  {
    if |stack| > 1 {
      MoveNextIs(stack);
      hide MoveNext, Frames, StackShape;
      if Top(stack).idx == stack[|stack| - 2].elements - 1 {
        WithoutTop(stack);
        MoveNextKeepsStack(stack[..|stack| - 1]);
      } else {
        NextSibling(stack);
      }
    }
  }

  lemma MoveNextIs(stack: seq<Task>)
    requires |stack| > 1
    ensures MoveNext(stack) ==
            if Top(stack).idx == stack[|stack| - 2].elements - 1 then MoveNext(stack[..|stack| - 1])
            else SetTop(stack, Task(KNone, -1, Top(stack).idx + 1))
  {
  }

  lemma WithoutTop(stack: seq<Task>)
    requires |stack| > 1 && Frames(stack) && StackShape(stack)
    ensures Frames(stack[..|stack| - 1]) && StackShape(stack[..|stack| - 1])
  {
  }

  lemma NextSibling(stack: seq<Task>)
    requires |stack| > 1 && Frames(stack) && StackShape(stack)
    requires Top(stack).idx != stack[|stack| - 2].elements - 1
    ensures var next := SetTop(stack, Task(KNone, -1, Top(stack).idx + 1)); Frames(next) && StackShape(next)
  {
  }

  /** The stack after an array has been opened. */
  function Pushed(stack: seq<Task>, e: int): seq<Task>
    requires stack != []
  {
    SetTop(stack, Top(stack).(elements := e)) + [Task(KNone, -1, 0)]
  }

  lemma {:induction false} OpenKeepsTree(tree: Reply, stack: seq<Task>, e: int)
    requires stack != [] && StackShape(stack) && TreeShape(tree, stack) && e < TWO31
    ensures Stored(Store(tree, stack, NewArray(e)), Pushed(stack, e), Filled(tree, stack) && e > 0)
    decreases |stack|
  {
    var stack' := Pushed(stack, e);
    if |stack| >= 2 {
      hide Complete, NewArray, Store;
      OpenKeepsTree(tree.element[stack[1].idx], stack[1..], e);
      StoreStep(tree, stack, NewArray(e));
      assert stack'[1..] == Pushed(stack[1..], e);
      LevelGoesOn(tree, Store(tree.element[stack[1].idx], stack[1..], NewArray(e)), stack, stack');
    } else {
      OpenRoot(tree, stack, e);
    }
  }

  lemma OpenRoot(tree: Reply, stack: seq<Task>, e: int)
    requires |stack| == 1 && e < TWO31
    ensures Store(tree, stack, NewArray(e)) == NewArray(e)
    ensures TreeShape(NewArray(e), Pushed(stack, e)) && (Filled(NewArray(e), Pushed(stack, e)) <==> e > 0)
  {
    var stack' := Pushed(stack, e);
    assert stack' == [stack[0].(elements := e), Task(KNone, -1, 0)];
    assert stack'[1..] == [Task(KNone, -1, 0)];
  }

  // ----- one item

  /** If the object of the current task can be stored, the asserts on the way to the next task hold. */
  predicate Storable(s: State) {
    HasSlot(s) ==> StackShape(s.stack)
  }

  lemma SoundIsStorable(s: State)
    requires s.stack != [] && Sound(s)
    ensures Storable(s)
  {
    hide TreeShape, Frames, StackShape;
    ShapeOf(s.tree, s.stack);
  }

  lemma TypingIsStorable(s: State)
    requires s.stack != [] && s.rest != [] && Storable(s)
    ensures Storable(WithKind(s))
  {
    var t := WithKind(s);
    assert Path(t.stack) == Path(s.stack);
  }

  /** What one step guarantees about its result t: ok says that the item was complete, good that the count it
      read, if any, passes the check. */
  predicate StepOk(s: State, ok: bool, t: State, good: bool) {
    if ok then
      && Frames(t.stack) && t.err == NoErr
      && Stored(t.tree, t.stack, Filled(s.tree, s.stack) && good)
    else if t.err == NoErr then Sound(t) && (Filled(t.tree, t.stack) <==> Filled(s.tree, s.stack))
    else t == Fail(t.err) && (t.err == Fault ==> !Filled(s.tree, s.stack))
  }

  lemma FinishIsOk(s: State, obj: Reply, used: nat)
    requires s.stack != [] && used <= |s.rest| && s.err == NoErr && Sound(s)
    ensures StepOk(s, Finish(s, obj, used).0, Finish(s, obj, used).1, Complete(obj))
  {
    hide TreeShape, Filled, HasPath, Complete, Store, MoveNext, Frames, StackShape;
    ShapeOf(s.tree, s.stack);
    if HasSlot(s) {
      MoveNextKeepsStack(s.stack);
      StoreKeepsTree(s.tree, s.stack, obj);
    }
  }

  lemma PushKeepsFrames(stack: seq<Task>, e: int)
    requires stack != [] && |stack| < MAX_STACK && Frames(stack) && StackShape(stack) && Top(stack).kind == KArray
    ensures Frames(Pushed(stack, e))
  {
    var stack' := Pushed(stack, e);
    assert forall k :: 0 <= k < |stack| - 1 ==> stack'[k] == stack[k];
    assert stack'[|stack| - 1] == Top(stack).(elements := e);
    assert stack'[|stack|] == Task(KNone, -1, 0);
  }

  lemma OpenIsOk(s: State, e: int, used: nat)
    requires s.stack != [] && used <= |s.rest| && s.err == NoErr && Sound(s) && e < TWO31
    requires |s.stack| < MAX_STACK && Top(s.stack).kind == KArray
    ensures StepOk(s, Open(s, e, used).0, Open(s, e, used).1, e > 0)
  {
    hide TreeShape, Filled, HasPath, Complete, Store, NewArray, Frames, StackShape;
    ShapeOf(s.tree, s.stack);
    if HasSlot(s) {
      OpenKeepsTree(s.tree, s.stack, e);
      PushKeepsFrames(s.stack, e);
    }
  }

  lemma BulkIsOk(s: State)
    requires s.stack != [] && s.err == NoErr && Sound(s)
    ensures StepOk(s, BulkItem(s).0, BulkItem(s).1, true)
  {
    hide StepOk, Finish, Sound, ReadLongLong, Complete;
    var n := Seek(s.rest);
    NotTouched(s);
    if n >= 0 {
      var len := ReadLongLong(s.rest);
      if len < 0 {
        LeafIsComplete(Nil);
        FinishIsOk(s, Nil, n + 2);
      } else if n + 2 + len + 2 <= |s.rest| {
        LeafIsComplete(Str(s.rest[n + 2..n + 2 + len]));
        FinishIsOk(s, Str(s.rest[n + 2..n + 2 + len]), n + 2 + len + 2);
      }
    }
  }

  lemma LeafIsComplete(r: Reply)
    requires r.Nil? || r.Integer? || r.Status? || r.Error? || r.Str?
    ensures Complete(r)
  {
  }

  lemma NotTouched(s: State)
    requires s.err == NoErr && Sound(s)
    ensures StepOk(s, false, s, true)
  {
  }

  lemma LineIsOk(s: State)
    requires s.stack != [] && s.err == NoErr && Sound(s)
    ensures StepOk(s, LineItem(s).0, LineItem(s).1, true)
  {
    hide StepOk, Finish, Sound, ReadLongLong, Complete;
    var n := Seek(s.rest);
    NotTouched(s);
    if n >= 0 {
      var obj := LineReply(Top(s.stack).kind, s.rest, n);
      LeafIsComplete(obj);
      FinishIsOk(s, obj, n + 2);
    }
  }

  lemma NewArrayComplete(e: int)
    requires -TWO31 <= e < TWO31
    ensures Complete(NewArray(e)) <==> e == 0
  {
    if e > 0 {
      assert NewArray(e).element[0] == Null;
    }
  }

  lemma MultiBulkIsOk(s: State)
    requires s.stack != [] && s.err == NoErr && Sound(s) && Top(s.stack).kind == KArray
    ensures StepOk(s, MultiBulkItem(s).0, MultiBulkItem(s).1,
                   |s.stack| != MAX_STACK && Seek(s.rest) >= 0 ==> CountOk(ReadLongLong(s.rest)))
  {
    var n := Seek(s.rest);
    if |s.stack| != MAX_STACK && n >= 0 {
      hide StepOk, Finish, Open, Sound, Complete, NewArray, Wrap32, ReadLongLong;
      var e := ReadLongLong(s.rest);
      if e == -1 {
        LeafIsComplete(Nil);
        FinishIsOk(s, Nil, n + 2);
      } else if e > 0 {
        OpenIsOk(s, Wrap32(e), n + 2);
      } else {
        NewArrayComplete(Wrap32(e));
        FinishIsOk(s, NewArray(Wrap32(e)), n + 2);
      }
    }
  }

  /** The state in which the typed part of an item is read. */
  function Typing(s: State): State
    requires s.stack != []
  {
    if Top(s.stack).kind == KNone && s.rest != [] then WithKind(s) else s
  }

  /** The count that the current item reads, when it is an array header that is complete and not too deep. */
  function Count(s: State): Option<int>
    requires s.stack != []
  {
    var t := Typing(s);
    if Top(t.stack).kind == KArray && |t.stack| != MAX_STACK && Seek(t.rest) >= 0 then Some(ReadLongLong(t.rest))
    else None
  }

  predicate Good(c: Option<int>) {
    c.Some? ==> CountOk(c.value)
  }

  lemma TypedIsOk(s: State)
    requires s.stack != [] && s.err == NoErr && Sound(s) && Top(s.stack).kind != KNone
    ensures StepOk(s, Typed(s).0, Typed(s).1, Good(Count(s)))
  {
    hide StepOk, Sound, CountOk, BulkItem, LineItem, MultiBulkItem, ReadLongLong;
    match Top(s.stack).kind
    case KString => BulkIsOk(s);
    case KArray => MultiBulkIsOk(s);
    case _ => LineIsOk(s);
  }

  /** Every item keeps the stack and the tree in shape, and the tree filled exactly when the count it reads, if
      it reads one, passes the check. */
  lemma ItemKeepsOk(s: State)
    requires s.stack != [] && s.err == NoErr && Sound(s)
    ensures StepOk(s, Item(s).0, Item(s).1, Good(Count(s)))
  {
    hide Typed, CountOk, ReadLongLong;
    if Top(s.stack).kind != KNone {
      TypedIsOk(s);
    } else if s.rest != [] && KindOf(s.rest[0]) != KNone {
      var t := WithKind(s);
      ShapeOfTop(s.tree, s.stack, Top(t.stack));
      if |s.stack| == MAX_STACK && KindOf(s.rest[0]) == KArray {
        NinthIsTooDeep(t);
      } else {
        TypedIsOk(t);
      }
    }
  }

  lemma NinthIsTooDeep(s: State)
    requires |s.stack| == MAX_STACK && Top(s.stack).kind == KArray
    ensures Typed(s) == (false, Fail(TooDeep))
  {
  }

  // ----- requests and runs

  /** The counts that the array headers of the current reply carry, in the order they are read. */
  function LoopCounts(s: State): seq<int>
    requires s.err == NoErr
    decreases |s.rest|
  {
    if s.stack == [] then []
    else
      ItemConsumes(s);
      (if Count(s).Some? then [Count(s).value] else []) + (if Item(s).0 then LoopCounts(Item(s).1) else [])
  }

  predicate AllOk(counts: seq<int>) {
    forall i :: 0 <= i < |counts| ==> CountOk(counts[i])
  }

  lemma AllOkAppend(a: seq<int>, b: seq<int>)
    ensures AllOk(a + b) <==> AllOk(a) && AllOk(b)
  {
    hide CountOk;
    if AllOk(a + b) {
      assert forall i :: 0 <= i < |a| ==> (a + b)[i] == a[i];
      forall i | 0 <= i < |b| ensures CountOk(b[i]) {
        assert (a + b)[|a| + i] == b[i];
      }
    }
  }

  lemma OneOk(c: Option<int>)
    ensures AllOk(if c.Some? then [c.value] else []) <==> Good(c)
  {
    hide CountOk;
    if c.Some? {
      assert [c.value][0] == c.value;
    }
  }

  /** What a request comes to: a reply that is complete, or a tree that is filled, exactly when the counts it read
      pass the check; and a fault only when one does not. */
  lemma {:induction false} LoopKeepsOk(s: State)
    requires s.stack != [] && s.err == NoErr && Sound(s)
    ensures var t, filled := Loop(s), Filled(s.tree, s.stack) && AllOk(LoopCounts(s));
            if t.err != NoErr then t == Fail(t.err) && (t.err == Fault ==> !filled)
            else if t.stack == [] then Complete(t.tree) <==> filled
            else Sound(t) && (Filled(t.tree, t.stack) <==> filled)
    decreases |s.rest|
  {
    ItemConsumes(s);
    ItemKeepsOk(s);
    var t := Item(s).1;
    var first := if Count(s).Some? then [Count(s).value] else [];
    OneOk(Count(s));
    hide Item, Complete, TreeShape, Filled, Count, AllOk;
    if !Item(s).0 {
      assert LoopCounts(s) == first;
      WaitsWithoutCount(s);
    } else {
      AllOkAppend(first, LoopCounts(t));
      if t.stack == [] {
        assert AllOk([]) by { NoCounts(); }
      } else {
        LoopKeepsOk(t);
      }
    }
  }

  lemma NoCounts()
    ensures AllOk([])
  {
  }

  /** An item that suspends or fails for good while its task has a slot has not read a count. */
  lemma WaitsWithoutCount(s: State)
    requires s.stack != [] && s.err == NoErr && !Item(s).0
    ensures Item(s).1.err == NoErr ==> Count(s) == None
  {
    hide HasSlot, Store, MoveNext, NewArray, ReadLongLong;
  }

  /** The counts of a request that builds something: one that ends in a protocol error drops what it has built. */
  function RequestCounts(s: State): seq<int> {
    if s.err != NoErr || s.rest == [] then []
    else
      var t := Loop(Begin(s));
      if t.err != NoErr && t.err != Fault then [] else LoopCounts(Begin(s))
  }

  /** The counts read while replies are asked for until there is none. */
  function DrainCounts(s: State): seq<int>
    decreases |s.rest|
  {
    GetReplyConsumes(s);
    RequestCounts(s) + (if GetReply(s).0.Some? then DrainCounts(GetReply(s).1) else [])
  }

  /** What a request hands out is complete, and the reader stays in order, exactly when the counts pass. */
  lemma GetReplyKeepsOk(s: State)
    requires Sound(s)
    ensures var (r, t) := GetReply(s);
            && Sound(t)
            && (r.Some? ==> t.stack == [] && t.err == NoErr)
            && (Ok(s) ==> if r.Some? then Ok(t) && (Complete(r.value) <==> AllOk(RequestCounts(s)))
                          else Ok(t) <==> AllOk(RequestCounts(s)))
  {
    hide Complete, Loop, AllOk, Sound, Frames, TreeShape, Filled, LoopCounts, Begin, Rest;
    NoCounts();
    if s.err == NoErr && s.rest != [] {
      BeginIsOk(s);
      LoopKeepsOk(Begin(s));
      var t := Loop(Begin(s));
      if t.err != NoErr || t.stack != [] {
        RestIsOk(t);
      } else {
        DoneIsOk(t);
      }
    }
  }

  lemma BeginIsOk(s: State)
    requires Sound(s) && s.err == NoErr
    ensures Sound(Begin(s)) && Begin(s).stack != [] && Begin(s).err == NoErr
    ensures Filled(Begin(s).tree, Begin(s).stack) <==> Filled(s.tree, s.stack)
  {
  }

  lemma RestIsOk(t: State)
    requires if t.err != NoErr then t == Fail(t.err) else Sound(t)
    ensures Sound(Rest(t)) && (Filled(Rest(t).tree, Rest(t).stack) <==> Filled(t.tree, t.stack)) && Rest(t).err == t.err
    ensures t.err != NoErr ==> Filled(t.tree, t.stack)
  {
  }

  lemma DoneIsOk(t: State)
    requires t.err == NoErr && t.stack == []
    ensures Sound(t.(tree := Null)) && Filled(Null, [])
  {
  }

  predicate AllComplete(rs: seq<Reply>) {
    forall i :: 0 <= i < |rs| ==> Complete(rs[i])
  }

  lemma AllCompleteAppend(a: seq<Reply>, b: seq<Reply>)
    ensures AllComplete(a + b) <==> AllComplete(a) && AllComplete(b)
  {
    hide Complete;
    if AllComplete(a + b) {
      assert forall i :: 0 <= i < |a| ==> (a + b)[i] == a[i];
      forall i | 0 <= i < |b| ensures Complete(b[i]) {
        assert (a + b)[|a| + i] == b[i];
      }
    }
  }

  lemma OneComplete(r: Reply)
    ensures AllComplete([r]) <==> Complete(r)
  {
    hide Complete;
    assert [r][0] == r;
  }

  lemma {:induction false} DrainKeepsOk(s: State)
    requires Sound(s)
    ensures var (rs, t) := Drain(s);
            Sound(t) && (Ok(s) ==> (AllComplete(rs) && Ok(t) <==> AllOk(DrainCounts(s))))
    decreases |s.rest|
  {
    hide Complete, AllOk, AllComplete, Ok, Sound, GetReply, RequestCounts;
    GetReplyKeepsOk(s);
    var (r, t) := GetReply(s);
    if r.Some? {
      GetReplyConsumes(s);
      DrainKeepsOk(t);
      AllOkAppend(RequestCounts(s), DrainCounts(t));
      AllCompleteAppend([r.value], Drain(t).0);
      OneComplete(r.value);
    } else {
      assert RequestCounts(s) + [] == RequestCounts(s);
      NoReplies();
    }
  }

  lemma NoReplies()
    ensures AllComplete([])
  {
  }

  lemma FeedKeepsOk(s: State, b: seq<byte>)
    ensures Sound(s) ==> Sound(Feed(s, b))
    ensures Ok(s) ==> Ok(Feed(s, b))
  {
  }

  /** Main result: for every stream and every way of feeding it, the stores through parent arrays all find their
      slot, nothing that was read is missing, and no reply with an empty slot or a wrong count is handed out, if
      and only if the counts in the array headers that were read pass the check. The counts of a request that ends
      in a protocol error are left out: what they built is dropped, and nothing was stored through it. */
  lemma RunsAreSafe(s: State, chunks: seq<seq<byte>>)
    requires Ok(s) && Settled(s) && Drain(s) == ([], s)
    ensures var (rs, t) := FeedDrain(s, chunks);
            && Sound(t)
            && (AllComplete(rs) && Ok(t) <==> AllOk(DrainCounts(Feed(s, Flatten(chunks)))))
  {
    hide Drain, FeedDrain, Sound, Ok, DrainCounts, AllOk;
    ChunkIndependence(s, chunks);
    FeedKeepsOk(s, Flatten(chunks));
    OkIsSound(Feed(s, Flatten(chunks)));
    DrainKeepsOk(Feed(s, Flatten(chunks)));
  }

  lemma OkIsSound(s: State)
    ensures Ok(s) ==> Sound(s)
  {
  }
}
