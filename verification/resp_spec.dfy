/**
 The reply reader of hiredis, as a deterministic machine over values: unread bytes, the stack of
 read tasks, and the reply tree under construction. The class in resp_reader.dfy updates its fields
 in place and is proved to take exactly these steps; the theorems about the protocol are stated here
 and in the modules that import this one.
 */
module RespSpec {
  import opened Bytes
  import opened MachineInts

  /** A reply object. Null is the NULL pointer in a slot of an array whose element is not read yet. */
  datatype Reply =
    | Null
    | Nil
    | Integer(value: int)
    | Status(str: seq<byte>)
    | Error(str: seq<byte>)
    | Str(str: seq<byte>)
    | Arr(elements: int, element: seq<Reply>)

  /** The type field of a read task; KNone is the value -1, "not read yet". */
  datatype Kind = KNone | KString | KArray | KInteger | KStatus | KError

  datatype Task = Task(kind: Kind, elements: int, idx: int)

  /** Fault is not one of the reader's own errors: it stands for a store through a parent array that has
      no such slot, behind which nothing is defined. */
  datatype Err = NoErr | BadType(b: byte) | TooDeep | Fault

  datatype State = State(err: Err, rest: seq<byte>, stack: seq<Task>, tree: Reply)

  const MAX_STACK := 9
  const ROOT := Task(KNone, -1, -1)
  const IDLE := State(NoErr, [], [], Null)

  // ----- scanning

  predicate NewlineAt(u: seq<byte>, i: int) {
    0 <= i && i + 1 < |u| && u[i] == CR && u[i + 1] == LF
  }

  /** The position of the first CRLF in u, or -1. */
  function Seek(u: seq<byte>): (r: int)
    ensures r < 0 ==> r == -1 && forall i :: !NewlineAt(u, i)
    ensures r >= 0 ==> NewlineAt(u, r) && forall i :: i < r ==> !NewlineAt(u, i)
  {
    if |u| < 2 then -1
    else if NewlineAt(u, 0) then 0
    else
      var r := Seek(u[1..]);
      assert forall i :: NewlineAt(u, i) && i > 0 ==> NewlineAt(u[1..], i - 1);
      assert forall i :: NewlineAt(u[1..], i) ==> NewlineAt(u, i + 1);
      if r < 0 then -1 else r + 1
  }

  datatype Option<+T> = None | Some(value: T)

  /** Decimal digits up to the first CR, continuing from value v; None when another byte comes first. The
      value is kept in 64 bits. */
  function Digits(u: seq<byte>, v: int): Option<int> {
    if u == [] then None
    else if u[0] == CR then Some(v)
    else if 48 <= u[0] < 58 then Digits(u[1..], Wrap64(Wrap64(10 * v) + (u[0] - 48)))
    else None
  }

  /** An optional sign and digits up to the first CR; -1 for anything unexpected. */
  function ReadLongLong(u: seq<byte>): int {
    var signed := u != [] && (u[0] == 45 || u[0] == 43);
    var mult := if signed && u[0] == 45 then -1 else 1;
    match Digits(if signed then u[1..] else u, 0)
    case None => -1
    case Some(v) => Wrap64(mult * v)
  }

  // ----- the tree under construction

  function Nulls(n: nat): (r: seq<Reply>)
    ensures |r| == n && forall i :: 0 <= i < n ==> r[i] == Null
  {
    seq(n, i => Null)
  }

  /** The tree with v stored at the end of path, as a store through the parent pointers does. */
  function PutAt(tree: Reply, path: seq<int>, v: Reply): Reply
    decreases path
  {
    if path == [] then v
    else if tree.Arr? && 0 <= path[0] < |tree.element| then
      tree.(element := tree.element[path[0] := PutAt(tree.element[path[0]], path[1..], v)])
    else tree
  }

  /** The path leads through arrays to an existing slot. */
  predicate HasPath(tree: Reply, path: seq<int>)
    decreases path
  {
    path == [] || (tree.Arr? && 0 <= path[0] < |tree.element| && HasPath(tree.element[path[0]], path[1..]))
  }

  /** The slot of the current task: the idx fields of the tasks above the root. */
  function Path(stack: seq<Task>): seq<int> {
    seq(if |stack| == 0 then 0 else |stack| - 1, k requires 0 <= k < |stack| - 1 => stack[k + 1].idx)
  }

  function Store(tree: Reply, stack: seq<Task>, obj: Reply): Reply {
    PutAt(tree, Path(stack), obj)
  }

  // ----- one item

  function Top(stack: seq<Task>): Task
    requires stack != []
  {
    stack[|stack| - 1]
  }

  function SetTop(stack: seq<Task>, t: Task): seq<Task>
    requires stack != []
  {
    stack[|stack| - 1 := t]
  }

  /** The stack after the current task is done: close every array whose last element this was. */
  function MoveNext(stack: seq<Task>): seq<Task>
    requires stack != []
    decreases |stack|
  {
    if |stack| == 1 then []
    else if Top(stack).idx == stack[|stack| - 2].elements - 1 then MoveNext(stack[..|stack| - 1])
    else SetTop(stack, Task(KNone, -1, Top(stack).idx + 1))
  }

  function Fail(e: Err): State {
    State(e, [], [], Null)
  }

  function KindOf(b: byte): Kind {
    if b == 45 then KError
    else if b == 43 then KStatus
    else if b == 58 then KInteger
    else if b == 36 then KString
    else if b == 42 then KArray
    else KNone
  }

  /** The object of the current task can be stored. */
  predicate HasSlot(s: State) {
    HasPath(s.tree, Path(s.stack))
  }

  /** The current task ends with obj; `used` bytes are consumed. */
  function Finish(s: State, obj: Reply, used: nat): (bool, State)
    requires s.stack != [] && used <= |s.rest|
  {
    if HasSlot(s) then (true, State(NoErr, s.rest[used..], MoveNext(s.stack), Store(s.tree, s.stack, obj)))
    else (false, Fail(Fault))
  }

  function LineReply(k: Kind, u: seq<byte>, n: nat): Reply
    requires n <= |u|
  {
    if k == KInteger then Integer(ReadLongLong(u))
    else if k == KStatus then Status(u[..n])
    else Error(u[..n])
  }

  function LineItem(s: State): (bool, State)
    requires s.stack != []
  {
    var n := Seek(s.rest);
    if n < 0 then (false, s) else Finish(s, LineReply(Top(s.stack).kind, s.rest, n), n + 2)
  }

  function BulkItem(s: State): (bool, State)
    requires s.stack != []
  {
    var n := Seek(s.rest);
    if n < 0 then (false, s)
    else
      var len := ReadLongLong(s.rest);
      if len < 0 then Finish(s, Nil, n + 2)
      else if n + 2 + len + 2 <= |s.rest| then
        Finish(s, Str(s.rest[n + 2..n + 2 + len]), n + 2 + len + 2)
      else (false, s)
  }

  function MultiBulkItem(s: State): (bool, State)
    requires s.stack != []
  {
    if |s.stack| == MAX_STACK then (false, Fail(TooDeep))
    else
      var n := Seek(s.rest);
      if n < 0 then (false, s)
      else
        var e := ReadLongLong(s.rest);
        if e == -1 then Finish(s, Nil, n + 2)
        else if e > 0 then Open(s, Wrap32(e), n + 2)
        else Finish(s, NewArray(Wrap32(e)), n + 2)
  }

  /** The array object for a count that was converted to int: as many empty slots as it is positive, and the
      count converted to size_t. */
  function NewArray(e: int): Reply {
    Arr(SizeT(e), Nulls(if e > 0 then e else 0))
  }

  /** An array with a positive count starts: its object is stored, and a task for element 0 is pushed. The
      count that is kept was converted to int. */
  function Open(s: State, e: int, used: nat): (bool, State)
    requires s.stack != [] && used <= |s.rest|
  {
    if HasSlot(s) then
      (true, State(NoErr, s.rest[used..],
                   SetTop(s.stack, Top(s.stack).(elements := e)) + [Task(KNone, -1, 0)],
                   Store(s.tree, s.stack, NewArray(e))))
    else (false, Fail(Fault))
  }

  function Typed(s: State): (bool, State)
    requires s.stack != []
  {
    match Top(s.stack).kind
    case KNone => (false, s)
    case KString => BulkItem(s)
    case KArray => MultiBulkItem(s)
    case _ => LineItem(s)
  }

  function WithKind(s: State): State
    requires s.stack != [] && s.rest != []
  {
    s.(rest := s.rest[1..], stack := SetTop(s.stack, Top(s.stack).(kind := KindOf(s.rest[0]))))
  }

  /** One item of the reply: read the type byte unless it is known already, then the typed item.
      The flag tells whether the item was complete. */
  function Item(s: State): (bool, State)
    requires s.stack != []
  {
    if Top(s.stack).kind != KNone then Typed(s)
    else if s.rest == [] then (false, s)
    else if KindOf(s.rest[0]) == KNone then (false, Fail(BadType(s.rest[0])))
    else Typed(WithKind(s))
  }

  lemma TypedConsumes(s: State)
    requires s.stack != []
    ensures Typed(s).0 ==> |Typed(s).1.rest| < |s.rest| && Typed(s).1.err == NoErr
    ensures !Typed(s).0 ==> Typed(s).1 == s || (Typed(s).1.err != NoErr && Typed(s).1.rest == [])
  {
    hide HasSlot, Store, MoveNext, ReadLongLong, NewArray;
  }

  lemma ItemConsumes(s: State)
    requires s.stack != []
    ensures Item(s).0 ==> |Item(s).1.rest| < |s.rest| && Item(s).1.err == NoErr
    ensures |Item(s).1.rest| <= |s.rest|
    ensures !Item(s).0 && Item(s).1.err == s.err == NoErr ==> |Item(s).1.stack| == |s.stack|
  {
    hide Typed;
    if Top(s.stack).kind != KNone {
      TypedConsumes(s);
    } else if s.rest != [] {
      TypedConsumes(WithKind(s));
    }
  }

  /** Items until the reply is complete (stack empty) or the input does not suffice. */
  function Loop(s: State): (t: State)
    requires s.err == NoErr
    decreases |s.rest|
  {
    if s.stack == [] then s
    else
      ItemConsumes(s);
      if Item(s).0 then Loop(Item(s).1) else Item(s).1
  }

  lemma {:induction false} LoopConsumes(s: State)
    requires s.err == NoErr
    ensures |Loop(s).rest| <= |s.rest|
    ensures Loop(s).stack == [] && s.stack != [] && Loop(s).err == NoErr ==> |Loop(s).rest| < |s.rest|
    decreases |s.rest|
  {
    if s.stack != [] {
      ItemConsumes(s);
      if Item(s).0 {
        LoopConsumes(Item(s).1);
      }
    }
  }

  // ----- the interface of the reader

  /** A root task that has not seen its type byte is the same as no task. */
  function Rest(s: State): State {
    if s.stack == [ROOT] then s.(stack := []) else s
  }

  function Begin(s: State): State {
    if s.stack == [] then s.(stack := [ROOT]) else s
  }

  function Feed(s: State, b: seq<byte>): State {
    if s.err != NoErr then s else s.(rest := s.rest + b)
  }

  /** One request for a reply: the reply if one is complete, and the state after. */
  function GetReply(s: State): (Option<Reply>, State) {
    if s.err != NoErr || s.rest == [] then (None, s)
    else
      var t := Loop(Begin(s));
      if t.err == NoErr && t.stack == [] then (Some(t.tree), t.(tree := Null)) else (None, Rest(t))
  }

  lemma GetReplyConsumes(s: State)
    ensures GetReply(s).0.Some? ==> |GetReply(s).1.rest| < |s.rest|
  {
    if s.err == NoErr {
      LoopConsumes(Begin(s));
    }
  }

  /** Ask for replies until there is none. */
  function Drain(s: State): (seq<Reply>, State)
    decreases |s.rest|
  {
    GetReplyConsumes(s);
    var (r, t) := GetReply(s);
    if r.None? then ([], t)
    else
      var (rs, u) := Drain(t);
      ([r.value] + rs, u)
  }

  /** Feed the chunks one by one, draining the reader after each. */
  function FeedDrain(s: State, chunks: seq<seq<byte>>): (seq<Reply>, State)
    decreases |chunks|
  {
    if chunks == [] then ([], s)
    else
      var (rs, t) := Drain(Feed(s, chunks[0]));
      var (rs', u) := FeedDrain(t, chunks[1..]);
      (rs + rs', u)
  }
}
