/**
 Circular doubly linked lists threaded through records. A list head is known by its address, an index into
 the two link arrays; the addresses below a bound are the heads that lists hang from, the others are links
 inside records.
 */
module Lists {

  /** No address occurs twice on the way around a circle; only its first and last are the same. */
  ghost predicate Simple(c: seq<nat>) {
    && |c| >= 2 && c[0] == c[|c| - 1]
    && forall i, j :: 0 <= i < j < |c| && c[i] == c[j] ==> i == 0 && j == |c| - 1
  }

  /** Both links agree with the circle. */
  ghost predicate Linked(next: seq<nat>, prev: seq<nat>, c: seq<nat>) {
    && (forall i :: 0 <= i < |c| ==> c[i] < |next| == |prev|)
    && (forall i :: 0 <= i < |c| - 1 ==> next[c[i]] == c[i + 1] && prev[c[i + 1]] == c[i])
  }

  function Circle(h: nat, s: seq<nat>): seq<nat> {
    [h] + s + [h]
  }

  function InsertAt(s: seq<nat>, p: nat, a: nat): (t: seq<nat>)
    requires p <= |s|
    ensures |t| == |s| + 1
  {
    s[..p] + [a] + s[p..]
  }

  function RemoveAt(s: seq<nat>, p: nat): (t: seq<nat>)
    requires p < |s|
    ensures |t| == |s| - 1
  {
    s[..p] + s[p + 1..]
  }

  lemma Differ(c: seq<nat>, i: nat, j: nat)
    requires Simple(c) && i < |c| && j < |c| && i != j && !(i == 0 && j == |c| - 1) && !(j == 0 && i == |c| - 1)
    ensures c[i] != c[j]
  {
  }

  lemma InsertSimple(c: seq<nat>, p: nat, a: nat)
    requires Simple(c) && 1 <= p < |c| && a !in c
    ensures Simple(InsertAt(c, p, a))
  {
    var d := InsertAt(c, p, a);
    forall i, j | 0 <= i < j < |d| && d[i] == d[j] ensures i == 0 && j == |d| - 1 {
      if i != p && j != p {
        var i', j' := if i < p then i else i - 1, if j < p then j else j - 1;
        assert c[i'] == d[i] && c[j'] == d[j];
      }
    }
  }

  lemma RemoveSimple(c: seq<nat>, p: nat)
    requires Simple(c) && 1 <= p < |c| - 1
    ensures Simple(RemoveAt(c, p)) && c[p] !in RemoveAt(c, p)
  {
    var d := RemoveAt(c, p);
    forall i, j | 0 <= i < j < |d| && d[i] == d[j] ensures i == 0 && j == |d| - 1 {
      var i', j' := if i < p then i else i + 1, if j < p then j else j + 1;
      assert c[i'] == d[i] && c[j'] == d[j];
    }
    forall i | 0 <= i < |d| ensures d[i] != c[p] {
      var i' := if i < p then i else i + 1;
      assert c[i'] == d[i];
    }
  }

  lemma InsertLinked(next: seq<nat>, prev: seq<nat>, c: seq<nat>, p: nat, a: nat)
    requires Simple(c) && Linked(next, prev, c) && 1 <= p < |c| && a !in c && a < |next|
    ensures Linked(next[a := c[p]][c[p - 1] := a], prev[c[p] := a][a := c[p - 1]], InsertAt(c, p, a))
  {
    var d := InsertAt(c, p, a);
    var next', prev' := next[a := c[p]][c[p - 1] := a], prev[c[p] := a][a := c[p - 1]];
    forall i | 0 <= i < |d| - 1 ensures next'[d[i]] == d[i + 1] && prev'[d[i + 1]] == d[i] {
      if i < p - 1 {
        Differ(c, i, p - 1);
        Differ(c, i + 1, p);
      } else if i > p {
        assert d[i] == c[i - 1] && d[i + 1] == c[i];
        Differ(c, i - 1, p - 1);
        Differ(c, i, p);
      }
    }
  }

  lemma RemoveLinked(next: seq<nat>, prev: seq<nat>, c: seq<nat>, p: nat)
    requires Simple(c) && Linked(next, prev, c) && 1 <= p < |c| - 1
    ensures Linked(next[c[p - 1] := c[p + 1]][c[p] := c[p]], prev[c[p + 1] := c[p - 1]][c[p] := c[p]], RemoveAt(c, p))
  {
    var d := RemoveAt(c, p);
    RemoveSimple(c, p);
    var next', prev' := next[c[p - 1] := c[p + 1]][c[p] := c[p]], prev[c[p + 1] := c[p - 1]][c[p] := c[p]];
    forall i | 0 <= i < |d| - 1 ensures next'[d[i]] == d[i + 1] && prev'[d[i + 1]] == d[i] {
      assert d[i] in d && d[i + 1] in d;
      if i < p - 1 {
        Differ(c, i, p - 1);
        Differ(c, i + 1, p + 1);
      } else if i > p - 1 {
        assert d[i] == c[i + 1] && d[i + 1] == c[i + 2];
        Differ(c, i + 1, p - 1);
        Differ(c, i + 2, p + 1);
      }
    }
  }

  /** A change that does not touch a circle. */
  lemma OtherLinked(next: seq<nat>, prev: seq<nat>, next': seq<nat>, prev': seq<nat>, c: seq<nat>)
    requires Linked(next, prev, c) && |next'| == |prev'| == |next|
    requires forall i :: 0 <= i < |c| ==> next'[c[i]] == next[c[i]] && prev'[c[i]] == prev[c[i]]
    ensures Linked(next', prev', c)
  {
  }

  // ----- many lists over the same addresses

  /** Who is on which list: the owner of an address is its list's head, or itself when it is on none. */
  ghost predicate Owned(heads: nat, rings: seq<seq<nat>>, owner: seq<nat>) {
    && heads == |rings| <= |owner|
    && (forall h :: 0 <= h < heads ==> owner[h] == h)
    && (forall h, i :: 0 <= h < heads && 0 <= i < |rings[h]| ==>
          heads <= rings[h][i] < |owner| && owner[rings[h][i]] == h)
    && (forall a :: heads <= a < |owner| && owner[a] != a ==> owner[a] < heads && a in rings[owner[a]])
  }

  ghost predicate RingOk(next: seq<nat>, prev: seq<nat>, h: nat, s: seq<nat>) {
    Simple(Circle(h, s)) && Linked(next, prev, Circle(h, s))
  }

  ghost predicate Alone(next: seq<nat>, prev: seq<nat>, a: nat) {
    a < |next| && a < |prev| && next[a] == a && prev[a] == a
  }

  ghost predicate Wf(next: seq<nat>, prev: seq<nat>, rings: seq<seq<nat>>, owner: seq<nat>) {
    && |next| == |prev| == |owner|
    && Owned(|rings|, rings, owner)
    && (forall h :: 0 <= h < |rings| ==> RingOk(next, prev, h, rings[h]))
    && (forall a :: |rings| <= a < |owner| && owner[a] == a ==> Alone(next, prev, a))
  }

  lemma OnCircle(rings: seq<seq<nat>>, owner: seq<nat>, h: nat, i: nat)
    requires Owned(|rings|, rings, owner) && h < |rings| && i < |Circle(h, rings[h])|
    ensures Circle(h, rings[h])[i] < |owner| && owner[Circle(h, rings[h])[i]] == h
  {
    var c := Circle(h, rings[h]);
    assert 1 <= i < |c| - 1 ==> c[i] == rings[h][i - 1];
  }

  lemma CircleInsert(h: nat, s: seq<nat>, p: nat, a: nat)
    requires p <= |s|
    ensures InsertAt(Circle(h, s), p + 1, a) == Circle(h, InsertAt(s, p, a))
  {
  }

  lemma CircleRemove(h: nat, s: seq<nat>, p: nat)
    requires p < |s|
    ensures RemoveAt(Circle(h, s), p + 1) == Circle(h, RemoveAt(s, p))
  {
  }

  lemma AddOwned(rings: seq<seq<nat>>, owner: seq<nat>, h: nat, p: nat, a: nat)
    requires Owned(|rings|, rings, owner) && h < |rings| && p <= |rings[h]|
    requires |rings| <= a < |owner| && owner[a] == a
    ensures Owned(|rings|, rings[h := InsertAt(rings[h], p, a)], owner[a := h])
  {
    var s, t := rings[h], InsertAt(rings[h], p, a);
    assert t[p] == a;
    assert forall i :: 0 <= i < |t| && i != p ==> t[i] == s[if i < p then i else i - 1];
    assert forall x :: x in s ==> x in t;
  }

  lemma RemoveOwned(rings: seq<seq<nat>>, owner: seq<nat>, h: nat, p: nat)
    requires Owned(|rings|, rings, owner) && h < |rings| && p < |rings[h]| && Simple(Circle(h, rings[h]))
    ensures Owned(|rings|, rings[h := RemoveAt(rings[h], p)], owner[rings[h][p] := rings[h][p]])
  {
    var s, t, a := rings[h], RemoveAt(rings[h], p), rings[h][p];
    CircleRemove(h, s, p);
    RemoveSimple(Circle(h, s), p + 1);
    assert Circle(h, s)[p + 1] == a;
    forall i | 0 <= i < |t| ensures t[i] != a && t[i] in s {
      assert Circle(h, t)[i + 1] == t[i];
      assert t[i] == s[if i < p then i else i + 1];
    }
    forall x | x in s && x != a ensures x in t {
      var i :| 0 <= i < |s| && s[i] == x;
      assert t[if i < p then i else i - 1] == x;
    }
  }

  lemma AddRing(next: seq<nat>, prev: seq<nat>, rings: seq<seq<nat>>, owner: seq<nat>, h: nat, p: nat, a: nat, g: nat)
    requires |next| == |prev| == |owner| && Owned(|rings|, rings, owner)
    requires h < |rings| && p <= |rings[h]| && g < |rings|
    requires |rings| <= a < |owner| && owner[a] == a && RingOk(next, prev, g, rings[g])
    ensures var before, after := Circle(h, rings[h])[p], Circle(h, rings[h])[p + 1];
            && before < |next| && after < |next|
            && RingOk(next[a := after][before := a], prev[after := a][a := before], g,
                      rings[h := InsertAt(rings[h], p, a)][g])
  {
    var c := Circle(h, rings[h]);
    var before, after := c[p], c[p + 1];
    OnCircle(rings, owner, h, p);
    OnCircle(rings, owner, h, p + 1);
    forall i | 0 <= i < |Circle(g, rings[g])|
      ensures Circle(g, rings[g])[i] < |owner| && owner[Circle(g, rings[g])[i]] == g {
      OnCircle(rings, owner, g, i);
    }
    hide Owned, Linked, Simple;
    if g == h {
      InsertSimple(c, p + 1, a);
      InsertLinked(next, prev, c, p + 1, a);
      CircleInsert(h, rings[h], p, a);
    } else {
      OtherLinked(next, prev, next[a := after][before := a], prev[after := a][a := before], Circle(g, rings[g]));
    }
  }

  lemma AddWf(next: seq<nat>, prev: seq<nat>, rings: seq<seq<nat>>, owner: seq<nat>, h: nat, p: nat, a: nat)
    requires Wf(next, prev, rings, owner) && h < |rings| && p <= |rings[h]|
    requires |rings| <= a < |owner| && owner[a] == a
    ensures var before, after := Circle(h, rings[h])[p], Circle(h, rings[h])[p + 1];
            && before < |next| && after < |next|
            && Wf(next[a := after][before := a], prev[after := a][a := before],
                  rings[h := InsertAt(rings[h], p, a)], owner[a := h])
  {
    var c := Circle(h, rings[h]);
    var before, after := c[p], c[p + 1];
    OnCircle(rings, owner, h, p);
    OnCircle(rings, owner, h, p + 1);
    var next', prev' := next[a := after][before := a], prev[after := a][a := before];
    var rings', owner' := rings[h := InsertAt(rings[h], p, a)], owner[a := h];
    AddOwned(rings, owner, h, p, a);
    hide Owned, RingOk, Circle, InsertAt;
    forall g | 0 <= g < |rings| ensures RingOk(next', prev', g, rings'[g]) {
      AddRing(next, prev, rings, owner, h, p, a, g);
    }
    forall b | |rings| <= b < |owner| && owner'[b] == b ensures Alone(next', prev', b) {
      assert Alone(next, prev, b);
    }
  }

  lemma RemoveWf(next: seq<nat>, prev: seq<nat>, rings: seq<seq<nat>>, owner: seq<nat>, h: nat, p: nat)
    requires Wf(next, prev, rings, owner) && h < |rings| && p < |rings[h]|
    ensures var a, before, after := rings[h][p], Circle(h, rings[h])[p], Circle(h, rings[h])[p + 2];
            && before < |next| && after < |next| && a < |next|
            && Wf(next[before := after][a := a], prev[after := before][a := a],
                  rings[h := RemoveAt(rings[h], p)], owner[a := a])
  {
    var c, a := Circle(h, rings[h]), rings[h][p];
    var before, after := c[p], c[p + 2];
    assert c[p + 1] == a;
    OnCircle(rings, owner, h, p);
    OnCircle(rings, owner, h, p + 1);
    OnCircle(rings, owner, h, p + 2);
    assert RingOk(next, prev, h, rings[h]);
    var next', prev' := next[before := after][a := a], prev[after := before][a := a];
    var rings', owner' := rings[h := RemoveAt(rings[h], p)], owner[a := a];
    RemoveOwned(rings, owner, h, p);
    hide Owned, Linked, Simple;
    forall g | 0 <= g < |rings| ensures RingOk(next', prev', g, rings'[g]) {
      assert RingOk(next, prev, g, rings[g]);
      forall i | 0 <= i < |Circle(g, rings[g])|
        ensures Circle(g, rings[g])[i] < |owner| && owner[Circle(g, rings[g])[i]] == g {
        OnCircle(rings, owner, g, i);
      }
      if g == h {
        RemoveSimple(c, p + 1);
        RemoveLinked(next, prev, c, p + 1);
        CircleRemove(h, rings[h], p);
      } else {
        OtherLinked(next, prev, next', prev', Circle(g, rings[g]));
      }
    }
    forall b | |rings| <= b < |owner| && owner'[b] == b ensures Alone(next', prev', b) {
      assert b != a ==> Alone(next, prev, b);
    }
  }

  lemma LinksInRange(next: seq<nat>, prev: seq<nat>, rings: seq<seq<nat>>, owner: seq<nat>, a: nat)
    requires Wf(next, prev, rings, owner) && |rings| <= a < |owner|
    ensures next[a] < |next| && prev[a] < |next|
    ensures owner[a] != a ==> owner[a] < |rings| && a in rings[owner[a]]
    ensures owner[a] == a ==> next[a] == a && prev[a] == a
    ensures forall p :: owner[a] != a && 0 <= p < |rings[owner[a]]| && rings[owner[a]][p] == a ==>
      prev[a] == Circle(owner[a], rings[owner[a]])[p] && next[a] == Circle(owner[a], rings[owner[a]])[p + 2]
  {
    var h := owner[a];
    if h == a {
      assert Alone(next, prev, a);
    } else {
      assert RingOk(next, prev, h, rings[h]);
      var c := Circle(h, rings[h]);
      forall p | 0 <= p < |rings[h]| && rings[h][p] == a ensures prev[a] == c[p] && next[a] == c[p + 2] {
        assert c[p + 1] == a;
      }
      var p :| 0 <= p < |rings[h]| && rings[h][p] == a;
      OnCircle(rings, owner, h, p);
      OnCircle(rings, owner, h, p + 2);
    }
  }

  /** What taking any link off its list does. */
  lemma RemoveAnyWf(next: seq<nat>, prev: seq<nat>, rings: seq<seq<nat>>, owner: seq<nat>, a: nat)
    returns (rings': seq<seq<nat>>, p: nat)
    requires Wf(next, prev, rings, owner) && |rings| <= a < |owner|
    requires next[a] < |next| && prev[a] < |next|
    ensures Wf(next[prev[a] := next[a]][a := a], prev[next[a] := prev[a]][a := a], rings', owner[a := a])
    ensures |rings'| == |rings|
    ensures owner[a] == a ==> rings' == rings
    ensures var h := owner[a];
            h != a ==> h < |rings| && p < |rings[h]| && rings[h][p] == a && rings' == rings[h := RemoveAt(rings[h], p)]
  {
    LinksInRange(next, prev, rings, owner, a);
    var h := owner[a];
    if h == a {
      hide *;
      assert next[a := a][a := a] == next && prev[a := a][a := a] == prev && owner[a := a] == owner;
      rings', p := rings, 0;
    } else {
      p :| 0 <= p < |rings[h]| && rings[h][p] == a;
      RemoveWf(next, prev, rings, owner, h, p);
      rings' := rings[h := RemoveAt(rings[h], p)];
    }
  }

  /** The links of all heads and records. */
  class Links {
    const heads: nat
    const next: array<nat>
    const prev: array<nat>

    ghost var rings: seq<seq<nat>>
    ghost var owner: seq<nat>

    ghost predicate Valid()
      reads this, next, prev
      ensures Valid() ==> heads == |rings| <= |owner| == next.Length == prev.Length
    {
      next != prev && heads == |rings| && Wf(next[..], prev[..], rings, owner)
    }

    /** Every link points to itself. */
    constructor (heads: nat, size: nat)
      requires heads <= size
      ensures this.heads == heads && Valid() && fresh(next) && fresh(prev)
      ensures rings == seq(heads, _ => []) && owner == seq(size, i => i)
    {
      this.heads := heads;
      next, prev := new nat[size](i => i), new nat[size](i => i);
      rings, owner := seq(heads, _ => []), seq(size, i => i);
    }

    method Init(a: nat)
      requires Valid() && heads <= a < |owner| && owner[a] == a
      modifies next, prev
      ensures Valid()
    {
      next[a], prev[a] := a, a;
    }

    /** Links a between two neighbours. */
    method Add(a: nat, before: nat, after: nat, ghost h: nat, ghost p: nat)
      requires Valid() && heads <= a < |owner| && owner[a] == a && h < heads && p <= |rings[h]|
      requires before == Circle(h, rings[h])[p] && after == Circle(h, rings[h])[p + 1]
      modifies this, next, prev
      ensures Valid() && rings == old(rings)[h := InsertAt(old(rings)[h], p, a)] && owner == old(owner)[a := h]
    {
      AddWf(next[..], prev[..], rings, owner, h, p, a);
      ghost var n: seq<nat>, q: seq<nat> := next[..], prev[..];
      prev[after] := a;
      next[a] := after;
      prev[a] := before;
      next[before] := a;
      assert next[..] == n[a := after][before := a] && prev[..] == q[after := a][a := before];
      rings, owner := rings[h := InsertAt(rings[h], p, a)], owner[a := h];
    }

    /** The links at a head and at a member lead to the neighbours. */
    lemma Neighbours(h: nat, i: nat)
      requires Valid() && h < heads && i <= |rings[h]|
      ensures Circle(h, rings[h])[i] < next.Length && Circle(h, rings[h])[i + 1] < next.Length
      ensures next[Circle(h, rings[h])[i]] == Circle(h, rings[h])[i + 1]
      ensures prev[Circle(h, rings[h])[i + 1]] == Circle(h, rings[h])[i]
    {
      assert RingOk(next[..], prev[..], h, rings[h]);
    }

    /** The link at a head leads back to it only when the list is empty. */
    lemma HeadOnce(h: nat)
      requires Valid() && h < heads
      ensures forall i :: 0 <= i < |rings[h]| ==> Circle(h, rings[h])[i + 1] == rings[h][i] != h
      ensures Circle(h, rings[h])[1] == h ==> rings[h] == []
      ensures forall i, j :: 0 <= i < j < |rings[h]| ==> rings[h][i] != rings[h][j]
    {
      assert RingOk(next[..], prev[..], h, rings[h]);
      var c := Circle(h, rings[h]);
      assert forall i :: 0 <= i < |rings[h]| ==> c[i + 1] == rings[h][i];
    }

    lemma SecondNext(h: nat)
      requires Valid() && h < heads
      ensures Circle(h, rings[h])[1] < next.Length
      ensures rings[h] == [] ==> next[h] == h
      ensures rings[h] != [] ==> next[Circle(h, rings[h])[1]] == Circle(h, rings[h])[2]
    {
      Neighbours(h, 0);
      if rings[h] != [] {
        Neighbours(h, 1);
      }
    }

    lemma MemberOwner(h: nat, i: nat)
      requires Valid() && h < heads && i < |rings[h]|
      ensures heads <= rings[h][i] < |owner| && owner[rings[h][i]] == h
    {
    }

    lemma OwnedRings()
      requires Valid()
      ensures Owned(heads, rings, owner)
    {
    }

    method AddHead(a: nat, h: nat)
      requires Valid() && heads <= a < |owner| && owner[a] == a && h < heads
      modifies this, next, prev
      ensures Valid() && rings == old(rings)[h := [a] + old(rings)[h]] && owner == old(owner)[a := h]
    {
      Neighbours(h, 0);
      Add(a, h, next[h], h, 0);
      assert InsertAt(old(rings)[h], 0, a) == [a] + old(rings)[h];
    }

    method AddTail(a: nat, h: nat)
      requires Valid() && heads <= a < |owner| && owner[a] == a && h < heads
      modifies this, next, prev
      ensures Valid() && rings == old(rings)[h := old(rings)[h] + [a]] && owner == old(owner)[a := h]
    {
      Neighbours(h, |rings[h]|);
      Add(a, prev[h], h, h, |rings[h]|);
      assert InsertAt(old(rings)[h], |old(rings)[h]|, a) == old(rings)[h] + [a];
    }

    /** Takes a off its list, if it is on one. */
    method DelInit(a: nat) returns (ghost p: nat)
      requires Valid() && heads <= a < |owner|
      modifies this, next, prev
      ensures Valid() && owner == old(owner)[a := a]
      ensures old(owner)[a] == a ==> rings == old(rings)
      ensures var h := old(owner)[a];
              h != a ==>
                && h < heads && p < |old(rings)[h]| && old(rings)[h][p] == a
                && rings == old(rings)[h := RemoveAt(old(rings)[h], p)]
    {
      hide Owned, RingOk, Alone, Wf;
      ghost var n: seq<nat>, q: seq<nat> := next[..], prev[..];
      LinksInRange(n, q, rings, owner, a);
      rings, p := RemoveAnyWf(n, q, rings, owner, a);
      var before, after := prev[a], next[a];
      prev[after] := before;
      next[before] := after;
      next[a], prev[a] := a, a;
      assert next[..] == n[before := after][a := a] && prev[..] == q[after := before][a := a];
      owner := owner[a := a];
    }
  }
}
