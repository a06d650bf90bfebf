/** The cache of recent tasks: every record is threaded through two lists at once. */
module DupCache {
  import opened Lists
  import opened Word32

  const DUPHASH: nat := 250000
  const DUPSIZE: nat := 1000000
  const EXPIRE: nat := 86400

  // ----- addresses: the bucket heads, the head of the free list, the head of the time list,
  // and the links of each record

  const HOME: nat := DUPHASH
  const TIME: nat := DUPHASH + 1
  const HEADS: nat := DUPHASH + 2
  const LINKS: nat := HEADS + 2 * DUPSIZE

  function TLink(k: nat): nat { HEADS + 2 * k }

  function HLink(k: nat): nat { HEADS + 2 * k + 1 }

  /** The record around a link. */
  function TEntry(a: nat): nat
    requires a >= HEADS
  {
    (a - HEADS) / 2
  }

  function HEntry(a: nat): nat
    requires a > HEADS
  {
    (a - HEADS - 1) / 2
  }

  // ----- what the cache means

  datatype Entry = Entry(h1: word, h2: word, h3: word, t: word)

  predicate Aged(e: Entry, now: int) {
    now - e.t >= EXPIRE
  }

  predicate Known(live: seq<Entry>, h1: word, h2: word, h3: word) {
    exists i :: 0 <= i < |live| && live[i].h1 == h1 && live[i].h2 == h2 && live[i].h3 == h3
  }

  /** The entries behind the aged ones at the front. */
  function DropAged(live: seq<Entry>, now: int): seq<Entry> {
    if live != [] && Aged(live[0], now) then DropAged(live[1..], now) else live
  }

  /** Each record is on the free list only, or in the bucket of its first hash and on the time list. */
  ghost predicate RecordOk(owner: seq<nat>, h1: seq<word>, k: nat)
    requires k < DUPSIZE && |owner| == LINKS && |h1| == DUPSIZE
  {
    || (owner[HLink(k)] == HOME && owner[TLink(k)] == TLink(k))
    || (owner[HLink(k)] == h1[k] % DUPHASH && owner[TLink(k)] == TIME)
  }

  ghost predicate CacheOk(rings: seq<seq<nat>>, owner: seq<nat>, h1: seq<word>) {
    && |rings| == HEADS && |owner| == LINKS && |h1| == DUPSIZE && Owned(HEADS, rings, owner)
    && (forall k :: 0 <= k < DUPSIZE ==> RecordOk(owner, h1, k))
    && |rings[HOME]| + |rings[TIME]| == DUPSIZE
  }

  lemma LinkOf(a: nat)
    requires HEADS <= a < LINKS
    ensures (a - HEADS) / 2 < DUPSIZE && (a == TLink((a - HEADS) / 2) || a == HLink((a - HEADS) / 2))
  {
  }

  lemma TimeMember(rings: seq<seq<nat>>, owner: seq<nat>, h1: seq<word>, i: nat)
    requires CacheOk(rings, owner, h1) && i < |rings[TIME]|
    ensures HEADS <= rings[TIME][i] && TEntry(rings[TIME][i]) < DUPSIZE
    ensures rings[TIME][i] == TLink(TEntry(rings[TIME][i]))
  {
    var a := rings[TIME][i];
    assert owner[a] == TIME;
    LinkOf(a);
    assert RecordOk(owner, h1, (a - HEADS) / 2);
  }

  lemma HashMember(rings: seq<seq<nat>>, owner: seq<nat>, h1: seq<word>, b: nat, i: nat)
    requires CacheOk(rings, owner, h1) && b <= HOME && i < |rings[b]|
    ensures HEADS < rings[b][i] && HEntry(rings[b][i]) < DUPSIZE && rings[b][i] == HLink(HEntry(rings[b][i]))
  {
    var a := rings[b][i];
    assert owner[a] == b;
    LinkOf(a);
    assert RecordOk(owner, h1, (a - HEADS) / 2);
  }

  function EntryOf(k: nat, h1: seq<word>, h2: seq<word>, h3: seq<word>, t: seq<word>): Entry
    requires k < |h1| && k < |h2| && k < |h3| && k < |t|
  {
    Entry(h1[k], h2[k], h3[k], t[k])
  }

  ghost predicate TimeLinks(ring: seq<nat>) {
    forall i :: 0 <= i < |ring| ==> HEADS <= ring[i] && TEntry(ring[i]) < DUPSIZE && ring[i] == TLink(TEntry(ring[i]))
  }

  ghost function LiveOf(ring: seq<nat>, h1: seq<word>, h2: seq<word>, h3: seq<word>, t: seq<word>): (live: seq<Entry>)
    requires TimeLinks(ring) && |h1| == |h2| == |h3| == |t| == DUPSIZE
    ensures |live| == |ring|
    ensures forall i :: 0 <= i < |ring| ==> live[i] == EntryOf(TEntry(ring[i]), h1, h2, h3, t)
  {
    seq(|ring|, i requires 0 <= i < |ring| => EntryOf(TEntry(ring[i]), h1, h2, h3, t))
  }

  lemma TimeMembers(rings: seq<seq<nat>>, owner: seq<nat>, h1: seq<word>)
    requires CacheOk(rings, owner, h1)
    ensures TimeLinks(rings[TIME])
  {
    forall i | 0 <= i < |rings[TIME]|
      ensures HEADS <= rings[TIME][i] && TEntry(rings[TIME][i]) < DUPSIZE
      ensures rings[TIME][i] == TLink(TEntry(rings[TIME][i]))
    {
      TimeMember(rings, owner, h1, i);
    }
  }

  /** The record around a hash link has these hashes. */
  ghost predicate Same(a: nat, h1: seq<word>, h2: seq<word>, h3: seq<word>, x1: word, x2: word, x3: word)
    requires |h1| == |h2| == |h3| == DUPSIZE
  {
    HEADS < a && HEntry(a) < DUPSIZE && h1[HEntry(a)] == x1 && h2[HEntry(a)] == x2 && h3[HEntry(a)] == x3
  }

  lemma SameIs(a: nat, k: nat, h1: seq<word>, h2: seq<word>, h3: seq<word>, x1: word, x2: word, x3: word)
    requires |h1| == |h2| == |h3| == DUPSIZE && HEADS < a && k == HEntry(a) < DUPSIZE
    ensures Same(a, h1, h2, h3, x1, x2, x3) <==> h1[k] == x1 && h2[k] == x2 && h3[k] == x3
  {
  }

  /** Searching the bucket is searching the live entries. */
  lemma BucketHasKnown(rings: seq<seq<nat>>, owner: seq<nat>, h1: seq<word>, h2: seq<word>, h3: seq<word>, t: seq<word>,
                       x1: word, x2: word, x3: word)
    requires CacheOk(rings, owner, h1) && TimeLinks(rings[TIME]) && |h2| == |h3| == |t| == DUPSIZE
    ensures Known(LiveOf(rings[TIME], h1, h2, h3, t), x1, x2, x3) <==>
            exists i :: 0 <= i < |rings[x1 % DUPHASH]| && Same(rings[x1 % DUPHASH][i], h1, h2, h3, x1, x2, x3)
  {
    var live, bucket := LiveOf(rings[TIME], h1, h2, h3, t), rings[x1 % DUPHASH];
    hide CacheOk, Same, LiveOf, TimeLinks;
    if i :| 0 <= i < |live| && live[i].h1 == x1 && live[i].h2 == x2 && live[i].h3 == x3 {
      var j := LiveInBucket(rings, owner, h1, h2, h3, t, x1, x2, x3, i);
    }
    if j :| 0 <= j < |bucket| && Same(bucket[j], h1, h2, h3, x1, x2, x3) {
      var i := BucketIsLive(rings, owner, h1, h2, h3, t, x1, x2, x3, j);
    }
  }

  lemma LiveInBucket(rings: seq<seq<nat>>, owner: seq<nat>, h1: seq<word>, h2: seq<word>, h3: seq<word>, t: seq<word>,
                     x1: word, x2: word, x3: word, i: nat) returns (j: nat)
    requires CacheOk(rings, owner, h1) && TimeLinks(rings[TIME]) && |h2| == |h3| == |t| == DUPSIZE
    requires i < |rings[TIME]|
    requires var e := LiveOf(rings[TIME], h1, h2, h3, t)[i]; e.h1 == x1 && e.h2 == x2 && e.h3 == x3
    ensures j < |rings[x1 % DUPHASH]| && Same(rings[x1 % DUPHASH][j], h1, h2, h3, x1, x2, x3)
  {
    var k, bucket := TEntry(rings[TIME][i]), rings[x1 % DUPHASH];
    InBucket(rings, owner, h1, x1, i);
    j :| 0 <= j < |bucket| && bucket[j] == HLink(k);
    InTimeList(rings, owner, h1, x1, j);
    hide CacheOk;
  }

  lemma BucketIsLive(rings: seq<seq<nat>>, owner: seq<nat>, h1: seq<word>, h2: seq<word>, h3: seq<word>, t: seq<word>,
                     x1: word, x2: word, x3: word, j: nat) returns (i: nat)
    requires CacheOk(rings, owner, h1) && TimeLinks(rings[TIME]) && |h2| == |h3| == |t| == DUPSIZE
    requires j < |rings[x1 % DUPHASH]| && Same(rings[x1 % DUPHASH][j], h1, h2, h3, x1, x2, x3)
    ensures i < |rings[TIME]|
    ensures var e := LiveOf(rings[TIME], h1, h2, h3, t)[i]; e.h1 == x1 && e.h2 == x2 && e.h3 == x3
  {
    var k := HEntry(rings[x1 % DUPHASH][j]);
    InTimeList(rings, owner, h1, x1, j);
    i :| 0 <= i < |rings[TIME]| && rings[TIME][i] == TLink(k);
    hide CacheOk;
  }

  lemma InBucket(rings: seq<seq<nat>>, owner: seq<nat>, h1: seq<word>, x1: word, i: nat)
    requires CacheOk(rings, owner, h1) && TimeLinks(rings[TIME]) && i < |rings[TIME]|
    requires h1[TEntry(rings[TIME][i])] == x1
    ensures HLink(TEntry(rings[TIME][i])) in rings[x1 % DUPHASH]
  {
    var k := TEntry(rings[TIME][i]);
    assert owner[TLink(k)] == TIME;
    assert RecordOk(owner, h1, k);
  }

  lemma InTimeList(rings: seq<seq<nat>>, owner: seq<nat>, h1: seq<word>, x1: word, i: nat)
    requires CacheOk(rings, owner, h1) && i < |rings[x1 % DUPHASH]|
    ensures var a := rings[x1 % DUPHASH][i];
            HEADS < a && HEntry(a) < DUPSIZE && TLink(HEntry(a)) in rings[TIME]
  {
    HashMember(rings, owner, h1, x1 % DUPHASH, i);
    assert owner[rings[x1 % DUPHASH][i]] == x1 % DUPHASH;
    assert RecordOk(owner, h1, HEntry(rings[x1 % DUPHASH][i]));
  }

  /** The record that a link belongs to tells which lists it is on. */
  lemma RecordOf(rings: seq<seq<nat>>, owner: seq<nat>, h1: seq<word>, k: nat)
    requires CacheOk(rings, owner, h1) && k < DUPSIZE
    ensures owner[HLink(k)] == HOME ==> owner[TLink(k)] == TLink(k) && TLink(k) !in rings[TIME]
    ensures owner[HLink(k)] != HOME ==> owner[HLink(k)] == h1[k] % DUPHASH && owner[TLink(k)] == TIME
  {
    assert RecordOk(owner, h1, k);
  }

  /** A free record becomes the newest live one. */
  lemma RecordedOk(rings: seq<seq<nat>>, owner: seq<nat>, h1: seq<word>, rings': seq<seq<nat>>, k: nat, x: word)
    requires CacheOk(rings, owner, h1) && k < DUPSIZE && owner[HLink(k)] == HOME
    requires Owned(HEADS, rings', owner[HLink(k) := x % DUPHASH][TLink(k) := TIME])
    requires |rings'[HOME]| + 1 == |rings[HOME]| && rings'[TIME] == rings[TIME] + [TLink(k)]
    ensures CacheOk(rings', owner[HLink(k) := x % DUPHASH][TLink(k) := TIME], h1[k := x])
  {
    var owner', h1' := owner[HLink(k) := x % DUPHASH][TLink(k) := TIME], h1[k := x];
    hide Owned;
    forall j | 0 <= j < DUPSIZE ensures RecordOk(owner', h1', j) {
      assert RecordOk(owner, h1, j);
    }
  }

  lemma LiveAppend(ring: seq<nat>, h1: seq<word>, h2: seq<word>, h3: seq<word>, t: seq<word>, k: nat, e: Entry)
    requires TimeLinks(ring) && |h1| == |h2| == |h3| == |t| == DUPSIZE
    requires k < DUPSIZE && TLink(k) !in ring
    ensures TimeLinks(ring + [TLink(k)])
    ensures LiveOf(ring + [TLink(k)], h1[k := e.h1], h2[k := e.h2], h3[k := e.h3], t[k := e.t])
            == LiveOf(ring, h1, h2, h3, t) + [e]
  {
    var ring' := ring + [TLink(k)];
    assert forall i :: 0 <= i < |ring| ==> ring'[i] == ring[i] && TEntry(ring[i]) != k;
    var live, live' := LiveOf(ring, h1, h2, h3, t),
                       LiveOf(ring', h1[k := e.h1], h2[k := e.h2], h3[k := e.h3], t[k := e.t]);
    assert forall i :: 0 <= i < |ring| ==> live'[i] == live[i];
  }

  lemma LiveTail(ring: seq<nat>, h1: seq<word>, h2: seq<word>, h3: seq<word>, t: seq<word>)
    requires ring != [] && TimeLinks(ring) && |h1| == |h2| == |h3| == |t| == DUPSIZE
    ensures TimeLinks(ring[1..]) && LiveOf(ring[1..], h1, h2, h3, t) == LiveOf(ring, h1, h2, h3, t)[1..]
  {
  }

  /** The oldest live record becomes free. */
  lemma ReleasedOk(rings: seq<seq<nat>>, owner: seq<nat>, h1: seq<word>, rings': seq<seq<nat>>, k: nat)
    requires CacheOk(rings, owner, h1) && k < DUPSIZE && owner[HLink(k)] != HOME
    requires Owned(HEADS, rings', owner[HLink(k) := HOME][TLink(k) := TLink(k)])
    requires |rings'[HOME]| == |rings[HOME]| + 1 && |rings'[TIME]| + 1 == |rings[TIME]|
    ensures CacheOk(rings', owner[HLink(k) := HOME][TLink(k) := TLink(k)], h1)
  {
    var owner' := owner[HLink(k) := HOME][TLink(k) := TLink(k)];
    hide Owned;
    forall j | 0 <= j < DUPSIZE ensures RecordOk(owner', h1, j) {
      assert RecordOk(owner, h1, j);
    }
  }

  /** Every record goes to the front of the free list. */
  method FreeAll(links: Links)
    requires links.Valid() && links.heads == HEADS && |links.owner| == LINKS
    requires links.rings == seq(HEADS, _ => []) && links.owner == seq(LINKS, a => a)
    modifies links, links.next, links.prev
    ensures links.Valid() && |links.owner| == LINKS
    ensures forall j :: 0 <= j < DUPSIZE ==> links.owner[TLink(j)] == TLink(j) && links.owner[HLink(j)] == HOME
    ensures |links.rings[HOME]| == DUPSIZE && links.rings[TIME] == []
  {
    hide Wf, Owned;
    var k := 0;
    while k < DUPSIZE
      invariant 0 <= k <= DUPSIZE && links.Valid() && |links.owner| == LINKS
      invariant forall j :: 0 <= j < DUPSIZE ==> links.owner[TLink(j)] == TLink(j)
      invariant forall j :: 0 <= j < DUPSIZE ==> links.owner[HLink(j)] == if j < k then HOME else HLink(j)
      invariant |links.rings[HOME]| == k && links.rings[TIME] == []
    {
      links.Init(HLink(k));
      links.Init(TLink(k));
      links.AddHead(HLink(k), HOME);
      k := k + 1;
    }
  }

  class DupCache {
    const links: Links
    const h1: array<word>
    const h2: array<word>
    const h3: array<word>
    const t: array<word>

    ghost predicate Valid()
      reads this, links, links.next, links.prev, h1
      ensures Valid() ==> links.Valid() && h1.Length == h2.Length == h3.Length == t.Length == DUPSIZE
      ensures Valid() ==> CacheOk(links.rings, links.owner, h1[..]) && TimeLinks(links.rings[TIME])
    {
      && links.Valid() && links.heads == HEADS
      && h1.Length == h2.Length == h3.Length == t.Length == DUPSIZE
      && h1 != h2 && h1 != h3 && h1 != t && h2 != h3 && h2 != t && h3 != t
      && {links.next, links.prev} !! {h1, h2, h3, t}
      && CacheOk(links.rings, links.owner, h1[..])
      && (TimeMembers(links.rings, links.owner, h1[..]); true)
    }

    /** The recorded tasks, oldest first. */
    ghost function Live(): (live: seq<Entry>)
      reads this, links, links.next, links.prev, h1, h2, h3, t
      requires Valid()
      ensures |live| == |links.rings[TIME]|
    {
      LiveOf(links.rings[TIME], h1[..], h2[..], h3[..], t[..])
    }

    /** All records free. */
    constructor ()
      ensures Valid() && Live() == []
      ensures fresh(links) && fresh(links.next) && fresh(links.prev) && fresh(h1) && fresh(h2) && fresh(h3) && fresh(t)
    {
      links := new Links(HEADS, LINKS);
      h1, h2 := new word[DUPSIZE](_ => 0), new word[DUPSIZE](_ => 0);
      h3, t := new word[DUPSIZE](_ => 0), new word[DUPSIZE](_ => 0);
      new;
      FreeAll(links);
      hide Wf, Owned;
      links.OwnedRings();
    }

    /** Records a task, if one of the 1000000 records is free. */
    method Add(x1: word, x2: word, x3: word, now: int) returns (ok: bool)
      requires Valid()
      modifies links, links.next, links.prev, h1, h2, h3, t
      ensures Valid()
      ensures ok == (|old(Live())| < 1000000)
      ensures Live() == if ok then old(Live()) + [Entry(x1, x2, x3, now % TWO32)] else old(Live())
    {
      hide Wf, Owned, RecordOk, RemoveAt, InsertAt;
      links.Neighbours(HOME, 0);
      var pos := links.next[HOME];
      if pos == HOME {
        links.HeadOnce(HOME);
        return false;
      }
      links.HeadOnce(HOME);
      HashMember(links.rings, links.owner, h1[..], HOME, 0);
      links.MemberOwner(HOME, 0);
      var k := HEntry(pos);
      ghost var rings, owner: seq<nat>, h1', h2', h3', t' := links.rings, links.owner, h1[..], h2[..], h3[..], t[..];
      var stamp: word := now % TWO32;
      RecordOf(rings, owner, h1', k);
      LiveAppend(rings[TIME], h1', h2', h3', t', k, Entry(x1, x2, x3, stamp));
      ghost var p := links.DelInit(HLink(k));
      h1[k], h2[k], h3[k] := x1, x2, x3;
      t[k] := stamp;
      links.AddHead(HLink(k), x1 % DUPHASH);
      links.AddTail(TLink(k), TIME);
      links.OwnedRings();
      assert links.owner == owner[HLink(k) := x1 % DUPHASH][TLink(k) := TIME];
      RecordedOk(rings, owner, h1', links.rings, k, x1);
      assert h1[..] == h1'[k := x1] && h2[..] == h2'[k := x2] && h3[..] == h3'[k := x3] && t[..] == t'[k := stamp];
      return true;
    }

    /** Whether a recorded task has these hashes. */
    method Check(x1: word, x2: word, x3: word) returns (found: bool)
      requires Valid()
      ensures found == Known(Live(), x1, x2, x3)
    {
      hide Wf, Owned, RecordOk, Known, LiveOf, TimeLinks, Same, CacheOk, HEntry, HLink, TEntry, TLink;
      BucketHasKnown(links.rings, links.owner, h1[..], h2[..], h3[..], t[..], x1, x2, x3);
      var head := x1 % DUPHASH;
      links.Neighbours(head, 0);
      var pos := links.next[head];
      ghost var i := 0;
      ghost var ring := links.rings[head];
      links.HeadOnce(head);
      while pos != head
        invariant i <= |ring| && pos == Circle(head, ring)[i + 1]
        invariant forall j :: 0 <= j < i ==> !Same(ring[j], h1[..], h2[..], h3[..], x1, x2, x3)
        decreases |ring| - i
      {
        HashMember(links.rings, links.owner, h1[..], head, i);
        var k := HEntry(pos);
        SameIs(pos, k, h1[..], h2[..], h3[..], x1, x2, x3);
        if x1 == h1[k] && x2 == h2[k] && x3 == h3[k] {
          return true;
        }
        links.Neighbours(head, i + 1);
        pos := links.next[pos];
        i := i + 1;
      }
      return false;
    }

    /** Frees the oldest live record. */
    method Release(k: nat)
      requires Valid() && links.rings[TIME] != [] && links.rings[TIME][0] == TLink(k) && k < DUPSIZE
      modifies links, links.next, links.prev
      ensures Valid() && Live() == old(Live())[1..]
      ensures links.rings[TIME] == old(links.rings)[TIME][1..]
    {
      hide Wf, Owned, RecordOk, InsertAt, LiveOf, TimeLinks, Circle;
      ghost var rings, owner: seq<nat> := links.rings, links.owner;
      LiveTail(rings[TIME], h1[..], h2[..], h3[..], t[..]);
      links.MemberOwner(TIME, 0);
      RecordOf(rings, owner, h1[..], k);
      ghost var p := links.DelInit(HLink(k));
      links.HeadOnce(TIME);
      p := links.DelInit(TLink(k));
      links.AddHead(HLink(k), HOME);
      links.OwnedRings();
      assert links.owner == owner[HLink(k) := HOME][TLink(k) := TLink(k)];
      ReleasedOk(rings, owner, h1[..], links.rings, k);
      assert links.rings[TIME] == rings[TIME][1..];
    }

    /** Frees the aged records at the front of the time list. */
    method ClearExpired(now: int)
      requires Valid()
      modifies links, links.next, links.prev
      ensures Valid()
      ensures Live() == DropAged(old(Live()), now)
    {
      hide Wf, Owned, RecordOk, InsertAt, CacheOk;
      links.Neighbours(TIME, 0);
      var pos := links.next[TIME];
      links.SecondNext(TIME);
      var l := links.next[pos];
      while pos != TIME
        invariant Valid() && pos == Circle(TIME, links.rings[TIME])[1]
        invariant pos < links.next.Length && l == links.next[pos]
        invariant DropAged(Live(), now) == DropAged(old(Live()), now)
        decreases |links.rings[TIME]|
      {
        TimeMember(links.rings, links.owner, h1[..], 0);
        links.Neighbours(TIME, 1);
        var k := TEntry(pos);
        assert Live()[0] == EntryOf(k, h1[..], h2[..], h3[..], t[..]);
        if now - t[k] >= EXPIRE {
          Release(k);
        } else {
          return;
        }
        pos := l;
        links.SecondNext(TIME);
        l := links.next[l];
      }
      links.HeadOnce(TIME);
    }
  }
}
