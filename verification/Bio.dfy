/**
 The buffer cache (bio.c) over the synchronous in-memory disk (memide.c).

 A block is a sequence of 32-bit words. The buffers form a doubly linked ring through a
 head that is not a buffer; pointers are indices into `buf`, the head being index NBUF.
 */
module Bio {
  import opened Params

  const WORDS: nat := BSIZE / 4
  type Block = b: seq<nat> | |b| == WORDS witness seq(WORDS, _ => 0)

  datatype Buf = Buf(valid: bool, dirty: bool, dev: nat, blockno: nat, refcnt: nat,
                     prev: nat, next: nat, data: Block)

  const HEAD: nat := NBUF

  // ---- The ring ------------------------------------------------------------------------

  /** Position k of the ring that lists `order` from the head: the head is at -1 and at |order|. */
  ghost function At(order: seq<nat>, k: int): (i: nat)
    ensures i <= NBUF
  {
    if 0 <= k < |order| && order[k] < NBUF then order[k] else HEAD
  }

  /** The entries at positions k and k + 1 point at each other. */
  ghost predicate LinkedAt(buf: seq<Buf>, order: seq<nat>, k: int)
    requires |buf| == NBUF + 1
  {
    && buf[At(order, k)].next == At(order, k + 1)
    && buf[At(order, k + 1)].prev == At(order, k)
  }

  /** next runs through `order` and back to the head, prev runs the other way. */
  ghost predicate Linked(buf: seq<Buf>, order: seq<nat>) {
    && |buf| == NBUF + 1
    && (forall i :: i in order ==> i < NBUF)
    && (forall k, l :: 0 <= k < l < |order| ==> order[k] != order[l])
    && (forall k :: -1 <= k < |order| ==> LinkedAt(buf, order, k))
  }

  /** The buffers below m, and no others, are on the ring. */
  ghost predicate Ring(buf: seq<Buf>, order: seq<nat>, m: nat) {
    && Linked(buf, order) && m <= NBUF
    && (forall i :: 0 <= i < m ==> i in order)
    && (forall i :: i in order ==> i < m)
  }

  ghost function Without(order: seq<nat>, k: nat): seq<nat>
    requires k < |order|
  {
    order[..k] + order[k + 1..]
  }

  /** b->next->prev = b->prev; b->prev->next = b->next */
  function Unlink(buf: seq<Buf>, b: nat): (r: seq<Buf>)
    requires |buf| == NBUF + 1 && b < NBUF && buf[b].next <= NBUF && buf[b].prev <= NBUF
    requires buf[b].next != b
  {
    var s := buf[buf[b].next := buf[buf[b].next].(prev := buf[b].prev)];
    s[s[b].prev := s[s[b].prev].(next := s[b].next)]
  }

  /** Insert b between the head and the first buffer. */
  function PushFront(buf: seq<Buf>, b: nat): (r: seq<Buf>)
    requires |buf| == NBUF + 1 && b < NBUF && buf[HEAD].next <= NBUF
  {
    var s := buf[b := buf[b].(next := buf[HEAD].next, prev := HEAD)];
    var t := s[s[HEAD].next := s[s[HEAD].next].(prev := b)];
    t[HEAD := t[HEAD].(next := b)]
  }

  /** Two buffer tables agree on everything but the links. */
  ghost predicate SameButLinks(buf: seq<Buf>, buf': seq<Buf>) {
    && |buf| == |buf'|
    && forall i :: 0 <= i < |buf| ==> buf'[i] == buf[i].(prev := buf'[i].prev, next := buf'[i].next)
  }

  lemma AtInjective(order: seq<nat>, j: int, l: int)
    requires forall i :: i in order ==> i < NBUF
    requires forall k, l :: 0 <= k < l < |order| ==> order[k] != order[l]
    requires -1 <= j < |order| && -1 <= l < |order| && j != l
    ensures At(order, j) != At(order, l)
  {
    if 0 <= j { assert order[j] in order; }
    if 0 <= l { assert order[l] in order; }
  }

  lemma UnlinkEffect(buf: seq<Buf>, b: nat, x: nat)
    requires |buf| == NBUF + 1 && b < NBUF && buf[b].next <= NBUF && buf[b].prev <= NBUF
    requires buf[b].next != b && x <= NBUF
    ensures Unlink(buf, b)[x] == buf[x].(next := if x == buf[b].prev then buf[b].next else buf[x].next,
                                         prev := if x == buf[b].next then buf[b].prev else buf[x].prev)
  {
  }

  lemma UnlinkKeepsRing(buf: seq<Buf>, order: seq<nat>, k: nat)
    requires Linked(buf, order) && k < |order|
    ensures order[k] < NBUF && buf[order[k]].next <= NBUF && buf[order[k]].prev <= NBUF
    ensures buf[order[k]].next != order[k]
    ensures Linked(Unlink(buf, order[k]), Without(order, k))
    ensures SameButLinks(buf, Unlink(buf, order[k]))
  {
    var b := order[k];
    assert order[k] in order && At(order, k) == b;
    assert LinkedAt(buf, order, k) && LinkedAt(buf, order, k - 1);
    if k + 1 < |order| { AtInjective(order, k, k + 1); }
    var r, o := Unlink(buf, b), Without(order, k);
    forall x: nat | x <= NBUF ensures r[x] == buf[x].(prev := r[x].prev, next := r[x].next) {
      UnlinkEffect(buf, b, x);
    }
    assert forall i :: i in o ==> i in order;
    forall j | -1 <= j < |o| ensures LinkedAt(r, o, j) {
      UnlinkNext(buf, order, k, j);
      UnlinkPrev(buf, order, k, j + 1);
    }
  }

  lemma UnlinkNext(buf: seq<Buf>, order: seq<nat>, k: nat, j: int)
    requires Linked(buf, order) && k < |order| && -1 <= j < |order| - 1
    requires var b := order[k]; b < NBUF && buf[b].next == At(order, k + 1) != b && buf[b].prev == At(order, k - 1)
    ensures Unlink(buf, order[k])[At(Without(order, k), j)].next == At(Without(order, k), j + 1)
  {
    var o := Without(order, k);
    var from := if j < k then j else j + 1;
    assert At(o, j) == At(order, from);
    assert At(o, j + 1) == At(order, if j + 1 < k then j + 1 else j + 2);
    UnlinkEffect(buf, order[k], At(order, from));
    assert LinkedAt(buf, order, from);
    if from != k - 1 { AtInjective(order, from, k - 1); }
  }

  lemma UnlinkPrev(buf: seq<Buf>, order: seq<nat>, k: nat, j: int)
    requires Linked(buf, order) && k < |order| && 0 <= j <= |order| - 1
    requires var b := order[k]; b < NBUF && buf[b].next == At(order, k + 1) != b && buf[b].prev == At(order, k - 1)
    ensures Unlink(buf, order[k])[At(Without(order, k), j)].prev == At(Without(order, k), j - 1)
  {
    var o := Without(order, k);
    var from := if j < k then j else j + 1;
    assert At(o, j) == At(order, from);
    assert At(o, j - 1) == At(order, if j - 1 < k then j - 1 else j);
    UnlinkEffect(buf, order[k], At(order, from));
    assert LinkedAt(buf, order, from - 1);
    var x, y := if from == |order| then -1 else from, if k + 1 == |order| then -1 else k + 1;
    assert At(order, x) == At(order, from) && At(order, y) == At(order, k + 1);
    if x != y { AtInjective(order, x, y); }
  }

  lemma PushFrontKeepsRing(buf: seq<Buf>, order: seq<nat>, b: nat)
    requires Linked(buf, order) && b < NBUF && b !in order
    ensures buf[HEAD].next <= NBUF && buf[HEAD].next != b
    ensures Linked(PushFront(buf, b), [b] + order)
    ensures SameButLinks(buf, PushFront(buf, b))
  {
    assert LinkedAt(buf, order, -1);
    if order != [] { assert order[0] in order; }
    var r, o := PushFront(buf, b), [b] + order;
    forall j | -1 <= j < |o| ensures LinkedAt(r, o, j) {
      if j >= 1 {
        assert At(o, j) == At(order, j - 1) && At(o, j + 1) == At(order, j);
        assert LinkedAt(buf, order, j - 1);
        assert order[j - 1] in order;
        if j == |order| { AtInjective(order, -1, 0); } else { AtInjective(order, j, 0); }
      } else if j == 0 {
        assert At(o, 1) == At(order, 0);
      }
    }
  }

  // ---- Contents ------------------------------------------------------------------------

  /** Buffer i caches block b of disk 1. */
  ghost predicate Holds(buf: seq<Buf>, i: nat, b: nat) {
    |buf| == NBUF + 1 && i < NBUF && buf[i].dev == 1 && buf[i].blockno == b
  }

  /** At most one buffer caches a given block. Device 0 marks a buffer never used. */
  ghost predicate Unique(buf: seq<Buf>)
    requires |buf| == NBUF + 1
  {
    forall i, j {:trigger Differ(buf, i, j)} :: 0 <= i < j < NBUF ==> Differ(buf, i, j)
  }

  ghost predicate Differ(buf: seq<Buf>, i: int, j: int)
    requires |buf| == NBUF + 1 && 0 <= i < NBUF && 0 <= j < NBUF
  {
    buf[i].dev != 0 ==> !(buf[i].dev == buf[j].dev && buf[i].blockno == buf[j].blockno)
  }

  /** The content of block b: the dirty buffers laid over the disk. */
  ghost function Overlay(pins: map<nat, Block>, disk: seq<Block>, b: nat): Block
    requires b < |disk|
  {
    if b in pins then pins[b] else disk[b]
  }

  ghost predicate Cached(buf: seq<Buf>, b: nat) {
    exists i: nat :: Holds(buf, i, b)
  }

  /**
   What the buffers stand for: `held` counts the holders of each block in use and `pins` gives
   the contents that only dirty buffers have. Every buffer but x agrees with the overlay.
   */
  ghost predicate Represents(buf: seq<Buf>, disk: seq<Block>, held: map<nat, nat>, pins: map<nat, Block>, x: int) {
    && |buf| == NBUF + 1
    && (forall i {:trigger BufAt(buf, i, disk, held, pins, x)} :: 0 <= i < NBUF ==> BufAt(buf, i, disk, held, pins, x))
    && (forall b {:trigger Cached(buf, b)} :: b in held || b in pins ==> Cached(buf, b))
  }

  ghost predicate BufAt(buf: seq<Buf>, i: int, disk: seq<Block>, held: map<nat, nat>, pins: map<nat, Block>, x: int)
    requires |buf| == NBUF + 1 && 0 <= i < NBUF
  {
    BufOk(buf[i], disk, held, pins, i == x)
  }

  ghost predicate BufOk(s: Buf, disk: seq<Block>, held: map<nat, nat>, pins: map<nat, Block>, exempt: bool) {
    && (s.dev == 0 ==> s.refcnt == 0 && !s.dirty)
    && (s.dev != 0 ==>
      && s.dev == 1 && s.blockno < |disk|
      && (s.dirty <==> s.blockno in pins)
      && s.refcnt == (if s.blockno in held then held[s.blockno] else 0)
      && (s.blockno in held ==> s.refcnt > 0)
      && (!exempt ==> s.valid && s.data == Overlay(pins, disk, s.blockno)))
  }

  /** One more holder of block b, and one fewer. */
  ghost function Up(held: map<nat, nat>, b: nat): map<nat, nat> {
    held[b := if b in held then held[b] + 1 else 1]
  }

  ghost function Down(held: map<nat, nat>, b: nat): map<nat, nat>
    requires b in held
  {
    if held[b] <= 1 then held - {b} else held[b := held[b] - 1]
  }

  ghost predicate Idle(buf: seq<Buf>, i: nat) {
    |buf| == NBUF + 1 && i < NBUF && buf[i].refcnt == 0 && !buf[i].dirty
  }

  /** `idle` lists the buffers that may be recycled. */
  ghost predicate IdleIs(buf: seq<Buf>, idle: set<nat>) {
    && (forall i :: i in idle ==> Idle(buf, i))
    && (forall i: nat :: Idle(buf, i) ==> i in idle)
  }

  // ---- Room for one more block ---------------------------------------------------------

  ghost function Images(buf: seq<Buf>, n: nat): (s: set<nat>)
    requires n <= NBUF < |buf|
  {
    set i | 0 <= i < n :: buf[i].blockno
  }

  lemma {:induction false} ImagesDistinct(buf: seq<Buf>, n: nat)
    requires |buf| == NBUF + 1 && n <= NBUF && Unique(buf)
    requires forall i :: 0 <= i < n ==> buf[i].dev == 1
    ensures |Images(buf, n)| == n
  {
    if n > 0 {
      ImagesDistinct(buf, n - 1);
      assert Images(buf, n) == Images(buf, n - 1) + {buf[n - 1].blockno};
      forall i | 0 <= i < n - 1 ensures buf[i].blockno != buf[n - 1].blockno {
        assert Differ(buf, i, n - 1);
      }
    }
  }

  lemma SubsetSize(a: set<nat>, b: set<nat>)
    requires a <= b
    ensures |a| <= |b|
  {
    if a != {} {
      var x :| x in a;
      SubsetSize(a - {x}, b - {x});
    }
  }

  /** The blocks named by the first n buffers other than x. */
  ghost function ImagesBut(buf: seq<Buf>, n: nat, x: nat): (s: set<nat>)
    requires n <= NBUF < |buf|
  {
    set i | 0 <= i < n && i != x :: buf[i].blockno
  }

  lemma {:induction false} ImagesButSize(buf: seq<Buf>, n: nat, x: nat)
    requires n <= NBUF < |buf|
    ensures |ImagesBut(buf, n, x)| <= if x < n then n - 1 else n
    decreases n
  {
    if n > 0 {
      ImagesButSize(buf, n - 1, x);
      assert ImagesBut(buf, n, x) == ImagesBut(buf, n - 1, x) + if n - 1 == x then {} else {buf[n - 1].blockno};
    } else {
      assert ImagesBut(buf, n, x) == {};
    }
  }

  /** Some buffer is idle and clean exactly while fewer than NBUF blocks are held or dirty. */
  lemma SpareExists(buf: seq<Buf>, disk: seq<Block>, held: map<nat, nat>, pins: map<nat, Block>)
    requires Represents(buf, disk, held, pins, -1) && Unique(buf)
    ensures (exists i: nat :: Idle(buf, i)) <==> |held.Keys + pins.Keys| < NBUF
  {
    if i: nat :| Idle(buf, i) {
      assert Idle(buf, i);
      IdleLeavesRoom(buf, disk, held, pins, i);
    } else {
      forall i | 0 <= i < NBUF ensures buf[i].dev == 1 && buf[i].blockno in held.Keys + pins.Keys {
        assert !Idle(buf, i) && BufAt(buf, i, disk, held, pins, -1);
      }
      ImagesDistinct(buf, NBUF);
      SubsetSize(Images(buf, NBUF), held.Keys + pins.Keys);
    }
  }

  lemma IdleLeavesRoom(buf: seq<Buf>, disk: seq<Block>, held: map<nat, nat>, pins: map<nat, Block>, i: nat)
    requires Represents(buf, disk, held, pins, -1) && Idle(buf, i)
    ensures |held.Keys + pins.Keys| < NBUF
  {
    forall b | b in held.Keys + pins.Keys ensures b in ImagesBut(buf, NBUF, i) {
      assert Cached(buf, b);
      var j: nat :| Holds(buf, j, b);
      assert BufAt(buf, j, disk, held, pins, -1);
    }
    SubsetSize(held.Keys + pins.Keys, ImagesBut(buf, NBUF, i));
    ImagesButSize(buf, NBUF, i);
  }

  /** A cache of unused buffers shows the disk. */
  lemma Unused(buf: seq<Buf>, disk: seq<Block>, idle: set<nat>)
    requires |buf| == NBUF + 1 && forall i: nat :: i < NBUF ==> Idle(buf, i) && buf[i].dev == 0
    requires idle == set i: nat | i < NBUF && Idle(buf, i)
    ensures Represents(buf, disk, map[], map[], -1) && Unique(buf) && IdleIs(buf, idle) && {0, 1} <= idle
  {
    forall i: nat | i < NBUF ensures BufAt(buf, i, disk, map[], map[], -1) { assert Idle(buf, i); }
    assert Idle(buf, 0) && Idle(buf, 1);
  }

  /** The ring lists the buffers from the one moved to the front last to the one moved first. */
  ghost predicate Stamped(order: seq<nat>, stamp: seq<nat>, clock: nat) {
    && |stamp| == NBUF
    && (forall i :: 0 <= i < NBUF ==> stamp[i] < clock)
    && (forall k, l :: 0 <= k < l < |order| ==> Later(stamp, order[k], order[l]))
  }

  ghost predicate Later(stamp: seq<nat>, i: nat, j: nat) {
    i < |stamp| && j < |stamp| && stamp[i] > stamp[j]
  }

  class BufCache {
    var buf: seq<Buf>
    var memdisk: seq<Block>
    // What the buffers stand for.
    ghost var held: map<nat, nat>
    ghost var pins: map<nat, Block>
    ghost var idle: set<nat>
    // Every content the disk has had, one entry a disk write.
    ghost var trace: seq<seq<Block>>
    // The ring's order, and for each buffer when it was last moved to the front.
    ghost var order: seq<nat>
    ghost var stamp: seq<nat>
    ghost var clock: nat

    ghost predicate RingOk()
      reads this
    {
      Ring(buf, order, NBUF) && Stamped(order, stamp, clock)
    }

    /** The cache's invariant, but for the data of buffer x, which its holder is changing. */
    ghost predicate ValidExcept(x: int)
      reads this
    {
      RingOk() && Unique(buf) && Represents(buf, memdisk, held, pins, x) && IdleIs(buf, idle)
    }

    ghost predicate Valid()
      reads this
    {
      ValidExcept(-1)
    }

    /** Some buffer can be had for block b: b is in use, or a buffer is idle. */
    ghost predicate Room(b: nat)
      reads this
    {
      b in held || b in pins || idle != {}
    }

    /** There is room for any block exactly while fewer than NBUF blocks are held or dirty. */
    lemma RoomWhileFew(b: nat)
      requires Valid()
      ensures idle != {} <==> |held.Keys + pins.Keys| < NBUF
      ensures b !in held && b !in pins ==> (Room(b) <==> |held.Keys + pins.Keys| < NBUF)
    {
      SpareExists(buf, memdisk, held, pins);
      if i: nat :| Idle(buf, i) { assert i in idle; }
    }

    /** A block that is neither held nor dirty and finds every buffer in use: bget's panic. */
    lemma NoRoomPanics(b: nat)
      requires Valid() && !Room(b)
      ensures !Cached(buf, b) && forall i: nat :: !Idle(buf, i)
    {
      forall i: nat ensures !Holds(buf, i, b) {
        if i < NBUF { assert BufAt(buf, i, memdisk, held, pins, -1) && !Idle(buf, i); }
      }
    }

    /** binit's step: one more buffer at the head of the ring. */
    method LinkFront(b: nat)
      requires b < NBUF && Ring(buf, order, b) && Stamped(order, stamp, clock)
      requires clock == b + 1
      modifies `buf, `order, `stamp, `clock
      ensures Ring(buf, order, b + 1) && Stamped(order, stamp, clock) && clock == b + 2
      ensures SameButLinks(old(buf), buf)
    {
      PushFrontKeepsRing(buf, order, b);
      StampFront(order, stamp, clock, b);
      buf := PushFront(buf, b);
      order, stamp, clock := [b] + order, stamp[b := clock], clock + 1;
    }

    /** binit: all buffers unused, linked into the ring. */
    constructor (image: seq<Block>)
      ensures Valid() && memdisk == image && trace == [] && held == map[] && pins == map[]
      ensures {0, 1} <= idle
    {
      var zero: Block := seq(WORDS, _ => 0);
      buf := seq(NBUF + 1, _ => Buf(false, false, 0, 0, 0, HEAD, HEAD, zero));
      memdisk, trace, order := image, [], [];
      stamp, clock := seq(NBUF, _ => 0), 1;
      held, pins, idle := map[], map[], {};
      new;
      var b := 0;
      while b < NBUF
        invariant b <= NBUF && Ring(buf, order, b) && Stamped(order, stamp, clock)
        invariant clock == b + 1
        invariant forall i: nat :: i < NBUF ==> Idle(buf, i) && buf[i].dev == 0
        invariant memdisk == image && trace == [] && held == map[] && pins == map[]
      {
        LinkFront(b);
        b := b + 1;
      }
      idle := set i: nat | i < NBUF && Idle(buf, i);
      Unused(buf, memdisk, idle);
    }

    /** The first scan of bget: from head.next along next. Returns HEAD when no buffer has the block. */
    method Lookup(b: nat) returns (p: nat)
      requires Ring(buf, order, NBUF)
      ensures p <= NBUF
      ensures p < NBUF ==> Holds(buf, p, b)
      ensures p == HEAD ==> !Cached(buf, b)
    {
      p := buf[HEAD].next;
      ghost var k := 0;
      assert LinkedAt(buf, order, -1);
      assert order != [] ==> order[0] in order;
      while p != HEAD
        invariant 0 <= k <= |order| && p == At(order, k)
        invariant k == |order| || order[k] < NBUF
        invariant forall j :: 0 <= j < k ==> !Holds(buf, order[j], b)
        decreases |order| - k
      {
        assert order[k] in order;
        if buf[p].dev == 1 && buf[p].blockno == b {
          return;
        }
        assert LinkedAt(buf, order, k);
        p, k := buf[p].next, k + 1;
        assert k < |order| ==> order[k] in order;
      }
      forall j: nat ensures !Holds(buf, j, b) {
        if j < NBUF { assert j in order; }
      }
    }

    /** The second scan of bget: from head.prev along prev. The victim was released longest ago. */
    method Victim() returns (p: nat)
      requires RingOk() && exists i: nat :: Idle(buf, i)
      ensures Idle(buf, p)
      ensures forall j: nat :: Idle(buf, j) && j != p ==> Later(stamp, j, p)
    {
      ghost var w: nat :| Idle(buf, w);
      assert w in order;
      ghost var wk :| 0 <= wk < |order| && order[wk] == w;
      assert order[|order| - 1] in order;
      p := buf[HEAD].prev;
      ghost var k := |order| - 1;
      assert LinkedAt(buf, order, |order| - 1);
      while p != HEAD
        invariant wk <= k < |order| && p == order[k] == At(order, k) && order[k] < NBUF
        invariant forall j :: k < j < |order| ==> !Idle(buf, order[j])
        decreases k
      {
        assert order[k] in order;
        if buf[p].refcnt == 0 && !buf[p].dirty {
          forall j: nat | Idle(buf, j) && j != p ensures Later(stamp, j, p) {
            assert j in order;
          }
          return;
        }
        assert LinkedAt(buf, order, k - 1);
        p, k := buf[p].prev, k - 1;
        assert order[k] in order;
      }
      assert false;
    }

    /** Find the buffer of block b, or recycle the idle clean buffer released longest ago. */
    method Bget(b: nat) returns (i: nat)
      requires Valid() && b < |memdisk| && Room(b)
      modifies `buf, `held, `idle
      ensures i < NBUF && ValidExcept(i) && idle == old(idle) - {i}
      ensures held == Up(old(held), b)
      ensures Holds(buf, i, b)
      ensures if Cached(old(buf), b)
              then Holds(old(buf), i, b) && buf == old(buf)[i := old(buf[i]).(refcnt := old(buf[i]).refcnt + 1)]
              else && Idle(old(buf), i)
                   && (forall j: nat :: Idle(old(buf), j) && j != i ==> Later(stamp, j, i))
                   && buf == old(buf)[i := old(buf[i]).(dev := 1, blockno := b, valid := false, dirty := false, refcnt := 1)]
    {
      i := Lookup(b);
      if i != HEAD {
        assert Cached(buf, b);
        held, idle := Up(held, b), idle - {i};
        buf := buf[i := buf[i].(refcnt := buf[i].refcnt + 1)];
        assert BufAt(old(buf), i, memdisk, old(held), pins, -1);
        AfterHit(old(buf), buf, memdisk, old(held), held, pins, i, b);
        Exempt(buf, memdisk, held, pins, i);
        RingSame(old(buf), buf, order);
      } else {
        i := Recycle(b);
      }
    }

    method Recycle(b: nat) returns (i: nat)
      requires Valid() && b < |memdisk| && Room(b) && !Cached(buf, b)
      modifies `buf, `held, `idle
      ensures i < NBUF && ValidExcept(i) && idle == old(idle) - {i}
      ensures held == Up(old(held), b)
      ensures Idle(old(buf), i) && forall j: nat :: Idle(old(buf), j) && j != i ==> Later(stamp, j, i)
      ensures buf == old(buf)[i := old(buf[i]).(dev := 1, blockno := b, valid := false, dirty := false, refcnt := 1)]
    {
      assert idle != {};
      ghost var w :| w in idle;
      assert Idle(buf, w);
      i := Victim();
      held, idle := Up(held, b), idle - {i};
      buf := buf[i := buf[i].(dev := 1, blockno := b, valid := false, dirty := false, refcnt := 1)];
      UniqueAfterRecycle(old(buf), buf, i, b);
      AfterRecycle(old(buf), buf, memdisk, old(held), held, pins, i, b);
      RingSame(old(buf), buf, order);
    }

    /** Return a held buffer whose data is the content of block b. */
    method Bread(b: nat) returns (i: nat)
      requires Valid() && b < |memdisk| && Room(b)
      modifies `buf, `held, `idle, `memdisk, `trace
      ensures Valid() && memdisk == old(memdisk) && trace == old(trace) && idle == old(idle) - {i}
      ensures Holds(buf, i, b) && buf[i].data == Overlay(pins, memdisk, b) && buf[i].valid && buf[i].refcnt > 0
      ensures held == Up(old(held), b)
      ensures i in old(idle) ==> b !in old(held) && b !in pins
      ensures forall j :: 0 <= j < NBUF && old(buf[j]).refcnt > 0 ==>
        buf[j] == old(buf[j]).(refcnt := old(buf[j]).refcnt + if j == i then 1 else 0)
    {
      i := Bget(b);
      assert BufAt(buf, i, memdisk, held, pins, i);
      assert b in pins ==> Cached(old(buf), b);
      assert Cached(old(buf), b) ==> buf[i].valid by {
        assert BufAt(old(buf), i, memdisk, old(held), pins, -1);
      }
      if !buf[i].valid {
        ghost var b1 := buf;
        Iderw(i);
        StillRepresents(b1, buf, memdisk, held, pins, i, -1);
      } else {
        assert BufAt(old(buf), i, memdisk, old(held), pins, -1);
        StillRepresents(buf, buf, memdisk, held, pins, i, -1);
      }
    }

    /** iderw: a dirty buffer goes to the disk, an invalid one is filled from it. */
    method Iderw(i: nat)
      requires i < NBUF && RingOk()
      requires buf[i].dirty || !buf[i].valid
      requires buf[i].dev == 1 && buf[i].blockno < |memdisk|
      modifies `buf, `memdisk, `trace
      ensures RingOk() && |memdisk| == old(|memdisk|)
      ensures var o := old(buf[i]);
        if o.dirty then
          && buf == old(buf)[i := o.(valid := true, dirty := false)]
          && memdisk == old(memdisk)[o.blockno := o.data]
          && trace == old(trace) + [memdisk]
        else
          && buf == old(buf)[i := o.(valid := true, data := memdisk[o.blockno])]
          && memdisk == old(memdisk) && trace == old(trace)
    {
      if buf[i].dirty {
        memdisk := memdisk[buf[i].blockno := buf[i].data];
        trace := trace + [memdisk];
        buf := buf[i := buf[i].(dirty := false)];
      } else {
        buf := buf[i := buf[i].(data := memdisk[buf[i].blockno])];
      }
      buf := buf[i := buf[i].(valid := true)];
      RingSame(old(buf), buf, order);
    }

    /** The holder overwrites the data of its buffer. */
    method Fill(i: nat, data: Block)
      requires Valid() && i < NBUF && buf[i].refcnt > 0
      modifies `buf
      ensures ValidExcept(i) && buf == old(buf)[i := old(buf[i]).(data := data)]
    {
      buf := buf[i := buf[i].(data := data)];
      RingSame(old(buf), buf, order);
      assert BufAt(old(buf), i, memdisk, held, pins, -1);
      Exempt(old(buf), memdisk, held, pins, i);
      StillRepresents(old(buf), buf, memdisk, held, pins, i, i);
    }

    /** Write a held buffer to the disk. */
    method Bwrite(i: nat)
      requires ValidExcept(i) && i < NBUF && buf[i].refcnt > 0 && buf[i].valid
      modifies `buf, `memdisk, `trace, `pins
      ensures Valid()
      ensures var o := old(buf[i]);
        && buf == old(buf)[i := o.(dirty := false)]
        && o.blockno < |old(memdisk)|
        && memdisk == old(memdisk)[o.blockno := o.data]
        && pins == old(pins) - {o.blockno}
        && trace == old(trace) + [memdisk]
    {
      assert BufAt(buf, i, memdisk, held, pins, i);
      pins := pins - {buf[i].blockno};
      buf := buf[i := buf[i].(dirty := true)];
      RingSame(old(buf), buf, order);
      Iderw(i);
      AfterWrite(old(buf), buf, old(memdisk), memdisk, held, old(pins), pins, i);
    }

    /** Mark a held buffer dirty, which pins it in the cache (the last step of log_write). */
    method Pin(i: nat)
      requires ValidExcept(i) && i < NBUF && buf[i].refcnt > 0 && buf[i].valid
      modifies `buf, `pins
      ensures Valid() && buf == old(buf)[i := old(buf[i]).(dirty := true)]
      ensures pins == old(pins)[buf[i].blockno := buf[i].data]
    {
      assert BufAt(buf, i, memdisk, held, pins, i);
      pins := pins[buf[i].blockno := buf[i].data];
      buf := buf[i := buf[i].(dirty := true)];
      RingSame(old(buf), buf, order);
      AfterWrite(old(buf), buf, memdisk, memdisk, held, old(pins), pins, i);
    }

    /** Release a buffer; the last holder moves it to the front of the ring. */
    method Brelse(i: nat)
      requires Valid() && i < NBUF && buf[i].refcnt > 0
      modifies `buf, `held, `idle, `order, `stamp, `clock
      ensures Valid()
      ensures SameButLinks(old(buf)[i := old(buf[i]).(refcnt := old(buf[i]).refcnt - 1)], buf)
      ensures var b := old(buf[i].blockno);
        && b in old(held) && held == Down(old(held), b)
        && idle == if b in held || b in pins then old(idle) else old(idle) + {i}
      ensures if buf[i].refcnt == 0
              then |order| > 0 && order[0] == i && stamp == old(stamp)[i := old(clock)] && clock == old(clock) + 1
              else order == old(order) && stamp == old(stamp) && clock == old(clock)
    {
      var b := buf[i].blockno;
      assert BufAt(buf, i, memdisk, held, pins, -1);
      held := Down(held, b);
      buf := buf[i := buf[i].(refcnt := buf[i].refcnt - 1)];
      idle := if Idle(buf, i) then idle + {i} else idle;
      AfterHit(old(buf), buf, memdisk, old(held), held, pins, i, b);
      RingSame(old(buf), buf, order);
      if buf[i].refcnt == 0 {
        ghost var b0 := buf;
        MoveToFront(i);
        LinksDontMatter(b0, buf, memdisk, held, pins);
      }
    }

    method MoveToFront(i: nat)
      requires Ring(buf, order, NBUF) && Stamped(order, stamp, clock) && i < NBUF
      modifies `buf, `order, `stamp, `clock
      ensures Ring(buf, order, NBUF) && Stamped(order, stamp, clock) && SameButLinks(old(buf), buf)
      ensures |order| > 0 && order[0] == i && stamp == old(stamp)[i := old(clock)] && clock == old(clock) + 1
    {
      assert i in order;
      ghost var k :| 0 <= k < |order| && order[k] == i;
      MoveFrontKeepsRing(buf, order, k);
      buf := Unlink(buf, i);
      buf := PushFront(buf, i);
      MoveFrontOrder(order, k);
      StampWithout(order, stamp, k);
      StampFront(Without(order, k), stamp, clock, i);
      order := [i] + Without(order, k);
      stamp, clock := stamp[i := clock], clock + 1;
    }
  }

  lemma MoveFrontKeepsRing(buf: seq<Buf>, order: seq<nat>, k: nat)
    requires Ring(buf, order, NBUF) && k < |order|
    ensures var i := order[k];
      && i < NBUF && buf[i].next <= NBUF && buf[i].prev <= NBUF && buf[i].next != i
      && Unlink(buf, i)[HEAD].next <= NBUF
      && var r := PushFront(Unlink(buf, i), i);
         Ring(r, [i] + Without(order, k), NBUF) && SameButLinks(buf, r)
  {
    UnlinkKeepsRing(buf, order, k);
    MoveFrontOrder(order, k);
    PushFrontKeepsRing(Unlink(buf, order[k]), Without(order, k), order[k]);
  }

  lemma CachedStays(buf: seq<Buf>, buf': seq<Buf>)
    requires |buf| == |buf'|
    requires forall i: nat :: i < NBUF < |buf| && buf[i].dev == 1 ==> buf'[i].dev == 1 && buf'[i].blockno == buf[i].blockno
    ensures forall b: nat :: Cached(buf, b) ==> Cached(buf', b)
  {
    forall b: nat | Cached(buf, b) ensures Cached(buf', b) {
      var i: nat :| Holds(buf, i, b);
      assert Holds(buf, i, b);
      assert Holds(buf', i, b);
    }
  }

  lemma LinksDontMatter(buf: seq<Buf>, buf': seq<Buf>, disk: seq<Block>, held: map<nat, nat>, pins: map<nat, Block>)
    requires SameButLinks(buf, buf') && Represents(buf, disk, held, pins, -1) && Unique(buf)
    ensures Represents(buf', disk, held, pins, -1) && Unique(buf')
    ensures forall i: nat :: Idle(buf', i) <==> Idle(buf, i)
  {
    forall i | 0 <= i < NBUF ensures BufAt(buf', i, disk, held, pins, -1) {
      assert BufAt(buf, i, disk, held, pins, -1);
    }
    CachedStays(buf, buf');
    forall i, j | 0 <= i < j < NBUF
      ensures Differ(buf', i, j)
    {
      assert Differ(buf, i, j);
    }
  }

  lemma Exempt(buf: seq<Buf>, disk: seq<Block>, held: map<nat, nat>, pins: map<nat, Block>, i: int)
    requires Represents(buf, disk, held, pins, -1)
    ensures Represents(buf, disk, held, pins, i)
  {
    forall j | 0 <= j < NBUF ensures BufAt(buf, j, disk, held, pins, i) {
      assert BufAt(buf, j, disk, held, pins, -1);
    }
  }

  lemma UniqueSame(buf: seq<Buf>, buf': seq<Buf>)
    requires |buf| == NBUF + 1 == |buf'| && Unique(buf)
    requires forall i :: 0 <= i < NBUF ==> buf'[i].dev == buf[i].dev && buf'[i].blockno == buf[i].blockno
    ensures Unique(buf')
  {
    forall j, k | 0 <= j < k < NBUF ensures Differ(buf', j, k) {
      assert Differ(buf, j, k);
    }
  }

  /** Changing the data of buffer i; x is the buffer that still owes the overlay its content. */
  lemma StillRepresents(buf: seq<Buf>, buf': seq<Buf>, disk: seq<Block>, held: map<nat, nat>, pins: map<nat, Block>, i: nat, x: int)
    requires Represents(buf, disk, held, pins, i) && Unique(buf) && i < NBUF && |buf'| == |buf| && (x == i || x == -1)
    requires forall j :: 0 <= j < NBUF && j != i ==> buf'[j] == buf[j]
    requires buf'[i].dev == buf[i].dev && buf'[i].blockno == buf[i].blockno
    requires BufOk(buf'[i], disk, held, pins, i == x)
    ensures Represents(buf', disk, held, pins, x) && Unique(buf')
  {
    forall j | 0 <= j < NBUF ensures BufAt(buf', j, disk, held, pins, x) {
      assert BufAt(buf, j, disk, held, pins, i);
    }
    forall b | b in held || b in pins ensures Cached(buf', b) {
      assert Cached(buf, b);
      CachedStays(buf, buf');
    }
    UniqueSame(buf, buf');
  }

  /** Counting a holder of the cached block b up or down. */
  lemma AfterHit(buf: seq<Buf>, buf': seq<Buf>, disk: seq<Block>, held: map<nat, nat>, held': map<nat, nat>,
                 pins: map<nat, Block>, i: nat, b: nat)
    requires Represents(buf, disk, held, pins, -1) && Unique(buf) && Holds(buf, i, b) && |buf'| == |buf|
    requires forall j :: 0 <= j < NBUF && j != i ==> buf'[j] == buf[j]
    requires buf'[i] == buf[i].(refcnt := buf'[i].refcnt)
    requires forall c :: c != b ==> (c in held' <==> c in held) && (c in held ==> held'[c] == held[c])
    requires buf'[i].refcnt == (if b in held' then held'[b] else 0) && (b in held' ==> held'[b] > 0)
    ensures Represents(buf', disk, held', pins, -1) && Unique(buf')
  {
    forall j | 0 <= j < NBUF ensures BufAt(buf', j, disk, held', pins, -1) {
      assert BufAt(buf, j, disk, held, pins, -1);
      if j != i { NotTwice(buf, i, j); }
    }
    CachedStays(buf, buf');
    forall c | c in held' ensures Cached(buf', c) {
      if c == b { assert Holds(buf', i, b); }
    }
    forall j, k | 0 <= j < k < NBUF
      ensures Differ(buf', j, k)
    {
      assert Differ(buf, j, k);
    }
  }

  lemma NotTwice(buf: seq<Buf>, i: nat, j: nat)
    requires |buf| == NBUF + 1 && Unique(buf) && i < NBUF && j < NBUF && i != j && buf[i].dev != 0
    ensures !(buf[i].dev == buf[j].dev && buf[i].blockno == buf[j].blockno)
  {
    assert Differ(buf, if i < j then i else j, if i < j then j else i);
  }

  /** Giving the idle clean buffer i to a block that no buffer held. */
  lemma AfterRecycle(buf: seq<Buf>, buf': seq<Buf>, disk: seq<Block>, held: map<nat, nat>, held': map<nat, nat>,
                     pins: map<nat, Block>, i: nat, b: nat)
    requires Represents(buf, disk, held, pins, -1) && Idle(buf, i) && !Cached(buf, b) && |buf'| == |buf| && b < |disk|
    requires forall j :: 0 <= j < NBUF && j != i ==> buf'[j] == buf[j]
    requires buf'[i] == buf[i].(dev := 1, blockno := b, valid := false, dirty := false, refcnt := 1)
    requires held' == held[b := 1] && b !in held
    ensures Represents(buf', disk, held', pins, i)
  {
    forall j | 0 <= j < NBUF ensures BufAt(buf', j, disk, held', pins, i) {
      assert BufAt(buf, j, disk, held, pins, -1);
      if j != i && buf[j].dev != 0 { assert !Holds(buf, j, b); }
    }
    forall c: nat | c in held' || c in pins ensures Cached(buf', c) {
      if c == b {
        assert Holds(buf', i, b);
      } else {
        assert Cached(buf, c);
        var j: nat :| Holds(buf, j, c);
        assert Holds(buf, j, c);
        assert BufAt(buf, j, disk, held, pins, -1);
        assert j != i;
        assert Holds(buf', j, c);
      }
    }
  }

  /** Writing out or pinning buffer i, which is then the only place its block's content changes. */
  lemma AfterWrite(buf: seq<Buf>, buf': seq<Buf>, disk: seq<Block>, disk': seq<Block>, held: map<nat, nat>,
                   pins: map<nat, Block>, pins': map<nat, Block>, i: nat)
    requires Represents(buf, disk, held, pins, i) && Unique(buf) && i < NBUF && |buf'| == |buf| && |disk'| == |disk|
    requires forall j :: 0 <= j < NBUF && j != i ==> buf'[j] == buf[j]
    requires buf[i].dev == 1 && buf[i].valid && buf'[i] == buf[i].(dirty := buf[i].blockno in pins')
    requires forall c: nat :: c < |disk| && c != buf[i].blockno ==> Overlay(pins', disk', c) == Overlay(pins, disk, c)
    requires forall c :: c != buf[i].blockno ==> (c in pins' <==> c in pins)
    requires BufOk(buf[i], disk, held, pins, true) && Overlay(pins', disk', buf[i].blockno) == buf[i].data
    ensures Represents(buf', disk', held, pins', -1) && Unique(buf')
  {
    var b := buf[i].blockno;
    forall j | 0 <= j < NBUF ensures BufAt(buf', j, disk', held, pins', -1) {
      assert BufAt(buf, j, disk, held, pins, i);
      if j != i { NotTwice(buf, i, j); }
    }
    CachedStays(buf, buf');
    forall c | c in pins' ensures Cached(buf', c) {
      if c == b { assert Holds(buf', i, b); }
    }
    forall j, k | 0 <= j < k < NBUF
      ensures Differ(buf', j, k)
    {
      assert Differ(buf, j, k);
    }
  }

  lemma StampWithout(order: seq<nat>, stamp: seq<nat>, k: nat)
    requires k < |order|
    requires forall k, l :: 0 <= k < l < |order| ==> Later(stamp, order[k], order[l])
    ensures forall m, l :: 0 <= m < l < |Without(order, k)| ==>
      Later(stamp, Without(order, k)[m], Without(order, k)[l])
  {
  }

  /** Moving i to the front with a new stamp keeps the ring sorted by stamp. */
  lemma StampFront(order: seq<nat>, stamp: seq<nat>, clock: nat, i: nat)
    requires i < |stamp| && i !in order
    requires forall j :: 0 <= j < |stamp| ==> stamp[j] < clock
    requires forall k, l :: 0 <= k < l < |order| ==> Later(stamp, order[k], order[l])
    requires forall j :: j in order ==> j < |stamp|
    ensures forall k, l :: 0 <= k < l < |[i] + order| ==> Later(stamp[i := clock], ([i] + order)[k], ([i] + order)[l])
  {
    forall k, l | 0 <= k < l < |[i] + order| ensures Later(stamp[i := clock], ([i] + order)[k], ([i] + order)[l]) {
      assert order[l - 1] in order;
      if k > 0 { assert order[k - 1] in order && Later(stamp, order[k - 1], order[l - 1]); }
    }
  }

  lemma UniqueAfterRecycle(buf: seq<Buf>, buf': seq<Buf>, i: nat, b: nat)
    requires |buf| == NBUF + 1 == |buf'| && i < NBUF && Unique(buf)
    requires !Cached(buf, b)
    requires forall j :: 0 <= j < NBUF && j != i ==> buf'[j] == buf[j]
    requires buf'[i].dev == 1 && buf'[i].blockno == b
    ensures Unique(buf')
  {
    forall j, k | 0 <= j < k < NBUF
      ensures Differ(buf', j, k)
    {
      if j == i { assert !Holds(buf, k, b); }
      else if k == i { assert !Holds(buf, j, b); }
      else { assert Differ(buf, j, k); }
    }
  }

  lemma RingSame(buf: seq<Buf>, buf': seq<Buf>, order: seq<nat>)
    requires Ring(buf, order, NBUF) && |buf'| == |buf|
    requires forall i :: 0 <= i <= NBUF ==> buf'[i].next == buf[i].next && buf'[i].prev == buf[i].prev
    ensures Ring(buf', order, NBUF)
  {
    forall k | -1 <= k < |order| ensures LinkedAt(buf', order, k) {
      assert LinkedAt(buf, order, k);
    }
  }

  lemma MoveFrontOrder(order: seq<nat>, k: nat)
    requires k < |order|
    requires forall k, l :: 0 <= k < l < |order| ==> order[k] != order[l]
    ensures forall i :: i in [order[k]] + Without(order, k) <==> i in order
    ensures order[k] !in Without(order, k)
  {
    forall i | i in order ensures i in [order[k]] + Without(order, k) {
      var l :| 0 <= l < |order| && order[l] == i;
      if l < k {
        assert Without(order, k)[l] == i;
      } else if l > k {
        assert Without(order, k)[l - 1] == i;
      }
    }
  }
}
