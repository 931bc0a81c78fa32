/**
 The Kernighan-Ritchie storage allocator (umalloc.c). Addresses count 8-byte units; a header takes
 one unit and its size counts itself. The free list is circular, ordered by address, and starts
 at the static header `base`, which lies below everything sbrk hands out.
 */
module Umalloc {
  datatype Option<T> = None | Some(value: T)

  /** A block: the address of its header and its size in units. */
  datatype Blk = Blk(a: nat, n: nat)

  // ---- Lists of blocks -----------------------------------------------------------------

  ghost function Nxt(bs: seq<Blk>, i: nat): nat
    requires i < |bs|
  {
    if i + 1 < |bs| then bs[i + 1].a else bs[0].a
  }

  /** Consecutive blocks do not touch: otherwise they would have been joined. */
  ghost predicate Gap(bs: seq<Blk>, i: int)
    requires 0 <= i < |bs| - 1
  {
    bs[i].a + bs[i].n < bs[i + 1].a
  }

  ghost predicate Sorted(bs: seq<Blk>) {
    && (forall i {:trigger Gap(bs, i)} :: 0 <= i < |bs| - 1 ==> Gap(bs, i))
    && (forall i :: 1 <= i < |bs| ==> bs[i].n > 0)
  }

  ghost predicate In(b: Blk, u: nat) {
    b.a <= u < b.a + b.n
  }

  ghost predicate Covered(bs: seq<Blk>, u: nat) {
    exists i :: 0 <= i < |bs| && In(bs[i], u)
  }

  /** Two blocks have no unit in common. */
  ghost predicate Apart(b: Blk, c: Blk) {
    b.a + b.n <= c.a || c.a + c.n <= b.a
  }

  lemma {:induction false} SortedPair(bs: seq<Blk>, i: nat, j: nat)
    requires Sorted(bs) && i < j < |bs|
    ensures bs[i].a + bs[i].n < bs[j].a
    decreases j - i
  {
    assert Gap(bs, j - 1);
    if i < j - 1 { SortedPair(bs, i, j - 1); }
  }

  // ---- What free does to the list ------------------------------------------------------

  /** Where b belongs: after position t, before t + 1. */
  ghost predicate Place(bs: seq<Blk>, t: nat, b: Blk) {
    && t < |bs| && b.n > 0 && bs[t].a < b.a
    && (t + 1 < |bs| ==> b.a < bs[t + 1].a)
    && (forall i :: 0 <= i < |bs| ==> Apart(bs[i], b))
  }

  /** b inserted after position t, joined with the neighbours it touches. */
  ghost function Insert(bs: seq<Blk>, t: nat, b: Blk): seq<Blk>
    requires t < |bs|
  {
    var up := t + 1 < |bs| && b.a + b.n == bs[t + 1].a;
    var b1 := if up then Blk(b.a, b.n + bs[t + 1].n) else b;
    var rest := bs[if up then t + 2 else t + 1..];
    if bs[t].a + bs[t].n == b.a then bs[..t] + [Blk(bs[t].a, bs[t].n + b1.n)] + rest
    else bs[..t + 1] + [b1] + rest
  }

  ghost predicate Up(bs: seq<Blk>, t: nat, b: Blk)
    requires t < |bs|
  {
    t + 1 < |bs| && b.a + b.n == bs[t + 1].a
  }

  ghost predicate Down(bs: seq<Blk>, t: nat, b: Blk)
    requires t < |bs|
  {
    bs[t].a + bs[t].n == b.a
  }

  /** The block that b becomes. */
  ghost function Joined(bs: seq<Blk>, t: nat, b: Blk): Blk
    requires t < |bs|
  {
    Blk(if Down(bs, t, b) then bs[t].a else b.a,
        (if Down(bs, t, b) then bs[t].n else 0) + b.n + (if Up(bs, t, b) then bs[t + 1].n else 0))
  }

  /** Where entry i of the list with b inserted was before; nowhere for the joined block itself. */
  ghost function Was(bs: seq<Blk>, t: nat, b: Blk, i: nat): int
    requires t < |bs|
  {
    var at := if Down(bs, t, b) then t else t + 1;
    if i <= at then i else i + (if Up(bs, t, b) then 1 else 0) - (if Down(bs, t, b) then 0 else 1)
  }

  lemma InsertAt(bs: seq<Blk>, t: nat, b: Blk, i: nat)
    requires t < |bs| && i < |Insert(bs, t, b)|
    ensures |Insert(bs, t, b)| == |bs| + 1 - (if Up(bs, t, b) then 1 else 0) - (if Down(bs, t, b) then 1 else 0)
    ensures if i == if Down(bs, t, b) then t else t + 1 then Insert(bs, t, b)[i] == Joined(bs, t, b)
            else 0 <= Was(bs, t, b, i) < |bs| && Insert(bs, t, b)[i] == bs[Was(bs, t, b, i)]
  {
  }

  lemma InsertSorted(bs: seq<Blk>, t: nat, b: Blk)
    requires Sorted(bs) && Place(bs, t, b)
    ensures Sorted(Insert(bs, t, b))
    ensures Insert(bs, t, b)[0].a == bs[0].a
    ensures bs[t].n == 0 ==> Insert(bs, t, b)[t] == bs[t]
  {
    var r := Insert(bs, t, b);
    InsertAt(bs, t, b, 0);
    InsertAt(bs, t, b, t);
    forall i | 0 <= i < |r| - 1 ensures Gap(r, i) {
      if i < if Down(bs, t, b) then t else t + 1 { GapBefore(bs, t, b, i); } else { GapAfter(bs, t, b, i); }
    }
  }

  lemma GapBefore(bs: seq<Blk>, t: nat, b: Blk, i: nat)
    requires Sorted(bs) && Place(bs, t, b) && i < (if Down(bs, t, b) then t else t + 1) && i + 1 < |Insert(bs, t, b)|
    ensures Gap(Insert(bs, t, b), i)
  {
    InsertAt(bs, t, b, i);
    InsertAt(bs, t, b, i + 1);
    assert Apart(bs[t], b);
    if i < t { assert Gap(bs, i); }
  }

  lemma GapAfter(bs: seq<Blk>, t: nat, b: Blk, i: nat)
    requires Sorted(bs) && Place(bs, t, b) && i >= (if Down(bs, t, b) then t else t + 1) && i + 1 < |Insert(bs, t, b)|
    ensures Gap(Insert(bs, t, b), i)
  {
    InsertAt(bs, t, b, i);
    InsertAt(bs, t, b, i + 1);
    if t + 1 < |bs| { assert Apart(bs[t + 1], b); }
    assert Apart(bs[t], b);
    var k := Was(bs, t, b, i + 1);
    if k > t + 1 || Up(bs, t, b) { assert Gap(bs, k - 1); }
  }

  /** The free units are exactly the old ones and the freed block's. */
  lemma InsertCovers(bs: seq<Blk>, t: nat, b: Blk, u: nat)
    requires Sorted(bs) && Place(bs, t, b)
    ensures Covered(Insert(bs, t, b), u) <==> Covered(bs, u) || In(b, u)
  {
    if Covered(bs, u) {
      var i :| 0 <= i < |bs| && In(bs[i], u);
      InsertKeeps(bs, t, b, i, u);
    }
    if In(b, u) { InsertKeeps(bs, t, b, t, u); }
    if Covered(Insert(bs, t, b), u) { InsertAddsOnly(bs, t, b, u); }
  }

  lemma InsertKeeps(bs: seq<Blk>, t: nat, b: Blk, i: nat, u: nat)
    requires Place(bs, t, b) && i < |bs| && (In(bs[i], u) || In(b, u))
    ensures Covered(Insert(bs, t, b), u)
  {
    var r := Insert(bs, t, b);
    var up := t + 1 < |bs| && b.a + b.n == bs[t + 1].a;
    var down := bs[t].a + bs[t].n == b.a;
    var at := if down then t else t + 1;
    if In(b, u) {
      assert In(r[at], u);
    } else if i < t || (i == t && !down) {
      assert In(r[i], u);
    } else if i == t || (i == t + 1 && up) {
      assert In(r[at], u);
    } else {
      var j := i - (if up then 1 else 0) + (if down then 0 else 1);
      assert r[j] == bs[i] && In(r[j], u);
    }
  }

  lemma InsertAddsOnly(bs: seq<Blk>, t: nat, b: Blk, u: nat)
    requires Place(bs, t, b) && Covered(Insert(bs, t, b), u)
    ensures Covered(bs, u) || In(b, u)
  {
    var r := Insert(bs, t, b);
    var up := t + 1 < |bs| && b.a + b.n == bs[t + 1].a;
    var down := bs[t].a + bs[t].n == b.a;
    var at := if down then t else t + 1;
    var i :| 0 <= i < |r| && In(r[i], u);
    if i < at {
      assert In(bs[i], u);
    } else if i > at {
      var j := i + (if up then 1 else 0) - (if down then 0 else 1);
      assert r[i] == bs[j] && In(bs[j], u);
    } else if !In(b, u) {
      assert (down && In(bs[t], u)) || (up && In(bs[t + 1], u));
    }
  }

  // ---- Links in memory -----------------------------------------------------------------

  /** Header i of the list has its size in memory and points at the next, the last at the first. */
  ghost predicate LinkAt(ptr: map<nat, nat>, size: map<nat, nat>, bs: seq<Blk>, i: int)
    requires 0 <= i < |bs|
  {
    && bs[i].a in ptr && bs[i].a in size
    && ptr[bs[i].a] == Nxt(bs, i) && size[bs[i].a] == bs[i].n
  }

  ghost predicate Links(ptr: map<nat, nat>, size: map<nat, nat>, bs: seq<Blk>) {
    forall i {:trigger LinkAt(ptr, size, bs, i)} :: 0 <= i < |bs| ==> LinkAt(ptr, size, bs, i)
  }

  /** The two if statements of free, as the maps they leave. */
  function JoinUp(ptr: map<nat, nat>, size: map<nat, nat>, p: nat, bp: nat): (map<nat, nat>, map<nat, nat>)
    requires p in ptr && bp in size
  {
    var next := ptr[p];
    if bp + size[bp] == next && next in size && next in ptr then
      (ptr[bp := ptr[next]], size[bp := size[bp] + size[next]])
    else (ptr[bp := next], size)
  }

  function JoinDown(ptr: map<nat, nat>, size: map<nat, nat>, p: nat, bp: nat): (map<nat, nat>, map<nat, nat>)
    requires p in size && bp in size && bp in ptr
  {
    if p + size[p] == bp then (ptr[p := ptr[bp]], size[p := size[p] + size[bp]])
    else (ptr[p := bp], size)
  }

  lemma FreeLinks(ptr: map<nat, nat>, size: map<nat, nat>, bs: seq<Blk>, t: nat, b: Blk)
    requires Sorted(bs) && Links(ptr, size, bs) && Place(bs, t, b) && b.a in size && size[b.a] == b.n && bs[0].n == 0
    ensures bs[t].a in ptr && bs[t].a in size
    ensures var (p1, s1) := JoinUp(ptr, size, bs[t].a, b.a);
      bs[t].a in s1 && b.a in s1 && b.a in p1
      && var (p2, s2) := JoinDown(p1, s1, bs[t].a, b.a);
         Links(p2, s2, Insert(bs, t, b))
  {
    JoinMaps(ptr, size, bs, t, b);
    var (p1, s1) := JoinUp(ptr, size, bs[t].a, b.a);
    var (p2, s2) := JoinDown(p1, s1, bs[t].a, b.a);
    forall i | 0 <= i < |Insert(bs, t, b)| ensures LinkAt(p2, s2, Insert(bs, t, b), i) {
      FreeLink(ptr, size, p2, s2, bs, t, b, i);
    }
  }

  /** The joins change only the headers of the block before and of b, and leave the joined block linked onward. */
  ghost predicate Rejoined(ptr: map<nat, nat>, size: map<nat, nat>, ptr': map<nat, nat>, size': map<nat, nat>, bs: seq<Blk>, t: nat, b: Blk)
    requires t < |bs|
  {
    var p, c := bs[t].a, Joined(bs, t, b);
    && (forall h :: h in ptr && h != p && h != b.a ==> h in ptr' && ptr'[h] == ptr[h])
    && (forall h :: h in size && h != p && h != b.a ==> h in size' && size'[h] == size[h])
    && c.a in ptr' && c.a in size' && size'[c.a] == c.n
    && ptr'[c.a] == Nxt(bs, if Up(bs, t, b) then t + 1 else t)
    && (!Down(bs, t, b) ==> p in ptr' && p in size' && ptr'[p] == b.a && size'[p] == bs[t].n)
  }

  lemma JoinMaps(ptr: map<nat, nat>, size: map<nat, nat>, bs: seq<Blk>, t: nat, b: Blk)
    requires Sorted(bs) && Links(ptr, size, bs) && Place(bs, t, b) && b.a in size && size[b.a] == b.n && bs[0].n == 0
    ensures bs[t].a in ptr && bs[t].a in size
    ensures var (p1, s1) := JoinUp(ptr, size, bs[t].a, b.a);
      bs[t].a in s1 && b.a in s1 && b.a in p1
      && var (p2, s2) := JoinDown(p1, s1, bs[t].a, b.a);
         Rejoined(ptr, size, p2, s2, bs, t, b)
  {
    assert LinkAt(ptr, size, bs, t) && Apart(bs[t], b);
    if t + 1 < |bs| { assert LinkAt(ptr, size, bs, t + 1) && Apart(bs[t + 1], b); }
    SortedBase(bs, t);
  }

  lemma FreeLink(ptr: map<nat, nat>, size: map<nat, nat>, ptr': map<nat, nat>, size': map<nat, nat>, bs: seq<Blk>, t: nat, b: Blk, i: nat)
    requires Sorted(bs) && Links(ptr, size, bs) && Place(bs, t, b) && Rejoined(ptr, size, ptr', size', bs, t, b)
    requires bs[0].n == 0 && i < |Insert(bs, t, b)|
    ensures LinkAt(ptr', size', Insert(bs, t, b), i)
  {
    var at := if Down(bs, t, b) then t else t + 1;
    if i < at {
      LinkBefore(ptr, size, ptr', size', bs, t, b, i);
    } else if i == at {
      LinkJoined(ptr, size, ptr', size', bs, t, b, i);
    } else {
      LinkAfter(ptr, size, ptr', size', bs, t, b, i);
    }
  }

  lemma LinkBefore(ptr: map<nat, nat>, size: map<nat, nat>, ptr': map<nat, nat>, size': map<nat, nat>, bs: seq<Blk>, t: nat, b: Blk, i: nat)
    requires Sorted(bs) && Links(ptr, size, bs) && Place(bs, t, b) && Rejoined(ptr, size, ptr', size', bs, t, b)
    requires bs[0].n == 0 && i < |Insert(bs, t, b)| && i < (if Down(bs, t, b) then t else t + 1)
    ensures LinkAt(ptr', size', Insert(bs, t, b), i)
  {
    InsertAt(bs, t, b, i);
    InsertAt(bs, t, b, i + 1);
    assert LinkAt(ptr, size, bs, i) && Apart(bs[t], b);
    if i < t { SortedPair(bs, i, t); }
  }

  lemma LinkJoined(ptr: map<nat, nat>, size: map<nat, nat>, ptr': map<nat, nat>, size': map<nat, nat>, bs: seq<Blk>, t: nat, b: Blk, i: nat)
    requires Sorted(bs) && Links(ptr, size, bs) && Place(bs, t, b) && Rejoined(ptr, size, ptr', size', bs, t, b)
    requires bs[0].n == 0 && i < |Insert(bs, t, b)| && i == (if Down(bs, t, b) then t else t + 1)
    ensures LinkAt(ptr', size', Insert(bs, t, b), i)
  {
    InsertAt(bs, t, b, i);
    InsertAt(bs, t, b, 0);
    if i + 1 < |Insert(bs, t, b)| { InsertAt(bs, t, b, i + 1); }
    SortedBase(bs, t);
  }

  lemma LinkAfter(ptr: map<nat, nat>, size: map<nat, nat>, ptr': map<nat, nat>, size': map<nat, nat>, bs: seq<Blk>, t: nat, b: Blk, i: nat)
    requires Sorted(bs) && Links(ptr, size, bs) && Place(bs, t, b) && Rejoined(ptr, size, ptr', size', bs, t, b)
    requires bs[0].n == 0 && i < |Insert(bs, t, b)| && i > (if Down(bs, t, b) then t else t + 1)
    ensures LinkAt(ptr', size', Insert(bs, t, b), i)
  {
    var r, j := Insert(bs, t, b), Was(bs, t, b, i);
    InsertAt(bs, t, b, i);
    assert LinkAt(ptr, size, bs, j) && Apart(bs[j], b);
    SortedPair(bs, t, j);
    NextAfter(bs, t, b, i);
  }

  /** What follows a block beyond the inserted one is what followed it before. */
  lemma NextAfter(bs: seq<Blk>, t: nat, b: Blk, i: nat)
    requires Sorted(bs) && Place(bs, t, b) && i < |Insert(bs, t, b)| && i > (if Down(bs, t, b) then t else t + 1)
    ensures 0 <= Was(bs, t, b, i) < |bs| && Nxt(Insert(bs, t, b), i) == Nxt(bs, Was(bs, t, b, i))
  {
    InsertAt(bs, t, b, i);
    if i + 1 < |Insert(bs, t, b)| {
      InsertAt(bs, t, b, i + 1);
    } else {
      InsertAt(bs, t, b, 0);
      SortedBase(bs, t);
    }
  }

  lemma SortedBase(bs: seq<Blk>, k: nat)
    requires Sorted(bs) && k < |bs|
    ensures bs[0].a <= bs[k].a && (k > 0 ==> bs[0].a < bs[k].a)
  {
    if k > 0 { SortedPair(bs, 0, k); }
  }

  // ---- Allocated blocks ----------------------------------------------------------------

  ghost predicate LiveAt(bs: seq<Blk>, live: map<nat, nat>, size: map<nat, nat>, base: nat, brk: nat, h: nat)
    requires h in live
  {
    && h in size && size[h] == live[h] > 0 && base < h && h + live[h] <= brk
    && (forall i :: 0 <= i < |bs| ==> Apart(bs[i], Blk(h, live[h])))
  }

  ghost predicate Separate(live: map<nat, nat>, h: nat, k: nat)
    requires h in live && k in live
  {
    h != k ==> Apart(Blk(h, live[h]), Blk(k, live[k]))
  }

  /** Allocated blocks are apart from each other and from the free ones, their sizes still in their headers. */
  ghost predicate LiveOk(bs: seq<Blk>, live: map<nat, nat>, size: map<nat, nat>, base: nat, brk: nat) {
    && (forall h {:trigger LiveAt(bs, live, size, base, brk, h)} :: h in live ==> LiveAt(bs, live, size, base, brk, h))
    && (forall h, k {:trigger Separate(live, h, k)} :: h in live && k in live ==> Separate(live, h, k))
  }

  ghost predicate InLive(live: map<nat, nat>, u: nat) {
    exists h :: h in live && In(Blk(h, live[h]), u)
  }

  /** Conservation: a unit came from sbrk exactly if it is free or allocated. */
  ghost predicate Conserved(bs: seq<Blk>, live: map<nat, nat>, heap: set<nat>) {
    forall u {:trigger u in heap} {:trigger Covered(bs, u)} :: u in heap <==> Covered(bs, u) || InLive(live, u)
  }

  /** Free: the block moves from the allocated to the free. */
  lemma FreedLive(bs: seq<Blk>, live: map<nat, nat>, size: map<nat, nat>, size': map<nat, nat>, heap: set<nat>,
                  base: nat, brk: nat, t: nat, b: Blk)
    requires LiveOk(bs, live, size, base, brk) && Conserved(bs, live, heap) && Sorted(bs) && Place(bs, t, b)
    requires b.a in live && live[b.a] == b.n
    requires forall h :: h in live && h != b.a ==> h in size && h in size' && size'[h] == size[h]
    ensures LiveOk(Insert(bs, t, b), live - {b.a}, size', base, brk)
    ensures Conserved(Insert(bs, t, b), live - {b.a}, heap)
  {
    var r, live' := Insert(bs, t, b), live - {b.a};
    forall h | h in live' ensures LiveAt(r, live', size', base, brk, h) {
      assert LiveAt(bs, live, size, base, brk, h) && Separate(live, h, b.a);
      forall i | 0 <= i < |r| ensures Apart(r[i], Blk(h, live'[h])) {
        InsertApart(bs, t, b, Blk(h, live[h]), i);
      }
    }
    forall h, k | h in live' && k in live' ensures Separate(live', h, k) {
      assert Separate(live, h, k);
    }
    forall u ensures u in heap <==> Covered(r, u) || InLive(live', u) {
      InsertCovers(bs, t, b, u);
      if InLive(live, u) {
        var h :| h in live && In(Blk(h, live[h]), u);
        assert h != b.a ==> h in live';
      }
      if InLive(live', u) {
        var h :| h in live' && In(Blk(h, live'[h]), u);
        assert h in live && In(Blk(h, live[h]), u);
      }
      if In(b, u) { assert In(Blk(b.a, live[b.a]), u); }
    }
  }

  lemma InsertApart(bs: seq<Blk>, t: nat, b: Blk, c: Blk, i: nat)
    requires Place(bs, t, b) && i < |Insert(bs, t, b)| && c.n > 0
    requires Apart(b, c) && forall j :: 0 <= j < |bs| ==> Apart(bs[j], c)
    ensures Apart(Insert(bs, t, b)[i], c)
  {
    InsertAt(bs, t, b, i);
  }

  // ---- Sizes ---------------------------------------------------------------------------

  /** nunits of malloc, in 32-bit unsigned arithmetic. */
  function NUnits(nbytes: nat): (n: nat)
    ensures n > 0
  {
    (nbytes + 7) % 0x1_0000_0000 / 8 + 1
  }

  /** The argument of sbrk as the kernel sees it: the 32-bit product taken as a signed int. */
  function SbrkArg(nu: nat): int {
    var p := nu * 8 % 0x1_0000_0000;
    if p < 0x8000_0000 then p else p - 0x1_0000_0000
  }

  /** The block is large enough for the request, header included, exactly while nbytes + 7 does not wrap. */
  lemma UnitsSuffice(nbytes: nat)
    requires nbytes < 0x1_0000_0000
    ensures (NUnits(nbytes) - 1) * 8 >= nbytes <==> nbytes <= 0x1_0000_0000 - 8
    ensures nbytes <= 0x1_0000_0000 - 8 ==> NUnits(nbytes) == (nbytes + 7) / 8 + 1
  {
    if nbytes + 7 < 0x1_0000_0000 {
      assert (nbytes + 7) % 0x1_0000_0000 == nbytes + 7;
    } else {
      assert (nbytes + 7) % 0x1_0000_0000 == nbytes + 7 - 0x1_0000_0000;
    }
  }

  /** sbrk is asked for the memory that morecore will use exactly while the units number less than 2^28. */
  lemma SbrkAsksEnough(nu: nat)
    requires 0 < nu <= 0x2000_0000
    ensures SbrkArg(nu) == nu * 8 <==> nu < 0x1000_0000
  {
  }

  ghost predicate OnList(bs: seq<Blk>, a: nat) {
    exists i :: 0 <= i < |bs| && bs[i].a == a
  }

  // ---- What malloc does to the list ----------------------------------------------------

  /** Block k reduced to its first n units, or gone when none are left. */
  ghost function Cut(bs: seq<Blk>, k: nat, n: nat): seq<Blk>
    requires k < |bs|
  {
    if n == 0 then bs[..k] + bs[k + 1..] else bs[k := Blk(bs[k].a, n)]
  }

  /** Cutting the tail off a block takes exactly the tail's units from the free ones. */
  lemma CutCovers(bs: seq<Blk>, k: nat, n: nat, u: nat)
    requires Sorted(bs) && 0 < k < |bs| && n < bs[k].n
    ensures var b := Blk(bs[k].a + n, bs[k].n - n);
      (Covered(bs, u) <==> Covered(Cut(bs, k, n), u) || In(b, u)) && !(Covered(Cut(bs, k, n), u) && In(b, u))
  {
    var r, b := Cut(bs, k, n), Blk(bs[k].a + n, bs[k].n - n);
    if Covered(bs, u) {
      var i :| 0 <= i < |bs| && In(bs[i], u);
      var j := if n == 0 && i > k then i - 1 else i;
      if i != k { assert In(r[j], u); } else if u < b.a { assert In(r[k], u); }
    }
    if In(b, u) { assert In(bs[k], u); }
    if Covered(r, u) {
      var j :| 0 <= j < |r| && In(r[j], u);
      CutApart(bs, k, n, j);
      assert In(bs[if n == 0 && j >= k then j + 1 else j], u);
    }
  }

  lemma CutApart(bs: seq<Blk>, k: nat, n: nat, j: nat)
    requires Sorted(bs) && 0 < k < |bs| && n < bs[k].n && j < |Cut(bs, k, n)|
    ensures Apart(Cut(bs, k, n)[j], Blk(bs[k].a + n, bs[k].n - n))
  {
    var i := if n == 0 && j >= k then j + 1 else j;
    if i < k { SortedPair(bs, i, k); }
    if i > k { SortedPair(bs, k, i); }
  }

  lemma CutSorted(bs: seq<Blk>, k: nat, n: nat)
    requires Sorted(bs) && 0 < k < |bs| && n < bs[k].n
    ensures Sorted(Cut(bs, k, n)) && Cut(bs, k, n)[0] == bs[0] && Cut(bs, k, n)[k - 1] == bs[k - 1]
  {
    var r := Cut(bs, k, n);
    forall i | 0 <= i < |r| - 1 ensures Gap(r, i) {
      var j := if n == 0 && i >= k then i + 1 else i;
      assert Gap(bs, j);
      if i == k - 1 && n == 0 { assert Gap(bs, k); }
    }
  }

  lemma CutLinks(ptr: map<nat, nat>, size: map<nat, nat>, bs: seq<Blk>, k: nat, n: nat)
    requires Sorted(bs) && Links(ptr, size, bs) && 0 < k < |bs| && n < bs[k].n
    ensures bs[k].a in ptr && bs[k].a in size
    ensures n == 0 ==> Links(ptr[bs[k - 1].a := ptr[bs[k].a]], size, Cut(bs, k, n))
    ensures n > 0 ==> Links(ptr, size[bs[k].a := n][bs[k].a + n := bs[k].n - n], Cut(bs, k, n))
  {
    assert LinkAt(ptr, size, bs, k) && LinkAt(ptr, size, bs, k - 1);
    var r := Cut(bs, k, n);
    var ptr' := ptr[bs[k - 1].a := ptr[bs[k].a]];
    var size' := size[bs[k].a := n][bs[k].a + n := bs[k].n - n];
    forall i | 0 <= i < |r|
      ensures if n == 0 then LinkAt(ptr', size, r, i) else LinkAt(ptr, size', r, i)
    {
      var j := if n == 0 && i >= k then i + 1 else i;
      assert LinkAt(ptr, size, bs, j);
      if j < k { SortedPair(bs, j, k); }
      if j < k - 1 { SortedPair(bs, j, k - 1); }
      if k < j { SortedPair(bs, k, j); SortedPair(bs, k - 1, j); }
    }
  }

  /** malloc: the tail moves from the free to the allocated. */
  lemma CutLive(bs: seq<Blk>, live: map<nat, nat>, size: map<nat, nat>, size': map<nat, nat>, heap: set<nat>,
                base: nat, brk: nat, k: nat, n: nat)
    requires LiveOk(bs, live, size, base, brk) && Conserved(bs, live, heap) && Sorted(bs) && 0 < k < |bs| && n < bs[k].n
    requires bs[0].a == base && bs[k].a + bs[k].n <= brk
    requires forall h :: h in live ==> h in size && h in size' && size'[h] == size[h]
    requires bs[k].a + n in size' && size'[bs[k].a + n] == bs[k].n - n
    ensures bs[k].a + n !in live
    ensures LiveOk(Cut(bs, k, n), live[bs[k].a + n := bs[k].n - n], size', base, brk)
    ensures Conserved(Cut(bs, k, n), live[bs[k].a + n := bs[k].n - n], heap)
  {
    var b := Blk(bs[k].a + n, bs[k].n - n);
    var r := Cut(bs, k, n);
    SortedPair(bs, 0, k);
    forall h | h in live ensures h != b.a {
      assert LiveAt(bs, live, size, base, brk, h) && Apart(bs[k], Blk(h, live[h]));
    }
    var live' := live[b.a := b.n];
    forall h | h in live' ensures LiveAt(r, live', size', base, brk, h) {
      if h == b.a {
        forall i | 0 <= i < |r| ensures Apart(r[i], b) { CutApart(bs, k, n, i); }
      } else {
        assert LiveAt(bs, live, size, base, brk, h);
        forall i | 0 <= i < |r| ensures Apart(r[i], Blk(h, live[h])) {
          assert Apart(bs[if n == 0 && i >= k then i + 1 else i], Blk(h, live[h]));
        }
      }
    }
    forall h, g | h in live' && g in live' ensures Separate(live', h, g) {
      if h != b.a && g != b.a { assert Separate(live, h, g); }
      else if h != b.a { assert LiveAt(bs, live, size, base, brk, h) && Apart(bs[k], Blk(h, live[h])); }
      else if g != b.a { assert LiveAt(bs, live, size, base, brk, g) && Apart(bs[k], Blk(g, live[g])); }
    }
    forall u ensures u in heap <==> Covered(r, u) || InLive(live', u) {
      CutCovers(bs, k, n, u);
      LiveAdd(live, b, u);
    }
  }

  lemma LiveAdd(live: map<nat, nat>, b: Blk, u: nat)
    requires b.a !in live
    ensures InLive(live[b.a := b.n], u) <==> InLive(live, u) || In(b, u)
  {
    var live' := live[b.a := b.n];
    if InLive(live, u) {
      var h :| h in live && In(Blk(h, live[h]), u);
      assert h in live' && In(Blk(h, live'[h]), u);
    }
    if In(b, u) { assert b.a in live' && In(Blk(b.a, live'[b.a]), u); }
    if InLive(live', u) {
      var h :| h in live' && In(Blk(h, live'[h]), u);
      if h != b.a { assert h in live && In(Blk(h, live[h]), u); }
    }
  }

  /** The joins touch no other allocated block's header. */
  lemma OtherSizes(bs: seq<Blk>, live: map<nat, nat>, ptr: map<nat, nat>, size: map<nat, nat>, ptr': map<nat, nat>, size': map<nat, nat>,
                   base: nat, brk: nat, t: nat, b: Blk)
    requires LiveOk(bs, live, size, base, brk) && t < |bs| && Rejoined(ptr, size, ptr', size', bs, t, b)
    requires Sorted(bs) && bs[0].a == base
    ensures forall h :: h in live && h != b.a ==> h in size && h in size' && size'[h] == size[h]
  {
    forall h | h in live && h != b.a ensures h in size && h in size' && size'[h] == size[h] {
      assert LiveAt(bs, live, size, base, brk, h) && Apart(bs[t], Blk(h, live[h]));
      assert h != bs[t].a;
    }
  }

  /** What free leaves: the list, its links, the other allocated blocks, and every unit. */
  lemma RejoinKeeps(ptr: map<nat, nat>, size: map<nat, nat>, bs: seq<Blk>, live: map<nat, nat>, heap: set<nat>,
                    base: nat, brk: nat, t: nat, b: Blk)
    requires Sorted(bs) && Links(ptr, size, bs) && Place(bs, t, b) && b.a in size && size[b.a] == b.n && bs[0] == Blk(base, 0)
    requires LiveOk(bs, live, size, base, brk) && Conserved(bs, live, heap) && b.a in live && live[b.a] == b.n && b.a + b.n <= brk
    requires forall i :: 0 <= i < |bs| ==> bs[i].a + bs[i].n <= brk
    ensures bs[t].a in ptr && bs[t].a in size
    ensures var (p1, s1) := JoinUp(ptr, size, bs[t].a, b.a);
      bs[t].a in s1 && b.a in s1 && b.a in p1
      && var (p2, s2) := JoinDown(p1, s1, bs[t].a, b.a);
         Links(p2, s2, Insert(bs, t, b)) && LiveOk(Insert(bs, t, b), live - {b.a}, s2, base, brk)
    ensures Sorted(Insert(bs, t, b)) && Conserved(Insert(bs, t, b), live - {b.a}, heap)
    ensures forall i :: 0 <= i < |Insert(bs, t, b)| ==> Insert(bs, t, b)[i].a + Insert(bs, t, b)[i].n <= brk
    ensures t < |Insert(bs, t, b)| && Insert(bs, t, b)[t].a == bs[t].a && Insert(bs, t, b)[0] == bs[0]
    ensures OnList(Insert(bs, t, b), bs[t].a)
  {
    FreeLinks(ptr, size, bs, t, b);
    JoinMaps(ptr, size, bs, t, b);
    var (p1, s1) := JoinUp(ptr, size, bs[t].a, b.a);
    var (p2, s2) := JoinDown(p1, s1, bs[t].a, b.a);
    InsertSorted(bs, t, b);
    OtherSizes(bs, live, ptr, size, p2, s2, base, brk, t, b);
    FreedLive(bs, live, size, s2, heap, base, brk, t, b);
    InsertEnds(bs, t, b, brk);
    InsertHeads(bs, t, b);
  }

  /** The blocks before and at the place keep their addresses, and base stays. */
  lemma InsertHeads(bs: seq<Blk>, t: nat, b: Blk)
    requires Sorted(bs) && Place(bs, t, b) && bs[0].n == 0
    ensures t < |Insert(bs, t, b)| && Insert(bs, t, b)[t].a == bs[t].a && Insert(bs, t, b)[0] == bs[0]
    ensures OnList(Insert(bs, t, b), bs[t].a)
  {
    InsertAt(bs, t, b, 0);
    InsertAt(bs, t, b, t);
  }

  /** Units lo .. lo+n-1. */
  ghost function Units(lo: nat, n: nat): (s: set<nat>)
    ensures forall u :: u in s <==> In(Blk(lo, n), u)
  {
    if n == 0 then {} else Units(lo, n - 1) + {lo + n - 1}
  }

  /** A chunk from sbrk above everything, taken as one allocated block. */
  lemma ChunkLive(bs: seq<Blk>, live: map<nat, nat>, size: map<nat, nat>, heap: set<nat>, base: nat, brk: nat, b: Blk)
    requires LiveOk(bs, live, size, base, brk) && Conserved(bs, live, heap) && brk <= b.a && base < brk && b.n > 0
    requires forall i :: 0 <= i < |bs| ==> bs[i].a + bs[i].n <= brk
    ensures b.a !in live
    ensures LiveOk(bs, live[b.a := b.n], size[b.a := b.n], base, b.a + b.n)
    ensures Conserved(bs, live[b.a := b.n], heap + Units(b.a, b.n))
  {
    forall h | h in live ensures h != b.a {
      assert LiveAt(bs, live, size, base, brk, h);
    }
    var live', size' := live[b.a := b.n], size[b.a := b.n];
    forall h | h in live' ensures LiveAt(bs, live', size', base, b.a + b.n, h) {
      if h != b.a { assert LiveAt(bs, live, size, base, brk, h); }
    }
    forall h, g | h in live' && g in live' ensures Separate(live', h, g) {
      if h != b.a { assert LiveAt(bs, live, size, base, brk, h); }
      if g != b.a { assert LiveAt(bs, live, size, base, brk, g); }
      if h != b.a && g != b.a { assert Separate(live, h, g); }
    }
    forall u ensures u in heap + Units(b.a, b.n) <==> Covered(bs, u) || InLive(live', u) {
      LiveAdd(live, b, u);
    }
  }

  /** The blocks examined when the search that began after position f has reached position k. */
  ghost predicate Seen(f: nat, k: nat, i: int) {
    if f <= k then f < i <= k else i > f || i <= k
  }

  /** The blocks examined on reaching position k of n were all smaller. */
  ghost predicate AllSmall(bs: seq<Blk>, f: nat, k: nat, nunits: nat) {
    forall i :: 0 <= i < |bs| && Seen(f, k, i) ==> bs[i].n < nunits
  }

  /** Going round from the block after freep, at position f, the block at k is the first that has nunits. */
  ghost predicate NextFit(bs: seq<Blk>, freep: Option<nat>, f: nat, k: nat, nunits: nat) {
    && f < |bs| && k < |bs| && freep == Some(bs[f].a) && bs[k].n >= nunits
    && forall i :: 0 <= i < |bs| && (if f < k then f < i < k else i > f || i < k) ==> bs[i].n < nunits
  }

  /** The pointer r is past the header of the last nunits of block k, and bs' is without them. */
  ghost predicate TailOf(bs: seq<Blk>, bs': seq<Blk>, k: nat, nunits: nat, r: nat) {
    k < |bs| && bs[k].n >= nunits && bs' == Cut(bs, k, bs[k].n - nunits) && r == bs[k].a + (bs[k].n - nunits) + 1
  }

  lemma FirstSeen(bs: seq<Blk>, freep: Option<nat>, f: nat, kp: nat, k: nat, nunits: nat)
    requires f < |bs| && kp < |bs| && k == (if kp + 1 < |bs| then kp + 1 else 0)
    requires AllSmall(bs, f, kp, nunits) && bs[k].n >= nunits && freep == Some(bs[f].a)
    ensures NextFit(bs, freep, f, k, nunits)
  {
  }

  /** No free block has nunits. */
  ghost predicate NoneFits(bs: seq<Blk>, nunits: nat) {
    forall i :: 0 <= i < |bs| ==> bs[i].n < nunits
  }

  lemma SmallSoFar(bs: seq<Blk>, f: nat, kp: nat, k: nat, nunits: nat)
    requires f < |bs| && kp < |bs| && k == (if kp + 1 < |bs| then kp + 1 else 0)
    requires AllSmall(bs, f, kp, nunits) && bs[k].n < nunits
    ensures k != f ==> AllSmall(bs, f, k, nunits)
    ensures k == f ==> NoneFits(bs, nunits)
  {
  }

  // ---- The heap ------------------------------------------------------------------------

  /** The heap got one chunk at p: 4096 units, or the nu asked for if they are more. */
  ghost predicate Grown(heap: set<nat>, heap': set<nat>, p: nat, nu: nat) {
    && (nu < 4096 ==> heap' == heap + Units(p, 4096))
    && (nu >= 4096 ==> heap' == heap + Units(p, nu))
  }

  lemma OneMore(s: set<nat>, u: nat)
    requires u !in s
    ensures |s + {u}| == |s| + 1
  {
    assert (s + {u}) - {u} == s;
  }

  /** Units are as many as they say. */
  lemma {:induction false} UnitsCount(lo: nat, n: nat)
    ensures |Units(lo, n)| == n
  {
    if n > 0 {
      UnitsCount(lo, n - 1);
      OneMore(Units(lo, n - 1), lo + n - 1);
    }
  }

  class Heap {
    const base: nat
    var ptr: map<nat, nat>      // h->s.ptr
    var size: map<nat, nat>     // h->s.size
    var freep: Option<nat>
    ghost var bs: seq<Blk>          // the free list from base on
    ghost var live: map<nat, nat>   // allocated headers and their sizes
    ghost var heap: set<nat>        // every unit obtained from sbrk
    ghost var brk: nat              // no unit obtained lies at or above this

    /** malloc has been called: the circle runs from base through the free blocks. */
    ghost predicate Started()
      reads this
    {
      && freep.Some? && |bs| > 0 && bs[0] == Blk(base, 0) && Sorted(bs) && Links(ptr, size, bs)
      && OnList(bs, freep.value)
    }

    ghost predicate Valid()
      reads this
    {
      && (if freep.None? then bs == [] && live == map[] && heap == {} else Started())
      && LiveOk(bs, live, size, base, brk) && Conserved(bs, live, heap) && base < brk
      && (forall i :: 0 <= i < |bs| ==> bs[i].a + bs[i].n <= brk)
    }

    constructor (base: nat)
      ensures Valid() && live == map[] && heap == {} && this.base == base
    {
      this.base, ptr, size, freep := base, map[], map[], None;
      bs, live, heap, brk := [], map[], {}, base + 1;
    }

    /** What is on the free list: the units from sbrk that are in no allocated block. */
    lemma FreeAreTheRest(u: nat)
      requires Valid()
      ensures Covered(bs, u) <==> u in heap && !InLive(live, u)
    {
      if InLive(live, u) {
        var h :| h in live && In(Blk(h, live[h]), u);
        assert LiveAt(bs, live, size, base, brk, h);
        forall i | 0 <= i < |bs| ensures !In(bs[i], u) {
          assert Apart(bs[i], Blk(h, live[h]));
        }
      }
    }

    /** The position after which a live block belongs. */
    lemma PlaceOf(h: nat) returns (t: nat)
      requires Valid() && h in live
      ensures Place(bs, t, Blk(h, live[h]))
      ensures forall i :: 0 <= i < |bs| ==> (bs[i].a < h <==> i <= t)
    {
      assert LiveAt(bs, live, size, base, brk, h);
      t := 0;
      while t + 1 < |bs| && bs[t + 1].a < h
        invariant t < |bs| && bs[t].a < h
      {
        t := t + 1;
      }
      forall i | 0 <= i < |bs| ensures bs[i].a < h <==> i <= t {
        if i < t { SortedPair(bs, i, t); }
        if t < i {
          assert Apart(bs[t + 1], Blk(h, live[h]));
          if t + 1 < i { SortedPair(bs, t + 1, i); }
        }
      }
    }

    /** free: put the block back in address order, joined with its neighbours. */
    method Free(ap: nat) returns (ghost t: nat)
      requires Valid() && ap > 0 && ap - 1 in live
      modifies this
      ensures Valid() && live == old(live) - {ap - 1} && heap == old(heap) && brk == old(brk)
      ensures freep.Some?
      ensures Freed(old(bs), bs, t, Blk(ap - 1, old(live)[ap - 1]), freep)
    {
      var bp := ap - 1;
      assert LiveAt(bs, live, size, base, brk, bp);
      ghost var b := Blk(bp, live[bp]);
      t := PlaceOf(bp);
      var p := freep.value;
      ghost var k :| 0 <= k < |bs| && bs[k].a == p;
      assert LinkAt(ptr, size, bs, k);
      while !(bp > p && bp < ptr[p])
        modifies {}
        invariant 0 <= k < |bs| && bs[k].a == p && LinkAt(ptr, size, bs, k)
        decreases if k <= t then t - k else t - k + |bs|
      {
        if p >= ptr[p] && (bp > p || bp < ptr[p]) {
          break;
        }
        if k + 1 < |bs| { assert Gap(bs, k); }
        SortedBase(bs, k);
        k := if k + 1 < |bs| then k + 1 else 0;
        p := ptr[p];
        assert LinkAt(ptr, size, bs, k);
      }
      if k + 1 < |bs| { assert Gap(bs, k); }
      SortedBase(bs, k);
      assert k == t;
      Rejoin(bp, p, t, b);
    }

    method Relink(bp: nat, p: nat)
      requires p in ptr && p in size && bp in size
      requires bp + size[bp] == ptr[p] ==> ptr[p] in size && ptr[p] in ptr
      modifies `ptr, `size
      ensures p in old(ptr) && bp in old(size) && p in old(size)
      ensures var (p1, s1) := JoinUp(old(ptr), old(size), p, bp);
        p in s1 && bp in s1 && bp in p1 && (ptr, size) == JoinDown(p1, s1, p, bp)
    {
      var next := ptr[p];
      if bp + size[bp] == next {
        size := size[bp := size[bp] + size[next]];
        ptr := ptr[bp := ptr[next]];
      } else {
        ptr := ptr[bp := next];
      }
      if p + size[p] == bp {
        size := size[p := size[p] + size[bp]];
        ptr := ptr[p := ptr[bp]];
      } else {
        ptr := ptr[p := bp];
      }
    }

    /** The two if statements of free and freep = p. */
    method Rejoin(bp: nat, p: nat, ghost t: nat, ghost b: Blk)
      requires Valid() && bp in live && b == Blk(bp, live[bp]) && Place(bs, t, b) && bs[t].a == p
      modifies this
      ensures Valid() && live == old(live) - {bp} && heap == old(heap) && brk == old(brk)
      ensures Freed(old(bs), bs, t, b, freep)
    {
      assert LiveAt(bs, live, size, base, brk, bp) && LinkAt(ptr, size, bs, t);
      if t + 1 < |bs| { assert LinkAt(ptr, size, bs, t + 1); }
      SortedBase(bs, t);
      RejoinKeeps(ptr, size, bs, live, heap, base, brk, t, b);
      Relink(bp, p);
      freep, bs, live := Some(p), Insert(bs, t, b), live - {bp};
    }

    /** hp->s.size = nu: until it is freed the chunk is an allocated block. */
    method TakeChunk(p: nat, n: nat)
      requires Valid() && freep.Some? && n > 0 && p >= brk
      modifies `size, `live, `heap, `brk
      ensures Valid() && p !in old(live) && live == old(live)[p := n] && live - {p} == old(live)
      ensures heap == old(heap) + Units(p, n)
    {
      ghost var b := Blk(p, n);
      ChunkLive(bs, live, size, heap, base, brk, b);
      ChunkLinks(ptr, size, bs, b, brk);
      size := size[p := n];
      live, heap, brk := live[p := n], heap + Units(p, n), p + n;
    }

    /** morecore: get a chunk of at least 4096 units and free it. False when sbrk refuses. */
    method MoreCore(nu: nat, sbrk: Option<nat>) returns (ok: bool)
      requires Valid() && freep.Some? && nu > 0
      requires sbrk.Some? ==> sbrk.value >= brk
      modifies this
      ensures Valid() && freep.Some? && live == old(live) && ok == sbrk.Some?
      ensures !ok ==> bs == old(bs) && heap == old(heap) && freep == old(freep)
      ensures ok ==> Grown(old(heap), heap, sbrk.value, nu) && !NoneFits(bs, nu)
    {
      if sbrk.None? { return false; }
      TakeChunk(sbrk.value, Chunk(nu));
      ghost var bs1 := bs;
      ghost var t := Free(sbrk.value + 1);
      FreedFits(bs1, bs, t, Blk(sbrk.value, Chunk(nu)), freep, nu);
      ok := true;
    }

    /** p = morecore(nunits), and where p is in the list. */
    method Refill(nu: nat, sbrk: Option<nat>) returns (ok: bool, p: nat, ghost f: nat)
      requires Valid() && freep.Some? && nu > 0
      requires sbrk.Some? ==> sbrk.value >= brk
      modifies this
      ensures Valid() && freep.Some? && live == old(live) && ok == sbrk.Some?
      ensures !ok ==> bs == old(bs) && heap == old(heap) && freep == old(freep)
      ensures ok ==> Grown(old(heap), heap, sbrk.value, nu) && !NoneFits(bs, nu)
      ensures ok ==> f < |bs| && bs[f].a == p && freep == Some(p)
    {
      ok := MoreCore(nu, sbrk);
      p := freep.value;
      assert OnList(bs, p);
      f :| 0 <= f < |bs| && bs[f].a == p;
    }

    /** The first call of malloc makes base a circle of its own. */
    method Start()
      requires Valid() && freep.None?
      modifies `ptr, `size, `freep, `bs
      ensures Valid() && freep == Some(base) && bs == [Blk(base, 0)]
    {
      ptr, size, freep := ptr[base := base], size[base := 0], Some(base);
      bs := [Blk(base, 0)];
      assert bs[0].a == base;
      StartConserved(base);
    }

    /**
     malloc: search from freep for the first block that is large enough and cut the request off its
     tail; after a whole turn without one, get more core once. `sbrk` is what sbrk answers if called.
     `sound` fails where sbrk, asked for another size than that of the chunk, answers all the same: the
     source goes on to write headers into units it does not have, and the model stops there.
     */
    method Malloc(nbytes: nat, sbrk: Option<nat>) returns (r: nat, sound: bool, ghost f: nat, ghost k: nat)
      requires Valid() && base > 0 && nbytes < 0x1_0000_0000
      requires sbrk.Some? ==> sbrk.value >= brk
      modifies this
      ensures Valid()
      ensures sound == !(sbrk.Some? && Overflows(NUnits(nbytes)) && NoneFits(old(bs), NUnits(nbytes)))
      ensures r == 0 ==> live == old(live) && heap == old(heap) && (sound ==> sbrk.None?)
      ensures !sound ==> r == 0
      ensures r == 0 ==> NoneFits(bs, NUnits(nbytes))
      ensures r != 0 ==> r - 1 !in old(live) && live == old(live)[r - 1 := NUnits(nbytes)]
      ensures if sound && sbrk.Some? && NoneFits(old(bs), NUnits(nbytes)) then Grown(old(heap), heap, sbrk.value, NUnits(nbytes))
              else heap == old(heap)
      ensures !NoneFits(old(bs), NUnits(nbytes)) ==>
        NextFit(old(bs), old(freep), f, k, NUnits(nbytes)) && TailOf(old(bs), bs, k, NUnits(nbytes), r)
    {
      var nunits := NUnits(nbytes);
      ghost var bs0, live0, heap0, brk0, freep0 := bs, live, heap, brk, freep;
      var prevp, p;
      prevp, p, f := Begin(nunits);
      ghost var kp: nat, again: bool := f, false;
      while true
        invariant Searching(f, kp, prevp, p, nunits) && live == live0
        invariant !again ==> Untouched(bs0, heap0, brk0, freep0)
        invariant again ==> !NoneFits(bs, nunits) && NoneFits(bs0, nunits)
        invariant again ==> sbrk.Some? && !Overflows(nunits) && Grown(heap0, heap, sbrk.value, nunits)
        decreases !again, if kp >= f then |bs| - kp + f else f - kp
      {
        k := if kp + 1 < |bs| then kp + 1 else 0;
        assert LinkAt(ptr, size, bs, k) && bs[k].a == p;
        if size[p] >= nunits {
          r := TakeFound(prevp, p, nunits, f, kp, k);
          return r, true, f, k;
        }
        SmallSoFar(bs, f, kp, k, nunits);
        if p == freep.value {
          SamePlace(bs, k, f);
          if sbrk.Some? && Overflows(nunits) { return 0, false, f, k; }
          var ok;
          ok, p, f := Refill(nunits, sbrk);
          if !ok { return 0, true, f, k; }
          again := true;
          k := f;
        }
        assert LinkAt(ptr, size, bs, k);
        kp := k;
        prevp, p := p, ptr[p];
      }
    }

    /** Where malloc's search begins: after freep. */
    method Begin(nunits: nat) returns (prevp: nat, p: nat, ghost f: nat)
      requires Valid()
      modifies `ptr, `size, `freep, `bs
      ensures Searching(f, f, prevp, p, nunits) && Untouched(old(bs), old(heap), old(brk), old(freep))
    {
      if freep.None? { Start(); }
      prevp := freep.value;
      assert OnList(bs, prevp);
      f :| 0 <= f < |bs| && bs[f].a == prevp;
      assert LinkAt(ptr, size, bs, f);
      p := ptr[prevp];
    }

    /** malloc stands at block p, after prevp; the blocks from f on up to there were too small. */
    ghost predicate Searching(f: nat, kp: nat, prevp: nat, p: nat, nunits: nat)
      reads this
    {
      && Valid() && freep.Some? && f < |bs| && bs[f].a == freep.value
      && kp < |bs| && bs[kp].a == prevp && p == Nxt(bs, kp) && AllSmall(bs, f, kp, nunits)
    }

    /** As malloc found it, but for the circle that its first call makes. */
    ghost predicate Untouched(bs0: seq<Blk>, heap0: set<nat>, brk0: nat, freep0: Option<nat>)
      reads this
    {
      brk == brk0 && heap == heap0 && if bs0 == [] then bs == [Blk(base, 0)] else bs == bs0 && freep == freep0
    }

    /** The block found. */
    method TakeFound(prevp: nat, p: nat, nunits: nat, ghost f: nat, ghost kp: nat, ghost k: nat) returns (r: nat)
      requires Searching(f, kp, prevp, p, nunits) && k == (if kp + 1 < |bs| then kp + 1 else 0) && nunits > 0 && bs[k].n >= nunits
      modifies this
      ensures Valid() && heap == old(heap) && r > 1 && r - 1 !in old(live) && live == old(live)[r - 1 := nunits]
      ensures NextFit(old(bs), old(freep), f, k, nunits) && TailOf(old(bs), bs, k, nunits, r) && freep == Some(prevp)
    {
      FirstSeen(bs, freep, f, kp, k, nunits);
      r := Take(prevp, p, nunits, kp, k);
    }

    lemma StartConserved(a: nat)
      requires live == map[] && heap == {}
      ensures Conserved([Blk(a, 0)], live, heap)
    {
    }

    /** The header that malloc gives out: all of the block p, or its tail. */
    method CutTail(prevp: nat, p: nat, nunits: nat) returns (h: nat)
      requires p in ptr && p in size && size[p] >= nunits
      modifies `ptr, `size
      ensures var n := old(size)[p] - nunits;
        && h == p + n
        && ptr == (if n == 0 then old(ptr)[prevp := old(ptr)[p]] else old(ptr))
        && size == (if n == 0 then old(size) else old(size)[p := n][p + n := nunits])
    {
      h := p;
      if size[p] == nunits {
        ptr := ptr[prevp := ptr[p]];
      } else {
        size := size[p := size[p] - nunits];
        h := p + size[p];
        size := size[h := nunits];
      }
    }

    /** Take nunits from block k, whose predecessor is prevp. */
    method Take(prevp: nat, p: nat, nunits: nat, ghost kp: nat, ghost k: nat) returns (r: nat)
      requires Valid() && freep.Some? && nunits > 0 && k < |bs| && bs[k].a == p && bs[k].n >= nunits
      requires kp < |bs| && bs[kp].a == prevp && k == if kp + 1 < |bs| then kp + 1 else 0
      modifies this
      ensures Valid() && heap == old(heap) && r > 1
      ensures r - 1 !in old(live) && live == old(live)[r - 1 := nunits]
      ensures var n := old(bs)[k].n - nunits; bs == Cut(old(bs), k, n) && r == old(bs)[k].a + n + 1 && freep == Some(prevp)
    {
      assert LinkAt(ptr, size, bs, k);
      assert k > 0 && bs[k - 1].a == prevp;
      ghost var n := bs[k].n - nunits;
      ghost var size0 := size;
      CutSorted(bs, k, n);
      CutLinks(ptr, size, bs, k, n);
      SortedPair(bs, 0, k);
      var h := CutTail(prevp, p, nunits);
      forall g | g in live ensures g in size0 && g in size && size[g] == size0[g] {
        assert LiveAt(bs, live, size0, base, brk, g) && Apart(bs[k], Blk(g, live[g]));
      }
      CutLive(bs, live, size0, size, heap, base, brk, k, n);
      freep := Some(prevp);
      ghost var bs0 := bs;
      bs := Cut(bs, k, n);
      live := live[h := nunits];
      assert bs[k - 1].a == prevp;
      CutEnds(bs0, k, n, brk);
      r := h + 1;
    }
  }

  /** sbrk is asked for another number of bytes than the chunk for nu units has. */
  predicate Overflows(nu: nat) {
    SbrkArg(Chunk(nu)) != Chunk(nu) * 8
  }

  /** The units morecore asks for. */
  function Chunk(nu: nat): nat {
    if nu < 4096 then 4096 else nu
  }

  lemma SamePlace(bs: seq<Blk>, i: nat, j: nat)
    requires Sorted(bs) && i < |bs| && j < |bs| && bs[i].a == bs[j].a
    ensures i == j
  {
    if i < j { SortedPair(bs, i, j); }
    if j < i { SortedPair(bs, j, i); }
  }

  lemma ChunkLinks(ptr: map<nat, nat>, size: map<nat, nat>, bs: seq<Blk>, b: Blk, brk: nat)
    requires Links(ptr, size, bs) && brk <= b.a && Sorted(bs) && |bs| > 0 && bs[0].a < brk
    requires forall i :: 0 <= i < |bs| ==> bs[i].a + bs[i].n <= brk
    ensures Links(ptr, size[b.a := b.n], bs)
  {
    var size' := size[b.a := b.n];
    forall i | 0 <= i < |bs| ensures LinkAt(ptr, size', bs, i) {
      assert LinkAt(ptr, size, bs, i);
    }
  }

  /** bs' is bs with b inserted at t, and the search will start at the block before it. */
  ghost predicate Freed(bs: seq<Blk>, bs': seq<Blk>, t: nat, b: Blk, freep: Option<nat>) {
    && Place(bs, t, b) && bs' == Insert(bs, t, b) && freep == Some(bs[t].a)
    && t < |bs'| && bs'[t].a == bs[t].a
  }

  /** A free list has room for what was just freed. */
  lemma FreedFits(bs: seq<Blk>, bs': seq<Blk>, t: nat, b: Blk, freep: Option<nat>, nu: nat)
    requires Sorted(bs) && Freed(bs, bs', t, b, freep) && b.n >= nu
    ensures !NoneFits(bs', nu)
  {
    assert bs'[if bs'[t].n >= nu then t else t + 1].n >= nu;
  }

  lemma CutEnds(bs: seq<Blk>, k: nat, n: nat, brk: nat)
    requires k < |bs| && n < bs[k].n && forall i :: 0 <= i < |bs| ==> bs[i].a + bs[i].n <= brk
    ensures forall i :: 0 <= i < |Cut(bs, k, n)| ==> Cut(bs, k, n)[i].a + Cut(bs, k, n)[i].n <= brk
  {
  }

  lemma InsertEnds(bs: seq<Blk>, t: nat, b: Blk, brk: nat)
    requires Place(bs, t, b) && b.a + b.n <= brk && forall i :: 0 <= i < |bs| ==> bs[i].a + bs[i].n <= brk
    ensures forall i :: 0 <= i < |Insert(bs, t, b)| ==> Insert(bs, t, b)[i].a + Insert(bs, t, b)[i].n <= brk
  {
  }
}
