/**
 Address spaces over counted frames (vm.c): growing, shrinking, freeing, the eager and the
 copy-on-write copyuvm, and the page fault that undoes sharing. Each method is specified by what
 it does to the contents that user code can see, and by what it does to the references.
 */
module Vm {
  import opened Frames

  const KERNBASE: nat := 0x80000000
  const NPTENTRIES: nat := 1024
  const NPDENTRIES: nat := 1024

  /** What user code can see of a page: its bytes, and whether PTE_U lets it look. */
  datatype Slot = Slot(page: Page, user: bool)

  type Contents = map<Ref, Slot>

  ghost function Pages(pt: RefMap, mem: seq<Page>): Contents {
    map r | r in pt && r.User? && pt[r].frame < |mem| :: Slot(mem[pt[r].frame], pt[r].u)
  }

  /** memset(page, c, PGSIZE) */
  function Memset(c: nat): Page {
    seq(PGSIZE, _ => c)
  }

  /** PGROUNDUP(n) / PGSIZE */
  function PgUp(n: nat): (a: nat)
    ensures a * PGSIZE >= n && (a == 0 || (a - 1) * PGSIZE < n)
  {
    (n + PGSIZE - 1) / PGSIZE
  }

  /** The end of physical memory and the start of the device mappings (memlayout.h). */
  const PHYSTOP: nat := 0xE000000
  const DEVSPACE: nat := 0xFE000000
  /** Bytes that one page directory slot covers. */
  const SLOTSIZE: nat := NPTENTRIES * PGSIZE

  /**
   The page directory slots that setupkvm's four mappings need: three together cover KERNBASE to
   KERNBASE + PHYSTOP, the fourth DEVSPACE to the end of the address space.
   */
  predicate KernelSlot(pdx: nat) {
    || KERNBASE <= pdx * SLOTSIZE < KERNBASE + PHYSTOP
    || DEVSPACE <= pdx * SLOTSIZE < NPDENTRIES * SLOTSIZE
  }

  /** References of one address space. */
  predicate Of(r: Ref, pid: nat) {
    !r.Local? && r.pid == pid
  }

  ghost predicate NoneOf(pt: RefMap, pid: nat) {
    forall r :: r in pt ==> !Of(r, pid)
  }

  /** Every user entry lies below KERNBASE, in a page-table page that exists. */
  ghost predicate TabOk(pt: RefMap) {
    forall r {:trigger HasTable(pt, r)} :: r in pt ==> HasTable(pt, r)
  }

  ghost predicate HasTable(pt: RefMap, r: Ref) {
    && (r.User? ==> r.vpn * PGSIZE < KERNBASE && Table(r.pid, r.vpn / NPTENTRIES) in pt)
    && (r.Table? ==> r.pdx < NPDENTRIES)
  }

  /** Removing entries keeps the rest under page-table pages, unless a needed page-table page goes. */
  lemma TabKept(pt: RefMap, pt': RefMap)
    requires TabOk(pt)
    requires forall r :: r in pt' ==> r in pt || HasTable(pt', r)
    requires forall r :: r in pt && r.Table? && r !in pt' ==> forall s :: s in pt' && s.User? ==> Table(s.pid, s.vpn / NPTENTRIES) != r
    ensures TabOk(pt')
  {
    forall r | r in pt' ensures HasTable(pt', r) {
      if r in pt { assert HasTable(pt, r); }
    }
  }

  /** pt' is pt with its frames and PTE_U bits, and besides only references of address space pid. */
  ghost predicate Ext(pt: RefMap, pt': RefMap, pid: nat) {
    && (forall r :: r in pt ==> r in pt' && pt'[r].frame == pt[r].frame && pt'[r].u == pt[r].u)
    && (forall r :: r in pt' ==> r in pt || Of(r, pid))
  }

  /** Two references to one frame. */
  ghost predicate Shared(pt: RefMap, r: Ref, s: Ref) {
    r in pt && s in pt && pt[r].frame == pt[s].frame
  }

  /** The user pages of pid lie below page hi. */
  ghost predicate PagesBelow(pt: RefMap, pid: nat, hi: nat) {
    forall r :: r in pt && r.User? && r.pid == pid ==> r.vpn < hi
  }

  ghost predicate Present(pt: RefMap, v: Contents, r: Ref) {
    r in pt && r in v
  }

  /** The first n pages of parent and child are the same frames. */
  ghost predicate AllShared(pt: RefMap, parent: nat, child: nat, n: nat) {
    forall v: nat {:trigger User(child, v)} :: v < n ==> Shared(pt, User(parent, v), User(child, v))
  }

  predicate InRange(r: Ref, pid: nat, lo: nat, hi: nat) {
    r.User? && r.pid == pid && lo <= r.vpn < hi
  }

  ghost function DropRange<T>(m: map<Ref, T>, pid: nat, lo: nat, hi: nat): map<Ref, T> {
    map r | r in m && !InRange(r, pid, lo, hi) :: m[r]
  }

  ghost function DropAll<T>(m: map<Ref, T>, pid: nat): map<Ref, T> {
    map r | r in m && !Of(r, pid) :: m[r]
  }

  /** Zeroed user pages lo..hi-1 of pid added. */
  ghost function Zeros(pid: nat, lo: nat, n: nat): Contents {
    if n == 0 then map[] else Zeros(pid, lo, n - 1)[User(pid, lo + n - 1) := Slot(Memset(0), true)]
  }

  /** The child's copies of the parent's first n pages. */
  ghost function Copies(m: Contents, parent: nat, child: nat, n: nat): Contents {
    if n == 0 then map[]
    else
      var c := Copies(m, parent, child, n - 1);
      if User(parent, n - 1) in m then c[User(child, n - 1) := m[User(parent, n - 1)]] else c
  }

  lemma {:induction false} ZerosKeys(pid: nat, lo: nat, n: nat)
    ensures forall r :: r in Zeros(pid, lo, n) <==> InRange(r, pid, lo, lo + n)
  {
    if n > 0 { ZerosKeys(pid, lo, n - 1); }
  }

  lemma {:induction false} CopiesKeys(m: Contents, parent: nat, child: nat, n: nat)
    ensures forall r :: r in Copies(m, parent, child, n) ==> InRange(r, child, 0, n)
  {
    if n > 0 { CopiesKeys(m, parent, child, n - 1); }
  }

  ghost predicate Same(mem: seq<Page>, mem': seq<Page>, f: nat) {
    f < |mem| == |mem'| && mem[f] == mem'[f]
  }

  lemma PagesMove(pt: RefMap, mem: seq<Page>, s: Ref, e: Entry)
    requires Local in pt && s !in pt && s.User? && e.frame < |mem|
    ensures Pages((pt - {Local})[s := e], mem) == Pages(pt, mem)[s := Slot(mem[e.frame], e.u)]
  {
  }

  lemma ExtTrans(a: RefMap, b: RefMap, c: RefMap, pid: nat)
    requires Ext(a, b, pid) && Ext(b, c, pid)
    ensures Ext(a, c, pid)
  {
  }

  /** Freeing a child that was being built gives back exactly the references there were. */
  lemma ExtUndone(a: RefMap, b: RefMap, child: nat)
    requires Ext(a, b, child) && NoneOf(a, child)
    ensures DropAll(b, child).Keys == a.Keys
    ensures forall r :: r in a ==> DropAll(b, child)[r].frame == a[r].frame && DropAll(b, child)[r].u == a[r].u
    ensures Ext(a, DropAll(b, child), child)
  {
  }

  lemma ViewUndone(v: Contents, c: Contents, child: nat)
    requires forall r :: r in v ==> !Of(r, child)
    requires forall r :: r in c ==> Of(r, child)
    ensures DropAll(v + c, child) == v
  {
  }

  lemma RangeUndone(v: Contents, c: Contents, pid: nat, lo: nat, hi: nat)
    requires forall r :: r in v ==> !InRange(r, pid, lo, hi)
    requires forall r :: r in c ==> InRange(r, pid, lo, hi)
    ensures DropRange(v + c, pid, lo, hi) == v
  {
  }

  lemma ExtendCopies(v: Contents, parent: nat, child: nat, i: nat)
    requires User(parent, i) in v && parent != child
    ensures (v + Copies(v, parent, child, i))[User(child, i) := v[User(parent, i)]] == v + Copies(v, parent, child, i + 1)
  {
  }

  /** A whole page-table page is missing: dropping up to its end drops nothing. */
  lemma SkipTable<T>(m: map<Ref, T>, m': map<Ref, T>, pid: nat, lo: nat, a: nat, b: nat)
    requires lo <= a <= b && m' == DropRange(m, pid, lo, a) && forall r :: r in m' ==> !InRange(r, pid, a, b)
    ensures m' == DropRange(m, pid, lo, b)
  {
    forall r | r in m ensures r in m' <==> !InRange(r, pid, lo, b) {
      assert r in m' <==> !InRange(r, pid, lo, a);
    }
  }

  lemma DropOne<T>(m: map<Ref, T>, pid: nat, lo: nat, a: nat)
    requires lo <= a
    ensures DropRange(m, pid, lo, a + 1) == DropRange(m, pid, lo, a) - {User(pid, a)}
  {
  }

  lemma ShareOneMore(a: RefMap, b: RefMap, parent: nat, child: nat, i: nat)
    requires AllShared(a, parent, child, i) && Ext(a, b, child) && Shared(b, User(parent, i), User(child, i))
    ensures AllShared(b, parent, child, i + 1)
  {
    forall v: nat | v < i ensures Shared(b, User(parent, v), User(child, v)) {
      assert Shared(a, User(parent, v), User(child, v));
    }
  }

  lemma PgUpMono(m: nat, n: nat)
    requires m <= n
    ensures PgUp(m) <= PgUp(n)
  {
  }

  lemma SameTable(a: nat, v: nat)
    requires a <= v < (a / NPTENTRIES + 1) * NPTENTRIES
    ensures v / NPTENTRIES == a / NPTENTRIES
  {
  }

  lemma ExtendZeros(v: Contents, pid: nat, lo: nat, n: nat)
    ensures (v + Zeros(pid, lo, n))[User(pid, lo + n) := Slot(Memset(0), true)] == v + Zeros(pid, lo, n + 1)
  {
  }

  lemma Restored<T>(m: map<Ref, T>, r: Ref)
    requires r in m
    ensures (m - {r})[r := m[r]] == m
  {
  }

  lemma {:induction false} ZerosNext(pid: nat, lo: nat, n: nat, k: nat)
    requires n <= k
    ensures User(pid, lo + k) !in Zeros(pid, lo, n)
  {
    if n > 0 { ZerosNext(pid, lo, n - 1, k); }
  }

  lemma {:induction false} CopiesNext(v: Contents, parent: nat, child: nat, n: nat, k: nat)
    requires n <= k
    ensures User(child, k) !in Copies(v, parent, child, n)
  {
    if n > 0 { CopiesNext(v, parent, child, n - 1, k); }
  }

  // ---- How many frames an operation takes --------------------------------------------------------------

  /** The frame for the page-table page of page v, if it is missing. */
  ghost function Miss(pt: RefMap, pid: nat, v: nat): nat {
    if Table(pid, v / NPTENTRIES) in pt then 0 else 1
  }

  /** pid has in b the page-table pages it has in a, and that of page v. */
  ghost predicate TableAdded(a: RefMap, b: RefMap, pid: nat, v: nat) {
    forall x: nat {:trigger AddedAt(a, b, pid, v, x)} :: AddedAt(a, b, pid, v, x)
  }

  ghost predicate AddedAt(a: RefMap, b: RefMap, pid: nat, v: nat, x: nat) {
    Table(pid, x) in b <==> Table(pid, x) in a || x == v / NPTENTRIES
  }

  /** Only the page-table pages count. */
  lemma SameTables(a: RefMap, a': RefMap, b: RefMap, pid: nat, v: nat)
    requires forall x: nat :: Table(pid, x) in a' <==> Table(pid, x) in a
    ensures Miss(a', pid, v) == Miss(a, pid, v)
    ensures TableAdded(a', b, pid, v) ==> TableAdded(a, b, pid, v)
    ensures TableAdded(b, a', pid, v) ==> TableAdded(b, a, pid, v)
  {
    if TableAdded(a', b, pid, v) {
      forall x: nat ensures AddedAt(a, b, pid, v, x) { assert AddedAt(a', b, pid, v, x); }
    }
    if TableAdded(b, a', pid, v) {
      forall x: nat ensures AddedAt(b, a, pid, v, x) { assert AddedAt(b, a', pid, v, x); }
    }
  }

  /** The slots of the page directory among the first i that setupkvm's mappings need. */
  function SlotsUpTo(i: nat): nat {
    (if i <= 512 then 0 else if i <= 568 then i - 512 else 56) + (if i <= 1016 then 0 else i - 1016)
  }

  lemma SlotsNext(i: nat)
    requires i < NPDENTRIES
    ensures SlotsUpTo(i + 1) == SlotsUpTo(i) + if KernelSlot(i) then 1 else 0
    ensures SlotsUpTo(0) == 0 && SlotsUpTo(i + 1) <= SlotsUpTo(NPDENTRIES) == 64
    ensures KernelSlot(i) ==> i >= 512
  {
  }

  /** Below KERNBASE pid has exactly the page-table pages of its first n pages. */
  ghost predicate UserTables(pt: RefMap, pid: nat, n: nat) {
    forall x: nat {:trigger InFirst(pt, pid, n, x)} :: x < 512 ==> InFirst(pt, pid, n, x)
  }

  ghost predicate InFirst(pt: RefMap, pid: nat, n: nat, x: nat) {
    Table(pid, x) in pt <==> x * NPTENTRIES < n
  }

  /** The page-table pages that n pages from 0 on take. */
  function TablesFor(n: nat): nat { (n + NPTENTRIES - 1) / NPTENTRIES }

  /** As many as there are directory slots that one of the pages falls in. */
  lemma TablesForCounts(n: nat)
    ensures |(set v: nat | v < n :: v / NPTENTRIES)| == TablesFor(n)
  {
    var slots := set v: nat | v < n :: v / NPTENTRIES;
    forall x: nat ensures x in slots <==> x in Below(TablesFor(n)) {
      if x < TablesFor(n) {
        assert x * NPTENTRIES < n && x * NPTENTRIES / NPTENTRIES == x;
      }
    }
    assert slots == Below(TablesFor(n));
  }

  /** The frames of an address space of n pages under copyuvm: the pages too if they are copied. */
  function CopyNeed(n: nat, cow: bool): nat {
    65 + TablesFor(n) + if cow then 0 else n
  }

  /** The frames that copyuvm has taken when it has made i pages, one page after the other. */
  function Taken(i: nat, cow: bool): nat {
    if i == 0 then 65 else Taken(i - 1, cow) + (if (i - 1) % NPTENTRIES == 0 then 1 else 0) + if cow then 0 else 1
  }

  lemma {:induction false} TakenIsNeed(i: nat, cow: bool)
    ensures Taken(i, cow) == CopyNeed(i, cow)
    decreases i
  {
    if i > 0 { TakenIsNeed(i - 1, cow); }
  }

  lemma {:induction false} TakenMono(i: nat, n: nat, cow: bool)
    requires i <= n
    ensures Taken(i, cow) <= Taken(n, cow)
    decreases n
  {
    if i < n { TakenMono(i, n - 1, cow); }
  }

  lemma TakenNext(pt: RefMap, pid: nat, i: nat, cow: bool)
    requires UserTables(pt, pid, i) && i * PGSIZE < KERNBASE
    ensures Taken(i + 1, cow) == Taken(i, cow) + Miss(pt, pid, i) + if cow then 0 else 1
  {
    assert i / NPTENTRIES < 512 && InFirst(pt, pid, i, i / NPTENTRIES);
  }

  lemma UserTablesNext(a: RefMap, b: RefMap, pid: nat, i: nat)
    requires UserTables(a, pid, i) && TableAdded(a, b, pid, i) && i * PGSIZE < KERNBASE
    ensures UserTables(b, pid, i + 1)
  {
    var n := i + 1;
    forall x: nat | x < 512 ensures InFirst(b, pid, n, x) {
      assert InFirst(a, pid, i, x) && AddedAt(a, b, pid, i, x);
    }
  }

  /** The page-table pages that pages lo .. hi-1 of pid still lack. */
  ghost function Missing(pt: RefMap, pid: nat, lo: nat, hi: nat): set<nat> {
    set v: nat | lo <= v < hi && Table(pid, v / NPTENTRIES) !in pt :: v / NPTENTRIES
  }

  /** The frames of pages lo .. hi-1 under allocuvm. */
  ghost function GrowNeed(pt: RefMap, pid: nat, lo: nat, hi: nat): nat
    requires lo <= hi
  {
    hi - lo + |Missing(pt, pid, lo, hi)|
  }

  /** Slot x of the page directory has the page-table page of one of the pages lo .. lo+n-1. */
  predicate Spans(lo: nat, n: nat, x: nat) {
    n > 0 && lo / NPTENTRIES <= x <= (lo + n - 1) / NPTENTRIES
  }

  /** pid has the page-table pages it had in p0, and those of pages lo .. lo+n-1. */
  ghost predicate TablesNow(p0: RefMap, pt: RefMap, pid: nat, lo: nat, n: nat) {
    forall x: nat {:trigger NowAt(p0, pt, pid, lo, n, x)} :: NowAt(p0, pt, pid, lo, n, x)
  }

  ghost predicate NowAt(p0: RefMap, pt: RefMap, pid: nat, lo: nat, n: nat, x: nat) {
    Table(pid, x) in pt <==> Table(pid, x) in p0 || Spans(lo, n, x)
  }

  /** The frames that allocuvm has taken when it has added n pages, one page after the other. */
  ghost function Grabbed(p0: RefMap, pid: nat, lo: nat, n: nat): nat {
    if n == 0 then 0
    else
      Grabbed(p0, pid, lo, n - 1) + 1 + if Spans(lo, n - 1, (lo + n - 1) / NPTENTRIES) then 0 else Miss(p0, pid, lo + n - 1)
  }

  lemma MissingNext(p0: RefMap, pid: nat, lo: nat, a: nat)
    requires lo <= a
    ensures Missing(p0, pid, lo, a + 1) == Missing(p0, pid, lo, a) + if Table(pid, a / NPTENTRIES) in p0 then {} else {a / NPTENTRIES}
  {
  }

  lemma MissingSpans(p0: RefMap, pid: nat, lo: nat, n: nat, x: nat)
    ensures x in Missing(p0, pid, lo, lo + n) <==> Spans(lo, n, x) && Table(pid, x) !in p0
  {
    if Spans(lo, n, x) && Table(pid, x) !in p0 {
      var v := if lo < x * NPTENTRIES then x * NPTENTRIES else lo;
      assert lo <= v < lo + n && v / NPTENTRIES == x;
    }
  }

  lemma {:induction false} GrabbedIsNeed(p0: RefMap, pid: nat, lo: nat, n: nat)
    ensures Grabbed(p0, pid, lo, n) == GrowNeed(p0, pid, lo, lo + n)
    decreases n
  {
    if n == 0 {
      assert Missing(p0, pid, lo, lo) == {};
    } else {
      var a := lo + n - 1;
      GrabbedIsNeed(p0, pid, lo, n - 1);
      MissingNext(p0, pid, lo, a);
      MissingSpans(p0, pid, lo, n - 1, a / NPTENTRIES);
      if a / NPTENTRIES in Missing(p0, pid, lo, a) { assert Missing(p0, pid, lo, a + 1) == Missing(p0, pid, lo, a); }
    }
  }

  lemma {:induction false} GrabbedMono(p0: RefMap, pid: nat, lo: nat, n: nat, m: nat)
    requires n <= m
    ensures Grabbed(p0, pid, lo, n) <= Grabbed(p0, pid, lo, m)
    decreases m
  {
    if n < m { GrabbedMono(p0, pid, lo, n, m - 1); }
  }

  lemma GrabbedNext(p0: RefMap, pt: RefMap, pid: nat, lo: nat, n: nat, v: nat)
    requires TablesNow(p0, pt, pid, lo, n) && v == lo + n
    ensures Grabbed(p0, pid, lo, n + 1) == Grabbed(p0, pid, lo, n) + 1 + Miss(pt, pid, v)
  {
    assert NowAt(p0, pt, pid, lo, n, v / NPTENTRIES);
  }

  lemma TablesNowNext(p0: RefMap, a: RefMap, b: RefMap, pid: nat, lo: nat, n: nat, v: nat)
    requires TablesNow(p0, a, pid, lo, n) && TableAdded(a, b, pid, v) && v == lo + n
    ensures TablesNow(p0, b, pid, lo, n + 1)
  {
    var m := n + 1;
    forall x: nat ensures NowAt(p0, b, pid, lo, m, x) {
      assert NowAt(p0, a, pid, lo, n, x) && AddedAt(a, b, pid, v, x);
      SpansNext(lo, n, x);
    }
  }

  lemma SpansNext(lo: nat, n: nat, x: nat)
    ensures Spans(lo, n + 1, x) <==> Spans(lo, n, x) || x == (lo + n) / NPTENTRIES
  {
  }

  lemma NoneGrabbed(pt: RefMap, pid: nat, lo: nat)
    ensures TablesNow(pt, pt, pid, lo, 0)
  {
  }

  /** The frame that goes back to the free list with r: r's, if nobody else refers to it. */
  ghost function LastOne(pt: RefMap, r: Ref): nat {
    if Exclusive(pt, r) then 1 else 0
  }

  /** Another reference to another frame makes no difference. */
  lemma SameLast(a: RefMap, b: RefMap, r: Ref)
    requires r in a && Local !in a && Exclusive(b, Local) && b == a[Local := b[Local]] && r != Local
    ensures Exclusive(a, r) <==> Exclusive(b, r)
  {
    if Exclusive(b, r) {
      forall s | s in a && s != r ensures a[s].frame != a[r].frame { assert s in b && b[s] == a[s]; }
    }
  }

  lemma LastReference(pt: RefMap, count: seq<int>, r: Ref)
    requires Counted(pt, count) && r in pt
    ensures count[pt[r].frame] == 1 <==> Exclusive(pt, r)
  {
    var f := pt[r].frame;
    assert CountIs(pt, f, count);
    var others := Owners(pt, f) - {r};
    assert r in Owners(pt, f) && |others| == |Owners(pt, f)| - 1;
    if others == {} {
      forall s | s in pt && s != r ensures pt[s].frame != f { assert s !in others; }
    } else {
      var s :| s in others;
    }
  }

  /** A store to a page that is present, the user's and not writable needs a frame. */
  ghost function StoreNeed(pt: RefMap, p: Ref): nat {
    if p in pt && pt[p].u && !pt[p].w then 1 else 0
  }

  /** The same references leave as many frames free. */
  lemma SameFree(pt: RefMap, count: seq<int>, free: seq<nat>, pt': RefMap, count': seq<int>, free': seq<nat>)
    requires Inv(pt, count, free) && Inv(pt', count', free') && |count| == |count'|
    requires pt.Keys == pt'.Keys && forall r :: r in pt ==> pt[r].frame == pt'[r].frame
    ensures |free| == |free'|
  {
    FramesConserved(pt, count, free);
    FramesConserved(pt', count', free');
    forall f: nat ensures Unowned(pt, f) == Unowned(pt', f) {}
    assert InUse(pt, |count|) == InUse(pt', |count'|);
  }

  /** The loops over the pages below size end after n of them. */
  lemma InPages(i: nat, n: nat, size: nat)
    requires size <= KERNBASE && i <= n == PgUp(size)
    ensures if i * PGSIZE < size then i < n && i * PGSIZE < KERNBASE else i == n
  {
  }

  class AddressSpaces {
    var freelist: seq<nat>
    var count: seq<int>
    var mem: seq<Page>
    var pt: RefMap
    /** kalloc has been asked for a frame when there was none. */
    ghost var ranOut: bool

    ghost predicate Valid()
      reads this
    {
      Inv(pt, count, freelist) && |mem| == |count| && TabOk(pt)
    }

    ghost function View(): Contents
      reads this
    {
      Pages(pt, mem)
    }

    /** kinit: every frame is free. */
    constructor (n: nat)
      ensures Valid() && pt == map[] && |count| == n && |freelist| == n && !ranOut
    {
      freelist, count, mem, pt := seq(n, i requires 0 <= i => i), seq(n, _ => 0), seq(n, _ => Memset(1)), map[];
      ranOut := false;
      new;
      forall f: nat | f < n ensures CountIs(pt, f, count) {
        assert Owners(pt, f) == {};
      }
      forall f: nat | f < n ensures f in freelist {
        assert freelist[f] == f;
      }
    }

    /** kalloc: take the first free frame for r. */
    method Kalloc(r: Ref) returns (ok: bool)
      requires Valid() && r !in pt && !r.User? && (r.Table? ==> r.pdx < NPDENTRIES)
      modifies `freelist, `count, `pt, `ranOut
      ensures |count| == |old(count)|
      ensures Valid() && View() == old(View())
      ensures ok == (old(freelist) != []) && ranOut == (old(ranOut) || !ok)
      ensures !ok ==> pt == old(pt) && count == old(count) && freelist == old(freelist)
      ensures ok ==> Exclusive(pt, r) && pt == old(pt)[r := Entry(old(freelist)[0], false, false, false)]
      ensures ok ==> |freelist| == |old(freelist)| - 1
    {
      if freelist == [] {
        ranOut := true;
        return false;
      }
      var f := freelist[0];
      KallocKeepsInv(pt, count, freelist, r, Entry(f, false, false, false));
      freelist := freelist[1..];
      count := count[f := 1];
      pt := pt[r := Entry(f, false, false, false)];
      TabKept(old(pt), pt);
      ok := true;
    }

    /** Fill the frame that only r refers to. */
    method SetPage(r: Ref, page: Page)
      requires Valid() && Exclusive(pt, r)
      modifies `mem
      ensures Valid() && mem == old(mem)[pt[r].frame := page]
      ensures View() == if r.User? then old(View())[r := Slot(page, pt[r].u)] else old(View())
    {
      mem := mem[pt[r].frame := page];
    }

    /** kfree(the frame of r), r being then no reference any more. */
    method Kfree(r: Ref)
      requires Valid() && r in pt && (r.Table? ==> forall s :: s in pt && s.User? ==> Table(s.pid, s.vpn / NPTENTRIES) != r)
      modifies `freelist, `count, `mem, `pt
      ensures |count| == |old(count)|
      ensures Valid() && pt == old(pt) - {r} && View() == old(View()) - {r}
      ensures forall s :: s in pt ==> Same(old(mem), mem, pt[s].frame)
      ensures forall s :: Exclusive(old(pt), s) && s != r ==> Exclusive(pt, s)
      ensures |freelist| == |old(freelist)| + LastOne(old(pt), r)
    {
      var f := pt[r].frame;
      KfreeKeepsInv(pt, count, freelist, r);
      LastReference(pt, count, r);
      CountZero(pt, count, f);
      count := count[f := count[f] - 1];
      pt := pt - {r};
      TabKept(old(pt), pt);
      if count[f] == 0 {
        CountZero(pt, count, f);
        mem := mem[f := Memset(1)];
        freelist := [f] + freelist;
      }
    }

    /** walkpgdir(.., alloc = 1): make sure page v of pid has a page-table page. */
    method Walk(pid: nat, v: nat) returns (ok: bool)
      requires Valid() && v * PGSIZE < KERNBASE
      modifies `freelist, `count, `mem, `pt, `ranOut
      ensures |count| == |old(count)|
      ensures Valid() && View() == old(View()) && Ext(old(pt), pt, pid)
      ensures forall r :: r in old(pt) ==> pt[r] == old(pt)[r] && Same(old(mem), mem, pt[r].frame)
      ensures forall r :: Exclusive(old(pt), r) ==> Exclusive(pt, r)
      ensures forall r :: r in pt && r !in old(pt) ==> r == Table(pid, v / NPTENTRIES)
      ensures ok ==> Table(pid, v / NPTENTRIES) in pt
      ensures !ok ==> pt == old(pt) && freelist == []
      ensures if ok then |freelist| == |old(freelist)| - Miss(old(pt), pid, v) else |old(freelist)| < Miss(old(pt), pid, v)
      ensures ok ==> TableAdded(old(pt), pt, pid, v)
      ensures ranOut == (old(ranOut) || !ok)
    {
      var t := Table(pid, v / NPTENTRIES);
      ok := true;
      if t !in pt {
        ok := Kalloc(t);
        if ok { SetPage(t, Memset(0)); }
      }
    }

    /** *pte = e, the frame being the one in Local, for an entry with nothing in it. */
    method PutLocal(r: Ref, e: Entry)
      requires Valid() && Local in pt && r !in pt && r.User? && HasTable(pt, r)
      requires e.frame == pt[Local].frame && (e.w || e.cow) && (e.w ==> Exclusive(pt, Local))
      modifies `pt
      ensures Valid() && pt == (old(pt) - {Local})[r := e] && View() == old(View())[r := Slot(mem[e.frame], e.u)]
    {
      MoveKeepsInv(pt, count, freelist, Local, r, e);
      PagesMove(pt, mem, r, e);
      pt := (pt - {Local})[r := e];
      TabKept(old(pt), pt);
    }

    /** mappages of one page: move the frame held in Local into the entry of page v. */
    method MapPage(pid: nat, v: nat, w: bool, u: bool, cow: bool) returns (ok: bool)
      requires Valid() && Local in pt && User(pid, v) !in pt && v * PGSIZE < KERNBASE
      requires (w || cow) && (w ==> Exclusive(pt, Local))
      modifies `freelist, `count, `mem, `pt, `ranOut
      ensures |count| == |old(count)|
      ensures Valid()
      ensures !ok ==> pt == old(pt) && View() == old(View()) && freelist == []
      ensures ok ==> Local !in pt && Ext(old(pt) - {Local}, pt, pid)
      ensures ok ==> forall r :: r in old(pt) && r != Local ==> pt[r] == old(pt)[r]
      ensures ok ==> forall r :: r in pt && r.User? ==> r in old(pt) || r == User(pid, v)
      ensures ok ==> User(pid, v) in pt && pt[User(pid, v)] == Entry(old(pt)[Local].frame, w, u, cow)
      ensures ok ==> View() == old(View())[User(pid, v) := Slot(old(mem)[old(pt)[Local].frame], u)]
      ensures ok ==> |freelist| == |old(freelist)| - Miss(old(pt), pid, v) && TableAdded(old(pt), pt, pid, v)
      ensures !ok ==> |old(freelist)| < Miss(old(pt), pid, v)
      ensures ranOut == (old(ranOut) || !ok)
    {
      ok := Walk(pid, v);
      if ok {
        ghost var p1 := pt;
        PutLocal(User(pid, v), Entry(pt[Local].frame, w, u, cow));
        SameTables(pt, p1, old(pt), pid, v);
      }
    }

    /** mappages and, when it fails, kfree of the frame in Local: one way or the other Local is empty. */
    method MapLocal(pid: nat, v: nat, w: bool, u: bool, cow: bool) returns (ok: bool)
      requires Valid() && Local in pt && User(pid, v) !in pt && v * PGSIZE < KERNBASE
      requires (w || cow) && (w ==> Exclusive(pt, Local))
      modifies `freelist, `count, `mem, `pt, `ranOut
      ensures |count| == |old(count)| && ranOut == (old(ranOut) || !ok)
      ensures Valid() && Local !in pt && Ext(old(pt) - {Local}, pt, pid)
      ensures ok ==> User(pid, v) in pt && pt[User(pid, v)].frame == old(pt)[Local].frame
      ensures View() == if ok then old(View())[User(pid, v) := Slot(old(mem)[old(pt)[Local].frame], u)] else old(View())
      ensures ok ==> |freelist| == |old(freelist)| - Miss(old(pt), pid, v) && TableAdded(old(pt), pt, pid, v)
      ensures !ok ==> |old(freelist)| < Miss(old(pt), pid, v)
    {
      ok := MapPage(pid, v, w, u, cow);
      if !ok { Kfree(Local); }
    }

    /** kfree of page a of pid, if it is present; the pages from lo on to a are gone. */
    method DropPage(pid: nat, a: nat, ghost lo: nat, ghost p0: RefMap, ghost v0: Contents)
      requires Valid() && lo <= a && pt == DropRange(p0, pid, lo, a) && View() == DropRange(v0, pid, lo, a)
      modifies `freelist, `count, `mem, `pt
      ensures |count| == |old(count)| && |freelist| >= |old(freelist)|
      ensures Valid() && pt == DropRange(p0, pid, lo, a + 1) && View() == DropRange(v0, pid, lo, a + 1)
    {
      DropOne(p0, pid, lo, a);
      DropOne(v0, pid, lo, a);
      if User(pid, a) in pt {
        Kfree(User(pid, a));
      } else {
        assert User(pid, a) !in View();
      }
    }

    /** deallocuvm: drop the entries of the pages from newsz up to oldsz. */
    method Deallocuvm(pid: nat, oldsz: nat, newsz: nat) returns (r: nat)
      requires Valid() && oldsz <= KERNBASE
      modifies `freelist, `count, `mem, `pt
      ensures |count| == |old(count)|
      ensures Valid() && r == if newsz >= oldsz then oldsz else newsz
      ensures newsz >= oldsz ==> pt == old(pt) && View() == old(View())
      ensures newsz < oldsz ==>
        && pt == DropRange(old(pt), pid, PgUp(newsz), PgUp(oldsz))
        && View() == DropRange(old(View()), pid, PgUp(newsz), PgUp(oldsz))
      ensures |freelist| >= |old(freelist)|
    {
      if newsz >= oldsz { return oldsz; }
      var a := PgUp(newsz);
      ghost var p0, v0, c0, f0 := pt, View(), |count|, |freelist|;
      ghost var lo, hi, top := a, PgUp(oldsz), a;
      PgUpMono(newsz, oldsz);
      assert pt == DropRange(pt, pid, lo, lo) && View() == DropRange(View(), pid, lo, lo);
      while a * PGSIZE < oldsz
        invariant lo <= top <= hi && top == (if a < hi then a else hi) && Valid() && |count| == c0 && |freelist| >= f0
        invariant pt == DropRange(p0, pid, lo, top) && View() == DropRange(v0, pid, lo, top)
        decreases hi - top
      {
        InPages(top, hi, oldsz);
        if Table(pid, a / NPTENTRIES) !in pt {
          top := SkipMissing(pid, lo, a, hi, p0, v0);
          a := (a / NPTENTRIES + 1) * NPTENTRIES - 1;
        } else {
          DropPage(pid, a, lo, p0, v0);
          top := a + 1;
        }
        a := a + 1;
      }
      InPages(top, hi, oldsz);
      r := newsz;
    }

    /** Where the page-table page is missing, going on at the next one drops no less. */
    lemma SkipMissing(pid: nat, lo: nat, a: nat, hi: nat, p0: RefMap, v0: Contents) returns (top: nat)
      requires Valid() && Table(pid, a / NPTENTRIES) !in pt && lo <= a < hi
      requires pt == DropRange(p0, pid, lo, a) && View() == DropRange(v0, pid, lo, a)
      ensures var next := (a / NPTENTRIES + 1) * NPTENTRIES;
        a < next && top == if next < hi then next else hi
      ensures pt == DropRange(p0, pid, lo, top) && View() == DropRange(v0, pid, lo, top)
    {
      var next := (a / NPTENTRIES + 1) * NPTENTRIES;
      NoPagesWithoutTable(pid, a, next);
      top := if next < hi then next else hi;
      SkipTable(p0, pt, pid, lo, a, top);
      SkipTable(v0, View(), pid, lo, a, top);
    }

    lemma NoPagesWithoutTable(pid: nat, a: nat, next: nat)
      requires Valid() && Table(pid, a / NPTENTRIES) !in pt && next == (a / NPTENTRIES + 1) * NPTENTRIES
      ensures forall q :: q in pt ==> !InRange(q, pid, a, next)
    {
      forall q | q in pt ensures !InRange(q, pid, a, next) {
        assert HasTable(pt, q);
        if q.User? && a <= q.vpn < next { SameTable(a, q.vpn); }
      }
    }

    /** freevm: drop every reference of the address space, the directory last. */
    method Freevm(pid: nat)
      requires Valid() && Dir(pid) in pt
      modifies `freelist, `count, `mem, `pt
      ensures |count| == |old(count)|
      ensures Valid() && pt == DropAll(old(pt), pid) && View() == DropAll(old(View()), pid)
      ensures |freelist| >= |old(freelist)|
    {
      var _ := Deallocuvm(pid, KERNBASE, 0);
      assert PgUp(0) == 0;
      NoUserLeft(old(pt), old(View()), pid);
      ghost var p1 := pt;
      FreeTables(pid);
      assert Dir(pid) in pt;
      Kfree(Dir(pid));
      NothingLeft(old(pt), p1, pid);
    }

    method DropTable(r: Ref)
      requires Valid() && r in pt && r.Table? && forall s :: s in pt && s.User? ==> s.pid != r.pid
      modifies `freelist, `count, `mem, `pt
      ensures |count| == |old(count)| && |freelist| >= |old(freelist)|
      ensures Valid() && pt == old(pt) - {r} && View() == old(View())
    {
      assert r !in View();
      Kfree(r);
      assert old(View()) - {r} == old(View());
    }

    method FreeTables(pid: nat)
      requires Valid() && forall q :: q in pt ==> !(q.User? && q.pid == pid)
      modifies `freelist, `count, `mem, `pt
      ensures |count| == |old(count)|
      ensures Valid() && View() == old(View())
      ensures pt == WithoutTables(old(pt), pid, NPDENTRIES) && |freelist| >= |old(freelist)|
    {
      var i := 0;
      assert WithoutTables(pt, pid, 0) == pt;
      while i < NPDENTRIES
        invariant i <= NPDENTRIES && Valid() && View() == old(View()) && |count| == |old(count)|
        invariant pt == WithoutTables(old(pt), pid, i) && |freelist| >= |old(freelist)|
      {
        if Table(pid, i) in pt {
          DropTable(Table(pid, i));
        }
        i := i + 1;
        assert WithoutTables(old(pt), pid, i) == WithoutTables(old(pt), pid, i - 1) - {Table(pid, i - 1)};
      }
    }

    /** setupkvm: a directory and the 64 page-table pages of the kernel's mappings, or nothing. */
    method Setupkvm(pid: nat) returns (ok: bool)
      requires Valid() && NoneOf(pt, pid) && Local !in pt
      modifies `freelist, `count, `mem, `pt, `ranOut
      ensures |count| == |old(count)|
      ensures Valid() && View() == old(View()) && Local !in pt && Ext(old(pt), pt, pid)
      ensures !ok ==> pt.Keys == old(pt).Keys
      ensures ok ==> Dir(pid) in pt && forall j: nat :: j < NPDENTRIES && KernelSlot(j) ==> Table(pid, j) in pt
      ensures ranOut == (old(ranOut) || !ok)
      ensures ok <==> |old(freelist)| >= 65
      ensures |freelist| == |old(freelist)| - if ok then 65 else 0
      ensures ok ==> UserTables(pt, pid, 0)
    {
      ok := Kalloc(Dir(pid));
      if !ok { return; }
      SetPage(Dir(pid), Memset(0));
      ghost var p1 := pt;
      ok := KernelTables(pid);
      ExtTrans(old(pt), p1, pt, pid);
      if !ok {
        AbandonAll(pid, old(pt), old(View()), old(count), old(freelist));
      }
    }

    method KernelTables(pid: nat) returns (ok: bool)
      requires Valid() && Local !in pt && forall q :: q in pt && Of(q, pid) ==> !q.Table?
      modifies `freelist, `count, `mem, `pt, `ranOut
      ensures |count| == |old(count)|
      ensures Valid() && View() == old(View()) && Local !in pt && Ext(old(pt), pt, pid)
      ensures ranOut == (old(ranOut) || !ok)
      ensures ok ==> forall j: nat :: j < NPDENTRIES && KernelSlot(j) ==> Table(pid, j) in pt
      ensures ok <==> |old(freelist)| >= 64
      ensures ok ==> |freelist| == |old(freelist)| - 64 && UserTables(pt, pid, 0)
    {
      var i := 0;
      ok := true;
      ghost var f0 := |freelist|;
      while i < NPDENTRIES && ok
        invariant i <= NPDENTRIES && Valid() && View() == old(View()) && Ext(old(pt), pt, pid) && Local !in pt
        invariant forall q :: q in pt && Of(q, pid) && q.Table? ==> q.pdx < i && KernelSlot(q.pdx)
        invariant ranOut == (old(ranOut) || !ok)
        invariant ok ==> forall j: nat :: j < i && KernelSlot(j) ==> Table(pid, j) in pt
        invariant |count| == |old(count)|
        invariant if ok then |freelist| + SlotsUpTo(i) == f0 else f0 < 64
      {
        SlotsNext(i);
        if KernelSlot(i) {
          ok := Kalloc(Table(pid, i));
          if ok { SetPage(Table(pid, i), Memset(0)); }
        }
        i := i + 1;
      }
      forall x: nat | x < 512 ensures InFirst(pt, pid, 0, x) { SlotsNext(x); }
    }

    /** freevm of an address space under construction: everything is as it was before it was begun. */
    method Abandon(child: nat, ghost p0: RefMap, ghost v0: Contents, ghost c: Contents)
      requires Valid() && Local !in pt && Dir(child) in pt && Ext(p0, pt, child) && NoneOf(p0, child)
      requires View() == v0 + c && v0.Keys <= p0.Keys && forall r :: r in c ==> Of(r, child)
      modifies `freelist, `count, `mem, `pt
      ensures |count| == |old(count)|
      ensures Valid() && Local !in pt && Ext(p0, pt, child) && pt.Keys == p0.Keys && View() == v0
    {
      ExtUndone(p0, pt, child);
      ViewUndone(v0, c, child);
      Freevm(child);
    }

    /** The same before there is any page: as many frames are free as before. */
    method AbandonAll(child: nat, ghost p0: RefMap, ghost v0: Contents, ghost c0: seq<int>, ghost free0: seq<nat>)
      requires Valid() && Local !in pt && Dir(child) in pt && Ext(p0, pt, child) && NoneOf(p0, child)
      requires View() == v0 && v0.Keys <= p0.Keys && Inv(p0, c0, free0) && |c0| == |count|
      modifies `freelist, `count, `mem, `pt
      ensures |count| == |old(count)|
      ensures Valid() && Local !in pt && Ext(p0, pt, child) && pt.Keys == p0.Keys && View() == v0
      ensures |freelist| == |free0|
    {
      assert v0 + map[] == v0;
      Abandon(child, p0, v0, map[]);
      SameFree(p0, c0, free0, pt, count, freelist);
    }

    /** Take PTE_W from an entry and note that it is copy-on-write. */
    method Protect(r: Ref)
      requires Valid() && r in pt && r.User?
      modifies `pt
      ensures Valid() && View() == old(View()) && pt == old(pt)[r := old(pt)[r].(w := false, cow := true)]
    {
      ProtectKeepsInv(pt, count, freelist, r);
      pt := pt[r := pt[r].(w := false, cow := true)];
      TabKept(old(pt), pt);
    }

    /** One round of the copy-on-write loop: protect the parent's entry, count, map it in the child. */
    method ShareOne(parent: nat, child: nat, i: nat) returns (ok: bool)
      requires Valid() && Local !in pt && User(parent, i) in pt && User(child, i) !in pt && i * PGSIZE < KERNBASE
      modifies `freelist, `count, `mem, `pt, `ranOut
      ensures |count| == |old(count)|
      ensures Valid() && Local !in pt && Ext(old(pt), pt, child)
      ensures View() == if ok then old(View())[User(child, i) := old(View())[User(parent, i)]] else old(View())
      ensures ranOut == (old(ranOut) || !ok)
      ensures ok ==> Shared(pt, User(parent, i), User(child, i))
      ensures ok ==> |freelist| == |old(freelist)| - Miss(old(pt), child, i) && TableAdded(old(pt), pt, child, i)
      ensures !ok ==> |old(freelist)| < Miss(old(pt), child, i)
    {
      var r := User(parent, i);
      var e := pt[r];
      Protect(r);
      IncrementRefCount(r, e.frame);
      assert mem[e.frame] == View()[r].page && Ext(old(pt), pt - {Local}, child);
      ghost var p1 := pt;
      ok := MapLocal(child, i, false, e.u, true);
      SameTables(old(pt), p1, pt, child, i);
    }

    /** incrementRefCount: the running code holds one more reference to r's frame. */
    method IncrementRefCount(r: Ref, f: nat)
      requires Valid() && r in pt && r.User? && !pt[r].w && Local !in pt && f == pt[r].frame
      modifies `count, `pt
      ensures |count| == |old(count)|
      ensures Valid() && View() == old(View()) && pt == old(pt)[Local := Entry(f, false, false, false)]
    {
      ShareKeepsInv(pt, count, freelist, r, Local, Entry(f, false, false, false));
      count := count[f := count[f] + 1];
      pt := pt[Local := Entry(f, false, false, false)];
      TabKept(old(pt), pt);
    }

    /** A new frame, with the contents of the page r, held in a local variable. */
    method CopyToLocal(r: Ref) returns (ok: bool)
      requires Valid() && Local !in pt && r in pt && r.User?
      modifies `freelist, `count, `mem, `pt, `ranOut
      ensures |count| == |old(count)|
      ensures Valid() && View() == old(View()) && ok == (old(freelist) != []) && ranOut == (old(ranOut) || !ok)
      ensures !ok ==> pt == old(pt)
      ensures ok ==> Exclusive(pt, Local) && pt == old(pt)[Local := pt[Local]]
      ensures ok ==> mem[pt[Local].frame] == old(View())[r].page && |freelist| == |old(freelist)| - 1
    {
      var pa := pt[r].frame;
      ok := Kalloc(Local);
      if ok { SetPage(Local, mem[pa]); }
    }

    /** One round of the eager loop: a new frame, a copy of the page, a mapping in the child. */
    method CopyOne(parent: nat, child: nat, i: nat) returns (ok: bool)
      requires Valid() && Local !in pt && User(parent, i) in pt && User(child, i) !in pt && i * PGSIZE < KERNBASE
      modifies `freelist, `count, `mem, `pt, `ranOut
      ensures |count| == |old(count)|
      ensures Valid() && Local !in pt && Ext(old(pt), pt, child)
      ensures View() == if ok then old(View())[User(child, i) := old(View())[User(parent, i)]] else old(View())
      ensures ranOut == (old(ranOut) || !ok)
      ensures ok ==> |freelist| == |old(freelist)| - 1 - Miss(old(pt), child, i) && TableAdded(old(pt), pt, child, i)
      ensures !ok ==> |old(freelist)| < 1 + Miss(old(pt), child, i)
    {
      var e := pt[User(parent, i)];
      ok := CopyToLocal(User(parent, i));
      if !ok { return; }
      assert Usable(pt, User(parent, i));
      ghost var p1 := pt;
      ok := MapLocal(child, i, e.w, e.u, e.cow);
      SameTables(old(pt), p1, pt, child, i);
    }

    /** One round of either loop, in terms of where the loop began. */
    method CopyStep(parent: nat, child: nat, i: nat, cow: bool, ghost p0: RefMap, ghost v0: Contents) returns (ok: bool)
      requires Valid() && Local !in pt && Ext(p0, pt, child) && User(parent, i) in p0 && NoneOf(p0, child)
      requires v0.Keys <= p0.Keys && User(parent, i) in v0 && View() == v0 + Copies(v0, parent, child, i)
      requires parent != child && i * PGSIZE < KERNBASE
      modifies `freelist, `count, `mem, `pt, `ranOut
      ensures |count| == |old(count)|
      ensures Valid() && Local !in pt && Ext(p0, pt, child)
      ensures Dir(child) in old(pt) ==> Dir(child) in pt
      ensures View() == v0 + Copies(v0, parent, child, if ok then i + 1 else i)
      ensures forall r :: r in Copies(v0, parent, child, i) ==> Of(r, child)
      ensures ranOut == (old(ranOut) || !ok)
      ensures ok && cow && AllShared(old(pt), parent, child, i) ==> AllShared(pt, parent, child, i + 1)
      ensures var need := Miss(old(pt), child, i) + if cow then 0 else 1;
        if ok then |freelist| == |old(freelist)| - need && TableAdded(old(pt), pt, child, i) else |old(freelist)| < need
    {
      CopiesKeys(v0, parent, child, i);
      CopiesNext(v0, parent, child, i, i);
      ExtendCopies(v0, parent, child, i);
      assert User(child, i) !in View();
      if cow {
        ok := ShareOne(parent, child, i);
        if ok && AllShared(old(pt), parent, child, i) { ShareOneMore(old(pt), pt, parent, child, i); }
      } else {
        ok := CopyOne(parent, child, i);
      }
      ExtTrans(p0, old(pt), pt, child);
    }

    /** copyuvm, copy on write (cow) or eager: the child sees the parent's pages. */
    method Copyuvm(parent: nat, child: nat, size: nat, cow: bool) returns (ok: bool)
      requires Valid() && NoneOf(pt, child) && Local !in pt && size < KERNBASE && parent != child
      requires forall v: nat :: v < PgUp(size) ==> User(parent, v) in pt
      modifies `freelist, `count, `mem, `pt, `ranOut
      ensures |count| == |old(count)|
      ensures Valid() && Local !in pt && Ext(old(pt), pt, child)
      ensures ok ==> View() == old(View()) + Copies(old(View()), parent, child, PgUp(size)) && Dir(child) in pt
      ensures !ok ==> View() == old(View()) && pt.Keys == old(pt).Keys && count == old(count)
      ensures ranOut == (old(ranOut) || !ok)
      ensures ok && cow ==> AllShared(pt, parent, child, PgUp(size))
      ensures ok <==> |old(freelist)| >= CopyNeed(PgUp(size), cow)
      ensures |freelist| == |old(freelist)| - if ok then CopyNeed(PgUp(size), cow) else 0
    {
      ok := Setupkvm(child);
      assert Copies(old(View()), parent, child, 0) == map[];
      TakenMono(0, PgUp(size), cow);
      TakenIsNeed(PgUp(size), cow);
      if ok { ok := CopyPages(parent, child, size, cow, PgUp(size), old(pt), old(View()), |old(freelist)|); }
      if !ok {
        CountsDetermined(old(pt), pt, old(count), count);
        SameFree(old(pt), old(count), old(freelist), pt, count, freelist);
      }
    }

    /** copyuvm, begun at references p0 and contents v0 with f0 free frames, has made the child's first i pages. */
    ghost predicate Copying(parent: nat, child: nat, i: nat, cow: bool, p0: RefMap, v0: Contents, f0: nat)
      reads this
    {
      && UserTables(pt, child, i) && |freelist| + Taken(i, cow) == f0
      && Valid() && Local !in pt && Ext(p0, pt, child)
      && Dir(child) in pt && View() == v0 + Copies(v0, parent, child, i)
      && (cow ==> AllShared(pt, parent, child, i))
    }

    /** One round of either loop; when it fails, copyuvm's freevm. */
    method CopyRound(parent: nat, child: nat, i: nat, cow: bool, ghost p0: RefMap, ghost v0: Contents, ghost f0: nat, ghost n: nat)
      returns (ok: bool)
      requires NoneOf(p0, child) && v0.Keys <= p0.Keys && Copying(parent, child, i, cow, p0, v0, f0) && Present(p0, v0, User(parent, i))
      requires parent != child && i * PGSIZE < KERNBASE && i < n
      modifies `freelist, `count, `mem, `pt, `ranOut
      ensures |count| == |old(count)|
      ensures if ok then Copying(parent, child, i + 1, cow, p0, v0, f0)
              else Valid() && Local !in pt && Ext(p0, pt, child) && View() == v0 && pt.Keys == p0.Keys && f0 < Taken(n, cow)
      ensures ranOut == (old(ranOut) || !ok)
    {
      TakenNext(pt, child, i, cow);
      TakenMono(i + 1, n, cow);
      ok := CopyStep(parent, child, i, cow, p0, v0);
      if ok { UserTablesNext(old(pt), pt, child, i); }
      if !ok { Abandon(child, p0, v0, Copies(v0, parent, child, i)); }
    }

    /** The loop of copyuvm. */
    method CopyPages(parent: nat, child: nat, size: nat, cow: bool, ghost n: nat, ghost p0: RefMap, ghost v0: Contents, ghost f0: nat)
      returns (ok: bool)
      requires NoneOf(p0, child) && v0.Keys <= p0.Keys && Copying(parent, child, 0, cow, p0, v0, f0) && size < KERNBASE && parent != child
      requires n == PgUp(size)
      requires forall v: nat :: v < n ==> Present(p0, v0, User(parent, v))
      modifies `freelist, `count, `mem, `pt, `ranOut
      ensures |count| == |old(count)|
      ensures if ok then Copying(parent, child, n, cow, p0, v0, f0)
              else Valid() && Local !in pt && Ext(p0, pt, child) && View() == v0 && pt.Keys == p0.Keys && f0 < Taken(n, cow)
      ensures ranOut == (old(ranOut) || !ok)
    {
      var i := 0;
      ok := true;
      while i * PGSIZE < size
        invariant i <= n && ok && Copying(parent, child, i, cow, p0, v0, f0)
        invariant |count| == |old(count)| && ranOut == old(ranOut)
      {
        InPages(i, n, size);
        assert Present(p0, v0, User(parent, i));
        ok := CopyRound(parent, child, i, cow, p0, v0, f0, n);
        if !ok { return; }
        i := i + 1;
      }
      InPages(i, n, size);
    }

    /** handle_pgflt_helper, past its panics: give the faulting page a writable frame of its own. */
    method HandleFault(pid: nat, v: nat) returns (ok: bool)
      requires Valid() && Local !in pt && User(pid, v) in pt && pt[User(pid, v)].u
      modifies `freelist, `count, `mem, `pt, `ranOut
      ensures |count| == |old(count)|
      ensures Valid() && Local !in pt && View() == old(View()) && pt.Keys == old(pt).Keys
      ensures ok == (old(freelist) != [])
      ensures !ok ==> pt == old(pt)
      ensures ok ==> pt[User(pid, v)].w && pt[User(pid, v)].u
      ensures forall q :: q in pt && q != User(pid, v) ==> pt[q] == old(pt)[q]
      ensures ranOut == (old(ranOut) || !ok)
      ensures ok ==> |freelist| == |old(freelist)| - 1 + LastOne(old(pt), User(pid, v))
    {
      var r := User(pid, v);
      ok := CopyToLocal(r);
      if ok {
        assert Exclusive(pt, r) <==> Exclusive(old(pt), r) by { SameLast(old(pt), pt, r); }
        InstallLocal(r);
      }
    }

    /** The page fault's end: the old frame of r loses a reference and r gets the frame in Local, writable. */
    method InstallLocal(r: Ref)
      requires Valid() && Local in pt && Exclusive(pt, Local) && r in pt && r.User? && pt[r].u
      requires mem[pt[Local].frame] == View()[r].page
      modifies `freelist, `count, `mem, `pt
      ensures |count| == |old(count)|
      ensures Valid() && pt == (old(pt) - {Local})[r := Entry(old(pt)[Local].frame, true, true, false)] && View() == old(View())
      ensures |freelist| == |old(freelist)| + LastOne(old(pt), r)
    {
      ghost var p0, v0 := pt, View();
      assert HasTable(pt, r);
      Kfree(r);
      Restored(v0, r);
      var e := Entry(pt[Local].frame, true, true, false);
      PutLocal(r, e);
      assert pt == (p0 - {Local})[r := e];
    }

    /** A user store of one byte, through the page fault when the entry is not writable. */
    method Store(pid: nat, va: nat, b: nat) returns (r: Access)
      requires Valid() && Local !in pt
      modifies `freelist, `count, `mem, `pt, `ranOut
      ensures |count| == |old(count)|
      ensures Valid() && Local !in pt && pt.Keys == old(pt).Keys
      ensures var p := User(pid, va / PGSIZE);
        if p !in old(View()) || !old(View())[p].user then r == Fault && View() == old(View())
        else if r == NoMem then View() == old(View()) && old(freelist) == []
        else r == Done && View() == old(View())[p := Slot(old(View())[p].page[va % PGSIZE := b], true)]
      ensures ranOut == (old(ranOut) || r == NoMem)
      ensures r == NoMem <==> |old(freelist)| < StoreNeed(old(pt), User(pid, va / PGSIZE))
      ensures var p := User(pid, va / PGSIZE);
        r != NoMem ==> |freelist| == |old(freelist)| - if StoreNeed(old(pt), p) == 1 then 1 - LastOne(old(pt), p) else 0
    {
      var p := User(pid, va / PGSIZE);
      if p !in pt || !pt[p].u { return Fault; }
      if !pt[p].w {
        var ok := HandleFault(pid, va / PGSIZE);
        if !ok { return NoMem; }
      }
      WritableExclusive(pt, p);
      SetPage(p, mem[pt[p].frame][va % PGSIZE := b]);
      r := Done;
    }

    /** A user load of one byte. */
    method Load(pid: nat, va: nat) returns (r: Access)
      requires Valid()
      ensures var p := User(pid, va / PGSIZE);
        r == if p in View() && View()[p].user then Val(View()[p].page[va % PGSIZE]) else Fault
    {
      var p := User(pid, va / PGSIZE);
      if p in pt && pt[p].u {
        r := Val(mem[pt[p].frame][va % PGSIZE]);
      } else {
        r := Fault;
      }
    }

    /** One round of allocuvm: a zeroed frame mapped at page a. */
    method GrowOne(pid: nat, a: nat) returns (ok: bool)
      requires Valid() && Local !in pt && User(pid, a) !in pt && a * PGSIZE < KERNBASE
      modifies `freelist, `count, `mem, `pt, `ranOut
      ensures |count| == |old(count)|
      ensures Valid() && Local !in pt && Ext(old(pt), pt, pid)
      ensures View() == if ok then old(View())[User(pid, a) := Slot(Memset(0), true)] else old(View())
      ensures ranOut == (old(ranOut) || !ok)
      ensures ok ==> |freelist| == |old(freelist)| - 1 - Miss(old(pt), pid, a) && TableAdded(old(pt), pt, pid, a)
      ensures !ok ==> |old(freelist)| < 1 + Miss(old(pt), pid, a)
    {
      ok := Kalloc(Local);
      if !ok { return; }
      SetPage(Local, Memset(0));
      ghost var p1 := pt;
      ok := MapLocal(pid, a, true, true, false);
      SameTables(old(pt), p1, pt, pid, a);
    }

    method GrowStep(pid: nat, a: nat, ghost lo: nat, ghost n: nat, ghost p0: RefMap, ghost v0: Contents) returns (ok: bool)
      requires Valid() && Local !in pt && Ext(p0, pt, pid) && a == lo + n && a * PGSIZE < KERNBASE
      requires User(pid, a) !in p0 && v0.Keys <= p0.Keys && View() == v0 + Zeros(pid, lo, n)
      modifies `freelist, `count, `mem, `pt, `ranOut
      ensures |count| == |old(count)|
      ensures Valid() && Local !in pt && Ext(p0, pt, pid)
      ensures View() == v0 + Zeros(pid, lo, if ok then n + 1 else n)
      ensures ranOut == (old(ranOut) || !ok)
      ensures ok ==> |freelist| == |old(freelist)| - 1 - Miss(old(pt), pid, a) && TableAdded(old(pt), pt, pid, a)
      ensures !ok ==> |old(freelist)| < 1 + Miss(old(pt), pid, a)
    {
      ZerosNext(pid, lo, n, n);
      ExtendZeros(v0, pid, lo, n);
      assert User(pid, a) !in View();
      ok := GrowOne(pid, a);
      ExtTrans(p0, old(pt), pt, pid);
    }

    /** deallocuvm after a failed growth: the view is what it was. */
    method UndoGrow(pid: nat, newsz: nat, oldsz: nat, ghost p0: RefMap, ghost v0: Contents, ghost c: Contents)
      requires Valid() && Local !in pt && Ext(p0, pt, pid) && View() == v0 + c && oldsz < newsz <= KERNBASE
      requires v0.Keys <= p0.Keys && forall r :: r in p0 ==> !InRange(r, pid, PgUp(oldsz), PgUp(newsz))
      requires forall r :: r in c ==> InRange(r, pid, PgUp(oldsz), PgUp(newsz))
      modifies `freelist, `count, `mem, `pt
      ensures |count| == |old(count)|
      ensures Valid() && Local !in pt && Ext(p0, pt, pid) && View() == v0
    {
      RangeUndone(v0, c, pid, PgUp(oldsz), PgUp(newsz));
      ExtTrim(p0, pt, pid, PgUp(oldsz), PgUp(newsz));
      var _ := Deallocuvm(pid, newsz, oldsz);
    }

    /**
     allocuvm: the new size, or 0 when the request is out of range or frames ran out. (On failure the
     source frees the unmapped frame after deallocuvm rather than before; the two touch different frames.)
     */
    method Allocuvm(pid: nat, oldsz: nat, newsz: nat) returns (r: nat)
      requires Valid() && Local !in pt
      requires PagesBelow(pt, pid, PgUp(oldsz))
      modifies `freelist, `count, `mem, `pt, `ranOut
      ensures |count| == |old(count)|
      ensures Valid() && Local !in pt && Ext(old(pt), pt, pid)
      ensures newsz >= KERNBASE ==> r == 0 && View() == old(View()) && freelist == old(freelist)
      ensures newsz < KERNBASE && newsz < oldsz ==> r == oldsz && View() == old(View()) && freelist == old(freelist)
      ensures newsz < KERNBASE && oldsz <= newsz ==>
        && PgUp(oldsz) <= PgUp(newsz)
        && var need := GrowNeed(old(pt), pid, PgUp(oldsz), PgUp(newsz));
           && (|old(freelist)| >= need ==>
                && r == newsz && |freelist| == |old(freelist)| - need
                && View() == old(View()) + Zeros(pid, PgUp(oldsz), PgUp(newsz) - PgUp(oldsz)))
           && (|old(freelist)| < need ==> r == 0 && oldsz < newsz && View() == old(View()))
      ensures ranOut == (old(ranOut) || (r == 0 && newsz < KERNBASE && oldsz < newsz))
    {
      if newsz >= KERNBASE { return 0; }
      if newsz < oldsz { return oldsz; }
      PgUpMono(oldsz, newsz);
      NoneGrabbed(pt, pid, PgUp(oldsz));
      GrabbedIsNeed(pt, pid, PgUp(oldsz), PgUp(newsz) - PgUp(oldsz));
      assert View() + Zeros(pid, PgUp(oldsz), 0) == View();
      var ok := GrowPages(pid, oldsz, newsz, PgUp(oldsz), PgUp(newsz) - PgUp(oldsz), pt, View(), |freelist|);
      r := if ok then newsz else 0;
    }

    /** allocuvm, begun at references p0 and contents v0 with f0 free frames, has added n pages. */
    ghost predicate Growing(pid: nat, lo: nat, n: nat, p0: RefMap, v0: Contents, f0: nat)
      reads this
    {
      && Valid() && Local !in pt && Ext(p0, pt, pid) && View() == v0 + Zeros(pid, lo, n)
      && TablesNow(p0, pt, pid, lo, n) && |freelist| + Grabbed(p0, pid, lo, n) == f0
    }

    /** One round of allocuvm; when it fails, its deallocuvm. */
    method GrowRound(pid: nat, oldsz: nat, newsz: nat, a: nat, ghost lo: nat, ghost n: nat, ghost m: nat,
                     ghost p0: RefMap, ghost v0: Contents, ghost f0: nat)
      returns (ok: bool)
      requires Growing(pid, lo, n, p0, v0, f0) && lo == PgUp(oldsz) && a == lo + n && a * PGSIZE < newsz < KERNBASE
      requires PagesBelow(p0, pid, lo) && v0.Keys <= p0.Keys && n < m
      modifies `freelist, `count, `mem, `pt, `ranOut
      ensures |count| == |old(count)|
      ensures if ok then Growing(pid, lo, n + 1, p0, v0, f0)
              else Valid() && Local !in pt && Ext(p0, pt, pid) && View() == v0 && f0 < Grabbed(p0, pid, lo, m)
      ensures ranOut == (old(ranOut) || !ok)
    {
      GrabbedNext(p0, pt, pid, lo, n, a);
      GrabbedMono(p0, pid, lo, n + 1, m);
      ok := GrowStep(pid, a, lo, n, p0, v0);
      if ok {
        TablesNowNext(p0, old(pt), pt, pid, lo, n, a);
      } else {
        ZerosKeys(pid, lo, n);
        UndoGrow(pid, newsz, oldsz, p0, v0, Zeros(pid, lo, n));
      }
    }

    /** The loop of allocuvm, over m pages from lo on. */
    method GrowPages(pid: nat, oldsz: nat, newsz: nat, ghost lo: nat, ghost m: nat, ghost p0: RefMap, ghost v0: Contents, ghost f0: nat)
      returns (ok: bool)
      requires Growing(pid, lo, 0, p0, v0, f0) && PagesBelow(p0, pid, lo) && v0.Keys <= p0.Keys
      requires newsz < KERNBASE && lo == PgUp(oldsz) && lo + m == PgUp(newsz)
      modifies `freelist, `count, `mem, `pt, `ranOut
      ensures |count| == |old(count)|
      ensures if ok then Growing(pid, lo, m, p0, v0, f0)
              else Valid() && Local !in pt && Ext(p0, pt, pid) && View() == v0 && f0 < Grabbed(p0, pid, lo, m)
      ensures ranOut == (old(ranOut) || !ok)
    {
      var a := PgUp(oldsz);
      ghost var n := 0;
      ok := true;
      while a * PGSIZE < newsz
        invariant a == lo + n && n <= m && ok && Growing(pid, lo, n, p0, v0, f0)
        invariant |count| == |old(count)| && ranOut == old(ranOut)
        decreases m - n
      {
        InPages(a, lo + m, newsz);
        ok := GrowRound(pid, oldsz, newsz, a, lo, n, m, p0, v0, f0);
        if !ok { return; }
        a, n := a + 1, n + 1;
      }
      InPages(a, lo + m, newsz);
    }
  }

  lemma ExtTrim(a: RefMap, b: RefMap, pid: nat, lo: nat, hi: nat)
    requires Ext(a, b, pid) && forall r :: r in a ==> !InRange(r, pid, lo, hi)
    ensures Ext(a, DropRange(b, pid, lo, hi), pid)
  {
  }

  ghost function WithoutTables(pt: RefMap, pid: nat, n: nat): RefMap {
    map q | q in pt && !(q.Table? && q.pid == pid && q.pdx < n) :: pt[q]
  }

  lemma NothingLeft(pt: RefMap, p1: RefMap, pid: nat)
    requires TabOk(pt) && p1 == DropRange(pt, pid, 0, PgUp(KERNBASE))
    requires forall r :: r in p1 ==> !(r.User? && r.pid == pid)
    ensures WithoutTables(p1, pid, NPDENTRIES) - {Dir(pid)} == DropAll(pt, pid)
  {
    forall r | r in p1 ensures r.Table? ==> r.pdx < NPDENTRIES {
      assert HasTable(pt, r);
    }
  }

  /** Below KERNBASE is everywhere a user page can be. */
  lemma NoUserLeft(pt: RefMap, v: Contents, pid: nat)
    requires TabOk(pt) && v.Keys <= pt.Keys && forall r :: r in v ==> r.User?
    ensures forall r :: r in DropRange(pt, pid, 0, PgUp(KERNBASE)) ==> !(r.User? && r.pid == pid)
    ensures DropAll(v, pid) == DropRange(v, pid, 0, PgUp(KERNBASE))
  {
    forall r | r in pt ensures r.User? ==> r.vpn < PgUp(KERNBASE) {
      assert HasTable(pt, r);
    }
  }

  datatype Access = Val(b: nat) | Done | Fault | NoMem

  /** A writable mapping is the only reference to its frame. */
  lemma WritableExclusive(pt: RefMap, r: Ref)
    requires Private(pt) && r in pt && pt[r].w
    ensures Exclusive(pt, r)
  {
    forall s | s in pt && s != r ensures pt[s].frame != pt[r].frame {
      assert Compatible(pt, r, s);
    }
  }
}
