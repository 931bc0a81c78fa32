/**
 Copy-on-write fork against eager fork: processes created, grown, shrunk, forked, freed and making
 loads and stores. Both kernels answer every operation as one plain map of page contents does, so
 no program can tell them apart while neither runs out of frames.
 */
module CowRefinesEager {
  import opened Frames
  import opened Vm

  /** What processes see: the contents of their pages, and their sizes in bytes. */
  datatype Space = Space(pages: Contents, sz: map<nat, nat>)

  datatype Op =
    | Spawn(pid: nat)
    | Grow(pid: nat, newsz: nat)
    | Shrink(pid: nat, newsz: nat)
    | Fork(pid: nat, child: nat)
    | Free(pid: nat)
    | Read(pid: nat, va: nat)
    | Write(pid: nat, va: nat, b: nat)

  /** Every page below the size of the process is present: copyuvm meets no panic. */
  ghost predicate Full(s: Space, pid: nat)
    requires pid in s.sz
  {
    forall v: nat :: v < PgUp(s.sz[pid]) ==> User(pid, v) in s.pages
  }

  /** Operations that the source's panics do not rule out. */
  ghost predicate Enabled(s: Space, op: Op) {
    match op
    case Spawn(pid) => pid !in s.sz
    case Grow(pid, newsz) => pid in s.sz && newsz > s.sz[pid]
    case Shrink(pid, newsz) => pid in s.sz && newsz < s.sz[pid]
    case Fork(pid, child) =>
      pid in s.sz && child !in s.sz && Full(s, pid)
    case Free(pid) => pid in s.sz
    case Read(pid, _) => pid in s.sz
    case Write(pid, _, _) => pid in s.sz
  }

  /** Zeroed pages up to the new size. */
  ghost function Grown(s: Space, pid: nat, newsz: nat): Space
    requires pid in s.sz && s.sz[pid] < newsz
  {
    PgUpMono(s.sz[pid], newsz);
    Space(s.pages + Zeros(pid, PgUp(s.sz[pid]), PgUp(newsz) - PgUp(s.sz[pid])), s.sz[pid := newsz])
  }

  /** One operation on private copies, with no frames and no sharing. */
  ghost function Step(s: Space, op: Op): (Space, Access)
    requires Enabled(s, op)
  {
    match op
    case Spawn(pid) => (s.(sz := s.sz[pid := 0]), Done)
    case Grow(pid, newsz) =>
      if newsz >= KERNBASE then (s, Fault) else (Grown(s, pid, newsz), Done)
    case Shrink(pid, newsz) =>
      var pages := DropRange(s.pages, pid, PgUp(newsz), PgUp(s.sz[pid]));
      // growproc takes a new size of 0 for a failure and leaves proc->sz alone
      if newsz == 0 then (s.(pages := pages), Fault) else (Space(pages, s.sz[pid := newsz]), Done)
    case Fork(pid, child) =>
      (Space(s.pages + Copies(s.pages, pid, child, PgUp(s.sz[pid])), s.sz[child := s.sz[pid]]), Done)
    case Free(pid) => (Space(DropAll(s.pages, pid), s.sz - {pid}), Done)
    case Read(pid, va) =>
      var p := User(pid, va / PGSIZE);
      (s, if p in s.pages && s.pages[p].user then Val(s.pages[p].page[va % PGSIZE]) else Fault)
    case Write(pid, va, b) =>
      var p := User(pid, va / PGSIZE);
      if p in s.pages && s.pages[p].user then
        (s.(pages := s.pages[p := Slot(s.pages[p].page[va % PGSIZE := b], true)]), Done)
      else (s, Fault)
  }

  // ---- How many frames an operation needs ------------------------------------------------------------

  /** The free frames without which kalloc fails, from the references there are. */
  ghost function Need(s: Space, pt: RefMap, cow: bool, op: Op): nat
    requires Enabled(s, op)
  {
    match op
    case Spawn(_) => 65
    case Grow(pid, newsz) =>
      PgUpMono(s.sz[pid], newsz);
      if newsz >= KERNBASE then 0 else GrowNeed(pt, pid, PgUp(s.sz[pid]), PgUp(newsz))
    case Fork(pid, _) => CopyNeed(PgUp(s.sz[pid]), cow)
    case Write(pid, va, _) => StoreNeed(pt, User(pid, va / PGSIZE))
    case _ => 0
  }

  /** The most it can need whatever is shared and whichever page-table pages there are. */
  ghost function Most(s: Space, cow: bool, op: Op): nat
    requires Enabled(s, op)
  {
    match op
    case Spawn(_) => 65
    case Grow(pid, newsz) =>
      PgUpMono(s.sz[pid], newsz);
      if newsz >= KERNBASE then 0 else PgUp(newsz) - PgUp(s.sz[pid]) + TablesFor(PgUp(newsz))
    case Fork(pid, _) => CopyNeed(PgUp(s.sz[pid]), cow)
    case Write(_, _, _) => 1
    case _ => 0
  }

  lemma FramesBounded(s: Space, pt: RefMap, cow: bool, op: Op)
    requires Enabled(s, op)
    ensures Need(s, pt, cow, op) <= Most(s, cow, op)
  {
    if op.Grow? {
      PgUpMono(s.sz[op.pid], op.newsz);
      MissingBounded(pt, op.pid, PgUp(s.sz[op.pid]), PgUp(op.newsz));
    }
  }

  lemma MissingBounded(pt: RefMap, pid: nat, lo: nat, hi: nat)
    ensures |Missing(pt, pid, lo, hi)| <= TablesFor(hi)
  {
    var x, y := Missing(pt, pid, lo, hi), Below(TablesFor(hi));
    forall v: nat | v < hi ensures v / NPTENTRIES < TablesFor(hi) {}
    assert x <= y && y == x + (y - x);
  }

  lemma CutShort(out: seq<Access>, all: seq<Access>)
    requires NoMem !in out && |out| < |all| && out <= all
    ensures UpToNoMem(out + [NoMem], all)
  {
    assert (out + [NoMem])[..|out|] == out && (out + [NoMem])[|out|] == NoMem;
  }

  // ---- Who can fork ------------------------------------------------------------------------

  /** The processes that have shrunk to size 0 since they were spawned or forked. */
  function After(emptied: set<nat>, op: Op): set<nat> {
    match op
    case Spawn(pid) => emptied - {pid}
    case Fork(_, child) => emptied - {child}
    case Shrink(pid, newsz) => if newsz == 0 then emptied + {pid} else emptied
    case Free(pid) => emptied - {pid}
    case _ => emptied
  }

  /** An emptied process has a size but no first page; any other has all its pages. */
  ghost predicate Tracks(s: Space, emptied: set<nat>) {
    forall pid {:trigger Tracked(s, emptied, pid)} :: pid in s.sz ==> Tracked(s, emptied, pid)
  }

  ghost predicate Tracked(s: Space, emptied: set<nat>, pid: nat)
    requires pid in s.sz
  {
    if pid in emptied then s.sz[pid] > 0 && User(pid, 0) !in s.pages else Full(s, pid)
  }

  /** Shrinking to 0 takes the pages and leaves the size: the process cannot be forked any more. */
  lemma ShrunkToNothing(s: Space, pid: nat, child: nat)
    requires Enabled(s, Shrink(pid, 0))
    ensures !Enabled(Step(s, Shrink(pid, 0)).0, Fork(pid, child))
  {
    assert PgUp(0) == 0 && User(pid, 0) !in Step(s, Shrink(pid, 0)).0.pages;
  }

  /** A process can be forked exactly if it has not shrunk to 0 since it was spawned or forked. */
  lemma ForkIff(s: Space, emptied: set<nat>, pid: nat, child: nat)
    requires Tracks(s, emptied) && pid in s.sz && child !in s.sz
    ensures Enabled(s, Fork(pid, child)) <==> pid !in emptied
  {
    assert Tracked(s, emptied, pid);
  }

  lemma {:induction false} CopiesHas(m: Contents, parent: nat, child: nat, n: nat, v: nat)
    requires v < n && User(parent, v) in m
    ensures User(child, v) in Copies(m, parent, child, n)
  {
    if v < n - 1 { CopiesHas(m, parent, child, n - 1, v); }
  }

  /** Every operation keeps account of who can fork. */
  lemma StepTracks(s: Space, emptied: set<nat>, op: Op)
    requires Enabled(s, op) && Tracks(s, emptied)
    ensures Tracks(Step(s, op).0, After(emptied, op))
  {
    var s', em' := Step(s, op).0, After(emptied, op);
    forall pid | pid in s'.sz ensures Tracked(s', em', pid) {
      if pid in s.sz { assert Tracked(s, emptied, pid); }
      match op
      case Fork(parent, child) =>
        assert Tracked(s, emptied, parent);
        ForkTracks(s, emptied, parent, child, pid);
      case Grow(p, newsz) => if newsz < KERNBASE { GrowTracks(s, emptied, p, newsz, pid); }
      case Shrink(p, newsz) => ShrinkTracks(s, emptied, p, newsz, pid);
      case _ =>
    }
  }

  lemma ForkTracks(s: Space, emptied: set<nat>, parent: nat, child: nat, pid: nat)
    requires Enabled(s, Fork(parent, child)) && (pid in s.sz ==> Tracked(s, emptied, pid)) && (pid in s.sz || pid == child)
    ensures Tracked(Step(s, Fork(parent, child)).0, emptied - {child}, pid)
  {
    var n := PgUp(s.sz[parent]);
    CopiesKeys(s.pages, parent, child, n);
    forall v: nat | v < n ensures User(child, v) in Copies(s.pages, parent, child, n) { CopiesHas(s.pages, parent, child, n, v); }
  }

  lemma GrowTracks(s: Space, emptied: set<nat>, p: nat, newsz: nat, pid: nat)
    requires Enabled(s, Grow(p, newsz)) && newsz < KERNBASE && pid in s.sz && Tracked(s, emptied, pid)
    ensures Tracked(Step(s, Grow(p, newsz)).0, emptied, pid)
  {
    PgUpMono(s.sz[p], newsz);
    ZerosKeys(p, PgUp(s.sz[p]), PgUp(newsz) - PgUp(s.sz[p]));
  }

  lemma ShrinkTracks(s: Space, emptied: set<nat>, p: nat, newsz: nat, pid: nat)
    requires Enabled(s, Shrink(p, newsz)) && pid in s.sz && Tracked(s, emptied, pid)
    ensures Tracked(Step(s, Shrink(p, newsz)).0, After(emptied, Shrink(p, newsz)), pid)
  {
    PgUpMono(newsz, s.sz[p]);
  }

  /** An operation that the processes' sizes and histories allow. */
  ghost predicate Allowed(s: Space, emptied: set<nat>, op: Op) {
    if op.Fork? then op.pid in s.sz && op.child !in s.sz && op.pid !in emptied else Enabled(s, op)
  }

  lemma AllowedIsEnabled(s: Space, emptied: set<nat>, op: Op)
    requires Tracks(s, emptied) && Allowed(s, emptied, op)
    ensures Enabled(s, op) && Tracks(Step(s, op).0, After(emptied, op))
  {
    if op.Fork? { ForkIff(s, emptied, op.pid, op.child); }
    StepTracks(s, emptied, op);
  }

  /** Each operation is allowed when its turn comes. */
  ghost predicate Legal(s: Space, emptied: set<nat>, ops: seq<Op>)
    requires Tracks(s, emptied)
    decreases |ops|
  {
    ops == [] ||
    (Allowed(s, emptied, ops[0]) && (AllowedIsEnabled(s, emptied, ops[0]); Legal(Step(s, ops[0]).0, After(emptied, ops[0]), ops[1..])))
  }

  /** The answers to a run of operations. */
  ghost function Answers(s: Space, emptied: set<nat>, ops: seq<Op>): (r: seq<Access>)
    requires Tracks(s, emptied) && Legal(s, emptied, ops)
    ensures |r| == |ops|
    decreases |ops|
  {
    if ops == [] then []
    else
      AllowedIsEnabled(s, emptied, ops[0]);
      [Step(s, ops[0]).1] + Answers(Step(s, ops[0]).0, After(emptied, ops[0]), ops[1..])
  }

  /** Frames enough for a run of operations. */
  ghost function Demand(s: Space, emptied: set<nat>, ops: seq<Op>, cow: bool): nat
    requires Tracks(s, emptied) && Legal(s, emptied, ops)
    decreases |ops|
  {
    if ops == [] then 0
    else
      AllowedIsEnabled(s, emptied, ops[0]);
      Most(s, cow, ops[0]) + Demand(Step(s, ops[0]).0, After(emptied, ops[0]), ops[1..], cow)
  }

  /** out is all the answers, or a beginning of them and then NoMem. */
  predicate UpToNoMem(out: seq<Access>, all: seq<Access>) {
    if NoMem in out then
      NoMem !in out[..|out| - 1] && |out| <= |all| && out[..|out| - 1] <= all
    else out == all
  }

  /** In state s the operations `rest` are left to do, and `out` answers those before them. */
  ghost predicate Going(s: Space, emptied: set<nat>, rest: seq<Op>, out: seq<Access>, all: seq<Access>) {
    Tracks(s, emptied) && Legal(s, emptied, rest) && NoMem !in out && all == out + Answers(s, emptied, rest)
  }

  /** The next operation of a run. */
  lemma GoOn(s: Space, emptied: set<nat>, rest: seq<Op>, out: seq<Access>, all: seq<Access>)
    requires Going(s, emptied, rest, out, all) && rest != []
    ensures Enabled(s, rest[0]) && UpToNoMem(out + [NoMem], all)
    ensures var (s', r) := Step(s, rest[0]);
      r != NoMem ==> Going(s', After(emptied, rest[0]), rest[1..], out + [r], all)
  {
    AllowedIsEnabled(s, emptied, rest[0]);
    CutShort(out, all);
    var (s', r) := Step(s, rest[0]);
    assert out + ([r] + Answers(s', After(emptied, rest[0]), rest[1..])) == (out + [r]) + Answers(s', After(emptied, rest[0]), rest[1..]);
  }

  /** A reference belongs to a process, a user page below its size. */
  ghost predicate Placed(r: Ref, sz: map<nat, nat>) {
    !r.Local? && r.pid in sz && (r.User? ==> r.vpn < PgUp(sz[r.pid]))
  }

  /** New references of a process that grew are below its new size. */
  lemma StillPlaced(pt: RefMap, pt': RefMap, pid: nat, sz: map<nat, nat>, newsz: nat)
    requires pid in sz && sz[pid] <= newsz && Ext(pt, pt', pid)
    requires forall q :: q in pt ==> Placed(q, sz)
    requires forall q :: q in pt' && q.User? ==> q in pt || InRange(q, pid, PgUp(sz[pid]), PgUp(newsz))
    ensures forall q :: q in pt' ==> Placed(q, sz[pid := newsz])
  {
    PgUpMono(sz[pid], newsz);
    forall q | q in pt' ensures Placed(q, sz[pid := newsz]) {
      if q in pt { assert Placed(q, sz); }
    }
  }

  class Kernel {
    const vm: AddressSpaces
    const cow: bool
    var sz: map<nat, nat>

    ghost predicate Valid()
      reads this, vm
    {
      && vm.Valid() && Local !in vm.pt
      && (forall r :: r in vm.pt ==> Placed(r, sz))
      && (forall pid :: pid in sz ==> Dir(pid) in vm.pt && sz[pid] < KERNBASE)
    }

    ghost function View(): Space
      reads this, vm
    {
      Space(vm.View(), sz)
    }

    constructor (frames: nat, cow: bool)
      ensures Valid() && View() == Space(map[], map[]) && this.cow == cow && fresh(vm) && !vm.ranOut
      ensures |vm.freelist| == frames
    {
      vm := new AddressSpaces(frames);
      this.cow, sz := cow, map[];
    }

    /**
     One operation: fewer free frames than it needs and nothing changed, or exactly what Step says. Making,
     growing and forking a process take exactly the frames they need; a store that needs one takes it, and gives
     the old one back if nobody else refers to it.
     */
    method Do(op: Op) returns (r: Access)
      requires Valid() && Enabled(View(), op)
      modifies this, vm
      ensures Valid()
      ensures vm.ranOut == (old(vm.ranOut) || r == NoMem)
      ensures if r == NoMem then View() == old(View()) else (View(), r) == Step(old(View()), op)
      ensures var need := Need(old(View()), old(vm.pt), cow, op);
        && (r == NoMem <==> |old(vm.freelist)| < need)
        && (r != NoMem ==> |vm.freelist| >= |old(vm.freelist)| - need)
        && (r != NoMem && (op.Spawn? || op.Grow? || op.Fork?) ==> |vm.freelist| == |old(vm.freelist)| - need)
        && (r != NoMem && op.Write? ==>
             var back := LastOne(old(vm.pt), User(op.pid, op.va / PGSIZE));
             |vm.freelist| == |old(vm.freelist)| - if need == 1 then 1 - back else 0)
    {
      match op {
        case Spawn(pid) => r := DoSpawn(pid);
        case Grow(pid, newsz) => r := DoGrow(pid, newsz);
        case Shrink(pid, newsz) => r := DoShrink(pid, newsz);
        case Fork(pid, child) => r := DoFork(pid, child);
        case Free(pid) =>
          vm.Freevm(pid);
          sz := sz - {pid};
          r := Done;
        case Read(pid, va) => r := vm.Load(pid, va);
        case Write(pid, va, b) => r := vm.Store(pid, va, b);
      }
    }

    /** User entries are exactly the pages in view. */
    lemma InView(r: Ref)
      requires vm.Valid() && r in vm.pt && r.User?
      ensures r in vm.View()
    {
    }

    method DoSpawn(pid: nat) returns (r: Access)
      requires Valid() && Enabled(View(), Spawn(pid))
      modifies this, vm
      ensures Valid()
      ensures vm.ranOut == (old(vm.ranOut) || r == NoMem)
      ensures if r == NoMem then View() == old(View()) else (View(), r) == Step(old(View()), Spawn(pid))
      ensures r == NoMem <==> |old(vm.freelist)| < 65
      ensures r != NoMem ==> |vm.freelist| == |old(vm.freelist)| - 65
    {
      var ok := vm.Setupkvm(pid);
      forall q | q in vm.pt && q.User? ensures q in old(vm.pt) {
        InView(q);
      }
      if !ok { return NoMem; }
      sz := sz[pid := 0];
      r := Done;
    }

    method AddPages(pid: nat, newsz: nat) returns (n: nat)
      requires Valid() && pid in sz && newsz > sz[pid]
      modifies vm
      ensures vm.Valid() && Ext(old(vm.pt), vm.pt, pid)
      ensures vm.ranOut == (old(vm.ranOut) || (n == 0 && newsz < KERNBASE))
      ensures n == 0 || (n == newsz < KERNBASE)
      ensures vm.View() == if n == 0 then old(vm.View()) else old(vm.View()) + Zeros(pid, PgUp(sz[pid]), PgUp(newsz) - PgUp(sz[pid]))
      ensures forall q :: q in vm.pt && q.User? ==> q in old(vm.pt) || (n != 0 && InRange(q, pid, PgUp(sz[pid]), PgUp(newsz)))
      ensures Local !in vm.pt
      ensures PgUp(sz[pid]) <= PgUp(newsz)
      ensures var need := if newsz >= KERNBASE then 0 else GrowNeed(old(vm.pt), pid, PgUp(sz[pid]), PgUp(newsz));
        && (n == 0 && newsz < KERNBASE <==> |old(vm.freelist)| < need)
        && (n != 0 || newsz >= KERNBASE ==> |vm.freelist| == |old(vm.freelist)| - need)
    {
      var oldsz := sz[pid];
      PgUpMono(oldsz, newsz);
      ghost var p0, v0 := vm.pt, vm.View();
      ghost var more := if newsz < KERNBASE then PgUp(newsz) - PgUp(oldsz) else 0;
      assert PagesBelow(p0, pid, PgUp(oldsz)) by {
        assert forall q :: q in p0 && q.User? && q.pid == pid ==> Placed(q, sz);
      }
      n := vm.Allocuvm(pid, oldsz, newsz);
      ZerosKeys(pid, PgUp(oldsz), more);
      forall q | q in vm.pt && q.User? ensures q in p0 || (n != 0 && InRange(q, pid, PgUp(oldsz), PgUp(newsz))) {
        InView(q);
        assert q in v0 ==> q in p0;
      }
    }

    /** AddPages, in terms of what Grow asks for. */
    method GrowPages(pid: nat, newsz: nat) returns (n: nat)
      requires Valid() && Enabled(View(), Grow(pid, newsz))
      modifies vm
      ensures vm.Valid() && Local !in vm.pt && Ext(old(vm.pt), vm.pt, pid)
      ensures vm.ranOut == (old(vm.ranOut) || (n == 0 && newsz < KERNBASE))
      ensures forall q :: q in vm.pt ==> Placed(q, sz[pid := if n == 0 then sz[pid] else n])
      ensures n == 0 ==> vm.View() == old(vm.View())
      ensures n != 0 ==> n == newsz < KERNBASE
      ensures n != 0 ==> Space(vm.View(), sz[pid := n]) == Grown(old(View()), pid, newsz)
      ensures var need := Need(old(View()), old(vm.pt), cow, Grow(pid, newsz));
        && (n == 0 && newsz < KERNBASE <==> |old(vm.freelist)| < need)
        && (n != 0 || newsz >= KERNBASE ==> |vm.freelist| == |old(vm.freelist)| - need)
    {
      ghost var p0 := vm.pt;
      n := AddPages(pid, newsz);
      StillPlaced(p0, vm.pt, pid, sz, if n == 0 then sz[pid] else n);
    }

    method DoGrow(pid: nat, newsz: nat) returns (r: Access)
      requires Valid() && Enabled(View(), Grow(pid, newsz))
      modifies this, vm
      ensures Valid()
      ensures vm.ranOut == (old(vm.ranOut) || r == NoMem)
      ensures if r == NoMem then View() == old(View()) else (View(), r) == Step(old(View()), Grow(pid, newsz))
      ensures var need := Need(old(View()), old(vm.pt), cow, Grow(pid, newsz));
        && (r == NoMem <==> |old(vm.freelist)| < need)
        && (r != NoMem ==> |vm.freelist| == |old(vm.freelist)| - need)
    {
      var n := GrowPages(pid, newsz);
      if n == 0 {
        assert sz[pid := sz[pid]] == sz;
        r := if newsz >= KERNBASE then Fault else NoMem;
      } else {
        sz := sz[pid := n];
        r := Done;
      }
    }

    method DoShrink(pid: nat, newsz: nat) returns (r: Access)
      requires Valid() && Enabled(View(), Shrink(pid, newsz))
      modifies this, vm
      ensures Valid()
      ensures vm.ranOut == old(vm.ranOut) && r != NoMem && (View(), r) == Step(old(View()), Shrink(pid, newsz))
      ensures |vm.freelist| >= |old(vm.freelist)|
    {
      var n := vm.Deallocuvm(pid, sz[pid], newsz);
      if n == 0 {
        r := Fault;
      } else {
        sz := sz[pid := n];
        r := Done;
      }
    }

    method DoFork(pid: nat, child: nat) returns (r: Access)
      requires Valid() && Enabled(View(), Fork(pid, child))
      modifies this, vm
      ensures Valid()
      ensures vm.ranOut == (old(vm.ranOut) || r == NoMem)
      ensures if r == NoMem then View() == old(View()) else (View(), r) == Step(old(View()), Fork(pid, child))
      ensures var need := CopyNeed(PgUp(old(sz)[pid]), cow);
        && (r == NoMem <==> |old(vm.freelist)| < need)
        && (r != NoMem ==> |vm.freelist| == |old(vm.freelist)| - need)
    {
      var ok := vm.Copyuvm(pid, child, sz[pid], cow);
      CopiesKeys(old(vm.View()), pid, child, PgUp(sz[pid]));
      forall q | q in vm.pt && q.User? ensures q in old(vm.pt) || (ok && InRange(q, child, 0, PgUp(sz[pid]))) {
        InView(q);
      }
      if !ok { return NoMem; }
      sz := sz[child := sz[pid]];
      r := Done;
    }

    /** The next operation of a run. */
    method DoNext(op: Op, ghost emptied: set<nat>, ghost rest: seq<Op>, ghost out: seq<Access>, ghost all: seq<Access>)
      returns (r: Access, ghost s: Space)
      requires Valid() && rest != [] && op == rest[0] && Going(View(), emptied, rest, out, all)
      modifies this, vm
      ensures Valid() && s == View() && vm.ranOut == (old(vm.ranOut) || r == NoMem)
      ensures if r == NoMem then UpToNoMem(out + [r], all) else Going(s, After(emptied, op), rest[1..], out + [r], all)
      ensures |old(vm.freelist)| >= Demand(old(View()), emptied, rest, cow) ==>
        r != NoMem && |vm.freelist| >= Demand(s, After(emptied, op), rest[1..], cow)
    {
      GoOn(View(), emptied, rest, out, all);
      FramesBounded(View(), vm.pt, cow, op);
      r := Do(op);
      s := View();
    }

    /** A run of operations, stopped by the first that finds no frame: by none, if there are frames enough. */
    method Run(ops: seq<Op>, ghost emptied: set<nat>) returns (out: seq<Access>)
      requires Valid() && Tracks(View(), emptied) && Legal(View(), emptied, ops)
      modifies this, vm
      ensures Valid()
      ensures UpToNoMem(out, Answers(old(View()), emptied, ops))
      ensures vm.ranOut == (old(vm.ranOut) || NoMem in out)
      ensures |old(vm.freelist)| >= Demand(old(View()), emptied, ops, cow) ==> out == Answers(old(View()), emptied, ops)
    {
      out := [];
      ghost var s, em, all := View(), emptied, Answers(View(), emptied, ops);
      ghost var enough := |vm.freelist| >= Demand(View(), emptied, ops, cow);
      var i := 0;
      assert ops[0..] == ops && [] + all == all;
      while i < |ops|
        invariant i <= |ops| && Valid() && View() == s && Going(s, em, ops[i..], out, all)
        invariant vm.ranOut == old(vm.ranOut)
        invariant enough ==> |vm.freelist| >= Demand(s, em, ops[i..], cow)
      {
        assert ops[i..][0] == ops[i] && ops[i..][1..] == ops[i + 1..];
        var r;
        r, s := DoNext(ops[i], em, ops[i..], out, all);
        out, em := out + [r], After(em, ops[i]);
        if r == NoMem { return; }
        i := i + 1;
      }
    }
  }

  /**
   Copy-on-write fork refines eager fork. Two kernels, one of each kind and with any numbers of frames,
   give the same answers to every run of operations, each up to where kalloc finds it no frame; and with
   as many frames as the run can need, the answers of plain private memory to all of it.
   */
  method SideBySide(lazyFrames: nat, eagerFrames: nat, ops: seq<Op>)
    returns (lazy: Kernel, eager: Kernel, a: seq<Access>, b: seq<Access>)
    requires Legal(Space(map[], map[]), {}, ops)
    ensures lazy.cow && !eager.cow
    ensures UpToNoMem(a, Answers(Space(map[], map[]), {}, ops)) && UpToNoMem(b, Answers(Space(map[], map[]), {}, ops))
    ensures (lazy.vm.ranOut <==> NoMem in a) && (eager.vm.ranOut <==> NoMem in b)
    ensures a == b || lazy.vm.ranOut || eager.vm.ranOut
    ensures lazyFrames >= Demand(Space(map[], map[]), {}, ops, true) ==> a == Answers(Space(map[], map[]), {}, ops)
    ensures eagerFrames >= Demand(Space(map[], map[]), {}, ops, false) ==> b == Answers(Space(map[], map[]), {}, ops)
  {
    lazy := new Kernel(lazyFrames, true);
    eager := new Kernel(eagerFrames, false);
    a := lazy.Run(ops, {});
    b := eager.Run(ops, {});
  }
}
