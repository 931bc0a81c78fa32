/**
 The bounded buffer between master and worker threads (pthreads-sync-code/master-worker).

 A step runs one thread from acquiring the mutex, at the top of its loop or by waking from
 pthread_cond_wait, to releasing it: after one item, by waiting, or by leaving the loop. A waiting
 thread may also wake for no reason.
 */
module MasterWorker {
  datatype Thread = Ready | Asleep | Done

  datatype Event = MasterStep(t: nat) | WorkerStep(t: nat) | SpuriousMaster(t: nat) | SpuriousWorker(t: nat)

  /** A thread sleeps only while it must wait and items are left to it, and is gone only when none are. */
  ghost predicate Accounted(ts: seq<Thread>, mustWait: bool, noneLeft: bool) {
    forall i :: 0 <= i < |ts| ==> (ts[i] == Asleep ==> mustWait && !noneLeft) && (ts[i] == Done ==> noneLeft)
  }

  /** The threads after a broadcast: every one that waited may run. */
  function Woken(ts: seq<Thread>): (r: seq<Thread>)
    ensures |r| == |ts|
  {
    seq(|ts|, i requires 0 <= i < |ts| => if ts[i] == Asleep then Ready else ts[i])
  }

  /** pthread_cond_broadcast */
  method Broadcast(ts: seq<Thread>) returns (r: seq<Thread>)
    ensures r == Woken(ts)
  {
    r := ts;
    for i := 0 to |ts|
      invariant |r| == |ts|
      invariant forall j :: 0 <= j < i ==> r[j] == if ts[j] == Asleep then Ready else ts[j]
      invariant forall j :: i <= j < |r| ==> r[j] == ts[j]
    {
      if r[i] == Asleep { r := r[i := Ready]; }
    }
  }

  // ---- The protocol as a state machine -----------------------------------------------------------

  /** total_items and max_buf_size. */
  datatype Config = Config(total: int, size: nat)

  datatype State = State(toProduce: int, inBuf: int, read: int, masters: seq<Thread>, workers: seq<Thread>)

  function Init(masters: nat, workers: nat): State {
    State(0, 0, 0, seq(masters, _ => Ready), seq(workers, _ => Ready))
  }

  /** One step; a thread that cannot take it stays where it is. */
  function Next(s: State, e: Event, c: Config): State {
    match e
    case MasterStep(t) =>
      if t >= |s.masters| || s.masters[t] != Ready then s
      else if s.toProduce >= c.total then s.(masters := s.masters[t := Done])
      else if s.inBuf == c.size then s.(masters := s.masters[t := Asleep])
      else s.(toProduce := s.toProduce + 1, inBuf := s.inBuf + 1, workers := Woken(s.workers))
    case WorkerStep(t) =>
      if t >= |s.workers| || s.workers[t] != Ready then s
      else if s.read >= c.total then s.(workers := s.workers[t := Done])
      else if s.inBuf == 0 then s.(workers := s.workers[t := Asleep])
      else s.(read := s.read + 1, inBuf := s.inBuf - 1, masters := Woken(s.masters))
    case SpuriousMaster(t) =>
      if t < |s.masters| && s.masters[t] == Asleep then s.(masters := s.masters[t := Ready]) else s
    case SpuriousWorker(t) =>
      if t < |s.workers| && s.workers[t] == Asleep then s.(workers := s.workers[t := Ready]) else s
  }

  function After(s: State, events: seq<Event>, c: Config): State
    decreases |events|
  {
    if events == [] then s else After(Next(s, events[0], c), events[1..], c)
  }

  ghost predicate Inv(s: State, c: Config) {
    && 0 <= s.inBuf <= c.size && 0 <= s.read && s.toProduce == s.read + s.inBuf
    && (s.toProduce <= c.total || s.toProduce == 0)
    && Accounted(s.masters, s.inBuf == c.size, s.toProduce >= c.total)
    && Accounted(s.workers, s.inBuf == 0, s.read >= c.total)
  }

  lemma NextKeepsInv(s: State, e: Event, c: Config)
    requires Inv(s, c)
    ensures Inv(Next(s, e, c), c)
    ensures |Next(s, e, c).masters| == |s.masters| && |Next(s, e, c).workers| == |s.workers|
  {
  }

  /** Any interleaving, with any spurious wakeups, keeps the invariant. */
  lemma {:induction false} AfterKeepsInv(s: State, events: seq<Event>, c: Config)
    requires Inv(s, c)
    ensures Inv(After(s, events, c), c)
    ensures |After(s, events, c).masters| == |s.masters| && |After(s, events, c).workers| == |s.workers|
    decreases |events|
  {
    if events != [] {
      NextKeepsInv(s, events[0], c);
      AfterKeepsInv(Next(s, events[0], c), events[1..], c);
    }
  }

  lemma {:induction false} AfterAppend(s: State, a: seq<Event>, b: seq<Event>, c: Config)
    ensures After(s, a + b, c) == After(After(s, a, c), b, c)
    decreases |a|
  {
    if a == [] {
      assert a + b == b;
    } else {
      assert (a + b)[0] == a[0] && (a + b)[1..] == a[1..] + b;
      AfterAppend(Next(s, a[0], c), a[1..], b, c);
    }
  }

  // ---- When the threads can all be asleep --------------------------------------------------------

  /** Nobody can run: every thread that is left waits, and one does. */
  ghost predicate Stuck(s: State) {
    Ready !in s.masters && Ready !in s.workers && (Asleep in s.masters || Asleep in s.workers)
  }

  /** The numbers of items, places and threads with which that can happen. */
  predicate CanStick(c: Config, masters: nat, workers: nat) {
    c.total > 0 && masters + workers > 0 && (c.size == 0 || masters == 0 || (workers == 0 && c.total > c.size))
  }

  lemma StuckNeeds(s: State, c: Config)
    requires Inv(s, c) && Stuck(s)
    ensures CanStick(c, |s.masters|, |s.workers|)
  {
    if s.masters != [] { assert s.masters[0] in s.masters; }
    if s.workers != [] { assert s.workers[0] in s.workers; }
  }

  /** Master 0 runs k times. */
  function Handing(k: nat): seq<Event> {
    if k == 0 then [] else [MasterStep(0)] + Handing(k - 1)
  }

  /** Each thread from i on runs once. */
  function Sweep(i: nat, n: nat, master: bool): seq<Event>
    requires i <= n
    decreases n - i
  {
    if i == n then [] else [if master then MasterStep(i) else WorkerStep(i)] + Sweep(i + 1, n, master)
  }

  lemma {:induction false} ProduceRuns(s: State, k: nat, c: Config)
    requires s.workers == [] && s.masters != [] && s.masters[0] == Ready
    requires s.inBuf + k <= c.size && s.toProduce + k <= c.total
    ensures After(s, Handing(k), c) == s.(toProduce := s.toProduce + k, inBuf := s.inBuf + k)
    decreases k
  {
    if k > 0 {
      assert Woken(s.workers) == s.workers;
      ProduceRuns(Next(s, MasterStep(0), c), k - 1, c);
    }
  }

  /** From i on every thread of ts is ready; before i all are asleep. */
  ghost predicate SleptTo(ts: seq<Thread>, i: nat) {
    i <= |ts| && forall j :: 0 <= j < |ts| ==> ts[j] == if j < i then Asleep else Ready
  }

  lemma {:induction false} MastersSleep(s: State, i: nat, c: Config)
    requires s.toProduce < c.total && s.inBuf == c.size && SleptTo(s.masters, i)
    ensures var r := After(s, Sweep(i, |s.masters|, true), c);
      r == s.(masters := r.masters) && |r.masters| == |s.masters| && SleptTo(r.masters, |r.masters|)
    decreases |s.masters| - i
  {
    if i < |s.masters| { MastersSleep(Next(s, MasterStep(i), c), i + 1, c); }
  }

  lemma {:induction false} WorkersSleep(s: State, i: nat, c: Config)
    requires s.read < c.total && s.inBuf == 0 && SleptTo(s.workers, i)
    ensures var r := After(s, Sweep(i, |s.workers|, false), c);
      r == s.(workers := r.workers) && |r.workers| == |s.workers| && SleptTo(r.workers, |r.workers|)
    decreases |s.workers| - i
  {
    if i < |s.workers| { WorkersSleep(Next(s, WorkerStep(i), c), i + 1, c); }
  }

  /** These events leave every thread of a fresh pool asleep or gone. */
  ghost predicate StuckAfter(events: seq<Event>, c: Config, masters: nat, workers: nat) {
    Stuck(After(Init(masters, workers), events, c))
  }

  /** A run that puts every thread to sleep: fill the buffer if nobody empties it, then each thread once. */
  lemma GetsStuck(c: Config, masters: nat, workers: nat) returns (events: seq<Event>)
    requires CanStick(c, masters, workers)
    ensures StuckAfter(events, c, masters, workers)
  {
    var k := if masters > 0 && workers == 0 then c.size else 0;
    var fill, ms, ws := Handing(k), Sweep(0, masters, true), Sweep(0, workers, false);
    var s0 := Init(masters, workers);
    if k > 0 { ProduceRuns(s0, k, c); }
    var s1 := After(s0, fill, c);
    if masters > 0 { MastersSleep(s1, 0, c); }
    var s2 := After(s1, ms, c);
    if workers > 0 { WorkersSleep(s2, 0, c); }
    AfterAppend(s1, ms, ws, c);
    AfterAppend(s0, fill, ms + ws, c);
    events := fill + (ms + ws);
    var s3 := After(s2, ws, c);
    if masters > 0 { assert s3.masters[0] in s3.masters; } else { assert s3.workers[0] in s3.workers; }
  }

  /**
   The threads can all come to be asleep if and only if there are items, a thread, and no room in the
   buffer, or no master, or no worker and more items than room. So with a master, a worker and an item:
   if and only if max_buf_size is 0.
   */
  lemma StuckIff(c: Config, masters: nat, workers: nat)
    ensures (exists events :: StuckAfter(events, c, masters, workers)) <==> CanStick(c, masters, workers)
    ensures masters > 0 && workers > 0 && c.total > 0 ==> (CanStick(c, masters, workers) <==> c.size == 0)
  {
    if CanStick(c, masters, workers) {
      var events := GetsStuck(c, masters, workers);
    }
    forall events | StuckAfter(events, c, masters, workers) ensures CanStick(c, masters, workers) {
      AfterKeepsInv(Init(masters, workers), events, c);
      StuckNeeds(After(Init(masters, workers), events, c), c);
    }
  }

  /** k times: worker 0 looks, master 0 makes an item, worker 0 takes it; and then each finds no more. */
  function Passing(k: nat): seq<Event> {
    if k == 0 then [MasterStep(0)] + ([WorkerStep(0)] + [])
    else [WorkerStep(0)] + ([MasterStep(0)] + ([WorkerStep(0)] + Passing(k - 1)))
  }

  lemma First(s: State, e: Event, rest: seq<Event>, c: Config)
    ensures After(s, [e] + rest, c) == After(Next(s, e, c), rest, c)
  {
    assert ([e] + rest)[0] == e && ([e] + rest)[1..] == rest;
  }

  /** A master and a worker that start on a free buffer pass all the items that are left, and both leave. */
  lemma {:induction false} Finishes(s: State, c: Config)
    requires Inv(s, c) && c.size > 0 && s.inBuf == 0 && s.read <= c.total
    requires s.masters != [] && s.masters[0] == Ready && s.workers != [] && s.workers[0] == Ready
    ensures var r := After(s, Passing(c.total - s.read), c);
      && r.read == r.toProduce == c.total && |r.masters| == |s.masters| && |r.workers| == |s.workers|
      && r.masters[0] == r.workers[0] == Done
    decreases c.total - s.read
  {
    var k := c.total - s.read;
    if k == 0 {
      First(s, MasterStep(0), [WorkerStep(0)] + [], c);
      First(Next(s, MasterStep(0), c), WorkerStep(0), [], c);
    } else {
      var s1 := Next(s, WorkerStep(0), c);
      var s2 := Next(s1, MasterStep(0), c);
      var s3 := Next(s2, WorkerStep(0), c);
      First(s, WorkerStep(0), [MasterStep(0)] + ([WorkerStep(0)] + Passing(k - 1)), c);
      First(s1, MasterStep(0), [WorkerStep(0)] + Passing(k - 1), c);
      First(s2, WorkerStep(0), Passing(k - 1), c);
      NextKeepsInv(s, WorkerStep(0), c);
      NextKeepsInv(s1, MasterStep(0), c);
      NextKeepsInv(s2, WorkerStep(0), c);
      Finishes(s3, c);
    }
  }

  // ---- The code -----------------------------------------------------------------------------------

  /** The globals of the program, the threads, and what has been printed as produced and consumed. */
  class Pool {
    const total_items: int
    const max_buf_size: nat
    const buffer: array<int>
    var item_to_produce: int
    var curr_buf_size: int
    var item_read: int
    var masters: seq<Thread>
    var workers: seq<Thread>
    ghost var produced: seq<int>
    ghost var consumed: seq<int>
    ghost var held: seq<int>

    ghost predicate Valid()
      reads this, buffer
    {
      Ledger() && Inv(View(), Sizes())
    }

    ghost function View(): State
      reads this
    {
      State(item_to_produce, curr_buf_size, item_read, masters, workers)
    }

    ghost function Sizes(): Config {
      Config(total_items, max_buf_size)
    }

    /** The items handed out are 0, 1, 2, ... in order; each is consumed or in the buffer. */
    ghost predicate Ledger()
      reads `item_to_produce, `curr_buf_size, `item_read, `produced, `consumed, `held, buffer
    {
      && buffer.Length == max_buf_size && 0 <= curr_buf_size <= max_buf_size
      && item_to_produce == item_read + curr_buf_size && 0 <= item_read
      && (item_to_produce <= total_items || item_to_produce == 0)
      && |produced| == item_to_produce && (forall k :: 0 <= k < |produced| ==> produced[k] == k)
      && |consumed| == item_read && |held| == curr_buf_size && (forall k :: 0 <= k < |held| ==> buffer[k] == held[k])
      && multiset(produced) == multiset(consumed) + multiset(held)
    }

    constructor (total: int, size: nat, nmasters: nat, nworkers: nat)
      ensures Valid() && fresh(buffer) && total_items == total && max_buf_size == size
      ensures View() == Init(nmasters, nworkers)
    {
      total_items, max_buf_size, buffer := total, size, new int[size];
      item_to_produce, curr_buf_size, item_read := 0, 0, 0;
      masters, workers := seq(nmasters, _ => Ready), seq(nworkers, _ => Ready);
      produced, consumed, held := [], [], [];
    }

    /** buffer[curr_buf_size++] = item_to_produce, print_produced, and the broadcast to the workers. */
    method Produce()
      requires Ledger() && item_to_produce < total_items && curr_buf_size < max_buf_size
      modifies buffer, `curr_buf_size, `item_to_produce, `produced, `held, `workers
      ensures Ledger() && item_to_produce == old(item_to_produce) + 1 && workers == Woken(old(workers))
      ensures produced == old(produced) + [old(item_to_produce)]
    {
      buffer[curr_buf_size] := item_to_produce;
      held := held + [item_to_produce];
      curr_buf_size := curr_buf_size + 1;
      produced := produced + [item_to_produce];
      item_to_produce := item_to_produce + 1;
      workers := Broadcast(workers);
    }

    /** print_consumed(buffer[--curr_buf_size]), and the broadcast to the masters. */
    method Consume()
      requires Ledger() && curr_buf_size > 0
      modifies `curr_buf_size, `item_read, `consumed, `held, `masters
      ensures Ledger() && item_read == old(item_read) + 1 && masters == Woken(old(masters))
      ensures consumed == old(consumed) + [old(buffer[curr_buf_size - 1])]
    {
      curr_buf_size := curr_buf_size - 1;
      assert held == held[..curr_buf_size] + [buffer[curr_buf_size]];
      held := held[..curr_buf_size];
      consumed := consumed + [buffer[curr_buf_size]];
      item_read := item_read + 1;
      masters := Broadcast(masters);
    }

    /** One turn of generate_requests_loop. */
    method Generate(m: nat)
      requires Valid() && m < |masters| && masters[m] == Ready
      modifies this, buffer
      ensures Valid() && View() == Next(old(View()), MasterStep(m), Sizes())
      ensures consumed == old(consumed)
      ensures produced == old(produced) + if old(item_to_produce < total_items && curr_buf_size < max_buf_size) then [old(item_to_produce)] else []
    {
      NextKeepsInv(View(), MasterStep(m), Sizes());
      if item_to_produce >= total_items {
        masters := masters[m := Done];
      } else if curr_buf_size == max_buf_size {
        masters := masters[m := Asleep];
      } else {
        Produce();
      }
    }

    /** One turn of worker_thread_create's loop. */
    method Work(w: nat)
      requires Valid() && w < |workers| && workers[w] == Ready
      modifies `curr_buf_size, `item_read, `consumed, `held, `masters, `workers
      ensures Valid() && View() == Next(old(View()), WorkerStep(w), Sizes())
      ensures produced == old(produced)
      ensures consumed == old(consumed) + if old(item_read < total_items && curr_buf_size > 0) then [old(buffer[curr_buf_size - 1])] else []
    {
      NextKeepsInv(View(), WorkerStep(w), Sizes());
      if item_read >= total_items {
        workers := workers[w := Done];
      } else if curr_buf_size == 0 {
        workers := workers[w := Asleep];
      } else {
        Consume();
      }
    }

    method Do(e: Event)
      requires Valid()
      modifies this, buffer
      ensures Valid() && View() == Next(old(View()), e, Sizes())
    {
      match e
      case MasterStep(t) => if t < |masters| && masters[t] == Ready { Generate(t); }
      case WorkerStep(t) => if t < |workers| && workers[t] == Ready { Work(t); }
      case SpuriousMaster(t) => if t < |masters| && masters[t] == Asleep { masters := masters[t := Ready]; }
      case SpuriousWorker(t) => if t < |workers| && workers[t] == Asleep { workers := workers[t := Ready]; }
    }

    /** Any interleaving, with any spurious wakeups, is a run of the state machine and keeps the ledger. */
    method Run(events: seq<Event>)
      requires Valid()
      modifies this, buffer
      ensures Valid() && View() == After(old(View()), events, Sizes())
    {
      assert events[0..] == events;
      for i := 0 to |events|
        invariant Valid() && After(View(), events[i..], Sizes()) == After(old(View()), events, Sizes())
      {
        assert events[i..][0] == events[i] && events[i..][1..] == events[i + 1..];
        Do(events[i]);
      }
    }
  }

  /** With room for an item, a master and a worker, the threads are never all asleep. */
  lemma NeverStuck(p: Pool)
    requires p.Valid() && p.max_buf_size >= 1 && p.masters != [] && p.workers != []
    ensures !Stuck(p.View())
  {
    if Stuck(p.View()) { StuckNeeds(p.View(), p.Sizes()); }
  }

  /** A thread has left its loop only when every item was handed out; a worker, only when every item was consumed. */
  lemma WorkerDone(p: Pool, w: nat)
    requires p.Valid() && w < |p.workers| && p.workers[w] == Done && p.total_items >= 0
    ensures multiset(p.consumed) == multiset(p.produced) && p.item_read == p.total_items == |p.produced|
    ensures forall k :: 0 <= k < p.total_items ==> multiset(p.consumed)[k] == 1
  {
    assert p.held == [];
    forall k | 0 <= k < p.total_items ensures multiset(p.consumed)[k] == 1 { OnceEach(p.produced, k); }
  }

  /** In 0, 1, 2, ... every number occurs once. */
  lemma {:induction false} OnceEach(s: seq<int>, k: int)
    requires forall i :: 0 <= i < |s| ==> s[i] == i
    ensures multiset(s)[k] == if 0 <= k < |s| then 1 else 0
    decreases |s|
  {
    if s != [] {
      var n := |s| - 1;
      OnceEach(s[..n], k);
      assert s == s[..n] + [s[n]];
    }
  }

  /** At every moment each item handed out is consumed or in the buffer, once, and nothing else is. */
  lemma EachItemOnce(p: Pool, k: int)
    requires p.Valid()
    ensures multiset(p.consumed)[k] + multiset(p.buffer[..p.curr_buf_size])[k] == if 0 <= k < p.item_to_produce then 1 else 0
  {
    assert p.buffer[..p.curr_buf_size] == p.held;
    OnceEach(p.produced, k);
  }
}
