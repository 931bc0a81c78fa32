/**
 The two read-write locks built on one mutex and two condition variables (pthreads-sync-code/rwlock).

 A step runs one thread from acquiring main_lock, by a call or by waking from pthread_cond_wait, to
 releasing it, by returning or by waiting. A signal wakes some waiting thread, whichever the system
 picks, and a waiting thread may also wake for no reason.
 */
module RwLocks {
  /** Where a thread is with respect to the lock. WokenW waited in WriterLock and has yet to look again. */
  datatype Thread = Out | WantR | SleepR | HoldR | WantW | SleepW | WokenW | HoldW

  datatype Event = ComeToRead(t: nat) | ComeToWrite(t: nat) | Step(t: nat) | Spurious(t: nat)

  function Count(ts: seq<Thread>, k: Thread): nat {
    if ts == [] then 0 else (if ts[|ts| - 1] == k then 1 else 0) + Count(ts[..|ts| - 1], k)
  }

  function One(b: bool): nat { if b then 1 else 0 }

  lemma {:induction false} CountSet(ts: seq<Thread>, i: nat, x: Thread, k: Thread)
    requires i < |ts|
    ensures Count(ts[i := x], k) + One(ts[i] == k) == Count(ts, k) + One(x == k)
    decreases |ts|
  {
    var n := |ts| - 1;
    if i == n {
      assert ts[i := x][..n] == ts[..n];
    } else {
      assert ts[i := x][..n] == ts[..n][i := x];
      CountSet(ts[..n], i, x, k);
    }
  }

  lemma {:induction false} CountSame(a: seq<Thread>, b: seq<Thread>, k: Thread)
    requires |a| == |b| && forall i :: 0 <= i < |a| ==> (a[i] == k <==> b[i] == k)
    ensures Count(a, k) == Count(b, k)
    decreases |a|
  {
    if a != [] { CountSame(a[..|a| - 1], b[..|b| - 1], k); }
  }

  lemma {:induction false} CountAt(ts: seq<Thread>, i: nat)
    requires i < |ts|
    ensures Count(ts, ts[i]) >= 1
    decreases |ts|
  {
    if i < |ts| - 1 { CountAt(ts[..|ts| - 1], i); }
  }

  lemma {:induction false} CountTwo(ts: seq<Thread>, i: nat, j: nat)
    requires i < j < |ts| && ts[i] == ts[j]
    ensures Count(ts, ts[i]) >= 2
    decreases |ts|
  {
    if j < |ts| - 1 { CountTwo(ts[..|ts| - 1], i, j); } else { CountAt(ts[..|ts| - 1], i); }
  }

  lemma {:induction false} CountSome(ts: seq<Thread>, k: Thread) returns (i: nat)
    requires Count(ts, k) >= 1
    ensures i < |ts| && ts[i] == k
    decreases |ts|
  {
    if ts[|ts| - 1] == k { i := |ts| - 1; } else { i := CountSome(ts[..|ts| - 1], k); }
  }

  lemma {:induction false} CountNone(ts: seq<Thread>, k: Thread)
    requires forall i :: 0 <= i < |ts| ==> ts[i] != k
    ensures Count(ts, k) == 0
    decreases |ts|
  {
    if ts != [] { CountNone(ts[..|ts| - 1], k); }
  }

  /** Changing one thread, for every count the locks keep. */
  lemma Moved(ts: seq<Thread>, i: nat, x: Thread)
    requires i < |ts|
    ensures forall k :: Count(ts[i := x], k) + One(ts[i] == k) == Count(ts, k) + One(x == k)
  {
    forall k ensures Count(ts[i := x], k) + One(ts[i] == k) == Count(ts, k) + One(x == k) { CountSet(ts, i, x, k); }
  }

  /** A waiting writer on a free lock has a woken writer before it. */
  ghost predicate WritersOk(ts: seq<Thread>, free: bool) {
    free && Count(ts, SleepW) > 0 ==> Count(ts, WokenW) > 0
  }

  /** The fields of the lock say who holds it: any number of readers, or one writer alone. */
  ghost predicate Holders(ts: seq<Thread>, numReaders: int, writerPresent: int) {
    && numReaders == Count(ts, HoldR) && writerPresent == Count(ts, HoldW)
    && writerPresent <= 1 && (writerPresent == 1 ==> numReaders == 0)
  }

  /** A thread holding the lock to write excludes every other holder. */
  lemma Exclusion(ts: seq<Thread>, numReaders: int, writerPresent: int, i: nat, j: nat)
    requires Holders(ts, numReaders, writerPresent) && i < |ts| && j < |ts| && i != j && ts[i] == HoldW
    ensures ts[j] != HoldR && ts[j] != HoldW
  {
    CountAt(ts, i);
    CountAt(ts, j);
    if ts[j] == HoldW { CountTwo(ts, if i < j then i else j, if i < j then j else i); }
  }

  // ---- The condition variables --------------------------------------------------------------------

  /** The threads after a signal: one waiting writer is woken, if any waits. */
  ghost predicate Signalled(a: seq<Thread>, b: seq<Thread>) {
    (b == a && SleepW !in a) || exists t: nat :: t < |a| && a[t] == SleepW && b == a[t := WokenW]
  }

  /** The threads after a broadcast: every waiting reader is woken. */
  ghost predicate Broadcast(a: seq<Thread>, b: seq<Thread>) {
    |b| == |a| && forall i :: 0 <= i < |a| ==> b[i] == if a[i] == SleepR then WantR else a[i]
  }

  /** pthread_cond_signal(&cond_writer) */
  method SignalWriter(ts: seq<Thread>) returns (r: seq<Thread>)
    ensures Signalled(ts, r)
    ensures forall k :: k != SleepW && k != WokenW ==> Count(r, k) == Count(ts, k)
    ensures Count(r, SleepW) + Count(r, WokenW) == Count(ts, SleepW) + Count(ts, WokenW)
    ensures Count(r, SleepW) > 0 ==> Count(r, WokenW) > 0
  {
    r := ts;
    if Count(ts, SleepW) > 0 { ghost var t := CountSome(ts, SleepW); }
    if t :| 0 <= t < |ts| && ts[t] == SleepW {
      Moved(ts, t, WokenW);
      r := ts[t := WokenW];
    }
  }

  /** pthread_cond_broadcast(&cond_reader) */
  method BroadcastReaders(ts: seq<Thread>) returns (r: seq<Thread>)
    ensures Broadcast(ts, r) && Count(r, SleepR) == 0
    ensures forall k :: k != SleepR && k != WantR ==> Count(r, k) == Count(ts, k)
  {
    r := ts;
    for i := 0 to |ts|
      invariant |r| == |ts|
      invariant forall j :: 0 <= j < i ==> r[j] == if ts[j] == SleepR then WantR else ts[j]
      invariant forall j :: i <= j < |r| ==> r[j] == ts[j]
    {
      if r[i] == SleepR { r := r[i := WantR]; }
    }
    CountNone(r, SleepR);
    forall k | k != SleepR && k != WantR ensures Count(r, k) == Count(ts, k) { CountSame(r, ts, k); }
  }

  // ---- What happens to a thread outside the lock's code -------------------------------------------

  /** A thread calls ReaderLock or WriterLock, or a waiting one wakes though nobody signalled it. */
  function Outside(ts: seq<Thread>, e: Event): seq<Thread> {
    if e.t >= |ts| then ts
    else match e
      case ComeToRead(t) => if ts[t] == Out then ts[t := WantR] else ts
      case ComeToWrite(t) => if ts[t] == Out then ts[t := WantW] else ts
      case Spurious(t) => if ts[t] == SleepR then ts[t := WantR] else if ts[t] == SleepW then ts[t := WokenW] else ts
      case Step(_) => ts
  }

  lemma OutsideCounts(ts: seq<Thread>, e: Event)
    ensures |Outside(ts, e)| == |ts|
    ensures forall k :: k == HoldR || k == HoldW ==> Count(Outside(ts, e), k) == Count(ts, k)
    ensures Count(Outside(ts, e), SleepW) + Count(Outside(ts, e), WokenW) == Count(ts, SleepW) + Count(ts, WokenW)
    ensures Count(Outside(ts, e), SleepW) <= Count(ts, SleepW) && Count(Outside(ts, e), SleepR) <= Count(ts, SleepR)
  {
    if e.t < |ts| {
      Moved(ts, e.t, WantR);
      Moved(ts, e.t, WantW);
      Moved(ts, e.t, WokenW);
    }
  }

  /** Every waiting thread has a cause: somebody holds the lock, or a woken writer is about to look at it. */
  ghost predicate Caused(ts: seq<Thread>) {
    && WritersOk(ts, Count(ts, HoldR) == 0 && Count(ts, HoldW) == 0)
    && (Count(ts, SleepR) > 0 ==> Count(ts, HoldW) > 0 || Count(ts, SleepW) + Count(ts, WokenW) > 0)
  }

  /** If a thread waits, some thread holds the lock or is a woken writer about to look at it. */
  lemma SomeoneMoves(ts: seq<Thread>, t: nat) returns (j: nat)
    requires Caused(ts) && t < |ts| && (ts[t] == SleepR || ts[t] == SleepW)
    ensures j < |ts| && (ts[j] == HoldR || ts[j] == HoldW || ts[j] == WokenW)
  {
    CountAt(ts, t);
    var k := if Count(ts, HoldR) > 0 then HoldR else if Count(ts, HoldW) > 0 then HoldW else WokenW;
    j := CountSome(ts, k);
  }

  // ---- What a step does -------------------------------------------------------------------------------

  /** Nobody has the lock to write, and writers that wait keep readers out where they come first. */
  ghost predicate ReadersWelcome(ts: seq<Thread>, writersFirst: bool) {
    Count(ts, HoldW) == 0 && (writersFirst ==> Count(ts, SleepW) + Count(ts, WokenW) == 0)
  }

  /** The threads after the last holder has left: who is woken. */
  ghost predicate LetIn(a: seq<Thread>, b: seq<Thread>, writersFirst: bool) {
    if !writersFirst then exists m :: Signalled(a, m) && Broadcast(m, b)
    else if Count(a, SleepW) + Count(a, WokenW) > 0 then Signalled(a, b) else Broadcast(a, b)
  }

  /** Thread t goes on from where it is in the lock's code. */
  ghost predicate Stepped(a: seq<Thread>, t: nat, b: seq<Thread>, writersFirst: bool)
    requires t < |a|
  {
    match a[t]
    case WantR => b == a[t := if ReadersWelcome(a, writersFirst) then HoldR else SleepR]
    case HoldR => if Count(a, HoldR) == 1 then Signalled(a[t := Out], b) else b == a[t := Out]
    case HoldW => LetIn(a[t := Out], b, writersFirst)
    case WantW => b == a[t := if Count(a, HoldR) + Count(a, HoldW) == 0 then HoldW else SleepW]
    case WokenW => b == a[t := if Count(a, HoldR) + Count(a, HoldW) == 0 then HoldW else SleepW]
    case _ => b == a
  }

  ghost predicate Effect(a: seq<Thread>, e: Event, b: seq<Thread>, writersFirst: bool) {
    |b| == |a| && if e.Step? && e.t < |a| then Stepped(a, e.t, b, writersFirst) else b == Outside(a, e)
  }

  /** The threads before and after each event of a run. */
  ghost predicate Trace(trace: seq<seq<Thread>>, events: seq<Event>, writersFirst: bool) {
    |trace| == |events| + 1 && forall i :: 0 <= i < |events| ==> Effect(trace[i], events[i], trace[i + 1], writersFirst)
  }

  /** When the last holder leaves and writers wait, one is woken, and going on it gets the lock. */
  lemma WriterGetsLock(a: seq<Thread>, t: nat, b: seq<Thread>, w: nat, writersFirst: bool) returns (x: nat)
    requires t < |a| && w < |a| && a[w] == SleepW && Stepped(a, t, b, writersFirst)
    requires || (a[t] == HoldR && Count(a, HoldR) == 1 && Count(a, HoldW) == 0)
             || (a[t] == HoldW && Count(a, HoldW) == 1 && Count(a, HoldR) == 0)
    ensures x < |a| && a[x] == SleepW && b[x] == WokenW
    ensures forall c :: Stepped(b, x, c, writersFirst) ==> c == b[x := HoldW]
  {
    Moved(a, t, Out);
    var a' := a[t := Out];
    assert a'[w] == SleepW;
    CountAt(a', w);
    var m := b;
    if a[t] == HoldW && !writersFirst { m :| Signalled(a', m) && Broadcast(m, b); }
    x :| x < |a'| && a'[x] == SleepW && m == a'[x := WokenW];
    Moved(a', x, WokenW);
    CountSame(m, b, HoldR);
    CountSame(m, b, HoldW);
  }

  /** When a writer leaves and no writer waits, every waiting reader is woken and, going on, gets in beside the others. */
  lemma ReadersGetLock(a: seq<Thread>, t: nat, b: seq<Thread>, r: nat, writersFirst: bool)
    requires t < |a| && r < |a| && a[t] == HoldW && Count(a, HoldW) == 1 && a[r] == SleepR && Stepped(a, t, b, writersFirst)
    requires Count(a, SleepW) + Count(a, WokenW) == 0
    ensures r < |b| && b[r] == WantR && Count(b, HoldW) == 0
    ensures forall c :: Stepped(b, r, c, writersFirst) ==> c == b[r := HoldR]
    ensures forall c, q: nat :: Stepped(b, r, c, writersFirst) && q < |b| && b[q] == WantR && q != r ==>
      c[q] == WantR && ReadersWelcome(c, writersFirst)
  {
    Moved(a, t, Out);
    var a' := a[t := Out];
    if SleepW in a' {
      var w :| 0 <= w < |a'| && a'[w] == SleepW;
      CountAt(a', w);
    }
    CountSame(a', b, HoldW);
    CountSame(a', b, SleepW);
    CountSame(a', b, WokenW);
    Moved(b, r, HoldR);
  }

  // ---- Writers first ----------------------------------------------------------------------------------

  /** struct read_write_lock under rwlock-writer-pref.cpp, and the threads that use it. */
  class WriterPref {
    var num_readers: int
    var num_writers_waiting: int
    var writer_present: int
    var threads: seq<Thread>

    ghost predicate Valid()
      reads this
    {
      && Holders(threads, num_readers, writer_present)
      && num_writers_waiting == Count(threads, SleepW) + Count(threads, WokenW)
      && WritersOk(threads, num_readers == 0 && writer_present == 0)
      && (Count(threads, SleepR) > 0 ==> writer_present == 1 || num_writers_waiting > 0)
    }

    constructor (n: nat)
      ensures Valid() && threads == seq(n, _ => Out)
    {
      num_readers, num_writers_waiting, writer_present, threads := 0, 0, 0, seq(n, _ => Out);
      new;
      forall k | k != Out ensures Count(threads, k) == 0 { CountNone(threads, k); }
    }

    /** ReaderLock, called or woken. */
    method ReaderLock(me: nat) returns (got: bool)
      requires Valid() && me < |threads| && threads[me] == WantR
      modifies this
      ensures Valid() && threads == old(threads)[me := if got then HoldR else SleepR]
      ensures got <==> old(Count(threads, HoldW) == 0 && Count(threads, SleepW) + Count(threads, WokenW) == 0)
    {
      Moved(threads, me, HoldR);
      Moved(threads, me, SleepR);
      if writer_present != 0 || num_writers_waiting != 0 {
        threads := threads[me := SleepR];
        return false;
      }
      num_readers := num_readers + 1;
      threads := threads[me := HoldR];
      got := true;
    }

    /** ReaderUnlock */
    method ReaderUnlock(me: nat)
      requires Valid() && me < |threads| && threads[me] == HoldR
      modifies this
      ensures Valid() && num_readers == old(num_readers) - 1
      ensures if num_readers == 0 then Signalled(old(threads)[me := Out], threads) else threads == old(threads)[me := Out]
    {
      Moved(threads, me, Out);
      CountAt(threads, me);
      num_readers := num_readers - 1;
      threads := threads[me := Out];
      if num_readers == 0 { threads := SignalWriter(threads); }
    }

    /** WriterLock, called or woken. */
    method WriterLock(me: nat) returns (got: bool)
      requires Valid() && me < |threads| && (threads[me] == WantW || threads[me] == WokenW)
      modifies this
      ensures Valid() && threads == old(threads)[me := if got then HoldW else SleepW]
      ensures got <==> old(Count(threads, HoldR) + Count(threads, HoldW) == 0)
    {
      Moved(threads, me, HoldW);
      Moved(threads, me, SleepW);
      CountAt(threads, me);
      if threads[me] == WantW { num_writers_waiting := num_writers_waiting + 1; }
      if num_readers != 0 || writer_present != 0 {
        threads := threads[me := SleepW];
        return false;
      }
      num_writers_waiting := num_writers_waiting - 1;
      writer_present := 1;
      threads := threads[me := HoldW];
      got := true;
    }

    /** WriterUnlock */
    method WriterUnlock(me: nat)
      requires Valid() && me < |threads| && threads[me] == HoldW
      modifies this
      ensures Valid() && writer_present == 0
      ensures old(num_writers_waiting) > 0 ==> Signalled(old(threads)[me := Out], threads)
      ensures old(num_writers_waiting) == 0 ==> Broadcast(old(threads)[me := Out], threads)
    {
      Moved(threads, me, Out);
      CountAt(threads, me);
      writer_present := 0;
      threads := threads[me := Out];
      if num_writers_waiting == 0 {
        threads := BroadcastReaders(threads);
      } else {
        threads := SignalWriter(threads);
      }
    }

    method Do(e: Event)
      requires Valid()
      modifies this
      ensures Valid() && Effect(old(threads), e, threads, true)
    {
      var t := e.t;
      if t >= |threads| { return; }
      match e
      case Step(_) =>
        match threads[t] {
          case WantR => var _ := ReaderLock(t);
          case HoldR => ReaderUnlock(t);
          case WantW => var _ := WriterLock(t);
          case WokenW => var _ := WriterLock(t);
          case HoldW =>
            Moved(threads, t, Out);
            WriterUnlock(t);
          case _ =>
        }
      case _ =>
        OutsideCounts(threads, e);
        threads := Outside(threads, e);
    }

    /** Any interleaving keeps the invariant, whichever thread each signal wakes. */
    method Run(events: seq<Event>) returns (ghost trace: seq<seq<Thread>>)
      requires Valid()
      modifies this
      ensures Valid() && Caused(threads) && |threads| == |old(threads)|
      ensures Trace(trace, events, true) && trace[0] == old(threads) && trace[|events|] == threads
    {
      trace := [threads];
      for i := 0 to |events|
        invariant Valid() && |threads| == |old(threads)|
        invariant Trace(trace, events[..i], true) && trace[0] == old(threads) && trace[i] == threads
      {
        Do(events[i]);
        trace := trace + [threads];
      }
      assert events[..|events|] == events;
    }
  }

  // ---- Readers first ----------------------------------------------------------------------------------

  /** struct read_write_lock under rwlock-reader-pref.cpp, and the threads that use it. */
  class ReaderPref {
    var num_readers: int
    var writer_present: int
    var threads: seq<Thread>

    ghost predicate Valid()
      reads this
    {
      && Holders(threads, num_readers, writer_present)
      && WritersOk(threads, num_readers == 0 && writer_present == 0)
      && (Count(threads, SleepR) > 0 ==> writer_present == 1)
    }

    constructor (n: nat)
      ensures Valid() && threads == seq(n, _ => Out)
    {
      num_readers, writer_present, threads := 0, 0, seq(n, _ => Out);
      new;
      forall k | k != Out ensures Count(threads, k) == 0 { CountNone(threads, k); }
    }

    /** ReaderLock, called or woken. */
    method ReaderLock(me: nat) returns (got: bool)
      requires Valid() && me < |threads| && threads[me] == WantR
      modifies this
      ensures Valid() && threads == old(threads)[me := if got then HoldR else SleepR]
      ensures got <==> old(Count(threads, HoldW) == 0)
    {
      Moved(threads, me, HoldR);
      Moved(threads, me, SleepR);
      if writer_present != 0 {
        threads := threads[me := SleepR];
        return false;
      }
      num_readers := num_readers + 1;
      threads := threads[me := HoldR];
      got := true;
    }

    /** ReaderUnlock, whose wait for a present writer never blocks: a reader is still inside. */
    method ReaderUnlock(me: nat)
      requires Valid() && me < |threads| && threads[me] == HoldR
      modifies this
      ensures Valid() && num_readers == old(num_readers) - 1
      ensures if num_readers == 0 then Signalled(old(threads)[me := Out], threads) else threads == old(threads)[me := Out]
    {
      Moved(threads, me, Out);
      CountAt(threads, me);
      if writer_present != 0 { assert false; }
      num_readers := num_readers - 1;
      threads := threads[me := Out];
      if num_readers == 0 { threads := SignalWriter(threads); }
    }

    /** WriterLock, called or woken. */
    method WriterLock(me: nat) returns (got: bool)
      requires Valid() && me < |threads| && (threads[me] == WantW || threads[me] == WokenW)
      modifies this
      ensures Valid() && threads == old(threads)[me := if got then HoldW else SleepW]
      ensures got <==> old(Count(threads, HoldR) + Count(threads, HoldW) == 0)
    {
      Moved(threads, me, HoldW);
      Moved(threads, me, SleepW);
      CountAt(threads, me);
      if num_readers != 0 || writer_present != 0 {
        threads := threads[me := SleepW];
        return false;
      }
      writer_present := 1;
      threads := threads[me := HoldW];
      got := true;
    }

    /** WriterUnlock */
    method WriterUnlock(me: nat)
      requires Valid() && me < |threads| && threads[me] == HoldW
      modifies this
      ensures Valid() && writer_present == 0
      ensures exists m :: Signalled(old(threads)[me := Out], m) && Broadcast(m, threads)
    {
      Moved(threads, me, Out);
      CountAt(threads, me);
      writer_present := 0;
      threads := threads[me := Out];
      threads := SignalWriter(threads);
      threads := BroadcastReaders(threads);
    }

    method Do(e: Event)
      requires Valid()
      modifies this
      ensures Valid() && Effect(old(threads), e, threads, false)
    {
      var t := e.t;
      if t >= |threads| { return; }
      match e
      case Step(_) =>
        match threads[t] {
          case WantR => var _ := ReaderLock(t);
          case HoldR => ReaderUnlock(t);
          case WantW => var _ := WriterLock(t);
          case WokenW => var _ := WriterLock(t);
          case HoldW => WriterUnlock(t);
          case _ =>
        }
      case _ =>
        OutsideCounts(threads, e);
        threads := Outside(threads, e);
    }

    /** Any interleaving keeps the invariant, whichever thread each signal wakes. */
    method Run(events: seq<Event>) returns (ghost trace: seq<seq<Thread>>)
      requires Valid()
      modifies this
      ensures Valid() && Caused(threads) && |threads| == |old(threads)|
      ensures Trace(trace, events, false) && trace[0] == old(threads) && trace[|events|] == threads
    {
      trace := [threads];
      for i := 0 to |events|
        invariant Valid() && |threads| == |old(threads)|
        invariant Trace(trace, events[..i], false) && trace[0] == old(threads) && trace[i] == threads
      {
        Do(events[i]);
        trace := trace + [threads];
      }
      assert events[..|events|] == events;
    }
  }
}
