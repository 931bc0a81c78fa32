/**
 Pipes (pipe.c) over sleep and wakeup (proc.c).

 A step runs one process from where it holds the pipe's lock to where it lets it go: by returning,
 or by going to sleep. The counters wrap at 2^32 as C's uint does.
 */
module Pipe {
  const PIPESIZE: nat := 512
  const WRAP: nat := 0x1_0000_0000

  /** What a process asked for: bytes to write and how many are in, or a number of bytes to read. */
  datatype Call = Write(addr: seq<char>, i: nat) | Read(n: int)

  /** A process with respect to this pipe; a sleeper's channel is nwrite for Write and nread for Read. */
  datatype Proc = Idle | Ready(call: Call) | Asleep(call: Call)

  datatype Outcome = Slept | Returned(r: int)

  datatype Event = Start(p: nat, call: Call) | Step(p: nat) | Kill(p: nat) | CloseRead | CloseWrite

  predicate Sleeping(q: Proc, writers: bool) {
    q.Asleep? && q.call.Write? == writers
  }

  predicate Inside(q: Proc, writers: bool) {
    !q.Idle? && q.call.Write? == writers
  }

  /** What a wakeup on one of the channels does to a process. */
  function Wake(q: Proc, writers: bool): Proc {
    if Sleeping(q, writers) then Ready(q.call) else q
  }

  // ---- Counters that wrap ------------------------------------------------------------------------

  /** Because 512 divides 2^32, the wrapped counter picks the same slot as the true count. */
  lemma SlotOfWrapped(n: nat)
    ensures (n % WRAP) % PIPESIZE == n % PIPESIZE
  {
    var q := n / WRAP;
    assert n == q * WRAP + n % WRAP && WRAP == 0x80_0000 * PIPESIZE;
    assert n % WRAP == n - (q * 0x80_0000) * PIPESIZE;
  }

  /** The wrapped tests for empty and full are the true ones while at most PIPESIZE bytes are in flight. */
  lemma WrappedTests(r: nat, w: nat)
    requires r <= w <= r + PIPESIZE
    ensures r % WRAP == w % WRAP <==> r == w
    ensures w % WRAP == (r % WRAP + PIPESIZE) % WRAP <==> w == r + PIPESIZE
  {
  }

  lemma WrappedNext(n: nat)
    ensures (n % WRAP + 1) % WRAP == (n + 1) % WRAP
  {
  }

  /** Different places at most PIPESIZE - 1 apart have different slots. */
  lemma SlotsDiffer(a: nat, b: nat)
    requires a < b < a + PIPESIZE
    ensures a % PIPESIZE != b % PIPESIZE
  {
  }

  // ---- What each event does --------------------------------------------------------------------------

  /** The bytes written and taken, the open ends, the processes, and what their calls returned, in order. */
  datatype View = View(written: seq<char>, taken: seq<char>, readopen: bool, writeopen: bool,
                       procs: seq<Proc>, killed: seq<bool>, returned: seq<(nat, int)>)

  /** What was read is a beginning of what was written, with at most PIPESIZE bytes in between. */
  ghost predicate Ordered(v: View) {
    && v.taken <= v.written && |v.written| <= |v.taken| + PIPESIZE && |v.killed| == |v.procs|
    && forall p :: 0 <= p < |v.procs| && Inside(v.procs[p], true) ==> v.procs[p].call.i <= |v.procs[p].call.addr|
  }

  function Least(a: int, b: int): int { if a < b then a else b }

  ghost function WakeAll(procs: seq<Proc>, writers: bool): (r: seq<Proc>)
    ensures |r| == |procs| && forall p :: 0 <= p < |r| ==> r[p] == Wake(procs[p], writers)
  {
    seq(|procs|, p requires 0 <= p < |procs| => Wake(procs[p], writers))
  }

  /** A writer puts in what fits, and returns when all is in; else it sleeps, or gives up with nobody woken. */
  ghost function WriterStep(v: View, p: nat): (r: View)
    requires Ordered(v) && p < |v.procs| && v.procs[p].Ready? && v.procs[p].call.Write?
    ensures Ordered(r)
  {
    var addr, i := v.procs[p].call.addr, v.procs[p].call.i;
    var k := Least(|addr| - i, PIPESIZE - (|v.written| - |v.taken|));
    var w := v.(written := v.written + addr[i..i + k]);
    if i + k == |addr| then
      w.(procs := WakeAll(v.procs, false)[p := Idle], returned := v.returned + [(p, |addr|)])
    else if v.readopen && !v.killed[p] then
      w.(procs := WakeAll(v.procs, false)[p := Asleep(Write(addr, i + k))])
    else
      w.(procs := v.procs[p := Idle], returned := v.returned + [(p, -1)])
  }

  /** A reader takes what is there, up to what it asked for; with nothing there it waits while the other end is open. */
  ghost function ReaderStep(v: View, p: nat): (r: View)
    requires Ordered(v) && p < |v.procs| && v.procs[p].Ready? && v.procs[p].call.Read?
    ensures Ordered(r)
  {
    var n := v.procs[p].call.n;
    var flying := |v.written| - |v.taken|;
    var k := if n < 0 then 0 else Least(n, flying);
    if flying > 0 || !v.writeopen then
      v.(taken := v.written[..|v.taken| + k], procs := WakeAll(v.procs, true)[p := Idle], returned := v.returned + [(p, k)])
    else if v.killed[p] then
      v.(procs := v.procs[p := Idle], returned := v.returned + [(p, -1)])
    else
      v.(procs := v.procs[p := Asleep(Read(n))])
  }

  ghost predicate AnyIn(v: View, writers: bool) {
    exists p :: 0 <= p < |v.procs| && Inside(v.procs[p], writers)
  }

  /** One event; one that cannot happen now leaves everything as it is. */
  ghost function Next(v: View, e: Event): (r: View)
    requires Ordered(v)
    ensures Ordered(r) && v.written <= r.written && v.taken <= r.taken
  {
    match e
    case Start(p, call) =>
      if p < |v.procs| && v.procs[p] == Idle && (if call.Write? then v.writeopen && call.i == 0 else v.readopen)
      then v.(procs := v.procs[p := Ready(call)]) else v
    case Step(p) =>
      if p < |v.procs| && v.procs[p].Ready? then
        if v.procs[p].call.Write? then WriterStep(v, p) else ReaderStep(v, p)
      else v
    case Kill(p) =>
      if p < |v.procs| then v.(killed := v.killed[p := true], procs := v.procs[p := Wake(Wake(v.procs[p], false), true)]) else v
    case CloseRead => if AnyIn(v, false) then v else v.(readopen := false, procs := WakeAll(v.procs, true))
    case CloseWrite => if AnyIn(v, true) then v else v.(writeopen := false, procs := WakeAll(v.procs, false))
  }

  ghost function After(v: View, events: seq<Event>): (r: View)
    requires Ordered(v)
    ensures Ordered(r) && v.written <= r.written && v.taken <= r.taken
    decreases |events|
  {
    if events == [] then v else After(Next(v, events[0]), events[1..])
  }

  lemma First(v: View, e: Event, rest: seq<Event>)
    requires Ordered(v)
    ensures After(v, [e] + rest) == After(Next(v, e), rest)
  {
    assert ([e] + rest)[0] == e && ([e] + rest)[1..] == rest;
  }

  lemma AfterFrom(v: View, events: seq<Event>, k: nat)
    requires Ordered(v) && k < |events|
    ensures After(v, events[k..]) == After(Next(v, events[k]), events[k + 1..])
  {
    assert events[k..] == [events[k]] + events[k + 1..];
    First(v, events[k], events[k + 1..]);
  }

  ghost predicate NobodyKilled(killed: seq<bool>) {
    forall p :: 0 <= p < |killed| ==> !killed[p]
  }

  lemma Calm(v: View, events: seq<Event>, k: nat)
    requires Ordered(v) && k < |events| && NobodyKilled(v.killed) && forall e :: e in events ==> !e.Kill?
    ensures NobodyKilled(Next(v, events[k]).killed) && !events[k].Kill?
    ensures events[k].Step? && events[k].p < |v.killed| ==> !v.killed[events[k].p]
  {
    assert events[k] in events;
  }

  // ---- Runs that move ----------------------------------------------------------------------------------

  /** A reader that asks for a pipeful and sleeps, a writer that fills the pipe and sleeps, and the reader again: k times. */
  ghost function Rounds(r: nat, w: nat, k: nat): seq<Event> {
    if k == 0 then [] else [Start(r, Read(PIPESIZE))] + ([Step(r)] + ([Step(w)] + ([Step(r)] + Rounds(r, w, k - 1))))
  }

  /** r is outside, w is writing m from i on, nothing is in flight and nobody is killed. */
  ghost predicate Sending(v: View, r: nat, w: nat, m: seq<char>, i: nat) {
    && Ordered(v) && r < |v.procs| && w < |v.procs| && r != w && i <= |m|
    && v.procs[r] == Idle && v.procs[w] == Ready(Write(m, i)) && v.readopen && v.writeopen
    && !v.killed[r] && !v.killed[w] && v.written == v.taken
  }

  /** A round's end: some of m has passed, and the writer is out of the pipe or back to write the rest. */
  ghost predicate Passed(v: View, v': View, r: nat, w: nat, m: seq<char>, i: nat)
    requires i <= |m|
  {
    && v'.written == v'.taken && |v'.procs| == |v.procs|
    && (|m| <= i + PIPESIZE ==>
         && v'.taken == v.taken + m[i..] && v'.returned == v.returned + [(w, |m|), (r, |m| - i)]
         && r < |v.procs| && w < |v.procs| && v'.procs[r] == v'.procs[w] == Idle)
    && (|m| > i + PIPESIZE ==>
         && v'.taken == v.taken + m[i..i + PIPESIZE] && v'.returned == v.returned + [(r, PIPESIZE)]
         && Sending(v', r, w, m, i + PIPESIZE))
  }

  /** One round passes PIPESIZE bytes, or what is left, from the writer to the reader. */
  lemma OneRound(v: View, r: nat, w: nat, m: seq<char>, i: nat)
    requires Sending(v, r, w, m, i) && i < |m|
    ensures Passed(v, Next(Next(Next(Next(v, Start(r, Read(PIPESIZE))), Step(r)), Step(w)), Step(r)), r, w, m, i)
  {
    var v1 := Next(v, Start(r, Read(PIPESIZE)));
    var v2 := Next(v1, Step(r));
    assert v2.procs[r] == Asleep(Read(PIPESIZE)) && v2.procs[w] == v.procs[w];
    var v3 := Next(v2, Step(w));
    var k := Least(|m| - i, PIPESIZE);
    assert v3.written == v.written + m[i..i + k] && v3.procs[r] == Ready(Read(PIPESIZE));
    var v4 := Next(v3, Step(r));
    assert v4.taken == v.taken + m[i..i + k];
  }

  ghost function Passes(n: nat): nat { (n + PIPESIZE - 1) / PIPESIZE }

  lemma PassesLess(n: nat)
    requires n > 0
    ensures Passes(n) == if n <= PIPESIZE then 1 else Passes(n - PIPESIZE) + 1
  {
  }

  /**
   A message of any length gets through: in as many rounds as it has pipefuls the reader has taken all of it,
   each sleeper having been woken by the other side, and the last calls have returned.
   */
  lemma {:induction false} Delivers(v: View, r: nat, w: nat, m: seq<char>, i: nat)
    requires Sending(v, r, w, m, i) && i < |m|
    ensures var v' := After(v, Rounds(r, w, Passes(|m| - i)));
      && v'.taken == v'.written == v.taken + m[i..]
      && |v'.procs| == |v.procs| && v'.procs[r] == v'.procs[w] == Idle && (w, |m|) in v'.returned
    decreases |m| - i
  {
    var v' := Next(Next(Next(Next(v, Start(r, Read(PIPESIZE))), Step(r)), Step(w)), Step(r));
    OneRound(v, r, w, m, i);
    var k := Passes(|m| - i);
    RoundFirst(v, r, w, k - 1);
    PassesLess(|m| - i);
    if |m| <= i + PIPESIZE {
      assert v'.returned[|v.returned|] == (w, |m|);
    } else {
      Delivers(v', r, w, m, i + PIPESIZE);
      Joined(v.taken, m, i, i + PIPESIZE);
    }
  }

  lemma Joined(t: seq<char>, m: seq<char>, i: nat, j: nat)
    requires i <= j <= |m|
    ensures t + m[i..j] + m[j..] == t + m[i..]
  {
  }

  lemma RoundFirst(v: View, r: nat, w: nat, k: nat)
    requires Ordered(v)
    ensures var v' := Next(Next(Next(Next(v, Start(r, Read(PIPESIZE))), Step(r)), Step(w)), Step(r));
      After(v, Rounds(r, w, k + 1)) == After(v', Rounds(r, w, k))
  {
    var rest := Rounds(r, w, k);
    var v1 := Next(v, Start(r, Read(PIPESIZE)));
    var v2 := Next(v1, Step(r));
    var v3 := Next(v2, Step(w));
    First(v, Start(r, Read(PIPESIZE)), [Step(r)] + ([Step(w)] + ([Step(r)] + rest)));
    First(v1, Step(r), [Step(w)] + ([Step(r)] + rest));
    First(v2, Step(w), [Step(r)] + rest);
    First(v3, Step(r), rest);
  }

  /** A reader that keeps asking for n bytes. */
  ghost function Reads(r: nat, n: int, k: nat): seq<Event> {
    if k == 0 then [] else [Start(r, Read(n))] + ([Step(r)] + Reads(r, n, k - 1))
  }

  /** Once the writing end is closed, reading goes on to the end of what was written, and then returns 0. */
  lemma {:induction false} ReadsToTheEnd(v: View, r: nat, n: nat, k: nat)
    requires Ordered(v) && r < |v.procs| && v.procs[r] == Idle && v.readopen && !v.writeopen
    requires n > 0 && k > |v.written| - |v.taken|
    ensures var v' := After(v, Reads(r, n, k));
      && v'.taken == v.written == v'.written && v'.returned != [] && v'.returned[|v'.returned| - 1] == (r, 0)
    decreases k
  {
    var v1 := Next(v, Start(r, Read(n)));
    var v2 := Next(v1, Step(r));
    First(v, Start(r, Read(n)), [Step(r)] + Reads(r, n, k - 1));
    First(v1, Step(r), Reads(r, n, k - 1));
    if k > 1 { ReadsToTheEnd(v2, r, n, k - 1); }
  }

  /** struct pipe, and the part of the process table that deals with it. */
  class PipeState {
    const data: array<char>
    var nread: nat
    var nwrite: nat
    var readopen: bool
    var writeopen: bool
    var procs: seq<Proc>
    var killed: seq<bool>
    ghost var written: seq<char>
    ghost var taken: seq<char>
    ghost var returned: seq<(nat, int)>

    ghost function Seen(): View
      reads `written, `taken, `readopen, `writeopen, `procs, `killed, `returned
    {
      View(written, taken, readopen, writeopen, procs, killed, returned)
    }

    /** The ring holds exactly the bytes written and not yet taken, in order. */
    ghost predicate Valid()
      reads this, data
    {
      && data.Length == PIPESIZE && |killed| == |procs|
      && nread == |taken| % WRAP && nwrite == |written| % WRAP
      && taken <= written && |written| <= |taken| + PIPESIZE
      && (forall k :: |taken| <= k < |written| ==> data[k % PIPESIZE] == written[k])
      && (forall p :: 0 <= p < |procs| && Inside(procs[p], true) ==>
        writeopen && procs[p].call.i <= |procs[p].call.addr|)
      && (forall p :: 0 <= p < |procs| && Inside(procs[p], false) ==> readopen)
    }

    ghost predicate Empty()
      reads this
    {
      |written| == |taken|
    }

    ghost predicate Full()
      reads this
    {
      |written| == |taken| + PIPESIZE
    }

    /** A sleeping reader has nothing to read, a sleeping writer no room, and the other end is open. */
    ghost predicate SleepersOk()
      reads this
    {
      && (forall p :: 0 <= p < |procs| && Sleeping(procs[p], false) ==> Empty() && writeopen)
      && (forall p :: 0 <= p < |procs| && Sleeping(procs[p], true) ==> Full() && readopen)
    }

    /** pipealloc, with no process inside. */
    constructor (nprocs: nat)
      ensures Valid() && SleepersOk() && fresh(data)
      ensures written == [] && taken == [] && returned == [] && readopen && writeopen && |procs| == nprocs
      ensures forall p :: 0 <= p < nprocs ==> procs[p] == Idle && !killed[p]
    {
      data := new char[PIPESIZE];
      nread, nwrite, readopen, writeopen := 0, 0, true, true;
      procs, killed := seq(nprocs, _ => Idle), seq(nprocs, _ => false);
      written, taken, returned := [], [], [];
    }

    /** wakeup: every process asleep on the channel becomes runnable. */
    method Wakeup(writers: bool)
      modifies `procs
      ensures |procs| == |old(procs)|
      ensures forall p :: 0 <= p < |procs| ==> procs[p] == Wake(old(procs)[p], writers)
    {
      var p := 0;
      while p < |procs|
        invariant 0 <= p <= |procs| == |old(procs)|
        invariant forall q :: 0 <= q < p ==> procs[q] == Wake(old(procs)[q], writers)
        invariant forall q :: p <= q < |procs| ==> procs[q] == old(procs)[q]
      {
        if Sleeping(procs[p], writers) { procs := procs[p := Ready(procs[p].call)]; }
        p := p + 1;
      }
    }

    /** data[nwrite++ % PIPESIZE] = c */
    method Put(c: char)
      requires Valid() && !Full()
      modifies data, `nwrite, `written
      ensures Valid() && written == old(written) + [c]
    {
      SlotOfWrapped(|written|);
      WrappedNext(|written|);
      forall k | |taken| <= k < |written| ensures k % PIPESIZE != |written| % PIPESIZE { SlotsDiffer(k, |written|); }
      data[nwrite % PIPESIZE] := c;
      nwrite := (nwrite + 1) % WRAP;
      written := written + [c];
    }

    /** data[nread++ % PIPESIZE] */
    method Get() returns (c: char)
      requires Valid() && !Empty()
      modifies `nread, `taken
      ensures Valid() && taken == old(taken) + [c]
    {
      SlotOfWrapped(|taken|);
      WrappedNext(|taken|);
      c := data[nread % PIPESIZE];
      nread := (nread + 1) % WRAP;
      taken := taken + [c];
    }

    /** Writing from addr[i] until all is in or the pipe is full. */
    method Fill(addr: seq<char>, start: nat) returns (i: nat)
      requires Valid() && start <= |addr|
      modifies data, `nwrite, `written
      ensures Valid() && start <= i <= |addr| && written == old(written) + addr[start..i]
      ensures i < |addr| ==> Full()
    {
      i := start;
      WrappedTests(|taken|, |written|);
      while i < |addr| && nwrite != (nread + PIPESIZE) % WRAP
        invariant Valid() && start <= i <= |addr| && written == old(written) + addr[start..i]
        invariant nwrite == (nread + PIPESIZE) % WRAP <==> Full()
      {
        Put(addr[i]);
        i := i + 1;
        WrappedTests(|taken|, |written|);
      }
    }

    /** A killed writer that cannot finish leaves a sleeping reader behind. */
    ghost predicate Strands(me: nat)
      requires |killed| == |procs|
      reads this
    {
      && Making(me, true) && killed[me]
      && |procs[me].call.addr| - procs[me].call.i > PIPESIZE
      && exists p :: 0 <= p < |procs| && Sleeping(procs[p], false)
    }

    /** The call that process me is making. */
    ghost predicate Making(me: nat, write: bool)
      reads this
    {
      me < |procs| && procs[me].Ready? && procs[me].call.Write? == write
    }

    /** pipewrite, from acquiring the lock (or waking with it) to releasing it. */
    method Pipewrite(me: nat) returns (out: Outcome, i: nat)
      requires Valid() && Making(me, true)
      modifies data, `nwrite, `written, `procs
      ensures Valid() && |procs| == |old(procs)|
      ensures var c := old(procs[me]).call; c.i <= i <= |c.addr| && written == old(written) + c.addr[c.i..i]
      ensures i < |old(procs[me]).call.addr| ==> Full()
      ensures out == if i == |old(procs[me]).call.addr| then Returned(i) else if readopen && !killed[me] then Slept else Returned(-1)
      ensures procs[me] == if out.Slept? then Asleep(Write(old(procs[me]).call.addr, i)) else Idle
      ensures forall p :: 0 <= p < |procs| && p != me ==>
        procs[p] == if out == Returned(-1) then old(procs)[p] else Wake(old(procs)[p], false)
      ensures old(SleepersOk()) ==> (SleepersOk() <==> !old(Strands(me)))
    {
      var addr := procs[me].call.addr;
      i := Fill(addr, procs[me].call.i);
      if i < |addr| {
        if !readopen || killed[me] {
          procs := procs[me := Idle];
          if old(SleepersOk()) { GaveUp(me); }
          return Returned(-1), i;
        }
        Wakeup(false);
        procs := procs[me := Asleep(Write(addr, i))];
        return Slept, i;
      }
      Wakeup(false);
      procs := procs[me := Idle];
      out := Returned(|addr|);
    }

    /** A writer that returned -1 with the pipe full: no reader sleeps, unless it stranded one. */
    twostate lemma GaveUp(me: nat)
      requires old(Valid()) && old(SleepersOk()) && old(Making(me, true)) && Valid() && Full()
      requires procs == old(procs)[me := Idle] && readopen == old(readopen) && killed == old(killed) && taken == old(taken)
      requires !readopen || killed[me]
      requires var c := old(procs[me]).call;
        exists i: nat {:trigger c.addr[c.i..i]} :: c.i <= i < |c.addr| && written == old(written) + c.addr[c.i..i]
      ensures SleepersOk() <==> !old(Strands(me))
    {
      forall p | 0 <= p < |procs| && Sleeping(old(procs)[p], false) ensures readopen && Sleeping(procs[p], false) {
        assert Inside(old(procs)[p], false);
      }
    }

    /** Reading up to n bytes or until the pipe is empty. */
    method Drain(n: int) returns (got: seq<char>)
      requires Valid()
      modifies `nread, `taken
      ensures Valid() && taken == old(taken) + got && |got| <= (if n < 0 then 0 else n)
      ensures |got| < n ==> Empty()
    {
      got := [];
      WrappedTests(|taken|, |written|);
      while |got| < n && nread != nwrite
        invariant Valid() && taken == old(taken) + got && |got| <= (if n < 0 then 0 else n)
        invariant nread == nwrite <==> Empty()
        decreases n - |got|
      {
        var c := Get();
        got := got + [c];
        WrappedTests(|taken|, |written|);
      }
    }

    /** piperead, from acquiring the lock (or waking with it) to releasing it. */
    method Piperead(me: nat) returns (out: Outcome, got: seq<char>)
      requires Valid() && Making(me, false)
      modifies `nread, `taken, `procs
      ensures Valid() && (old(SleepersOk()) ==> SleepersOk()) && |procs| == |old(procs)|
      ensures taken == old(taken) + got
      ensures out == if !old(Empty()) || !writeopen then Returned(|got|) else if killed[me] then Returned(-1) else Slept
      ensures out == Returned(|got|) ==> |got| == old(procs[me]).call.n || Empty() || (got == [] && old(procs[me]).call.n < 0)
      ensures |got| <= if old(procs[me]).call.n < 0 then 0 else old(procs[me]).call.n
      ensures procs[me] == if out.Slept? then Asleep(old(procs[me]).call) else Idle
      ensures forall p :: 0 <= p < |procs| && p != me ==>
        procs[p] == if out == Returned(|got|) then Wake(old(procs)[p], true) else old(procs)[p]
    {
      var n := procs[me].call.n;
      got := [];
      WrappedTests(|taken|, |written|);
      if nread == nwrite && writeopen {
        if killed[me] {
          procs := procs[me := Idle];
          return Returned(-1), got;
        }
        procs := procs[me := Asleep(Read(n))];
        return Slept, got;
      }
      got := Drain(n);
      Wakeup(true);
      procs := procs[me := Idle];
      out := Returned(|got|);
    }

    /** pipeclose, when the last descriptor of one end goes, so that no process is inside at that end. */
    method Pipeclose(writable: bool) returns (freed: bool)
      requires Valid() && forall p :: 0 <= p < |procs| ==> !Inside(procs[p], writable)
      modifies `readopen, `writeopen, `procs
      ensures Valid() && (old(SleepersOk()) ==> SleepersOk()) && |procs| == |old(procs)|
      ensures writeopen == (old(writeopen) && !writable) && readopen == (old(readopen) && writable)
      ensures forall p :: 0 <= p < |procs| ==> procs[p] == Wake(old(procs)[p], !writable)
      ensures freed == (!readopen && !writeopen)
      ensures freed ==> forall p :: 0 <= p < |procs| ==> procs[p] == Idle
    {
      if writable {
        writeopen := false;
        Wakeup(false);
      } else {
        readopen := false;
        Wakeup(true);
      }
      freed := !readopen && !writeopen;
      assert forall p :: 0 <= p < |procs| ==> procs[p].Idle? || Inside(procs[p], true) || Inside(procs[p], false);
    }

    /** kill: the process is marked, and made runnable wherever it sleeps. */
    method Kill(me: nat)
      requires Valid() && me < |procs|
      modifies `killed, `procs
      ensures Valid() && (old(SleepersOk()) ==> SleepersOk())
      ensures killed == old(killed)[me := true]
      ensures procs == old(procs)[me := Wake(Wake(old(procs)[me], false), true)]
    {
      killed := killed[me := true];
      if procs[me].Asleep? { procs := procs[me := Ready(procs[me].call)]; }
    }

    /** A process enters pipewrite or piperead through a descriptor it holds open. */
    method Enter(me: nat, call: Call)
      requires Valid() && me < |procs| && procs[me] == Idle
      requires if call.Write? then writeopen && call.i == 0 else readopen
      modifies `procs
      ensures Valid() && (old(SleepersOk()) ==> SleepersOk()) && procs == old(procs)[me := Ready(call)]
    {
      procs := procs[me := Ready(call)];
    }

    /** One event of a run, if it can happen now. */
    method Do(e: Event)
      requires Valid()
      modifies this, data
      ensures Valid() && Seen() == Next(old(Seen()), e) && old(written) <= written && old(taken) <= taken
      ensures old(SleepersOk()) ==> (SleepersOk() <==> !(e.Step? && old(Strands(e.p))))
    {
      ghost var v := Seen();
      match e
      case Start(p, call) =>
        if p < |procs| && procs[p] == Idle && (if call.Write? then writeopen && call.i == 0 else readopen) { Enter(p, call); }
      case Step(p) =>
        if p < |procs| && procs[p].Ready? {
          if procs[p].call.Write? { DoWrite(p); } else { DoRead(p); }
        }
      case Kill(p) =>
        if p < |procs| { this.Kill(p); }
      case CloseRead =>
        var inside := AnyInside(false);
        if !inside {
          var _ := Pipeclose(false);
          assert procs == WakeAll(v.procs, true);
        }
      case CloseWrite =>
        var inside := AnyInside(true);
        if !inside {
          var _ := Pipeclose(true);
          assert procs == WakeAll(v.procs, false);
        }
    }

    method DoWrite(p: nat)
      requires Valid() && Making(p, true)
      modifies this, data
      ensures Valid() && Seen() == WriterStep(old(Seen()), p)
      ensures old(SleepersOk()) ==> (SleepersOk() <==> !old(Strands(p)))
    {
      ghost var v := Seen();
      var out, i := Pipewrite(p);
      if out.Returned? { returned := returned + [(p, out.r)]; }
      assert procs == if out == Returned(-1) then v.procs[p := Idle] else WakeAll(v.procs, false)[p := procs[p]];
    }

    method DoRead(p: nat)
      requires Valid() && Making(p, false)
      modifies this
      ensures Valid() && Seen() == ReaderStep(old(Seen()), p)
      ensures old(SleepersOk()) ==> SleepersOk()
    {
      ghost var v := Seen();
      var out, got := Piperead(p);
      if out.Returned? { returned := returned + [(p, out.r)]; }
      assert procs == if out == Returned(|got|) then WakeAll(v.procs, true)[p := Idle] else v.procs[p := procs[p]];
    }

    method AnyInside(writers: bool) returns (b: bool)
      ensures b == exists p :: 0 <= p < |procs| && Inside(procs[p], writers)
    {
      var p := 0;
      while p < |procs|
        invariant 0 <= p <= |procs| && forall q :: 0 <= q < p ==> !Inside(procs[q], writers)
      {
        if Inside(procs[p], writers) { return true; }
        p := p + 1;
      }
      b := false;
    }

    /**
     Any interleaving of readers, writers, closes and kills is a run of the events' effects, so that what was
     read is a beginning of what was written; and with no process killed no wakeup is lost.
     */
    method Run(events: seq<Event>)
      requires Valid()
      modifies this, data
      ensures Valid() && Seen() == After(old(Seen()), events)
      ensures old(written) <= written && old(taken) <= taken <= written && |written| <= |taken| + PIPESIZE
      ensures old(SleepersOk()) && NobodyKilled(old(killed)) && (forall e :: e in events ==> !e.Kill?) ==> SleepersOk()
    {
      ghost var v := Seen();
      ghost var calm := SleepersOk() && NobodyKilled(killed) && forall e :: e in events ==> !e.Kill?;
      assert events[0..] == events;
      for k := 0 to |events|
        invariant Valid() && After(Seen(), events[k..]) == After(v, events)
        invariant calm ==> SleepersOk() && NobodyKilled(killed)
      {
        ghost var v1 := Seen();
        Do(events[k]);
        AfterFrom(v1, events, k);
        if calm { Calm(v1, events, k); }
      }
    }
  }

  /** A sleeping reader and a sleeping writer would need the pipe empty and full: never both. */
  lemma NotBothAsleep(s: PipeState, p: nat, q: nat)
    requires s.SleepersOk() && p < |s.procs| && q < |s.procs|
    ensures !(Sleeping(s.procs[p], false) && Sleeping(s.procs[q], true))
  {
  }

  /** A run that loses a wakeup: a writer killed while it still had bytes to write into a full pipe. */
  method KilledWriterStrandsReader() returns (s: PipeState)
    ensures |s.procs| == 2 && Sleeping(s.procs[0], false) && s.Full() && s.procs[1] == Idle
  {
    s := new PipeState(2);
    s.Enter(0, Read(1));
    var _, _ := s.Piperead(0);
    s.Enter(1, Write(seq(PIPESIZE + 1, _ => 'x'), 0));
    s.Kill(1);
    var _, _ := s.Pipewrite(1);
  }
}
