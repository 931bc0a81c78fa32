/**
 The group-commit protocol of log.c: any interleaving of begin_op, log_write and end_op by any
 number of processes. A step is what one process does while it holds log.lock, or one of the
 commit's two visible moments (emptying the header, then clearing log.committing).
 */
module GroupCommit {
  import opened Params

  datatype Proc =
    | Idle
    | Sleeping                                // in begin_op, on channel &log
    | Woken                                   // made runnable, about to test again
    | Active(used: nat, wrote: set<nat>)      // between begin_op and end_op: blocks appended, blocks logged
    | Committer(erased: bool)                 // in commit()

  datatype State = State(lh: seq<nat>, outstanding: int, committing: bool, procs: seq<Proc>)

  datatype Step =
    | Begin(p: nat)
    | LogWrite(p: nat, b: nat)
    | End(p: nat)
    | Erase(p: nat)
    | Done(p: nat)
    | Spurious(p: nat)                        // kill() makes a sleeper runnable

  /** log.size, and the number of buffers in the cache. */
  datatype Config = Config(size: int, nbuf: nat)

  /** The panics of log_write, of end_op, and of bget when commit finds no buffer. */
  datatype Cause = TooBig | Outside | Committing | NoBuffers | Disabled

  datatype Outcome = Ok(s: State) | Panic(why: Cause)

  function Init(n: nat): State {
    State([], 0, false, seq(n, _ => Idle))
  }

  predicate Enabled(s: State, step: Step) {
    && step.p < |s.procs|
    && var me := s.procs[step.p];
       match step
       case Begin(_) => me.Idle? || me.Woken?
       case LogWrite(_, _) => me.Active?
       case End(_) => me.Active?
       case Erase(_) => me.Committer? && !me.erased
       case Done(_) => me.Committer? && me.erased
       case Spurious(_) => me.Sleeping?
  }

  /** wakeup(&log) */
  function WakeAll(procs: seq<Proc>): (r: seq<Proc>)
    ensures |r| == |procs|
  {
    seq(|procs|, i requires 0 <= i < |procs| => if procs[i].Sleeping? then Woken else procs[i])
  }

  function Next(s: State, step: Step, c: Config): Outcome
    requires Enabled(s, step)
  {
    var p, me := step.p, s.procs[step.p];
    match step
    case Begin(_) =>
      if s.committing then Ok(s.(procs := s.procs[p := Sleeping]))
      else if |s.lh| + (s.outstanding + 1) * MAXOPBLOCKS > LOGSIZE then Ok(s.(procs := s.procs[p := Sleeping]))
      else Ok(s.(outstanding := s.outstanding + 1, procs := s.procs[p := Active(0, {})]))
    case LogWrite(_, b) =>
      if |s.lh| >= LOGSIZE || |s.lh| >= c.size - 1 then Panic(TooBig)
      else if s.outstanding < 1 then Panic(Outside)
      else if b in s.lh then Ok(s.(procs := s.procs[p := Active(me.used, me.wrote + {b})]))
      else Ok(s.(lh := s.lh + [b], procs := s.procs[p := Active(me.used + 1, me.wrote + {b})]))
    case End(_) =>
      if s.committing then Panic(Committing)
      else if s.outstanding - 1 == 0 then
        Ok(s.(outstanding := 0, committing := true, procs := s.procs[p := Committer(false)]))
      else
        Ok(s.(outstanding := s.outstanding - 1, procs := WakeAll(s.procs[p := Idle])))
    case Erase(_) =>
      // commit reads a log slot beside the dirty buffers of the logged blocks
      if s.lh != [] && |s.lh| >= c.nbuf then Panic(NoBuffers)
      else Ok(s.(lh := [], procs := s.procs[p := Committer(true)]))
    case Done(_) => Ok(s.(committing := false, procs := WakeAll(s.procs[p := Idle])))
    case Spurious(_) => Ok(s.(procs := s.procs[p := Woken]))
  }

  // ---- Sums over the processes ---------------------------------------------------------

  function IsActive(x: Proc): nat { if x.Active? then 1 else 0 }

  function IsCommitter(x: Proc): nat { if x.Committer? then 1 else 0 }

  /** What an operation may still append. */
  function Unused(x: Proc): nat {
    if x.Active? && x.used <= MAXOPBLOCKS then MAXOPBLOCKS - x.used else 0
  }

  function Sum(f: Proc -> nat, procs: seq<Proc>): nat {
    if procs == [] then 0 else f(procs[0]) + Sum(f, procs[1..])
  }

  lemma {:induction false} SumUpdate(f: Proc -> nat, procs: seq<Proc>, p: nat, x: Proc)
    requires p < |procs|
    ensures Sum(f, procs[p := x]) == Sum(f, procs) - f(procs[p]) + f(x)
    ensures Sum(f, procs) >= f(procs[p])
  {
    if p > 0 {
      assert procs[p := x][1..] == procs[1..][p - 1 := x];
      SumUpdate(f, procs[1..], p - 1, x);
    } else {
      assert procs[p := x][1..] == procs[1..];
    }
  }

  lemma {:induction false} SumSame(f: Proc -> nat, procs: seq<Proc>, procs': seq<Proc>)
    requires |procs| == |procs'| && forall i :: 0 <= i < |procs| ==> f(procs[i]) == f(procs'[i])
    ensures Sum(f, procs) == Sum(f, procs')
  {
    if procs != [] { SumSame(f, procs[1..], procs'[1..]); }
  }

  lemma {:induction false} SumWitness(f: Proc -> nat, procs: seq<Proc>)
    requires Sum(f, procs) > 0
    ensures exists i :: 0 <= i < |procs| && f(procs[i]) > 0
  {
    if f(procs[0]) == 0 {
      SumWitness(f, procs[1..]);
      var i :| 0 <= i < |procs[1..]| && f(procs[1..][i]) > 0;
      assert f(procs[i + 1]) > 0;
    }
  }

  lemma {:induction false} UnusedBound(procs: seq<Proc>)
    ensures Sum(Unused, procs) <= MAXOPBLOCKS * Sum(IsActive, procs)
  {
    if procs != [] { UnusedBound(procs[1..]); }
  }

  // ---- The invariant -------------------------------------------------------------------

  ghost predicate Inv(s: State) {
    && (forall i, j :: 0 <= i < j < |s.lh| ==> s.lh[i] != s.lh[j])
    && s.outstanding == Sum(IsActive, s.procs)
    && |s.lh| + Sum(Unused, s.procs) <= LOGSIZE
    && Sum(IsCommitter, s.procs) == (if s.committing then 1 else 0)
    && (s.committing ==> s.outstanding == 0)
    && (!s.committing && s.outstanding == 0 ==> s.lh == [])
    && (forall p :: 0 <= p < |s.procs| ==> ProcOk(s, s.procs[p]))
  }

  ghost predicate ProcOk(s: State, x: Proc) {
    && (x.Active? ==> x.used <= |x.wrote| <= MAXOPBLOCKS && forall b :: b in x.wrote ==> b in s.lh)
    && (x.Committer? && x.erased ==> s.lh == [])
    && (x.Sleeping? ==> s.committing || s.outstanding > 0)
  }

  /** The operation has not yet logged more than MAXOPBLOCKS distinct blocks, counting this one. */
  predicate InBudget(s: State, step: Step)
    requires Enabled(s, step)
  {
    step.LogWrite? ==> |s.procs[step.p].wrote + {step.b}| <= MAXOPBLOCKS
  }

  /** A first write of the block by this operation, or the header is not full. */
  predicate FirstOrRoom(s: State, step: Step)
    requires Enabled(s, step)
  {
    step.LogWrite? ==> step.b !in s.procs[step.p].wrote || |s.lh| < LOGSIZE
  }

  lemma InitInv(n: nat)
    ensures Inv(Init(n))
  {
    var procs := seq(n, _ => Idle);
    ZeroSum(IsActive, procs);
    ZeroSum(Unused, procs);
    ZeroSum(IsCommitter, procs);
  }

  lemma {:induction false} ZeroSum(f: Proc -> nat, procs: seq<Proc>)
    requires forall i :: 0 <= i < |procs| ==> f(procs[i]) == 0
    ensures Sum(f, procs) == 0
  {
    if procs != [] { ZeroSum(f, procs[1..]); }
  }

  lemma UpdateSums(procs: seq<Proc>, p: nat, x: Proc)
    requires p < |procs|
    ensures Sum(IsActive, procs[p := x]) == Sum(IsActive, procs) - IsActive(procs[p]) + IsActive(x)
    ensures Sum(Unused, procs[p := x]) == Sum(Unused, procs) - Unused(procs[p]) + Unused(x)
    ensures Sum(IsCommitter, procs[p := x]) == Sum(IsCommitter, procs) - IsCommitter(procs[p]) + IsCommitter(x)
    ensures Sum(IsActive, procs) >= IsActive(procs[p]) && Sum(IsCommitter, procs) >= IsCommitter(procs[p])
  {
    SumUpdate(IsActive, procs, p, x);
    SumUpdate(Unused, procs, p, x);
    SumUpdate(IsCommitter, procs, p, x);
  }

  lemma WakeSums(procs: seq<Proc>)
    ensures Sum(IsActive, WakeAll(procs)) == Sum(IsActive, procs)
    ensures Sum(Unused, WakeAll(procs)) == Sum(Unused, procs)
    ensures Sum(IsCommitter, WakeAll(procs)) == Sum(IsCommitter, procs)
  {
    SumSame(IsActive, procs, WakeAll(procs));
    SumSame(Unused, procs, WakeAll(procs));
    SumSame(IsCommitter, procs, WakeAll(procs));
  }

  lemma BiggerWrote(wrote: set<nat>, b: nat)
    ensures |wrote + {b}| == if b in wrote then |wrote| else |wrote| + 1
  {
    if b in wrote { assert wrote + {b} == wrote; }
  }

  /** A write by an operation within its reservation meets neither panic, if the log is larger than LOGSIZE. */
  lemma LogWritePasses(s: State, step: Step, c: Config)
    requires Inv(s) && Enabled(s, step) && step.LogWrite? && InBudget(s, step)
    ensures c.size > LOGSIZE ==> (Next(s, step, c).Ok? <==> |s.lh| < LOGSIZE)
    ensures !Next(s, step, c).Ok? ==> Next(s, step, c) == Panic(TooBig) && (|s.lh| >= LOGSIZE || |s.lh| >= c.size - 1)
    ensures step.b !in s.procs[step.p].wrote ==> |s.lh| < LOGSIZE
  {
    var me := s.procs[step.p];
    assert ProcOk(s, me);
    BiggerWrote(me.wrote, step.b);
    UpdateSums(s.procs, step.p, Idle);
  }

  lemma StepKeepsInv(s: State, step: Step, c: Config)
    requires Inv(s) && Enabled(s, step) && InBudget(s, step) && Next(s, step, c).Ok?
    ensures Inv(Next(s, step, c).s)
  {
    match step {
      case LogWrite(_, _) => LogWriteKeepsInv(s, step, c);
      case Begin(_) => BeginKeepsInv(s, step, c);
      case _ => OthersKeepInv(s, step, c);
    }
  }

  lemma BeginKeepsInv(s: State, step: Step, c: Config)
    requires Inv(s) && Enabled(s, step) && step.Begin?
    ensures Next(s, step, c).Ok? && Inv(Next(s, step, c).s)
  {
    var s' := Next(s, step, c).s;
    UpdateSums(s.procs, step.p, s'.procs[step.p]);
    UnusedBound(s.procs);
    forall q | 0 <= q < |s'.procs| ensures ProcOk(s', s'.procs[q]) {
      assert ProcOk(s, s.procs[q]);
    }
  }

  lemma OthersKeepInv(s: State, step: Step, c: Config)
    requires Inv(s) && Enabled(s, step) && Next(s, step, c).Ok?
    requires step.End? || step.Erase? || step.Done? || step.Spurious?
    ensures Inv(Next(s, step, c).s)
  {
    var p := step.p;
    var s' := Next(s, step, c).s;
    assert ProcOk(s, s.procs[p]);
    var x := match step case End(_) => if s.outstanding == 1 then Committer(false) else Idle
                        case Erase(_) => Committer(true)
                        case Done(_) => Idle
                        case _ => Woken;
    UpdateSums(s.procs, p, x);
    WakeSums(s.procs[p := x]);
    forall q | 0 <= q < |s'.procs| ensures ProcOk(s', s'.procs[q]) {
      assert ProcOk(s, s.procs[q]);
      if q != p && step.Erase? {
        UpdateSums(s.procs, p, Idle);
        UpdateSums(s.procs[p := Idle], q, Idle);
      }
    }
  }

  lemma LogWriteKeepsInv(s: State, step: Step, c: Config)
    requires Inv(s) && Enabled(s, step) && step.LogWrite? && InBudget(s, step) && Next(s, step, c).Ok?
    ensures Inv(Next(s, step, c).s)
  {
    var p, me := step.p, s.procs[step.p];
    var s' := Next(s, step, c).s;
    assert ProcOk(s, me);
    BiggerWrote(me.wrote, step.b);
    UpdateSums(s.procs, p, s'.procs[p]);
    forall q | 0 <= q < |s'.procs| ensures ProcOk(s', s'.procs[q]) {
      assert ProcOk(s, s.procs[q]);
      if q != p {
        UpdateSums(s.procs, q, Idle);
      }
    }
  }

  // ---- Runs ----------------------------------------------------------------------------

  /** Each step is possible when its turn comes and within budget; if `firsts`, also a first write or with room. */
  ghost predicate Legal(s: State, steps: seq<Step>, c: Config, firsts: bool)
    decreases |steps|
  {
    steps == [] ||
    (&& Enabled(s, steps[0]) && InBudget(s, steps[0]) && (firsts ==> FirstOrRoom(s, steps[0]))
     && (Next(s, steps[0], c).Ok? ==> Legal(Next(s, steps[0], c).s, steps[1..], c, firsts)))
  }

  function Run(s: State, steps: seq<Step>, c: Config): Outcome
    decreases |steps|
  {
    if steps == [] then Ok(s)
    else if !Enabled(s, steps[0]) then Panic(Disabled)
    else
      var o := Next(s, steps[0], c);
      if o.Panic? then o else Run(o.s, steps[1..], c)
  }

  /** The header's list fits the log on the disk. */
  predicate FitsLog(s: State, c: Config) {
    s.lh == [] || |s.lh| < c.size
  }

  /**
   Why an interleaving can panic: log_write when the log is not larger than LOGSIZE, or commit when the
   list may come to hold as many blocks as there are buffers. Otherwise the invariant holds at its end.
   */
  lemma {:induction false} PanicsHaveCause(s: State, steps: seq<Step>, c: Config)
    requires Inv(s) && FitsLog(s, c) && Legal(s, steps, c, true)
    ensures match Run(s, steps, c)
      case Ok(s') => Inv(s')
      case Panic(why) => (why == TooBig && c.size <= LOGSIZE) || (why == NoBuffers && c.nbuf <= LOGSIZE && c.nbuf < c.size)
    decreases |steps|
  {
    if steps != [] {
      var step := steps[0];
      if step.LogWrite? { LogWritePasses(s, step, c); }
      if step.End? { UpdateSums(s.procs, step.p, Idle); }
      if Next(s, step, c).Ok? {
        StepKeepsInv(s, step, c);
        PanicsHaveCause(Next(s, step, c).s, steps[1..], c);
      }
    }
  }

  /** With a log and a cache both larger than LOGSIZE no interleaving panics, and the invariant holds at its end. */
  lemma RunSafe(s: State, steps: seq<Step>, c: Config)
    requires Inv(s) && FitsLog(s, c) && Legal(s, steps, c, true) && c.size > LOGSIZE && c.nbuf > LOGSIZE
    ensures Run(s, steps, c).Ok? && Inv(Run(s, steps, c).s)
  {
    PanicsHaveCause(s, steps, c);
  }

  /** A sleeper in begin_op always has a process that will wake it: one in an operation, or the committer. */
  lemma SleeperHasWaker(s: State, p: nat)
    requires Inv(s) && p < |s.procs| && s.procs[p].Sleeping?
    ensures exists q :: 0 <= q < |s.procs| && (s.procs[q].Active? || s.procs[q].Committer?)
  {
    assert ProcOk(s, s.procs[p]);
    if s.committing {
      SumWitness(IsCommitter, s.procs);
    } else {
      SumWitness(IsActive, s.procs);
    }
  }

  /** The waker does wake: when an operation or a commit ends, nobody is left asleep unless a commit has begun. */
  lemma EndWakes(s: State, step: Step, c: Config)
    requires Inv(s) && Enabled(s, step) && (step.End? || step.Done?)
    ensures Next(s, step, c).Ok?
    ensures var s' := Next(s, step, c).s;
      s'.committing || forall q :: 0 <= q < |s'.procs| ==> !s'.procs[q].Sleeping?
  {
    UpdateSums(s.procs, step.p, Idle);
  }

  /**
   begin_op lets an operation in exactly if no commit is running and the header has room for it and for all
   that run already, each with its whole reservation; else the process sleeps. Nobody else is touched.
   */
  lemma AdmittedIff(s: State, p: nat, c: Config)
    requires Inv(s) && Enabled(s, Begin(p))
    ensures Next(s, Begin(p), c).Ok?
    ensures var s' := Next(s, Begin(p), c).s;
      && s'.procs == s.procs[p := s'.procs[p]] && s'.lh == s.lh && s'.committing == s.committing
      && (s'.procs[p].Active? || s'.procs[p].Sleeping?)
      && (s'.procs[p].Active? <==> !s.committing && |s.lh| + (Sum(IsActive, s.procs) + 1) * MAXOPBLOCKS <= LOGSIZE)
      && Sum(IsActive, s'.procs) == Sum(IsActive, s.procs) + IsActive(s'.procs[p])
  {
    UpdateSums(s.procs, p, Next(s, Begin(p), c).s.procs[p]);
  }

  /** A commit ends with an empty header: whichever process tests next, having slept or not, is let in. */
  lemma CommitLetsIn(s: State, p: nat, q: nat, c: Config)
    requires Inv(s) && Enabled(s, Done(p)) && q < |s.procs| && q != p
    requires s.procs[q].Idle? || s.procs[q].Sleeping? || s.procs[q].Woken?
    ensures Next(s, Done(p), c).Ok?
    ensures var s1 := Next(s, Done(p), c).s;
      Enabled(s1, Begin(q)) && Next(s1, Begin(q), c).Ok? && Next(s1, Begin(q), c).s.procs[q] == Active(0, {})
  {
    assert ProcOk(s, s.procs[p]);
    UpdateSums(s.procs, p, Idle);
    var s1 := Next(s, Done(p), c).s;
    OthersKeepInv(s, Done(p), c);
    AdmittedIff(s1, q, c);
  }

  // ---- Where the guard is tighter than the reservation ---------------------------------

  /** Three operations log blocks 0..29 between them, ten each, in order. */
  function ThreeOps(j: nat): seq<Step> {
    if j == 0 then [Begin(0), Begin(1), Begin(2)] else ThreeOps(j - 1) + [LogWrite((j - 1) / 10, j - 1)]
  }

  function Part(j: nat, p: nat): nat {
    if j <= 10 * p then 0 else if j >= 10 * p + 10 then 10 else j - 10 * p
  }

  predicate From(lo: nat, b: nat) { lo <= b }

  /** The n numbers from lo on. */
  function UpTo(lo: nat, n: nat): set<nat> {
    set b: nat | lo <= b < lo + n && From(lo, b)
  }

  lemma {:induction false} UpToSize(lo: nat, n: nat)
    ensures |UpTo(lo, n)| == n
    decreases n
  {
    if n > 0 {
      UpToSize(lo, n - 1);
      assert UpTo(lo, n) == UpTo(lo, n - 1) + {lo + n - 1};
    } else {
      assert UpTo(lo, n) == {};
    }
  }

  function Filled(j: nat): State {
    State(Numbers(j), 3, false, [Writer(j, 0), Writer(j, 1), Writer(j, 2)])
  }

  function Writer(j: nat, p: nat): Proc {
    Active(Part(j, p), UpTo(10 * p, Part(j, p)))
  }

  function Numbers(j: nat): (s: seq<nat>)
    ensures |s| == j && forall i :: 0 <= i < j ==> s[i] == i
  {
    if j == 0 then [] else Numbers(j - 1) + [j - 1]
  }

  lemma {:induction false} RunAppend(s: State, a: seq<Step>, b: seq<Step>, c: Config, firsts: bool)
    requires Run(s, a, c).Ok?
    ensures Run(s, a + b, c) == Run(Run(s, a, c).s, b, c)
    ensures Legal(s, a, c, firsts) && Legal(Run(s, a, c).s, b, c, firsts) ==> Legal(s, a + b, c, firsts)
    decreases |a|
  {
    if a == [] {
      assert a + b == b;
    } else {
      assert (a + b)[0] == a[0] && (a + b)[1..] == a[1..] + b;
      RunAppend(Next(s, a[0], c).s, a[1..], b, c, firsts);
    }
  }

  /** Three operations have begun. */
  lemma ThreeBegun(c: Config)
    ensures Run(Init(3), ThreeOps(0), c) == Ok(Filled(0)) && Legal(Init(3), ThreeOps(0), c, true)
  {
    var s0 := Init(3);
    var s1 := Next(s0, Begin(0), c).s;
    var s2 := Next(s1, Begin(1), c).s;
    var s3 := Next(s2, Begin(2), c).s;
    assert Part(0, 0) == 0 && UpTo(0, 0) == {} && UpTo(10, 0) == {} && UpTo(20, 0) == {};
    assert s3 == Filled(0);
    var t := ThreeOps(0);
    assert t[1..][1..][1..] == [];
  }

  /** They log j blocks between them, each new, and each operation within its ten. */
  lemma {:induction false} ThreeOpsRun(j: nat, c: Config)
    requires j <= 30 && (j == 0 || j < c.size)
    ensures Run(Init(3), ThreeOps(j), c) == Ok(Filled(j)) && Legal(Init(3), ThreeOps(j), c, true)
  {
    if j == 0 {
      ThreeBegun(c);
    } else {
      ThreeOpsRun(j - 1, c);
      var s, step := Filled(j - 1), LogWrite((j - 1) / 10, j - 1);
      NextIsLegal(j - 1, c);
      RunAppend(Init(3), ThreeOps(j - 1), [step], c, true);
      FilledStep(j, s, Next(s, step, c).s, c);
      assert Run(s, [step], c) == Ok(Filled(j));
    }
  }

  /** With j blocks logged the next write is a first write within its operation's ten. */
  lemma NextIsLegal(j: nat, c: Config)
    requires j < 30
    ensures var step := LogWrite(j / 10, j); Legal(Filled(j), [step], c, true) && Enabled(Filled(j), step) && j !in Filled(j).lh
  {
    var me := Filled(j).procs[j / 10];
    UpToSize(10 * (j / 10), Part(j, j / 10));
    BiggerWrote(me.wrote, j);
  }

  lemma FilledStep(j: nat, s: State, s': State, c: Config)
    requires 0 < j <= 30 && j < c.size && s == Filled(j - 1) && s' == Next(s, LogWrite((j - 1) / 10, j - 1), c).s
    ensures s' == Filled(j)
  {
    PartStep(j, 0);
    PartStep(j, 1);
    PartStep(j, 2);
    assert s'.procs == Filled(j).procs;
  }

  lemma PartStep(j: nat, p: nat)
    requires j > 0
    ensures var me := Writer(j - 1, p);
      Writer(j, p) == if p == (j - 1) / 10 then Active(me.used + 1, me.wrote + {j - 1}) else me
  {
  }

  /** A run of n processes within their reservations, each write a first one if `firsts`, that panics for this cause. */
  ghost predicate Panics(n: nat, steps: seq<Step>, c: Config, firsts: bool, why: Cause) {
    Legal(Init(n), steps, c, firsts) && Run(Init(n), steps, c) == Panic(why)
  }

  /**
   log_write's panic: operations within their reservations that log only blocks new to them can reach
   it if and only if log.size is at most LOGSIZE, which is what mkfs makes it.
   */
  lemma LogWritePanicsIff(c: Config)
    ensures (exists n: nat, steps :: Panics(n, steps, c, true, TooBig)) <==> c.size <= LOGSIZE
  {
    if c.size <= LOGSIZE {
      var steps := SmallLogPanics(c);
      assert Panics(3, steps, c, true, TooBig);
    } else {
      forall n: nat, steps | Legal(Init(n), steps, c, true) ensures !Panics(n, steps, c, true, TooBig) {
        InitInv(n);
        PanicsHaveCause(Init(n), steps, c);
      }
    }
  }

  /**
   commit's panic in bget: with at least LOGSIZE buffers, such operations can leave commit without a
   buffer if and only if the log is larger than LOGSIZE and the buffers are no more than LOGSIZE.
   */
  lemma CommitPanicsIff(c: Config)
    requires c.nbuf >= LOGSIZE
    ensures (exists n: nat, steps :: Panics(n, steps, c, true, NoBuffers)) <==> c.nbuf <= LOGSIZE < c.size
  {
    if c.nbuf <= LOGSIZE < c.size {
      var steps := FullLogCommit(LOGSIZE, c);
      assert Panics(3, steps, c, true, NoBuffers);
    } else {
      forall n: nat, steps | Legal(Init(n), steps, c, true) ensures !Panics(n, steps, c, true, NoBuffers) {
        InitInv(n);
        PanicsHaveCause(Init(n), steps, c);
      }
    }
  }

  /** The two together: no run panics if and only if both the log and the cache are larger than LOGSIZE. */
  lemma SafeIff(c: Config)
    requires c.nbuf >= LOGSIZE
    ensures (forall n: nat, steps :: Legal(Init(n), steps, c, true) ==> Run(Init(n), steps, c).Ok?)
      <==> c.size > LOGSIZE && c.nbuf > LOGSIZE
  {
    if c.size > LOGSIZE && c.nbuf > LOGSIZE {
      forall n: nat, steps | Legal(Init(n), steps, c, true) ensures Run(Init(n), steps, c).Ok? {
        InitInv(n);
        RunSafe(Init(n), steps, c);
      }
    } else {
      var steps;
      if c.size <= LOGSIZE { steps := SmallLogPanics(c); } else { steps := FullLogCommit(LOGSIZE, c); }
      assert Legal(Init(3), steps, c, true) && !Run(Init(3), steps, c).Ok?;
    }
  }

  /** The source has NBUF == LOGSIZE buffers: whatever the size of the log, such operations can panic. */
  lemma NoSizeIsSafe(size: int)
    ensures size <= LOGSIZE ==> exists n: nat, steps :: Panics(n, steps, Config(size, NBUF), true, TooBig)
    ensures size > LOGSIZE ==> exists n: nat, steps :: Panics(n, steps, Config(size, NBUF), true, NoBuffers)
  {
    LogWritePanicsIff(Config(size, NBUF));
    CommitPanicsIff(Config(size, NBUF));
  }

  lemma SmallLogPanics(c: Config) returns (steps: seq<Step>)
    requires c.size <= LOGSIZE
    ensures Panics(3, steps, c, true, TooBig)
  {
    var j: nat := if c.size <= 1 then 0 else c.size - 1;
    ThreeOpsRun(j, c);
    NextIsLegal(j, c);
    var last := [LogWrite(j / 10, j)];
    RunAppend(Init(3), ThreeOps(j), last, c, true);
    steps := ThreeOps(j) + last;
  }

  /** Three operations fill the header and end; the last one's commit finds every buffer dirty. */
  lemma FullLogCommit(j: nat, c: Config) returns (steps: seq<Step>)
    requires j == LOGSIZE < c.size && c.nbuf <= LOGSIZE
    ensures Panics(3, steps, c, true, NoBuffers)
  {
    ThreeOpsRun(j, c);
    var ends := [End(0), End(1), End(2), Erase(2)];
    EndsPanic(Filled(j), c);
    RunAppend(Init(3), ThreeOps(j), ends, c, true);
    steps := ThreeOps(j) + ends;
  }

  /** Three active operations that end one after the other over a list as long as the cache. */
  lemma EndsPanic(s: State, c: Config)
    requires |s.procs| == 3 && s.procs[0].Active? && s.procs[1].Active? && s.procs[2].Active?
    requires s.outstanding == 3 && !s.committing && s.lh != [] && |s.lh| >= c.nbuf
    ensures var ends := [End(0), End(1), End(2), Erase(2)];
      Legal(s, ends, c, true) && Run(s, ends, c) == Panic(NoBuffers)
  {
    var ends := [End(0), End(1), End(2), Erase(2)];
    var s1 := Next(s, End(0), c).s;
    var s2 := Next(s1, End(1), c).s;
    var s3 := Next(s2, End(2), c).s;
    assert Next(s3, Erase(2), c) == Panic(NoBuffers);
    assert ends[1..] == [End(1), End(2), Erase(2)] && ends[1..][1..] == [End(2), Erase(2)] && ends[1..][1..][1..] == [Erase(2)];
    assert Legal(s3, [Erase(2)], c, true) && Run(s3, [Erase(2)], c) == Panic(NoBuffers);
    assert Legal(s2, ends[1..][1..], c, true) && Run(s2, ends[1..][1..], c) == Panic(NoBuffers);
    assert Legal(s1, ends[1..], c, true) && Run(s1, ends[1..], c) == Panic(NoBuffers);
  }

  /**
   Absorption does not help once the header is full: with any log size, an operation that logs again
   a block it has already logged, within its ten blocks, can reach log_write's panic.
   */
  lemma RewriteOnFullLogPanics(c: Config)
    ensures exists steps :: Panics(3, steps, c, false, TooBig)
  {
    var steps;
    if c.size <= LOGSIZE {
      steps := SmallLogPanics(c);
      LegalAnyway(Init(3), steps, c);
    } else {
      steps := FullLogRewrite(LOGSIZE, c);
    }
    assert Panics(3, steps, c, false, TooBig);
  }

  lemma {:induction false} LegalAnyway(s: State, steps: seq<Step>, c: Config)
    requires Legal(s, steps, c, true)
    ensures Legal(s, steps, c, false)
    decreases |steps|
  {
    if steps != [] && Next(s, steps[0], c).Ok? { LegalAnyway(Next(s, steps[0], c).s, steps[1..], c); }
  }

  lemma FullLogRewrite(j: nat, c: Config) returns (steps: seq<Step>)
    requires j == LOGSIZE && c.size > LOGSIZE
    ensures Panics(3, steps, c, false, TooBig)
  {
    ThreeOpsRun(j, c);
    LegalAnyway(Init(3), ThreeOps(j), c);
    var s, last := Filled(j), [LogWrite(0, 0)];
    UpToSize(0, Part(j, 0));
    BiggerWrote(s.procs[0].wrote, 0);
    RunAppend(Init(3), ThreeOps(j), last, c, false);
    steps := ThreeOps(j) + last;
  }
}
