/**
 What the redo log of log.c does to the disk, one disk write at a time, and why a crash
 between any two of those writes, or inside any recovery, leaves a transaction all-or-nothing.

 The log occupies blocks start .. start+size: a header, then one slot a logged block.
 */
module CrashSafety {
  import opened Params
  import opened Bio

  type Disk = seq<Block>

  // ---- The header block ----------------------------------------------------------------

  /** The header with the count and the first block numbers overwritten, the rest kept. */
  function SetHead(h: Block, blocks: seq<nat>): (r: Block)
    requires |blocks| <= LOGSIZE
    ensures HeadBlocks(r) == blocks
  {
    var r := [|blocks|] + blocks + h[1 + |blocks|..];
    assert r[1..1 + |blocks|] == blocks;
    r
  }

  function HeadBlocks(h: Block): seq<nat> {
    if h[0] <= LOGSIZE then h[1..1 + h[0]] else []
  }

  /** Block numbers that a transaction may log: on the disk and outside the log itself. */
  predicate HomeBlocks(blocks: seq<nat>, start: nat, size: nat, disksize: nat) {
    && |blocks| <= LOGSIZE && |blocks| < size && start + size <= disksize
    && forall b :: b in blocks ==> b < disksize && !(start <= b < start + size)
  }

  /** A log header that recovery can follow. */
  predicate WfDisk(d: Disk, start: nat, size: nat) {
    && start < |d| && d[start][0] <= LOGSIZE
    && HomeBlocks(HeadBlocks(d[start]), start, size, |d|)
  }

  // ---- The writes ----------------------------------------------------------------------

  /** The disk after install_trans has copied the first k slots home. */
  function Install(d: Disk, start: nat, size: nat, blocks: seq<nat>, k: nat): (r: Disk)
    requires HomeBlocks(blocks, start, size, |d|) && k <= |blocks|
    ensures |r| == |d|
    ensures forall b :: start <= b < start + size ==> r[b] == d[b]
  {
    if k == 0 then d
    else
      var e := Install(d, start, size, blocks, k - 1);
      assert blocks[k - 1] in blocks;
      e[blocks[k - 1] := e[start + k]]
  }

  /** The disk after write_log has filled the first k slots from `src`. */
  function FillSlots(d: Disk, start: nat, size: nat, src: seq<Block>, k: nat): (r: Disk)
    requires k <= |src| < size && start + size <= |d|
    ensures |r| == |d|
    ensures forall b :: 0 <= b < |d| ==> r[b] == if start < b <= start + k then src[b - start - 1] else d[b]
  {
    if k == 0 then d else FillSlots(d, start, size, src, k - 1)[start + k := src[k - 1]]
  }

  function PutHead(d: Disk, start: nat, blocks: seq<nat>): (r: Disk)
    requires start < |d| && |blocks| <= LOGSIZE
  {
    d[start := SetHead(d[start], blocks)]
  }

  /** The disks that the first k rounds of install_trans write. */
  function InstallTrace(d: Disk, start: nat, size: nat, blocks: seq<nat>, k: nat): (t: seq<Disk>)
    requires HomeBlocks(blocks, start, size, |d|) && k <= |blocks|
    ensures |t| == k && forall i :: 0 <= i < k ==> t[i] == Install(d, start, size, blocks, i + 1)
  {
    if k == 0 then []
    else InstallTrace(d, start, size, blocks, k - 1) + [Install(d, start, size, blocks, k)]
  }

  /** The disks that the first k rounds of write_log write. */
  function FillTrace(d: Disk, start: nat, size: nat, src: seq<Block>, k: nat): (t: seq<Disk>)
    requires k <= |src| < size && start + size <= |d|
    ensures |t| == k && forall i :: 0 <= i < k ==> t[i] == FillSlots(d, start, size, src, i + 1)
  {
    if k == 0 then []
    else FillTrace(d, start, size, src, k - 1) + [FillSlots(d, start, size, src, k)]
  }

  /** The disk at the commit point: the slots filled and the header naming them. */
  function Committed(d: Disk, start: nat, size: nat, blocks: seq<nat>, src: seq<Block>): (r: Disk)
    requires HomeBlocks(blocks, start, size, |d|) && |src| == |blocks|
    ensures |r| == |d|
  {
    PutHead(FillSlots(d, start, size, src, |src|), start, blocks)
  }

  /** Every disk content that commit() writes, in order, for logged blocks whose cached content is src. */
  function CommitTrace(d: Disk, start: nat, size: nat, blocks: seq<nat>, src: seq<Block>): (t: seq<Disk>)
    requires HomeBlocks(blocks, start, size, |d|) && |src| == |blocks| > 0
  {
    var committed := Committed(d, start, size, blocks, src);
    FillTrace(d, start, size, src, |src|)
    + [committed]
    + InstallTrace(committed, start, size, blocks, |blocks|)
    + [PutHead(Install(committed, start, size, blocks, |blocks|), start, [])]
  }

  /** Every disk content that recover_from_log() writes, in order. */
  function RecoverTrace(d: Disk, start: nat, size: nat): (t: seq<Disk>)
    requires WfDisk(d, start, size)
  {
    var blocks := HeadBlocks(d[start]);
    InstallTrace(d, start, size, blocks, |blocks|) + [Recovered(d, start, size)]
  }

  /** The disk once recovery has run to its end. */
  function Recovered(d: Disk, start: nat, size: nat): (r: Disk)
    requires WfDisk(d, start, size)
  {
    var blocks := HeadBlocks(d[start]);
    PutHead(Install(d, start, size, blocks, |blocks|), start, [])
  }

  // ---- What the file system sees -------------------------------------------------------

  /** Two disks agree on every block outside the log. */
  ghost predicate SameHome(d: Disk, e: Disk, start: nat, size: nat) {
    && |d| == |e|
    && forall b :: 0 <= b < |d| && !(start <= b < start + size) ==> d[b] == e[b]
  }

  /** The disk with the transaction applied: each logged block holds its cached content. */
  function Apply(d: Disk, blocks: seq<nat>, src: seq<Block>, k: nat): (r: Disk)
    requires k <= |blocks| == |src| && forall b :: b in blocks ==> b < |d|
    ensures |r| == |d|
  {
    if k == 0 then d else
      assert blocks[k - 1] in blocks;
      Apply(d, blocks, src, k - 1)[blocks[k - 1] := src[k - 1]]
  }

  // ---- Recovery may crash and be rerun -------------------------------------------------

  /** Installing from two disks with the same log agrees wherever the disks or the slots decide. */
  lemma {:induction false} InstallAgrees(d: Disk, e: Disk, start: nat, size: nat, blocks: seq<nat>, k: nat, b: nat)
    requires |d| == |e| && HomeBlocks(blocks, start, size, |d|) && k <= |blocks|
    requires forall c :: start <= c < start + size ==> d[c] == e[c]
    requires b < |d| && (b in blocks[..k] || d[b] == e[b])
    ensures Install(d, start, size, blocks, k)[b] == Install(e, start, size, blocks, k)[b]
  {
    if k > 0 {
      assert blocks[k - 1] in blocks;
      assert blocks[..k] == blocks[..k - 1] + [blocks[k - 1]];
      if b != blocks[k - 1] {
        InstallAgrees(d, e, start, size, blocks, k - 1, b);
      }
    }
  }

  lemma {:induction false} InstallTouches(d: Disk, start: nat, size: nat, blocks: seq<nat>, k: nat, b: nat)
    requires HomeBlocks(blocks, start, size, |d|) && k <= |blocks| && b < |d| && b !in blocks[..k]
    ensures Install(d, start, size, blocks, k)[b] == d[b]
  {
    if k > 0 {
      assert blocks[..k] == blocks[..k - 1] + [blocks[k - 1]];
      assert blocks[k - 1] in blocks[..k];
      InstallTouches(d, start, size, blocks, k - 1, b);
    }
  }

  /** Installing again after a partial install gives what the first install would have given. */
  lemma InstallIdempotent(d: Disk, start: nat, size: nat, blocks: seq<nat>, k: nat)
    requires HomeBlocks(blocks, start, size, |d|) && k <= |blocks|
    ensures Install(Install(d, start, size, blocks, k), start, size, blocks, |blocks|)
         == Install(d, start, size, blocks, |blocks|)
  {
    var e := Install(d, start, size, blocks, k);
    forall b: nat | b < |d|
      ensures Install(e, start, size, blocks, |blocks|)[b] == Install(d, start, size, blocks, |blocks|)[b]
    {
      assert blocks[..|blocks|] == blocks;
      if b !in blocks {
        InstallTouches(d, start, size, blocks, k, b);
      }
      InstallAgrees(e, d, start, size, blocks, |blocks|, b);
    }
  }

  /** Wherever a recovery crashes, the next one ends on the disk this one would have ended on. */
  lemma RecoveryRestartable(d: Disk, start: nat, size: nat, p: nat)
    requires WfDisk(d, start, size) && p <= |RecoverTrace(d, start, size)|
    ensures var e := ([d] + RecoverTrace(d, start, size))[p];
      && WfDisk(e, start, size) && |e| == |d|
      && Recovered(e, start, size) == Recovered(d, start, size)
  {
    var blocks := HeadBlocks(d[start]);
    var t := RecoverTrace(d, start, size);
    if 0 < p < |t| {
      assert ([d] + t)[p] == Install(d, start, size, blocks, p);
      InstallIdempotent(d, start, size, blocks, p);
    } else if p == |t| {
      var e := Recovered(d, start, size);
      assert ([d] + t)[p] == e;
      var h := e[start];
      assert HeadBlocks(h) == [];
      assert SetHead(h, []) == h;
      assert Recovered(e, start, size) == e;
    }
  }

  /** The disk after a series of crashed recoveries; crashes[i] says how many writes recovery i made. */
  function AfterCrashes(d: Disk, start: nat, size: nat, crashes: seq<nat>): (r: Disk)
    requires WfDisk(d, start, size)
    ensures WfDisk(r, start, size) && Recovered(r, start, size) == Recovered(d, start, size)
    decreases |crashes|
  {
    if crashes == [] then d
    else
      var t := [d] + RecoverTrace(d, start, size);
      var p := if crashes[0] < |t| then crashes[0] else |t| - 1;
      RecoveryRestartable(d, start, size, p);
      AfterCrashes(t[p], start, size, crashes[1..])
  }

  // ---- Atomicity -----------------------------------------------------------------------

  lemma {:induction false} InstallIsApply(d: Disk, e: Disk, start: nat, size: nat, blocks: seq<nat>, src: seq<Block>, k: nat)
    requires HomeBlocks(blocks, start, size, |d|) && |src| == |blocks| && k <= |blocks|
    requires SameHome(d, e, start, size)
    requires forall j :: 0 <= j < |src| ==> e[start + 1 + j] == src[j]
    requires forall b :: b in blocks ==> b < |d|
    ensures SameHome(Apply(d, blocks, src, k), Install(e, start, size, blocks, k), start, size)
  {
    if k > 0 {
      assert blocks[k - 1] in blocks;
      InstallIsApply(d, e, start, size, blocks, src, k - 1);
    }
  }

  /** Up to the header write the disk differs only in log slots, and recovery finds an empty log. */
  lemma BeforeCommitPoint(d: Disk, start: nat, size: nat, blocks: seq<nat>, src: seq<Block>, p: nat)
    requires WfDisk(d, start, size) && HeadBlocks(d[start]) == []
    requires HomeBlocks(blocks, start, size, |d|) && |src| == |blocks| > 0 && p <= |src|
    ensures p <= |CommitTrace(d, start, size, blocks, src)|
    ensures var e := ([d] + CommitTrace(d, start, size, blocks, src))[p];
      && WfDisk(e, start, size) && SameHome(e, d, start, size)
      && Recovered(e, start, size) == PutHead(e, start, [])
  {
    var t := CommitTrace(d, start, size, blocks, src);
    assert ([d] + t)[p] == FillSlots(d, start, size, src, p);
  }

  lemma At<T>(a: seq<T>, b: seq<T>, c: seq<T>, p: nat)
    requires |a| + |b| <= p < |a| + |b| + |c|
    ensures (a + (b + c))[p] == c[p - |a| - |b|]
  {
  }

  /** commit's writes are write_log's, the header write, and then what a recovery would write. */
  lemma CommitTraceSplit(d: Disk, start: nat, size: nat, blocks: seq<nat>, src: seq<Block>)
    requires WfDisk(d, start, size)
    requires HomeBlocks(blocks, start, size, |d|) && |src| == |blocks| > 0
    ensures var committed := Committed(d, start, size, blocks, src);
      && WfDisk(committed, start, size) && HeadBlocks(committed[start]) == blocks
      && CommitTrace(d, start, size, blocks, src)
        == FillTrace(d, start, size, src, |src|) + ([committed] + RecoverTrace(committed, start, size))
  {
    var committed := Committed(d, start, size, blocks, src);
    Assoc(FillTrace(d, start, size, src, |src|), [committed], InstallTrace(committed, start, size, blocks, |blocks|),
      [Recovered(committed, start, size)]);
  }

  lemma Assoc<T>(a: seq<T>, b: seq<T>, c: seq<T>, e: seq<T>)
    ensures a + b + c + e == a + (b + (c + e))
  {
  }

  /** In a run of writes that goes on as a recovery of c would, the disks from c on recover as c does. */
  lemma RecoversAlike(d: Disk, fill: seq<Disk>, c: Disk, t: seq<Disk>, start: nat, size: nat, p: nat)
    requires WfDisk(c, start, size) && t == fill + ([c] + RecoverTrace(c, start, size))
    requires |fill| < p <= |t|
    ensures WfDisk(([d] + t)[p], start, size) && Recovered(([d] + t)[p], start, size) == Recovered(c, start, size)
  {
    At([d], fill, [c] + RecoverTrace(c, start, size), p);
    RecoveryRestartable(c, start, size, p - |fill| - 1);
  }

  /** From the header write on, recovery ends where it would have ended right after that write. */
  lemma AfterCommitPoint(d: Disk, start: nat, size: nat, blocks: seq<nat>, src: seq<Block>, p: nat)
    requires WfDisk(d, start, size)
    requires HomeBlocks(blocks, start, size, |d|) && |src| == |blocks| > 0
    requires |src| < p <= |CommitTrace(d, start, size, blocks, src)|
    ensures var e := ([d] + CommitTrace(d, start, size, blocks, src))[p];
      var committed := Committed(d, start, size, blocks, src);
      && WfDisk(committed, start, size) && HeadBlocks(committed[start]) == blocks
      && WfDisk(e, start, size) && Recovered(e, start, size) == Recovered(committed, start, size)
  {
    CommitTraceSplit(d, start, size, blocks, src);
    RecoversAlike(d, FillTrace(d, start, size, src, |src|), Committed(d, start, size, blocks, src),
      CommitTrace(d, start, size, blocks, src), start, size, p);
  }

  /** The disk when a commit has made p of its writes. */
  function CrashDisk(d: Disk, start: nat, size: nat, blocks: seq<nat>, src: seq<Block>, p: nat): (e: Disk)
    requires WfDisk(d, start, size) && HeadBlocks(d[start]) == []
    requires HomeBlocks(blocks, start, size, |d|) && |src| == |blocks| > 0
    requires p <= |CommitTrace(d, start, size, blocks, src)|
    ensures WfDisk(e, start, size)
  {
    var disks := [d] + CommitTrace(d, start, size, blocks, src);
    if p <= |src| then BeforeCommitPoint(d, start, size, blocks, src, p); disks[p]
    else AfterCommitPoint(d, start, size, blocks, src, p); disks[p]
  }

  /**
   Crash atomicity and durability. Commit a transaction on a disk whose log is empty, crash after
   any number p of its disk writes, then crash any number of recoveries anywhere. The recovery
   that completes leaves r: the old home blocks if the header write had not happened, and the
   transaction's if it had. In particular (p = all writes) a finished commit survives every crash.
   */
  lemma CrashAtomic(d: Disk, start: nat, size: nat, blocks: seq<nat>, src: seq<Block>, p: nat, crashes: seq<nat>) returns (r: Disk)
    requires WfDisk(d, start, size) && HeadBlocks(d[start]) == []
    requires HomeBlocks(blocks, start, size, |d|) && |src| == |blocks| > 0
    requires p <= |CommitTrace(d, start, size, blocks, src)|
    ensures r == Recovered(AfterCrashes(CrashDisk(d, start, size, blocks, src, p), start, size, crashes), start, size)
    ensures SameHome(r, if p <= |src| then d else Apply(d, blocks, src, |src|), start, size)
    ensures HeadBlocks(r[start]) == []
  {
    r := Recovered(AfterCrashes(CrashDisk(d, start, size, blocks, src, p), start, size, crashes), start, size);
    if p <= |src| {
      BeforeCommitPoint(d, start, size, blocks, src, p);
    } else {
      AfterCommitPoint(d, start, size, blocks, src, p);
      InstallIsApply(d, Committed(d, start, size, blocks, src), start, size, blocks, src, |src|);
    }
  }

  /** A finished commit leaves an empty log over the new home blocks: the next one may start from it. */
  lemma CommitEnds(d: Disk, start: nat, size: nat, blocks: seq<nat>, src: seq<Block>)
    requires WfDisk(d, start, size) && HomeBlocks(blocks, start, size, |d|) && |src| == |blocks| > 0
    ensures var t := CommitTrace(d, start, size, blocks, src);
      && |t| == 2 * |src| + 2
      && var e := t[|t| - 1];
      && WfDisk(e, start, size) && HeadBlocks(e[start]) == []
      && SameHome(e, Apply(d, blocks, src, |src|), start, size)
  {
    var committed := Committed(d, start, size, blocks, src);
    InstallIsApply(d, committed, start, size, blocks, src, |src|);
  }

  // ---- Histories of transactions -------------------------------------------------------

  datatype Txn = Txn(blocks: seq<nat>, src: seq<Block>)

  predicate WfTxn(t: Txn, start: nat, size: nat, disksize: nat) {
    HomeBlocks(t.blocks, start, size, disksize) && |t.src| == |t.blocks| > 0
  }

  predicate WfTxns(txns: seq<Txn>, start: nat, size: nat, disksize: nat) {
    forall i :: 0 <= i < |txns| ==> WfTxn(txns[i], start, size, disksize)
  }

  /** The disk after committing a list of transactions one after the other. */
  function CommitAll(d: Disk, start: nat, size: nat, txns: seq<Txn>): (r: Disk)
    requires WfDisk(d, start, size) && HeadBlocks(d[start]) == [] && WfTxns(txns, start, size, |d|)
    ensures WfDisk(r, start, size) && HeadBlocks(r[start]) == [] && |r| == |d|
    decreases |txns|
  {
    if txns == [] then d
    else
      var e, t := CommitAll(d, start, size, txns[..|txns| - 1]), txns[|txns| - 1];
      CommitEnds(e, start, size, t.blocks, t.src);
      var tr := CommitTrace(e, start, size, t.blocks, t.src);
      tr[|tr| - 1]
  }

  /** The home blocks a list of transactions asks for, with no log in sight. */
  function ApplyAll(d: Disk, txns: seq<Txn>, start: nat, size: nat): (r: Disk)
    requires WfTxns(txns, start, size, |d|)
    ensures |r| == |d|
  {
    if txns == [] then d
    else
      var t := txns[|txns| - 1];
      Apply(ApplyAll(d, txns[..|txns| - 1], start, size), t.blocks, t.src, |t.src|)
  }

  lemma {:induction false} ApplyCongruent(d: Disk, e: Disk, start: nat, size: nat, blocks: seq<nat>, src: seq<Block>, k: nat)
    requires SameHome(d, e, start, size) && k <= |blocks| == |src|
    requires forall b :: b in blocks ==> b < |d|
    ensures SameHome(Apply(d, blocks, src, k), Apply(e, blocks, src, k), start, size)
  {
    if k > 0 { ApplyCongruent(d, e, start, size, blocks, src, k - 1); }
  }

  lemma {:induction false} CommitAllIsApplyAll(d: Disk, start: nat, size: nat, txns: seq<Txn>)
    requires WfDisk(d, start, size) && HeadBlocks(d[start]) == [] && WfTxns(txns, start, size, |d|)
    ensures SameHome(CommitAll(d, start, size, txns), ApplyAll(d, txns, start, size), start, size)
  {
    if txns != [] {
      var before, t := txns[..|txns| - 1], txns[|txns| - 1];
      CommitAllIsApplyAll(d, start, size, before);
      var e := CommitAll(d, start, size, before);
      CommitEnds(e, start, size, t.blocks, t.src);
      ApplyCongruent(e, ApplyAll(d, before, start, size), start, size, t.blocks, t.src, |t.src|);
    }
  }

  /**
   Over a whole history of transactions: crash after any number p of the last commit's disk writes,
   crash any number of recoveries, and the home blocks come back as the history without the last
   transaction, or with it once its header write was made.
   */
  lemma HistoryAtomic(d: Disk, start: nat, size: nat, before: seq<Txn>, t: Txn, p: nat, crashes: seq<nat>) returns (r: Disk)
    requires WfDisk(d, start, size) && HeadBlocks(d[start]) == []
    requires WfTxns(before, start, size, |d|) && WfTxn(t, start, size, |d|)
    requires p <= |CommitTrace(CommitAll(d, start, size, before), start, size, t.blocks, t.src)|
    ensures var e := CommitAll(d, start, size, before);
      r == Recovered(AfterCrashes(CrashDisk(e, start, size, t.blocks, t.src, p), start, size, crashes), start, size)
    ensures WfTxns(before + [t], start, size, |d|)
    ensures SameHome(r, ApplyAll(d, if p <= |t.src| then before else before + [t], start, size), start, size)
    ensures HeadBlocks(r[start]) == []
  {
    CommitAllIsApplyAll(d, start, size, before);
    ApplyAllSnoc(d, before, t, start, size);
    r := LastTxnAtomic(CommitAll(d, start, size, before), ApplyAll(d, before, start, size), start, size, t, p, crashes);
  }

  lemma ApplyAllSnoc(d: Disk, before: seq<Txn>, t: Txn, start: nat, size: nat)
    requires WfTxns(before, start, size, |d|) && WfTxn(t, start, size, |d|)
    ensures WfTxns(before + [t], start, size, |d|)
    ensures ApplyAll(d, before + [t], start, size) == Apply(ApplyAll(d, before, start, size), t.blocks, t.src, |t.src|)
  {
    assert (before + [t])[..|before|] == before;
  }

  /** One transaction on a disk e whose home blocks are those of a. */
  lemma LastTxnAtomic(e: Disk, a: Disk, start: nat, size: nat, t: Txn, p: nat, crashes: seq<nat>) returns (r: Disk)
    requires WfDisk(e, start, size) && HeadBlocks(e[start]) == [] && SameHome(e, a, start, size)
    requires WfTxn(t, start, size, |e|) && p <= |CommitTrace(e, start, size, t.blocks, t.src)|
    ensures r == Recovered(AfterCrashes(CrashDisk(e, start, size, t.blocks, t.src, p), start, size, crashes), start, size)
    ensures SameHome(r, if p <= |t.src| then a else Apply(a, t.blocks, t.src, |t.src|), start, size)
    ensures HeadBlocks(r[start]) == []
  {
    r := CrashAtomic(e, start, size, t.blocks, t.src, p, crashes);
    ApplyCongruent(e, a, start, size, t.blocks, t.src, |t.src|);
  }
}
