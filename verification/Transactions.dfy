/**
 A whole transaction through the code of log.c and bio.c: blocks are read, changed and log_written,
 the transaction commits, the machine stops after any disk write, and recovery runs on a cold cache.
 */
module Transactions {
  import opened Params
  import opened Bio
  import opened CrashSafety
  import opened Elements
  import opened Log

  /** Block contents written one after the other. */
  type Writes = seq<(nat, Block)>

  /** The disk with the writes made on it directly, in order. */
  function Written(d: Disk, ws: Writes): (r: Disk)
    requires forall w :: w in ws ==> w.0 < |d|
    ensures |r| == |d|
  {
    if ws == [] then d
    else
      var last := ws[|ws| - 1];
      assert last in ws;
      Written(d, ws[..|ws| - 1])[last.0 := last.1]
  }

  ghost function Touched(ws: Writes): set<nat> {
    set w | w in ws :: w.0
  }

  ghost predicate WritesOk(ws: Writes, start: nat, size: nat, disksize: nat) {
    forall w :: w in ws ==> w.0 < disksize && !(start <= w.0 < start + size)
  }

  /** Applying the pinned contents of the listed blocks changes exactly those blocks. */
  lemma {:induction false} ApplyPins(d: Disk, lh: seq<nat>, pins: map<nat, Block>, k: nat, b: nat)
    requires k <= |lh| && b < |d| && (forall c :: c in lh ==> c in pins && c < |d|)
    ensures Apply(d, lh, Contents(pins, lh), k)[b] == if b in lh[..k] then pins[b] else d[b]
    decreases k
  {
    if k > 0 {
      assert lh[..k] == lh[..k - 1] + [lh[k - 1]] && lh[k - 1] in lh;
      ApplyPins(d, lh, pins, k - 1, b);
    }
  }

  /** After the writes ws every block shows its last content over the disk d, and the list names the blocks. */
  ghost predicate Noted(pins: map<nat, Block>, lh: seq<nat>, d: Disk, ws: Writes) {
    && pins.Keys == Elems(lh) == Touched(ws) && Distinct(lh)
    && (forall w :: w in ws ==> w.0 < |d|)
    && forall b: nat :: b < |d| ==> Overlay(pins, d, b) == Written(d, ws)[b]
  }

  /** Nothing is held and the disk is still d. */
  ghost predicate Quiet(log: RedoLog, d: Disk)
    reads log.bc
  {
    log.bc.Valid() && log.bc.held == map[] && log.bc.memdisk == d
  }

  lemma TouchedSnoc(d: Disk, ws: Writes, w: (nat, Block))
    requires (forall v :: v in ws ==> v.0 < |d|) && w.0 < |d|
    ensures Touched(ws + [w]) == Touched(ws) + {w.0}
    ensures Written(d, ws + [w]) == Written(d, ws)[w.0 := w.1]
  {
    assert (ws + [w])[..|ws|] == ws;
    forall b | b in Touched(ws) + {w.0} ensures b in Touched(ws + [w]) {
      if b in Touched(ws) {
        var v :| v in ws && v.0 == b;
        assert v in ws + [w];
      } else {
        assert w in ws + [w];
      }
    }
  }

  /** bread, memmove into the buffer, log_write, brelse. */
  method LogBlock(log: RedoLog, b: nat, v: Block)
    requires log.bc.Valid() && log.bc.held == map[] && b < |log.bc.memdisk| && log.bc.idle != {}
    requires Distinct(log.lh) && log.outstanding >= 1 && |log.lh| < LOGSIZE && |log.lh| < log.size - 1
    modifies log`lh, log.bc
    ensures log.bc.Valid() && log.bc.held == map[] && Distinct(log.lh)
    ensures log.bc.memdisk == old(log.bc.memdisk) && log.bc.trace == old(log.bc.trace)
    ensures log.bc.pins == old(log.bc.pins)[b := v]
    ensures log.lh == if b in old(log.lh) then old(log.lh) else old(log.lh) + [b]
  {
    UpDown(log.bc.held, b);
    var i := log.bc.Bread(b);
    log.bc.Fill(i, v);
    log.LogWrite(i);
    log.bc.Brelse(i);
  }

  /** One more write: what the cache shows, and the list. */
  lemma WriteNoted(d: Disk, ws: Writes, pins: map<nat, Block>, lh: seq<nat>, b: nat, v: Block)
    requires Noted(pins, lh, d, ws) && b < |d|
    ensures Noted(pins[b := v], if b in lh then lh else lh + [b], d, ws + [(b, v)])
  {
    TouchedSnoc(d, ws, (b, v));
    var lh' := if b in lh then lh else lh + [b];
    assert Elems(lh') == Elems(lh) + {b} && Distinct(lh');
    ShowsNext(pins, d, Written(d, ws), Written(d, ws + [(b, v)]), b, v);
  }

  lemma ShowsNext(pins: map<nat, Block>, d: Disk, now: Disk, next: Disk, b: nat, v: Block)
    requires |now| == |d| && b < |d| && next == now[b := v]
    requires forall c: nat :: c < |d| ==> Overlay(pins, d, c) == now[c]
    ensures forall c: nat :: c < |d| ==> Overlay(pins[b := v], d, c) == next[c]
  {
    forall c: nat | c < |d| ensures Overlay(pins[b := v], d, c) == next[c] {
      assert Overlay(pins, d, c) == now[c];
    }
  }

  /** A list of distinct blocks is no longer than the blocks written are many. */
  lemma ListFits(lh: seq<nat>, ws: Writes, all: Writes, n: nat)
    requires Distinct(lh) && Elems(lh) == Touched(ws) && ws <= all && |Touched(all)| <= n
    ensures |lh| <= n
  {
    ElemsSize(lh);
    forall b | b in Touched(ws) ensures b in Touched(all) {
      var w :| w in ws && w.0 == b;
      assert w in all;
    }
    SubsetSize(Touched(ws), Touched(all));
  }

  lemma ListIsHome(lh: seq<nat>, ws: Writes, start: nat, size: nat, disksize: nat)
    requires Distinct(lh) && Elems(lh) == Touched(ws) && ws != [] && WritesOk(ws, start, size, disksize)
    requires |Touched(ws)| < NBUF && |Touched(ws)| < size && start + size <= disksize
    ensures HomeBlocks(lh, start, size, disksize) && 0 < |lh| < NBUF
  {
    ListFits(lh, ws, ws, |Touched(ws)|);
    forall b | b in lh ensures b < disksize && !(start <= b < start + size) {
      assert b in Elems(lh);
      var w :| w in ws && w.0 == b;
    }
    assert ws[0].0 in Touched(ws);
  }

  /** What commit's trace applies is what the writes were. */
  lemma AppliesWrites(pins: map<nat, Block>, lh: seq<nat>, d: Disk, ws: Writes)
    requires Noted(pins, lh, d, ws)
    ensures (forall b :: b in lh ==> b in pins && b < |d|)
    ensures Apply(d, lh, Contents(pins, lh), |lh|) == Written(d, ws)
  {
    forall b | b in lh ensures b in pins && b < |d| {
      assert b in Elems(lh);
      var w :| w in ws && w.0 == b;
    }
    forall b: nat | b < |d| ensures Apply(d, lh, Contents(pins, lh), |lh|)[b] == Written(d, ws)[b] {
      ApplyPins(d, lh, pins, |lh|, b);
      assert lh[..|lh|] == lh && (b in lh <==> b in Elems(lh));
    }
  }

  /**
   A transaction: any writes to blocks outside the log, as many blocks as the log and the cache hold, then
   commit. The disk writes made are a commit trace of blocks and contents that amount to the writes.
   */
  method Transaction(log: RedoLog, ws: Writes) returns (ghost blocks: seq<nat>, ghost src: seq<Block>)
    requires log.bc.Valid() && log.bc.held == map[] && log.bc.pins == map[] && log.lh == [] && log.outstanding >= 1
    requires WfDisk(log.bc.memdisk, log.start, log.size) && HeadBlocks(log.bc.memdisk[log.start]) == []
    requires ws != [] && WritesOk(ws, log.start, log.size, |log.bc.memdisk|)
    requires |Touched(ws)| < NBUF && |Touched(ws)| < log.size - 1
    modifies log`lh, log.bc
    ensures log.bc.Valid() && log.bc.held == map[] && log.bc.pins == map[] && log.lh == []
    ensures var d := old(log.bc.memdisk);
      && HomeBlocks(blocks, log.start, log.size, |d|) && |src| == |blocks| > 0
      && Apply(d, blocks, src, |src|) == Written(d, ws)
      && log.bc.trace == old(log.bc.trace) + CommitTrace(d, log.start, log.size, blocks, src)
  {
    ghost var d, t0 := log.bc.memdisk, log.bc.trace;
    var k := 0;
    assert ws[..0] == [];
    while k < |ws|
      invariant k <= |ws| && Quiet(log, d) && log.bc.trace == t0 && Noted(log.bc.pins, log.lh, d, ws[..k])
    {
      assert ws[k] in ws && ws[..k + 1] == ws[..k] + [ws[k]];
      ListFits(log.lh, ws[..k], ws, |Touched(ws)|);
      CommitHasSpare(log.bc, log.lh);
      WriteNoted(d, ws[..k], log.bc.pins, log.lh, ws[k].0, ws[k].1);
      LogBlock(log, ws[k].0, ws[k].1);
      k := k + 1;
    }
    assert ws[..k] == ws;
    blocks, src := CommitWrites(log, d, ws);
  }

  /** The commit of the writes noted. */
  method CommitWrites(log: RedoLog, ghost d: Disk, ghost ws: Writes) returns (ghost blocks: seq<nat>, ghost src: seq<Block>)
    requires Quiet(log, d) && Noted(log.bc.pins, log.lh, d, ws) && ws != [] && WritesOk(ws, log.start, log.size, |d|) && log.start + log.size <= |d|
    requires |Touched(ws)| < NBUF && |Touched(ws)| < log.size
    modifies log`lh, log.bc
    ensures log.bc.Valid() && log.bc.held == map[] && log.bc.pins == map[] && log.lh == []
    ensures HomeBlocks(blocks, log.start, log.size, |d|) && |src| == |blocks| > 0
    ensures Apply(d, blocks, src, |src|) == Written(d, ws)
    ensures log.bc.trace == old(log.bc.trace) + CommitTrace(d, log.start, log.size, blocks, src)
  {
    blocks, src := log.lh, Contents(log.bc.pins, log.lh);
    ListIsHome(blocks, ws, log.start, log.size, |d|);
    CommitHasSpare(log.bc, blocks);
    AppliesWrites(log.bc.pins, blocks, d, ws);
    log.Commit();
  }

  /**
   Power comes back after the transaction made p of its disk writes and any number of recoveries crashed:
   recovery on a cold cache leaves the home blocks as before the transaction, or as the writes made them.
   */
  method Reboot(image: Disk, start: nat, size: nat, ghost d: Disk, ghost ws: Writes, ghost blocks: seq<nat>, ghost src: seq<Block>,
                ghost p: nat, ghost crashes: seq<nat>) returns (log: RedoLog)
    requires WfDisk(d, start, size) && HeadBlocks(d[start]) == [] && (forall w :: w in ws ==> w.0 < |d|)
    requires HomeBlocks(blocks, start, size, |d|) && |src| == |blocks| > 0
    requires Apply(d, blocks, src, |src|) == Written(d, ws) && p <= |CommitTrace(d, start, size, blocks, src)|
    requires image == AfterCrashes(CrashDisk(d, start, size, blocks, src, p), start, size, crashes)
    ensures log.bc.Valid() && log.bc.held == map[] && log.bc.pins == map[] && log.lh == []
    ensures SameHome(log.bc.memdisk, if p <= |src| then d else Written(d, ws), start, size)
    ensures HeadBlocks(log.bc.memdisk[start]) == []
  {
    var bc := new BufCache(image);
    log := new RedoLog(bc, start, size);
    log.RecoverFromLog();
    ghost var r := CrashAtomic(d, start, size, blocks, src, p, crashes);
  }
}
