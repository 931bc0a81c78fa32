/**
 The redo log's code (log.c) running on the buffer cache. Each method is proved to make exactly
 the disk writes of the matching trace in CrashSafety, from whatever the cache holds.
 */
module Log {
  import opened Params
  import opened Bio
  import opened CrashSafety
  import opened Elements

  /** The cached contents of the logged blocks, in log order. */
  ghost function Contents(pins: map<nat, Block>, blocks: seq<nat>): (src: seq<Block>)
    requires forall b :: b in blocks ==> b in pins
    ensures |src| == |blocks| && forall k :: 0 <= k < |src| ==> src[k] == pins[blocks[k]]
  {
    seq(|blocks|, k requires 0 <= k < |blocks| => assert blocks[k] in blocks; pins[blocks[k]])
  }

  /** Blocks that others hold while a commit runs: no logged block and none of the log's own. */
  ghost predicate Clear(held: map<nat, nat>, lh: seq<nat>, start: nat, size: nat) {
    forall b :: b in held ==> b !in lh && !(start <= b < start + size)
  }

  /** A block that nobody holds, read and released: the holders are the same again. */
  lemma UpDown(held: map<nat, nat>, b: nat)
    requires b !in held
    ensures Up(held, b).Keys == held.Keys + {b} && Up(held, b)[b] == 1 && Down(Up(held, b), b) == held
  {
  }

  class RedoLog {
    const bc: BufCache
    const start: nat
    const size: nat
    var lh: seq<nat>       // log.lh.block[0..log.lh.n]
    var outstanding: nat

    constructor (bc: BufCache, start: nat, size: nat)
      ensures this.bc == bc && this.start == start && this.size == size && lh == [] && outstanding == 0
    {
      this.bc, this.start, this.size, lh, outstanding := bc, start, size, [], 0;
    }

    /** log_write, past its two panics: note the block and pin it, absorbing a second write. */
    method LogWrite(i: nat)
      requires bc.ValidExcept(i) && i < NBUF && bc.buf[i].refcnt > 0 && bc.buf[i].valid
      requires bc.buf[i].dev == 1 && bc.buf[i].blockno < |bc.memdisk|
      requires |lh| < LOGSIZE && |lh| < size - 1 && outstanding >= 1
      requires Distinct(lh)
      modifies this`lh, bc`buf, bc`pins
      ensures bc.Valid() && bc.buf == old(bc.buf)[i := old(bc.buf[i]).(dirty := true)]
      ensures bc.pins == old(bc.pins)[bc.buf[i].blockno := bc.buf[i].data]
      ensures var b := old(bc.buf[i].blockno); lh == if b in old(lh) then old(lh) else old(lh) + [b]
      ensures Distinct(lh) && |lh| <= LOGSIZE && |lh| < size
    {
      var b := bc.buf[i].blockno;
      var k := 0;
      while k < |lh| && lh[k] != b
        invariant k <= |lh| && b !in lh[..k]
      {
        k := k + 1;
      }
      if k == |lh| {
        assert lh[..k] == lh;
        lh := lh + [b];
      }
      bc.Pin(i);
    }

    /** bread two blocks, copy one over the other, write it to the disk, release both. */
    method Copy(first: nat, second: nat, intoFirst: bool)
      requires bc.Valid() && first < |bc.memdisk| && second < |bc.memdisk| && first != second
      requires first !in bc.held && second !in bc.held
      requires if second in bc.pins then bc.idle != {} else {0, 1} <= bc.idle
      modifies bc
      ensures bc.Valid() && bc.held == old(bc.held) && old(bc.idle) <= bc.idle
      ensures var dst, from := if intoFirst then first else second, if intoFirst then second else first;
        && bc.pins == old(bc.pins) - {dst}
        && bc.memdisk == old(bc.memdisk)[dst := Overlay(old(bc.pins), old(bc.memdisk), from)]
        && bc.trace == old(bc.trace) + [bc.memdisk]
    {
      var f, s := ReadTwo(first, second);
      if intoFirst { Flush(f, s); } else { Flush(s, f); }
    }

    method ReadTwo(first: nat, second: nat) returns (f: nat, s: nat)
      requires bc.Valid() && first < |bc.memdisk| && second < |bc.memdisk| && first != second
      requires first !in bc.held && second !in bc.held
      requires if second in bc.pins then bc.idle != {} else {0, 1} <= bc.idle
      modifies bc
      ensures old(bc.idle) - {f, s} == bc.idle
      ensures f in old(bc.idle) ==> first !in bc.pins
      ensures s in old(bc.idle) ==> second !in bc.pins
      ensures bc.Valid() && bc.memdisk == old(bc.memdisk) && bc.trace == old(bc.trace) && bc.pins == old(bc.pins)
      ensures bc.held == Up(Up(old(bc.held), first), second)
      ensures f < NBUF && s < NBUF && f != s && bc.buf[f].blockno == first && bc.buf[s].blockno == second
      ensures bc.buf[f].refcnt > 0 && bc.buf[f].valid && bc.buf[f].data == Overlay(bc.pins, bc.memdisk, first)
      ensures bc.buf[s].refcnt > 0 && bc.buf[s].valid && bc.buf[s].data == Overlay(bc.pins, bc.memdisk, second)
    {
      f := bc.Bread(first);
      assert second !in bc.pins ==> (if f == 0 then 1 else 0) in bc.idle;
      s := bc.Bread(second);
    }

    /** memmove(to->data, from->data); bwrite(to); brelse(from); brelse(to) */
    method Flush(to: nat, from: nat)
      requires bc.Valid() && to < NBUF && from < NBUF && to != from
      requires bc.buf[to].refcnt > 0 && bc.buf[to].valid && bc.buf[from].refcnt > 0
      requires bc.buf[to].blockno != bc.buf[from].blockno
      modifies bc
      ensures bc.Valid()
      ensures var t, s := old(bc.buf[to]), old(bc.buf[from]);
        && t.blockno in old(bc.held) && s.blockno in old(bc.held) && t.blockno < |old(bc.memdisk)|
        && bc.held == Down(Down(old(bc.held), s.blockno), t.blockno)
        && old(bc.idle) <= bc.idle
        && (t.blockno !in bc.held ==> to in bc.idle)
        && (s.blockno !in bc.held && s.blockno !in bc.pins ==> from in bc.idle)
        && bc.pins == old(bc.pins) - {t.blockno}
        && bc.memdisk == old(bc.memdisk)[t.blockno := s.data]
        && bc.trace == old(bc.trace) + [bc.memdisk]
    {
      bc.Fill(to, bc.buf[from].data);
      bc.Bwrite(to);
      Release(from, to);
    }

    method Release(i: nat, j: nat)
      requires bc.Valid() && i < NBUF && j < NBUF && i != j && bc.buf[i].refcnt > 0 && bc.buf[j].refcnt > 0
      requires bc.buf[i].blockno != bc.buf[j].blockno
      modifies bc`buf, bc`held, bc`idle, bc`order, bc`stamp, bc`clock
      ensures bc.Valid() && old(bc.idle) <= bc.idle
      ensures var s, t := old(bc.buf[i]).blockno, old(bc.buf[j]).blockno;
        && s in old(bc.held) && t in old(bc.held) && bc.held == Down(Down(old(bc.held), s), t)
        && (s !in bc.held && s !in bc.pins ==> i in bc.idle) && (t !in bc.held && t !in bc.pins ==> j in bc.idle)
    {
      bc.Brelse(i);
      bc.Brelse(j);
    }

    /** write_log: copy every logged block from the cache to its slot. */
    method WriteLog()
      requires bc.Valid() && HomeBlocks(lh, start, size, |bc.memdisk|) && Clear(bc.held, lh, start, size)
      requires bc.pins.Keys == Elems(lh) && bc.idle != {}
      modifies bc
      ensures bc.Valid() && bc.held == old(bc.held) && bc.pins == old(bc.pins) && old(bc.idle) <= bc.idle
      ensures bc.memdisk == FillSlots(old(bc.memdisk), start, size, Contents(bc.pins, lh), |lh|)
      ensures bc.trace == old(bc.trace) + FillTrace(old(bc.memdisk), start, size, Contents(bc.pins, lh), |lh|)
    {
      ghost var d, src := bc.memdisk, Contents(bc.pins, lh);
      var tail := 0;
      while tail < |lh|
        invariant tail <= |lh| && bc.Valid() && bc.held == old(bc.held) && bc.pins == old(bc.pins)
        invariant old(bc.idle) <= bc.idle
        invariant bc.memdisk == FillSlots(d, start, size, src, tail)
        invariant bc.trace == old(bc.trace) + FillTrace(d, start, size, src, tail)
      {
        assert lh[tail] in lh;
        Copy(start + tail + 1, lh[tail], true);
        tail := tail + 1;
      }
    }

    /** write_head: put the in-memory header on the disk. */
    method WriteHead()
      requires bc.Valid() && start < |bc.memdisk| && |lh| <= LOGSIZE
      requires start !in bc.held && start !in bc.pins && bc.idle != {}
      modifies bc
      ensures bc.Valid() && bc.held == old(bc.held) && bc.pins == old(bc.pins) && old(bc.idle) <= bc.idle
      ensures bc.memdisk == PutHead(old(bc.memdisk), start, lh)
      ensures bc.trace == old(bc.trace) + [bc.memdisk]
    {
      UpDown(bc.held, start);
      var i := bc.Bread(start);
      bc.Fill(i, SetHead(bc.buf[i].data, lh));
      bc.Bwrite(i);
      assert bc.pins == old(bc.pins);
      bc.Brelse(i);
    }

    /** install_trans: copy every slot to its home block, in a commit or in a recovery. */
    method InstallTrans()
      requires bc.Valid() && HomeBlocks(lh, start, size, |bc.memdisk|) && Clear(bc.held, lh, start, size)
      requires if bc.pins == map[] then {0, 1} <= bc.idle
               else bc.pins.Keys == Elems(lh) && bc.idle != {} && Distinct(lh)
      modifies bc
      ensures bc.Valid() && bc.held == old(bc.held) && bc.pins == map[] && old(bc.idle) <= bc.idle
      ensures bc.memdisk == Install(old(bc.memdisk), start, size, lh, |lh|)
      ensures bc.trace == old(bc.trace) + InstallTrace(old(bc.memdisk), start, size, lh, |lh|)
    {
      ghost var d, t0, held, pins, idle := bc.memdisk, bc.trace, bc.held, bc.pins, bc.idle;
      var tail := 0;
      while tail < |lh|
        invariant tail <= |lh| && bc.Valid() && bc.held == held
        invariant bc.pins == pins - Elems(lh[..tail]) && idle <= bc.idle
        invariant bc.memdisk == Install(d, start, size, lh, tail)
        invariant bc.trace == t0 + InstallTrace(d, start, size, lh, tail)
      {
        InstallSlot(tail, pins);
        tail := tail + 1;
      }
      assert lh[..tail] == lh;
    }

    /** One round of install_trans. */
    method InstallSlot(tail: nat, ghost pins: map<nat, Block>)
      requires bc.Valid() && HomeBlocks(lh, start, size, |bc.memdisk|) && Clear(bc.held, lh, start, size) && tail < |lh|
      requires bc.pins == pins - Elems(lh[..tail])
      requires if pins == map[] then {0, 1} <= bc.idle else pins.Keys == Elems(lh) && bc.idle != {} && Distinct(lh)
      modifies bc
      ensures bc.Valid() && bc.held == old(bc.held) && old(bc.idle) <= bc.idle
      ensures bc.pins == pins - Elems(lh[..tail + 1])
      ensures lh[tail] in lh && start + tail + 1 < |old(bc.memdisk)|
      ensures bc.memdisk == old(bc.memdisk)[lh[tail] := old(bc.memdisk)[start + tail + 1]]
      ensures bc.trace == old(bc.trace) + [bc.memdisk]
    {
      assert lh[tail] in lh;
      NotBefore(lh, tail);
      ElemsNext(pins, lh, tail);
      Copy(start + tail + 1, lh[tail], false);
    }

    /** commit, beside readers of other blocks: the disk writes are exactly CommitTrace of the pinned contents. */
    method Commit()
      requires bc.Valid() && HomeBlocks(lh, start, size, |bc.memdisk|) && Distinct(lh)
      requires Clear(bc.held, lh, start, size) && bc.pins.Keys == Elems(lh) && bc.idle != {}
      modifies this`lh, bc
      ensures bc.Valid() && lh == [] && bc.held == old(bc.held) && bc.pins == map[] && old(bc.idle) <= bc.idle
      ensures if old(lh) == [] then bc.memdisk == old(bc.memdisk) && bc.trace == old(bc.trace)
              else var t := CommitTrace(old(bc.memdisk), start, size, old(lh), Contents(old(bc.pins), old(lh)));
                   bc.trace == old(bc.trace) + t && bc.memdisk == t[|t| - 1]
    {
      if |lh| > 0 {
        ghost var d, t0, blocks, src := bc.memdisk, bc.trace, lh, Contents(bc.pins, lh);
        LogAndHead();
        InstallAndErase();
        TraceJoined(t0, d, start, size, blocks, src);
      } else {
        assert bc.pins == map[];
      }
    }

    /** write_log(); write_head(): the transaction is committed when this returns. */
    method LogAndHead()
      requires bc.Valid() && HomeBlocks(lh, start, size, |bc.memdisk|)
      requires Clear(bc.held, lh, start, size) && bc.pins.Keys == Elems(lh) && bc.idle != {}
      modifies bc
      ensures bc.Valid() && bc.held == old(bc.held) && bc.pins == old(bc.pins) && old(bc.idle) <= bc.idle
      ensures bc.memdisk == Committed(old(bc.memdisk), start, size, lh, Contents(bc.pins, lh))
      ensures bc.trace == old(bc.trace)
        + FillTrace(old(bc.memdisk), start, size, Contents(bc.pins, lh), |lh|) + [bc.memdisk]
    {
      WriteLog();
      assert start !in bc.pins;
      WriteHead();
    }

    /** install_trans(); log.lh.n = 0; write_head() */
    method InstallAndErase()
      requires bc.Valid() && HomeBlocks(lh, start, size, |bc.memdisk|) && Clear(bc.held, lh, start, size)
      requires bc.pins.Keys == Elems(lh) && bc.idle != {} && Distinct(lh) && lh != []
      modifies this`lh, bc
      ensures bc.Valid() && lh == [] && bc.held == old(bc.held) && bc.pins == map[] && old(bc.idle) <= bc.idle
      ensures bc.memdisk == PutHead(Install(old(bc.memdisk), start, size, old(lh), |old(lh)|), start, [])
      ensures bc.trace == old(bc.trace) + InstallTrace(old(bc.memdisk), start, size, old(lh), |old(lh)|) + [bc.memdisk]
    {
      assert lh[0] in Elems(lh);
      InstallTrans();
      lh := [];
      WriteHead();
    }

    /** recover_from_log on a cold cache: the disk writes are exactly RecoverTrace. */
    method RecoverFromLog()
      requires bc.Valid() && WfDisk(bc.memdisk, start, size) && bc.held == map[] && bc.pins == map[]
      requires {0, 1} <= bc.idle
      modifies this`lh, bc
      ensures bc.Valid() && lh == [] && bc.held == map[] && bc.pins == map[]
      ensures bc.trace == old(bc.trace) + RecoverTrace(old(bc.memdisk), start, size)
      ensures bc.memdisk == Recovered(old(bc.memdisk), start, size)
    {
      ReadHead();
      InstallTrans();
      lh := [];
      WriteHead();
    }

    /** read_head: load the in-memory header from the disk. */
    method ReadHead()
      requires bc.Valid() && WfDisk(bc.memdisk, start, size) && bc.held == map[] && bc.pins == map[] && bc.idle != {}
      modifies this`lh, bc
      ensures bc.Valid() && bc.memdisk == old(bc.memdisk) && bc.trace == old(bc.trace) && old(bc.idle) <= bc.idle
      ensures bc.held == map[] && bc.pins == map[] && lh == HeadBlocks(bc.memdisk[start])
    {
      UpDown(bc.held, start);
      var i := bc.Bread(start);
      var h := bc.buf[i].data;
      var blocks := [];
      while |blocks| < h[0]
        invariant |blocks| <= h[0] <= LOGSIZE && blocks == h[1..1 + |blocks|]
      {
        blocks := blocks + [h[1 + |blocks|]];
      }
      lh := blocks;
      bc.Brelse(i);
    }
  }

  lemma TraceJoined(t0: seq<Disk>, d: Disk, start: nat, size: nat, blocks: seq<nat>, src: seq<Block>)
    requires HomeBlocks(blocks, start, size, |d|) && |src| == |blocks| > 0
    ensures var c := Committed(d, start, size, blocks, src);
      var end := PutHead(Install(c, start, size, blocks, |blocks|), start, []);
      var t := CommitTrace(d, start, size, blocks, src);
      && |t| > 0 && t[|t| - 1] == end
      && t0 + FillTrace(d, start, size, src, |blocks|) + [c] + InstallTrace(c, start, size, blocks, |blocks|) + [end] == t0 + t
  {
    var c := Committed(d, start, size, blocks, src);
    var end := PutHead(Install(c, start, size, blocks, |blocks|), start, []);
    Assoc(t0, FillTrace(d, start, size, src, |blocks|), c, InstallTrace(c, start, size, blocks, |blocks|), end);
  }

  lemma Assoc<T>(t0: seq<T>, a: seq<T>, c: T, b: seq<T>, e: T)
    ensures t0 + a + [c] + b + [e] == t0 + (a + [c] + b + [e])
  {
  }

  /** Releasing the blocks one by one. */
  lemma ElemsNext(pins: map<nat, Block>, blocks: seq<nat>, k: nat)
    requires k < |blocks|
    ensures pins - Elems(blocks[..k]) - {blocks[k]} == pins - Elems(blocks[..k + 1])
  {
    assert blocks[..k + 1] == blocks[..k] + [blocks[k]];
  }

  lemma NotBefore(blocks: seq<nat>, k: nat)
    requires k < |blocks|
    ensures Distinct(blocks) ==> blocks[k] !in blocks[..k]
  {
  }

  /**
   commit reads a log slot beside the pinned blocks. There is a buffer for it exactly while the blocks
   held or logged are fewer than the buffers: with nothing held, while fewer than NBUF are logged.
   */
  lemma CommitHasSpare(bc: BufCache, lh: seq<nat>)
    requires bc.Valid() && bc.pins.Keys == Elems(lh) && Distinct(lh)
    ensures bc.idle != {} <==> |bc.held.Keys + Elems(lh)| < NBUF
    ensures bc.held == map[] ==> (bc.idle != {} <==> |lh| < NBUF)
  {
    ElemsSize(lh);
    bc.RoomWhileFew(0);
    if bc.held == map[] { assert bc.held.Keys + Elems(lh) == Elems(lh); }
  }

  /** With NBUF blocks logged, commit's first bread of a log slot meets bget's panic. */
  lemma FullCommitPanics(bc: BufCache, lh: seq<nat>, start: nat, size: nat)
    requires bc.Valid() && bc.held == map[] && bc.pins.Keys == Elems(lh) && Distinct(lh)
    requires HomeBlocks(lh, start, size, |bc.memdisk|) && |lh| >= NBUF
    ensures !Cached(bc.buf, start + 1) && forall i: nat :: !Idle(bc.buf, i)
  {
    CommitHasSpare(bc, lh);
    bc.NoRoomPanics(start + 1);
  }
}
