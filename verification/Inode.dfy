/**
 File contents (fs.c) and the write system call's chunking (file.c) over owned blocks. `logged`
 is the set of blocks the running transaction has passed to log_write.
 */
module Inode {
  import opened Params
  import opened Elements
  import opened FileBlocks

  const BPB: nat := BSIZE * 8
  const IPB: nat := BSIZE / 64
  const UINT: nat := 0x1_0000_0000

  function Min(a: nat, b: nat): nat { if a < b then a else b }

  function Max(a: nat, b: nat): nat { if a < b then b else a }

  /** c with s written at off, which is at most |c|. */
  function Splice(c: seq<Byte>, off: nat, s: seq<Byte>): (r: seq<Byte>)
    requires off <= |c|
    ensures |r| == Max(|c|, off + |s|)
  {
    seq(Max(|c|, off + |s|), k requires 0 <= k < Max(|c|, off + |s|) =>
      if off <= k < off + |s| then s[k - off] else c[k])
  }

  /** The number of blocks that bytes off .. off+n-1 touch. */
  function Chunks(off: nat, n: nat): nat {
    if n == 0 then 0 else (off + n - 1) / BSIZE - off / BSIZE + 1
  }

  /** Data blocks, bitmap blocks of new data blocks, and at most one indirect, indirect's bitmap and inode block. */
  function LogBound(off: nat, n: nat): nat {
    var c := Chunks(off, n);
    c + (if c > 0 && off % BSIZE != 0 then c - 1 else c) + 3
  }

  /** filewrite's largest chunk: ((MAXOPBLOCKS-1-1-2) / 2) * 512 */
  const MAXCHUNK: nat := (MAXOPBLOCKS - 1 - 1 - 2) / 2 * 512

  /** A chunk of filewrite fits one operation's reservation at every offset, and no multiple of 512 above it does. */
  lemma ChunkFits(off: nat, n: nat)
    requires n <= MAXCHUNK
    ensures LogBound(off, n) <= MAXOPBLOCKS
    ensures LogBound(0, MAXCHUNK + BSIZE) > MAXOPBLOCKS
  {
    var q, r := off / BSIZE, off % BSIZE;
    assert off == q * BSIZE + r;
    if n > 0 {
      assert (off + n - 1) / BSIZE == q + (r + n - 1) / BSIZE;
    }
  }

  lemma SetSize(a: set<nat>, b: set<nat>)
    ensures |a + b| <= |a| + |b|
  {
  }

  lemma AddSize(a: set<nat>, x: nat)
    ensures |a + {x}| <= |a| + 1
  {
    SetSize(a, {x});
  }

  /** What a file system keeps on the disk: block contents, free map and inodes. */
  datatype Image = Image(blocks: seq<Block>, used: seq<bool>, dinodes: seq<Inode>)

  class FileSystem {
    var blocks: seq<Block>
    var used: seq<bool>           // the free map, one bit a block
    var inodes: seq<Inode>        // in memory
    var dinodes: seq<Inode>       // on the disk
    var logged: set<nat>
    ghost var owner: Owners
    const first: nat              // the first data block
    const inodestart: nat
    const bmapstart: nat

    function BBlock(b: nat): nat { b / BPB + bmapstart }

    function IBlock(i: nat): nat { i / IPB + inodestart }

    /** The bitmap block of b holds bit b, and the inode block of i inode i. */
    lemma Places(b: nat, i: nat)
      ensures bmapstart <= BBlock(b) && 0 <= b - (BBlock(b) - bmapstart) * BPB < BPB
      ensures inodestart <= IBlock(i) && 0 <= i - (IBlock(i) - inodestart) * IPB < IPB
    {
    }

    ghost function OnDisk(): Image
      reads `blocks, `used, `dinodes
    {
      Image(blocks, used, dinodes)
    }

    /** Whatever differs between two images lies in blocks of log: a commit of log carries all of it. */
    ghost predicate Carried(m0: Image, m1: Image, log: set<nat>) {
      && |m1.blocks| == |m0.blocks| && |m1.used| == |m0.used| && |m1.dinodes| == |m0.dinodes|
      && forall k: nat {:trigger CarriedAt(m0, m1, log, k)} :: CarriedAt(m0, m1, log, k)
    }

    /** Block k, bit k of the free map in its bitmap block, and inode k in its inode block. */
    ghost predicate CarriedAt(m0: Image, m1: Image, log: set<nat>, k: nat)
      requires |m1.blocks| == |m0.blocks| && |m1.used| == |m0.used| && |m1.dinodes| == |m0.dinodes|
    {
      && (k < |m0.blocks| && m1.blocks[k] != m0.blocks[k] ==> k in log)
      && (k < |m0.used| && m1.used[k] != m0.used[k] ==> BBlock(k) in log)
      && (k < |m0.dinodes| && m1.dinodes[k] != m0.dinodes[k] ==> IBlock(k) in log)
    }

    lemma CarriedOn(m0: Image, m1: Image, log1: set<nat>, m2: Image, log2: set<nat>)
      requires Carried(m0, m1, log1) && Carried(m1, m2, log2)
      ensures Carried(m0, m2, log1 + log2)
      ensures log1 <= log2 ==> Carried(m0, m2, log2)
    {
      forall k: nat ensures CarriedAt(m0, m2, log1 + log2, k) && (log1 <= log2 ==> CarriedAt(m0, m2, log2, k)) {
        assert CarriedAt(m0, m1, log1, k) && CarriedAt(m1, m2, log2, k);
      }
    }

    ghost predicate Valid()
      reads this
    {
      Owned(blocks, used, inodes, owner, first, {}) && |dinodes| == |inodes|
    }

    /** Valid, no file has a hole, and every inode is on the disk as it is in memory. */
    ghost predicate Quiet()
      reads this
    {
      Valid() && AllSolid(blocks, inodes) && dinodes == inodes
    }

    /** A well-formed image. */
    constructor (blocks: seq<Block>, used: seq<bool>, inodes: seq<Inode>, ghost owner: Owners,
                 first: nat, inodestart: nat, bmapstart: nat)
      requires Owned(blocks, used, inodes, owner, first, {}) && AllSolid(blocks, inodes)
      ensures Quiet() && this.blocks == blocks && this.inodes == inodes
    {
      this.blocks, this.used, this.inodes, dinodes, logged := blocks, used, inodes, inodes, {};
      this.owner, this.first, this.inodestart, this.bmapstart := owner, first, inodestart, bmapstart;
    }

    /** The bitmap has no free block. */
    ghost predicate DiskFull()
      reads `used
    {
      forall b :: 0 <= b < |used| ==> used[b]
    }

    /** balloc: take the lowest free block and zero it. Not ok is the panic "out of blocks". */
    method Balloc() returns (r: nat, ok: bool)
      requires |used| == |blocks|
      modifies `blocks, `used, `logged
      ensures !ok ==> DiskFull() && blocks == old(blocks) && used == old(used) && logged == old(logged)
      ensures ok ==> r < |old(used)| && !old(used)[r] && forall b :: 0 <= b < r ==> old(used)[b]
      ensures ok ==> used == old(used)[r := true] && blocks == old(blocks)[r := Zeroed()]
      ensures ok ==> logged == old(logged) + {BBlock(r), r}
    {
      var b := 0;
      while b < |used|
        invariant used == old(used) && blocks == old(blocks) && logged == old(logged)
        invariant b % BPB == 0 && forall c :: 0 <= c < b && c < |used| ==> used[c]
        decreases if b < |used| then |used| - b else 0
      {
        var bi := 0;
        while bi < BPB && b + bi < |used|
          invariant used == old(used) && blocks == old(blocks) && logged == old(logged)
          invariant bi <= BPB && forall c :: 0 <= c < b + bi && c < |used| ==> used[c]
        {
          if !used[b + bi] {
            r, ok := b + bi, true;
            used := used[r := true];
            logged := logged + {b / BPB + bmapstart};
            blocks := blocks[r := Zeroed()];
            logged := logged + {r};
            return;
          }
          bi := bi + 1;
        }
        b := b + BPB;
      }
      r, ok := 0, false;
    }

    /** bfree, past its panic. */
    method Bfree(b: nat)
      requires b < |used| && used[b]
      modifies `used, `logged
      ensures used == old(used)[b := false] && logged == old(logged) + {BBlock(b)} && Carried(old(OnDisk()), OnDisk(), logged)
    {
      used := used[b := false];
      logged := logged + {BBlock(b)};
    }

    /** balloc for slot addrs[n] of file i. */
    method AllocDirect(i: nat, n: nat) returns (b: nat, ok: bool)
      requires Valid() && i < |inodes| && n <= NDIRECT && inodes[i].addrs[n] == 0
      modifies `blocks, `used, `logged, `inodes, `owner
      ensures !ok ==> DiskFull()
      ensures ok ==> Valid() && |inodes| == |old(inodes)| && first <= b < |blocks| && blocks[b] == Zeroed()
      ensures ok ==> inodes == old(inodes)[i := old(inodes)[i].(addrs := old(inodes)[i].addrs[n := b])]
      ensures ok ==> logged == old(logged) + {BBlock(b), b} && Carried(old(OnDisk()), OnDisk(), logged)
      ensures ok ==> KeepsBut(old(blocks), old(inodes), blocks, inodes, if n < NDIRECT then Data(i, n) else Ind(i))
    {
      b, ok := Balloc();
      if !ok { return; }
      TakeKeepsOwned(old(blocks), old(used), inodes, owner, first, b);
      NameKeepsOwned(blocks, used, inodes, owner, first, i, n, b);
      inodes := inodes[i := inodes[i].(addrs := inodes[i].addrs[n := b])];
      ghost var s := if n < NDIRECT then Data(i, n) else Ind(i);
      owner := owner[b := s];
      forall t | SlotOk(old(inodes), t) && t != s && Ref(old(blocks), old(inodes), t) != 0
        ensures SameSlot(old(blocks), old(inodes), blocks, inodes, t)
      {
        assert Recorded(old(blocks), old(inodes), old(owner), t);
        assert OwnedAt(old(blocks), old(inodes), old(owner), first, Ref(old(blocks), old(inodes), t));
      }
    }

    /** balloc for entry j of file i's indirect block, and log_write of the latter. */
    method AllocEntry(i: nat, j: nat) returns (b: nat, ok: bool)
      requires Valid() && i < |inodes| && j < NINDIRECT && inodes[i].addrs[NDIRECT] != 0
      requires BlockNo(blocks, inodes[i], NDIRECT + j) == 0
      modifies `blocks, `used, `logged, `owner
      ensures !ok ==> DiskFull()
      ensures ok ==> Valid() && first <= b < |blocks| && blocks[b] == Zeroed()
      ensures ok ==> BlockNo(blocks, inodes[i], NDIRECT + j) == b
      ensures ok ==> logged == old(logged) + {BBlock(b), b, inodes[i].addrs[NDIRECT]} && Carried(old(OnDisk()), OnDisk(), logged)
      ensures ok ==> KeepsBut(old(blocks), inodes, blocks, inodes, Data(i, NDIRECT + j))
    {
      var a := inodes[i].addrs[NDIRECT];
      ghost var s := Data(i, NDIRECT + j);
      assert Recorded(blocks, inodes, owner, Ind(i));
      assert OwnedAt(blocks, inodes, owner, first, a);
      b, ok := Balloc();
      if !ok { return; }
      TakeKeepsOwned(old(blocks), old(used), inodes, owner, first, b);
      assert Ref(blocks, inodes, s) == Ref(old(blocks), inodes, s);
      EnterKeepsOwned(blocks, used, inodes, owner, first, i, j, b);
      blocks := blocks[a := SetEntry(blocks[a], j, b)];
      logged := logged + {a};
      owner := owner[b := s];
      forall t | SlotOk(inodes, t) && t != s && Ref(old(blocks), inodes, t) != 0
        ensures SameSlot(old(blocks), inodes, blocks, inodes, t)
      {
        assert Recorded(old(blocks), inodes, old(owner), t);
        assert OwnedAt(old(blocks), inodes, old(owner), first, Ref(old(blocks), inodes, t));
      }
    }

    /** Nothing has changed. */
    ghost predicate Unmoved(blocks0: seq<Block>, used0: seq<bool>, inodes0: seq<Inode>, logged0: set<nat>, owner0: Owners)
      reads this
    {
      blocks == blocks0 && used == used0 && inodes == inodes0 && logged == logged0 && owner == owner0
    }

    /** The blocks bmap logs when it allocates: the new block, its bitmap block, and the indirect block's. */
    function BmapLogs(addr: nat, ind: nat, direct: bool, newInd: bool): set<nat> {
      {BBlock(addr), addr} + (if direct then {} else {ind}) + (if newInd then {BBlock(ind)} else {})
    }

    /** bmap: the number of the nth block of file i, allocated if there is none. */
    method Bmap(i: nat, n: nat) returns (addr: nat, ok: bool, ghost newInd: bool)
      requires Valid() && i < |inodes| && n < MAXFILE
      modifies `blocks, `used, `logged, `inodes, `owner
      ensures !ok ==> DiskFull()
      ensures ok ==> Valid() && |inodes| == |old(inodes)| && 0 < addr < |blocks| && addr == BlockNo(blocks, inodes[i], n)
      ensures ok ==> KeepsBut(old(blocks), old(inodes), blocks, inodes, Data(i, n))
      ensures ok ==> forall j :: 0 <= j < |inodes| && j != i ==> inodes[j] == old(inodes)[j]
      ensures BlockNo(old(blocks), old(inodes)[i], n) != 0 ==>
        ok && !newInd && Unmoved(old(blocks), old(used), old(inodes), old(logged), old(owner))
      ensures ok && BlockNo(old(blocks), old(inodes)[i], n) == 0 ==>
        blocks[addr] == Zeroed() && logged == old(logged) + BmapLogs(addr, inodes[i].addrs[NDIRECT], n < NDIRECT, newInd)
      ensures ok ==> inodes[i].addrs[NDIRECT] == old(inodes)[i].addrs[NDIRECT] || newInd
      ensures ok && newInd ==> old(inodes)[i].addrs[NDIRECT] == 0 != inodes[i].addrs[NDIRECT] && n >= NDIRECT
      ensures ok ==> Carried(old(OnDisk()), OnDisk(), logged)
    {
      KeepsSame(blocks, used, inodes, owner, first, Data(i, n));
      if n < NDIRECT {
        newInd := false;
        addr, ok := inodes[i].addrs[n], true;
        assert Recorded(blocks, inodes, owner, Data(i, n));
        if addr == 0 {
          addr, ok := AllocDirect(i, n);
        } else {
          assert OwnedAt(blocks, inodes, owner, first, addr);
        }
      } else {
        addr, ok, newInd := BmapIndirect(i, n);
      }
    }

    method BmapIndirect(i: nat, n: nat) returns (addr: nat, ok: bool, ghost newInd: bool)
      requires Valid() && i < |inodes| && NDIRECT <= n < MAXFILE
      modifies `blocks, `used, `logged, `inodes, `owner
      ensures !ok ==> DiskFull()
      ensures ok ==> Valid() && |inodes| == |old(inodes)| && 0 < addr < |blocks| && addr == BlockNo(blocks, inodes[i], n)
      ensures ok ==> KeepsBut(old(blocks), old(inodes), blocks, inodes, Data(i, n))
      ensures ok ==> forall j :: 0 <= j < |inodes| && j != i ==> inodes[j] == old(inodes)[j]
      ensures BlockNo(old(blocks), old(inodes)[i], n) != 0 ==>
        ok && !newInd && Unmoved(old(blocks), old(used), old(inodes), old(logged), old(owner))
      ensures ok && BlockNo(old(blocks), old(inodes)[i], n) == 0 ==>
        blocks[addr] == Zeroed() && logged == old(logged) + BmapLogs(addr, inodes[i].addrs[NDIRECT], false, newInd)
      ensures ok ==> inodes[i].addrs[NDIRECT] == old(inodes)[i].addrs[NDIRECT] || newInd
      ensures ok && newInd ==> old(inodes)[i].addrs[NDIRECT] == 0 != inodes[i].addrs[NDIRECT]
      ensures ok ==> Carried(old(OnDisk()), OnDisk(), logged)
    {
      var ok1 := true;
      newInd := false;
      if inodes[i].addrs[NDIRECT] == 0 {
        ok1 := AllocInd(i, n);
        if !ok1 { return 0, false, newInd; }
        newInd := true;
      } else {
        KeepsSame(blocks, used, inodes, owner, first, Data(i, n));
      }
      assert Recorded(blocks, inodes, owner, Data(i, n)) && Recorded(blocks, inodes, owner, Ind(i));
      assert OwnedAt(blocks, inodes, owner, first, inodes[i].addrs[NDIRECT]);
      ghost var b1, i1, m1, l1 := blocks, inodes, OnDisk(), logged;
      addr, ok := EntryOf(blocks[inodes[i].addrs[NDIRECT]], n - NDIRECT), true;
      if addr == 0 {
        addr, ok := AllocEntry(i, n - NDIRECT);
        if ok {
          KeepsTrans(old(blocks), old(inodes), b1, i1, blocks, inodes, Data(i, n));
          CarriedOn(old(OnDisk()), m1, l1, OnDisk(), logged);
        }
      } else {
        assert OwnedAt(blocks, inodes, owner, first, addr);
      }
    }

    /** balloc for the indirect block of file i. */
    method AllocInd(i: nat, n: nat) returns (ok: bool)
      requires Valid() && i < |inodes| && NDIRECT <= n < MAXFILE && inodes[i].addrs[NDIRECT] == 0
      modifies `blocks, `used, `logged, `inodes, `owner
      ensures !ok ==> DiskFull()
      ensures ok ==> Valid() && |inodes| == |old(inodes)| && BlockNo(blocks, inodes[i], n) == 0
      ensures ok ==> KeepsBut(old(blocks), old(inodes), blocks, inodes, Data(i, n))
      ensures ok ==> forall j :: 0 <= j < |inodes| && j != i ==> inodes[j] == old(inodes)[j]
      ensures ok ==> inodes[i].addrs[NDIRECT] != 0
      ensures ok ==> logged == old(logged) + {BBlock(inodes[i].addrs[NDIRECT]), inodes[i].addrs[NDIRECT]}
      ensures ok ==> Carried(old(OnDisk()), OnDisk(), logged)
    {
      var a;
      a, ok := AllocDirect(i, NDIRECT);
      if ok {
        ZeroedHasNoEntries(n - NDIRECT);
        NotInd(old(blocks), old(inodes), blocks, inodes, i, n);
      }
    }

    /** The indirect block was not there before: excepting its slot excepts nothing. */
    lemma NotInd(b0: seq<Block>, i0: seq<Inode>, b1: seq<Block>, i1: seq<Inode>, i: nat, n: nat)
      requires KeepsBut(b0, i0, b1, i1, Ind(i)) && i < |i0| && i0[i].addrs[NDIRECT] == 0
      ensures KeepsBut(b0, i0, b1, i1, Data(i, n))
    {
      forall t | SlotOk(i0, t) && t != Data(i, n) && Ref(b0, i0, t) != 0 ensures SameSlot(b0, i0, b1, i1, t) {
        assert t != Ind(i);
      }
    }

    /** bread(bmap(off/BSIZE)); memmove(bp->data + off%BSIZE, piece); log_write(bp) */
    method WritePiece(i: nat, at: nat, piece: seq<Byte>) returns (ok: bool, ghost addr: nat, ghost newInd: bool)
      requires Valid() && i < |inodes| && at / BSIZE < MAXFILE && 0 < |piece| <= BSIZE - at % BSIZE
      modifies `blocks, `used, `logged, `inodes, `owner
      ensures !ok ==> DiskFull()
      ensures ok ==> Valid() && |inodes| == |old(inodes)| && KeepsBut(old(blocks), old(inodes), blocks, inodes, Data(i, at / BSIZE))
      ensures ok ==> forall j :: 0 <= j < |inodes| && j != i ==> inodes[j] == old(inodes)[j]
      ensures ok ==> PieceWritten(old(blocks), old(inodes)[i], blocks, inodes[i], at, piece)
      ensures ok ==> var hole := BlockNo(old(blocks), old(inodes)[i], at / BSIZE) == 0;
        && (!hole ==> inodes == old(inodes) && !newInd)
        && logged == old(logged) + {addr}
             + if hole then BmapLogs(addr, inodes[i].addrs[NDIRECT], at / BSIZE < NDIRECT, newInd) else {}
      ensures ok ==> inodes[i].addrs[NDIRECT] == old(inodes)[i].addrs[NDIRECT] || newInd
      ensures ok && newInd ==> old(inodes)[i].addrs[NDIRECT] == 0 != inodes[i].addrs[NDIRECT] && at / BSIZE >= NDIRECT
      ensures ok ==> Carried(old(OnDisk()), OnDisk(), logged)
    {
      var n, o := at / BSIZE, at % BSIZE;
      var a;
      a, ok, newInd := Bmap(i, n);
      addr := a;
      if !ok { return; }
      ghost var b1, i1, m1, l1 := blocks, inodes, OnDisk(), logged;
      var v: Block := blocks[a][..o] + piece + blocks[a][o + |piece|..];
      WriteKeepsOwned(blocks, used, inodes, owner, first, Data(i, n), v);
      blocks := blocks[a := v];
      logged := logged + {a};
      CarriedOn(old(OnDisk()), m1, l1, OnDisk(), logged);
      OnlySlotWritten(b1, i1, used, owner, i, n, v);
      KeepsTrans(old(blocks), old(inodes), b1, i1, blocks, inodes, Data(i, n));
      if BlockNo(old(blocks), old(inodes)[i], n) == 0 {
        assert b1[a] == Zeroed();
      }
    }

    lemma OnlySlotWritten(b1: seq<Block>, i1: seq<Inode>, used1: seq<bool>, owner1: Owners, i: nat, n: nat, v: Block)
      requires Owned(b1, used1, i1, owner1, first, {}) && i < |i1| && n < MAXFILE && 0 < BlockNo(b1, i1[i], n) < |b1|
      requires forall t :: SlotOk(i1, t) ==> Ref(b1[BlockNo(b1, i1[i], n) := v], i1, t) == Ref(b1, i1, t)
      ensures KeepsBut(b1, i1, b1[BlockNo(b1, i1[i], n) := v], i1, Data(i, n))
    {
      var b2 := b1[BlockNo(b1, i1[i], n) := v];
      assert Recorded(b1, i1, owner1, Data(i, n));
      forall t | SlotOk(i1, t) && t != Data(i, n) && Ref(b1, i1, t) != 0 ensures SameSlot(b1, i1, b2, i1, t) {
        assert Recorded(b1, i1, owner1, t) && OwnedAt(b1, i1, owner1, first, Ref(b1, i1, t));
      }
    }

    /** writei on a regular file: -1 for a bad offset or an oversized file, else src is spliced in at off. */
    method Writei(i: nat, src: seq<Byte>, off: nat) returns (r: int, ok: bool)
      requires Quiet() && i < |inodes| && off < UINT && |src| < UINT
      modifies `blocks, `used, `logged, `inodes, `owner, `dinodes
      ensures !ok ==> DiskFull()
      ensures ok ==> Quiet() && OthersKept(old(blocks), old(inodes), blocks, inodes, i)
      ensures ok ==> r == if off > old(inodes)[i].size || off + |src| > MAXFILE * BSIZE then -1 else |src|
      ensures ok && r == -1 ==> Unmoved(old(blocks), old(used), old(inodes), old(logged), old(owner))
      ensures ok && r != -1 ==> Content(blocks, inodes[i]) == Splice(Content(old(blocks), old(inodes)[i]), off, src)
      ensures ok && old(logged) == {} ==> |logged| <= LogBound(off, |src|)
      ensures ok ==> Carried(old(OnDisk()), OnDisk(), logged)
    {
      var n := |src|;
      AllKept(blocks, inodes, i);
      if off > inodes[i].size || off + n >= UINT { return -1, true; }
      if off + n > MAXFILE * BSIZE { return -1, true; }
      ok := WriteLoop(i, src, off);
      if !ok { return 0, false; }
      if n > 0 && off + n > inodes[i].size {
        AddSize(logged, IBlock(i));
        ResizeKeepsOwned(blocks, used, inodes, owner, first, i, off + n);
        ResizeKept(old(blocks), old(inodes), blocks, inodes, i, off + n);
        inodes := inodes[i := inodes[i].(size := off + n)];
        ghost var m1, l1 := OnDisk(), logged;
        Iupdate(i);
        CarriedOn(old(OnDisk()), m1, l1, OnDisk(), logged);
      }
      r := n;
      Synced(old(blocks), old(inodes), blocks, inodes, i);
      Spliced(old(blocks), old(inodes)[i], blocks, inodes[i], off, src);
      AllSolidAgain(old(blocks), old(inodes), blocks, inodes, i);
    }

    method Iupdate(i: nat)
      requires i < |inodes| == |dinodes|
      modifies `dinodes, `logged
      ensures dinodes == old(dinodes)[i := inodes[i]] && logged == old(logged) + {IBlock(i)} && Carried(old(OnDisk()), OnDisk(), logged)
    {
      dinodes := dinodes[i := inodes[i]];
      logged := logged + {IBlock(i)};
    }

    /** The loop of writei. */
    method WriteLoop(i: nat, src: seq<Byte>, off: nat) returns (ok: bool)
      requires Quiet() && i < |inodes| && off <= inodes[i].size && off + |src| <= MAXFILE * BSIZE
      modifies `blocks, `used, `logged, `inodes, `owner
      ensures !ok ==> DiskFull()
      ensures ok ==> Valid() && OthersKept(old(blocks), old(inodes), blocks, inodes, i)
      ensures ok ==> Progress(old(blocks), old(inodes)[i], blocks, inodes[i], off, src, |src|)
      ensures ok && off + |src| <= old(inodes)[i].size ==> inodes == old(inodes)
      ensures ok && old(logged) == {} ==> |logged| <= LogBound(off, |src|) - 1
      ensures ok ==> Carried(old(OnDisk()), OnDisk(), logged)
    {
      ghost var b0, i0, m0, empty := blocks, inodes, OnDisk(), logged == {};
      var tot := 0;
      ok := true;
      assert SolidAt(blocks, inodes, i);
      ProgressStart(blocks, used, inodes, owner, first, i, off, src);
      ghost var led := Ledger([], false, false, 0, 0);
      while tot < |src|
        invariant tot <= |src| && Valid() && OthersKept(b0, i0, blocks, inodes, i)
        invariant Progress(b0, i0[i], blocks, inodes[i], off, src, tot)
        invariant off + tot <= i0[i].size ==> inodes == i0
        invariant empty ==> logged == Noted(led)
        invariant LedgerOk(led, inodes[i], off, tot, |src|)
        invariant Carried(m0, OnDisk(), logged)
      {
        ghost var ip1 := inodes[i];
        var m := if |src| - tot < BSIZE - (off + tot) % BSIZE then |src| - tot else BSIZE - (off + tot) % BSIZE;
        ghost var addr, hole, newInd;
        ok, addr, hole, newInd := WriteRound(i, src, off, tot, m, b0, i0, m0);
        if !ok { return; }
        led := NextLedger(led, ip1, inodes[i], off, tot, m, |src|, addr, hole, (off + tot) / BSIZE < NDIRECT, newInd);
        tot := tot + m;
      }
      SizeOfLedger(led, inodes[i], off, |src|);
    }

    /** One round of the loop: m bytes into one block. */
    method WriteRound(i: nat, src: seq<Byte>, off: nat, tot: nat, m: nat, ghost b0: seq<Block>, ghost i0: seq<Inode>, ghost m0: Image)
      returns (ok: bool, ghost addr: nat, ghost hole: bool, ghost newInd: bool)
      requires Valid() && OthersKept(b0, i0, blocks, inodes, i) && tot < |src| && off + |src| <= MAXFILE * BSIZE
      requires off <= i0[i].size && Progress(b0, i0[i], blocks, inodes[i], off, src, tot)
      requires m == if |src| - tot < BSIZE - (off + tot) % BSIZE then |src| - tot else BSIZE - (off + tot) % BSIZE
      requires off + tot <= i0[i].size ==> inodes == i0
      requires Carried(m0, OnDisk(), logged)
      modifies `blocks, `used, `logged, `inodes, `owner
      ensures !ok ==> DiskFull()
      ensures ok ==> Valid() && OthersKept(b0, i0, blocks, inodes, i)
      ensures ok ==> Progress(b0, i0[i], blocks, inodes[i], off, src, tot + m)
      ensures ok && off + tot + m <= i0[i].size ==> inodes == i0
      ensures ok && !hole ==> logged == old(logged) + {addr}
      ensures ok && hole ==>
        logged == old(logged) + {addr} + BmapLogs(addr, inodes[i].addrs[NDIRECT], (off + tot) / BSIZE < NDIRECT, newInd)
      ensures ok ==> (!hole ==> !newInd) && (hole ==> (off + tot) % BSIZE == 0)
      ensures ok ==> inodes[i].addrs[NDIRECT] == old(inodes)[i].addrs[NDIRECT] || newInd
      ensures ok && newInd ==> old(inodes)[i].addrs[NDIRECT] == 0 != inodes[i].addrs[NDIRECT]
      ensures ok && hole && (off + tot) / BSIZE >= NDIRECT ==> inodes[i].addrs[NDIRECT] != 0
      ensures ok ==> Carried(m0, OnDisk(), logged)
    {
      ghost var b1, i1 := blocks, inodes;
      var at := off + tot;
      hole := BlockNo(b1, i1[i], at / BSIZE) == 0;
      HolePlace(b0, i0[i], b1, i1[i], off, src, tot);
      ok, addr, newInd := WritePiece(i, at, src[tot..tot + m]);
      if !ok { return; }
      assert Progress(b0, i0[i], blocks, inodes[i], off, src, tot + m) by {
        ProgressStep(b0, i0[i], b1, i1, blocks, inodes, i, off, src, tot, m);
      }
      assert OthersKept(b0, i0, blocks, inodes, i) by {
        OthersStep(b0, i0, b1, i1, blocks, inodes, i, at / BSIZE);
      }
      CarriedOn(m0, old(OnDisk()), old(logged), OnDisk(), logged);
    }

    /** The ledger after one more round, and the set of blocks it stands for. */
    lemma NextLedger(led: Ledger, ip1: Inode, ip2: Inode, off: nat, tot: nat, m: nat, n: nat,
                     addr: nat, hole: bool, direct: bool, newInd: bool) returns (next: Ledger)
      requires |ip1.addrs| == NDIRECT + 1 == |ip2.addrs| && LedgerOk(led, ip1, off, tot, n) && tot < n
      requires m == if n - tot < BSIZE - (off + tot) % BSIZE then n - tot else BSIZE - (off + tot) % BSIZE
      requires ip2.addrs[NDIRECT] == ip1.addrs[NDIRECT] || newInd
      requires newInd ==> ip1.addrs[NDIRECT] == 0 != ip2.addrs[NDIRECT]
      requires hole && !direct ==> ip2.addrs[NDIRECT] != 0
      requires !hole ==> !newInd
      requires hole ==> (off + tot) % BSIZE == 0
      ensures LedgerOk(next, ip2, off, tot + m, n)
      ensures Noted(next) == Noted(led) + {addr} + if hole then BmapLogs(addr, ip2.addrs[NDIRECT], direct, newInd) else {}
    {
      var ind := ip2.addrs[NDIRECT];
      LedgerStep(led, ip1, ip2, off, tot, m, n, addr, BBlock(addr), hole, BBlock(ind), direct, newInd);
      NotedStep(led, addr, hole, ind, direct, newInd);
      next := Enter(led, addr, BBlock(addr), hole, ind, BBlock(ind), direct, newInd);
    }

    lemma NotedStep(led: Ledger, addr: nat, hole: bool, ind: nat, direct: bool, newInd: bool)
      requires !hole ==> !newInd
      requires led.ind ==> ind in led.list
      ensures Noted(Enter(led, addr, BBlock(addr), hole, ind, BBlock(ind), direct, newInd))
           == Noted(led) + {addr} + if hole then BmapLogs(addr, ind, direct, newInd) else {}
    {
    }

    /** readi on a regular file: -1 for a bad offset, else the bytes from off on, at most n and not past the end. */
    method Readi(i: nat, off: nat, n: nat) returns (r: int, dst: seq<Byte>)
      requires Quiet() && i < |inodes| && off < UINT && n < UINT
      modifies `blocks, `used, `logged, `inodes, `owner
      ensures Unmoved(old(blocks), old(used), old(inodes), old(logged), old(owner))
      ensures r == if off > old(inodes)[i].size || off + n >= UINT then -1 else |dst|
      ensures off <= old(inodes)[i].size && off + n < UINT ==>
        dst == Content(old(blocks), old(inodes)[i])[off..Min(off + n, old(inodes)[i].size)]
    {
      dst := [];
      assert SolidAt(blocks, inodes, i);
      if off > inodes[i].size || off + n >= UINT { return -1, dst; }
      var m := if off + n > inodes[i].size then inodes[i].size - off else n;
      var tot := 0;
      ghost var b0, u0, i0, l0, o0, c := blocks, used, inodes, logged, owner, Content(blocks, inodes[i]);
      while tot < m
        invariant Unmoved(b0, u0, i0, l0, o0) && Quiet()
        invariant tot <= m && off + m <= i0[i].size
        invariant dst == c[off..off + tot]
      {
        var piece := ReadPiece(i, off + tot, m - tot);
        dst := dst + piece;
        tot := tot + |piece|;
      }
      r := m;
    }

    /** One round of readi: what is left to read of the block at `at`, up to n bytes. */
    method ReadPiece(i: nat, at: nat, n: nat) returns (piece: seq<Byte>)
      requires Quiet() && i < |inodes| && 0 < n && at + n <= inodes[i].size
      modifies `blocks, `used, `logged, `inodes, `owner
      ensures Unmoved(old(blocks), old(used), old(inodes), old(logged), old(owner)) && Quiet()
      ensures 0 < |piece| <= n && piece == Content(blocks, inodes[i])[at..at + |piece|]
    {
      assert SolidAt(blocks, inodes, i) && at / BSIZE * BSIZE <= at;
      assert BlockNo(blocks, inodes[i], at / BSIZE) != 0;
      var a, ok;
      ghost var newInd;
      a, ok, newInd := Bmap(i, at / BSIZE);
      var k := if n < BSIZE - at % BSIZE then n else BSIZE - at % BSIZE;
      PieceRead(blocks, inodes[i], at, k);
      piece := blocks[a][at % BSIZE..at % BSIZE + k];
    }

    /** The second half of itrunc: the entries of the indirect block, then the block itself. */
    method TruncIndirect(i: nat)
      requires Valid() && i < |inodes|
      modifies `used, `logged, `inodes, `owner
      ensures Valid()
      ensures inodes == old(inodes)[i := old(inodes)[i].(addrs := old(inodes)[i].addrs[NDIRECT := 0])]
      ensures |used| == |old(used)|
      ensures forall b :: 0 <= b < |used| ==> used[b] == (old(used)[b] && b !in IndPart(old(owner), i, 0))
      ensures old(logged) <= logged && Carried(old(OnDisk()), OnDisk(), logged)
    {
      LastOfPart(blocks, used, inodes, owner, first, i);
      UnnameIndirect(blocks, used, inodes, owner, first, i);
      ghost var own0, use0, m0, l0 := owner, used, OnDisk(), logged;
      ghost var ino1, own1 := inodes[i := inodes[i].(addrs := inodes[i].addrs[NDIRECT := 0])], owner - IndPart(owner, i, 0);
      if inodes[i].addrs[NDIRECT] != 0 {
        var a := inodes[i].addrs[NDIRECT];
        var j := 0;
        while j < NINDIRECT
          invariant j <= NINDIRECT && inodes == old(inodes) && owner == own0
          invariant Owned(blocks, used, ino1, own1, first, IndPart(own0, i, j))
          invariant forall b :: 0 <= b < |used| ==> used[b] == (use0[b] && (b !in IndPart(own0, i, 0) || b in IndPart(own0, i, j)))
          invariant l0 <= logged && Carried(m0, OnDisk(), logged)
        {
          EntryTurn(blocks, use0, inodes, own0, first, i, j);
          var e := EntryOf(blocks[a], j);
          if e != 0 {
            ReleaseKeepsOwned(blocks, used, ino1, own1, first, IndPart(own0, i, j), e);
            ghost var m1, l1 := OnDisk(), logged;
            Bfree(e);
            CarriedOn(m0, m1, l1, OnDisk(), logged);
          }
          j := j + 1;
        }
        ReleaseKeepsOwned(blocks, used, ino1, own1, first, {a}, a);
        assert {a} - {a} == {};
        ghost var m1, l1 := OnDisk(), logged;
        Bfree(a);
        CarriedOn(m0, m1, l1, OnDisk(), logged);
        inodes := inodes[i := inodes[i].(addrs := inodes[i].addrs[NDIRECT := 0])];
        owner := own1;
      } else {
        assert inodes[i].addrs[NDIRECT := 0] == inodes[i].addrs;
        assert inodes == ino1;
      }
    }

    /** itrunc: give back exactly the file's blocks. */
    method Itrunc(i: nat)
      requires Quiet() && i < |inodes|
      modifies `used, `logged, `inodes, `dinodes, `owner
      ensures Quiet() && OthersKept(blocks, old(inodes), blocks, inodes, i)
      ensures inodes[i] == Inode(0, seq(NDIRECT + 1, _ => 0))
      ensures |used| == |old(used)|
      ensures forall b :: 0 <= b < |used| ==> used[b] == (old(used)[b] && !(b in old(owner) && old(owner)[b].i == i))
      ensures Carried(old(OnDisk()), OnDisk(), logged)
    {
      ghost var own0, ino0, use0, m0 := owner, inodes, used, OnDisk();
      AllKept(blocks, inodes, i);
      var n := 0;
      while n < NDIRECT
        invariant n <= NDIRECT && Valid() && Truncated(ino0, inodes, i, n) && dinodes == ino0
        invariant FreedBelow(own0, owner, use0, used, i, n) && Carried(m0, OnDisk(), logged)
      {
        if inodes[i].addrs[n] != 0 {
          var b := inodes[i].addrs[n];
          UnnameDirect(blocks, used, inodes, owner, first, i, n);
          FreedStep(blocks, inodes, own0, owner, use0, used, first, i, n);
          ghost var m1, l1 := OnDisk(), logged;
          Bfree(b);
          CarriedOn(m0, m1, l1, OnDisk(), logged);
          inodes := inodes[i := inodes[i].(addrs := inodes[i].addrs[n := 0])];
          owner := owner - {b};
        } else {
          FreedSkip(blocks, used, inodes, own0, owner, use0, used, first, i, n);
        }
        n := n + 1;
      }
      ghost var own1, m1, l1 := owner, OnDisk(), logged;
      TruncIndirect(i);
      CarriedOn(m0, m1, l1, OnDisk(), logged);
      forall b | 0 <= b < |used| ensures used[b] == (use0[b] && !(b in own0 && own0[b].i == i)) {
        if b in own0 && own0[b].i == i && !Below(own0, b, i, NDIRECT) {
          assert b in own1 && own1[b] == own0[b];
        }
      }
      assert inodes[i].addrs == seq(NDIRECT + 1, _ => 0);
      ResizeKeepsOwned(blocks, used, inodes, owner, first, i, 0);
      inodes := inodes[i := inodes[i].(size := 0)];
      m1, l1 := OnDisk(), logged;
      Iupdate(i);
      CarriedOn(m0, m1, l1, OnDisk(), logged);
      TruncOthers(blocks, ino0, inodes, i);
      Synced(blocks, ino0, blocks, inodes, i);
    }

    /** begin_op(); writei(); end_op() for one chunk. */
    method WriteChunk(i: nat, piece: seq<Byte>, off: nat) returns (w: int, ok: bool)
      requires Quiet() && i < |inodes| && |piece| <= MAXCHUNK && off < UINT
      modifies `blocks, `used, `logged, `inodes, `owner, `dinodes
      ensures !ok ==> DiskFull()
      ensures ok ==> Quiet() && OthersKept(old(blocks), old(inodes), blocks, inodes, i) && Fits(logged)
      ensures ok ==> w == if off > old(inodes)[i].size || off + |piece| > MAXFILE * BSIZE then -1 else |piece|
      ensures ok && w == -1 ==> blocks == old(blocks) && inodes == old(inodes)
      ensures ok && w != -1 ==> Content(blocks, inodes[i]) == Splice(Content(old(blocks), old(inodes)[i]), off, piece)
      ensures ok ==> Carried(old(OnDisk()), OnDisk(), logged)
    {
      logged := {};
      w, ok := Writei(i, piece, off);
      ChunkFits(off, |piece|);
    }

    /** filewrite, begun at contents b0, inodes i0 with c in file i, has written `done` bytes of src. */
    ghost predicate Writing(i: nat, src: seq<Byte>, foff: nat, done: nat, b0: seq<Block>, i0: seq<Inode>, c: seq<Byte>)
      reads this
    {
      && Quiet() && i < |inodes| && i < |i0| && OthersKept(b0, i0, blocks, inodes, i)
      && Landed(c, foff, src, done, Content(blocks, inodes[i])) && Accepting(i0[i].size, foff, |src|, done)
      && (done == 0 ==> inodes[i].size == i0[i].size)
    }

    /** One chunk of filewrite. */
    method FileRound(i: nat, src: seq<Byte>, foff: nat, done: nat, n1: nat, ghost b0: seq<Block>, ghost i0: seq<Inode>, ghost c: seq<Byte>,
                     ghost m0: Image, ghost txns: seq<set<nat>>)
      returns (w: int, ok: bool)
      requires Writing(i, src, foff, done, b0, i0, c) && done < |src| && foff + |src| < UINT
      requires n1 == if |src| - done > MAXCHUNK then MAXCHUNK else |src| - done
      requires Carried(m0, OnDisk(), AllOf(txns))
      modifies `blocks, `used, `logged, `inodes, `owner, `dinodes
      ensures !ok ==> DiskFull()
      ensures ok ==> Fits(logged) && (w == n1 || w == -1) && Writing(i, src, foff, if w == -1 then done else done + n1, b0, i0, c)
      ensures ok && w == -1 ==> Accepted(i0[i].size, foff, |src|) == done && !(foff <= i0[i].size && foff + |src| <= MAXFILE * BSIZE)
      ensures ok ==> Carried(m0, OnDisk(), AllOf(txns + [logged]))
    {
      w, ok := WriteChunk(i, src[done..done + n1], foff + done);
      if !ok { return; }
      CarriedOn(m0, old(OnDisk()), AllOf(txns), OnDisk(), logged);
      AllOfNext(txns, logged);
      OthersTrans(b0, i0, old(blocks), old(inodes), blocks, inodes, i);
      if w == -1 {
        StopsAt(i0[i].size, foff, |src|, done, n1);
      } else {
        LandedStep(c, foff, src, done, n1, Content(old(blocks), old(inodes)[i]), Content(blocks, inodes[i]));
        GoesOn(i0[i].size, foff, |src|, done, n1);
      }
    }

    /**
     filewrite on a regular file: write in chunks of at most MAXCHUNK bytes, one transaction each. `txns`
     lists what each transaction logged. `foff` is f->off before and `foff'` after.
     */
    method Filewrite(i: nat, src: seq<Byte>, foff: nat) returns (r: int, foff': nat, ok: bool, ghost txns: seq<set<nat>>)
      requires Quiet() && i < |inodes| && |src| < 0x8000_0000 && foff + |src| < UINT
      modifies `blocks, `used, `logged, `inodes, `owner, `dinodes
      ensures !ok ==> DiskFull()
      ensures forall t :: t in txns ==> Fits(t)
      ensures ok ==> foff' - foff <= |txns| * MAXCHUNK
      ensures ok ==> Quiet() && OthersKept(old(blocks), old(inodes), blocks, inodes, i)
      ensures ok ==> r == if |src| == 0 || (foff <= old(inodes)[i].size && foff + |src| <= MAXFILE * BSIZE) then |src| else -1
      ensures ok ==> foff' == foff + Accepted(old(inodes)[i].size, foff, |src|)
      ensures ok && foff' > foff ==> foff <= old(inodes)[i].size
      ensures ok && foff' > foff ==>
        Content(blocks, inodes[i]) == Splice(Content(old(blocks), old(inodes)[i]), foff, src[..foff' - foff])
      ensures ok && foff' == foff ==> Content(blocks, inodes[i]) == Content(old(blocks), old(inodes)[i])
      ensures ok ==> Carried(old(OnDisk()), OnDisk(), AllOf(txns))
    {
      var done := 0;
      ghost var b0, i0, c, m0 := blocks, inodes, Content(blocks, inodes[i]), OnDisk();
      foff', ok, txns := foff, true, [];
      AllKept(blocks, inodes, i);
      while done < |src|
        invariant done <= |src| && foff' == foff + done && Writing(i, src, foff, done, b0, i0, c)
        invariant (forall t :: t in txns ==> Fits(t)) && done <= |txns| * MAXCHUNK
        invariant Carried(m0, OnDisk(), AllOf(txns))
      {
        var n1 := if |src| - done > MAXCHUNK then MAXCHUNK else |src| - done;
        var w;
        w, ok := FileRound(i, src, foff, done, n1, b0, i0, c, m0, txns);
        if !ok { return -1, foff', false, txns; }
        txns := txns + [logged];
        if w < 0 { return -1, foff', true, txns; }
        foff', done := foff' + n1, done + n1;
      }
      r := |src|;
    }
  }

  /** filewrite has written `done` of n bytes: whole chunks so far, or all. */
  ghost predicate Accepting(size: nat, foff: nat, n: nat, done: nat) {
    (done == n || done % MAXCHUNK == 0) && (done > 0 ==> foff <= size && foff + done <= MAXFILE * BSIZE)
  }

  lemma GoesOn(size: nat, foff: nat, n: nat, done: nat, n1: nat)
    requires Accepting(size, foff, n, done) && done < n && n1 == (if n - done > MAXCHUNK then MAXCHUNK else n - done)
    requires foff + done + n1 <= MAXFILE * BSIZE && (done == 0 ==> foff <= size)
    ensures Accepting(size, foff, n, done + n1)
  {
    if n1 == MAXCHUNK { WholeChunks(done, MAXCHUNK); }
  }

  lemma WholeChunks(done: nat, d: nat)
    requires d > 0 && done % d == 0
    ensures (done + d) % d == 0
  {
    QuotientIs(done + d, d, done / d + 1, 0);
  }

  /** A chunk that does not fit is the first that does not. */
  lemma StopsAt(size: nat, foff: nat, n: nat, done: nat, n1: nat)
    requires Accepting(size, foff, n, done) && done < n && n1 == (if n - done > MAXCHUNK then MAXCHUNK else n - done)
    requires (done == 0 && foff > size) || foff + done + n1 > MAXFILE * BSIZE
    ensures Accepted(size, foff, n) == done
    ensures !(foff <= size && foff + n <= MAXFILE * BSIZE)
  {
    if foff <= size && foff <= MAXFILE * BSIZE { FloorIs(MAXFILE * BSIZE - foff, done); }
  }

  lemma FloorIs(m: nat, done: nat)
    requires done % MAXCHUNK == 0 && done <= m < done + MAXCHUNK
    ensures m / MAXCHUNK * MAXCHUNK == done
  {
    QuotientIs(m, MAXCHUNK, done / MAXCHUNK, m - done);
    QuotientIs(done, MAXCHUNK, done / MAXCHUNK, 0);
  }

  lemma QuotientIs(m: nat, d: nat, q: nat, rem: nat)
    requires d > 0 && m == q * d + rem && rem < d
    ensures m / d == q
  {
    var x := m / d;
    assert m == x * d + m % d;
    MulMono(x + 1, q, d);
    MulMono(q + 1, x, d);
  }

  lemma MulMono(a: nat, b: nat, d: nat)
    ensures a <= b ==> a * d <= b * d
  {
  }

  /** How much filewrite writes of n bytes: all, or the whole chunks that end within the largest file; nothing past the end. */
  function Accepted(size: nat, foff: nat, n: nat): (k: nat)
    ensures k <= n
  {
    if n == 0 || foff > size then 0
    else if foff + n <= MAXFILE * BSIZE then n
    else if foff > MAXFILE * BSIZE then 0
    else (MAXFILE * BSIZE - foff) / MAXCHUNK * MAXCHUNK
  }

  // ---- Reading and truncating ------------------------------------------------------------------

  lemma PieceRead(blocks: seq<Block>, ip: Inode, at: nat, k: nat)
    requires |ip.addrs| == NDIRECT + 1 && at / BSIZE < MAXFILE && BlockNo(blocks, ip, at / BSIZE) < |blocks|
    requires k <= BSIZE - at % BSIZE && at + k <= ip.size
    ensures blocks[BlockNo(blocks, ip, at / BSIZE)][at % BSIZE..at % BSIZE + k] == Content(blocks, ip)[at..at + k]
  {
    var n, o := at / BSIZE, at % BSIZE;
    var c, b := Content(blocks, ip)[at..at + k], blocks[BlockNo(blocks, ip, n)][o..o + k];
    forall j | 0 <= j < k ensures c[j] == b[j] {
      assert at == n * BSIZE + o;
      assert (at + j) / BSIZE == n && (at + j) % BSIZE == o + j;
    }
  }

  /** The first n block numbers of file i are cleared, nothing else. */
  ghost predicate Truncated(ino0: seq<Inode>, inodes: seq<Inode>, i: nat, n: nat) {
    && Shape(ino0) && Shape(inodes) && |inodes| == |ino0| && i < |ino0| && inodes[i].size == ino0[i].size
    && (forall j :: 0 <= j < |ino0| && j != i ==> inodes[j] == ino0[j])
    && (forall k :: 0 <= k <= NDIRECT ==> inodes[i].addrs[k] == if k < n then 0 else ino0[i].addrs[k])
  }

  ghost predicate Below(own: Owners, b: nat, i: nat, n: nat) {
    b in own && own[b].Data? && own[b].i == i && own[b].n < n
  }

  /** The blocks of slots Data(i, 0..n-1) are out of the map and out of use. */
  ghost predicate FreedBelow(own0: Owners, own: Owners, use0: seq<bool>, used: seq<bool>, i: nat, n: nat) {
    && own == (map b | b in own0 && !Below(own0, b, i, n) :: own0[b])
    && |used| == |use0| && forall b :: 0 <= b < |used| ==> used[b] == (use0[b] && !Below(own0, b, i, n))
  }

  lemma UnnameDirect(blocks: seq<Block>, used: seq<bool>, inodes: seq<Inode>, owner: Owners, first: nat, i: nat, n: nat)
    requires Owned(blocks, used, inodes, owner, first, {}) && i < |inodes| && n < NDIRECT && inodes[i].addrs[n] != 0
    ensures var b := inodes[i].addrs[n];
      && b < |used| && used[b] && b in owner && owner[b] == Data(i, n)
      && Owned(blocks, used[b := false], inodes[i := inodes[i].(addrs := inodes[i].addrs[n := 0])], owner - {b}, first, {})
  {
    var b := inodes[i].addrs[n];
    var inodes' := inodes[i := inodes[i].(addrs := inodes[i].addrs[n := 0])];
    assert Recorded(blocks, inodes, owner, Data(i, n));
    assert OwnedAt(blocks, inodes, owner, first, b);
    var owner' := owner - {b};
    forall t | SlotOk(inodes', t) ensures Recorded(blocks, inodes', owner', t) {
      assert Recorded(blocks, inodes, owner, t);
    }
    forall c | c in owner' ensures OwnedAt(blocks, inodes', owner', first, c) {
      assert OwnedAt(blocks, inodes, owner, first, c);
    }
  }

  lemma FreedStep(blocks: seq<Block>, inodes: seq<Inode>, own0: Owners, owner: Owners, use0: seq<bool>, used: seq<bool>,
                  first: nat, i: nat, n: nat)
    requires FreedBelow(own0, owner, use0, used, i, n) && i < |inodes| && n < NDIRECT
    requires Owned(blocks, used, inodes, owner, first, {}) && inodes[i].addrs[n] != 0
    ensures var b := inodes[i].addrs[n]; b < |used| && FreedBelow(own0, owner - {b}, use0, used[b := false], i, n + 1)
  {
    assert Recorded(blocks, inodes, owner, Data(i, n));
    assert OwnedAt(blocks, inodes, owner, first, inodes[i].addrs[n]);
    forall c ensures Below(own0, c, i, n + 1) <==> Below(own0, c, i, n) || c == inodes[i].addrs[n] {
      if c in own0 && own0[c] == Data(i, n) {
        assert OwnedAt(blocks, inodes, owner, first, c);
      }
    }
  }

  lemma FreedSkip(blocks: seq<Block>, used: seq<bool>, inodes: seq<Inode>, own0: Owners, owner: Owners, use0: seq<bool>, used': seq<bool>,
                  first: nat, i: nat, n: nat)
    requires used' == used && FreedBelow(own0, owner, use0, used, i, n) && i < |inodes| && n < NDIRECT
    requires Owned(blocks, used, inodes, owner, first, {}) && inodes[i].addrs[n] == 0
    ensures FreedBelow(own0, owner, use0, used, i, n + 1)
  {
    forall c ensures Below(own0, c, i, n + 1) <==> Below(own0, c, i, n) {
      if c in owner {
        assert OwnedAt(blocks, inodes, owner, first, c);
      }
    }
  }

  /** The blocks of file i's indirect part, from entry j on, with the indirect block itself. */
  ghost function IndPart(own: Owners, i: nat, j: nat): set<nat> {
    set b | b in own && own[b].i == i && (own[b].Ind? || own[b].n >= NDIRECT + j)
  }

  /** Clearing addrs[NDIRECT] un-names the indirect block and all its entries at once. */
  lemma UnnameIndirect(blocks: seq<Block>, used: seq<bool>, inodes: seq<Inode>, owner: Owners, first: nat, i: nat)
    requires Owned(blocks, used, inodes, owner, first, {}) && i < |inodes|
    ensures Owned(blocks, used, inodes[i := inodes[i].(addrs := inodes[i].addrs[NDIRECT := 0])],
                  owner - IndPart(owner, i, 0), first, IndPart(owner, i, 0))
  {
    var inodes' := inodes[i := inodes[i].(addrs := inodes[i].addrs[NDIRECT := 0])];
    var part := IndPart(owner, i, 0);
    var owner' := owner - part;
    forall t | SlotOk(inodes', t) ensures Recorded(blocks, inodes', owner', t) {
      assert SlotOk(inodes, t) && Recorded(blocks, inodes, owner, t);
    }
    forall c | c in owner' ensures OwnedAt(blocks, inodes', owner', first, c) {
      assert OwnedAt(blocks, inodes, owner, first, c);
    }
    forall c | c in part ensures first <= c < |blocks| {
      assert OwnedAt(blocks, inodes, owner, first, c);
    }
  }

  /** Entry j in turn: its block, if any, leaves the part still to be freed. */
  lemma EntryTurn(blocks: seq<Block>, used: seq<bool>, inodes: seq<Inode>, owner: Owners, first: nat, i: nat, j: nat)
    requires Owned(blocks, used, inodes, owner, first, {}) && i < |inodes| && j < NINDIRECT
    requires 0 < inodes[i].addrs[NDIRECT] < |blocks|
    ensures var e := EntryOf(blocks[inodes[i].addrs[NDIRECT]], j);
      && IndPart(owner, i, j + 1) == IndPart(owner, i, j) - (if e == 0 then {} else {e})
      && (e != 0 ==> e in IndPart(owner, i, j) && e < |blocks|)
  {
    var e := EntryOf(blocks[inodes[i].addrs[NDIRECT]], j);
    assert Recorded(blocks, inodes, owner, Data(i, NDIRECT + j));
    forall c | c in owner && owner[c] == Data(i, NDIRECT + j) ensures c == e != 0 {
      assert OwnedAt(blocks, inodes, owner, first, c);
    }
    if e != 0 { assert OwnedAt(blocks, inodes, owner, first, e); }
  }

  lemma LastOfPart(blocks: seq<Block>, used: seq<bool>, inodes: seq<Inode>, owner: Owners, first: nat, i: nat)
    requires Owned(blocks, used, inodes, owner, first, {}) && i < |inodes|
    ensures var a := inodes[i].addrs[NDIRECT];
      if a == 0 then IndPart(owner, i, 0) == {}
      else a < |blocks| && IndPart(owner, i, NINDIRECT) == {a} && a in owner && owner[a] == Ind(i)
  {
    var a := inodes[i].addrs[NDIRECT];
    assert Recorded(blocks, inodes, owner, Ind(i));
    if a != 0 { assert OwnedAt(blocks, inodes, owner, first, a); }
    forall c | c in owner && owner[c].i == i
      ensures owner[c].Ind? ==> c == a != 0
      ensures owner[c].Data? && owner[c].n >= NDIRECT ==> a != 0 && owner[c].n < MAXFILE
    {
      assert OwnedAt(blocks, inodes, owner, first, c);
    }
  }

  lemma TruncOthers(blocks: seq<Block>, ino0: seq<Inode>, inodes: seq<Inode>, i: nat)
    requires OthersKept(blocks, ino0, blocks, ino0, i) && Shape(inodes) && |inodes| == |ino0|
    requires forall j :: 0 <= j < |ino0| && j != i ==> inodes[j] == ino0[j]
    requires inodes[i].size == 0
    ensures OthersKept(blocks, ino0, blocks, inodes, i) && AllSolid(blocks, inodes)
  {
    forall j | 0 <= j < |ino0| && j != i ensures FileKept(blocks, ino0, blocks, inodes, j) {
      assert FileKept(blocks, ino0, blocks, ino0, j);
    }
    AllSolidAgain(blocks, ino0, blocks, inodes, i);
  }

  /** Every block that some transaction logs. */
  ghost function AllOf(txns: seq<set<nat>>): set<nat> {
    set t, b | t in txns && b in t :: b
  }

  lemma AllOfNext(txns: seq<set<nat>>, t: set<nat>)
    ensures AllOf(txns + [t]) == AllOf(txns) + t
  {
    forall b ensures b in AllOf(txns + [t]) <==> b in AllOf(txns) || b in t {
      assert forall u :: u in txns + [t] <==> u in txns || u == t;
    }
  }

  /** A transaction within one operation's reservation. */
  ghost predicate Fits(t: set<nat>) {
    |t| <= MAXOPBLOCKS
  }

  /** Every file but i is as it was. */
  ghost predicate OthersKept(b0: seq<Block>, i0: seq<Inode>, b: seq<Block>, inodes: seq<Inode>, i: nat) {
    && Shape(i0) && Shape(inodes) && |inodes| == |i0| && i < |i0|
    && forall j {:trigger FileKept(b0, i0, b, inodes, j)} :: 0 <= j < |i0| && j != i ==> FileKept(b0, i0, b, inodes, j)
  }

  ghost predicate FileKept(b0: seq<Block>, i0: seq<Inode>, b: seq<Block>, inodes: seq<Inode>, j: int)
    requires Shape(i0) && Shape(inodes) && 0 <= j < |i0| == |inodes|
  {
    inodes[j] == i0[j] && SolidAt(b, inodes, j) && Content(b, inodes[j]) == Content(b0, i0[j])
  }

  lemma AllKept(b: seq<Block>, inodes: seq<Inode>, i: nat)
    requires Shape(inodes) && AllSolid(b, inodes) && i < |inodes|
    ensures OthersKept(b, inodes, b, inodes, i) && SolidAt(b, inodes, i)
  {
    forall j | 0 <= j < |inodes| && j != i ensures FileKept(b, inodes, b, inodes, j) {
      assert SolidAt(b, inodes, j);
    }
  }

  lemma Synced(b0: seq<Block>, i0: seq<Inode>, b: seq<Block>, inodes: seq<Inode>, i: nat)
    requires OthersKept(b0, i0, b, inodes, i)
    ensures inodes == i0[i := inodes[i]]
  {
    forall j | 0 <= j < |i0| && j != i ensures inodes[j] == i0[j] {
      assert FileKept(b0, i0, b, inodes, j);
    }
  }

  lemma AllSolidAgain(b0: seq<Block>, i0: seq<Inode>, b: seq<Block>, inodes: seq<Inode>, i: nat)
    requires OthersKept(b0, i0, b, inodes, i) && Solid(b, inodes[i])
    ensures AllSolid(b, inodes)
  {
    forall j | 0 <= j < |inodes| ensures SolidAt(b, inodes, j) {
      if j != i { assert FileKept(b0, i0, b, inodes, j); }
    }
  }

  lemma ResizeKept(b0: seq<Block>, i0: seq<Inode>, b: seq<Block>, inodes: seq<Inode>, i: nat, size: nat)
    requires OthersKept(b0, i0, b, inodes, i)
    ensures OthersKept(b0, i0, b, inodes[i := inodes[i].(size := size)], i)
  {
    var inodes' := inodes[i := inodes[i].(size := size)];
    forall j | 0 <= j < |i0| && j != i ensures FileKept(b0, i0, b, inodes', j) {
      assert FileKept(b0, i0, b, inodes, j);
    }
  }

  lemma ResizeKeepsOwned(blocks: seq<Block>, used: seq<bool>, inodes: seq<Inode>, owner: Owners, first: nat, i: nat, size: nat)
    requires Owned(blocks, used, inodes, owner, first, {}) && i < |inodes|
    ensures Owned(blocks, used, inodes[i := inodes[i].(size := size)], owner, first, {})
  {
    var inodes' := inodes[i := inodes[i].(size := size)];
    forall t | SlotOk(inodes', t) ensures Recorded(blocks, inodes', owner, t) {
      assert Recorded(blocks, inodes, owner, t);
    }
    forall c | c in owner ensures OwnedAt(blocks, inodes', owner, first, c) {
      assert OwnedAt(blocks, inodes, owner, first, c);
    }
  }

  /** The write has reached its end: the content is the splice, without holes. */
  lemma Spliced(b0: seq<Block>, ip0: Inode, b: seq<Block>, ip: Inode, off: nat, src: seq<Byte>)
    requires |ip0.addrs| == NDIRECT + 1 == |ip.addrs| && off <= ip0.size && off + |src| <= MAXFILE * BSIZE && ip0.size <= MAXFILE * BSIZE
    requires ip.size == (if |src| > 0 then Max(ip0.size, off + |src|) else ip0.size)
    requires Progress(b0, ip0, b, ip.(size := ip0.size), off, src, |src|)
    ensures Content(b, ip) == Splice(Content(b0, ip0), off, src) && Solid(b, ip)
  {
    var mid := ip.(size := ip0.size);
    var c, s := Content(b, ip), Splice(Content(b0, ip0), off, src);
    assert |c| == |s|;
    forall k: nat | k < |c| ensures c[k] == s[k] {
      assert ByteDone(b0, ip0, b, mid, off, src, |src|, k);
      assert ByteAt(b, ip, k) == ByteAt(b, mid, k);
    }
    forall n: nat | n < MAXFILE && n * BSIZE < ip.size ensures BlockNo(b, ip, n) != 0 {
      assert ByteDone(b0, ip0, b, mid, off, src, |src|, n * BSIZE);
      assert n * BSIZE / BSIZE == n && BlockNo(b, ip, n) == BlockNo(b, mid, n);
    }
  }

  lemma OthersTrans(b0: seq<Block>, i0: seq<Inode>, b1: seq<Block>, i1: seq<Inode>, b2: seq<Block>, i2: seq<Inode>, i: nat)
    requires OthersKept(b0, i0, b1, i1, i) && OthersKept(b1, i1, b2, i2, i)
    ensures OthersKept(b0, i0, b2, i2, i)
  {
    forall j | 0 <= j < |i0| && j != i ensures FileKept(b0, i0, b2, i2, j) {
      assert FileKept(b0, i0, b1, i1, j) && FileKept(b1, i1, b2, i2, j);
    }
  }

  /** The first `done` bytes of src have been written at off. */
  ghost predicate Landed(c: seq<Byte>, off: nat, src: seq<Byte>, done: nat, now: seq<Byte>) {
    && done <= |src|
    && if done == 0 then now == c else off <= |c| && off + done <= |now| && now == Splice(c, off, src[..done])
  }

  lemma LandedStep(c: seq<Byte>, off: nat, src: seq<Byte>, done: nat, n: nat, now: seq<Byte>, next: seq<Byte>)
    requires Landed(c, off, src, done, now) && 0 < n && done + n <= |src| && off + done <= |now|
    requires next == Splice(now, off + done, src[done..done + n])
    ensures Landed(c, off, src, done + n, next)
  {
    if done > 0 { SpliceTwice(c, off, src, done, n); }
  }

  /** Two writes one after the other are one. */
  lemma SpliceTwice(c: seq<Byte>, off: nat, src: seq<Byte>, done: nat, n: nat)
    requires off <= |c| && done + n <= |src|
    ensures off + done <= |Splice(c, off, src[..done])|
    ensures Splice(Splice(c, off, src[..done]), off + done, src[done..done + n]) == Splice(c, off, src[..done + n])
  {
    var x, y := Splice(Splice(c, off, src[..done]), off + done, src[done..done + n]), Splice(c, off, src[..done + n]);
    forall k | 0 <= k < |x| ensures x[k] == y[k] {
    }
  }

  lemma OthersStep(b0: seq<Block>, i0: seq<Inode>, b1: seq<Block>, i1: seq<Inode>, b2: seq<Block>, i2: seq<Inode>, i: nat, n: nat)
    requires OthersKept(b0, i0, b1, i1, i) && KeepsBut(b1, i1, b2, i2, Data(i, n))
    requires forall j :: 0 <= j < |i1| && j != i ==> i2[j] == i1[j]
    ensures OthersKept(b0, i0, b2, i2, i)
  {
    forall j | 0 <= j < |i0| && j != i ensures FileKept(b0, i0, b2, i2, j) {
      assert FileKept(b0, i0, b1, i1, j);
      KeepsFile(b1, i1, b2, i2, Data(i, n), j);
    }
  }

  // ---- Counting the blocks a write logs ------------------------------------------------------

  /**
   The blocks logged so far, the indirect block once; whether it and its bitmap block are among them;
   and how many rounds and holes there were.
   */
  datatype Ledger = Ledger(list: seq<nat>, ind: bool, indMap: bool, rounds: nat, holes: nat)

  ghost function Enter(led: Ledger, addr: nat, map_: nat, hole: bool, ind: nat, indMap: nat, direct: bool, newInd: bool): Ledger {
    Ledger(led.list + [addr] + (if hole then [map_] else [])
             + (if hole && !direct && !led.ind then [ind] else []) + (if hole && newInd then [indMap] else []),
           led.ind || (hole && !direct), led.indMap || newInd,
           led.rounds + 1, if hole then led.holes + 1 else led.holes)
  }

  ghost function Noted(led: Ledger): set<nat> {
    Elems(led.list)
  }

  /** Where the write stands at `tot`: rounds so far, and a hole in each of them but an unaligned first. */
  ghost predicate LedgerOk(led: Ledger, ip: Inode, off: nat, tot: nat, n: nat)
    requires |ip.addrs| == NDIRECT + 1
  {
    && |led.list| <= led.rounds + led.holes + (if led.ind then 1 else 0) + (if led.indMap then 1 else 0)
    && led.holes + (if led.rounds > 0 && off % BSIZE != 0 then 1 else 0) <= led.rounds
    && (led.rounds == 0 <==> tot == 0) && led.rounds <= Chunks(off, tot)
    && (0 < tot < n ==> (off + tot) % BSIZE == 0)
    && (led.ind ==> ip.addrs[NDIRECT] != 0 && ip.addrs[NDIRECT] in led.list)
    && (led.indMap ==> ip.addrs[NDIRECT] != 0)
  }

  lemma LedgerStep(led: Ledger, ip1: Inode, ip2: Inode, off: nat, tot: nat, m: nat, n: nat,
                   addr: nat, map_: nat, hole: bool, indMap: nat, direct: bool, newInd: bool)
    requires |ip1.addrs| == NDIRECT + 1 == |ip2.addrs| && LedgerOk(led, ip1, off, tot, n) && tot < n
    requires m == if n - tot < BSIZE - (off + tot) % BSIZE then n - tot else BSIZE - (off + tot) % BSIZE
    requires ip2.addrs[NDIRECT] == ip1.addrs[NDIRECT] || newInd
    requires newInd ==> ip1.addrs[NDIRECT] == 0 != ip2.addrs[NDIRECT]
    requires hole && !direct ==> ip2.addrs[NDIRECT] != 0
    requires !hole ==> !newInd
    requires hole ==> (off + tot) % BSIZE == 0
    ensures LedgerOk(Enter(led, addr, map_, hole, ip2.addrs[NDIRECT], indMap, direct, newInd), ip2, off, tot + m, n)
  {
    RoundCount(off, tot, m);
  }

  lemma RoundCount(off: nat, tot: nat, m: nat)
    requires 0 < m <= BSIZE - (off + tot) % BSIZE && (tot > 0 ==> (off + tot) % BSIZE == 0)
    ensures Chunks(off, tot + m) == Chunks(off, tot) + 1
  {
  }

  lemma SizeOfLedger(led: Ledger, ip: Inode, off: nat, n: nat)
    requires |ip.addrs| == NDIRECT + 1 && LedgerOk(led, ip, off, n, n)
    ensures |Noted(led)| <= LogBound(off, n) - 1
  {
    ElemsSize(led.list);
  }

  // ---- How far a write has come ---------------------------------------------------------------

  /** The bytes of the file with the first tot bytes of src written at off, all below the larger end present. */
  ghost predicate Progress(blocks0: seq<Block>, ip0: Inode, blocks: seq<Block>, ip: Inode, off: nat, src: seq<Byte>, tot: nat)
    requires |ip0.addrs| == NDIRECT + 1 == |ip.addrs| && tot <= |src|
  {
    && ip.size == ip0.size
    && forall k: nat {:trigger ByteDone(blocks0, ip0, blocks, ip, off, src, tot, k)} :: k < Max(ip0.size, off + tot) ==> ByteDone(blocks0, ip0, blocks, ip, off, src, tot, k)
  }

  ghost predicate ByteDone(blocks0: seq<Block>, ip0: Inode, blocks: seq<Block>, ip: Inode, off: nat, src: seq<Byte>, tot: nat, k: nat)
    requires |ip0.addrs| == NDIRECT + 1 == |ip.addrs| && tot <= |src|
  {
    && k / BSIZE < MAXFILE && BlockNo(blocks, ip, k / BSIZE) != 0
    && ByteAt(blocks, ip, k) == if off <= k < off + tot then src[k - off] else ByteAt(blocks0, ip0, k)
  }

  lemma ProgressStart(blocks: seq<Block>, used: seq<bool>, inodes: seq<Inode>, owner: Owners, first: nat, i: nat, off: nat, src: seq<Byte>)
    requires Owned(blocks, used, inodes, owner, first, {}) && i < |inodes| && Solid(blocks, inodes[i]) && off <= inodes[i].size
    ensures Progress(blocks, inodes[i], blocks, inodes[i], off, src, 0)
  {
    var ip := inodes[i];
    forall k: nat | k < Max(ip.size, off) ensures ByteDone(blocks, ip, blocks, ip, off, src, 0, k) {
      assert k / BSIZE * BSIZE <= k;
      assert BlockNo(blocks, ip, k / BSIZE) != 0;
    }
  }

  lemma ProgressStep(b0: seq<Block>, ip0: Inode, b1: seq<Block>, i1: seq<Inode>, b2: seq<Block>, i2: seq<Inode>, i: nat,
                     off: nat, src: seq<Byte>, tot: nat, m: nat)
    requires i < |i1| && KeepsBut(b1, i1, b2, i2, Data(i, (off + tot) / BSIZE)) && |ip0.addrs| == NDIRECT + 1
    requires tot + m <= |src| && off <= ip0.size && Progress(b0, ip0, b1, i1[i], off, src, tot)
    requires (off + tot) / BSIZE < MAXFILE && 0 < m <= BSIZE - (off + tot) % BSIZE
    requires PieceWritten(b1, i1[i], b2, i2[i], off + tot, src[tot..tot + m])
    ensures Progress(b0, ip0, b2, i2[i], off, src, tot + m)
  {
    var at, tot', ip2 := off + tot, tot + m, i2[i];
    forall k: nat | k < Max(ip0.size, at + m) ensures ByteDone(b0, ip0, b2, ip2, off, src, tot', k) {
      if k / BSIZE == at / BSIZE {
        if k < Max(ip0.size, at) {
          assert ByteDone(b0, ip0, b1, i1[i], off, src, tot, k);
        }
      } else {
        assert k < Max(ip0.size, at);
        assert ByteDone(b0, ip0, b1, i1[i], off, src, tot, k);
        KeepsBytes(b1, i1, b2, i2, Data(i, at / BSIZE), i, k);
      }
    }
  }

  /** A round meets a hole only at the start of a block at or beyond the end of the file. */
  lemma HolePlace(b0: seq<Block>, ip0: Inode, b1: seq<Block>, ip1: Inode, off: nat, src: seq<Byte>, tot: nat)
    requires |ip0.addrs| == NDIRECT + 1 == |ip1.addrs| && tot <= |src| && Progress(b0, ip0, b1, ip1, off, src, tot)
    requires (off + tot) / BSIZE < MAXFILE
    ensures BlockNo(b1, ip1, (off + tot) / BSIZE) == 0 ==> (off + tot) % BSIZE == 0 && off + tot >= ip0.size
  {
    var at := off + tot;
    var k := at / BSIZE * BSIZE;
    assert k / BSIZE == at / BSIZE;
    if k < Max(ip0.size, at) {
      assert ByteDone(b0, ip0, b1, ip1, off, src, tot, k);
    }
  }

  /** Block at/BSIZE of the file is there and has `piece` at its place; its other bytes are the old ones, or zero if it is new. */
  ghost predicate PieceWritten(blocks0: seq<Block>, ip0: Inode, blocks: seq<Block>, ip: Inode, at: nat, piece: seq<Byte>)
    requires |ip0.addrs| == NDIRECT + 1 == |ip.addrs| && at / BSIZE < MAXFILE
  {
    var n := at / BSIZE;
    && ip.size == ip0.size && 0 < BlockNo(blocks, ip, n) < |blocks|
    && forall k: nat :: k / BSIZE == n ==>
         ByteAt(blocks, ip, k) == if at <= k < at + |piece| then piece[k - at]
                                  else if BlockNo(blocks0, ip0, n) == 0 then 0 else ByteAt(blocks0, ip0, k)
  }
}
