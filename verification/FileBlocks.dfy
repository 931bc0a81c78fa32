/**
 Which disk block belongs to which part of which file (fs.c): the bitmap, the direct block
 numbers in the inodes, and the indirect blocks, read as little-endian 32-bit numbers.
 */
module FileBlocks {
  import opened Params

  type Byte = b: nat | b < 256
  type Block = s: seq<Byte> | |s| == BSIZE witness seq(BSIZE, _ => 0)

  /** The fields of struct inode that describe content: size, and the NDIRECT + 1 block numbers. */
  datatype Inode = Inode(size: nat, addrs: seq<nat>)

  /** A place that can name a block: the nth block of file i, or its indirect block. */
  datatype Slot = Data(i: nat, n: nat) | Ind(i: nat)

  type Owners = map<nat, Slot>

  function Zeroed(): Block {
    seq(BSIZE, _ => 0)
  }

  // ---- The indirect block as an array of uint --------------------------------------------

  function EntryOf(b: Block, j: nat): nat
    requires j < NINDIRECT
  {
    var b0: nat, b1: nat, b2: nat, b3: nat := b[4 * j], b[4 * j + 1], b[4 * j + 2], b[4 * j + 3];
    b0 + 0x100 * b1 + 0x1_0000 * b2 + 0x100_0000 * b3
  }

  function Low(v: nat): Byte {
    v % 0x100
  }

  /** a[j] = v */
  function SetEntry(b: Block, j: nat, v: nat): (r: Block)
    requires j < NINDIRECT && v < 0x1_0000_0000
  {
    b[4 * j := Low(v)][4 * j + 1 := Low(v / 0x100)]
     [4 * j + 2 := Low(v / 0x1_0000)][4 * j + 3 := Low(v / 0x100_0000)]
  }

  lemma SetEntryGets(b: Block, j: nat, v: nat, k: nat)
    requires j < NINDIRECT && k < NINDIRECT && v < 0x1_0000_0000
    ensures EntryOf(SetEntry(b, j, v), k) == if k == j then v else EntryOf(b, k)
  {
    if k == j { Digits(v); } else { OtherEntry(b, j, v, k); }
  }

  lemma Digits(v: nat)
    requires v < 0x1_0000_0000
    ensures v == v % 0x100 + 0x100 * (v / 0x100 % 0x100) + 0x1_0000 * (v / 0x1_0000 % 0x100)
                 + 0x100_0000 * (v / 0x100_0000 % 0x100)
  {
    var a := v / 0x100;
    var b := v / 0x1_0000;
    var c := v / 0x100_0000;
    assert b == a / 0x100 && c == b / 0x100 && c % 0x100 == c;
  }

  lemma OtherEntry(b: Block, j: nat, v: nat, k: nat)
    requires j < NINDIRECT && k < NINDIRECT && v < 0x1_0000_0000 && k != j
    ensures EntryOf(SetEntry(b, j, v), k) == EntryOf(b, k)
  {
    var r := SetEntry(b, j, v);
    assert r[4 * k] == b[4 * k] && r[4 * k + 1] == b[4 * k + 1];
    assert r[4 * k + 2] == b[4 * k + 2] && r[4 * k + 3] == b[4 * k + 3];
  }

  lemma ZeroedHasNoEntries(k: nat)
    requires k < NINDIRECT
    ensures EntryOf(Zeroed(), k) == 0
  {
  }

  // ---- Who names which block ---------------------------------------------------------------

  /** bmap without allocation: the number of the nth block of an inode, 0 if there is none. */
  function BlockNo(blocks: seq<Block>, ip: Inode, n: nat): nat
    requires |ip.addrs| == NDIRECT + 1 && n < MAXFILE
  {
    if n < NDIRECT then ip.addrs[n]
    else if ip.addrs[NDIRECT] == 0 || ip.addrs[NDIRECT] >= |blocks| then 0
    else EntryOf(blocks[ip.addrs[NDIRECT]], n - NDIRECT)
  }

  predicate SlotOk(inodes: seq<Inode>, s: Slot) {
    s.i < |inodes| && |inodes[s.i].addrs| == NDIRECT + 1 && (s.Data? ==> s.n < MAXFILE)
  }

  function Ref(blocks: seq<Block>, inodes: seq<Inode>, s: Slot): nat
    requires SlotOk(inodes, s)
  {
    if s.Data? then BlockNo(blocks, inodes[s.i], s.n) else inodes[s.i].addrs[NDIRECT]
  }

  ghost predicate Shape(inodes: seq<Inode>) {
    forall i :: 0 <= i < |inodes| ==> |inodes[i].addrs| == NDIRECT + 1
  }

  /** What slot s names is recorded as its own. */
  ghost predicate Recorded(blocks: seq<Block>, inodes: seq<Inode>, owner: Owners, s: Slot)
    requires SlotOk(inodes, s)
  {
    var b := Ref(blocks, inodes, s);
    b != 0 ==> b in owner && owner[b] == s
  }

  ghost predicate OwnedAt(blocks: seq<Block>, inodes: seq<Inode>, owner: Owners, first: nat, b: nat)
    requires b in owner
  {
    && first <= b < |blocks| && SlotOk(inodes, owner[b]) && Ref(blocks, inodes, owner[b]) == b
  }

  /**
   Every slot's block is its alone: `owner` inverts the naming. `pend` holds blocks taken from the
   bitmap that no slot names yet.
   */
  ghost predicate Owned(blocks: seq<Block>, used: seq<bool>, inodes: seq<Inode>, owner: Owners, first: nat, pend: set<nat>) {
    && Shape(inodes) && |used| == |blocks| && 0 < first <= |blocks| <= 0x1_0000_0000
    && (forall b :: 0 <= b < first ==> used[b])
    && (forall s {:trigger Recorded(blocks, inodes, owner, s)} :: SlotOk(inodes, s) ==> Recorded(blocks, inodes, owner, s))
    && (forall b {:trigger OwnedAt(blocks, inodes, owner, first, b)} :: b in owner ==> OwnedAt(blocks, inodes, owner, first, b))
    && (forall b :: first <= b < |used| ==> (used[b] <==> b in owner || b in pend))
    && (forall b :: b in pend ==> first <= b < |blocks| && b !in owner)
  }

  /** A bitmap bit outside the metadata is set exactly if some slot names the block, and then only one does. */
  lemma BitIffNamed(blocks: seq<Block>, used: seq<bool>, inodes: seq<Inode>, owner: Owners, first: nat, b: nat)
    requires Owned(blocks, used, inodes, owner, first, {}) && first <= b < |blocks|
    ensures used[b] <==> exists s :: SlotOk(inodes, s) && Ref(blocks, inodes, s) == b
    ensures forall s, t :: (SlotOk(inodes, s) && Ref(blocks, inodes, s) == b
      && SlotOk(inodes, t) && Ref(blocks, inodes, t) == b) ==> s == t
  {
    if used[b] {
      assert OwnedAt(blocks, inodes, owner, first, b);
    }
    forall s | SlotOk(inodes, s) && Ref(blocks, inodes, s) == b ensures b in owner && owner[b] == s {
      assert Recorded(blocks, inodes, owner, s);
    }
  }

  /** The only way a block number of a data slot can change is through its inode or its indirect block. */
  lemma RefSame(blocks: seq<Block>, blocks': seq<Block>, inodes: seq<Inode>, inodes': seq<Inode>, s: Slot)
    requires SlotOk(inodes, s) && SlotOk(inodes', s) && |blocks'| == |blocks|
    requires inodes'[s.i].addrs == inodes[s.i].addrs
    requires inodes[s.i].addrs[NDIRECT] < |blocks| ==>
      blocks'[inodes[s.i].addrs[NDIRECT]] == blocks[inodes[s.i].addrs[NDIRECT]]
    ensures Ref(blocks', inodes', s) == Ref(blocks, inodes, s)
  {
  }

  // ---- Changes that keep ownership -----------------------------------------------------------

  /** balloc: bit b set, block b zeroed, b not yet named. */
  lemma TakeKeepsOwned(blocks: seq<Block>, used: seq<bool>, inodes: seq<Inode>, owner: Owners, first: nat, b: nat)
    requires Owned(blocks, used, inodes, owner, first, {}) && b < |used| && !used[b]
    ensures first <= b && b !in owner
    ensures Owned(blocks[b := Zeroed()], used[b := true], inodes, owner, first, {b})
    ensures forall s :: SlotOk(inodes, s) ==> Ref(blocks[b := Zeroed()], inodes, s) == Ref(blocks, inodes, s) != b
  {
    var blocks' := blocks[b := Zeroed()];
    forall s | SlotOk(inodes, s)
      ensures Ref(blocks', inodes, s) == Ref(blocks, inodes, s) != b && Recorded(blocks', inodes, owner, s)
    {
      assert Recorded(blocks, inodes, owner, s);
      var t := Ind(s.i);
      assert SlotOk(inodes, t) && Recorded(blocks, inodes, owner, t);
      RefSame(blocks, blocks', inodes, inodes, s);
    }
    forall c | c in owner ensures OwnedAt(blocks', inodes, owner, first, c) {
      assert OwnedAt(blocks, inodes, owner, first, c);
    }
  }

  /** ip->addrs[n] = b, for a direct slot or for the (zeroed) indirect block. */
  lemma NameKeepsOwned(blocks: seq<Block>, used: seq<bool>, inodes: seq<Inode>, owner: Owners, first: nat, i: nat, n: nat, b: nat)
    requires Owned(blocks, used, inodes, owner, first, {b}) && i < |inodes| && n <= NDIRECT
    requires inodes[i].addrs[n] == 0 && (n == NDIRECT ==> blocks[b] == Zeroed())
    ensures var s := if n < NDIRECT then Data(i, n) else Ind(i);
      var inodes' := inodes[i := inodes[i].(addrs := inodes[i].addrs[n := b])];
      && Owned(blocks, used, inodes', owner[b := s], first, {})
      && forall t :: SlotOk(inodes, t) && t != s ==> SlotOk(inodes', t) && Ref(blocks, inodes', t) == Ref(blocks, inodes, t)
  {
    var s := if n < NDIRECT then Data(i, n) else Ind(i);
    var inodes' := inodes[i := inodes[i].(addrs := inodes[i].addrs[n := b])];
    var owner' := owner[b := s];
    forall t | SlotOk(inodes, t) && t != s ensures Ref(blocks, inodes', t) == Ref(blocks, inodes, t) {
      if n == NDIRECT && t.Data? && t.i == i && t.n >= NDIRECT {
        ZeroedHasNoEntries(t.n - NDIRECT);
      }
    }
    forall t | SlotOk(inodes', t) ensures Recorded(blocks, inodes', owner', t) {
      assert SlotOk(inodes, t) && Recorded(blocks, inodes, owner, t);
    }
    forall c | c in owner' ensures OwnedAt(blocks, inodes', owner', first, c) {
      if c != b {
        assert OwnedAt(blocks, inodes, owner, first, c);
        assert owner[c] != s;
      }
    }
  }

  /** a[j] = b in the indirect block of file i. */
  lemma EnterKeepsOwned(blocks: seq<Block>, used: seq<bool>, inodes: seq<Inode>, owner: Owners, first: nat, i: nat, j: nat, b: nat)
    requires Owned(blocks, used, inodes, owner, first, {b}) && i < |inodes| && j < NINDIRECT
    requires var a := inodes[i].addrs[NDIRECT]; 0 < a < |blocks| && EntryOf(blocks[a], j) == 0
    ensures var a := inodes[i].addrs[NDIRECT];
      var blocks' := blocks[a := SetEntry(blocks[a], j, b)];
      && Owned(blocks', used, inodes, owner[b := Data(i, NDIRECT + j)], first, {})
      && a in owner && owner[a] == Ind(i)
      && BlockNo(blocks', inodes[i], NDIRECT + j) == b
      && forall t :: SlotOk(inodes, t) && t != Data(i, NDIRECT + j) ==> Ref(blocks', inodes, t) == Ref(blocks, inodes, t)
  {
    var a := inodes[i].addrs[NDIRECT];
    var blocks' := blocks[a := SetEntry(blocks[a], j, b)];
    var s, owner' := Data(i, NDIRECT + j), owner[b := Data(i, NDIRECT + j)];
    assert SlotOk(inodes, Ind(i)) && Recorded(blocks, inodes, owner, Ind(i));
    assert b !in owner;
    SetEntryGets(blocks[a], j, b, j);
    forall t | SlotOk(inodes, t) && t != s ensures Ref(blocks', inodes, t) == Ref(blocks, inodes, t) {
      assert SlotOk(inodes, Ind(t.i)) && Recorded(blocks, inodes, owner, Ind(t.i));
      if t.i == i && t.Data? && t.n >= NDIRECT {
        SetEntryGets(blocks[a], j, b, t.n - NDIRECT);
      } else {
        if t.i != i { assert inodes[t.i].addrs[NDIRECT] != a; }
        if t.Data? && t.n >= NDIRECT { RefSame(blocks, blocks', inodes, inodes, t); }
      }
    }
    forall t | SlotOk(inodes, t) ensures Recorded(blocks', inodes, owner', t) {
      assert Recorded(blocks, inodes, owner, t);
    }
    forall c | c in owner' ensures OwnedAt(blocks', inodes, owner', first, c) {
      if c != b {
        assert OwnedAt(blocks, inodes, owner, first, c);
        assert owner[c] != s;
      }
    }
  }

  /** Overwriting a data block. */
  lemma WriteKeepsOwned(blocks: seq<Block>, used: seq<bool>, inodes: seq<Inode>, owner: Owners, first: nat, s: Slot, v: Block)
    requires Owned(blocks, used, inodes, owner, first, {}) && SlotOk(inodes, s) && s.Data? && Ref(blocks, inodes, s) != 0
    ensures Ref(blocks, inodes, s) < |blocks|
    ensures var blocks' := blocks[Ref(blocks, inodes, s) := v];
      && Owned(blocks', used, inodes, owner, first, {})
      && forall t :: SlotOk(inodes, t) ==> Ref(blocks', inodes, t) == Ref(blocks, inodes, t)
  {
    var b := Ref(blocks, inodes, s);
    assert Recorded(blocks, inodes, owner, s);
    assert OwnedAt(blocks, inodes, owner, first, b);
    var blocks' := blocks[b := v];
    forall t | SlotOk(inodes, t) ensures Ref(blocks', inodes, t) == Ref(blocks, inodes, t) {
      assert SlotOk(inodes, Ind(t.i)) && Recorded(blocks, inodes, owner, Ind(t.i));
      RefSame(blocks, blocks', inodes, inodes, t);
    }
    forall t | SlotOk(inodes, t) ensures Recorded(blocks', inodes, owner, t) {
      assert Recorded(blocks, inodes, owner, t);
    }
    forall c | c in owner ensures OwnedAt(blocks', inodes, owner, first, c) {
      assert OwnedAt(blocks, inodes, owner, first, c);
    }
  }

  /** bfree of a block that no slot names any more. */
  lemma ReleaseKeepsOwned(blocks: seq<Block>, used: seq<bool>, inodes: seq<Inode>, owner: Owners, first: nat, pend: set<nat>, b: nat)
    requires Owned(blocks, used, inodes, owner, first, pend) && b in pend
    ensures first <= b < |used| && used[b]
    ensures Owned(blocks, used[b := false], inodes, owner, first, pend - {b})
  {
    forall s | SlotOk(inodes, s) ensures Recorded(blocks, inodes, owner, s) {
      assert Recorded(blocks, inodes, owner, s);
    }
  }

  // ---- Contents ------------------------------------------------------------------------------

  /** Every block below byte number `bytes` of an inode is there. */
  ghost predicate NamedBelow(blocks: seq<Block>, ip: Inode, bytes: nat)
    requires |ip.addrs| == NDIRECT + 1
  {
    forall n: nat {:trigger BlockNo(blocks, ip, n)} :: n < MAXFILE && n * BSIZE < bytes ==> BlockNo(blocks, ip, n) != 0
  }

  /** Byte k of an inode's content. */
  function ByteAt(blocks: seq<Block>, ip: Inode, k: nat): Byte
    requires |ip.addrs| == NDIRECT + 1
  {
    var n := k / BSIZE;
    if n < MAXFILE && BlockNo(blocks, ip, n) < |blocks| then blocks[BlockNo(blocks, ip, n)][k % BSIZE] else 0
  }

  function Content(blocks: seq<Block>, ip: Inode): (c: seq<Byte>)
    requires |ip.addrs| == NDIRECT + 1
    ensures |c| == ip.size
  {
    seq(ip.size, k requires 0 <= k < ip.size => ByteAt(blocks, ip, k))
  }

  /** A file has no holes below its size and fits the largest file. */
  ghost predicate Solid(blocks: seq<Block>, ip: Inode)
    requires |ip.addrs| == NDIRECT + 1
  {
    ip.size <= MAXFILE * BSIZE && NamedBelow(blocks, ip, ip.size)
  }

  ghost predicate SolidAt(blocks: seq<Block>, inodes: seq<Inode>, i: int)
    requires 0 <= i < |inodes| && Shape(inodes)
  {
    Solid(blocks, inodes[i])
  }

  ghost predicate AllSolid(blocks: seq<Block>, inodes: seq<Inode>)
    requires Shape(inodes)
  {
    forall i {:trigger SolidAt(blocks, inodes, i)} :: 0 <= i < |inodes| ==> SolidAt(blocks, inodes, i)
  }

  /** Slot t names the same block with the same bytes in both states. */
  ghost predicate SameSlot(blocks: seq<Block>, inodes: seq<Inode>, blocks': seq<Block>, inodes': seq<Inode>, t: Slot)
    requires SlotOk(inodes, t)
  {
    var b := Ref(blocks, inodes, t);
    SlotOk(inodes', t) && Ref(blocks', inodes', t) == b
    && (t.Data? ==> b < |blocks| == |blocks'| && blocks'[b] == blocks[b])
  }

  /** All that was there is still there (except perhaps in slot s); sizes are unchanged. */
  ghost predicate KeepsBut(blocks: seq<Block>, inodes: seq<Inode>, blocks': seq<Block>, inodes': seq<Inode>, s: Slot) {
    && Shape(inodes) && Shape(inodes') && |inodes'| == |inodes| && |blocks'| == |blocks|
    && (forall i :: 0 <= i < |inodes| ==> inodes'[i].size == inodes[i].size)
    && (forall t {:trigger SameSlot(blocks, inodes, blocks', inodes', t)} ::
          SlotOk(inodes, t) && t != s && Ref(blocks, inodes, t) != 0 ==> SameSlot(blocks, inodes, blocks', inodes', t))
  }

  lemma KeepsBytes(blocks: seq<Block>, inodes: seq<Inode>, blocks': seq<Block>, inodes': seq<Inode>, s: Slot, i: nat, k: nat)
    requires KeepsBut(blocks, inodes, blocks', inodes', s) && i < |inodes| && k / BSIZE < MAXFILE
    requires s != Data(i, k / BSIZE) && BlockNo(blocks, inodes[i], k / BSIZE) != 0
    ensures BlockNo(blocks', inodes'[i], k / BSIZE) != 0
    ensures ByteAt(blocks', inodes'[i], k) == ByteAt(blocks, inodes[i], k)
  {
    assert SlotOk(inodes, Data(i, k / BSIZE));
    assert SameSlot(blocks, inodes, blocks', inodes', Data(i, k / BSIZE));
  }

  /** A file that slot s is not part of keeps its content and its solidity. */
  lemma KeepsFile(blocks: seq<Block>, inodes: seq<Inode>, blocks': seq<Block>, inodes': seq<Inode>, s: Slot, i: nat)
    requires KeepsBut(blocks, inodes, blocks', inodes', s) && i < |inodes| && s.i != i && SolidAt(blocks, inodes, i)
    ensures SolidAt(blocks', inodes', i)
    ensures Content(blocks', inodes'[i]) == Content(blocks, inodes[i])
  {
    forall k: nat | k < inodes[i].size ensures ByteAt(blocks', inodes'[i], k) == ByteAt(blocks, inodes[i], k) {
      assert k / BSIZE < MAXFILE && k / BSIZE * BSIZE < inodes[i].size;
      KeepsBytes(blocks, inodes, blocks', inodes', s, i, k);
    }
    forall n: nat | n < MAXFILE && n * BSIZE < inodes[i].size ensures BlockNo(blocks', inodes'[i], n) != 0 {
      assert n * BSIZE / BSIZE == n;
      KeepsBytes(blocks, inodes, blocks', inodes', s, i, n * BSIZE);
    }
  }

  lemma KeepsSame(blocks: seq<Block>, used: seq<bool>, inodes: seq<Inode>, owner: Owners, first: nat, s: Slot)
    requires Owned(blocks, used, inodes, owner, first, {})
    ensures KeepsBut(blocks, inodes, blocks, inodes, s)
  {
    forall t | SlotOk(inodes, t) && Ref(blocks, inodes, t) != 0 ensures SameSlot(blocks, inodes, blocks, inodes, t) {
      assert Recorded(blocks, inodes, owner, t) && OwnedAt(blocks, inodes, owner, first, Ref(blocks, inodes, t));
    }
  }

  lemma KeepsTrans(b0: seq<Block>, i0: seq<Inode>, b1: seq<Block>, i1: seq<Inode>, b2: seq<Block>, i2: seq<Inode>, s: Slot)
    requires KeepsBut(b0, i0, b1, i1, s) && KeepsBut(b1, i1, b2, i2, s)
    ensures KeepsBut(b0, i0, b2, i2, s)
  {
    forall t | SlotOk(i0, t) && t != s && Ref(b0, i0, t) != 0 ensures SameSlot(b0, i0, b2, i2, t) {
      assert SameSlot(b0, i0, b1, i1, t) && SameSlot(b1, i1, b2, i2, t);
    }
  }
}
