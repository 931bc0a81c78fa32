/**
 Physical frames and who refers to them (kalloc.c). A reference is a user page-table entry, a
 page-table page, a page directory, or a local variable of the kernel code that is running.
 */
module Frames {
  const PGSIZE: nat := 4096

  type Page = p: seq<nat> | |p| == PGSIZE witness seq(PGSIZE, _ => 0)

  datatype Ref =
    | User(pid: nat, vpn: nat)
    | Table(pid: nat, pdx: nat)
    | Dir(pid: nat)
    | Local

  /** A frame number and the permission bits PTE_W, PTE_U, PTE_COW_W of the entry. */
  datatype Entry = Entry(frame: nat, w: bool, u: bool, cow: bool)

  type RefMap = map<Ref, Entry>

  ghost function Owners(pt: RefMap, f: nat): set<Ref> {
    set r | r in pt && pt[r].frame == f
  }

  ghost predicate Unowned(pt: RefMap, f: nat) {
    forall r :: r in pt ==> pt[r].frame != f
  }

  ghost predicate CountIs(pt: RefMap, f: nat, count: seq<int>) {
    f < |count| && count[f] == |Owners(pt, f)|
  }

  /** Each frame's count is the number of references to it. */
  ghost predicate Counted(pt: RefMap, count: seq<int>) {
    && (forall f: nat {:trigger CountIs(pt, f, count)} :: f < |count| ==> CountIs(pt, f, count))
    && (forall r :: r in pt ==> pt[r].frame < |count|)
  }

  ghost predicate NoDup(s: seq<nat>) {
    forall i, j :: 0 <= i < j < |s| ==> s[i] != s[j]
  }

  /** The free list holds exactly the frames nobody refers to, once each. */
  ghost predicate FreeOk(pt: RefMap, free: seq<nat>, n: nat) {
    && NoDup(free)
    && (forall f :: f in free ==> f < n)
    && (forall f: nat {:trigger Unowned(pt, f)} :: f < n ==> (f in free <==> Unowned(pt, f)))
  }

  /** Two references to one frame are user mappings (or one about to be made), and neither may write. */
  ghost predicate Compatible(pt: RefMap, r: Ref, s: Ref)
    requires r in pt && s in pt
  {
    r != s && pt[r].frame == pt[s].frame ==> MayShare(r) && MayShare(s) && !pt[r].w && !pt[s].w
  }

  predicate MayShare(r: Ref) {
    r.User? || r.Local?
  }

  /** r is the only reference to its frame. */
  ghost predicate Exclusive(pt: RefMap, r: Ref) {
    r in pt && forall s :: s in pt && s != r ==> pt[s].frame != pt[r].frame
  }

  ghost predicate Private(pt: RefMap) {
    && (forall r, s {:trigger Compatible(pt, r, s)} :: r in pt && s in pt ==> Compatible(pt, r, s))
    && (forall r {:trigger Usable(pt, r)} :: r in pt ==> Usable(pt, r))
  }

  /** A user page can be written, at the latest after a page fault. */
  ghost predicate Usable(pt: RefMap, r: Ref)
    requires r in pt
  {
    r.User? ==> pt[r].w || pt[r].cow
  }

  lemma UsableKept(pt: RefMap, pt': RefMap)
    requires Private(pt)
    requires forall r :: r in pt' ==> (r in pt && (pt[r].w || pt[r].cow ==> pt'[r].w || pt'[r].cow)) || Usable(pt', r)
    ensures forall r {:trigger Usable(pt', r)} :: r in pt' ==> Usable(pt', r)
  {
    forall r | r in pt' ensures Usable(pt', r) {
      if r in pt { assert Usable(pt, r); }
    }
  }

  ghost predicate Inv(pt: RefMap, count: seq<int>, free: seq<nat>) {
    Counted(pt, count) && FreeOk(pt, free, |count|) && Private(pt)
  }

  // ---- One reference more, less, or renamed ---------------------------------------------

  lemma OwnersAdd(pt: RefMap, r: Ref, e: Entry, f: nat)
    requires r !in pt
    ensures |Owners(pt[r := e], f)| == |Owners(pt, f)| + if e.frame == f then 1 else 0
  {
    if e.frame == f {
      assert Owners(pt[r := e], f) == Owners(pt, f) + {r};
    } else {
      assert Owners(pt[r := e], f) == Owners(pt, f);
    }
  }

  lemma OwnersRemove(pt: RefMap, r: Ref, f: nat)
    requires r in pt
    ensures |Owners(pt - {r}, f)| == |Owners(pt, f)| - if pt[r].frame == f then 1 else 0
  {
    OwnersAdd(pt - {r}, r, pt[r], f);
    assert (pt - {r})[r := pt[r]] == pt;
  }

  lemma CountZero(pt: RefMap, count: seq<int>, f: nat)
    requires Counted(pt, count) && f < |count|
    ensures count[f] == 0 <==> Unowned(pt, f)
    ensures count[f] >= 0
  {
    assert CountIs(pt, f, count);
    if count[f] == 0 {
      assert Owners(pt, f) == {};
      forall r | r in pt ensures pt[r].frame != f {
        assert r !in Owners(pt, f);
      }
    } else {
      var r :| r in Owners(pt, f);
    }
  }

  /** Adding a reference and bumping the frame's count. */
  lemma AddKeepsCounted(pt: RefMap, count: seq<int>, r: Ref, e: Entry)
    requires Counted(pt, count) && r !in pt && e.frame < |count|
    ensures Counted(pt[r := e], count[e.frame := count[e.frame] + 1])
  {
    var pt', count' := pt[r := e], count[e.frame := count[e.frame] + 1];
    forall f: nat | f < |count'| ensures CountIs(pt', f, count') {
      assert CountIs(pt, f, count);
      OwnersAdd(pt, r, e, f);
    }
  }

  lemma RemoveKeepsCounted(pt: RefMap, count: seq<int>, r: Ref)
    requires Counted(pt, count) && r in pt
    ensures count[pt[r].frame] > 0
    ensures Counted(pt - {r}, count[pt[r].frame := count[pt[r].frame] - 1])
  {
    var pt', count' := pt - {r}, count[pt[r].frame := count[pt[r].frame] - 1];
    CountZero(pt, count, pt[r].frame);
    forall f: nat | f < |count'| ensures CountIs(pt', f, count') {
      assert CountIs(pt, f, count);
      OwnersRemove(pt, r, f);
    }
  }

  /** Changing flags only. */
  lemma ReflagKeepsCounted(pt: RefMap, count: seq<int>, r: Ref, e: Entry)
    requires Counted(pt, count) && r in pt && e.frame == pt[r].frame
    ensures Counted(pt[r := e], count)
  {
    var pt' := pt[r := e];
    forall f: nat | f < |count| ensures CountIs(pt', f, count) {
      assert CountIs(pt, f, count);
      assert Owners(pt', f) == Owners(pt, f);
    }
  }

  /** Same references to the same frames, so the same counts. */
  lemma CountsDetermined(pt: RefMap, pt': RefMap, count: seq<int>, count': seq<int>)
    requires Counted(pt, count) && Counted(pt', count') && |count| == |count'|
    requires pt.Keys == pt'.Keys && forall r :: r in pt ==> pt[r].frame == pt'[r].frame
    ensures count == count'
  {
    forall f: nat | f < |count| ensures count[f] == count'[f] {
      assert CountIs(pt, f, count) && CountIs(pt', f, count');
      assert Owners(pt, f) == Owners(pt', f);
    }
  }

  /** kalloc: the first free frame gets its first reference. */
  lemma KallocKeepsInv(pt: RefMap, count: seq<int>, free: seq<nat>, r: Ref, e: Entry)
    requires Inv(pt, count, free) && free != [] && r !in pt && e.frame == free[0]
    requires r.User? ==> e.w || e.cow
    ensures free[0] < |count| && count[free[0]] == 0 && Exclusive(pt[r := e], r)
    ensures Inv(pt[r := e], count[free[0] := 1], free[1..])
  {
    assert free[0] in free;
    CountZero(pt, count, free[0]);
    AddKeepsCounted(pt, count, r, e);
    var pt' := pt[r := e];
    forall f | f in free[1..] ensures f < |count| && Unowned(pt', f) {
      assert f in free && Unowned(pt, f);
    }
    forall f: nat | f < |count| && Unowned(pt', f) ensures f in free[1..] {
      assert pt'[r].frame != f;
      forall s | s in pt ensures pt[s].frame != f { assert pt'[s].frame != f; }
      assert Unowned(pt, f);
    }
    UsableKept(pt, pt');
    forall s, t | s in pt' && t in pt' ensures Compatible(pt', s, t) {
      if s != r && t != r { assert Compatible(pt, s, t); }
    }
  }

  /** incrementRefCount and a second user mapping, both read-only. */
  lemma ShareKeepsInv(pt: RefMap, count: seq<int>, free: seq<nat>, r: Ref, s: Ref, e: Entry)
    requires Inv(pt, count, free) && r in pt && s !in pt && r.User? && MayShare(s) && !pt[r].w && !e.w
    requires s.User? ==> e.cow
    requires e.frame == pt[r].frame
    ensures e.frame < |count| && count[e.frame] > 0
    ensures Inv(pt[s := e], count[e.frame := count[e.frame] + 1], free)
  {
    CountZero(pt, count, e.frame);
    AddKeepsCounted(pt, count, s, e);
    var pt' := pt[s := e];
    forall f: nat | f < |count| && Unowned(pt', f) ensures f in free {
      forall t | t in pt ensures pt[t].frame != f { assert pt'[t].frame != f; }
      assert Unowned(pt, f);
    }
    forall f | f in free ensures Unowned(pt', f) {
      assert Unowned(pt, f);
    }
    UsableKept(pt, pt');
    forall t, v | t in pt' && v in pt' ensures Compatible(pt', t, v) {
      if t != s && v != s { assert Compatible(pt, t, v); }
      else if t != s { assert Compatible(pt, t, r); }
      else if v != s { assert Compatible(pt, r, v); }
    }
  }

  /** kfree of reference r: the frame goes back to the list when that was the last one. */
  lemma KfreeKeepsInv(pt: RefMap, count: seq<int>, free: seq<nat>, r: Ref)
    requires Inv(pt, count, free) && r in pt
    ensures var f := pt[r].frame;
      && f < |count| && count[f] > 0
      && Inv(pt - {r}, count[f := count[f] - 1], if count[f] == 1 then [f] + free else free)
  {
    var f := pt[r].frame;
    RemoveKeepsCounted(pt, count, r);
    var pt', count' := pt - {r}, count[f := count[f] - 1];
    var free' := if count[f] == 1 then [f] + free else free;
    CountZero(pt', count', f);
    CountZero(pt, count, f);
    assert f in free ==> Unowned(pt, f);
    forall g | g in free' ensures g < |count| && Unowned(pt', g) {
      if g in free { assert Unowned(pt, g); }
    }
    forall g: nat | g < |count| && Unowned(pt', g) ensures g in free' {
      if g != f {
        forall t | t in pt ensures pt[t].frame != g { if t != r { assert pt'[t].frame != g; } }
        assert Unowned(pt, g);
      }
    }
    UsableKept(pt, pt');
    forall s, t | s in pt' && t in pt' ensures Compatible(pt', s, t) {
      assert Compatible(pt, s, t);
    }
  }

  /** Moving a frame from a local variable into an entry. */
  lemma MoveKeepsInv(pt: RefMap, count: seq<int>, free: seq<nat>, r: Ref, s: Ref, e: Entry)
    requires Inv(pt, count, free) && r in pt && s !in pt && e.frame == pt[r].frame
    requires s.User? ==> e.w || e.cow
    requires Exclusive(pt, r) || (MayShare(s) && !e.w)
    ensures Inv((pt - {r})[s := e], count, free)
  {
    var f := pt[r].frame;
    RemoveKeepsCounted(pt, count, r);
    AddKeepsCounted(pt - {r}, count[f := count[f] - 1], s, e);
    assert count[f := count[f] - 1][f := count[f]] == count;
    var pt' := (pt - {r})[s := e];
    forall g: nat | g < |count| && Unowned(pt', g) ensures g in free {
      assert pt'[s].frame != g;
      forall t | t in pt ensures pt[t].frame != g { if t != r { assert pt'[t].frame != g; } }
      assert Unowned(pt, g);
    }
    forall g | g in free ensures Unowned(pt', g) {
      assert Unowned(pt, g) && pt[r].frame != g;
    }
    UsableKept(pt, pt');
    forall t, v | t in pt' && v in pt' ensures Compatible(pt', t, v) {
      assert Compatible(pt, if t == s then r else t, if v == s then r else v);
    }
  }

  /** Taking write permission away (and noting copy-on-write). */
  lemma ProtectKeepsInv(pt: RefMap, count: seq<int>, free: seq<nat>, r: Ref)
    requires Inv(pt, count, free) && r in pt && r.User?
    ensures Inv(pt[r := pt[r].(w := false, cow := true)], count, free)
  {
    var pt' := pt[r := pt[r].(w := false, cow := true)];
    ReflagKeepsCounted(pt, count, r, pt'[r]);
    forall f: nat | f < |count| && Unowned(pt', f) ensures f in free {
      forall t | t in pt ensures pt[t].frame != f { assert pt'[t].frame != f; }
      assert Unowned(pt, f);
    }
    forall f | f in free ensures Unowned(pt', f) {
      assert Unowned(pt, f);
    }
    UsableKept(pt, pt');
    forall t, v | t in pt' && v in pt' ensures Compatible(pt', t, v) {
      assert Compatible(pt, t, v);
    }
  }

  // ---- Conservation ---------------------------------------------------------------------

  ghost function InUse(pt: RefMap, n: nat): set<nat> {
    set f | f in Below(n) && !Unowned(pt, f)
  }

  function ToSet(s: seq<nat>): (r: set<nat>)
    ensures forall f :: f in r <==> f in s
  {
    if s == [] then {} else {s[0]} + ToSet(s[1..])
  }

  lemma {:induction false} NoDupSize(s: seq<nat>)
    requires NoDup(s)
    ensures |ToSet(s)| == |s|
  {
    if s != [] {
      NoDupSize(s[1..]);
      assert s[0] !in s[1..];
    }
  }

  function Below(n: nat): (r: set<nat>)
    ensures |r| == n && forall f: nat :: f in r <==> f < n
  {
    if n == 0 then {} else Below(n - 1) + {n - 1}
  }

  /** NumFreePages plus the frames in use is the number of frames. */
  lemma FramesConserved(pt: RefMap, count: seq<int>, free: seq<nat>)
    requires Inv(pt, count, free)
    ensures |free| + |InUse(pt, |count|)| == |count|
  {
    var n := |count|;
    NoDupSize(free);
    assert ToSet(free) + InUse(pt, n) == Below(n);
    assert ToSet(free) * InUse(pt, n) == {};
  }
}
