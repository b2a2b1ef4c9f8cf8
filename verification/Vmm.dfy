/** User address spaces (vmm.c): page tables, area lists and frame ownership. */
module VirtualMemory {
  import opened VmAreas
  import Phys = PhysicalMemory

  type PageData = Phys.PageData

  const STACK_START: nat := 0xbfff_f000
  const STACK_SIZE: nat := 0x1_0000
  const STACK_SIZE_MAX: nat := 0x80_0000
  const STACK_GROW: nat := 0x2_0000

  /** sbrk may not grow the heap this far. */
  const BRK_LIMIT: nat := STACK_START - STACK_SIZE_MAX

  /** A present or guard entry of a user page table; absent pages are zero entries. */
  datatype Pte = Pte(frame: nat, present: bool, guard: bool, writable: bool)

  /** The page tables of a directory's kernel part, by directory entry. */
  type Tables = map<nat, nat>

  predicate IsKernelSpace(entry: nat) { !(USER_LOW <= entry * 1024 * PAGE < USER_HIGH) }

  ghost predicate KernelOnly(tables: Tables) {
    forall e :: e in tables ==> e < 1024 && IsKernelSpace(e)
  }

  datatype Mm = Mm(areas: seq<Area>, pages: map<nat, Pte>, framesUsed: int,
                   brkStart: nat, brk: nat, initialBrk: nat, guardPage: nat, kernel: Tables)

  /** The page table holds exactly the pages of the areas, with the areas' rights, one frame each. */
  ghost predicate Tidy(m: Mm) {
    && AreasOk(m.areas)
    && (forall v, w :: CoveredAs(m.areas, v, w) <==> v in m.pages && m.pages[v].writable == w)
    && m.framesUsed == |m.pages|
    && (forall v :: v in m.pages ==> m.pages[v].present != m.pages[v].guard)
  }

  ghost predicate InUse(bitmap: seq<bv32>, f: nat) { f < 32 * |bitmap| && Phys.Used(bitmap, f) }

  ghost predicate Maps(mms: map<nat, Mm>, i: nat, v: nat, f: nat) {
    i in mms && v in mms[i].pages && mms[i].pages[v].frame == f
  }

  type Owners = map<nat, (nat, nat)>

  /** Every mapped frame belongs to one page of one live address space and is marked used. */
  ghost predicate Frames(mms: map<nat, Mm>, owner: Owners, bitmap: seq<bv32>, nframes: nat) {
    && InUse(bitmap, 0)
    && (forall i: nat, v: nat, f: nat :: Maps(mms, i, v, f) ==> f in owner && owner[f] == (i, v))
    && (forall f :: f in owner ==> 0 < f < nframes && InUse(bitmap, f) && Maps(mms, owner[f].0, owner[f].1, f))
  }

  /** No frame is mapped twice, within or across address spaces. */
  lemma FrameMappedOnce(mms: map<nat, Mm>, owner: Owners, bitmap: seq<bv32>, nframes: nat, i: nat, v: nat, j: nat, w: nat)
    requires Frames(mms, owner, bitmap, nframes)
    requires i in mms && v in mms[i].pages && j in mms && w in mms[j].pages && mms[i].pages[v].frame == mms[j].pages[w].frame
    ensures i == j && v == w && InUse(bitmap, mms[i].pages[v].frame)
  {
    assert Maps(mms, i, v, mms[i].pages[v].frame) && Maps(mms, j, w, mms[i].pages[v].frame);
  }

  lemma FramesAdd(mms: map<nat, Mm>, owner: Owners, bitmap: seq<bv32>, nframes: nat, i: nat, m: Mm, v: nat, p: Pte, bitmap': seq<bv32>)
    requires Frames(mms, owner, bitmap, nframes) && i in mms && v !in mms[i].pages && m.pages == mms[i].pages[v := p]
    requires Phys.OnlyFrame(bitmap, bitmap', p.frame, true) && !Phys.Used(bitmap, p.frame) && p.frame < nframes
    ensures p.frame !in owner && Frames(mms[i := m], owner[p.frame := (i, v)], bitmap', nframes)
  {
    hide Phys.Used;
    var mms', owner' := mms[i := m], owner[p.frame := (i, v)];
    assert p.frame in owner ==> InUse(bitmap, p.frame);
    forall j: nat, u: nat, f: nat | Maps(mms', j, u, f) ensures f in owner' && owner'[f] == (j, u) {
      assert (j == i && u == v) || Maps(mms, j, u, f);
    }
    forall f | f in owner' ensures InUse(bitmap', f) && 0 < f < nframes && Maps(mms', owner'[f].0, owner'[f].1, f) {
      assert f in owner ==> Maps(mms, owner[f].0, owner[f].1, f);
    }
  }

  lemma FramesSame(mms: map<nat, Mm>, owner: Owners, bitmap: seq<bv32>, nframes: nat, i: nat, m: Mm)
    requires Frames(mms, owner, bitmap, nframes) && i in mms
    requires forall v :: v in m.pages <==> v in mms[i].pages
    requires forall v :: v in m.pages ==> m.pages[v].frame == mms[i].pages[v].frame
    ensures Frames(mms[i := m], owner, bitmap, nframes)
  {
    hide Phys.Used;
    var mms' := mms[i := m];
    forall j: nat, u: nat, f: nat | Maps(mms', j, u, f) ensures f in owner && owner[f] == (j, u) {
      assert Maps(mms, j, u, f);
    }
    forall f | f in owner ensures 0 < f < nframes && InUse(bitmap, f) && Maps(mms', owner[f].0, owner[f].1, f) {
      assert Maps(mms, owner[f].0, owner[f].1, f);
    }
  }

  lemma FramesDrop(mms: map<nat, Mm>, owner: Owners, bitmap: seq<bv32>, nframes: nat, i: nat, m: Mm, v: nat, bitmap': seq<bv32>)
    requires Frames(mms, owner, bitmap, nframes) && i in mms && v in mms[i].pages && m.pages == mms[i].pages - {v}
    requires Phys.OnlyFrame(bitmap, bitmap', mms[i].pages[v].frame, false)
    ensures Frames(mms[i := m], owner - {mms[i].pages[v].frame}, bitmap', nframes)
  {
    hide Phys.Used;
    var d := mms[i].pages[v].frame;
    var mms', owner' := mms[i := m], owner - {d};
    assert Maps(mms, i, v, d);
    forall j: nat, u: nat, f: nat | Maps(mms', j, u, f) ensures f in owner' && owner'[f] == (j, u) {
      assert Maps(mms, j, u, f);
    }
    forall f | f in owner' ensures InUse(bitmap', f) && 0 < f < nframes && Maps(mms', owner'[f].0, owner'[f].1, f) {
      assert Maps(mms, owner[f].0, owner[f].1, f);
    }
  }

  class Vmm {
    const pmm: Phys.Pmm
    const kernelTables: Tables   // those of kernel_directory
    var mms: map<nat, Mm>
    ghost var owner: Owners

    ghost function Repr(): set<object> { {this, pmm, pmm.usedFrames} }

    /** No user address space yet; frame 0 is never handed out. */
    constructor (pmm: Phys.Pmm, kernelTables: Tables)
      requires pmm.Valid() && Phys.Used(pmm.Bitmap(), 0) && KernelOnly(kernelTables)
      ensures Valid() && this.pmm == pmm && mms == map[] && this.kernelTables == kernelTables
    {
      this.pmm, this.kernelTables := pmm, kernelTables;
      mms, owner := map[], map[];
    }

    /** Frame ownership, without the agreement of areas and pages. */
    ghost predicate Sound()
      reads this, pmm, pmm.usedFrames
    {
      && pmm.Valid()
      && Frames(mms, owner, pmm.Bitmap(), pmm.nframes)
      && owner.Keys <= pmm.memory.Keys
    }

    ghost predicate Valid()
      reads this, pmm, pmm.usedFrames
    {
      && Sound() && KernelOnly(kernelTables)
      && (forall i :: i in mms ==> Tidy(mms[i]))
      && (forall i :: i in mms ==> mms[i].kernel == kernelTables)
    }

    /** What address space i holds at page v. */
    ghost function Contents(i: nat, v: nat): PageData
      requires Sound() && i in mms && v in mms[i].pages
      reads this, pmm, pmm.usedFrames
    {
      assert Maps(mms, i, v, mms[i].pages[v].frame);
      pmm.memory[mms[i].pages[v].frame]
    }

    /**
     _vmm_map of a freshly allocated frame.  ok is false where the kernel panics: no free frame, or an entry
     that is already in use.
     */
    method MapNew(i: nat, v: nat, w: bool) returns (ok: bool)
      requires Sound() && i in mms
      modifies Repr()
      ensures ok <==> v !in old(mms)[i].pages && old(pmm.FreeCount()) > 0
      ensures ok ==> Sound() && i in mms && v !in old(mms)[i].pages && v in mms[i].pages
      ensures ok ==> pmm.FreeCount() == old(pmm.FreeCount()) - 1
      ensures ok ==> var p := mms[i].pages[v];
        && p == Pte(p.frame, true, false, w) && p.frame !in old(owner)
        && mms == old(mms)[i := old(mms)[i].(pages := old(mms)[i].pages[v := p], framesUsed := old(mms)[i].framesUsed + 1)]
        && owner == old(owner)[p.frame := (i, v)]
        && pmm.memory == old(pmm.memory)[p.frame := Phys.ZeroPage()]
    {
      hide Phys.Used, Phys.FreeFrames;
      var phys: nat;
      ghost var before := pmm.Bitmap();
      ok, phys := pmm.Alloc();
      if !ok || v in mms[i].pages {
        return false;
      }
      var m := mms[i];
      var p := Pte(phys / PAGE, true, false, w);
      var m' := m.(pages := m.pages[v := p], framesUsed := m.framesUsed + 1);
      FramesAdd(mms, owner, before, pmm.nframes, i, m', v, p, pmm.Bitmap());
      owner := owner[p.frame := (i, v)];
      mms := mms[i := m'];
    }

    /** vmm_free: the page's frame goes back to the allocator. */
    method FreePage(i: nat, v: nat)
      requires Sound() && i in mms && v in mms[i].pages
      modifies Repr()
      ensures Sound() && mms == old(mms)[i := old(mms)[i].(pages := old(mms)[i].pages - {v})]
      ensures owner == old(owner) - {old(mms)[i].pages[v].frame} && pmm.memory == old(pmm.memory)
      ensures Phys.OnlyFrame(old(pmm.Bitmap()), pmm.Bitmap(), old(mms)[i].pages[v].frame, false)
    {
      hide Phys.Used;
      var m := mms[i];
      var p := m.pages[v];
      assert Maps(mms, i, v, p.frame);
      ghost var before := pmm.Bitmap();
      pmm.Free(p.frame * PAGE);
      var m' := m.(pages := m.pages - {v});
      FramesDrop(mms, owner, before, pmm.nframes, i, m', v, pmm.Bitmap());
      owner := owner - {p.frame};
      mms := mms[i := m'];
    }

    /** vmm_alloc_user. */
    method AllocUser(i: nat, start: nat, end: nat, w: bool) returns (ok: bool)
      requires Valid() && i in mms && Allocatable(mms[i], start, end)
      modifies Repr()
      ensures ok <==> Unmapped(old(mms)[i], start, end) && old(pmm.FreeCount()) >= (end - start) / PAGE
      ensures ok ==> pmm.FreeCount() == old(pmm.FreeCount()) - (end - start) / PAGE
      ensures ok ==> Valid() && Added(old(mms), mms, old(owner), owner, old(pmm.memory), pmm.memory, i, start, end, w)
      ensures ok ==> i in mms && SameLayout(old(mms)[i], mms[i]) && Stretched(old(mms)[i].areas, mms[i].areas, start, end, w)
      ensures ok ==> end <= USER_HIGH && mms[i].areas == Stored(old(mms)[i].areas, start, end, w)
    {
      hide Phys.Used, Frames, Added, Tidy, Stretched, CoveredAs, Unmapped, Phys.FreeFrames, Stored;
      UnmappedNone(mms[i], start);
      var addr := start;
      AddedNothing(mms, owner, pmm.memory, i, start, w);
      TidyAreas(mms[i]);
      while addr < end
        invariant start <= addr <= end && addr % PAGE == 0
        invariant Sound() && i in mms
        invariant Added(old(mms), mms, old(owner), owner, old(pmm.memory), pmm.memory, i, start, addr, w)
        invariant SameLayout(old(mms)[i], mms[i]) && mms[i].areas == old(mms)[i].areas
        invariant mms[i].framesUsed == |mms[i].pages|
        invariant Unmapped(old(mms)[i], start, addr)
        invariant pmm.FreeCount() == old(pmm.FreeCount()) - (addr - start) / PAGE
      {
        ghost var mms1, owner1, memory1 := mms, owner, pmm.memory;
        PageSteps(start, addr, end);
        StillUnmapped(old(mms), mms, old(owner), owner, old(pmm.memory), pmm.memory, i, start, addr, end, w);
        ok := MapNew(i, addr / PAGE, w);
        if !ok {
          return;
        }
        AddedVacant(old(mms), mms1, old(owner), owner1, old(pmm.memory), memory1, i, start, addr, w);
        AddedStep(old(mms), mms1, mms, old(owner), owner1, owner, old(pmm.memory), memory1, pmm.memory, i, start, addr, w);
        addr := addr + PAGE;
      }
      var m := mms[i];
      InUserSpace(old(mms)[i], start, end);
      AddedVacantAreas(old(mms)[i], start, end);
      var areas := StoreArea(m.areas, start, end, w);
      AddedTidy(old(mms), mms, old(owner), owner, old(pmm.memory), pmm.memory, i, start, end, w, areas);
      FramesSame(mms, owner, pmm.Bitmap(), pmm.nframes, i, m.(areas := areas));
      mms := mms[i := m.(areas := areas)];
      ok := true;
    }

    /** Frees the pages of [from, to), which one area covers, and counts them off; vmm_resize_area's shrink loop. */
    method FreeRange(i: nat, from: nat, to: nat)
      requires Sound() && i in mms && from % PAGE == 0 && to % PAGE == 0 && from <= to
      requires forall v :: InRange(from, to, v) ==> v in mms[i].pages
      modifies Repr()
      ensures Sound() && i in mms
      ensures Removed(old(mms), mms, old(owner), owner, old(pmm.Bitmap()), pmm.Bitmap(), i, PagesOf(from, to))
      ensures pmm.memory == old(pmm.memory)
      ensures mms[i] == old(mms)[i].(pages := mms[i].pages, framesUsed := old(mms)[i].framesUsed - |PagesOf(from, to)|)
    {
      hide Phys.Used, Frames, Removed, PagesOf;
      var addr := from;
      PagesOfNone(from);
      RemovedNothing(mms, owner, pmm.Bitmap(), i, pmm.nframes);
      while addr < to
        invariant from <= addr <= to && addr % PAGE == 0
        invariant Sound() && i in mms && pmm.memory == old(pmm.memory)
        invariant Removed(old(mms), mms, old(owner), owner, old(pmm.Bitmap()), pmm.Bitmap(), i, PagesOf(from, addr))
        invariant mms[i] == old(mms)[i].(pages := mms[i].pages, framesUsed := old(mms)[i].framesUsed - |PagesOf(from, addr)|)
      {
        ghost var mms1, owner1, bitmap1 := mms, owner, pmm.Bitmap();
        PagesOfNext(from, addr);
        RemovedStill(old(mms), mms, old(owner), owner, old(pmm.Bitmap()), pmm.Bitmap(), i, PagesOf(from, addr), addr / PAGE);
        FreePage(i, addr / PAGE);
        RemovedStep(old(mms), mms1, mms, old(owner), owner1, owner, old(pmm.Bitmap()), bitmap1, pmm.Bitmap(), pmm.nframes, i, PagesOf(from, addr), addr / PAGE);
        var m := mms[i];
        FramesSame(mms, owner, pmm.Bitmap(), pmm.nframes, i, m.(framesUsed := m.framesUsed - 1));
        RemovedSame(old(mms), mms, old(owner), owner, old(pmm.Bitmap()), pmm.Bitmap(), i, PagesOf(from, addr) + {addr / PAGE}, m.(framesUsed := m.framesUsed - 1));
        mms := mms[i := m.(framesUsed := m.framesUsed - 1)];
        addr := addr + PAGE;
      }
    }

    /**
     vmm_resize_area: the area that contains start is made to end at newEnd, if there is one.  ok is false
     where the kernel panics: an area visited on the way already ends at newEnd, or growing fails.
     */
    method ResizeArea(i: nat, start: nat, newEnd: nat) returns (ok: bool)
      requires Valid() && i in mms && start + PAGE <= newEnd && newEnd % PAGE == 0 && GrowthMeets(mms[i], start, newEnd)
      modifies Repr()
      ensures ok <==> Resizable(old(mms)[i], start, newEnd, old(pmm.FreeCount()))
      ensures ok ==> Valid() && i in mms && SameLayout(old(mms)[i], mms[i])
      ensures ok ==> var m := old(mms)[i]; var at := Containing(m.areas, start);
        if at == |m.areas| then mms == old(mms) && owner == old(owner) && pmm.memory == old(pmm.memory)
        else if newEnd > m.areas[at].end then
          var a := m.areas[at];
          && Added(old(mms), mms, old(owner), owner, old(pmm.memory), pmm.memory, i, a.end, newEnd, a.writable)
          && Stretched(m.areas, mms[i].areas, a.end, newEnd, a.writable)
          && mms[i].areas == Stored(m.areas, a.end, newEnd, a.writable)
        else
          var a := m.areas[at];
          && Removed(old(mms), mms, old(owner), owner, old(pmm.Bitmap()), pmm.Bitmap(), i, PagesOf(newEnd, a.end))
          && mms[i].areas == m.areas[at := a.(end := newEnd)] && pmm.memory == old(pmm.memory)
    {
      hide Phys.Used, Frames, Added, Removed, Tidy, Stretched, CoveredAs, PagesOf, Stored, Containing, Unmapped, Phys.FreeFrames;
      var m := mms[i];
      TidyAreas(m);
      var k := 0;
      while k < |m.areas|
        invariant 0 <= k <= |m.areas|
        invariant forall j :: 0 <= j < k ==> !(m.areas[j].start <= start < m.areas[j].end) && m.areas[j].end != newEnd
      {
        var a := m.areas[k];
        if a.end == newEnd {
          NotResizable(m, start, newEnd, pmm.FreeCount(), k);
          return false;
        }
        if a.start <= start < a.end {
          assert AreaOk(a);
          ContainingIs(m.areas, start, k);
          if newEnd > a.end {
            ok := AllocUser(i, a.end, newEnd, a.writable);
          } else {
            Shrink(i, k, newEnd);
            ok := true;
          }
          return;
        }
        k := k + 1;
      }
      ContainingIs(m.areas, start, k);
      ok := true;
    }

    /** The shrinking branch of vmm_resize_area. */
    method Shrink(i: nat, k: nat, newEnd: nat)
      requires Valid() && i in mms && k < |mms[i].areas| && newEnd % PAGE == 0
      requires mms[i].areas[k].start < newEnd < mms[i].areas[k].end
      modifies Repr()
      ensures Valid() && i in mms && SameLayout(old(mms)[i], mms[i]) && pmm.memory == old(pmm.memory)
      ensures var m := old(mms)[i]; var a := m.areas[k];
        && Removed(old(mms), mms, old(owner), owner, old(pmm.Bitmap()), pmm.Bitmap(), i, PagesOf(newEnd, a.end))
        && mms[i].areas == m.areas[k := a.(end := newEnd)]
    {
      hide Phys.Used, Frames, Removed, Tidy, CoveredAs, PagesOf;
      var m := mms[i];
      var a := m.areas[k];
      TidyAreas(m);
      assert AreaOk(a);
      TidyRange(m, k, newEnd);
      FreeRange(i, newEnd, a.end);
      RemovedTidy(old(mms), mms, old(owner), owner, old(pmm.Bitmap()), pmm.Bitmap(), i, k, newEnd);
      var m' := mms[i].(areas := m.areas[k := a.(end := newEnd)]);
      FramesSame(mms, owner, pmm.Bitmap(), pmm.nframes, i, m');
      RemovedSame(old(mms), mms, old(owner), owner, old(pmm.Bitmap()), pmm.Bitmap(), i, PagesOf(newEnd, a.end), m');
      mms := mms[i := m'];
    }

    /** vmm_destroy_task_mm on a live page directory: each of the task's frames is returned once, no other is. */
    method Destroy(i: nat)
      requires Valid() && i in mms
      modifies Repr()
      ensures Valid() && mms == old(mms) - {i} && pmm.memory == old(pmm.memory)
      ensures |pmm.Bitmap()| == |old(pmm.Bitmap())|
      ensures forall f {:trigger Phys.Used(pmm.Bitmap(), f)} :: 0 <= f < 32 * |pmm.Bitmap()| ==>
                (Phys.Used(pmm.Bitmap(), f) <==> Phys.Used(old(pmm.Bitmap()), f) && !(f in old(owner) && old(owner)[f].0 == i))
    {
      hide Phys.Used, Frames, Removed, PagesOf, Tidy, PagesIn;
      var m := mms[i];
      RemovedNothing(mms, owner, pmm.Bitmap(), i, pmm.nframes);
      PagesInNone(m.areas);
      var k := 0;
      while k < |m.areas|
        invariant 0 <= k <= |m.areas| && Sound() && pmm.memory == old(pmm.memory)
        invariant Removed(old(mms), mms, old(owner), owner, old(pmm.Bitmap()), pmm.Bitmap(), i, PagesIn(m.areas, k))
      {
        FreeArea(i, m.areas[k], m, k, old(mms), old(owner), old(pmm.Bitmap()));
        k := k + 1;
      }
      RemovedAll(old(mms), mms, old(owner), owner, old(pmm.Bitmap()), pmm.Bitmap(), pmm.nframes, i);
      mms := mms - {i};
    }

    /** The inner loop of vmm_destroy_task_mm: every page of one more area goes. */
    method FreeArea(i: nat, a: Area, ghost m: Mm, ghost k: nat, ghost mms0: map<nat, Mm>, ghost owner0: Owners, ghost bitmap0: seq<bv32>)
      requires Sound() && i in mms0 && mms0[i] == m && Tidy(m) && k < |m.areas| && a == m.areas[k]
      requires Removed(mms0, mms, owner0, owner, bitmap0, pmm.Bitmap(), i, PagesIn(m.areas, k))
      modifies Repr()
      ensures Sound() && pmm.memory == old(pmm.memory)
      ensures Removed(mms0, mms, owner0, owner, bitmap0, pmm.Bitmap(), i, PagesIn(m.areas, k + 1))
    {
      hide Phys.Used, Frames, Removed, PagesOf, Tidy, PagesIn;
      ghost var earlier := PagesIn(m.areas, k);
      TidyArea(m, k);
      PagesInNext(m.areas, k);
      PagesOfNone(a.start);
      assert earlier + {} == earlier;
      var addr := a.start;
      while addr < a.end
        invariant a.start <= addr <= a.end && addr % PAGE == 0 && Sound() && pmm.memory == old(pmm.memory)
        invariant Removed(mms0, mms, owner0, owner, bitmap0, pmm.Bitmap(), i, earlier + PagesOf(a.start, addr))
      {
        ghost var mms1, owner1, bitmap1 := mms, owner, pmm.Bitmap();
        ghost var gone := earlier + PagesOf(a.start, addr);
        PagesOfNext(a.start, addr);
        assert addr / PAGE !in gone && addr / PAGE in m.pages;
        RemovedStill(mms0, mms, owner0, owner, bitmap0, pmm.Bitmap(), i, gone, addr / PAGE);
        FreePage(i, addr / PAGE);
        RemovedStep(mms0, mms1, mms, owner0, owner1, owner, bitmap0, bitmap1, pmm.Bitmap(), pmm.nframes, i, gone, addr / PAGE);
        assert gone + {addr / PAGE} == earlier + PagesOf(a.start, addr + PAGE);
        addr := addr + PAGE;
      }
    }

    /** The inner step of clone_user_page_directory: a new frame, the same data, the same flags. */
    method CopyPage(p: Pte, j: nat, v: nat) returns (ok: bool)
      requires Sound() && j in mms && p.frame in pmm.memory && p.frame in owner
      modifies Repr()
      ensures ok <==> v !in old(mms)[j].pages && old(pmm.FreeCount()) > 0
      ensures ok ==> pmm.FreeCount() == old(pmm.FreeCount()) - 1
      ensures ok ==> Sound() && j in mms && v !in old(mms)[j].pages && v in mms[j].pages
      ensures ok ==> mms[j].pages[v] == p.(frame := mms[j].pages[v].frame) && mms[j].pages[v].frame !in old(owner)
      ensures ok ==> var f := mms[j].pages[v].frame;
        && mms == old(mms)[j := old(mms)[j].(pages := old(mms)[j].pages[v := p.(frame := f)], framesUsed := old(mms)[j].framesUsed + 1)]
        && owner == old(owner)[f := (j, v)] && pmm.memory == old(pmm.memory)[f := old(pmm.memory)[p.frame]]
    {
      hide Phys.Used, Frames, Phys.FreeFrames;
      ok := MapNew(j, v, p.writable);
      if !ok {
        return;
      }
      var f := mms[j].pages[v].frame;
      pmm.memory := pmm.memory[f := pmm.memory[p.frame]];
      var child := mms[j].(pages := mms[j].pages[v := p.(frame := f)]);
      FramesSame(mms, owner, pmm.Bitmap(), pmm.nframes, j, child);
      mms := mms[j := child];
      assert child.pages == old(mms)[j].pages[v := p.(frame := f)];
      assert mms == old(mms)[j := child];
    }

    /** The kernel part of clone_user_page_directory: the child shares the parent's tables. */
    method CopyKernelTables(parent: Tables) returns (child: Tables)
      requires KernelOnly(parent)
      ensures child == parent
    {
      child := map[];
      for e := 0 to 1024
        invariant forall t :: t in child <==> t in parent && t < e
        invariant forall t :: t in child ==> child[t] == parent[t]
      {
        if IsKernelSpace(e) && e in parent {
          child := child[e := parent[e]];
        }
      }
    }

    /** One page of clone_user_page_directory: a copy for address space j, if i has the page. */
    method ClonePage(i: nat, j: nat, v: nat, ghost mms0: map<nat, Mm>, ghost owner0: Owners, ghost memory0: Memory)
      returns (ok: bool)
      requires Sound() && j in mms && mms[j].framesUsed == |mms[j].pages|
      requires Cloned(mms0, mms, owner0, owner, memory0, pmm.memory, i, j, v) && owner0.Keys <= memory0.Keys
      requires forall u :: u in mms0[i].pages ==> mms0[i].pages[u].frame in owner0
      modifies Repr()
      ensures ok <==> (v in mms0[i].pages ==> old(pmm.FreeCount()) > 0)
      ensures ok ==> Sound() && j in mms && Cloned(mms0, mms, owner0, owner, memory0, pmm.memory, i, j, v + 1)
      ensures ok ==> mms[j] == old(mms)[j].(pages := mms[j].pages, framesUsed := |mms[j].pages|)
      ensures ok ==> pmm.FreeCount() + |mms[j].pages| == old(pmm.FreeCount() + |mms[j].pages|)
    {
      hide Phys.Used, Frames, Cloned, Tidy, Phys.FreeFrames;
      ghost var mms1, owner1, memory1 := mms, owner, pmm.memory;
      ParentKept(mms0, mms, owner0, owner, memory0, pmm.memory, pmm.Bitmap(), pmm.nframes, i, j, v);
      if v !in mms[i].pages || mms[i].pages[v].frame == 0 {
        CloneSkip(mms0, mms, owner0, owner, memory0, pmm.memory, i, j, v);
        return true;
      }
      MappedOwned(mms, owner, pmm.Bitmap(), pmm.nframes, j);
      ok := CopyPage(mms[i].pages[v], j, v);
      if ok {
        CloneStep(mms0, mms1, mms, owner0, owner1, owner, memory0, memory1, pmm.memory, i, j, v, mms[j].pages[v].frame);
      }
    }

    /** vmm_clone_mm: fork gives address space j a copy of every page of i. */
    method Clone(i: nat, j: nat) returns (ok: bool)
      requires Valid() && i in mms && j !in mms
      modifies Repr()
      ensures ok <==> old(pmm.FreeCount()) >= |old(mms)[i].pages|
      ensures ok ==> pmm.FreeCount() == old(pmm.FreeCount()) - |old(mms)[i].pages|
      ensures ok ==> Valid() && Cloned(old(mms), mms, old(owner), owner, old(pmm.memory), pmm.memory, i, j, USER_HIGH / PAGE)
      ensures ok ==> mms[j].areas == mms[i].areas && mms[j].pages.Keys == mms[i].pages.Keys
      ensures ok ==> mms[j].kernel == mms[i].kernel
    {
      hide Phys.Used, Frames, Cloned, Tidy, Phys.FreeFrames;
      var parent := mms[i];
      var kernel := CopyKernelTables(parent.kernel);
      mms := mms[j := Mm(parent.areas, map[], 0, 0, 0, 0, 0, kernel)];
      CloneStart(old(mms), mms, owner, pmm.Bitmap(), pmm.nframes, pmm.memory, i, j);
      MappedOwned(old(mms), owner, pmm.Bitmap(), pmm.nframes, i);
      var v := USER_LOW / PAGE;
      while v < USER_HIGH / PAGE
        invariant USER_LOW / PAGE <= v <= USER_HIGH / PAGE && Sound() && j in mms
        invariant Cloned(old(mms), mms, old(owner), owner, old(pmm.memory), pmm.memory, i, j, v)
        invariant mms[j] == Mm(parent.areas, mms[j].pages, |mms[j].pages|, 0, 0, 0, 0, kernel)
        invariant pmm.FreeCount() + |mms[j].pages| == old(pmm.FreeCount())
      {
        CloneRoom(old(mms), mms, old(owner), owner, old(pmm.memory), pmm.memory, i, j, v);
        ok := ClonePage(i, j, v, old(mms), old(owner), old(pmm.memory));
        if !ok {
          return;
        }
        v := v + 1;
      }
      CloneDone(old(mms), mms, old(owner), owner, old(pmm.memory), pmm.memory, i, j);
      assert |mms[j].pages| == |mms[j].pages.Keys| == |mms[i].pages.Keys| == |mms[i].pages|;
      ok := true;
    }

    /** A task writes a page it may write: no other page of any address space changes. */
    method Store(i: nat, v: nat, data: PageData)
      requires Valid() && i in mms && v in mms[i].pages && mms[i].pages[v].present && mms[i].pages[v].writable
      modifies pmm`memory
      ensures Valid() && Contents(i, v) == data
      ensures forall j, u :: j in mms && u in mms[j].pages && (j, u) != (i, v) ==> Contents(j, u) == old(Contents(j, u))
    {
      hide Phys.Used;
      var f := mms[i].pages[v].frame;
      assert Maps(mms, i, v, f);
      pmm.memory := pmm.memory[f := data];
      forall j, u | j in mms && u in mms[j].pages && (j, u) != (i, v) ensures Contents(j, u) == old(Contents(j, u)) {
        assert Maps(mms, j, u, mms[j].pages[u].frame);
      }
    }

    /** _vmm_set_guard: a present page becomes a guard page, or the other way round. */
    method SetGuard(i: nat, v: nat, guard: bool)
      requires Valid() && i in mms && v in mms[i].pages && mms[i].pages[v].present == guard && mms[i].pages[v].guard == !guard
      modifies this`mms
      ensures Valid()
      ensures mms == old(mms)[i := old(mms)[i].(pages := old(mms)[i].pages[v := old(mms)[i].pages[v].(present := !guard, guard := guard)])]
    {
      hide Phys.Used, Frames;
      var m := mms[i];
      var m' := m.(pages := m.pages[v := m.pages[v].(present := !guard, guard := guard)]);
      FramesSame(mms, owner, pmm.Bitmap(), pmm.nframes, i, m');
      GuardTidy(m, m', v);
      mms := mms[i := m'];
    }

    /** Turns the page at low into the stack's guard page and records it. */
    method PlaceGuard(i: nat, low: nat)
      requires Valid() && i in mms && low / PAGE in mms[i].pages
      requires mms[i].pages[low / PAGE].present && !mms[i].pages[low / PAGE].guard
      modifies this`mms
      ensures Valid()
      ensures mms == old(mms)[i := old(mms)[i].(
                pages := old(mms)[i].pages[low / PAGE := old(mms)[i].pages[low / PAGE].(present := false, guard := true)], guardPage := low)]
    {
      hide Phys.Used, Frames, Tidy;
      SetGuard(i, low / PAGE, true);
      var m := mms[i].(guardPage := low);
      FramesSame(mms, owner, pmm.Bitmap(), pmm.nframes, i, m);
      SameTidy(mms[i], m);
      mms := mms[i := m];
    }

    /** The guard page at `from` becomes an ordinary page, and the one at low the guard page. */
    method MoveGuard(i: nat, from: nat, low: nat)
      requires Valid() && i in mms && low / PAGE in mms[i].pages && from / PAGE in mms[i].pages && from / PAGE != low / PAGE
      requires mms[i].pages[low / PAGE].present && !mms[i].pages[low / PAGE].guard
      requires !mms[i].pages[from / PAGE].present && mms[i].pages[from / PAGE].guard
      modifies this`mms
      ensures Valid() && i in mms && mms == old(mms)[i := mms[i]]
      ensures var m, g, l := old(mms)[i], from / PAGE, low / PAGE;
        mms[i] == m.(pages := m.pages[g := m.pages[g].(present := true, guard := false)][l := m.pages[l].(present := false, guard := true)],
                     guardPage := low)
    {
      hide Phys.Used, Frames, Tidy;
      SetGuard(i, from / PAGE, false);
      PlaceGuard(i, low);
    }

    /** vmm_create_user_mm: a user stack with a guard page below it. */
    method CreateUserMm(i: nat) returns (ok: bool)
      requires Valid() && i !in mms
      modifies Repr()
      ensures ok <==> old(pmm.FreeCount()) >= STACK_SIZE / PAGE + 2
      ensures ok ==> Valid() && i in mms && mms == old(mms)[i := mms[i]] && mms[i].framesUsed == STACK_SIZE / PAGE + 2
      ensures ok ==> StackOk(mms[i]) && mms[i].guardPage == STACK_START - STACK_SIZE - PAGE
      ensures ok ==> forall v :: v in mms[i].pages <==> InRange(mms[i].guardPage, USER_HIGH, v)
      ensures ok ==> Remapped(old(mms)[i := EmptyMm(kernelTables)], mms, old(pmm.memory), pmm.memory, i,
                              PagesOf(mms[i].guardPage, USER_HIGH), {}, {mms[i].guardPage / PAGE})
    {
      hide Phys.Used, Frames, Tidy, StackOk, InRange, Phys.FreeFrames, Remapped, PagesOf;
      var m := EmptyMm(kernelTables);
      EmptyTidy(m);
      FramesNew(mms, owner, pmm.Bitmap(), pmm.nframes, i, m);
      mms := mms[i := m];
      ok := FirstStack(i, STACK_START - (STACK_SIZE + PAGE));
      if ok {
        StackCount(mms[i], STACK_START - STACK_SIZE - PAGE);
        assert mms == old(mms)[i := mms[i]];
      }
    }

    /** The stack of a new address space: pages from low to the top of user space, the lowest a guard page. */
    method FirstStack(i: nat, low: nat) returns (ok: bool)
      requires Valid() && i in mms && mms[i] == EmptyMm(kernelTables)
      requires low % PAGE == 0 && STACK_START - STACK_SIZE_MAX <= low < STACK_START
      modifies Repr()
      ensures ok <==> old(pmm.FreeCount()) >= (USER_HIGH - low) / PAGE
      ensures ok ==> Valid() && i in mms && mms == old(mms)[i := mms[i]]
      ensures ok ==> StackOk(mms[i]) && mms[i].guardPage == low
      ensures ok ==> forall v :: v in mms[i].pages <==> InRange(low, USER_HIGH, v)
      ensures ok ==> Remapped(old(mms), mms, old(pmm.memory), pmm.memory, i, PagesOf(low, USER_HIGH), {}, {low / PAGE})
    {
      hide Phys.Used, Frames, Tidy, Added, Stretched, StackOk, FreshPte, InRange, Phys.FreeFrames, Unmapped, Stored,
        Remapped, PagesOf;
      UnmappedEmpty(mms[i], low, STACK_START + PAGE);
      ok := AllocUser(i, low, STACK_START + PAGE, true);
      if !ok {
        return;
      }
      ghost var mms1 := mms;
      AddedPresent(old(mms), mms, old(owner), owner, old(pmm.memory), pmm.memory, i, low, USER_HIGH, true, low / PAGE);
      RemapAdded(old(mms), mms, old(owner), owner, old(pmm.Bitmap()), pmm.nframes, old(pmm.memory), pmm.memory, i, low, USER_HIGH);
      PlaceGuard(i, low);
      StackMade(old(mms), mms1, old(owner), owner, old(pmm.memory), pmm.memory, i, low, mms[i]);
      FirstPage(low, USER_HIGH);
      RemapFirst(old(mms), mms1, mms, old(pmm.memory), pmm.memory, i, PagesOf(low, USER_HIGH), low / PAGE);
    }

    /** The loader records the initial break, where the image and the library's data end. */
    method SetBreak(i: nat, brk: nat)
      requires Valid() && i in mms && StackOk(mms[i])
      requires USER_LOW <= brk < BRK_LIMIT && brk % PAGE == 0
      requires Unmapped(mms[i], brk, mms[i].guardPage)
      modifies this`mms
      ensures Valid() && mms == old(mms)[i := old(mms)[i].(brkStart := brk, brk := brk, initialBrk := brk)]
      ensures Layout(mms[i])
    {
      hide Phys.Used, Frames, Tidy;
      var m := mms[i].(brkStart := brk, brk := brk, initialBrk := brk);
      FramesSame(mms, owner, pmm.Bitmap(), pmm.nframes, i, m);
      SameTidy(mms[i], m);
      mms := mms[i := m];
    }

    /**
     copy_argv_env_to_task: the arguments go to new pages at the break, and the heap starts after them.  The
     initial break stays behind, so from then on it lies below the start of the heap.
     */
    method CopyArguments(i: nat, bytes: nat) returns (ok: bool)
      requires Valid() && i in mms && Layout(mms[i]) && mms[i].brkStart == mms[i].brk && 0 < bytes
      modifies Repr()
      ensures var m := old(mms)[i];
        ok <==> m.brk + RoundUp(bytes) <= m.guardPage && old(pmm.FreeCount()) >= RoundUp(bytes) / PAGE
      ensures ok ==> Valid() && i in mms && mms == old(mms)[i := mms[i]]
      ensures ok ==> mms[i].brkStart == mms[i].brk == old(mms)[i].brk + RoundUp(bytes)
      ensures ok ==> pmm.FreeCount() == old(pmm.FreeCount()) - RoundUp(bytes) / PAGE
      ensures ok ==> SameLayout(old(mms)[i].(brk := mms[i].brk, brkStart := mms[i].brk), mms[i])
      ensures ok ==> (Layout(mms[i]) <==> old(mms)[i].brk + RoundUp(bytes) < BRK_LIMIT)
      ensures ok ==> Remapped(old(mms), mms, old(pmm.memory), pmm.memory, i, PagesOf(old(mms)[i].brk, mms[i].brk), {}, {})
    {
      hide Phys.Used, Frames, Tidy, Added, Stretched, Layout, Phys.FreeFrames, Unmapped, Stored, Remapped, PagesOf;
      LayoutFacts(mms[i]);
      var start := mms[i].brk;
      var size := bytes;
      if size % PAGE != 0 {
        size := size - size % PAGE + PAGE;
      }
      RoundUpFacts(bytes);
      GapEnds(mms[i], start + size);
      ok := AllocUser(i, start, start + size, true);
      if !ok {
        return;
      }
      ArgumentsCopied(old(mms), mms, old(owner), owner, old(pmm.memory), pmm.memory, i, start + size);
      RemapAdded(old(mms), mms, old(owner), owner, old(pmm.Bitmap()), pmm.nframes, old(pmm.memory), pmm.memory, i, start, start + size);
      ghost var mms1 := mms;
      MoveHeap(i, start + size);
      RemapFields(old(mms), mms1, mms, old(pmm.memory), pmm.memory, i, PagesOf(start, start + size), {}, {});
    }

    /** The end of elf_load: the state in which a program starts has the layout, with a heap that is still empty. */
    method FinishLoad(i: nat, brk: nat, argv: nat, envp: nat) returns (ok: bool)
      requires Valid() && i in mms && StackOk(mms[i]) && 0 < argv && 0 < envp
      requires USER_LOW <= brk && brk % PAGE == 0 && brk + RoundUp(argv) + RoundUp(envp) < BRK_LIMIT
      requires Unmapped(mms[i], brk, mms[i].guardPage)
      modifies Repr()
      ensures ok <==> old(pmm.FreeCount()) >= RoundUp(argv) / PAGE + RoundUp(envp) / PAGE
      ensures ok ==> Valid() && i in mms && Layout(mms[i]) && mms[i].initialBrk == brk
      ensures ok ==> mms[i].brkStart == mms[i].brk == brk + RoundUp(argv) + RoundUp(envp) > mms[i].initialBrk
      ensures ok ==> Remapped(old(mms), mms, old(pmm.memory), pmm.memory, i, PagesOf(brk, mms[i].brk), {}, {})
      ensures ok ==> SameLayout(old(mms)[i].(brk := mms[i].brk, brkStart := mms[i].brk, initialBrk := brk), mms[i])
    {
      hide Phys.Used, Frames, Tidy, Layout, Phys.FreeFrames, Unmapped, StackOk, Remapped, PagesOf;
      RoundUpFacts(argv);
      RoundUpFacts(envp);
      RemapNone(mms, owner, pmm.Bitmap(), pmm.nframes, pmm.memory, i);
      SetBreak(i, brk);
      RemapFields(old(mms), old(mms), mms, old(pmm.memory), pmm.memory, i, {}, {}, {});
      LayoutFacts(mms[i]);
      ghost var mms0 := mms;
      ok := CopyArguments(i, argv);
      if ok {
        LayoutFacts(mms[i]);
        ghost var mms1, memory1, brk1 := mms, pmm.memory, mms[i].brk;
        RemapMore(old(mms), mms0, mms1, old(pmm.memory), old(pmm.memory), memory1, i, {}, PagesOf(brk, brk1));
        ok := CopyArguments(i, envp);
        if ok {
          RemapMore(old(mms), mms1, mms, old(pmm.memory), memory1, pmm.memory, i, {} + PagesOf(brk, brk1), PagesOf(brk1, mms[i].brk));
          PagesOfJoin(brk, brk1, mms[i].brk);
          assert {} + PagesOf(brk, brk1) + PagesOf(brk1, mms[i].brk) == PagesOf(brk, mms[i].brk);
        }
      }
    }

    /** The heap starts, empty, at the new break. */
    method MoveHeap(i: nat, brk: nat)
      requires Valid() && i in mms
      modifies this`mms
      ensures Valid() && mms == old(mms)[i := old(mms)[i].(brk := brk, brkStart := brk)]
    {
      hide Phys.Used, Frames, Tidy;
      var m := mms[i].(brk := brk, brkStart := brk);
      FramesSame(mms, owner, pmm.Bitmap(), pmm.nframes, i, m);
      SameTidy(mms[i], m);
      mms := mms[i := m];
    }

    method MoveBreak(i: nat, brk: nat)
      requires Valid() && i in mms
      modifies this`mms
      ensures Valid() && mms == old(mms)[i := old(mms)[i].(brk := brk)]
    {
      hide Phys.Used, Frames, Tidy;
      var m := mms[i].(brk := brk);
      FramesSame(mms, owner, pmm.Bitmap(), pmm.nframes, i, m);
      SameTidy(mms[i], m);
      mms := mms[i := m];
    }

    /**
     sbrk, with its 32-bit sums.  ok is false where the kernel panics.  A call that goes through keeps the
     layout of heap and stack exactly when its delta is Harmless.
     */
    method Sbrk(i: nat, delta: int) returns (ok: bool, prev: nat)
      requires Valid() && i in mms && Layout(mms[i]) && -0x8000_0000 <= delta < 0x8000_0000
      modifies Repr()
      ensures ok ==> Valid() && i in mms && mms == old(mms)[i := mms[i]] && prev == old(mms)[i].brk
      ensures ok ==> mms[i].brk == NewBreak(old(mms)[i].brk, delta)
      ensures ok ==> SameLayout(old(mms)[i].(brk := mms[i].brk), mms[i])
      ensures ok ==> (Layout(mms[i]) <==> Harmless(old(mms)[i], delta))
      ensures delta <= -(PAGE as int) ==>
        (ok <==> Shrinkable(old(mms)[i], NewBreak(old(mms)[i].brk, delta), old(pmm.FreeCount())))
      ensures delta > 0 ==> (ok <==> Growable(old(mms)[i], NewBreak(old(mms)[i].brk, delta), old(pmm.FreeCount())))
      ensures -(PAGE as int) < delta <= 0 ==> ok
      ensures ok ==> Remapped(old(mms), mms, old(pmm.memory), pmm.memory, i,
                              SbrkAdded(old(mms)[i], delta), SbrkGone(old(mms)[i], delta), {})
    {
      hide Phys.Used, Frames, Tidy, Layout, Phys.FreeFrames, Growable, Shrinkable, Remapped, SbrkAdded, SbrkGone;
      prev := mms[i].brk;
      LayoutFacts(mms[i]);
      RemapNone(mms, owner, pmm.Bitmap(), pmm.nframes, pmm.memory, i);
      NothingMoved(mms[i], delta);
      if delta == 0 {
        return true, prev;
      }
      if delta > 0 {
        ok := GrowHeap(i, delta);
      } else if -delta < PAGE {
        ok := true;
      } else {
        ok := ShrinkHeap(i, -delta);
      }
    }

    /** The growing part of sbrk. */
    method GrowHeap(i: nat, delta: nat) returns (ok: bool)
      requires Valid() && i in mms && Layout(mms[i]) && 0 < delta < 0x8000_0000
      modifies Repr()
      ensures ok ==> Valid() && i in mms && mms == old(mms)[i := mms[i]] && Layout(mms[i])
      ensures ok ==> mms[i].brk == NewBreak(old(mms)[i].brk, delta)
      ensures ok ==> SameLayout(old(mms)[i].(brk := mms[i].brk), mms[i])
      ensures ok <==> Growable(old(mms)[i], NewBreak(old(mms)[i].brk, delta), old(pmm.FreeCount()))
      ensures ok ==> Remapped(old(mms), mms, old(pmm.memory), pmm.memory, i,
                              SbrkAdded(old(mms)[i], delta), SbrkGone(old(mms)[i], delta), {})
    {
      hide Phys.Used, Frames, Tidy, Added, Stretched, Layout, Phys.FreeFrames, Unmapped, Remapped, PagesOf;
      LayoutFacts(mms[i]);
      var prev := mms[i].brk;
      var newEnd := Phys.U32(prev + delta);
      if newEnd % PAGE != 0 {
        newEnd := Phys.U32(newEnd - newEnd % PAGE + PAGE);
      }
      GrowBreak(prev, delta);
      if newEnd >= BRK_LIMIT || newEnd <= prev {
        return false;
      }
      GapUnmapped(mms[i], prev, newEnd);
      ok := AllocUser(i, prev, newEnd, true);
      if !ok {
        return;
      }
      SbrkGrown(old(mms), mms, old(owner), owner, old(pmm.memory), pmm.memory, i, newEnd);
      RemapAdded(old(mms), mms, old(owner), owner, old(pmm.Bitmap()), pmm.nframes, old(pmm.memory), pmm.memory, i, prev, newEnd);
      ghost var mms1 := mms;
      MoveBreak(i, newEnd);
      RemapFields(old(mms), mms1, mms, old(pmm.memory), pmm.memory, i, PagesOf(prev, newEnd), {}, {});
    }

    /** The shrinking part of sbrk, for at least a page. */
    method ShrinkHeap(i: nat, bytes: int) returns (ok: bool)
      requires Valid() && i in mms && Layout(mms[i]) && PAGE <= bytes <= 0x8000_0000
      modifies Repr()
      ensures ok ==> Valid() && i in mms && mms == old(mms)[i := mms[i]]
      ensures ok ==> mms[i].brk == NewBreak(old(mms)[i].brk, -bytes)
      ensures ok ==> SameLayout(old(mms)[i].(brk := mms[i].brk), mms[i])
      ensures ok ==> (Layout(mms[i]) <==> Harmless(old(mms)[i], -bytes))
      ensures ok <==> Shrinkable(old(mms)[i], NewBreak(old(mms)[i].brk, -bytes), old(pmm.FreeCount()))
      ensures ok ==> Remapped(old(mms), mms, old(pmm.memory), pmm.memory, i,
                              SbrkAdded(old(mms)[i], -bytes), SbrkGone(old(mms)[i], -bytes), {})
    {
      hide Phys.Used, Frames, Tidy, Added, Removed, Stretched, Layout, PagesOf, Phys.FreeFrames, Unmapped, Stored,
        Containing, Resizable, Shrinkable, GrowthMeets, Remapped, SbrkAdded, SbrkGone;
      LayoutFacts(mms[i]);
      var prev := mms[i].brk;
      var decr := bytes - bytes % PAGE;
      var newEnd := Phys.U32(prev - decr);
      DecreasedBreak(prev, bytes);
      if newEnd < mms[i].initialBrk || newEnd < mms[i].brkStart + PAGE {
        NotShrinkable(mms[i], newEnd, pmm.FreeCount());
        return false;
      }
      WhenShrinkable(mms[i], newEnd, pmm.FreeCount());
      ok := ResizeArea(i, mms[i].brkStart, newEnd);
      if !ok {
        return;
      }
      ResizedHeap(old(mms), mms, old(owner), owner, old(pmm.memory), pmm.memory, old(pmm.Bitmap()), pmm.Bitmap(), i, newEnd, old(pmm.FreeCount()));
      RemapResized(old(mms), mms, old(owner), owner, old(pmm.memory), pmm.memory, old(pmm.Bitmap()), pmm.Bitmap(), pmm.nframes,
                   i, newEnd, old(pmm.FreeCount()), bytes);
      ghost var mms1 := mms;
      MoveBreak(i, newEnd);
      RemapFields(old(mms), mms1, mms, old(pmm.memory), pmm.memory, i,
                  SbrkAdded(old(mms)[i], -bytes), SbrkGone(old(mms)[i], -bytes), {});
    }

    /**
     The part of page_fault_handler that grows the user stack; ok is false where the handler panics.
     */
    method GrowStack(i: nat, fault: nat) returns (ok: bool)
      requires Valid() && i in mms && Layout(mms[i])
      modifies Repr()
      ensures ok <==>
        && old(mms)[i].guardPage <= fault <= old(mms)[i].guardPage + PAGE
        && STACK_START - old(mms)[i].guardPage - PAGE + STACK_GROW < STACK_SIZE_MAX
        && old(pmm.FreeCount()) >= STACK_GROW / PAGE
      ensures ok ==> Valid() && i in mms && mms == old(mms)[i := mms[i]] && Layout(mms[i])
      ensures ok ==> mms[i].guardPage == old(mms)[i].guardPage - STACK_GROW && SameLayout(old(mms)[i].(guardPage := mms[i].guardPage), mms[i])
      ensures ok ==> GuardMoved(old(mms)[i], mms[i])
      ensures ok ==> old(mms)[i].guardPage <= fault <= old(mms)[i].guardPage + PAGE
      ensures ok ==> STACK_START - mms[i].guardPage - PAGE < STACK_SIZE_MAX
      ensures ok ==> Remapped(old(mms), mms, old(pmm.memory), pmm.memory, i,
                              PagesOf(mms[i].guardPage, old(mms)[i].guardPage), {}, {old(mms)[i].guardPage / PAGE, mms[i].guardPage / PAGE})
    {
      hide Phys.Used, Frames, Tidy, Layout, Phys.FreeFrames, Remapped, PagesOf, GuardMoved;
      LayoutFacts(mms[i]);
      var guard := mms[i].guardPage;
      if !(guard <= fault <= guard + PAGE) {
        return false;
      }
      var oldSize := STACK_START - guard - PAGE;
      var newSize := oldSize + STACK_GROW;
      if newSize >= STACK_SIZE_MAX {
        return false;
      }
      ok := ExtendStack(i, STACK_START - (newSize + PAGE));
    }

    /** The stack gets pages from low on, and the guard page moves there. */
    method ExtendStack(i: nat, low: nat) returns (ok: bool)
      requires Valid() && i in mms && Layout(mms[i]) && low % PAGE == 0 && BRK_LIMIT <= low < mms[i].guardPage
      modifies Repr()
      ensures ok <==> old(pmm.FreeCount()) >= (old(mms)[i].guardPage - low) / PAGE
      ensures ok ==> Valid() && i in mms && mms == old(mms)[i := mms[i]] && Layout(mms[i])
      ensures ok ==> mms[i].guardPage == low && SameLayout(old(mms)[i].(guardPage := low), mms[i])
      ensures ok ==> GuardMoved(old(mms)[i], mms[i])
      ensures ok ==> Remapped(old(mms), mms, old(pmm.memory), pmm.memory, i,
                              PagesOf(low, old(mms)[i].guardPage), {}, {old(mms)[i].guardPage / PAGE, low / PAGE})
    {
      hide Phys.Used, Frames, Tidy, Added, Stretched, Layout, InRange, Phys.FreeFrames, Unmapped, Remapped, PagesOf, Stored;
      LayoutFacts(mms[i]);
      var guard := mms[i].guardPage;
      GapUnmapped(mms[i], low, guard);
      ok := AllocUser(i, low, guard, true);
      if !ok {
        return;
      }
      ghost var mms1 := mms;
      StackGrown(old(mms), mms, old(owner), owner, old(pmm.memory), pmm.memory, i, low);
      RemapAdded(old(mms), mms, old(owner), owner, old(pmm.Bitmap()), pmm.nframes, old(pmm.memory), pmm.memory, i, low, guard);
      MoveGuard(i, guard, low);
      FirstPage(low, guard);
      RemapGuard(old(mms), mms1, mms, old(pmm.memory), pmm.memory, i, PagesOf(low, guard), guard / PAGE, low / PAGE);
    }
  }

  function EmptyMm(kernel: Tables): Mm { Mm([], map[], 0, 0, 0, 0, 0, kernel) }

  /** The page that was the guard page is an ordinary one, and the new guard page is one. */
  ghost predicate GuardMoved(m: Mm, m': Mm) {
    var g, l := m.guardPage / PAGE, m'.guardPage / PAGE;
    && g in m'.pages && m'.pages[g].present && !m'.pages[g].guard
    && l in m'.pages && m'.pages[l].guard && !m'.pages[l].present
  }

  function RoundUp(bytes: nat): nat { (bytes + PAGE - 1) / PAGE * PAGE }

  lemma RoundUpFacts(bytes: nat)
    ensures RoundUp(bytes) % PAGE == 0 && bytes <= RoundUp(bytes) < bytes + PAGE
    ensures RoundUp(bytes) == if bytes % PAGE != 0 then bytes - bytes % PAGE + PAGE else bytes
  {
  }

  /** Where sbrk puts the break: rounded up on growth; on a decrease whole pages, modulo 2^32. */
  function NewBreak(brk: nat, delta: int): int {
    if delta >= 0 then RoundUp(brk + delta) else Phys.U32(brk - (-delta) / PAGE * PAGE)
  }

  /**
   A decrease that is not larger than the break; or one that wraps around, in a task with a heap, to an
   address below the limit, which then grows the heap.
   */
  predicate Harmless(m: Mm, delta: int) {
    delta >= 0 || (-delta) / PAGE * PAGE <= m.brk || (m.brkStart < m.brk && NewBreak(m.brk, delta) < BRK_LIMIT)
  }

  /** Heap below, stack above, nothing mapped between the break and the guard page. */
  ghost predicate Layout(m: Mm) {
    && m.brkStart % PAGE == 0 && m.initialBrk % PAGE == 0 && m.brk % PAGE == 0
    && USER_LOW <= m.brkStart <= m.brk < BRK_LIMIT && m.initialBrk <= m.brk
    && (m.brkStart < m.brk ==> InOneArea(m.areas, m.brkStart, m.brk, true))
    && StackOk(m)
    && (forall v :: InRange(m.brk, m.guardPage, v) ==> v !in m.pages)
  }

  lemma LayoutFacts(m: Mm)
    requires Layout(m) && Tidy(m)
    ensures USER_LOW <= m.brkStart <= m.brk < BRK_LIMIT <= m.guardPage < STACK_START && m.initialBrk <= m.brk
    ensures m.brk % PAGE == 0 && m.brkStart % PAGE == 0 && m.guardPage % PAGE == 0
    ensures m.guardPage / PAGE in m.pages && m.pages[m.guardPage / PAGE].guard && !m.pages[m.guardPage / PAGE].present
  {
    var k :| 0 <= k < |m.areas| && m.areas[k].start <= m.guardPage && USER_HIGH <= m.areas[k].end && m.areas[k].writable;
    assert InRange(m.areas[k].start, m.areas[k].end, m.guardPage / PAGE);
    assert CoveredAs(m.areas, m.guardPage / PAGE, true);
    assert InRange(m.guardPage, USER_HIGH, m.guardPage / PAGE);
  }

  lemma GrowBreak(brk: nat, delta: int)
    requires brk % PAGE == 0 && brk < BRK_LIMIT && 0 < delta < 0x8000_0000
    ensures var e := Phys.U32(brk + delta);
      var newEnd := if e % PAGE != 0 then Phys.U32(e - e % PAGE + PAGE) else e;
      && newEnd % PAGE == 0 && (brk < newEnd ==> newEnd == NewBreak(brk, delta))
      && (brk < newEnd < BRK_LIMIT <==> NewBreak(brk, delta) < BRK_LIMIT)
    ensures brk <= NewBreak(brk, delta)
  {
    Wrapped(brk + delta);
    var e := Phys.U32(brk + delta);
    RoundUpFacts(brk + delta);
    RoundUpFacts(e);
    Wrapped(RoundUp(e));
    if brk + delta >= 0x1_0000_0000 {
      PagesBelow(RoundUp(e), brk);
    }
    hide RoundUp, Phys.U32;
  }

  lemma Wrapped(x: nat)
    requires x < 0x2_0000_0000
    ensures Phys.U32(x) == if x < 0x1_0000_0000 then x else x - 0x1_0000_0000
  {
  }

  lemma PagesBelow(x: nat, y: nat)
    requires x % PAGE == 0 && y % PAGE == 0 && x < y + PAGE
    ensures x <= y
  {
  }

  /** An area that reaches an unmapped page ends there. */
  lemma EndsAt(m: Mm, k: nat, x: nat)
    requires Tidy(m) && k < |m.areas| && x % PAGE == 0 && m.areas[k].start < x && x / PAGE !in m.pages
    ensures m.areas[k].end <= x
  {
    if x < m.areas[k].end {
      assert InRange(m.areas[k].start, m.areas[k].end, x / PAGE);
      assert CoveredAs(m.areas, x / PAGE, m.areas[k].writable);
    }
  }

  /**
   A decrease may put the break at newEnd: not below its initial value, and one heap page must stay.  After a
   wrap-around newEnd lies above the break: with a heap that is growth up to the stack, without one nothing is
   mapped, and only an area that ends there stops it.
   */
  ghost predicate Shrinkable(m: Mm, newEnd: int, free: nat) {
    && m.initialBrk <= newEnd && m.brkStart + PAGE <= newEnd
    && (newEnd > m.brk ==>
          if m.brkStart < m.brk then newEnd <= m.guardPage && free >= (newEnd - m.brk) / PAGE
          else forall k :: 0 <= k < |m.areas| ==> m.areas[k].end != newEnd)
  }

  lemma DecreasedBreak(brk: nat, bytes: int)
    requires brk % PAGE == 0 && USER_LOW <= brk < BRK_LIMIT && PAGE <= bytes <= 0x8000_0000
    ensures var newEnd := Phys.U32(brk - (bytes - bytes % PAGE));
      && newEnd == NewBreak(brk, -bytes) && newEnd % PAGE == 0 && newEnd != brk
      && (newEnd < brk <==> bytes / PAGE * PAGE <= brk)
  {
  }

  lemma NotShrinkable(m: Mm, newEnd: nat, free: nat)
    requires newEnd < m.initialBrk || newEnd < m.brkStart + PAGE
    ensures !Shrinkable(m, newEnd, free)
  {
  }

  /** What vmm_resize_area finds when sbrk calls it. */
  lemma WhenShrinkable(m: Mm, newEnd: nat, free: nat)
    requires Layout(m) && Tidy(m) && newEnd % PAGE == 0 && newEnd != m.brk
    requires m.initialBrk <= newEnd && m.brkStart + PAGE <= newEnd
    ensures GrowthMeets(m, m.brkStart, newEnd)
    ensures Resizable(m, m.brkStart, newEnd, free) <==> Shrinkable(m, newEnd, free)
  {
    hide Unmapped, Tidy, Layout, Containing;
    LayoutFacts(m);
    if newEnd < m.brk {
      SbrkShrinkable(m, newEnd, free);
    } else if m.brkStart < m.brk {
      var k := HeapArea(m);
      TidyAreas(m);
      ContainingOnly(m.areas, m.brkStart, k);
      GapEnds(m, newEnd);
    } else {
      NotContained(m);
    }
  }

  /** Between the break and the guard page nothing is mapped, and so no area ends there; the guard page is mapped. */
  lemma GapEnds(m: Mm, newEnd: nat)
    requires Layout(m) && Tidy(m) && m.brk < newEnd && newEnd % PAGE == 0
    ensures Unmapped(m, m.brk, newEnd) <==> newEnd <= m.guardPage
    ensures !Unmapped(m, m.brk, USER_HIGH)
    ensures newEnd <= m.guardPage ==> forall k :: 0 <= k < |m.areas| ==> m.areas[k].end != newEnd
  {
    LayoutFacts(m);
    var g := m.guardPage / PAGE;
    assert InRange(m.brk, USER_HIGH, g);
    if newEnd <= m.guardPage {
      GapUnmapped(m, m.brk, newEnd);
      GapPage(m, newEnd - PAGE);
      NoAreaEndsAt(m, newEnd);
    } else {
      assert InRange(m.brk, newEnd, g);
    }
  }

  lemma NotContained(m: Mm)
    requires Layout(m) && Tidy(m) && m.brkStart == m.brk
    ensures Containing(m.areas, m.brkStart) == |m.areas|
  {
    LayoutFacts(m);
    GapPage(m, m.brk);
    forall j | 0 <= j < |m.areas|
      ensures !(m.areas[j].start <= m.brk < m.areas[j].end)
    {
      PageAt(m.areas[j], m.brk);
      Covers(m.areas, j, m.brk / PAGE);
    }
    ContainingIs(m.areas, m.brk, |m.areas|);
  }

  lemma ArgumentsCopied(mms: map<nat, Mm>, mms': map<nat, Mm>, owner: Owners, owner': Owners, memory: Memory, memory': Memory,
                        i: nat, end: nat)
    requires i in mms && Layout(mms[i]) && Tidy(mms[i]) && mms[i].brkStart == mms[i].brk < end && end % PAGE == 0
    requires Added(mms, mms', owner, owner', memory, memory', i, mms[i].brk, end, true)
    requires Stretched(mms[i].areas, mms'[i].areas, mms[i].brk, end, true) && SameLayout(mms[i], mms'[i])
    ensures mms' == mms[i := mms'[i]]
    ensures Layout(mms'[i].(brk := end, brkStart := end)) <==> end < BRK_LIMIT
  {
    hide Added, Stretched, Tidy;
    if end < BRK_LIMIT {
      SbrkGrown(mms, mms', owner, owner', memory, memory', i, end);
    } else {
      AddedOnlyThere(mms, mms', owner, owner', memory, memory', i, mms[i].brk, end, true);
    }
  }

  lemma BrokenAbove(m: Mm)
    requires m.brk >= BRK_LIMIT
    ensures !Layout(m)
  {
  }

  /** Moving the break of an empty heap up, with nothing mapped, breaks the layout. */
  lemma BrokenEmpty(m: Mm, newEnd: nat)
    requires Layout(m) && Tidy(m) && m.brkStart == m.brk < newEnd
    ensures !Layout(m.(brk := newEnd))
  {
    GapPage(m, m.brk);
    LayoutFacts(m);
    if InOneArea(m.areas, m.brkStart, newEnd, true) {
      var k :| 0 <= k < |m.areas| && m.areas[k].start <= m.brkStart && newEnd <= m.areas[k].end && m.areas[k].writable;
      PageAt(m.areas[k], m.brk);
      Covers(m.areas, k, m.brk / PAGE);
    }
  }

  lemma AddedOnlyThere(mms: map<nat, Mm>, mms': map<nat, Mm>, owner: Owners, owner': Owners, memory: Memory, memory': Memory,
                       i: nat, start: nat, end: nat, w: bool)
    requires Added(mms, mms', owner, owner', memory, memory', i, start, end, w)
    ensures mms' == mms[i := mms'[i]]
  {
  }

  /** A freshly loaded task that asks for a decrease of 0x7ffff000 gets its break moved up, with nothing mapped. */
  lemma WrappedDecrease(m: Mm)
    requires Layout(m) && Tidy(m) && m.brkStart == m.brk == 0x1001_2000 && m.initialBrk == 0x1001_0000
    ensures NewBreak(m.brk, -0x7fff_f000) == 0x9001_3000
    ensures Shrinkable(m, 0x9001_3000, 0) && !Layout(m.(brk := 0x9001_3000)) && !Harmless(m, -0x7fff_f000)
  {
    LayoutFacts(m);
    GapEnds(m, 0x9001_3000);
    BrokenEmpty(m, 0x9001_3000);
  }

  /** What the layout is after vmm_resize_area, with the break at newEnd. */
  lemma ResizedHeap(mms: map<nat, Mm>, mms': map<nat, Mm>, owner: Owners, owner': Owners, memory: Memory, memory': Memory,
                    bitmap: seq<bv32>, bitmap': seq<bv32>, i: nat, newEnd: nat, free: nat)
    requires i in mms && i in mms' && Layout(mms[i]) && Tidy(mms[i]) && newEnd % PAGE == 0 && newEnd != mms[i].brk
    requires Shrinkable(mms[i], newEnd, free) && SameLayout(mms[i], mms'[i])
    requires var m := mms[i]; var at := Containing(m.areas, m.brkStart);
      if at == |m.areas| then mms' == mms
      else if newEnd > m.areas[at].end then
        && Added(mms, mms', owner, owner', memory, memory', i, m.areas[at].end, newEnd, m.areas[at].writable)
        && Stretched(m.areas, mms'[i].areas, m.areas[at].end, newEnd, m.areas[at].writable)
      else
        && Removed(mms, mms', owner, owner', bitmap, bitmap', i, PagesOf(newEnd, m.areas[at].end))
        && mms'[i].areas == m.areas[at := m.areas[at].(end := newEnd)]
    ensures mms' == mms[i := mms'[i]]
    ensures Layout(mms'[i].(brk := newEnd)) <==>
      newEnd < mms[i].brk || (mms[i].brkStart < mms[i].brk && newEnd < BRK_LIMIT)
  {
    hide Phys.Used, Tidy, Added, Removed, Stretched, PagesOf, Layout, Containing;
    var m := mms[i];
    LayoutFacts(m);
    if newEnd < m.brk {
      SbrkShrunk(mms, mms', owner, owner', bitmap, bitmap', i, newEnd);
    } else if m.brkStart < m.brk {
      var k := HeapArea(m);
      TidyAreas(m);
      ContainingOnly(m.areas, m.brkStart, k);
      if newEnd < BRK_LIMIT {
        SbrkGrown(mms, mms', owner, owner', memory, memory', i, newEnd);
      } else {
        AddedOnlyThere(mms, mms', owner, owner', memory, memory', i, m.brk, newEnd, true);
        BrokenAbove(mms'[i].(brk := newEnd));
      }
    } else {
      NotContained(m);
      BrokenEmpty(m, newEnd);
    }
  }

  /** The break may go up to newEnd: below the stack's largest extent, and with frames for the new pages. */
  ghost predicate Growable(m: Mm, newEnd: int, free: nat) {
    newEnd < BRK_LIMIT && m.brk <= newEnd && free >= (newEnd - m.brk) / PAGE
  }

  lemma GapUnmapped(m: Mm, start: nat, end: nat)
    requires Layout(m) && m.brk <= start && end <= m.guardPage
    ensures Unmapped(m, start, end)
  {
    forall v | InRange(start, end, v)
      ensures v !in m.pages
    {
      assert InRange(m.brk, m.guardPage, v);
    }
  }

  lemma UnmappedEmpty(m: Mm, start: nat, end: nat)
    requires m.pages == map[]
    ensures Unmapped(m, start, end)
  {
  }

  /** The heap is one area, and it ends at the break. */
  lemma HeapArea(m: Mm) returns (k: nat)
    requires Layout(m) && Tidy(m) && m.brkStart < m.brk
    ensures k < |m.areas| && m.areas[k].start <= m.brkStart && m.areas[k].end == m.brk && m.areas[k].writable
  {
    k :| 0 <= k < |m.areas| && m.areas[k].start <= m.brkStart && m.brk <= m.areas[k].end && m.areas[k].writable;
    GapPage(m, m.brk);
    EndsAt(m, k, m.brk);
  }

  lemma GapPage(m: Mm, x: nat)
    requires Layout(m) && x % PAGE == 0 && m.brk <= x < m.guardPage
    ensures x / PAGE !in m.pages
  {
    assert InRange(m.brk, m.guardPage, x / PAGE);
  }

  lemma NoAreaStartsAt(m: Mm, x: nat)
    requires Tidy(m) && x % PAGE == 0 && x / PAGE !in m.pages
    ensures forall k :: 0 <= k < |m.areas| ==> m.areas[k].start != x
  {
    forall k | 0 <= k < |m.areas| ensures m.areas[k].start != x {
      assert AreaOk(m.areas[k]);
      if m.areas[k].start == x {
        assert InRange(m.areas[k].start, m.areas[k].end, x / PAGE);
        assert CoveredAs(m.areas, x / PAGE, m.areas[k].writable);
      }
    }
  }

  lemma NoAreaEndsAt(m: Mm, x: nat)
    requires Tidy(m) && x % PAGE == 0 && PAGE <= x && x / PAGE - 1 !in m.pages
    ensures forall k :: 0 <= k < |m.areas| ==> m.areas[k].end != x
  {
    forall k | 0 <= k < |m.areas| ensures m.areas[k].end != x {
      assert AreaOk(m.areas[k]);
      if m.areas[k].end == x {
        assert InRange(m.areas[k].start, m.areas[k].end, x / PAGE - 1);
        assert CoveredAs(m.areas, x / PAGE - 1, m.areas[k].writable);
      }
    }
  }

  /** A range inside one area stays inside one area when another range is stored. */
  lemma StretchedKeeps(areas: seq<Area>, r: seq<Area>, start: nat, end: nat, w: bool, lo: nat, hi: nat, u: bool)
    requires Stretched(areas, r, start, end, w) && InOneArea(areas, lo, hi, u)
    ensures InOneArea(r, lo, hi, u)
  {
    var k :| 0 <= k < |areas| && areas[k].start <= lo && hi <= areas[k].end && areas[k].writable == u;
    assert r[k].start <= lo && hi <= r[k].end && r[k].writable == u;
  }

  lemma SbrkGrown(mms: map<nat, Mm>, mms': map<nat, Mm>, owner: Owners, owner': Owners, memory: Memory, memory': Memory, i: nat, newEnd: nat)
    requires i in mms && Layout(mms[i]) && Tidy(mms[i]) && mms[i].brk < newEnd < BRK_LIMIT && newEnd % PAGE == 0
    requires Added(mms, mms', owner, owner', memory, memory', i, mms[i].brk, newEnd, true)
    requires Stretched(mms[i].areas, mms'[i].areas, mms[i].brk, newEnd, true) && SameLayout(mms[i], mms'[i])
    ensures mms' == mms[i := mms'[i]] && Layout(mms'[i].(brk := newEnd))
  {
    hide Tidy, CoveredAs;
    var m, m' := mms[i], mms'[i].(brk := newEnd);
    GapPage(m, newEnd);
    NoAreaStartsAt(m, newEnd);
    if m.brkStart < m.brk {
      var k := HeapArea(m);
      assert m'.areas[k].end == newEnd && m'.areas[k].start <= m.brkStart && m'.areas[k].writable;
    }
    StretchedKeeps(m.areas, m'.areas, m.brk, newEnd, true, m.guardPage, USER_HIGH, true);
    hide InOneArea;
    forall v | InRange(m.guardPage, USER_HIGH, v) && v in m'.pages ensures m'.pages[v].guard <==> v == m'.guardPage / PAGE {
      assert v in m.pages;
    }
  }

  lemma SbrkShrinkable(m: Mm, newEnd: nat, free: nat)
    requires Layout(m) && Tidy(m) && m.brkStart + PAGE <= newEnd < m.brk && newEnd % PAGE == 0
    ensures Resizable(m, m.brkStart, newEnd, free) && GrowthMeets(m, m.brkStart, newEnd)
  {
    var k := HeapArea(m);
    ContainingOnly(m.areas, m.brkStart, k);
    forall j | 0 <= j < |m.areas| ensures m.areas[j].end != newEnd {
      ApartPair(m.areas, j, k);
      PageBefore(m.areas[j], newEnd);
      PageBefore(m.areas[k], newEnd);
      CoveredOnce(m.areas, newEnd / PAGE - 1, j, k);
    }
  }

  lemma SbrkShrunk(mms: map<nat, Mm>, mms': map<nat, Mm>, owner: Owners, owner': Owners, bitmap: seq<bv32>, bitmap': seq<bv32>,
                   i: nat, newEnd: nat)
    requires i in mms && i in mms' && Layout(mms[i]) && Tidy(mms[i]) && newEnd % PAGE == 0
    requires mms[i].initialBrk <= newEnd && mms[i].brkStart + PAGE <= newEnd < mms[i].brk && SameLayout(mms[i], mms'[i])
    requires var m := mms[i]; var at := Containing(m.areas, m.brkStart);
      at < |m.areas| && newEnd < m.areas[at].end ==>
        && Removed(mms, mms', owner, owner', bitmap, bitmap', i, PagesOf(newEnd, m.areas[at].end))
        && mms'[i].areas == m.areas[at := m.areas[at].(end := newEnd)]
    ensures mms' == mms[i := mms'[i]] && Layout(mms'[i].(brk := newEnd))
  {
    hide Phys.Used;
    var m, m' := mms[i], mms'[i].(brk := newEnd);
    var k := HeapArea(m);
    ContainingOnly(m.areas, m.brkStart, k);
    SbrkShrunkLayout(m, m', k, newEnd);
  }

  lemma SbrkShrunkLayout(m: Mm, m': Mm, k: nat, newEnd: nat)
    requires Layout(m) && Tidy(m) && newEnd % PAGE == 0 && m.initialBrk <= newEnd && m.brkStart + PAGE <= newEnd < m.brk
    requires k < |m.areas| && m.areas[k].start <= m.brkStart && m.areas[k].end == m.brk && m.areas[k].writable
    requires m'.areas == m.areas[k := m.areas[k].(end := newEnd)] && m'.pages == m.pages - PagesOf(newEnd, m.brk)
    requires m' == m.(areas := m'.areas, pages := m'.pages, framesUsed := m'.framesUsed, brk := newEnd)
    ensures Layout(m')
  {
    hide Tidy, CoveredAs;
    assert m'.areas[k].start <= m.brkStart && newEnd <= m'.areas[k].end;
    var s :| 0 <= s < |m.areas| && m.areas[s].start <= m.guardPage && USER_HIGH <= m.areas[s].end && m.areas[s].writable;
    assert s != k && m'.areas[s] == m.areas[s];
    assert InOneArea(m'.areas, m.guardPage, USER_HIGH, true);
  }

  lemma StackGrown(mms: map<nat, Mm>, mms': map<nat, Mm>, owner: Owners, owner': Owners, memory: Memory, memory': Memory, i: nat, low: nat)
    requires i in mms && Layout(mms[i]) && Tidy(mms[i]) && low % PAGE == 0 && BRK_LIMIT <= low < mms[i].guardPage
    requires Added(mms, mms', owner, owner', memory, memory', i, low, mms[i].guardPage, true)
    requires Stretched(mms[i].areas, mms'[i].areas, low, mms[i].guardPage, true) && SameLayout(mms[i], mms'[i])
    ensures mms' == mms[i := mms'[i]]
    ensures var g, l, m' := mms[i].guardPage / PAGE, low / PAGE, mms'[i];
      && g in m'.pages && m'.pages[g].guard && !m'.pages[g].present && g != l
      && l in m'.pages && m'.pages[l].present && !m'.pages[l].guard
      && Layout(m'.(pages := m'.pages[g := m'.pages[g].(present := true, guard := false)][l := m'.pages[l].(present := false, guard := true)],
                    guardPage := low))
  {
    LayoutFacts(mms[i]);
    hide Tidy, CoveredAs;
    var m, m1 := mms[i], mms'[i];
    var g, l := m.guardPage / PAGE, low / PAGE;
    GapPage(m, low - PAGE);
    NoAreaEndsAt(m, low);
    GapPage(m, low);
    StackAreaGrown(m, low, m1.areas);
    if m.brkStart < m.brk {
      StretchedKeeps(m.areas, m1.areas, low, m.guardPage, true, m.brkStart, m.brk, true);
    }
    hide InOneArea, Stretched;
    assert InRange(low, m.guardPage, l);
    StackGuards(m, m1, g, l, low);
  }

  /** The stack is one area, and it starts at the guard page. */
  lemma StackArea(m: Mm) returns (k: nat)
    requires Layout(m) && Tidy(m)
    ensures k < |m.areas| && m.areas[k].start == m.guardPage && USER_HIGH <= m.areas[k].end && m.areas[k].writable
  {
    k :| 0 <= k < |m.areas| && m.areas[k].start <= m.guardPage && USER_HIGH <= m.areas[k].end && m.areas[k].writable;
    GapPage(m, m.guardPage - PAGE);
    assert AreaOk(m.areas[k]);
    PageBefore(m.areas[k], m.guardPage);
    Covers(m.areas, k, m.guardPage / PAGE - 1);
  }

  /** Storing the range just below the stack makes the stack area start there. */
  lemma StackAreaGrown(m: Mm, low: nat, r: seq<Area>)
    requires Layout(m) && Tidy(m) && Stretched(m.areas, r, low, m.guardPage, true)
    requires forall k :: 0 <= k < |m.areas| ==> m.areas[k].end != low
    ensures InOneArea(r, low, USER_HIGH, true)
  {
    hide Layout, Tidy;
    var k := StackArea(m);
    assert r[k].start == low && USER_HIGH <= r[k].end && r[k].writable;
  }

  lemma StackGuards(m: Mm, m1: Mm, g: nat, l: nat, low: nat)
    requires Layout(m) && low % PAGE == 0 && BRK_LIMIT <= low < m.guardPage && g == m.guardPage / PAGE && l == low / PAGE
    requires PagesAdded(m.pages, m1.pages, low, m.guardPage, true) && l !in m.pages && l in m1.pages && g in m.pages
    ensures g in m1.pages && g != l
    ensures var pages := m1.pages[g := m1.pages[g].(present := true, guard := false)][l := m1.pages[l].(present := false, guard := true)];
      && (forall v :: InRange(low, USER_HIGH, v) && v in pages ==> (pages[v].guard <==> v == l))
      && (forall v :: InRange(m.brk, low, v) ==> v !in pages)
  {
    var pages := m1.pages[g := m1.pages[g].(present := true, guard := false)][l := m1.pages[l].(present := false, guard := true)];
    forall v: nat | InRange(low, USER_HIGH, v) && v in pages ensures pages[v].guard <==> v == l {
      if v != g && v != l {
        assert v in m.pages ==> InRange(m.guardPage, USER_HIGH, v) || InRange(m.brk, m.guardPage, v);
      }
    }
    forall v: nat | InRange(m.brk, low, v) ensures v !in pages {
      assert InRange(m.brk, m.guardPage, v);
    }
  }

  /** Up to the top of user space there is one writable area; its lowest page is its only guard page. */
  ghost predicate StackOk(m: Mm) {
    && m.guardPage % PAGE == 0 && STACK_START - STACK_SIZE_MAX <= m.guardPage < STACK_START
    && InOneArea(m.areas, m.guardPage, USER_HIGH, true)
    && (forall v :: InRange(m.guardPage, USER_HIGH, v) && v in m.pages ==> (m.pages[v].guard <==> v == m.guardPage / PAGE))
  }

  lemma GuardTidy(m: Mm, m': Mm, v: nat)
    requires Tidy(m) && v in m.pages
    requires m'.areas == m.areas && m'.framesUsed == m.framesUsed
    requires exists p: Pte :: p.writable == m.pages[v].writable && p.present != p.guard && m'.pages == m.pages[v := p]
    ensures Tidy(m')
  {
    hide CoveredAs;
    var p: Pte :| p.writable == m.pages[v].writable && p.present != p.guard && m'.pages == m.pages[v := p];
    assert m'.pages.Keys == m.pages.Keys;
  }

  lemma SameTidy(m: Mm, m': Mm)
    requires Tidy(m) && m'.areas == m.areas && m'.pages == m.pages && m'.framesUsed == m.framesUsed
    ensures Tidy(m')
  {
  }

  lemma EmptyTidy(m: Mm)
    requires m.areas == [] && m.pages == map[] && m.framesUsed == 0
    ensures Tidy(m)
  {
  }

  lemma FramesNew(mms: map<nat, Mm>, owner: Owners, bitmap: seq<bv32>, nframes: nat, i: nat, m: Mm)
    requires Frames(mms, owner, bitmap, nframes) && i !in mms && m.pages == map[]
    ensures Frames(mms[i := m], owner, bitmap, nframes)
  {
    hide Phys.Used;
    var mms' := mms[i := m];
    forall k: nat, u: nat, f: nat | Maps(mms', k, u, f) ensures f in owner && owner[f] == (k, u) {
      assert Maps(mms, k, u, f);
    }
    forall f | f in owner ensures 0 < f < nframes && InUse(bitmap, f) && Maps(mms', owner[f].0, owner[f].1, f) {
      assert Maps(mms, owner[f].0, owner[f].1, f);
    }
  }

  lemma StackCount(m: Mm, low: nat)
    requires Tidy(m) && low == STACK_START - STACK_SIZE - PAGE
    requires forall v :: v in m.pages <==> InRange(low, USER_HIGH, v)
    ensures m.framesUsed == STACK_SIZE / PAGE + 2
  {
    PagesOfCount(low, USER_HIGH);
    assert m.pages.Keys == PagesOf(low, USER_HIGH);
  }

  lemma {:induction false} PagesOfCount(lo: nat, hi: nat)
    requires lo <= hi && lo % PAGE == 0 && hi % PAGE == 0
    ensures |PagesOf(lo, hi)| == (hi - lo) / PAGE
    decreases hi
  {
    if lo == hi {
      PagesOfNone(lo);
    } else {
      PagesOfCount(lo, hi - PAGE);
      PagesOfNext(lo, hi - PAGE);
    }
  }

  /** The stack of a new task: its pages, with the lowest turned into a guard page. */
  lemma StackMade(mms: map<nat, Mm>, mms': map<nat, Mm>, owner: Owners, owner': Owners, memory: Memory, memory': Memory,
                  i: nat, low: nat, m: Mm)
    requires Added(mms, mms', owner, owner', memory, memory', i, low, USER_HIGH, true) && mms[i].pages == map[] && mms[i].areas == []
    requires low % PAGE == 0 && STACK_START - STACK_SIZE_MAX <= low < STACK_START && low / PAGE in mms'[i].pages
    requires Stretched(mms[i].areas, mms'[i].areas, low, USER_HIGH, true)
    requires m.pages == mms'[i].pages[low / PAGE := mms'[i].pages[low / PAGE].(present := false, guard := true)]
    requires m.areas == mms'[i].areas && m.guardPage == low
    ensures StackOk(m) && forall v :: v in m.pages <==> InRange(low, USER_HIGH, v)
  {
  }

  lemma AddedPresent(mms: map<nat, Mm>, mms': map<nat, Mm>, owner: Owners, owner': Owners, memory: Memory, memory': Memory,
                     i: nat, start: nat, end: nat, w: bool, v: nat)
    requires Added(mms, mms', owner, owner', memory, memory', i, start, end, w) && start <= v * PAGE < end && v !in mms[i].pages
    ensures i in mms' && mms' == mms[i := mms'[i]] && v in mms'[i].pages
    ensures mms'[i].pages[v].present && !mms'[i].pages[v].guard
  {
  }

  /** Address space j holds its own copy of every page of i below the bound; all other address spaces are as before. */
  ghost predicate Cloned(mms: map<nat, Mm>, mms': map<nat, Mm>, owner: Owners, owner': Owners, memory: Memory, memory': Memory,
                         i: nat, j: nat, bound: nat)
  {
    && i in mms && j !in mms && j in mms' && mms' == mms[j := mms'[j]]
    && (forall v :: v in mms'[j].pages <==> v in mms[i].pages && v < bound)
    && (forall v :: v in mms'[j].pages ==> CopyOf(mms[i].pages[v], mms'[j].pages[v], owner, memory, memory'))
    && (forall f :: f in owner && f in memory ==> f in owner' && owner'[f] == owner[f] && f in memory' && memory'[f] == memory[f])
  }

  lemma MappedOwned(mms: map<nat, Mm>, owner: Owners, bitmap: seq<bv32>, nframes: nat, i: nat)
    requires Frames(mms, owner, bitmap, nframes) && i in mms
    ensures forall v :: v in mms[i].pages ==> mms[i].pages[v].frame in owner
  {
    forall v | v in mms[i].pages ensures mms[i].pages[v].frame in owner {
      assert Maps(mms, i, v, mms[i].pages[v].frame);
    }
  }

  /** Same flags, a frame nobody owned, equal contents. */
  ghost predicate CopyOf(p: Pte, q: Pte, owner: Owners, memory: Memory, memory': Memory) {
    && q == p.(frame := q.frame) && q.frame !in owner
    && p.frame in memory && q.frame in memory' && memory'[q.frame] == memory[p.frame]
  }

  lemma CloneStart(mms: map<nat, Mm>, mms': map<nat, Mm>, owner: Owners, bitmap: seq<bv32>, nframes: nat, memory: Memory, i: nat, j: nat)
    requires Frames(mms, owner, bitmap, nframes) && i in mms && j !in mms
    requires Tidy(mms[i]) && j in mms' && mms' == mms[j := mms'[j]] && mms'[j].pages == map[]
    ensures Frames(mms', owner, bitmap, nframes)
    ensures Cloned(mms, mms', owner, owner, memory, memory, i, j, USER_LOW / PAGE)
  {
    hide Phys.Used;
    forall k: nat, u: nat, f: nat | Maps(mms', k, u, f) ensures f in owner && owner[f] == (k, u) {
      assert Maps(mms, k, u, f);
    }
    forall f | f in owner ensures 0 < f < nframes && InUse(bitmap, f) && Maps(mms', owner[f].0, owner[f].1, f) {
      assert Maps(mms, owner[f].0, owner[f].1, f);
    }
    forall v | v in mms[i].pages ensures USER_LOW / PAGE <= v < USER_HIGH / PAGE {
      UserPage(mms[i], v);
    }
  }

  lemma UserPage(m: Mm, v: nat)
    requires Tidy(m) && v in m.pages
    ensures USER_LOW / PAGE <= v < USER_HIGH / PAGE
  {
    assert CoveredAs(m.areas, v, m.pages[v].writable);
    var k :| 0 <= k < |m.areas| && InRange(m.areas[k].start, m.areas[k].end, v) && m.areas[k].writable == m.pages[v].writable;
    assert AreaOk(m.areas[k]);
  }

  lemma ParentKept(mms: map<nat, Mm>, mms': map<nat, Mm>, owner: Owners, owner': Owners, memory: Memory, memory': Memory,
                   bitmap': seq<bv32>, nframes: nat, i: nat, j: nat, v: nat)
    requires Cloned(mms, mms', owner, owner', memory, memory', i, j, v)
    requires Frames(mms', owner', bitmap', nframes) && owner'.Keys <= memory'.Keys
    ensures i in mms' && mms'[i] == mms[i] && i != j && v !in mms'[j].pages
    ensures v in mms[i].pages ==> mms[i].pages[v].frame in memory' && mms[i].pages[v].frame in owner' && mms[i].pages[v].frame != 0
  {
    hide Phys.Used;
    if v in mms[i].pages {
      assert Maps(mms', i, v, mms[i].pages[v].frame);
    }
  }

  lemma CloneStep(mms: map<nat, Mm>, mms1: map<nat, Mm>, mms2: map<nat, Mm>, owner: Owners, owner1: Owners, owner2: Owners,
                  memory: Memory, memory1: Memory, memory2: Memory, i: nat, j: nat, v: nat, f: nat)
    requires Cloned(mms, mms1, owner, owner1, memory, memory1, i, j, v) && v in mms[i].pages && owner.Keys <= memory.Keys
    requires mms[i].pages[v].frame in owner && f !in owner1 && mms[i].pages[v].frame != f
    requires mms[i].pages[v].frame in memory1
    requires j in mms2 && mms2 == mms1[j := mms2[j]] && mms2[j].pages == mms1[j].pages[v := mms[i].pages[v].(frame := f)]
    requires owner2 == owner1[f := (j, v)]
    requires f in memory2 && memory2 == memory1[f := memory2[f]] && memory2[f] == memory1[mms[i].pages[v].frame]
    requires forall u :: u in mms1[j].pages ==> mms1[j].pages[u].frame in owner1
    ensures Cloned(mms, mms2, owner, owner2, memory, memory2, i, j, v + 1)
  {
    forall u | u in mms2[j].pages ensures CopyOf(mms[i].pages[u], mms2[j].pages[u], owner, memory, memory2) {
      if u != v {
        assert CopyOf(mms[i].pages[u], mms1[j].pages[u], owner, memory, memory1);
      }
    }
  }

  /** A page still to be copied is missing in the child, which so far has fewer pages than the parent. */
  lemma CloneRoom(mms: map<nat, Mm>, mms': map<nat, Mm>, owner: Owners, owner': Owners, memory: Memory, memory': Memory,
                  i: nat, j: nat, v: nat)
    requires Cloned(mms, mms', owner, owner', memory, memory', i, j, v)
    ensures v in mms[i].pages ==> v !in mms'[j].pages && |mms'[j].pages| < |mms[i].pages|
  {
    hide CopyOf;
    if v in mms[i].pages {
      var copied, all := mms'[j].pages.Keys, mms[i].pages.Keys;
      assert copied <= all - {v};
      SubsetSize(copied, all - {v});
    }
  }

  lemma {:induction false} SubsetSize(a: set<nat>, b: set<nat>)
    requires a <= b
    ensures |a| <= |b|
  {
    if a != {} {
      var x :| x in a;
      SubsetSize(a - {x}, b - {x});
    }
  }

  lemma CloneSkip(mms: map<nat, Mm>, mms': map<nat, Mm>, owner: Owners, owner': Owners, memory: Memory, memory': Memory,
                  i: nat, j: nat, v: nat)
    requires Cloned(mms, mms', owner, owner', memory, memory', i, j, v) && v !in mms[i].pages
    ensures Cloned(mms, mms', owner, owner', memory, memory', i, j, v + 1)
  {
  }

  lemma CloneDone(mms: map<nat, Mm>, mms': map<nat, Mm>, owner: Owners, owner': Owners, memory: Memory, memory': Memory, i: nat, j: nat)
    requires Cloned(mms, mms', owner, owner', memory, memory', i, j, USER_HIGH / PAGE) && Tidy(mms[i])
    requires mms'[j].areas == mms[i].areas && mms'[j].framesUsed == |mms'[j].pages|
    ensures Tidy(mms'[j]) && mms'[j].pages.Keys == mms[i].pages.Keys && i in mms' && mms'[i] == mms[i]
    ensures forall k :: k in mms' && k != j ==> k in mms && mms'[k] == mms[k]
  {
    hide CoveredAs;
    forall v | v in mms[i].pages ensures v < USER_HIGH / PAGE {
      UserPage(mms[i], v);
    }
    forall v | v in mms'[j].pages
      ensures mms'[j].pages[v].writable == mms[i].pages[v].writable && mms'[j].pages[v].present != mms'[j].pages[v].guard
    {
      assert CopyOf(mms[i].pages[v], mms'[j].pages[v], owner, memory, memory');
    }
  }

  /** Pages of the first k areas. */
  ghost function PagesIn(areas: seq<Area>, k: nat): set<nat>
    requires k <= |areas|
  {
    if k == 0 then {} else PagesIn(areas, k - 1) + PagesOf(areas[k - 1].start, areas[k - 1].end)
  }

  lemma PagesInNone(areas: seq<Area>)
    ensures PagesIn(areas, 0) == {}
  {
  }

  lemma PagesInNext(areas: seq<Area>, k: nat)
    requires k < |areas|
    ensures PagesIn(areas, k + 1) == PagesIn(areas, k) + PagesOf(areas[k].start, areas[k].end)
  {
  }

  lemma {:induction false} PagesInMember(areas: seq<Area>, k: nat, v: nat)
    requires k <= |areas|
    ensures v in PagesIn(areas, k) <==> exists j :: 0 <= j < k && InRange(areas[j].start, areas[j].end, v)
  {
    if k > 0 {
      PagesInMember(areas, k - 1, v);
      assert InRange(areas[k - 1].start, areas[k - 1].end, v) <==> v in PagesOf(areas[k - 1].start, areas[k - 1].end);
    }
  }

  lemma TidyArea(m: Mm, k: nat)
    requires Tidy(m) && k < |m.areas|
    ensures AreaOk(m.areas[k])
    ensures forall v :: InRange(m.areas[k].start, m.areas[k].end, v) ==> v in m.pages && v !in PagesIn(m.areas, k)
  {
    hide PagesIn;
    TidyRange(m, k, m.areas[k].start);
    forall v | InRange(m.areas[k].start, m.areas[k].end, v) ensures v !in PagesIn(m.areas, k) {
      PagesInMember(m.areas, k, v);
      if v in PagesIn(m.areas, k) {
        var j :| 0 <= j < k && InRange(m.areas[j].start, m.areas[j].end, v);
        CoveredOnce(m.areas, v, j, k);
      }
    }
  }

  lemma RemovedAll(mms: map<nat, Mm>, mms': map<nat, Mm>, owner: Owners, owner': Owners, bitmap: seq<bv32>, bitmap': seq<bv32>,
                   nframes: nat, i: nat)
    requires i in mms && Tidy(mms[i]) && Frames(mms, owner, bitmap, nframes) && Frames(mms', owner', bitmap', nframes)
    requires Removed(mms, mms', owner, owner', bitmap, bitmap', i, PagesIn(mms[i].areas, |mms[i].areas|))
    ensures mms' - {i} == mms - {i} && Frames(mms' - {i}, owner', bitmap', nframes) && |bitmap'| == |bitmap|
    ensures forall f {:trigger Phys.Used(bitmap', f)} :: 0 <= f < 32 * |bitmap| ==>
              (Phys.Used(bitmap', f) <==> Phys.Used(bitmap, f) && !(f in owner && owner[f].0 == i))
  {
    hide Phys.Used, PagesIn;
    var m := mms[i];
    var gone := PagesIn(m.areas, |m.areas|);
    forall v | v in m.pages ensures v in gone {
      assert CoveredAs(m.areas, v, m.pages[v].writable);
      PagesInMember(m.areas, |m.areas|, v);
    }
    forall f | f in owner && owner[f].0 == i ensures f !in owner' {
      assert Maps(mms, i, owner[f].1, f);
    }
    forall j: nat, u: nat, f: nat | Maps(mms' - {i}, j, u, f) ensures f in owner' && owner'[f] == (j, u) {
      assert Maps(mms', j, u, f);
    }
    forall f | f in owner' ensures 0 < f < nframes && InUse(bitmap', f) && Maps(mms' - {i}, owner'[f].0, owner'[f].1, f) {
      assert Maps(mms', owner'[f].0, owner'[f].1, f);
    }
  }

  /** A range that would have to grow past user space meets a mapped page before. */
  ghost predicate GrowthMeets(m: Mm, start: nat, newEnd: nat) {
    var at := Containing(m.areas, start);
    newEnd > USER_HIGH && at < |m.areas| ==> m.areas[at].end < USER_HIGH && !Unmapped(m, m.areas[at].end, USER_HIGH)
  }

  /** No area up to the one that contains start ends at newEnd, and growth finds unmapped pages and enough frames. */
  ghost predicate Resizable(m: Mm, start: nat, newEnd: nat, free: nat) {
    var at := Containing(m.areas, start);
    && (forall k :: 0 <= k < |m.areas| && k <= at ==> m.areas[k].end != newEnd)
    && (at < |m.areas| && m.areas[at].end < newEnd ==>
          Unmapped(m, m.areas[at].end, newEnd) && free >= (newEnd - m.areas[at].end) / PAGE)
  }

  lemma NotResizable(m: Mm, start: nat, newEnd: nat, free: nat, k: nat)
    requires k < |m.areas| && m.areas[k].end == newEnd
    requires forall j :: 0 <= j < k ==> !(m.areas[j].start <= start < m.areas[j].end)
    ensures !Resizable(m, start, newEnd, free)
  {
    assert k <= Containing(m.areas, start);
  }

  /** After growth the area that contains start ends at newEnd, unless an earlier one with its right starts there. */
  lemma ResizedEnd(areas: seq<Area>, at: nat, newEnd: nat)
    requires AreasOk(areas) && at < |areas| && areas[at].end < newEnd
    ensures var r := Stored(areas, areas[at].end, newEnd, areas[at].writable);
      && at < |r| && r[at].start == areas[at].start
      && (r[at].end == newEnd <==> forall k :: 0 <= k < at ==> !(areas[k].start == newEnd && areas[k].writable == areas[at].writable))
  {
    var a := areas[at];
    var f := FirstTouch(areas, a.end, newEnd, a.writable);
    assert Touches(a, a.end, newEnd, a.writable) && f <= at;
    ApartPair(areas, f, at);
  }

  lemma TidyRange(m: Mm, k: nat, newEnd: nat)
    requires Tidy(m) && k < |m.areas| && m.areas[k].start <= newEnd
    ensures forall v :: InRange(newEnd, m.areas[k].end, v) ==> v in m.pages
  {
    forall v | InRange(newEnd, m.areas[k].end, v) ensures v in m.pages {
      assert InRange(m.areas[k].start, m.areas[k].end, v);
      assert CoveredAs(m.areas, v, m.areas[k].writable);
    }
  }

  lemma RemovedTidy(mms: map<nat, Mm>, mms': map<nat, Mm>, owner: Owners, owner': Owners, bitmap: seq<bv32>, bitmap': seq<bv32>,
                    i: nat, k: nat, newEnd: nat)
    requires i in mms && Tidy(mms[i]) && k < |mms[i].areas|
    requires mms[i].areas[k].start < newEnd < mms[i].areas[k].end && newEnd % PAGE == 0
    requires Removed(mms, mms', owner, owner', bitmap, bitmap', i, PagesOf(newEnd, mms[i].areas[k].end))
    requires mms'[i].framesUsed == mms[i].framesUsed - |PagesOf(newEnd, mms[i].areas[k].end)|
    ensures Tidy(mms'[i].(areas := mms[i].areas[k := mms[i].areas[k].(end := newEnd)]))
    ensures forall j :: j in mms' && j != i ==> j in mms && mms'[j] == mms[j]
  {
    hide Phys.Used, CoveredAs;
    var m := mms[i];
    var end := m.areas[k].end;
    Shortened(m.areas, k, newEnd);
    TidyRange(m, k, newEnd);
    CardDrop(m.pages, PagesOf(newEnd, end));
    forall v ensures v in PagesOf(newEnd, end) <==> InRange(newEnd, end, v) {
    }
  }

  lemma CardDrop<T>(m: map<nat, T>, gone: set<nat>)
    requires gone <= m.Keys
    ensures |m - gone| == |m| - |gone|
  {
    assert (m - gone).Keys == m.Keys - gone;
  }

  ghost function PagesOf(from: nat, to: nat): set<nat> {
    set v: nat | 0 <= v <= to && InRange(from, to, v)
  }

  lemma PagesOfNone(from: nat)
    ensures PagesOf(from, from) == {}
  {
  }

  lemma PagesOfNext(from: nat, addr: nat)
    requires from <= addr && addr % PAGE == 0
    ensures PagesOf(from, addr + PAGE) == PagesOf(from, addr) + {addr / PAGE} && addr / PAGE !in PagesOf(from, addr)
    ensures |PagesOf(from, addr + PAGE)| == |PagesOf(from, addr)| + 1
    ensures InRange(addr, addr + PAGE, addr / PAGE) && forall to :: addr < to && to % PAGE == 0 ==> InRange(from, to, addr / PAGE)
  {
    assert PagesOf(from, addr + PAGE) == PagesOf(from, addr) + {addr / PAGE};
  }

  /** The given pages of address space i were unmapped and their frames, no others, returned. */
  ghost predicate Removed(mms: map<nat, Mm>, mms': map<nat, Mm>, owner: Owners, owner': Owners, bitmap: seq<bv32>, bitmap': seq<bv32>,
                          i: nat, gone: set<nat>)
  {
    && i in mms && i in mms' && mms' == mms[i := mms'[i]] && mms'[i].pages == mms[i].pages - gone
    && (forall f :: f in owner' <==> f in owner && !(owner[f].0 == i && owner[f].1 in gone))
    && (forall f :: f in owner' ==> owner'[f] == owner[f])
    && |bitmap'| == |bitmap|
    && (forall f {:trigger Phys.Used(bitmap', f)} :: 0 <= f < 32 * |bitmap| ==>
          (Phys.Used(bitmap', f) <==> Phys.Used(bitmap, f) && (f in owner ==> f in owner')))
  }

  lemma RemovedNothing(mms: map<nat, Mm>, owner: Owners, bitmap: seq<bv32>, i: nat, nframes: nat)
    requires i in mms
    ensures Removed(mms, mms, owner, owner, bitmap, bitmap, i, {})
  {
    hide Phys.Used;
    assert mms[i].pages - {} == mms[i].pages;
  }

  lemma RemovedStill(mms: map<nat, Mm>, mms': map<nat, Mm>, owner: Owners, owner': Owners, bitmap: seq<bv32>, bitmap': seq<bv32>,
                     i: nat, gone: set<nat>, v: nat)
    requires Removed(mms, mms', owner, owner', bitmap, bitmap', i, gone) && v in mms[i].pages && v !in gone
    ensures i in mms' && v in mms'[i].pages
  {
  }

  lemma RemovedStep(mms: map<nat, Mm>, mms1: map<nat, Mm>, mms2: map<nat, Mm>, owner: Owners, owner1: Owners, owner2: Owners,
                    bitmap: seq<bv32>, bitmap1: seq<bv32>, bitmap2: seq<bv32>, nframes: nat, i: nat, gone: set<nat>, v: nat)
    requires Removed(mms, mms1, owner, owner1, bitmap, bitmap1, i, gone) && v !in gone
    requires Frames(mms1, owner1, bitmap1, nframes) && v in mms1[i].pages
    requires i in mms2 && mms2 == mms1[i := mms2[i]] && mms2[i].pages == mms1[i].pages - {v}
    requires owner2 == owner1 - {mms1[i].pages[v].frame}
    requires Phys.OnlyFrame(bitmap1, bitmap2, mms1[i].pages[v].frame, false)
    ensures Removed(mms, mms2, owner, owner2, bitmap, bitmap2, i, gone + {v})
  {
    hide Phys.Used;
    var d := mms1[i].pages[v].frame;
    assert Maps(mms1, i, v, d);
    assert owner1[d] == (i, v);
    forall f | f in owner1 && owner1[f] == (i, v) ensures f == d {
      assert Maps(mms1, i, v, f);
    }
    assert mms[i].pages - (gone + {v}) == mms[i].pages - gone - {v};
  }

  lemma RemovedSame(mms: map<nat, Mm>, mms': map<nat, Mm>, owner: Owners, owner': Owners, bitmap: seq<bv32>, bitmap': seq<bv32>,
                    i: nat, gone: set<nat>, m: Mm)
    requires Removed(mms, mms', owner, owner', bitmap, bitmap', i, gone) && m.pages == mms'[i].pages
    ensures Removed(mms, mms'[i := m], owner, owner', bitmap, bitmap', i, gone)
  {
    hide Phys.Used;
  }

  /** The break and stack fields are untouched. */
  ghost predicate SameLayout(m: Mm, m': Mm) {
    m' == m.(areas := m'.areas, pages := m'.pages, framesUsed := m'.framesUsed)
  }

  type Memory = map<nat, PageData>

  /** The pages of [start, end) were added to address space i with right w, zeroed; nothing else changed. */
  ghost predicate Added(mms: map<nat, Mm>, mms': map<nat, Mm>, owner: Owners, owner': Owners, memory: Memory, memory': Memory,
                        i: nat, start: nat, end: nat, w: bool)
  {
    && i in mms && i in mms' && mms' == mms[i := mms'[i]]
    && PagesAdded(mms[i].pages, mms'[i].pages, start, end, w)
    && (forall v :: InRange(start, end, v) && v in mms'[i].pages ==> FreshFrame(mms'[i].pages[v].frame, owner, memory'))
    && (forall f :: f in owner && f in memory ==> f in owner' && owner'[f] == owner[f] && f in memory' && memory'[f] == memory[f])
  }

  ghost predicate FreshFrame(f: nat, owner: Owners, memory: Memory) {
    f !in owner && f in memory && memory[f] == Phys.ZeroPage()
  }

  ghost predicate FreshPte(p: Pte, w: bool) { p.present && !p.guard && p.writable == w }

  ghost predicate PagesAdded(pages: map<nat, Pte>, pages': map<nat, Pte>, start: nat, end: nat, w: bool) {
    && (forall v :: v in pages' <==> v in pages || InRange(start, end, v))
    && (forall v :: v in pages ==> pages'[v] == pages[v])
    && (forall v :: v in pages' && v !in pages ==> FreshPte(pages'[v], w))
  }

  lemma AddedNothing(mms: map<nat, Mm>, owner: Owners, memory: Memory, i: nat, start: nat, w: bool)
    requires i in mms
    ensures Added(mms, mms, owner, owner, memory, memory, i, start, start, w)
  {
  }

  lemma TidyAreas(m: Mm)
    requires Tidy(m)
    ensures AreasOk(m.areas) && m.framesUsed == |m.pages|
  {
  }

  lemma AddedVacant(mms: map<nat, Mm>, mms': map<nat, Mm>, owner: Owners, owner': Owners, memory: Memory, memory': Memory,
                    i: nat, start: nat, addr: nat, w: bool)
    requires Added(mms, mms', owner, owner', memory, memory', i, start, addr, w) && addr % PAGE == 0
    requires addr / PAGE !in mms'[i].pages && Unmapped(mms[i], start, addr)
    ensures Unmapped(mms[i], start, addr + PAGE)
  {
  }

  /** A page that is in the way stops the loop, and was in the way before it. */
  lemma StillUnmapped(mms: map<nat, Mm>, mms': map<nat, Mm>, owner: Owners, owner': Owners, memory: Memory, memory': Memory,
                      i: nat, start: nat, addr: nat, end: nat, w: bool)
    requires Added(mms, mms', owner, owner', memory, memory', i, start, addr, w) && addr % PAGE == 0 && start <= addr < end
    ensures addr / PAGE in mms'[i].pages ==> !Unmapped(mms[i], start, end)
  {
    assert InRange(start, end, addr / PAGE) && !InRange(start, addr, addr / PAGE);
  }

  lemma PageSteps(start: nat, addr: nat, end: nat)
    requires start % PAGE == 0 && addr % PAGE == 0 && end % PAGE == 0 && start <= addr < end
    ensures (addr - start) / PAGE < (end - start) / PAGE && (addr + PAGE - start) / PAGE == (addr - start) / PAGE + 1
  {
  }

  ghost predicate Unmapped(m: Mm, start: nat, end: nat) {
    forall v :: InRange(start, end, v) ==> v !in m.pages
  }

  /** A range of user space; one that runs past its end meets a mapped page before. */
  ghost predicate Allocatable(m: Mm, start: nat, end: nat) {
    && USER_LOW <= start < USER_HIGH && start < end && start % PAGE == 0 && end % PAGE == 0
    && (end <= USER_HIGH || !Unmapped(m, start, USER_HIGH))
  }

  lemma InUserSpace(m: Mm, start: nat, end: nat)
    requires Allocatable(m, start, end) && Unmapped(m, start, end)
    ensures end <= USER_HIGH
  {
    assert end > USER_HIGH ==> Unmapped(m, start, USER_HIGH);
  }

  lemma UnmappedNone(m: Mm, start: nat)
    ensures Unmapped(m, start, start)
  {
  }

  lemma AddedStep(mms: map<nat, Mm>, mms1: map<nat, Mm>, mms2: map<nat, Mm>, owner: Owners, owner1: Owners, owner2: Owners,
                  memory: Memory, memory1: Memory, memory2: Memory, i: nat, start: nat, addr: nat, w: bool)
    requires Added(mms, mms1, owner, owner1, memory, memory1, i, start, addr, w) && addr % PAGE == 0 && start <= addr
    requires addr / PAGE !in mms1[i].pages && i in mms2 && addr / PAGE in mms2[i].pages
    requires mms2 == mms1[i := mms2[i]]
    requires var p := mms2[i].pages[addr / PAGE];
      && p == Pte(p.frame, true, false, w) && p.frame !in owner1
      && mms2[i].pages == mms1[i].pages[addr / PAGE := p]
      && owner2 == owner1[p.frame := (i, addr / PAGE)] && memory2 == memory1[p.frame := Phys.ZeroPage()]
    requires owner.Keys <= memory.Keys
    ensures Added(mms, mms2, owner, owner2, memory, memory2, i, start, addr + PAGE, w)
  {
    PagesAddedStep(mms[i].pages, mms1[i].pages, mms2[i].pages, start, addr, w);
    hide PagesAdded;
    forall v | InRange(start, addr + PAGE, v) && v in mms2[i].pages ensures FreshFrame(mms2[i].pages[v].frame, owner, memory2) {
      assert v == addr / PAGE || InRange(start, addr, v);
    }
  }

  lemma PagesAddedStep(pages: map<nat, Pte>, pages1: map<nat, Pte>, pages2: map<nat, Pte>, start: nat, addr: nat, w: bool)
    requires PagesAdded(pages, pages1, start, addr, w) && addr % PAGE == 0 && start <= addr
    requires addr / PAGE !in pages1 && addr / PAGE in pages2 && FreshPte(pages2[addr / PAGE], w)
    requires pages2 == pages1[addr / PAGE := pages2[addr / PAGE]]
    ensures PagesAdded(pages, pages2, start, addr + PAGE, w)
  {
    assert forall v :: InRange(start, addr + PAGE, v) <==> InRange(start, addr, v) || v == addr / PAGE;
  }

  lemma AddedVacantAreas(m: Mm, start: nat, end: nat)
    requires Tidy(m) && Unmapped(m, start, end)
    ensures Vacant(m.areas, start, end)
  {
  }

  lemma AddedTidy(mms: map<nat, Mm>, mms': map<nat, Mm>, owner: Owners, owner': Owners, memory: Memory, memory': Memory,
                  i: nat, start: nat, end: nat, w: bool, areas: seq<Area>)
    requires Added(mms, mms', owner, owner', memory, memory', i, start, end, w) && Tidy(mms[i])
    requires Unmapped(mms[i], start, end)
    requires mms'[i].framesUsed == |mms'[i].pages| && AreasOk(areas)
    requires forall v, u :: CoveredAs(areas, v, u) <==> CoveredAs(mms[i].areas, v, u) || (InRange(start, end, v) && u == w)
    ensures Tidy(mms'[i].(areas := areas)) && forall j :: j in mms' && j != i ==> j in mms && mms'[j] == mms[j]
    ensures Added(mms, mms'[i := mms'[i].(areas := areas)], owner, owner', memory, memory', i, start, end, w)
  {
    hide CoveredAs;
    forall v ensures v in mms'[i].pages ==> mms'[i].pages[v].present != mms'[i].pages[v].guard {
      assert v in mms[i].pages ==> mms'[i].pages[v] == mms[i].pages[v];
    }
  }

  //  What happens to the pages, and to what they hold

  /** Page v of address space j has its frame and its contents still; its present and guard bits too, unless named among those of i. */
  ghost predicate PageKept(mms: map<nat, Mm>, mms': map<nat, Mm>, memory: Memory, memory': Memory, j: nat, v: nat, i: nat, flags: set<nat>)
    requires j in mms && v in mms[j].pages
  {
    && j in mms' && v in mms'[j].pages
    && var p, q := mms[j].pages[v], mms'[j].pages[v];
      && q.frame == p.frame && q.writable == p.writable && (q == p || (j == i && v in flags))
      && p.frame in memory && p.frame in memory' && memory'[p.frame] == memory[p.frame]
  }

  /** A writable page of zeros. */
  ghost predicate PageNew(m: Mm, memory: Memory, v: nat, flags: set<nat>) {
    && v in m.pages
    && var q := m.pages[v];
      q.writable && (v in flags || (q.present && !q.guard)) && q.frame in memory && memory[q.frame] == Phys.ZeroPage()
  }

  /**
   Exactly the added pages are new in address space i, and exactly those gone have left it.  Every other page of
   every address space keeps its frame, its contents and, but for those named last, its flags.
   */
  ghost predicate Remapped(mms: map<nat, Mm>, mms': map<nat, Mm>, memory: Memory, memory': Memory,
                           i: nat, added: set<nat>, gone: set<nat>, flags: set<nat>)
  {
    && i in mms && i in mms' && mms' == mms[i := mms'[i]]
    && added !! mms[i].pages.Keys && gone <= mms[i].pages.Keys
    && mms'[i].pages.Keys == mms[i].pages.Keys + added - gone
    && (forall j, v {:trigger PageKept(mms, mms', memory, memory', j, v, i, flags)} ::
          j in mms && v in mms[j].pages && !(j == i && v in gone) ==>
          PageKept(mms, mms', memory, memory', j, v, i, flags))
    && (forall v :: v in added ==> PageNew(mms'[i], memory', v, flags))
  }

  /** Every mapped frame has contents. */
  lemma MappedFilled(mms: map<nat, Mm>, owner: Owners, bitmap: seq<bv32>, nframes: nat, memory: Memory)
    requires Frames(mms, owner, bitmap, nframes) && owner.Keys <= memory.Keys
    ensures forall j, v :: j in mms && v in mms[j].pages ==> mms[j].pages[v].frame in owner && mms[j].pages[v].frame in memory
  {
    forall j, v | j in mms && v in mms[j].pages ensures mms[j].pages[v].frame in owner {
      assert Maps(mms, j, v, mms[j].pages[v].frame);
    }
  }

  lemma RemapNone(mms: map<nat, Mm>, owner: Owners, bitmap: seq<bv32>, nframes: nat, memory: Memory, i: nat)
    requires Frames(mms, owner, bitmap, nframes) && owner.Keys <= memory.Keys && i in mms
    ensures Remapped(mms, mms, memory, memory, i, {}, {}, {})
  {
    hide Frames;
    MappedFilled(mms, owner, bitmap, nframes, memory);
  }

  lemma RemapAdded(mms: map<nat, Mm>, mms': map<nat, Mm>, owner: Owners, owner': Owners, bitmap: seq<bv32>, nframes: nat,
                   memory: Memory, memory': Memory, i: nat, start: nat, end: nat)
    requires Frames(mms, owner, bitmap, nframes) && owner.Keys <= memory.Keys
    requires Added(mms, mms', owner, owner', memory, memory', i, start, end, true) && Unmapped(mms[i], start, end)
    ensures Remapped(mms, mms', memory, memory', i, PagesOf(start, end), {}, {})
  {
    hide Frames;
    MappedFilled(mms, owner, bitmap, nframes, memory);
    InPagesOf(start, end);
    hide PagesOf, InRange;
    assert mms'[i].pages.Keys == mms[i].pages.Keys + PagesOf(start, end) - {};
  }

  lemma InPagesOf(start: nat, end: nat)
    ensures forall v: nat :: v in PagesOf(start, end) <==> InRange(start, end, v)
  {
  }

  lemma RemapRemoved(mms: map<nat, Mm>, mms': map<nat, Mm>, owner: Owners, owner': Owners, bitmap: seq<bv32>, bitmap': seq<bv32>,
                     nframes: nat, memory: Memory, i: nat, gone: set<nat>)
    requires Frames(mms, owner, bitmap, nframes) && owner.Keys <= memory.Keys
    requires i in mms && Removed(mms, mms', owner, owner', bitmap, bitmap', i, gone) && gone <= mms[i].pages.Keys
    ensures Remapped(mms, mms', memory, memory, i, {}, gone, {})
  {
    hide Frames, Removed;
    MappedFilled(mms, owner, bitmap, nframes, memory);
    RemovedPages(mms, mms', owner, owner', bitmap, bitmap', i, gone);
  }

  lemma RemovedPages(mms: map<nat, Mm>, mms': map<nat, Mm>, owner: Owners, owner': Owners, bitmap: seq<bv32>, bitmap': seq<bv32>,
                     i: nat, gone: set<nat>)
    requires Removed(mms, mms', owner, owner', bitmap, bitmap', i, gone)
    ensures i in mms && i in mms' && mms' == mms[i := mms'[i]] && mms'[i].pages == mms[i].pages - gone
  {
    hide Phys.Used;
  }

  /** The other fields of an address space have no part in this. */
  lemma RemapFields(mms: map<nat, Mm>, mms1: map<nat, Mm>, mms2: map<nat, Mm>, memory: Memory, memory': Memory,
                    i: nat, added: set<nat>, gone: set<nat>, flags: set<nat>)
    requires Remapped(mms, mms1, memory, memory', i, added, gone, flags)
    requires i in mms2 && mms2 == mms1[i := mms2[i]] && mms2[i].pages == mms1[i].pages
    ensures Remapped(mms, mms2, memory, memory', i, added, gone, flags)
  {
    forall j, v | j in mms && v in mms[j].pages && !(j == i && v in gone)
      ensures PageKept(mms, mms2, memory, memory', j, v, i, flags)
    {
      assert PageKept(mms, mms1, memory, memory', j, v, i, flags);
    }
    forall v | v in added ensures PageNew(mms2[i], memory', v, flags) {
      assert PageNew(mms1[i], memory', v, flags);
    }
  }

  /** The guard bit moves from page g to the new page l. */
  lemma RemapGuard(mms: map<nat, Mm>, mms1: map<nat, Mm>, mms2: map<nat, Mm>, memory: Memory, memory': Memory,
                   i: nat, added: set<nat>, g: nat, l: nat)
    requires Remapped(mms, mms1, memory, memory', i, added, {}, {}) && g in mms[i].pages && l in added
    requires i in mms2 && mms2 == mms1[i := mms2[i]] && g in mms1[i].pages && l in mms1[i].pages
    requires mms2[i].pages == mms1[i].pages[g := mms1[i].pages[g].(present := true, guard := false)]
                                           [l := mms1[i].pages[l].(present := false, guard := true)]
    ensures Remapped(mms, mms2, memory, memory', i, added, {}, {g, l})
  {
    forall j, v | j in mms && v in mms[j].pages
      ensures PageKept(mms, mms2, memory, memory', j, v, i, {g, l})
    {
      assert PageKept(mms, mms1, memory, memory', j, v, i, {});
    }
    forall v | v in added ensures PageNew(mms2[i], memory', v, {g, l}) {
      assert PageNew(mms1[i], memory', v, {});
    }
  }

  lemma RemapMore(mms: map<nat, Mm>, mms1: map<nat, Mm>, mms2: map<nat, Mm>, memory: Memory, memory1: Memory, memory2: Memory,
                  i: nat, added: set<nat>, more: set<nat>)
    requires Remapped(mms, mms1, memory, memory1, i, added, {}, {}) && Remapped(mms1, mms2, memory1, memory2, i, more, {}, {})
    ensures Remapped(mms, mms2, memory, memory2, i, added + more, {}, {})
  {
    forall j, v | j in mms && v in mms[j].pages
      ensures PageKept(mms, mms2, memory, memory2, j, v, i, {})
    {
      assert PageKept(mms, mms1, memory, memory1, j, v, i, {}) && PageKept(mms1, mms2, memory1, memory2, j, v, i, {});
    }
    forall v | v in added ensures PageNew(mms2[i], memory2, v, {}) {
      assert PageNew(mms1[i], memory1, v, {}) && PageKept(mms1, mms2, memory1, memory2, i, v, i, {});
    }
  }

  lemma PagesOfJoin(a: nat, b: nat, c: nat)
    requires a <= b <= c && b % PAGE == 0
    ensures PagesOf(a, b) + PagesOf(b, c) == PagesOf(a, c)
  {
    InPagesOf(a, b);
    InPagesOf(b, c);
    InPagesOf(a, c);
    hide PagesOf;
    forall v: nat ensures InRange(a, c, v) <==> InRange(a, b, v) || InRange(b, c, v) {
    }
  }

  lemma FirstPage(low: nat, high: nat)
    requires low % PAGE == 0 && low < high
    ensures low / PAGE in PagesOf(low, high)
  {
    InPagesOf(low, high);
    hide PagesOf;
    assert InRange(low, high, low / PAGE);
  }

  /** The first of the new pages becomes a guard page. */
  lemma RemapFirst(mms: map<nat, Mm>, mms1: map<nat, Mm>, mms2: map<nat, Mm>, memory: Memory, memory': Memory,
                   i: nat, added: set<nat>, l: nat)
    requires Remapped(mms, mms1, memory, memory', i, added, {}, {}) && l in added
    requires i in mms2 && mms2 == mms1[i := mms2[i]] && l in mms1[i].pages
    requires mms2[i].pages == mms1[i].pages[l := mms1[i].pages[l].(present := false, guard := true)]
    ensures Remapped(mms, mms2, memory, memory', i, added, {}, {l})
  {
    forall j, v | j in mms && v in mms[j].pages
      ensures PageKept(mms, mms2, memory, memory', j, v, i, {l})
    {
      assert PageKept(mms, mms1, memory, memory', j, v, i, {});
    }
    forall v | v in added ensures PageNew(mms2[i], memory', v, {l}) {
      assert PageNew(mms1[i], memory', v, {});
    }
  }

  /** The pages that sbrk maps: those up to a higher break, unless a decrease wrapped around and there is no heap. */
  ghost function SbrkAdded(m: Mm, delta: int): set<nat> {
    var newEnd := NewBreak(m.brk, delta);
    if m.brk < newEnd && (delta > 0 || m.brkStart < m.brk) then PagesOf(m.brk, newEnd) else {}
  }

  /** The pages that sbrk unmaps: those from a lower break on. */
  ghost function SbrkGone(m: Mm, delta: int): set<nat> {
    var newEnd := NewBreak(m.brk, delta);
    if 0 <= newEnd < m.brk then PagesOf(newEnd, m.brk) else {}
  }

  lemma NothingMoved(m: Mm, delta: int)
    requires m.brk % PAGE == 0 && m.brk < BRK_LIMIT
    ensures -(PAGE as int) < delta <= 0 ==> SbrkAdded(m, delta) == {} == SbrkGone(m, delta)
  {
    RoundUpFacts(m.brk);
  }

  lemma RemapResized(mms: map<nat, Mm>, mms': map<nat, Mm>, owner: Owners, owner': Owners, memory: Memory, memory': Memory,
                     bitmap: seq<bv32>, bitmap': seq<bv32>, nframes: nat, i: nat, newEnd: nat, free: nat, bytes: int)
    requires Frames(mms, owner, bitmap, nframes) && owner.Keys <= memory.Keys && i in mms && i in mms'
    requires 0 < bytes && newEnd == NewBreak(mms[i].brk, -bytes)
    requires Layout(mms[i]) && Tidy(mms[i]) && newEnd % PAGE == 0 && newEnd != mms[i].brk
    requires Shrinkable(mms[i], newEnd, free) && Resizable(mms[i], mms[i].brkStart, newEnd, free)
    requires var m := mms[i]; var at := Containing(m.areas, m.brkStart);
      if at == |m.areas| then mms' == mms && memory' == memory
      else if newEnd > m.areas[at].end then
        Added(mms, mms', owner, owner', memory, memory', i, m.areas[at].end, newEnd, m.areas[at].writable)
      else
        Removed(mms, mms', owner, owner', bitmap, bitmap', i, PagesOf(newEnd, m.areas[at].end)) && memory' == memory
    ensures Remapped(mms, mms', memory, memory', i, SbrkAdded(mms[i], -bytes), SbrkGone(mms[i], -bytes), {})
  {
    hide Frames, Phys.Used, Added, Removed, Layout, Tidy, PagesOf, Remapped, Containing, NewBreak;
    var m := mms[i];
    LayoutFacts(m);
    if m.brkStart < m.brk {
      var k := HeapArea(m);
      TidyAreas(m);
      ContainingOnly(m.areas, m.brkStart, k);
      if newEnd > m.brk {
        RemapAdded(mms, mms', owner, owner', bitmap, nframes, memory, memory', i, m.brk, newEnd);
      } else {
        TidyRange(m, k, newEnd);
        InPagesOf(newEnd, m.brk);
        RemapRemoved(mms, mms', owner, owner', bitmap, bitmap', nframes, memory, i, PagesOf(newEnd, m.brk));
      }
    } else {
      NotContained(m);
      RemapNone(mms, owner, bitmap, nframes, memory, i);
    }
  }
}
