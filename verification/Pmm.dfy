/** The physical frame allocator (pmm.c): a bitmap with a search hint. */
module PhysicalMemory {

  const PAGE: nat := 0x1000
  const NONE: nat := 0xffff_ffff       // no hint; also "no free frame"
  const FULL: bv32 := 0xffff_ffff

  type PageData = seq<bv8>
  function ZeroPage(): PageData { seq(PAGE, _ => 0) }

  function U32(x: int): nat { x % 0x1_0000_0000 }

  //  One bitmap dword

  function Mask(k: nat): bv32
    requires k < 32
  {
    1 << k
  }

  predicate Meets(w: bv32, mask: bv32) { w & mask != 0 }

  function Joined(w: bv32, mask: bv32): bv32 { w | mask }

  function Cleared(w: bv32, mask: bv32): bv32 { w & !mask }

  predicate Bit(w: bv32, k: nat)
    requires k < 32
  {
    Meets(w, Mask(k))
  }

  function WithBit(w: bv32, k: nat): bv32
    requires k < 32
  {
    Joined(w, Mask(k))
  }

  function WithoutBit(w: bv32, k: nat): bv32
    requires k < 32
  {
    Cleared(w, Mask(k))
  }

  lemma MasksDiffer(j: nat, k: nat)
    requires j < 32 && k < 32
    ensures Mask(j) != 0 && (j != k ==> !Meets(Mask(k), Mask(j)))
  {
  }

  lemma ClearedApart(w: bv32, a: bv32, b: bv32)
    requires !Meets(a, b)
    ensures Meets(Cleared(w, a), b) <==> Meets(w, b)
  {
    hide Cleared, Meets;
    ClearedMeet(w, a, b);
    SameMeets(Cleared(w, a), w, b);
  }

  lemma ClearedMeet(w: bv32, a: bv32, b: bv32)
    requires !Meets(a, b)
    ensures Cleared(w, a) & b == w & b
  {
    MaskedOut(w, a, b, Cleared(w, a));
  }

  lemma MaskedOut(w: bv32, a: bv32, b: bv32, c: bv32)
    requires a & b == 0 && c == w & !a
    ensures c & b == w & b
  {
  }

  lemma JoinedApart(w: bv32, a: bv32, b: bv32)
    requires !Meets(a, b)
    ensures Meets(Joined(w, a), b) <==> Meets(w, b)
  {
    hide Joined, Meets;
    JoinedMeet(w, a, b);
    SameMeets(Joined(w, a), w, b);
  }

  lemma JoinedMeet(w: bv32, a: bv32, b: bv32)
    requires !Meets(a, b)
    ensures Joined(w, a) & b == w & b
  {
    MaskedIn(w, a, b, Joined(w, a));
  }

  lemma MaskedIn(w: bv32, a: bv32, b: bv32, c: bv32)
    requires a & b == 0 && c == w | a
    ensures c & b == w & b
  {
  }

  lemma SameMeets(c: bv32, w: bv32, b: bv32)
    requires c & b == w & b
    ensures Meets(c, b) <==> Meets(w, b)
  {
  }

  lemma JoinedSame(w: bv32, mask: bv32)
    requires mask != 0
    ensures Meets(Joined(w, mask), mask)
  {
    StaysIn(w, mask, Joined(w, mask));
  }

  lemma StaysIn(w: bv32, mask: bv32, c: bv32)
    requires c == w | mask && mask != 0
    ensures c & mask != 0
  {
  }

  lemma ClearedSame(w: bv32, mask: bv32)
    ensures !Meets(Cleared(w, mask), mask)
  {
    StaysOut(w, mask, Cleared(w, mask));
  }

  lemma StaysOut(w: bv32, mask: bv32, c: bv32)
    requires c == w & !mask
    ensures c & mask == 0
  {
  }

  lemma SetBit(w: bv32, k: nat, j: nat)
    requires k < 32 && j < 32
    ensures Bit(WithBit(w, k), j) <==> j == k || Bit(w, j)
  {
    hide Mask, Meets, Joined;
    MasksDiffer(j, k);
    if j == k {
      JoinedSame(w, Mask(j));
    } else {
      JoinedApart(w, Mask(k), Mask(j));
    }
  }

  lemma ClearBit(w: bv32, k: nat, j: nat)
    requires k < 32 && j < 32
    ensures Bit(WithoutBit(w, k), j) <==> j != k && Bit(w, j)
  {
    hide Mask, Meets, Cleared;
    MasksDiffer(j, k);
    if j == k {
      ClearedSame(w, Mask(j));
    } else {
      ClearedApart(w, Mask(k), Mask(j));
    }
  }

  lemma MaskTable0()
    ensures Mask(0) == 0x1 && Mask(1) == 0x2 && Mask(2) == 0x4 && Mask(3) == 0x8
    ensures Mask(4) == 0x10 && Mask(5) == 0x20 && Mask(6) == 0x40 && Mask(7) == 0x80
  {
  }

  lemma MaskTable1()
    ensures Mask(8) == 0x100 && Mask(9) == 0x200 && Mask(10) == 0x400 && Mask(11) == 0x800
    ensures Mask(12) == 0x1000 && Mask(13) == 0x2000 && Mask(14) == 0x4000 && Mask(15) == 0x8000
  {
  }

  lemma MaskTable2()
    ensures Mask(16) == 0x10000 && Mask(17) == 0x20000 && Mask(18) == 0x40000 && Mask(19) == 0x80000
    ensures Mask(20) == 0x100000 && Mask(21) == 0x200000 && Mask(22) == 0x400000 && Mask(23) == 0x800000
  {
  }

  lemma MaskTable3()
    ensures Mask(24) == 0x1000000 && Mask(25) == 0x2000000 && Mask(26) == 0x4000000 && Mask(27) == 0x8000000
    ensures Mask(28) == 0x10000000 && Mask(29) == 0x20000000 && Mask(30) == 0x40000000 && Mask(31) == 0x80000000
  {
  }

  lemma ByteOfBits0(w: bv32)
    requires forall k :: 0 <= k < 32 ==> Bit(w, k)
    ensures Meets(w, 0x1) && Meets(w, 0x2) && Meets(w, 0x4) && Meets(w, 0x8) && Meets(w, 0x10) && Meets(w, 0x20) && Meets(w, 0x40) && Meets(w, 0x80)
  {
    hide Mask, Meets;
    assert Bit(w, 0) && Bit(w, 1) && Bit(w, 2) && Bit(w, 3) && Bit(w, 4) && Bit(w, 5) && Bit(w, 6) && Bit(w, 7);
    MaskTable0();
  }

  lemma ByteOfBits1(w: bv32)
    requires forall k :: 0 <= k < 32 ==> Bit(w, k)
    ensures Meets(w, 0x100) && Meets(w, 0x200) && Meets(w, 0x400) && Meets(w, 0x800) && Meets(w, 0x1000) && Meets(w, 0x2000) && Meets(w, 0x4000) && Meets(w, 0x8000)
  {
    hide Mask, Meets;
    assert Bit(w, 8) && Bit(w, 9) && Bit(w, 10) && Bit(w, 11) && Bit(w, 12) && Bit(w, 13) && Bit(w, 14) && Bit(w, 15);
    MaskTable1();
  }

  lemma ByteOfBits2(w: bv32)
    requires forall k :: 0 <= k < 32 ==> Bit(w, k)
    ensures Meets(w, 0x10000) && Meets(w, 0x20000) && Meets(w, 0x40000) && Meets(w, 0x80000) && Meets(w, 0x100000) && Meets(w, 0x200000) && Meets(w, 0x400000) && Meets(w, 0x800000)
  {
    hide Mask, Meets;
    assert Bit(w, 16) && Bit(w, 17) && Bit(w, 18) && Bit(w, 19) && Bit(w, 20) && Bit(w, 21) && Bit(w, 22) && Bit(w, 23);
    MaskTable2();
  }

  lemma ByteOfBits3(w: bv32)
    requires forall k :: 0 <= k < 32 ==> Bit(w, k)
    ensures Meets(w, 0x1000000) && Meets(w, 0x2000000) && Meets(w, 0x4000000) && Meets(w, 0x8000000) && Meets(w, 0x10000000) && Meets(w, 0x20000000) && Meets(w, 0x40000000) && Meets(w, 0x80000000)
  {
    hide Mask, Meets;
    assert Bit(w, 24) && Bit(w, 25) && Bit(w, 26) && Bit(w, 27) && Bit(w, 28) && Bit(w, 29) && Bit(w, 30) && Bit(w, 31);
    MaskTable3();
  }

  lemma FullFromMasks(w: bv32)
    requires Meets(w, 0x1) && Meets(w, 0x2) && Meets(w, 0x4) && Meets(w, 0x8) && Meets(w, 0x10) && Meets(w, 0x20) && Meets(w, 0x40) && Meets(w, 0x80)
    requires Meets(w, 0x100) && Meets(w, 0x200) && Meets(w, 0x400) && Meets(w, 0x800) && Meets(w, 0x1000) && Meets(w, 0x2000) && Meets(w, 0x4000) && Meets(w, 0x8000)
    requires Meets(w, 0x10000) && Meets(w, 0x20000) && Meets(w, 0x40000) && Meets(w, 0x80000) && Meets(w, 0x100000) && Meets(w, 0x200000) && Meets(w, 0x400000) && Meets(w, 0x800000)
    requires Meets(w, 0x1000000) && Meets(w, 0x2000000) && Meets(w, 0x4000000) && Meets(w, 0x8000000) && Meets(w, 0x10000000) && Meets(w, 0x20000000) && Meets(w, 0x40000000) && Meets(w, 0x80000000)
    ensures w == FULL
  {
  }

  lemma FullMeets(mask: bv32)
    requires mask != 0
    ensures Meets(FULL, mask)
  {
  }

  lemma FullWord(w: bv32)
    ensures w == FULL <==> forall k :: 0 <= k < 32 ==> Bit(w, k)
  {
    hide Mask, Meets;
    if forall k :: 0 <= k < 32 ==> Bit(w, k) {
      ByteOfBits0(w);
      ByteOfBits1(w);
      ByteOfBits2(w);
      ByteOfBits3(w);
      FullFromMasks(w);
    }
    if w == FULL {
      forall k | 0 <= k < 32
        ensures Bit(w, k)
      {
        MasksDiffer(k, k);
        FullMeets(Mask(k));
      }
    }
  }

  lemma EmptyWord(w: bv32, k: nat)
    requires k < 32 && w == 0
    ensures !Bit(w, k)
  {
  }

  //  The bitmap as a value

  predicate Used(bitmap: seq<bv32>, f: nat)
    requires f < 32 * |bitmap|
  {
    Bit(bitmap[f / 32], f % 32)
  }

  /** Every frame of the first n dwords is in use. */
  ghost predicate AllUsedBelow(bitmap: seq<bv32>, n: nat)
    requires n <= |bitmap|
  {
    forall i :: 0 <= i < n ==> bitmap[i] == FULL
  }

  /** bitmap' differs from bitmap in frame f alone. */
  ghost predicate OnlyFrame(bitmap: seq<bv32>, bitmap': seq<bv32>, f: nat, used: bool) {
    && |bitmap'| == |bitmap| && f < 32 * |bitmap|
    && (forall g :: 0 <= g < 32 * |bitmap| ==> Used(bitmap', g) == if g == f then used else Used(bitmap, g))
  }

  lemma SetOnlyFrame(bitmap: seq<bv32>, f: nat)
    requires f < 32 * |bitmap|
    ensures OnlyFrame(bitmap, bitmap[f / 32 := WithBit(bitmap[f / 32], f % 32)], f, true)
  {
    hide Bit, WithBit, WithoutBit;
    var b := bitmap[f / 32 := WithBit(bitmap[f / 32], f % 32)];
    forall g | 0 <= g < 32 * |bitmap| ensures Used(b, g) == if g == f then true else Used(bitmap, g) {
      if g / 32 == f / 32 {
        SetBit(bitmap[f / 32], f % 32, g % 32);
      }
    }
  }

  lemma ClearOnlyFrame(bitmap: seq<bv32>, f: nat)
    requires f < 32 * |bitmap|
    ensures OnlyFrame(bitmap, bitmap[f / 32 := WithoutBit(bitmap[f / 32], f % 32)], f, false)
  {
    hide Bit, WithBit, WithoutBit;
    var b := bitmap[f / 32 := WithoutBit(bitmap[f / 32], f % 32)];
    forall g | 0 <= g < 32 * |bitmap| ensures Used(b, g) == if g == f then false else Used(bitmap, g) {
      if g / 32 == f / 32 {
        ClearBit(bitmap[f / 32], f % 32, g % 32);
      }
    }
  }

  /** Full dwords are the ones without a free frame. */
  lemma FullMeansUsed(bitmap: seq<bv32>, i: nat)
    requires i < |bitmap|
    ensures bitmap[i] == FULL <==> UsedBetween(bitmap, 32 * i, 32 * i + 32)
  {
    FullWord(bitmap[i]);
    if UsedBetween(bitmap, 32 * i, 32 * i + 32) {
      forall k | 0 <= k < 32 ensures Bit(bitmap[i], k) {
        assert Used(bitmap, 32 * i + k);
      }
    }
    if bitmap[i] == FULL {
      forall f | 32 * i <= f < 32 * i + 32 ensures Used(bitmap, f) {
        assert f / 32 == i;
      }
    }
  }

  ghost predicate UsedBetween(bitmap: seq<bv32>, lo: int, hi: int) {
    forall f {:trigger Used(bitmap, f)} :: 0 <= f < 32 * |bitmap| && lo <= f < hi ==> Used(bitmap, f)
  }

  ghost predicate LowestFree(bitmap: seq<bv32>, limit: nat, f: nat)
    requires limit <= 32 * |bitmap|
  {
    f < limit && !Used(bitmap, f) && UsedBetween(bitmap, 0, f)
  }

  lemma AddressOf(f: nat)
    ensures f * PAGE % PAGE == 0 && f * PAGE / PAGE == f
  {
  }

  //  Counting

  /** Free frames among those a dword describes, from bit k on. */
  ghost function FreeInWord(w: bv32, k: nat): nat
    requires k <= 32
    decreases 32 - k
  {
    if k == 32 then 0 else (if Bit(w, k) then 0 else 1) + FreeInWord(w, k + 1)
  }

  ghost function FreeFrames(bitmap: seq<bv32>, n: nat): nat
    requires n <= |bitmap|
  {
    if n == 0 then 0 else FreeFrames(bitmap, n - 1) + FreeInWord(bitmap[n - 1], 0)
  }

  lemma {:induction false} FreeInWordBounds(w: bv32, k: nat)
    requires k <= 32
    ensures FreeInWord(w, k) <= 32 - k
    ensures w == 0 ==> FreeInWord(w, k) == 32 - k
    ensures w == FULL ==> FreeInWord(w, k) == 0
    decreases 32 - k
  {
    hide Bit;
    if k < 32 {
      FreeInWordBounds(w, k + 1);
      FullWord(w);
      if w == 0 {
        EmptyWord(w, k);
      }
    }
  }

  /** Changing one bit changes the count by one. */
  lemma {:induction false} FreeInWordChange(w: bv32, w': bv32, b: nat, k: nat)
    requires b < 32 && k <= 32 && Bit(w, b) != Bit(w', b)
    requires forall j :: 0 <= j < 32 && j != b ==> Bit(w, j) == Bit(w', j)
    ensures k <= b && Bit(w', b) ==> FreeInWord(w, k) == FreeInWord(w', k) + 1
    ensures k <= b && Bit(w, b) ==> FreeInWord(w', k) == FreeInWord(w, k) + 1
    ensures k > b ==> FreeInWord(w, k) == FreeInWord(w', k)
    decreases 32 - k
  {
    hide Bit;
    if k < 32 {
      FreeInWordChange(w, w', b, k + 1);
    }
  }

  lemma {:induction false} FreeFramesBound(bitmap: seq<bv32>, n: nat)
    requires n <= |bitmap|
    ensures FreeFrames(bitmap, n) <= 32 * n
  {
    hide FreeInWord;
    if n > 0 {
      FreeFramesBound(bitmap, n - 1);
      FreeInWordBounds(bitmap[n - 1], 0);
    }
  }

  /** Taking (or giving back) one frame changes the number of free frames by one. */
  lemma {:induction false} FreeFramesChange(bitmap: seq<bv32>, bitmap': seq<bv32>, f: nat, used: bool, n: nat)
    requires OnlyFrame(bitmap, bitmap', f, used) && Used(bitmap, f) != used && n <= |bitmap|
    ensures f < 32 * n && used ==> FreeFrames(bitmap, n) == FreeFrames(bitmap', n) + 1
    ensures f < 32 * n && !used ==> FreeFrames(bitmap', n) == FreeFrames(bitmap, n) + 1
    ensures f >= 32 * n ==> FreeFrames(bitmap', n) == FreeFrames(bitmap, n)
  {
    hide Bit;
    if n > 0 {
      FreeFramesChange(bitmap, bitmap', f, used, n - 1);
      SameBits(bitmap, bitmap', f, used, n - 1);
      if f / 32 == n - 1 {
        FreeInWordChange(bitmap[n - 1], bitmap'[n - 1], f % 32, 0);
      } else {
        FreeInWordSame(bitmap[n - 1], bitmap'[n - 1], 0);
      }
    }
  }

  lemma SameBits(bitmap: seq<bv32>, bitmap': seq<bv32>, f: nat, used: bool, i: nat)
    requires OnlyFrame(bitmap, bitmap', f, used) && i < |bitmap|
    ensures forall j :: 0 <= j < 32 ==> Bit(bitmap'[i], j) == if 32 * i + j == f then used else Bit(bitmap[i], j)
  {
    hide Bit;
    forall j | 0 <= j < 32 ensures Bit(bitmap'[i], j) == if 32 * i + j == f then used else Bit(bitmap[i], j) {
      assert Used(bitmap', 32 * i + j) == if 32 * i + j == f then used else Used(bitmap, 32 * i + j);
    }
  }

  lemma {:induction false} FreeInWordSame(w: bv32, w': bv32, k: nat)
    requires k <= 32 && forall j :: 0 <= j < 32 ==> Bit(w, j) == Bit(w', j)
    ensures FreeInWord(w, k) == FreeInWord(w', k)
    decreases 32 - k
  {
    hide Bit;
    if k < 32 {
      FreeInWordSame(w, w', k + 1);
    }
  }

  lemma {:induction false} FreeInWordNone(w: bv32, k: nat, b: nat)
    requires k <= b < 32
    ensures FreeInWord(w, k) == 0 ==> Bit(w, b)
    decreases 32 - k
  {
    hide Bit;
    if k < b {
      FreeInWordNone(w, k + 1, b);
    }
  }

  lemma {:induction false} FreeInWordAll(w: bv32, k: nat)
    requires k <= 32 && forall j :: k <= j < 32 ==> Bit(w, j)
    ensures FreeInWord(w, k) == 0
    decreases 32 - k
  {
    hide Bit;
    if k < 32 {
      FreeInWordAll(w, k + 1);
    }
  }

  /** The count is zero exactly when no frame is free. */
  lemma {:induction false} NoneFree(bitmap: seq<bv32>, n: nat)
    requires n <= |bitmap|
    ensures FreeFrames(bitmap, n) == 0 <==> forall f :: 0 <= f < 32 * n ==> Used(bitmap, f)
  {
    hide Bit, FreeInWord;
    if n > 0 {
      NoneFree(bitmap, n - 1);
      WordFrames(bitmap, n - 1);
    }
  }

  lemma WordFrames(bitmap: seq<bv32>, i: nat)
    requires i < |bitmap|
    ensures FreeInWord(bitmap[i], 0) == 0 <==> forall f :: 32 * i <= f < 32 * i + 32 ==> Used(bitmap, f)
  {
    hide Bit;
    var w := bitmap[i];
    if FreeInWord(w, 0) == 0 {
      forall f | 32 * i <= f < 32 * i + 32
        ensures Used(bitmap, f)
      {
        FreeInWordNone(w, 0, f - 32 * i);
      }
    }
    if forall f :: 32 * i <= f < 32 * i + 32 ==> Used(bitmap, f) {
      forall j | 0 <= j < 32
        ensures Bit(w, j)
      {
        assert Used(bitmap, 32 * i + j);
      }
      FreeInWordAll(w, 0);
    }
  }

  class Pmm {
    const memEnd: nat            // mem_end_page
    const nframes: nat
    const usedFrames: array<bv32>
    var lastAllocated: nat       // address of the last frame handed out, or NONE
    var memory: map<nat, PageData>

    ghost predicate Shape() {
      memEnd < 0x1_0000_0000 && nframes == memEnd / PAGE && usedFrames.Length == nframes / 32 + 1
    }

    /**
     Bits past the last frame stay set, and every dword below the one the hint points into is full.
     */
    ghost predicate Valid()
      reads this, usedFrames
    {
      && Shape()
      && UsedBetween(usedFrames[..], nframes, 32 * usedFrames.Length)
      && (lastAllocated != NONE ==>
            lastAllocated / PAGE / 32 <= nframes / 32 && AllUsedBelow(usedFrames[..], lastAllocated / PAGE / 32))
    }

    ghost function Bitmap(): seq<bv32>
      reads usedFrames
    {
      usedFrames[..]
    }

    /** Frames pmm_alloc considers: those of complete dwords. */
    function Limit(): nat { 32 * (nframes / 32) }

    /** How many frames pmm_alloc can still hand out. */
    ghost function FreeCount(): nat
      requires Shape()
      reads usedFrames
    {
      FreeFrames(usedFrames[..], nframes / 32)
    }

    /** All frames used, as before the memory map is read. */
    constructor (memEnd: nat)
      requires memEnd < 0x1_0000_0000
      ensures Valid() && this.memEnd == memEnd && lastAllocated == NONE && fresh(usedFrames)
      ensures UsedBetween(Bitmap(), 0, 32 * |Bitmap()|)
    {
      this.memEnd := memEnd;
      nframes := memEnd / PAGE;
      usedFrames := new bv32[memEnd / PAGE / 32 + 1](_ => FULL);
      lastAllocated := NONE;
      memory := map[];
      new;
      HintSound(Bitmap(), |Bitmap()|);
    }

    method SetFrame(phys: nat)
      requires Shape() && phys / PAGE / 32 <= nframes / 32
      requires !Used(usedFrames[..], phys / PAGE)
      modifies usedFrames
      ensures OnlyFrame(old(usedFrames[..]), usedFrames[..], phys / PAGE, true)
    {
      var frame := phys / PAGE;
      var index, offset := frame / 32, frame % 32;
      SetOnlyFrame(usedFrames[..], frame);
      usedFrames[index] := WithBit(usedFrames[index], offset);
    }

    method ClearFrame(phys: nat)
      requires Shape() && phys / PAGE / 32 <= nframes / 32
      requires Used(usedFrames[..], phys / PAGE)
      modifies usedFrames
      ensures OnlyFrame(old(usedFrames[..]), usedFrames[..], phys / PAGE, false)
    {
      var frame := phys / PAGE;
      var index, offset := frame / 32, frame % 32;
      ClearOnlyFrame(usedFrames[..], frame);
      usedFrames[index] := WithoutBit(usedFrames[index], offset);
    }

    /** The lowest free frame from one dword before the start address's own, as an address. */
    method FirstFreeFrame(start: nat) returns (r: nat)
      requires Shape()
      ensures var from := 32 * (if start / PAGE / 32 == 0 then 0 else start / PAGE / 32 - 1);
        if r == NONE
        then UsedBetween(Bitmap(), from, Limit())
        else r % PAGE == 0 && from <= r / PAGE < Limit() && !Used(Bitmap(), r / PAGE) && UsedBetween(Bitmap(), from, r / PAGE)
    {
      hide Used, FULL;
      var index := start / PAGE / 32;
      if index != 0 {
        index := index - 1;
      }
      ghost var from := 32 * index;
      while index < nframes / 32
        invariant from <= 32 * index
        invariant UsedBetween(Bitmap(), from, if index <= nframes / 32 then 32 * index else Limit())
      {
        FullMeansUsed(Bitmap(), index);
        if usedFrames[index] != FULL {
          var offset := 0;
          while offset < 32
            invariant 0 <= offset <= 32
            invariant UsedBetween(Bitmap(), from, 32 * index + offset)
          {
            BitIsUsed(Bitmap(), index, offset);
            if !Bit(usedFrames[index], offset) {
              AddressOf(index * 32 + offset);
              return (index * 32 + offset) * PAGE;
            }
            offset := offset + 1;
          }
        }
        index := index + 1;
      }
      r := NONE;
    }

    /**
     pmm_alloc.  The search from the hint finds what a search from frame 0 would; it gives up, and the
     kernel panics (ok is false), only when no frame of a complete dword is free.
     */
    method Alloc() returns (ok: bool, phys: nat)
      requires Valid()
      modifies this, usedFrames
      ensures Valid()
      ensures ok <==> exists f :: 0 <= f < Limit() && !Used(old(Bitmap()), f)
      ensures ok ==> phys % PAGE == 0 && LowestFree(old(Bitmap()), Limit(), phys / PAGE)
      ensures ok ==> OnlyFrame(old(Bitmap()), Bitmap(), phys / PAGE, true)
      ensures ok ==> memory == old(memory)[phys / PAGE := ZeroPage()]
      ensures !ok ==> Bitmap() == old(Bitmap()) && memory == old(memory)
      ensures ok <==> old(FreeCount()) > 0
      ensures FreeCount() == old(FreeCount()) - (if ok then 1 else 0)
    {
      hide Used, FULL, FreeFrames;
      NoneFree(Bitmap(), nframes / 32);
      if lastAllocated == NONE {
        lastAllocated := 0;
      }
      HintSound(Bitmap(), lastAllocated / PAGE / 32);
      phys := FirstFreeFrame(lastAllocated);
      assert phys == NONE ==> UsedBetween(Bitmap(), 0, Limit());
      if phys == NONE {
        return false, phys;
      }
      lastAllocated := phys;
      ghost var before := Bitmap();
      SetFrame(phys);
      HintAdvances(before, Bitmap(), phys / PAGE);
      FreeFramesChange(before, Bitmap(), phys / PAGE, true, nframes / 32);
      memory := memory[phys / PAGE := ZeroPage()];
      ok := true;
    }

    method Free(phys: nat)
      requires Valid() && phys / PAGE < nframes && Used(Bitmap(), phys / PAGE)
      modifies this, usedFrames
      ensures Valid() && lastAllocated == NONE && memory == old(memory)
      ensures OnlyFrame(old(Bitmap()), Bitmap(), phys / PAGE, false)
    {
      hide Used, FULL;
      ClearFrame(phys);
      lastAllocated := NONE;
    }

    /**
     pmm_alloc_continuous, with the 32-bit sums of the source.  ok is false where the kernel panics: no room
     left, or the frame at the new start of a restarted search, which is not checked, turns out to be used.
     */
    method AllocContinuous(num: nat) returns (ok: bool, start: nat)
      requires Valid() && memEnd + num * PAGE < 0x1_0000_0000
      modifies this, usedFrames
      ensures ok ==> Valid() && (if num < 2 then OnlyFrame(old(Bitmap()), Bitmap(), start / PAGE, true)
                                 else RunTaken(old(Bitmap()), Bitmap(), start / PAGE, num))
      ensures ok && num < 2 ==> LowestFree(old(Bitmap()), Limit(), start / PAGE)
      ensures ok && start % PAGE != 0 ==> UsedBetween(old(Bitmap()), 0, Limit())
      ensures num >= 2 ==> forall f {:trigger LowestFree(old(Bitmap()), Limit(), f)} :: LowestFree(old(Bitmap()), Limit(), f) ==>
                var run := RunFrom(old(Bitmap()), f, num, nframes);
                (ok <==> run >= 0 && !Used(old(Bitmap()), run)) && (ok ==> start == run * PAGE)
    {
      hide Used, RunFrom, RestFree;
      if num < 2 {
        ok, start := Alloc();
        return;
      }
      ok, start := FindRun(num);
      ghost var before, found := Bitmap(), ok;
      if ok {
        ok := SetRun(start, num);
      }
      forall f {:trigger LowestFree(before, Limit(), f)} | LowestFree(before, Limit(), f)
        ensures var run := RunFrom(before, f, num, nframes);
          (ok <==> run >= 0 && !Used(before, run)) && (ok ==> start == run * PAGE)
      {
        var run := RunFrom(before, f, num, nframes);
        if run >= 0 {
          assert found && start == run * PAGE && start != NONE;
          AddressOf(run);
          FreeFirst(before, run, num);
        }
      }
    }

    /** The inner loop: the run at start, or a new start just after the first of its frames that is used. */
    method CheckRun(start: nat, num: nat) returns (next: nat, success: bool)
      requires Shape() && memEnd + num * PAGE < 0x1_0000_0000 && 2 <= num
      requires start == NONE || start <= memEnd + PAGE
      requires U32(start + (num - 1) * PAGE) <= memEnd
      ensures success ==> next == start && RestFree(Bitmap(), start, num) && (start == NONE || start + (num - 1) * PAGE <= memEnd)
      ensures !success ==> next <= memEnd + PAGE && (start == NONE || start < next)
      ensures next % PAGE == start % PAGE
      ensures start % PAGE == 0 ==> RunAt(Bitmap(), memEnd, start, num) == RunAt(Bitmap(), memEnd, next, num)
      ensures success && start % PAGE == 0 ==> start == RunAt(Bitmap(), memEnd, start, num) * PAGE
    {
      hide Used, RunFrom, RunAt;
      RunFrame(memEnd, start, num - 1, num);
      var i := 1;
      while i < num
        invariant 1 <= i <= num
        invariant RestFree(Bitmap(), start, i)
      {
        RunFrame(memEnd, start, i, num);
        if Used(usedFrames[..], FrameAt(start, i)) {
          if start % PAGE == 0 {
            RunNext(Bitmap(), memEnd, start, i, num);
          }
          return After(start, i), false;
        }
        RestGrows(Bitmap(), start, i);
        i := i + 1;
      }
      if start % PAGE == 0 {
        RunDone(Bitmap(), memEnd, start, num);
      }
      return start, true;
    }

    /** The search loop: every frame of the run but its first has been checked. */
    method FindRun(num: nat) returns (ok: bool, start: nat)
      requires Shape() && memEnd + num * PAGE < 0x1_0000_0000 && 2 <= num
      ensures ok ==> start == NONE || start + (num - 1) * PAGE <= memEnd
      ensures ok ==> RestFree(Bitmap(), start, num)
      ensures ok && start % PAGE != 0 ==> UsedBetween(Bitmap(), 0, Limit())
      ensures forall f {:trigger LowestFree(Bitmap(), Limit(), f)} :: LowestFree(Bitmap(), Limit(), f) ==>
                var run := RunFrom(Bitmap(), f, num, nframes);
                (ok <==> run >= 0) && (ok ==> start != NONE && start == run * PAGE)
    {
      hide Used, RunFrom, RunAt, After;
      start := FirstFreeFrame(0);
      ghost var rest := start % PAGE;
      ghost var run := RunAt(Bitmap(), memEnd, start, num);
      SettledFrom(Bitmap(), memEnd, Limit(), start, num);
      var success := false;
      while !success
        invariant start == NONE || start <= memEnd + PAGE
        invariant success ==> start == NONE || start + (num - 1) * PAGE <= memEnd
        invariant start % PAGE == rest && (rest == 0 ==> start != NONE && RunAt(Bitmap(), memEnd, start, num) == run)
        invariant success && rest == 0 ==> start == run * PAGE
        invariant success ==> RestFree(Bitmap(), start, num)
        decreases !success, if start == NONE then 2 * 0x1_0000_0000 else 0x1_0000_0000 - start
      {
        if U32(start + (num - 1) * PAGE) > memEnd {
          if rest == 0 {
            NoRun(Bitmap(), memEnd, start, num);
          }
          return false, start;
        }
        start, success := CheckRun(start, num);
      }
      ok := true;
    }

    /** Marks the frames of the run; stops where the assertions of _pmm_set_frame do. */
    method SetRun(start: nat, num: nat) returns (ok: bool)
      requires Valid() && 2 <= num && memEnd + num * PAGE < 0x1_0000_0000
      requires start == NONE || start + (num - 1) * PAGE <= memEnd
      modifies usedFrames
      ensures ok ==> Valid() && RunTaken(old(Bitmap()), Bitmap(), start / PAGE, num)
      ensures start != NONE && start % PAGE == 0 ==>
                (ok <==> FreeBetween(old(Bitmap()), start / PAGE, start / PAGE + num))
    {
      hide Used, FULL;
      var i := 0;
      while i < num
        invariant 0 <= i <= num && Valid()
        invariant i > 0 ==> start != NONE
        invariant RunTaken(old(Bitmap()), Bitmap(), start / PAGE, i)
      {
        var phys := U32(start + i * PAGE);
        if start != NONE && start % PAGE == 0 {
          FrameOfRun(memEnd, start, i, num);
          FrameOfRun(memEnd, start, num - 1, num);
        }
        if phys / PAGE / 32 > nframes / 32 || Used(usedFrames[..], phys / PAGE) {
          return false;
        }
        RunAddress(memEnd, start, i, num);
        ghost var before := Bitmap();
        SetFrame(phys);
        SetKeepsFull(before, Bitmap(), phys / PAGE, if lastAllocated == NONE then 0 else lastAllocated / PAGE / 32);
        i := i + 1;
      }
      ok := true;
    }

    /** pmm_bytes_free. */
    method BytesFree() returns (unused: nat)
      requires Shape()
      ensures unused == PAGE * FreeFrames(Bitmap(), nframes / 32)
    {
      hide FreeInWord, FULL;
      unused := 0;
      var index := 0;
      while index < nframes / 32
        invariant 0 <= index <= nframes / 32
        invariant unused == PAGE * FreeFrames(Bitmap(), index)
      {
        var w := usedFrames[index];
        FreeInWordBounds(w, 0);
        if w == 0 {
          unused := unused + PAGE * 32;
        } else if w != FULL {
          var n := CountClear(w);
          unused := unused + PAGE * n;
        }
        index := index + 1;
      }
    }

    /** pmm_bytes_used: what is not free among the frames of complete dwords. */
    method BytesUsed() returns (used: nat)
      requires Shape()
      ensures used == PAGE * (Limit() - FreeFrames(Bitmap(), nframes / 32))
    {
      hide FreeInWord, FULL;
      used := 0;
      var index := 0;
      while index < nframes / 32
        invariant 0 <= index <= nframes / 32
        invariant used == PAGE * (32 * index - FreeFrames(Bitmap(), index))
      {
        var w := usedFrames[index];
        FreeInWordBounds(w, 0);
        if w == FULL {
          used := used + 32 * PAGE;
        } else if w != 0 {
          var n := CountClear(w);
          used := used + PAGE * (32 - n);
        }
        index := index + 1;
      }
    }

    /** The inner loop of both: bits of a dword that are clear. */
    static method CountClear(w: bv32) returns (n: nat)
      ensures n == FreeInWord(w, 0)
    {
      hide Bit;
      n := 0;
      var offset := 0;
      while offset < 32
        invariant 0 <= offset <= 32
        invariant n + FreeInWord(w, offset) == FreeInWord(w, 0)
      {
        if !Bit(w, offset) {
          n := n + 1;
        }
        offset := offset + 1;
      }
    }
  }

  /** The frame that the source tests for position i of a run. */
  function FrameAt(start: nat, i: nat): nat { U32(start + i * PAGE) / PAGE }

  /** Every frame of the run but its first was found free. */
  ghost predicate RestFree(bitmap: seq<bv32>, start: nat, num: nat) {
    forall i: nat :: 1 <= i < num ==> FrameAt(start, i) < 32 * |bitmap| && !Used(bitmap, FrameAt(start, i))
  }

  ghost predicate FreeBetween(bitmap: seq<bv32>, lo: int, hi: int) {
    forall f {:trigger Used(bitmap, f)} :: 0 <= f < 32 * |bitmap| && lo <= f < hi ==> !Used(bitmap, f)
  }

  /** The first used frame of [f, hi), or hi. */
  ghost function NextUsed(bitmap: seq<bv32>, f: nat, hi: nat): (r: nat)
    requires f <= hi <= 32 * |bitmap|
    ensures f <= r <= hi && (r < hi ==> Used(bitmap, r)) && FreeBetween(bitmap, f, r)
    decreases hi - f
  {
    if f == hi || Used(bitmap, f) then f else NextUsed(bitmap, f + 1, hi)
  }

  /**
   The run of num frames that the search from frame f on settles on, or -1: each time it meets a used frame it
   starts again just after it, without looking at the frame it starts from.
   */
  ghost function RunFrom(bitmap: seq<bv32>, f: nat, num: nat, last: nat): (r: int)
    requires 2 <= num && last < 32 * |bitmap|
    ensures r >= 0 ==> f <= r && r + num - 1 <= last && FreeBetween(bitmap, r + 1, r + num)
    decreases if f <= last then last - f + 1 else 0
  {
    if f + num - 1 > last then -1
    else
      var u := NextUsed(bitmap, f + 1, f + num);
      if u == f + num then f else RunFrom(bitmap, u + 1, num, last)
  }

  lemma NextUsedIs(bitmap: seq<bv32>, f: nat, hi: nat, u: nat)
    requires f <= u <= hi <= 32 * |bitmap| && (u < hi ==> Used(bitmap, u)) && FreeBetween(bitmap, f, u)
    ensures NextUsed(bitmap, f, hi) == u
  {
    hide Used;
  }

  lemma RunStep(bitmap: seq<bv32>, f: nat, num: nat, last: nat, i: nat)
    requires 2 <= num && last < 32 * |bitmap| && f + num - 1 <= last && 1 <= i <= num
    requires FreeBetween(bitmap, f + 1, f + i) && (i < num ==> Used(bitmap, f + i))
    ensures RunFrom(bitmap, f, num, last) == if i == num then f else RunFrom(bitmap, f + i + 1, num, last)
  {
    hide Used, NextUsed, FreeBetween;
    NextUsedIs(bitmap, f + 1, f + num, f + i);
  }

  lemma FreeFirst(bitmap: seq<bv32>, r: nat, num: nat)
    requires 1 <= num && r + num <= 32 * |bitmap| && FreeBetween(bitmap, r + 1, r + num)
    ensures FreeBetween(bitmap, r, r + num) <==> !Used(bitmap, r)
  {
    hide Used;
  }

  /** A run whose frames after the first are free is found at once. */
  lemma RunAtOnce(bitmap: seq<bv32>, f: nat, num: nat, last: nat)
    requires 2 <= num && last < 32 * |bitmap| && f + num - 1 <= last && FreeBetween(bitmap, f + 1, f + num)
    ensures RunFrom(bitmap, f, num, last) == f
  {
    hide Used;
    NextUsedIs(bitmap, f + 1, f + num, f + num);
  }

  lemma OneLowest(bitmap: seq<bv32>, limit: nat, f: nat)
    requires limit <= 32 * |bitmap|
    ensures forall g {:trigger LowestFree(bitmap, limit, g)} :: LowestFree(bitmap, limit, g) && LowestFree(bitmap, limit, f) ==> g == f
  {
    hide Used;
  }

  /** Without wrap-around, position i of a run that starts at a frame is frame i after it. */
  lemma FrameOfRun(memEnd: nat, start: nat, i: nat, num: nat)
    requires i < num && memEnd + num * PAGE < 0x1_0000_0000 && start % PAGE == 0 && start <= memEnd + PAGE
    ensures FrameAt(start, i) == start / PAGE + i && U32(start + i * PAGE) == start + i * PAGE
    ensures start + i * PAGE <= memEnd <==> start / PAGE + i <= memEnd / PAGE
    ensures start + i * PAGE <= memEnd ==> U32(start + (i + 1) * PAGE) / PAGE == start / PAGE + i + 1
    ensures start == start / PAGE * PAGE
  {
    var f := start / PAGE;
    assert (i + 1) * PAGE <= num * PAGE;
    assert start + i * PAGE == (f + i) * PAGE && start + (i + 1) * PAGE == (f + i + 1) * PAGE;
    AddressOf(f + i);
    AddressOf(f + i + 1);
  }

  lemma RestIsFree(bitmap: seq<bv32>, memEnd: nat, start: nat, i: nat, num: nat)
    requires i <= num && memEnd + num * PAGE < 0x1_0000_0000 && start % PAGE == 0 && start <= memEnd + PAGE
    requires RestFree(bitmap, start, i)
    ensures FreeBetween(bitmap, start / PAGE + 1, start / PAGE + i)
  {
    hide Used, FrameAt;
    var f := start / PAGE;
    forall g | 0 <= g < 32 * |bitmap| && f + 1 <= g < f + i ensures !Used(bitmap, g) {
      FrameOfRun(memEnd, start, g - f, num);
      assert !Used(bitmap, FrameAt(start, g - f));
    }
  }

  lemma RestGrows(bitmap: seq<bv32>, start: nat, i: nat)
    requires RestFree(bitmap, start, i) && FrameAt(start, i) < 32 * |bitmap| && !Used(bitmap, FrameAt(start, i))
    ensures RestFree(bitmap, start, i + 1)
  {
    hide Used, FrameAt;
  }

  /** The run that the search from address start on settles on. */
  ghost function RunAt(bitmap: seq<bv32>, memEnd: nat, start: nat, num: nat): int
    requires 2 <= num && memEnd / PAGE < 32 * |bitmap|
  {
    RunFrom(bitmap, start / PAGE, num, memEnd / PAGE)
  }

  function After(start: nat, i: nat): nat { U32(start + (i + 1) * PAGE) }

  ghost predicate Fits(bitmap: seq<bv32>, memEnd: nat, start: nat, num: nat) {
    && 2 <= num && memEnd + num * PAGE < 0x1_0000_0000 && memEnd / PAGE < 32 * |bitmap|
    && start % PAGE == 0 && start <= memEnd + PAGE && U32(start + (num - 1) * PAGE) <= memEnd
  }

  lemma RunFits(bitmap: seq<bv32>, memEnd: nat, start: nat, i: nat, num: nat)
    requires i < num && Fits(bitmap, memEnd, start, num)
    ensures start / PAGE + (num - 1) <= memEnd / PAGE
    ensures FrameAt(start, i) == start / PAGE + i && After(start, i) / PAGE == start / PAGE + i + 1
  {
    hide FrameAt;
    FrameOfRun(memEnd, start, num - 1, num);
    FrameOfRun(memEnd, start, i, num);
  }

  lemma RunTerms(bitmap: seq<bv32>, memEnd: nat, start: nat, i: nat, num: nat, n: nat) returns (f: nat, last: nat)
    requires i < num && n <= num && Fits(bitmap, memEnd, start, num) && RestFree(bitmap, start, n)
    ensures memEnd / PAGE < 32 * |bitmap| && 2 <= num
    ensures last < 32 * |bitmap| && f + num - 1 <= last && FrameAt(start, i) == f + i && FreeBetween(bitmap, f + 1, f + n)
    ensures RunAt(bitmap, memEnd, start, num) == RunFrom(bitmap, f, num, last)
    ensures RunAt(bitmap, memEnd, After(start, i), num) == RunFrom(bitmap, f + i + 1, num, last)
    ensures f == start / PAGE
  {
    hide FrameAt, U32, RestFree, RunFrom, FreeBetween, After;
    f, last := start / PAGE, memEnd / PAGE;
    RunFits(bitmap, memEnd, start, i, num);
    RestIsFree(bitmap, memEnd, start, n, num);
  }

  /** A used frame after i - 1 free ones: the search goes on after it. */
  lemma RunNext(bitmap: seq<bv32>, memEnd: nat, start: nat, i: nat, num: nat)
    requires 1 <= i < num && Fits(bitmap, memEnd, start, num) && RestFree(bitmap, start, i)
    requires FrameAt(start, i) < 32 * |bitmap| && Used(bitmap, FrameAt(start, i))
    ensures memEnd / PAGE < 32 * |bitmap| && 2 <= num
    ensures RunAt(bitmap, memEnd, start, num) == RunAt(bitmap, memEnd, After(start, i), num)
  {
    hide Used, FrameAt, RestFree, RunFrom, FreeBetween, Fits, RunAt, After;
    var f, last := RunTerms(bitmap, memEnd, start, i, num, i);
    RunStep(bitmap, f, num, last, i);
  }

  /** No used frame: the search is done. */
  lemma RunDone(bitmap: seq<bv32>, memEnd: nat, start: nat, num: nat)
    requires Fits(bitmap, memEnd, start, num) && RestFree(bitmap, start, num)
    ensures memEnd / PAGE < 32 * |bitmap| && 2 <= num
    ensures RunAt(bitmap, memEnd, start, num) == start / PAGE
  {
    hide Used, FrameAt, RestFree, RunFrom, FreeBetween, RunAt, After;
    var f, last := RunTerms(bitmap, memEnd, start, 0, num, num);
    RunAtOnce(bitmap, f, num, last);
  }

  lemma SettledFrom(bitmap: seq<bv32>, memEnd: nat, limit: nat, start: nat, num: nat)
    requires 2 <= num && memEnd / PAGE < 32 * |bitmap| && limit <= 32 * |bitmap|
    ensures forall g {:trigger LowestFree(bitmap, limit, g)} :: LowestFree(bitmap, limit, g) && LowestFree(bitmap, limit, start / PAGE) ==>
              RunFrom(bitmap, g, num, memEnd / PAGE) == RunAt(bitmap, memEnd, start, num)
  {
    hide LowestFree, RunFrom;
    OneLowest(bitmap, limit, start / PAGE);
  }

  lemma NoRun(bitmap: seq<bv32>, memEnd: nat, start: nat, num: nat)
    requires 2 <= num && memEnd + num * PAGE < 0x1_0000_0000 && memEnd / PAGE < 32 * |bitmap|
    requires start % PAGE == 0 && start <= memEnd + PAGE && U32(start + (num - 1) * PAGE) > memEnd
    ensures RunAt(bitmap, memEnd, start, num) == -1
  {
    hide Used, FrameAt, U32;
    FrameOfRun(memEnd, start, num - 1, num);
  }

  /** Frames [first, first + n) went from free to used; no other frame changed. */
  ghost predicate RunTaken(bitmap: seq<bv32>, bitmap': seq<bv32>, first: nat, n: nat) {
    && |bitmap'| == |bitmap| && (n > 0 ==> first + n <= 32 * |bitmap|)
    && (forall f :: 0 <= f < 32 * |bitmap| ==>
          if first <= f < first + n then !Used(bitmap, f) && Used(bitmap', f) else Used(bitmap', f) == Used(bitmap, f))
  }

  lemma BitIsUsed(bitmap: seq<bv32>, index: nat, offset: nat)
    requires index < |bitmap| && offset < 32
    ensures Used(bitmap, 32 * index + offset) == Bit(bitmap[index], offset)
  {
  }

  lemma RunFrame(memEnd: nat, start: nat, i: nat, num: nat)
    requires 1 <= i < num && memEnd + num * PAGE < 0x1_0000_0000
    requires start == NONE || start <= memEnd + PAGE
    requires U32(start + (num - 1) * PAGE) <= memEnd
    ensures U32(start + i * PAGE) <= memEnd
    ensures start != NONE ==> U32(start + i * PAGE) == start + i * PAGE && U32(start + (i + 1) * PAGE) == start + (i + 1) * PAGE
    ensures start == NONE ==> U32(start + (i + 1) * PAGE) == (i + 1) * PAGE - 1
    ensures U32(start + (i + 1) * PAGE) <= memEnd + PAGE && U32(start + (i + 1) * PAGE) % PAGE == start % PAGE
  {
    assert i * PAGE <= (num - 1) * PAGE && (i + 1) * PAGE <= num * PAGE;
  }

  lemma RunAddress(memEnd: nat, start: nat, i: nat, num: nat)
    requires 0 <= i < num && memEnd + num * PAGE < 0x1_0000_0000 && start != NONE && start + (num - 1) * PAGE <= memEnd
    ensures U32(start + i * PAGE) == start + i * PAGE && (start + i * PAGE) / PAGE == start / PAGE + i
  {
    assert i * PAGE <= (num - 1) * PAGE;
  }

  lemma SetKeepsFull(bitmap: seq<bv32>, bitmap': seq<bv32>, f: nat, n: nat)
    requires OnlyFrame(bitmap, bitmap', f, true) && n <= |bitmap| && AllUsedBelow(bitmap, n)
    ensures AllUsedBelow(bitmap', n)
  {
    hide Used;
    forall i | 0 <= i < n ensures bitmap'[i] == FULL {
      FullMeansUsed(bitmap, i);
      FullMeansUsed(bitmap', i);
    }
  }

  lemma HintSound(bitmap: seq<bv32>, n: nat)
    requires n <= |bitmap| && AllUsedBelow(bitmap, n)
    ensures UsedBetween(bitmap, 0, 32 * n)
  {
    hide Used;
    forall f | 0 <= f < 32 * n ensures Used(bitmap, f) {
      FullMeansUsed(bitmap, f / 32);
    }
  }

  lemma HintAdvances(bitmap: seq<bv32>, bitmap': seq<bv32>, f: nat)
    requires OnlyFrame(bitmap, bitmap', f, true) && UsedBetween(bitmap, 0, f)
    ensures AllUsedBelow(bitmap', f / 32)
  {
    hide Used;
    forall i | 0 <= i < f / 32 ensures bitmap'[i] == FULL {
      FullMeansUsed(bitmap', i);
    }
  }
}
