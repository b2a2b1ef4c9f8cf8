/** The kernel heap (heap.c): a boundary-tag allocator with two size-ordered indexes. */
module KernelHeap {
  import opened HeapTags
  import opened HeapSteps
  import opened OrderedArrays

  const INDEX_SIZE: nat := 0x10000
  const MIN_GROWTH: int := 0x8000
  const INITIAL_SIZE: int := 0x90000
  const MAX_WASTE: int := 0x120000
  const KEPT_WASTE: int := 0x100000
  const MIN_SHRINK: int := 512 * 1024

  //  32-bit sums; the kernel heap lies between 0xc0000000 and 0xd0000000

  const WORD: int := 0x1_0000_0000
  const LOWEST: int := 0xc000_0000
  const HIGHEST: int := 0xe000_0000

  function U32(x: int): (r: int)
    ensures 0 <= r < WORD
  {
    x % WORD
  }

  lemma U32Facts(x: int)
    requires -WORD <= x < 2 * WORD
    ensures U32(x) == if x < 0 then x + WORD else if x < WORD then x else x - WORD
  {
  }

  function Overhead(align: bool): int { if align then OVERHEAD else OVERHEAD + 3 }

  /** What heap_alloc looks for: the bytes asked for, the tags, and room to align. */
  function Needed(size: int, align: bool): (r: int)
    ensures 0 <= r < WORD
  {
    U32(size + Overhead(align))
  }

  /** What the new area takes of a hole: all of it, when too little would be left. */
  function Used(total: int, need: int): int { if total - need >= MIN_SPLIT then need else total }

  //  What the tags must mean

  ghost predicate FreePair(tiles: Tiles, a: int) {
    && a in tiles && tiles[a].free
    && a + tiles[a].size in tiles && tiles[a + tiles[a].size].free
  }

  /** No two free areas touch. */
  ghost predicate Separated(tiles: Tiles) {
    forall a {:trigger FreePair(tiles, a)} :: !FreePair(tiles, a)
  }

  /** The indexes hold exactly the headers of the free and of the used areas, each once. */
  ghost predicate Indexed(tiles: Tiles, free: seq<int>, used: seq<int>, missing: set<int>) {
    && NoDuplicates(free) && NoDuplicates(used)
    && (forall a :: a in free <==> a in tiles && tiles[a].free && a !in missing)
    && (forall a :: a in used <==> a in tiles && !tiles[a].free)
  }

  ghost predicate Last(tiles: Tiles, end: int, a: int) { a in tiles && a + tiles[a].size == end }

  /** The pointer heap_alloc returns for the area at a: just past the header, on a dword boundary. */
  function Pointer(a: int): int { (a + HEADER + 3) / 4 * 4 }

  lemma PointerFacts(a: int)
    ensures Pointer(a) % 4 == 0 && a + HEADER <= Pointer(a) <= a + HEADER + 3
    ensures Pointer(a) == if (a + HEADER) % 4 != 0 then a + HEADER - (a + HEADER) % 4 + 4 else a + HEADER
    ensures (a + HEADER) % PAGE == 0 ==> Pointer(a) == a + HEADER && Pointer(a) % PAGE == 0
  {
    RoundUp(a + HEADER);
    PageIsAligned(a + HEADER);
  }

  lemma RoundUp(p: int)
    ensures var r := (p + 3) / 4 * 4; r % 4 == 0 && r == if p % 4 != 0 then p - p % 4 + 4 else p
  {
  }

  lemma PageIsAligned(p: int)
    ensures p % PAGE == 0 ==> p % 4 == 0
  {
    if p % PAGE == 0 {
      assert p == 4 * (1024 * (p / PAGE));
    }
  }

  method AlignedPointer(at: int) returns (p: int)
    ensures p == Pointer(at)
  {
    p := at + HEADER;
    if p % 4 != 0 {
      p := p - p % 4 + 4;
    }
  }

  /** What a live pointer was asked to hold; below zero when the request wrapped around, and then it may not be used at all. */
  datatype Grant = Grant(at: int, size: int)

  /** Live allocations are exactly the used areas, and each payload has the size that was asked for. */
  ghost predicate Granted(tiles: Tiles, live: map<int, Grant>) {
    && (forall a :: a in tiles && !tiles[a].free ==> Pointer(a) in live && live[Pointer(a)].at == a)
    && (forall p :: p in live ==> Honoured(tiles, p, live[p]))
  }

  ghost predicate Honoured(tiles: Tiles, p: int, g: Grant) {
    && g.at in tiles && !tiles[g.at].free && p == Pointer(g.at)
    && p + g.size <= g.at + tiles[g.at].size - FOOTER
  }

  /** A live payload lies inside the heap, on a dword boundary, between the tags of its own area and clear of those of any other. */
  lemma LiveInside(start: int, end: int, tiles: Tiles, live: map<int, Grant>, p: int, b: int)
    requires Tiling(tiles, start, end) && Granted(tiles, live) && p in live && b in tiles
    ensures p % 4 == 0 && start + HEADER <= p && p + live[p].size + FOOTER <= end
    ensures live[p].at == b ==> b + HEADER <= p && p + live[p].size + FOOTER <= b + tiles[b].size
    ensures live[p].at != b ==> b + tiles[b].size + HEADER <= p || p + live[p].size + FOOTER <= b
  {
    var a := live[p].at;
    assert Honoured(tiles, p, live[p]);
    assert TileFits(tiles, start, end, a) && TileFits(tiles, start, end, b);
    hide Tiling, Granted;
  }

  /** Live payloads never overlap and lie inside the heap, clear of every tag. */
  lemma LiveDisjoint(start: int, end: int, tiles: Tiles, live: map<int, Grant>, p: int, q: int)
    requires Tiling(tiles, start, end) && Granted(tiles, live) && p in live && q in live && p < q
    ensures start < p && p + live[p].size + FOOTER + HEADER <= q && q + live[q].size < end
    ensures p % 4 == 0 && q % 4 == 0
  {
    var a, b := live[p].at, live[q].at;
    assert Honoured(tiles, p, live[p]) && Honoured(tiles, q, live[q]);
    assert TileFits(tiles, start, end, a) && TileFits(tiles, start, end, b);
    assert a < b;
  }

  //  Tiling-level effect of each operation on separation and grants

  predicate Fits(size: int, a: int, need: int, align: bool) {
    size >= need && (align ==> size - PageLoss(a) >= need)
  }

  /** The tiling after n bytes are placed o bytes into the free area at a, whose left neighbour is b. */
  ghost function AllocTiles(tiles: Tiles, b: int, a: int, o: int, n: int): Tiles
    requires a in tiles && 0 <= o && (0 < o <= OVERHEAD ==> b in tiles)
  {
    var h := tiles[a].size;
    if o == 0 then tiles + PlacedTiles(a, h, n)
    else if OVERHEAD < o then tiles + (map[a := Tile(o, true)] + PlacedTiles(a + o, h - o, n))
    else (tiles - {a}) + (map[b := Tile(tiles[b].size + o, tiles[b].free)] + PlacedTiles(a + o, h - o, n))
  }

  ghost predicate AllocReady(start: int, end: int, tiles: Tiles, b: int, a: int, o: int, n: int) {
    && Tiling(tiles, start, end) && Separated(tiles) && a in tiles && tiles[a].free
    && 0 <= o && OVERHEAD < n <= tiles[a].size - o
    && (0 < o <= OVERHEAD ==> b in tiles && b + tiles[b].size == a)
  }

  lemma AllocNeighbours(start: int, end: int, tiles: Tiles, b: int, a: int, o: int, n: int, x: int)
    requires AllocReady(start, end, tiles, b, a, o, n) && x in tiles && x != a
    ensures x + tiles[x].size <= a || a + tiles[a].size <= x
    ensures x + tiles[x].size == a || x == a + tiles[a].size ==> !tiles[x].free
    ensures OVERHEAD < tiles[x].size && OVERHEAD < tiles[a].size && a + tiles[a].size <= end
    ensures x < a ==> x + tiles[x].size == a || (x + tiles[x].size in tiles && x + tiles[x].size < a)
    ensures a < x ==> x + tiles[x].size == end || x + tiles[x].size in tiles
  {
    assert !FreePair(tiles, x) && !FreePair(tiles, a);
    assert TileFits(tiles, start, end, x) && TileFits(tiles, start, end, a);
  }

  lemma AllocSeparated(start: int, end: int, tiles: Tiles, b: int, a: int, o: int, n: int)
    requires AllocReady(start, end, tiles, b, a, o, n)
    ensures Separated(AllocTiles(tiles, b, a, o, n))
  {
    hide Tiling;
    var tiles' := AllocTiles(tiles, b, a, o, n);
    forall x ensures !FreePair(tiles', x) {
      assert !FreePair(tiles, x) && !FreePair(tiles, a);
      if x in tiles && x != a {
        AllocNeighbours(start, end, tiles, b, a, o, n, x);
      }
      if 0 < o <= OVERHEAD {
        AllocNeighbours(start, end, tiles, b, a, o, n, b);
      }
      var r := a + tiles[a].size;
      if r in tiles {
        AllocNeighbours(start, end, tiles, b, a, o, n, r);
      }
    }
  }

  lemma AllocGranted(start: int, end: int, tiles: Tiles, b: int, a: int, o: int, n: int, live: map<int, Grant>, request: int)
    requires AllocReady(start, end, tiles, b, a, o, n) && Granted(tiles, live)
    requires Pointer(a + o) + request <= a + o + n - FOOTER
    ensures Pointer(a + o) !in live
    ensures Granted(AllocTiles(tiles, b, a, o, n), live[Pointer(a + o) := Grant(a + o, request)])
  {
    hide Tiling;
    var tiles' := AllocTiles(tiles, b, a, o, n);
    var at := a + o;
    var live' := live[Pointer(at) := Grant(at, request)];
    if 0 < o <= OVERHEAD {
      AllocNeighbours(start, end, tiles, b, a, o, n, b);
    }
    forall p | p in live ensures p != Pointer(at) && Honoured(tiles', p, live[p]) {
      assert Honoured(tiles, p, live[p]);
      AllocNeighbours(start, end, tiles, b, a, o, n, live[p].at);
    }
    assert Honoured(tiles', Pointer(at), live'[Pointer(at)]);
    forall x | x in tiles' && !tiles'[x].free ensures Pointer(x) in live' && live'[Pointer(x)].at == x {
      if x != at {
        assert x in tiles && !tiles[x].free;
      }
    }
  }

  lemma AllocLast(start: int, end: int, tiles: Tiles, b: int, a: int, o: int, n: int, r: int)
    requires AllocReady(start, end, tiles, b, a, o, n) && Last(tiles, end, r)
    ensures var h := tiles[a].size;
      var newest := if h - o - n >= MIN_SPLIT then a + o + n else a + o;
      Last(AllocTiles(tiles, b, a, o, n), end, if newest > r then newest else r)
  {
    hide Tiling;
    if r != a {
      AllocNeighbours(start, end, tiles, b, a, o, n, r);
    }
    if 0 < o <= OVERHEAD && b != a {
      AllocNeighbours(start, end, tiles, b, a, o, n, b);
    }
  }

  //  Freeing

  /** Only the free area at x may still touch a free one, on its right. */
  ghost predicate SeparatedButRight(tiles: Tiles, x: int) {
    forall a {:trigger FreePair(tiles, a)} :: FreePair(tiles, a) ==> a == x
  }

  lemma ReleaseGranted(tiles: Tiles, live: map<int, Grant>, p: int)
    requires Granted(tiles, live) && p in live
    ensures var h := live[p].at; Granted(tiles[h := tiles[h].(free := true)], live - {p})
  {
    var h := live[p].at;
    var tiles' := tiles[h := tiles[h].(free := true)];
    assert Honoured(tiles, p, live[p]);
    forall q | q in live - {p} ensures Honoured(tiles', q, live[q]) {
      assert Honoured(tiles, q, live[q]);
    }
  }

  lemma MergeGranted(tiles: Tiles, live: map<int, Grant>, a: int, b: int, t: Tile)
    requires Granted(tiles, live) && a in tiles && b in tiles && tiles[a].free && tiles[b].free && t.free
    ensures Granted((tiles - {b})[a := t], live)
  {
    var tiles' := (tiles - {b})[a := t];
    forall q | q in live ensures Honoured(tiles', q, live[q]) {
      assert Honoured(tiles, q, live[q]);
    }
  }

  /** After the left merge of h into b, b can only touch a free area on its right. */
  lemma MergeLeftSeparated(start: int, end: int, tiles: Tiles, b: int, h: int)
    requires Tiling(tiles, start, end) && Separated(tiles) && h in tiles && !tiles[h].free
    requires b in tiles && tiles[b].free && b + tiles[b].size == h
    ensures SeparatedButRight((tiles - {h})[b := Tile(tiles[b].size + tiles[h].size, true)], b)
  {
    var tiles' := (tiles - {h})[b := Tile(tiles[b].size + tiles[h].size, true)];
    forall x | FreePair(tiles', x) ensures x == b {
      assert !FreePair(tiles, x) && !FreePair(tiles, b);
      assert x in tiles && TileFits(tiles, start, end, x);
    }
  }

  lemma ReleaseSeparated(tiles: Tiles, h: int)
    requires Separated(tiles) && h in tiles && !tiles[h].free
    requires forall b :: b in tiles && b + tiles[b].size == h ==> !tiles[b].free
    ensures SeparatedButRight(tiles[h := tiles[h].(free := true)], h)
  {
    var tiles' := tiles[h := tiles[h].(free := true)];
    forall x | FreePair(tiles', x) ensures x == h {
      assert !FreePair(tiles, x);
    }
  }

  lemma MergeRightSeparated(start: int, end: int, tiles: Tiles, x: int, r: int)
    requires Tiling(tiles, start, end) && SeparatedButRight(tiles, x) && FreePair(tiles, x) && r == x + tiles[x].size
    ensures Separated((tiles - {r})[x := Tile(tiles[x].size + tiles[r].size, true)])
  {
    var tiles' := (tiles - {r})[x := Tile(tiles[x].size + tiles[r].size, true)];
    assert TileFits(tiles, start, end, x);
    hide Tiling;
    forall y ensures !FreePair(tiles', y) {
      assert FreePair(tiles, y) ==> y == x;
      assert !FreePair(tiles, r);
    }
  }

  lemma MergeLast(start: int, end: int, tiles: Tiles, a: int, b: int, r: int)
    requires Tiling(tiles, start, end) && Last(tiles, end, r)
    requires a in tiles && b in tiles && a + tiles[a].size == b
    ensures Last((tiles - {b})[a := Tile(tiles[a].size + tiles[b].size, true)], end, if r == b then a else r)
  {
    assert TileFits(tiles, start, end, a) && TileFits(tiles, start, end, b);
  }

  /** The invariant of every run of heap_alloc and heap_free. */
  ghost predicate Consistent(start: int, end: int, mem: Memory, tiles: Tiles,
                             free: seq<int>, used: seq<int>, rightmost: int, live: map<int, Grant>)
  {
    && Core(start, end, mem, tiles)
    && Last(tiles, end, rightmost)
    && Indexed(tiles, free, used, {})
    && Separated(tiles)
    && Granted(tiles, live)
  }

  function Growth(size: int): int {
    RoundUpPage(if size < MIN_GROWTH then MIN_GROWTH else size)
  }

  function RoundUpPage(x: int): int { if x % PAGE != 0 then x - x % PAGE + PAGE else x }

  lemma GrowthFacts(size: int, size': int)
    requires size <= size'
    ensures size <= Growth(size) && MIN_GROWTH <= Growth(size) <= Growth(size') && Growth(size) % PAGE == 0
  {
  }

  /** The growth as heap_expand computes it, short of the last sum, which can only reach 2^32. */
  lemma GrowthIs(size: int)
    requires 0 <= size < WORD
    ensures var m := if size < MIN_GROWTH then MIN_GROWTH else size;
      Growth(size) <= WORD && Growth(size) == if m % PAGE != 0 then m - m % PAGE + PAGE else m
  {
  }

  /** An address moved back to a page boundary. */
  function RoundedDown(x: int): int { if x % PAGE != 0 then x - x % PAGE else x }

  lemma RoundedDownFacts(x: int, y: int)
    ensures RoundedDown(x) % PAGE == 0 && x - PAGE < RoundedDown(x) <= x && RoundedDown(x) == x - x % PAGE
    ensures y % PAGE == 0 && y <= x ==> y <= RoundedDown(x)
    ensures x % PAGE == 0 ==> RoundedDown(x) == x
  {
  }

  /** The sums of heap_expand for a growth by g bytes: when its assertions hold, and the end they lead to. */
  lemma ExpandSums(start: int, end: int, max: int, g: int)
    requires LOWEST <= start <= end < WORD && start <= max < HIGHEST && end % PAGE == 0
    requires 0 < g <= WORD && g % PAGE == 0
    ensures var more := if U32(start + U32(g)) > max then U32((max - start) - (end - start)) else U32(g);
      var newEnd := RoundedDown(U32(end + more));
      var ok := start < U32(start + more) <= max && end < newEnd;
      && (ok <==> !(start + g >= WORD || if start + g <= max then end + g >= WORD else max - max % PAGE <= end))
      && (ok ==> newEnd == if start + g <= max then end + g else max - max % PAGE)
      && (ok ==> end + PAGE <= newEnd < WORD && newEnd % PAGE == 0)
  {
    hide U32, RoundedDown;
    U32Facts(g);
    U32Facts(start + U32(g));
    var more := if U32(start + U32(g)) > max then U32((max - start) - (end - start)) else U32(g);
    U32Facts((max - start) - (end - start));
    U32Facts(start + more);
    U32Facts(end + more);
    PageSum(end, g);
    var newEnd := RoundedDown(U32(end + more));
    RoundedDownFacts(U32(end + more), end);
    RoundedDownFacts(max, end);
    PageBelow(newEnd, end);
  }

  ghost predicate CappedAt(start: int, end: int, max: int, bytes: int) {
    var more := Growth(bytes);
    start + more >= WORD || if start + more <= max then end + more >= WORD else max - max % PAGE <= end
  }

  /** What the last of the retries allowed asks for at most, without its overhead. */
  ghost function Asked(need: int, align: bool, tries: nat): int { need - Overhead(align) + 23 * (2 - tries) }

  ghost predicate TightAt(start: int, end: int, max: int, need: int, align: bool, tries: nat) {
    var most := Growth(Asked(need, align, tries));
    start + most > max || end + (if tries == 0 then 3 * most else if tries == 1 then 2 * most else most) >= WORD
  }

  /** A request that stops heap_expand stops it when more is asked for. */
  lemma CappedMore(start: int, end: int, max: int, bytes: int, bytes': int)
    requires LOWEST <= start <= end < WORD && start <= max < HIGHEST && bytes <= bytes' && CappedAt(start, end, max, bytes)
    ensures CappedAt(start, end, max, bytes')
  {
    GrowthFacts(bytes, bytes');
    hide Growth;
  }

  lemma GrowFacts(start: int, end: int, max: int, size: int, need: int, align: bool, tries: nat)
    requires LOWEST <= start <= end < WORD && start <= max < HIGHEST && 0 <= size < WORD && need == Needed(size, align)
    requires tries <= 2 && (tries >= 1 ==> start + Growth(size) < WORD)
    ensures need <= Growth(need) && MIN_GROWTH <= Growth(need)
    ensures tries >= 1 ==> need == size + Overhead(align) && MIN_GROWTH <= Growth(size) <= Growth(need)
    ensures tries >= 1 && CappedAt(start, end, max, size) ==> CappedAt(start, end, max, need)
    ensures CappedAt(start, end, max, if tries < 2 then need else size) ==> TightAt(start, end, max, need, align, tries)
  {
    GrowthFacts(need, need);
    GrowthFacts(size, size + 23);
    GrowthFacts(size, size + 20);
    if tries < 2 {
      GrowthFacts(need, Asked(need, align, tries));
    }
    U32Facts(size + Overhead(align));
    if tries >= 1 && CappedAt(start, end, max, size) {
      CappedMore(start, end, max, size, need);
    }
    hide Growth, U32;
  }

  lemma RetryNeeds(start: int, need: int, align: bool)
    requires LOWEST <= start && 0 <= need && start + Growth(need) < WORD
    ensures Needed(need, align) == need + Overhead(align)
  {
    GrowthFacts(need, need);
    U32Facts(need + Overhead(align));
    hide Growth, U32;
  }

  lemma TightRetry(start: int, end: int, end': int, max: int, need: int, align: bool, tries: nat)
    requires tries < 2 && end' <= end + Growth(need)
    ensures TightAt(start, end', max, need + Overhead(align), align, tries + 1) ==> TightAt(start, end, max, need, align, tries)
  {
    GrowthFacts(need, Asked(need, align, tries));
    GrowthFacts(Asked(need + Overhead(align), align, tries + 1), Asked(need, align, tries));
    hide Growth;
  }

  //  Which hole an allocation takes, and how much of it

  /** What is looked for after so many expansions. */
  ghost function Retried(need: int, align: bool, retries: int): int {
    need + if align then retries * OVERHEAD else retries * (OVERHEAD + 3)
  }

  /**
   All free areas but the one at a stay as they are, and new ones lie within it; used areas stay, but for a
   left neighbour that takes over the bytes skipped.
   */
  ghost predicate OtherAreas(tiles: Tiles, tiles': Tiles, a: int, at: int)
    requires a in tiles
  {
    && (forall x :: x in tiles && !tiles[x].free ==> x in tiles' && !tiles'[x].free)
    && (forall x :: x in tiles && !tiles[x].free ==>
          tiles'[x].size == tiles[x].size + if x + tiles[x].size == a && at - a <= OVERHEAD then at - a else 0)
    && (forall x :: x in tiles' && !tiles'[x].free && x != at ==> x in tiles && !tiles[x].free)
    && (forall x :: x in tiles && tiles[x].free && x != a ==> x in tiles' && tiles'[x] == tiles[x])
    && (forall x :: x in tiles' && tiles'[x].free ==>
          (x in tiles && tiles'[x] == tiles[x] && x != a) || a <= x < a + tiles[a].size)
  }

  /** The used area at `at` was cut from the hole at a, as much as is needed or all there is when little would be left. */
  ghost predicate TakenFrom(tiles: Tiles, tiles': Tiles, a: int, at: int, need: int, align: bool) {
    && a in tiles && tiles[a].free && Fits(tiles[a].size, a, need, align)
    && at == a + (if align then PageLoss(a) else 0)
    && at in tiles' && tiles'[at] == Tile(Used(tiles[a].size - (at - a), need), false)
    && OtherAreas(tiles, tiles', a, at)
  }

  /** No free area that fits is smaller than the one at a. */
  ghost predicate Smallest(tiles: Tiles, a: int, need: int, align: bool) {
    a in tiles && forall x :: x in tiles && tiles[x].free && Fits(tiles[x].size, x, need, align) ==> tiles[a].size <= tiles[x].size
  }

  /** The areas of a heap that ended at `end`, after it has grown: only a free last one may be larger, and new ones are free. */
  ghost predicate GrownTo(tiles: Tiles, end: int, tiles': Tiles) {
    && (forall x :: x in tiles ==> x in tiles')
    && (forall x :: x in tiles && tiles'[x] != tiles[x] ==>
          tiles[x].free && tiles'[x].free && tiles[x].size <= tiles'[x].size && end <= x + tiles[x].size)
    && (forall x :: x in tiles' && x !in tiles ==> end <= x && tiles'[x].free)
  }

  lemma TakenSize(tiles: Tiles, tiles': Tiles, a: int, at: int, need: int, align: bool)
    requires TakenFrom(tiles, tiles', a, at, need, align)
    ensures at in tiles' && need <= tiles'[at].size < need + MIN_SPLIT
  {
  }

  lemma NotGrown(tiles: Tiles, end: int)
    ensures GrownTo(tiles, end, tiles)
  {
  }

  lemma GrownTwice(tiles: Tiles, end: int, tiles1: Tiles, end1: int, tiles2: Tiles)
    requires GrownTo(tiles, end, tiles1) && GrownTo(tiles1, end1, tiles2) && end <= end1
    ensures GrownTo(tiles, end, tiles2)
  {
  }

  lemma GrownOnce(end: int, tiles: Tiles, r: int, end': int, tiles': Tiles)
    requires r in tiles && r + tiles[r].size == end <= end'
    requires if tiles[r].free then tiles' == tiles[r := Tile(tiles[r].size + (end' - end), true)]
             else end !in tiles && tiles' == tiles[end := Tile(end' - end, true)]
    ensures GrownTo(tiles, end, tiles')
  {
  }

  lemma AreaStays(start: int, end: int, tiles: Tiles, b: int, a: int, o: int, n: int, x: int)
    requires AllocReady(start, end, tiles, b, a, o, n) && x in tiles && x != a
    ensures var tiles' := AllocTiles(tiles, b, a, o, n);
      && x in tiles' && tiles'[x].free == tiles[x].free
      && tiles'[x].size == tiles[x].size + (if x + tiles[x].size == a && o <= OVERHEAD then o else 0)
      && (tiles[x].free ==> x + tiles[x].size != a)
  {
    hide Tiling, Separated;
    AllocNeighbours(start, end, tiles, b, a, o, n, x);
    if 0 < o <= OVERHEAD && x != b {
      AllocNeighbours(start, end, tiles, b, a, o, n, b);
      OneLeft(start, end, tiles, b, x, a);
    }
  }

  lemma OneLeft(start: int, end: int, tiles: Tiles, b: int, x: int, a: int)
    requires Tiling(tiles, start, end) && b in tiles && x in tiles && x != b && b + tiles[b].size == a
    ensures x + tiles[x].size != a
  {
    assert TileFits(tiles, start, end, b) && TileFits(tiles, start, end, x);
  }

  lemma NewAreas(tiles: Tiles, b: int, a: int, o: int, n: int)
    requires a in tiles && 0 <= o && OVERHEAD < n <= tiles[a].size - o && (0 < o <= OVERHEAD ==> b in tiles && b < a)
    ensures var tiles' := AllocTiles(tiles, b, a, o, n);
      && (forall x :: x in tiles' && !tiles'[x].free && x != a + o && x != b ==> x in tiles && !tiles[x].free)
      && (forall x :: x in tiles' && x !in tiles ==> a <= x < a + tiles[a].size)
      && (a in tiles' ==> o == 0 || tiles'[a].free)
  {
  }

  lemma OthersStay(start: int, end: int, tiles: Tiles, b: int, a: int, o: int, n: int)
    requires AllocReady(start, end, tiles, b, a, o, n) && b in tiles
    ensures OtherAreas(tiles, AllocTiles(tiles, b, a, o, n), a, a + o)
  {
    hide AllocReady, AllocTiles;
    ReadyFacts(start, end, tiles, b, a, o, n);
    NewAreas(tiles, b, a, o, n);
    var tiles' := AllocTiles(tiles, b, a, o, n);
    forall x | x in tiles && x != a
      ensures x in tiles' && tiles'[x].free == tiles[x].free
      ensures tiles'[x].size == tiles[x].size + (if x + tiles[x].size == a && o <= OVERHEAD then o else 0)
      ensures tiles[x].free ==> x + tiles[x].size != a
    {
      AreaStays(start, end, tiles, b, a, o, n, x);
    }
  }

  lemma ReadyFacts(start: int, end: int, tiles: Tiles, b: int, a: int, o: int, n: int)
    requires AllocReady(start, end, tiles, b, a, o, n)
    ensures a in tiles && tiles[a].free && 0 <= o && OVERHEAD < n <= tiles[a].size - o
    ensures 0 < o <= OVERHEAD ==> b in tiles && b + tiles[b].size == a && b < a
  {
    if 0 < o <= OVERHEAD {
      assert TileFits(tiles, start, end, b);
    }
  }

  lemma HolesLeft(start: int, end: int, mem: Memory, tiles: Tiles, free: seq<int>, used: seq<int>, r: int, live: map<int, Grant>,
                  b: int, a: int, o: int, n: int)
    requires Consistent(start, end, mem, tiles, free, used, r, live)
    requires a in tiles && tiles[a].free && 0 <= o && OVERHEAD < n <= tiles[a].size - o
    requires b in tiles && (0 < o <= OVERHEAD ==> b + tiles[b].size == a)
    ensures OtherAreas(tiles, AllocTiles(tiles, b, a, o, n), a, a + o)
  {
    hide Core, Separated, Granted, Indexed, OtherAreas, AllocTiles, AllocReady;
    AllocIsReady(start, end, mem, tiles, b, a, o, n);
    OthersStay(start, end, tiles, b, a, o, n);
  }

  /** Every used area but those named stays as it is. */
  ghost predicate UsedKept(tiles: Tiles, tiles': Tiles, but: set<int>) {
    forall x :: x in tiles && !tiles[x].free && x !in but ==> x in tiles' && tiles'[x] == tiles[x]
  }

  lemma KeptTwice(tiles: Tiles, tiles1: Tiles, tiles2: Tiles, but: set<int>)
    requires UsedKept(tiles, tiles1, but) && UsedKept(tiles1, tiles2, {})
    ensures UsedKept(tiles, tiles2, but)
  {
  }

  lemma FreedKept(tiles: Tiles, h: int)
    requires h in tiles
    ensures UsedKept(tiles, tiles[h := Tile(tiles[h].size, true)], {h})
  {
  }

  lemma JoinedKept(tiles: Tiles, h: int, left: int, size: int)
    requires h in tiles && left in tiles && tiles[left].free
    ensures UsedKept(tiles, (tiles[h := Tile(tiles[h].size, true)] - {h})[left := Tile(size, true)], {h})
  {
  }

  /** The allocation at p has room for so many bytes. */
  ghost predicate Holds(tiles: Tiles, live: map<int, Grant>, p: int, size: int) {
    p in live && live[p].at in tiles && p + size <= live[p].at + tiles[live[p].at].size - FOOTER
  }

  /** An allocation has room for what was asked for if and only if the sum in heap_alloc did not wrap around. */
  lemma HoldsRequest(start: int, end: int, mem: Memory, tiles: Tiles, free: seq<int>, used: seq<int>, r: int, live: map<int, Grant>,
                     p: int, size: int, align: bool)
    requires Consistent(start, end, mem, tiles, free, used, r, live) && LOWEST <= start && end < WORD
    requires 0 <= size < WORD && p in live && live[p].size == Needed(size, align) - Overhead(align)
    ensures Holds(tiles, live, p, size) <==> size + Overhead(align) < WORD
  {
    hide Separated, Indexed, Spaced, AllTagged, Clean;
    assert Honoured(tiles, p, live[p]);
    LiveInside(start, end, tiles, live, p, live[p].at);
    assert TileFits(tiles, start, end, live[p].at);
    U32Facts(size + Overhead(align));
  }

  /**
   A request for 0xffffffff bytes looks for 22: any hole of 58 bytes or more is split, all tags stay in
   order, and the area handed out has no room for even 3 bytes.
   */
  lemma WrappedRequest(start: int, end: int, mem: Memory, tiles: Tiles, a: int)
    requires Core(start, end, mem, tiles) && a in tiles && tiles[a].free && 58 <= tiles[a].size
    ensures Needed(0xffff_ffff, false) == 22 && Fits(tiles[a].size, a, 22, false) && OVERHEAD < Used(tiles[a].size, 22)
    ensures var tiles' := AllocTiles(tiles, a, a, 0, 22);
      Core(start, end, Placed(mem, a, tiles[a].size, 22), tiles') && a in tiles' && tiles'[a] == Tile(22, false)
    ensures !(Pointer(a) + 3 <= a + 22 - FOOTER)
  {
    hide Core, Placed, U32, Pointer;
    U32Facts(0xffff_ffff + Overhead(false));
    AllocPlain(start, end, mem, tiles, a, 22);
    PointerFacts(a);
  }

  class Heap {
    const start: int
    const max: int
    const freeIndex: OrderedArray
    const usedIndex: OrderedArray
    var end: int
    var mem: Memory
    var rightmost: int
    ghost var tiles: Tiles
    ghost var live: map<int, Grant>
    ghost var expansions: nat

    ghost predicate Shape()
      reads this, freeIndex, usedIndex
    {
      && freeIndex.Valid() && usedIndex.Valid()
      && freeIndex != usedIndex && freeIndex.data != usedIndex.data
      && freeIndex.maxSize == usedIndex.maxSize == INDEX_SIZE
      && LOWEST <= start <= max < HIGHEST && end < WORD
    }

    ghost function Repr(): set<object> { {this, freeIndex, usedIndex, freeIndex.data, usedIndex.data} }

    ghost predicate Valid()
      reads this, freeIndex, usedIndex, freeIndex.data, usedIndex.data
    {
      Shape() && Consistent(start, end, mem, tiles, freeIndex.Contents(), usedIndex.Contents(), rightmost, live)
    }

    /** heap_create: one free area after the space taken by the two indexes. */
    constructor (base: int, max: int)
      requires LOWEST <= base && base % PAGE == 0 && base + INITIAL_SIZE <= max < HIGHEST
      ensures Valid() && live == map[] && fresh(freeIndex) && fresh(usedIndex) && fresh(freeIndex.data) && fresh(usedIndex.data)
      ensures this.max == max && start == base + 8 * INDEX_SIZE && end == base + INITIAL_SIZE <= max
      ensures tiles == map[start := Tile(end - start, true)]
    {
      hide Core, WriteArea, Separated, Granted;
      usedIndex := new OrderedArray(INDEX_SIZE);
      freeIndex := new OrderedArray(INDEX_SIZE);
      this.max := max;
      start := base + 8 * INDEX_SIZE;
      end := base + INITIAL_SIZE;
      mem := WriteArea(map[], base + 8 * INDEX_SIZE, INITIAL_SIZE - 8 * INDEX_SIZE, true);
      rightmost := base + 8 * INDEX_SIZE;
      live := map[];
      tiles := map[base + 8 * INDEX_SIZE := Tile(INITIAL_SIZE - 8 * INDEX_SIZE, true)];
      expansions := 0;
      new;
      FreshCore(start, end - start);
      InsertedElements(BySize(mem), [], start);
      freeIndex.Insert(start, BySize(mem));
    }

    /** find_smallest_hole: the first indexed hole that is large enough, alignment loss included. */
    method FindSmallestHole(need: int, align: bool) returns (found: bool, area: int)
      requires Valid()
      ensures found ==> area in tiles && tiles[area].free && Fits(tiles[area].size, area, need, align)
      ensures !found ==> forall a :: a in tiles && tiles[a].free ==> !Fits(tiles[a].size, a, need, align)
      ensures found && SortedBy(BySize(mem), freeIndex.Contents()) ==>
                forall a :: a in tiles && tiles[a].free && Fits(tiles[a].size, a, need, align) ==> tiles[area].size <= tiles[a].size
    {
      hide Consistent, Core, Separated, Granted, NoDuplicates, SortedBy;
      ghost var free := freeIndex.Contents();
      FreeIndexed(start, end, mem, tiles, free, usedIndex.Contents(), rightmost, live);
      var i := 0;
      while i < freeIndex.size
        invariant 0 <= i <= freeIndex.size
        invariant forall j :: 0 <= j < i ==> !Fits(tiles[free[j]].size, free[j], need, align)
      {
        var a := freeIndex.data[i];
        assert a == free[i] && a in tiles;
        CoreFacts(start, end, mem, tiles, a);
        if SizeAt(mem, a) >= need {
          if align {
            var offset := 0;
            if (a + HEADER) % PAGE != 0 {
              offset := PAGE - (a + HEADER) % PAGE;
            }
            if SizeAt(mem, a) - offset >= need {
              SmallestWhenSorted(start, end, mem, tiles, free, usedIndex.Contents(), i, need, align);
              return true, a;
            }
          } else {
            SmallestWhenSorted(start, end, mem, tiles, free, usedIndex.Contents(), i, need, align);
            return true, a;
          }
        }
        i := i + 1;
      }
      found, area := false, 0;
      forall a | a in tiles && tiles[a].free ensures !Fits(tiles[a].size, a, need, align) {
        assert a in free;
      }
    }

    /** Every indexed area is clear of [at, at + size): what the debug checks of create_area assert. */
    ghost predicate Clear(at: int, size: int)
      requires Shape()
      reads this, freeIndex, usedIndex, freeIndex.data, usedIndex.data
    {
      forall h :: h in freeIndex.Contents() || h in usedIndex.Contents() ==>
        h + SizeAt(mem, h) <= at || at + size <= h
    }

    method CreateArea(at: int, size: int, free: bool)
      requires Shape() && OVERHEAD < size && start <= at && at + size <= end && Clear(at, size)
      modifies this`mem, this`rightmost
      ensures mem == WriteArea(old(mem), at, size, free)
      ensures rightmost == if at > old(rightmost) then at else old(rightmost)
    {
      hide Poke;
      mem := Poke(mem, at, Size(size));
      mem := Poke(mem, at + 8, Magic);
      mem := Poke(mem, at + 4, Kind(free));
      mem := Poke(mem, at + size - FOOTER, Magic);
      mem := Poke(mem, at + size - 4, Back(at));
      if at > rightmost {
        rightmost := at;
      }
    }

    method AddFree(a: int)
      requires Shape() && freeIndex.size < INDEX_SIZE
      requires NoDuplicates(freeIndex.Contents()) && a !in freeIndex.Contents()
      modifies freeIndex, freeIndex.data
      ensures Shape() && freeIndex.size == old(freeIndex.size) + 1
      ensures NoDuplicates(freeIndex.Contents())
      ensures freeIndex.Contents() == Inserted(BySize(mem), old(freeIndex.Contents()), a)
      ensures forall x :: x in freeIndex.Contents() <==> x == a || x in old(freeIndex.Contents())
    {
      InsertedElements(BySize(mem), freeIndex.Contents(), a);
      freeIndex.Insert(a, BySize(mem));
    }

    method AddUsed(a: int)
      requires Shape() && usedIndex.size < INDEX_SIZE
      requires NoDuplicates(usedIndex.Contents()) && a !in usedIndex.Contents()
      modifies usedIndex, usedIndex.data
      ensures Shape() && usedIndex.size == old(usedIndex.size) + 1
      ensures NoDuplicates(usedIndex.Contents())
      ensures usedIndex.Contents() == Inserted(BySize(mem), old(usedIndex.Contents()), a)
      ensures forall x :: x in usedIndex.Contents() <==> x == a || x in old(usedIndex.Contents())
    {
      InsertedElements(BySize(mem), usedIndex.Contents(), a);
      usedIndex.Insert(a, BySize(mem));
    }

    /** What is left of the chosen hole becomes a free area. */
    method SplitOff(at: int, total: int, need: int)
      requires Shape() && Spaced(mem) && start <= at && at + total <= end && Clear(at, total)
      requires OVERHEAD < need && total - need >= MIN_SPLIT && freeIndex.size < INDEX_SIZE
      requires NoDuplicates(freeIndex.Contents())
      requires forall h :: at <= h < at + total ==> h !in freeIndex.Contents() && h !in usedIndex.Contents()
      modifies this`mem, this`rightmost, freeIndex, freeIndex.data
      ensures Shape() && mem == WriteArea(old(mem), at + need, total - need, true) && Clear(at, need)
      ensures NoDuplicates(freeIndex.Contents())
      ensures forall x :: x in freeIndex.Contents() <==> x in old(freeIndex.Contents()) || x == at + need
      ensures rightmost == if at + need > old(rightmost) then at + need else old(rightmost)
    {
      hide WriteArea, Inserted, NoDuplicates;
      ghost var before := mem;
      CreateArea(at + need, total - need, true);
      WriteAreaFacts(before, at + need, total - need, true);
      WriteAreaTagged(before, at + need, total - need, true);
      AddFree(at + need);
      forall h | h in freeIndex.Contents() || h in usedIndex.Contents()
        ensures h + SizeAt(mem, h) <= at || at + need <= h
      {
        if h != at + need {
          assert h + SizeAt(before, h) <= at || at + total <= h;
        }
      }
    }

    /** Takes the chosen hole: a remainder large enough to be worth it becomes a free area. */
    method Occupy(at: int, total: int, need: int)
      requires Shape() && Spaced(mem) && start <= at && at + total <= end && Clear(at, total)
      requires need <= total && OVERHEAD < Used(total, need) && OVERHEAD < total && SizeAt(mem, at) == total
      requires freeIndex.size < INDEX_SIZE && usedIndex.size < INDEX_SIZE
      requires NoDuplicates(freeIndex.Contents()) && NoDuplicates(usedIndex.Contents())
      requires forall h :: at <= h < at + total ==> h !in freeIndex.Contents() && h !in usedIndex.Contents()
      modifies this`mem, this`rightmost, freeIndex, freeIndex.data, usedIndex, usedIndex.data
      ensures Shape() && mem == Placed(old(mem), at, total, need)
      ensures NoDuplicates(freeIndex.Contents()) && NoDuplicates(usedIndex.Contents())
      ensures forall x :: x in freeIndex.Contents() <==>
                x in old(freeIndex.Contents()) || (total - need >= MIN_SPLIT && x == at + need)
      ensures forall x :: x in usedIndex.Contents() <==> x in old(usedIndex.Contents()) || x == at
      ensures var newest := if total - need >= MIN_SPLIT then at + need else at;
        rightmost == if newest > old(rightmost) then newest else old(rightmost)
    {
      hide WriteArea, Inserted, Spaced, NoDuplicates;
      var size := need;
      if SizeAt(mem, at) - need >= MIN_SPLIT {
        SplitOff(at, total, need);
      } else {
        size := total;
      }
      CreateArea(at, size, false);
      AddUsed(at);
    }

    /** Moves the start of the chosen hole up so that its payload starts on a page boundary. */
    method SkipToPage(area: int, ghost total: int, ghost b: int, ghost left: Tile) returns (at: int)
      requires Shape() && start <= area && area + total <= end && SizeAt(mem, area) == total
      requires 0 < PageLoss(area) && OVERHEAD < total - PageLoss(area)
      requires NoDuplicates(freeIndex.Contents())
      requires OVERHEAD < PageLoss(area) ==>
                 Clear(area, PageLoss(area)) && freeIndex.size < INDEX_SIZE && area !in freeIndex.Contents()
      requires PageLoss(area) <= OVERHEAD ==>
                 Tagged(mem, b, left) && OVERHEAD < left.size && b + left.size == area && area <= rightmost
      modifies this`mem, this`rightmost, freeIndex, freeIndex.data
      ensures Shape() && at == area + PageLoss(area)
      ensures mem == Skipped(old(mem), b, left.size, area, total, PageLoss(area))
      ensures NoDuplicates(freeIndex.Contents())
      ensures freeIndex.size == old(freeIndex.size) + if OVERHEAD < PageLoss(area) then 1 else 0
      ensures forall x :: x in freeIndex.Contents() <==>
                x in old(freeIndex.Contents()) || (OVERHEAD < PageLoss(area) && x == area)
      ensures rightmost == if area > old(rightmost) then area else old(rightmost)
    {
      hide WriteArea, WriteFooter, Poke, Tagged;
      var offset := PAGE - (area + HEADER) % PAGE;
      assert offset == PageLoss(area);
      var cachedSize := SizeAt(mem, area);
      if offset > OVERHEAD {
        CreateArea(area, offset, true);
        AddFree(area);
      } else {
        GiveToLeft(area, offset, b, left);
      }
      at := area + offset;
      mem := Poke(mem, at, Size(cachedSize - offset));
    }

    /** The area to the left grows over the bytes skipped for alignment. */
    method GiveToLeft(area: int, offset: int, ghost b: int, ghost left: Tile)
      requires Tagged(mem, b, left) && OVERHEAD < left.size && b + left.size == area && 0 < offset
      modifies this`mem
      ensures mem == WriteFooter(Poke(Poke(old(mem), area - 8, Cleared), b, Size(left.size + offset)), area + offset - 8, b)
    {
      hide WriteFooter;
      var f := area - FOOTER;
      if IsMagic(mem, f) {
        var h := BackAt(mem, f + 4);
        if IsMagic(mem, h + 8) {
          mem := Poke(mem, f, Cleared);
          mem := Poke(mem, h, Size(SizeAt(mem, h) + offset));
          mem := WriteFooter(mem, h + SizeAt(mem, h) - FOOTER, h);
        }
      }
    }

    /** Takes the hole out of the index and settles where in it the new area starts. */
    method Reserve(area: int, align: bool, ghost total: int, ghost b: int, ghost left: Tile, ghost o: int) returns (at: int)
      requires Shape() && start <= area <= rightmost && area + total <= end && SizeAt(mem, area) == total
      requires o == (if align then PageLoss(area) else 0) && OVERHEAD < total - o
      requires freeIndex.size < INDEX_SIZE
      requires var rest := WithoutFirst(freeIndex.Contents(), area);
        && NoDuplicates(rest) && |rest| == freeIndex.size - 1 && area !in rest
        && (forall h :: h in rest || h in usedIndex.Contents() ==> h + SizeAt(mem, h) <= area || area + total <= h)
      requires 0 < o <= OVERHEAD ==> Tagged(mem, b, left) && OVERHEAD < left.size && b + left.size == area
      modifies this`mem, this`rightmost, freeIndex, freeIndex.data
      ensures Shape() && at == area + o && rightmost == old(rightmost) && freeIndex.size < INDEX_SIZE
      ensures mem == if o == 0 then old(mem) else Skipped(old(mem), b, left.size, area, total, o)
      ensures NoDuplicates(freeIndex.Contents())
      ensures forall x :: x in freeIndex.Contents() <==>
                x in WithoutFirst(old(freeIndex.Contents()), area) || (OVERHEAD < o && x == area)
    {
      hide Skipped, Tagged, PageLoss;
      PageLossFacts(area);
      freeIndex.RemoveItem(area);
      at := area;
      if align && (area + HEADER) % PAGE != 0 {
        at := SkipToPage(area, total, b, left);
      }
    }

    /** Takes a hole for an area of the given size, o bytes into the hole. */
    method Carve(area: int, need: int, align: bool, ghost b: int, ghost o: int) returns (at: int)
      requires Shape() && area in tiles && b in tiles && o == (if align then PageLoss(area) else 0)
      requires need <= tiles[area].size - o && OVERHEAD < Used(tiles[area].size - o, need) && OVERHEAD < tiles[area].size - o
      requires HoleReady(start, end, mem, tiles, freeIndex.Contents(), usedIndex.Contents(), rightmost, b, area, o)
      requires freeIndex.size < INDEX_SIZE && usedIndex.size < INDEX_SIZE
      modifies this`mem, this`rightmost, freeIndex, freeIndex.data, usedIndex, usedIndex.data
      ensures Shape() && at == area + o
      ensures mem == Placed(Skipped(old(mem), b, tiles[b].size, area, tiles[area].size, o), at, tiles[area].size - o, need)
      ensures HoleTaken(tiles[area].size, old(freeIndex.Contents()), old(usedIndex.Contents()), old(rightmost), area, o, need,
                        freeIndex.Contents(), usedIndex.Contents(), rightmost)
    {
      hide Placed, Skipped, Tagged, PageLoss, Spaced, NoDuplicates, WithoutFirst;
      PageLossFacts(area);
      at := Reserve(area, align, tiles[area].size, b, tiles[b], o);
      Occupy(at, SizeAt(mem, at), need);
    }

    /**
     The rest of heap_alloc, once a hole has been found.  A false ok means that create_area's assertion
     stopped the machine: what is left for the new area does not even hold its tags.
     */
    method Place(area: int, need: int, align: bool, ghost request: int) returns (ok: bool, p: int)
      requires Valid() && area in tiles && tiles[area].free && Fits(tiles[area].size, area, need, align)
      requires 0 <= need && request + Overhead(align) <= need
      requires freeIndex.size < INDEX_SIZE && usedIndex.size < INDEX_SIZE
      modifies Repr()
      ensures ok <==> OVERHEAD < Used(old(tiles[area].size) - (if align then PageLoss(area) else 0), need)
      ensures OVERHEAD < need ==> ok
      ensures ok ==> Valid() && end == old(end) && expansions == old(expansions)
      ensures ok ==> p % 4 == 0 && (align ==> p % PAGE == 0)
      ensures ok ==> p !in old(live) && p in live && live == old(live)[p := Grant(live[p].at, request)]
      ensures ok ==> TakenFrom(old(tiles), tiles, area, live[p].at, need, align)
    {
      hide Consistent, Placed, Skipped, AllocTiles, PageLoss, Pointer, HoleReady, HoleTaken;
      var o := if align then PageLoss(area) else 0;
      RoomFacts(start, end, mem, tiles, freeIndex.Contents(), usedIndex.Contents(), rightmost, live, area);
      if Used(SizeAt(mem, area) - o, need) <= OVERHEAD {
        return false, 0;
      }
      PageLossFacts(area);
      PointerFacts(area + o);
      ghost var total := tiles[area].size;
      ghost var n := if OVERHEAD < need then need else total - o;
      ghost var mem0, free0, used0, r0 := mem, freeIndex.Contents(), usedIndex.Contents(), rightmost;
      ghost var b := PlaceFacts(start, end, mem, tiles, free0, used0, rightmost, live, area, o, n);
      var at := Carve(area, need, align, b, o);
      SameHole(total, free0, used0, r0, area, o, need, n, freeIndex.Contents(), usedIndex.Contents(), rightmost);
      SamePlaced(Skipped(mem0, b, tiles[b].size, area, total, o), at, total - o, need, n);
      AllocConsistent(start, end, mem0, tiles, free0, used0, r0, live, b, area, o, n, request,
                      freeIndex.Contents(), usedIndex.Contents(), rightmost);
      AllocatedTile(tiles, b, area, o, n);
      HolesLeft(start, end, mem0, tiles, free0, used0, r0, live, b, area, o, n);
      p := AlignedPointer(at);
      tiles := AllocTiles(tiles, b, area, o, n);
      live := live[p := Grant(at, request)];
      ok := true;
    }

    /**
     heap_expand stops the machine: its 32-bit sums wrap around, or it would have to stop the heap at
     max, and it has got there.
     */
    ghost predicate Capped(bytes: int)
      reads this
    {
      CappedAt(start, end, max, bytes)
    }

    /**
     heap_expand: the new pages are mapped one page past the old end. The check against max adds
     the growth to the start of the heap instead of its end, so it stops the heap at max exactly
     when the growth alone would go past max. A false ok means that an assertion stopped the machine.
     */
    method Expand(sizeToAdd: int) returns (ok: bool)
      requires 0 <= sizeToAdd < WORD && LOWEST <= start <= end < WORD && start <= max < HIGHEST
      requires start % PAGE == 0 && end % PAGE == 0
      modifies this`end, this`expansions
      ensures ok <==> !old(Capped(sizeToAdd))
      ensures ok ==> end == if start + Growth(sizeToAdd) <= max then old(end) + Growth(sizeToAdd) else max - max % PAGE
      ensures ok ==> old(end) + PAGE <= end < WORD && end % PAGE == 0 && expansions == old(expansions) + 1
      ensures ok ==> (end <= max <==> start + Growth(sizeToAdd) > max || old(end) + Growth(sizeToAdd) <= max)
      ensures !ok ==> unchanged(this)
    {
      hide U32, Growth, RoundedDown;
      GrowthFacts(sizeToAdd, sizeToAdd);
      GrowthIs(sizeToAdd);
      U32Facts(Growth(sizeToAdd));
      ExpandSums(start, end, max, Growth(sizeToAdd));
      var more := sizeToAdd;
      if more < MIN_GROWTH {
        more := MIN_GROWTH;
      }
      if more % PAGE != 0 {
        more := U32(more - more % PAGE + PAGE);
      }
      assert more == U32(Growth(sizeToAdd));
      if U32(start + more) > max {
        more := U32((max - start) - (end - start));
      }
      if U32(start + more) > max || U32(start + more) <= start {
        return false;
      }
      var newEnd := U32(end + more);
      newEnd := RoundedDown(newEnd);
      if newEnd <= end {
        return false;
      }
      PageBelow(newEnd, end);
      end := newEnd;
      expansions := expansions + 1;
      return true;
    }

    /** Grows the heap and puts the new room into a free area at its end. */
    method MakeRoom(need: int) returns (ok: bool)
      requires Valid() && 0 <= need < WORD && freeIndex.size < INDEX_SIZE
      modifies Repr()
      ensures ok <==> !old(Capped(need))
      ensures ok ==> end == if start + Growth(need) <= max then old(end) + Growth(need) else max - max % PAGE
      ensures ok ==> Valid() && live == old(live) && expansions == old(expansions) + 1
      ensures ok ==> old(end) + PAGE <= end && usedIndex.size == old(usedIndex.size) && tiles[rightmost].free
      ensures ok ==>
                if old(tiles[rightmost].free)
                then tiles == old(tiles)[rightmost := Tile(old(tiles[rightmost].size) + (end - old(end)), true)] &&
                     rightmost == old(rightmost) && freeIndex.size == old(freeIndex.size)
                else tiles == old(tiles)[old(end) := Tile(end - old(end), true)] &&
                     rightmost == old(end) && freeIndex.size == old(freeIndex.size) + 1
    {
      hide Consistent, Tagged, Spaced, Growth, Capped;
      RightmostFacts(start, end, mem, tiles, freeIndex.Contents(), usedIndex.Contents(), rightmost, live);
      var oldSize := end - start;
      ok := Expand(need);
      if !ok {
        return;
      }
      PageSum(end, old(end));
      var more := end - start - oldSize;
      if IsFree(mem, rightmost) {
        ExtendLast(more);
      } else {
        AppendArea(more);
      }
    }

    method ExtendLast(more: int)
      requires Shape() && 0 < more && more % PAGE == 0
      requires Consistent(start, end - more, mem, tiles, freeIndex.Contents(), usedIndex.Contents(), rightmost, live)
      requires tiles[rightmost].free
      modifies this`mem, this`tiles
      ensures Valid()
      ensures tiles == old(tiles)[rightmost := Tile(old(tiles[rightmost].size) + more, true)]
    {
      hide Consistent, WriteFooter, Poke;
      RightmostFacts(start, end - more, mem, tiles, freeIndex.Contents(), usedIndex.Contents(), rightmost, live);
      GrowConsistent(start, end - more, mem, tiles, freeIndex.Contents(), usedIndex.Contents(), rightmost, live, more);
      var size := SizeAt(mem, rightmost);
      mem := Poke(mem, rightmost + size - FOOTER, Cleared);
      mem := Poke(mem, rightmost, Size(size + more));
      mem := WriteFooter(mem, rightmost + size + more - FOOTER, rightmost);
      tiles := tiles[rightmost := Tile(size + more, true)];
    }

    method AppendArea(more: int)
      requires Shape() && PAGE <= more && more % PAGE == 0 && freeIndex.size < INDEX_SIZE
      requires Consistent(start, end - more, mem, tiles, freeIndex.Contents(), usedIndex.Contents(), rightmost, live)
      requires !tiles[rightmost].free
      modifies this`mem, this`tiles, this`rightmost, freeIndex, freeIndex.data
      ensures Valid() && rightmost == end - more && freeIndex.size == old(freeIndex.size) + 1
      ensures tiles == old(tiles)[end - more := Tile(more, true)]
    {
      hide Consistent, WriteArea, NoDuplicates;
      ghost var mem0, free0, r0, end0 := mem, freeIndex.Contents(), rightmost, end - more;
      RightmostFacts(start, end0, mem, tiles, free0, usedIndex.Contents(), rightmost, live);
      EndClear(start, end0, mem, tiles, free0, usedIndex.Contents(), rightmost, live);
      var at := rightmost + SizeAt(mem, rightmost);
      CreateArea(at, more, true);
      AddFree(at);
      AddConsistent(start, end0, mem0, tiles, free0, usedIndex.Contents(), r0, live, more, freeIndex.Contents());
      tiles := tiles[at := Tile(more, true)];
    }

    /** The room that the expansions so far have left at the end of the heap, unless they had to stop at max. */
    ghost predicate Expanded(size: int, tries: nat)
      reads this
    {
      tries >= 1 ==>
        && start + Growth(size) < WORD
        && RoomAtEnd(if Capped(size) then 0 else if tries == 1 then Growth(size) else size + MIN_GROWTH)
    }

    /** No free area is large enough for the bytes needed. */
    ghost predicate NoHole(need: int, align: bool)
      reads this
    {
      forall a :: a in tiles && tiles[a].free ==> !Fits(tiles[a].size, a, need, align)
    }

    /** The retries may ask for more than the heap can grow by. */
    ghost predicate Tight(need: int, align: bool, tries: nat)
      reads this
    {
      TightAt(start, end, max, need, align, tries)
    }

    /** The expansion of heap_alloc, when no hole was found for the bytes needed. */
    method Grow(size: int, need: int, align: bool, ghost tries: nat) returns (ok: bool)
      requires Valid() && 0 <= size < WORD && need == Needed(size, align) && NoHole(need, align)
      requires Expanded(size, tries) && freeIndex.size + (if tries == 0 then 2 else 1) <= INDEX_SIZE && tries <= 2
      modifies Repr()
      ensures ok <==> !old(Capped(need))
      ensures tries == 2 || (tries == 1 && old(Capped(size))) ==> !ok
      ensures !ok ==> old(Tight(need, align, tries))
      ensures ok ==> Valid() && live == old(live) && expansions == old(expansions) + 1
      ensures ok ==> old(end) <= end <= old(end) + Growth(need) && start + Growth(need) < WORD
      ensures ok ==> GrownTo(old(tiles), old(end), tiles)
      ensures ok ==> Expanded(need, tries + 1) && freeIndex.size < INDEX_SIZE && usedIndex.size == old(usedIndex.size)
    {
      hide Consistent, Growth, PageLoss, TightAt;
      RightmostFacts(start, end, mem, tiles, freeIndex.Contents(), usedIndex.Contents(), rightmost, live);
      PageLossFacts(rightmost);
      GrowFacts(start, end, max, size, need, align, tries);
      ok := MakeRoom(need);
      if ok {
        GrownOnce(old(end), old(tiles), old(rightmost), end, tiles);
      }
    }

    /**
     heap_alloc.  Its retry after an expansion adds the overhead once more.  A false ok means that an
     assertion stopped the machine: the area would not even hold its tags, or there was no hole and the
     retries ask for more than the heap can grow by.
     */
    method Alloc(size: int, align: bool, ghost request: int, ghost tries: nat)
      returns (ok: bool, p: int, ghost from: Tiles, ghost hole: int)
      requires Valid() && 0 <= size < WORD && request + Overhead(align) <= Needed(size, align) && tries <= 2
      requires freeIndex.size + (if tries == 0 then 2 else 1) <= INDEX_SIZE && usedIndex.size < INDEX_SIZE
      requires Expanded(size, tries)
      modifies Repr()
      ensures ok ==> Valid() && p !in old(live) && p in live && live == old(live)[p := Grant(live[p].at, request)]
      ensures ok ==> p % 4 == 0 && (align ==> p % PAGE == 0)
      ensures ok ==> old(expansions) <= expansions <= old(expansions) + 2 - tries
      ensures ok && expansions == old(expansions) ==> end == old(end) && from == old(tiles)
      ensures ok && expansions == old(expansions) && old(SortedBy(BySize(mem), freeIndex.Contents())) ==>
                Smallest(from, hole, Needed(size, align), align)
      ensures ok ==> GrownTo(old(tiles), old(end), from)
      ensures ok ==> TakenFrom(from, tiles, hole, live[p].at, Retried(Needed(size, align), align, expansions - old(expansions)), align)
      ensures ok && expansions > old(expansions) ==> old(NoHole(Needed(size, align), align))
      ensures !ok && OVERHEAD < Needed(size, align) ==>
                old(NoHole(Needed(size, align), align)) && old(Tight(Needed(size, align), align, tries))
      ensures old(NoHole(Needed(size, align), align)) && old(Capped(Needed(size, align))) ==> !ok
      decreases 2 - tries
    {
      hide Consistent, Growth, Expanded, Capped, Fits, Needed, TightAt, TakenFrom, GrownTo, SortedBy;
      var need := Needed(size, align);
      var found, area := FindSmallestHole(need, align);
      if !found {
        ok := Grow(size, need, align, tries);
        from, hole := tiles, 0;
        if !ok {
          return false, 0, from, hole;
        }
        RetryNeeds(start, need, align);
        TightRetry(start, old(end), end, max, need, align, tries);
        ghost var tiles1, end1 := tiles, end;
        ok, p, from, hole := Alloc(need, align, request, tries + 1);
        if ok {
          GrownTwice(old(tiles), old(end), tiles1, end1, from);
        }
        return;
      }
      from, hole := tiles, area;
      NotGrown(tiles, end);
      ok, p := Place(area, need, align, request);
    }

    ghost predicate RoomAtEnd(bytes: int)
      reads this
    {
      rightmost in tiles && tiles[rightmost].free && bytes <= tiles[rightmost].size
    }

    /** kmalloc_int on the kernel heap. */
    method Kmalloc(size: nat, align: bool) returns (ok: bool, p: int, ghost from: Tiles, ghost hole: int)
      requires Valid() && size < WORD
      requires freeIndex.size + 2 <= INDEX_SIZE && usedIndex.size < INDEX_SIZE
      modifies Repr()
      ensures ok ==> Valid() && p !in old(live) && p in live && live == old(live)[p := live[p]]
      ensures ok ==> live[p].size == Needed(size, align) - Overhead(align)
      ensures ok ==> (Holds(tiles, live, p, size) <==> size + Overhead(align) < WORD)
      ensures ok ==> p % 4 == 0 && (align ==> p % PAGE == 0)
      ensures ok ==> old(expansions) <= expansions <= old(expansions) + 2
      ensures ok ==> var need := Retried(Needed(size, align), align, expansions - old(expansions));
        && TakenFrom(from, tiles, hole, live[p].at, need, align)
        && need <= tiles[live[p].at].size < need + MIN_SPLIT
      ensures ok ==> GrownTo(old(tiles), old(end), from) && (expansions == old(expansions) ==> from == old(tiles))
      ensures ok && expansions == old(expansions) && old(SortedBy(BySize(mem), freeIndex.Contents())) ==>
                Smallest(from, hole, Needed(size, align), align)
      ensures ok && expansions > old(expansions) ==> old(NoHole(Needed(size, align), align))
      ensures !ok && OVERHEAD < Needed(size, align) ==>
                old(NoHole(Needed(size, align), align)) && old(Tight(Needed(size, align), align, 0))
    {
      hide Consistent, Growth, NoHole, Tight, Needed, Holds, GrownTo, SortedBy, Smallest;
      ok, p, from, hole := Alloc(size, align, Needed(size, align) - Overhead(align), 0);
      if ok {
        TakenSize(from, tiles, hole, live[p].at, Retried(Needed(size, align), align, expansions - old(expansions)), align);
        HoldsRequest(start, end, mem, tiles, freeIndex.Contents(), usedIndex.Contents(), rightmost, live, p, size, align);
      }
    }

    /** find_area_and_validate: from the pointer back to the nearest header, at most three bytes away. */
    method FindArea(p: int) returns (ok: bool, header: int)
      requires Valid() && (start <= p <= max ==> p in live)
      ensures ok <==> start <= p <= max
      ensures ok ==> header == live[p].at && p - HEADER - 3 <= header <= p - HEADER
    {
      hide Consistent, Spaced;
      ok, header := false, 0;
      if p > max || p < start {
        return;
      }
      LiveFacts(start, end, mem, tiles, freeIndex.Contents(), usedIndex.Contents(), rightmost, live, p);
      header := p - HEADER;
      while !IsMagic(mem, header + 8)
        invariant live[p].at <= header <= live[p].at + 3
        decreases header
      {
        header := header - 1;
      }
      HeaderFound(mem, live[p].at, header);
      ok := true;
    }

    /** The stores of the left merge: they join the area at header to the free one on its left. */
    method JoinLeft(left: int, header: int, size: int, footer: int)
      requires left + size == footer + FOOTER
      modifies this`mem
      ensures mem == MergedLeft(old(mem), left, header, size, left + size)
      ensures forall t, u :: SideBySide(old(mem), left, header, t, u) && t.free && size == t.size + u.size ==>
                Joined(old(mem), mem, left, header, size)
    {
      hide Poke, SideBySide, Joined;
      mem := Poke(mem, left, Size(size));
      mem := Poke(mem, footer + 4, Back(left));
      mem := Poke(mem, header + 8, Cleared);
      mem := Poke(mem, header - FOOTER, Cleared);
      JoinsLeft(old(mem), left, header, size);
    }

    /** heap_free up to the merge with the left neighbour; the area now starts at x. */
    method Release(header: int, ghost p: int) returns (x: int, add: bool)
      requires Valid() && p in live && live[p].at == header
      modifies this`mem, this`tiles, this`live, this`rightmost, usedIndex, usedIndex.data
      ensures Shape() && live == old(live) - {p} && UsedKept(old(tiles), tiles, {header})
      ensures Loose(start, end, mem, tiles, freeIndex.Contents(), usedIndex.Contents(), rightmost, live, x, if add then {x} else {})
    {
      hide Consistent, Loose, Poke, WithoutFirst, MergedLeft, SideBySide, Joined, UsedKept;
      LiveFacts(start, end, mem, tiles, freeIndex.Contents(), usedIndex.Contents(), rightmost, live, p);
      ghost var b := ReleaseFacts(start, end, mem, tiles, freeIndex.Contents(), usedIndex.Contents(), rightmost, live, p);
      usedIndex.RemoveItem(header);
      mem := Poke(mem, header + 4, Kind(true));
      tiles := tiles[header := Tile(tiles[header].size, true)];
      live := live - {p};
      FreedKept(old(tiles), header);
      x, add := header, true;
      var footer := header + SizeAt(mem, header) - FOOTER;
      var leftFooter := header - FOOTER;
      if leftFooter >= start && IsMagic(mem, leftFooter) {
        var left := BackAt(mem, leftFooter + 4);
        if IsMagic(mem, left + 8) && IsFree(mem, left) {
          var size := SizeAt(mem, left) + SizeAt(mem, header);
          JoinLeft(left, header, size, footer);
          if header == rightmost {
            rightmost := left;
          }
          JoinedKept(old(tiles), header, left, size);
          tiles := (tiles - {header})[left := Tile(size, true)];
          x, add := left, false;
        }
      }
    }

    /** The stores of the right merge: they join the area at right to the one at x. */
    method JoinRight(x: int, right: int, size: int, footer: int)
      requires x + size == footer + FOOTER
      modifies this`mem
      ensures mem == MergedRight(old(mem), x, right, size, x + size)
      ensures forall t, u :: SideBySide(old(mem), x, right, t, u) && size == t.size + u.size ==>
                Joined(old(mem), mem, x, right, size)
    {
      hide Poke, SideBySide, Joined, MergedRight;
      RightStores(mem, x, right, size, footer);
      JoinsRight(mem, x, right, size);
      mem := Poke(mem, x, Size(size));
      mem := Poke(mem, right - FOOTER, Cleared);
      mem := Poke(mem, right + 8, Cleared);
      mem := Poke(mem, footer + 4, Back(x));
      mem := Poke(mem, x + 4, Kind(true));
    }

    /** The merge with the right neighbour. */
    method MergeRight(x: int, ghost missing: set<int>)
      requires Shape() && missing <= {x}
      requires Loose(start, end, mem, tiles, freeIndex.Contents(), usedIndex.Contents(), rightmost, live, x, missing)
      modifies this`mem, this`tiles, this`rightmost, freeIndex, freeIndex.data
      ensures Shape() && x in tiles && tiles[x].free && freeIndex.size <= old(freeIndex.size)
      ensures UsedKept(old(tiles), tiles, {})
      ensures Complete(start, end, mem, tiles, freeIndex.Contents(), usedIndex.Contents(), rightmost, live, missing)
    {
      hide Loose, Complete, MergedRight, WithoutFirst, Tagged, SideBySide, Joined;
      RightFacts(start, end, mem, tiles, freeIndex.Contents(), usedIndex.Contents(), rightmost, live, x, missing);
      var footer := x + SizeAt(mem, x) - FOOTER;
      var right := footer + FOOTER;
      if IsMagic(mem, right + 8) && IsFree(mem, right) {
        var rightFooter := right + SizeAt(mem, right) - FOOTER;
        if IsMagic(mem, rightFooter) && BackAt(mem, rightFooter + 4) == right {
          freeIndex.RemoveItem(right);
          var size := SizeAt(mem, x) + SizeAt(mem, right);
          JoinRight(x, right, size, rightFooter);
          if rightmost == right {
            rightmost := x;
          }
          tiles := (tiles - {right})[x := Tile(size, true)];
        }
      }
    }

    /** heap_contract: pages past the new end are unmapped, from the top down. */
    method Contract(bytes: int)
      requires 0 <= bytes <= end - start && INITIAL_SIZE <= end - start && start % PAGE == 0 && end % PAGE == 0
      requires KeysBelow(mem, start, end + PAGE)
      modifies this`end, this`mem
      ensures bytes < MIN_SHRINK ==> end == old(end) && mem == old(mem)
      ensures bytes >= MIN_SHRINK ==>
                end == RoundUpPage(if old(end) - bytes < start + INITIAL_SIZE then start + INITIAL_SIZE else old(end) - bytes)
      ensures bytes >= MIN_SHRINK ==> mem == Unmapped(old(mem), end + PAGE)
      ensures start + INITIAL_SIZE <= end <= old(end) && end % PAGE == 0
    {
      hide Unmapped, KeysBelow;
      if bytes < MIN_SHRINK {
        return;
      }
      NothingPast(mem, start, end + PAGE);
      var newSize := (end - start) - bytes;
      if newSize < INITIAL_SIZE {
        newSize := INITIAL_SIZE;
      }
      var newEnd := start + newSize;
      RoundUpPageFacts(newEnd, end);
      if newEnd % PAGE != 0 {
        newEnd := newEnd - newEnd % PAGE + PAGE;
      }
      var addr := end;
      while addr > newEnd
        invariant newEnd <= addr && addr % PAGE == 0
        invariant mem == Unmapped(old(mem), addr + PAGE)
      {
        PageBelow(addr, newEnd);
        UnmapPage(old(mem), addr);
        mem := map k | k in mem && (k + 4 <= addr || addr + PAGE <= k) :: mem[k];
        addr := addr - PAGE;
      }
      end := newEnd;
    }

    /** The tail of heap_free: a very large free area at the end gives pages back. */
    method TrimTail()
      requires Valid()
      modifies this`end, this`mem, this`tiles
      ensures Valid() && end <= old(end) && UsedKept(old(tiles), tiles, {})
      ensures tiles[rightmost].free ==> tiles[rightmost].size < KEPT_WASTE + MIN_SHRINK
      ensures var last := old(tiles)[rightmost];
        end == if last.free && last.size >= KEPT_WASTE + MIN_SHRINK then RoundUpPage(old(end) - (last.size - KEPT_WASTE)) else old(end)
    {
      hide Consistent, Unmapped, WriteFooter, Poke, RoundUpPage;
      RightmostFacts(start, end, mem, tiles, freeIndex.Contents(), usedIndex.Contents(), rightmost, live);
      if IsFree(mem, rightmost) && SizeAt(mem, rightmost) >= MAX_WASTE {
        ghost var mem0, end0 := mem, end;
        ghost var size0 := tiles[rightmost].size;
        var size := SizeAt(mem, rightmost);
        var oldSize := end - start;
        TrimFacts(start, end, mem, tiles, freeIndex.Contents(), usedIndex.Contents(), rightmost, live);
        Contract(size - KEPT_WASTE);
        var shrunk := oldSize - (end - start);
        if shrunk > 0 {
          mem := Poke(mem, rightmost, Size(size - shrunk));
          mem := WriteFooter(mem, rightmost + (size - shrunk) - FOOTER, rightmost);
          tiles := tiles[rightmost := Tile(size - shrunk, true)];
        }
      }
    }

    /** heap_free.  NULL and addresses outside [start, max] are ignored, even live ones of a heap that has grown past max. */
    method Free(p: int)
      requires Valid() && (p == 0 || p < start || p > max || p in live) && freeIndex.size < INDEX_SIZE
      modifies Repr()
      ensures Valid() && end <= old(end) && live == if p <= max then old(live) - {p} else old(live)
      ensures p !in old(live) || p > max ==> mem == old(mem) && tiles == old(tiles) && end == old(end)
      ensures p in old(live) && p <= max ==> UsedKept(old(tiles), tiles, {old(live)[p].at})
      ensures p in old(live) && p <= max && rightmost in tiles && tiles[rightmost].free ==>
        tiles[rightmost].size < KEPT_WASTE + MIN_SHRINK
    {
      hide Consistent, Loose, Complete, UsedKept;
      NotLive(start, end, mem, tiles, freeIndex.Contents(), usedIndex.Contents(), rightmost, live, p);
      if p == 0 {
        return;
      }
      var ok, header := FindArea(p);
      if !ok {
        return;
      }
      var x, add := Release(header, p);
      ghost var tiles1 := tiles;
      MergeRight(x, if add then {x} else {});
      ghost var tiles2 := tiles;
      KeptTwice(old(tiles), tiles1, tiles2, {header});
      InsertComplete(start, end, mem, tiles, freeIndex.Contents(), usedIndex.Contents(), rightmost, live, x, add);
      if add {
        freeIndex.Insert(x, BySize(mem));
      }
      TrimTail();
      KeptTwice(old(tiles), tiles2, tiles, {header});
    }

    /** A client stores bytes [lo, hi) of its own allocation. */
    method ClientStore(p: int, lo: int, hi: int)
      requires Valid() && p in live && p <= lo <= hi <= p + live[p].size
      modifies this`mem
      ensures Valid() && mem == Overwritten(old(mem), lo, hi)
    {
      hide Consistent;
      StoreConsistent(start, end, mem, tiles, freeIndex.Contents(), usedIndex.Contents(), rightmost, live, p, lo, hi);
      mem := Overwritten(mem, lo, hi);
    }
  }

  /** Bytes that hold no tag field any more (client data is assumed not to look like a tag). */
  function Overwritten(mem: Memory, lo: int, hi: int): Memory {
    map k | k in mem && (k + 4 <= lo || hi <= k) :: mem[k]
  }

  lemma StoreConsistent(start: int, end: int, mem: Memory, tiles: Tiles, free: seq<int>, used: seq<int>, r: int, live: map<int, Grant>,
                        p: int, lo: int, hi: int)
    requires Consistent(start, end, mem, tiles, free, used, r, live) && p in live && p <= lo <= hi <= p + live[p].size
    ensures Consistent(start, end, Overwritten(mem, lo, hi), tiles, free, used, r, live)
  {
    hide Core, Tiling, Spaced, Indexed, Separated;
    var a := live[p].at;
    assert Honoured(tiles, p, live[p]);
    PointerFacts(a);
    CoreFacts(start, end, mem, tiles, a);
    OverwrittenFacts(mem, a, tiles[a], lo, hi);
    var mem', pieces := Overwritten(mem, lo, hi), map[a := tiles[a]];
    TilingOne(a, tiles[a]);
    FooterOf(mem', pieces, a);
    RewriteOne(start, end, mem, tiles, a, mem', pieces, {});
    assert tiles + pieces == tiles;
  }

  lemma OverwrittenFacts(mem: Memory, a: int, t: Tile, lo: int, hi: int)
    requires Spaced(mem) && Tagged(mem, a, t) && a + HEADER <= lo <= hi <= a + t.size - FOOTER
    ensures var r := Overwritten(mem, lo, hi); Spaced(r) && Tagged(r, a, t) && Stored(mem, r, a, a + t.size, {})
  {
  }

  lemma NothingPast(mem: Memory, start: int, limit: int)
    requires KeysBelow(mem, start, limit)
    ensures Unmapped(mem, limit) == mem
  {
  }

  lemma RoundUpPageFacts(x: int, end: int)
    ensures x <= RoundUpPage(x) < x + PAGE && RoundUpPage(x) % PAGE == 0
    ensures x <= end && end % PAGE == 0 ==> RoundUpPage(x) <= end
  {
  }

  lemma PageBelow(x: int, y: int)
    ensures x % PAGE == 0 && y % PAGE == 0 && y < x ==> y <= x - PAGE && (x - PAGE) % PAGE == 0
  {
  }

  lemma UnmapPage(mem: Memory, addr: int)
    ensures var m := Unmapped(mem, addr + PAGE);
      (map k | k in m && (k + 4 <= addr || addr + PAGE <= k) :: m[k]) == Unmapped(mem, addr)
  {
  }

  /** Everything but the index entry of the freed area is back in order. */
  ghost predicate Complete(start: int, end: int, mem: Memory, tiles: Tiles, free: seq<int>, used: seq<int>, r: int, live: map<int, Grant>,
                           missing: set<int>)
  {
    && Core(start, end, mem, tiles) && Last(tiles, end, r) && Indexed(tiles, free, used, missing)
    && Separated(tiles) && Granted(tiles, live)
  }

  lemma NotLive(start: int, end: int, mem: Memory, tiles: Tiles, free: seq<int>, used: seq<int>, r: int, live: map<int, Grant>, p: int)
    requires Consistent(start, end, mem, tiles, free, used, r, live) && 0 < start
    ensures p == 0 || p < start || p >= end ==> p !in live
    ensures p in live ==> start <= p < end
  {
    if p in live {
      LiveFacts(start, end, mem, tiles, free, used, r, live, p);
      assert Honoured(tiles, p, live[p]);
      assert TileFits(tiles, start, end, live[p].at);
    }
  }

  lemma InsertComplete(start: int, end: int, mem: Memory, tiles: Tiles, free: seq<int>, used: seq<int>, r: int, live: map<int, Grant>,
                       x: int, add: bool)
    requires Complete(start, end, mem, tiles, free, used, r, live, if add then {x} else {}) && x in tiles && tiles[x].free
    ensures !add ==> Consistent(start, end, mem, tiles, free, used, r, live)
    ensures add ==> x !in free && NoDuplicates(free)
    ensures add ==> Consistent(start, end, mem, tiles, Inserted(BySize(mem), free, x), used, r, live)
  {
    hide Core, Separated, Granted, Inserted, Last;
    if add {
      InsertedElements(BySize(mem), free, x);
    }
  }

  /** What the right merge finds in memory and leaves behind. */
  lemma RightFacts(start: int, end: int, mem: Memory, tiles: Tiles, free: seq<int>, used: seq<int>, r: int, live: map<int, Grant>,
                   x: int, missing: set<int>)
    requires Loose(start, end, mem, tiles, free, used, r, live, x, missing) && missing <= {x}
    ensures x in tiles && tiles[x].free && SizeAt(mem, x) == tiles[x].size
    ensures var y := x + tiles[x].size;
      if !(IsMagic(mem, y + 8) && IsFree(mem, y))
      then Complete(start, end, mem, tiles, free, used, r, live, missing)
      else
        && y in tiles && tiles[y].free && SizeAt(mem, y) == tiles[y].size && |WithoutFirst(free, y)| <= |free|
        && IsMagic(mem, y + tiles[y].size - 8) && BackAt(mem, y + tiles[y].size - 4) == y
        && var size := tiles[x].size + tiles[y].size;
           Complete(start, end, MergedRight(mem, x, y, size, x + size), (tiles - {y})[x := Tile(size, true)],
                    WithoutFirst(free, y), used, if r == y then x else r, live, missing)
  {
    hide Core, Granted, Indexed, Last, MergedRight, WithoutFirst, Separated, SeparatedButRight;
    var y := x + tiles[x].size;
    CoreFacts(start, end, mem, tiles, x);
    EndFacts(start, end, mem, tiles);
    if y == end {
      NoHeaderAtEnd(start, end, mem, tiles);
    } else {
      CoreFacts(start, end, mem, tiles, y);
    }
    RightAlone(tiles, x);
    if IsMagic(mem, y + 8) && IsFree(mem, y) {
      var size := tiles[x].size + tiles[y].size;
      CoreTiling(start, end, mem, tiles);
      MergeRightCore(start, end, mem, tiles, x, y);
      MergeGranted(tiles, live, x, y, Tile(size, true));
      MergeRightSeparated(start, end, tiles, x, y);
      MergeLast(start, end, tiles, x, y, r);
      IndexedMergeRight(tiles, free, used, x, y, missing);
    }
  }

  lemma RightAlone(tiles: Tiles, x: int)
    requires SeparatedButRight(tiles, x)
    ensures !FreePair(tiles, x) ==> Separated(tiles)
  {
    forall a ensures !FreePair(tiles, x) ==> !FreePair(tiles, a) {
    }
  }

  lemma IndexedMergeRight(tiles: Tiles, free: seq<int>, used: seq<int>, x: int, y: int, missing: set<int>)
    requires Indexed(tiles, free, used, missing) && missing <= {x}
    requires x in tiles && tiles[x].free && y in tiles && tiles[y].free && x != y
    ensures Indexed((tiles - {y})[x := Tile(tiles[x].size + tiles[y].size, true)], WithoutFirst(free, y), used, missing)
    ensures |WithoutFirst(free, y)| <= |free|
  {
    WithoutFirstElements(free, y);
  }

  lemma TrimFacts(start: int, end: int, mem: Memory, tiles: Tiles, free: seq<int>, used: seq<int>, r: int, live: map<int, Grant>)
    requires Consistent(start, end, mem, tiles, free, used, r, live) && tiles[r].free
    ensures KeysBelow(mem, start, end + PAGE)
    ensures MIN_SHRINK <= tiles[r].size - KEPT_WASTE ==>
      var end' := RoundUpPage(end - (tiles[r].size - KEPT_WASTE)); var size := tiles[r].size - (end - end');
      && end' < end && KEPT_WASTE <= size < KEPT_WASTE + PAGE
      && Consistent(start, end', WriteFooter(Poke(Unmapped(mem, end' + PAGE), r, Size(size)), r + size - FOOTER, r),
                    tiles[r := Tile(size, true)], free, used, r, live)
  {
    hide Core, WriteFooter, Poke, Unmapped, RoundUpPage;
    CoreFacts(start, end, mem, tiles, r);
    if MIN_SHRINK <= tiles[r].size - KEPT_WASTE {
      var less := tiles[r].size - KEPT_WASTE;
      var end' := RoundUpPage(end - less);
      TrimArithmetic(end, less);
      ShrinkLast(start, end, mem, tiles, r, end - end');
      EndFacts(start, end, mem, tiles);
      TailKeeps(start, end, mem, tiles, r, tiles[r := Tile(tiles[r].size - (end - end'), true)], live);
    }
  }

  lemma TrimArithmetic(end: int, less: int)
    requires end % PAGE == 0 && MIN_SHRINK <= less
    ensures var end' := RoundUpPage(end - less);
      end' % PAGE == 0 && (end - end') % PAGE == 0 && less - PAGE < end - end' <= less
  {
  }

  /** Between the two merges: the freed area at x may be missing from the index and touch a free area on its right. */
  ghost predicate Loose(start: int, end: int, mem: Memory, tiles: Tiles, free: seq<int>, used: seq<int>, r: int, live: map<int, Grant>,
                        x: int, missing: set<int>)
  {
    && Core(start, end, mem, tiles) && Last(tiles, end, r) && Indexed(tiles, free, used, missing)
    && SeparatedButRight(tiles, x) && Granted(tiles, live) && x in tiles && tiles[x].free
  }

  lemma LiveFacts(start: int, end: int, mem: Memory, tiles: Tiles, free: seq<int>, used: seq<int>, r: int, live: map<int, Grant>, p: int)
    requires Consistent(start, end, mem, tiles, free, used, r, live) && p in live
    ensures var h := live[p].at;
      && h in tiles && !tiles[h].free && IsMagic(mem, h + 8) && Spaced(mem)
      && h + HEADER <= p <= h + HEADER + 3 && start <= h
  {
    var h := live[p].at;
    assert Honoured(tiles, p, live[p]);
    PointerFacts(h);
    CoreFacts(start, end, mem, tiles, h);
  }

  /** What freeing p finds in memory and leaves behind, in both branches of the left merge. */
  lemma ReleaseFacts(start: int, end: int, mem: Memory, tiles: Tiles, free: seq<int>, used: seq<int>, r: int, live: map<int, Grant>, p: int)
    returns (b: int)
    requires Consistent(start, end, mem, tiles, free, used, r, live) && p in live
    ensures var h := live[p].at; var m := Poke(mem, h + 4, Kind(true));
      && h in tiles && !tiles[h].free && start <= h && SizeAt(m, h) == tiles[h].size
      && (h == start || (b in tiles && b + tiles[b].size == h && start <= h - 8 && IsMagic(m, h - 8) && BackAt(m, h - 4) == b
                         && IsMagic(m, b + 8) && (IsFree(m, b) <==> tiles[b].free) && SizeAt(m, b) == tiles[b].size))
      && (h == start || !tiles[b].free ==>
            Loose(start, end, m, tiles[h := Tile(tiles[h].size, true)], free, WithoutFirst(used, h), r, live - {p}, h, {h}))
      && (h != start && tiles[b].free ==>
            var size := tiles[b].size + tiles[h].size;
            Loose(start, end, MergedLeft(m, b, h, size, b + size), (tiles[h := Tile(tiles[h].size, true)] - {h})[b := Tile(size, true)],
                  free, WithoutFirst(used, h), if r == h then b else r, live - {p}, b, {}))
  {
    hide Core, Granted, Separated, Indexed, Loose, MergedLeft, Poke, WithoutFirst;
    var h := live[p].at;
    LiveFacts(start, end, mem, tiles, free, used, r, live, p);
    b := h;
    if h != start {
      CoreTiling(start, end, mem, tiles);
      b := LeftNeighbour(tiles, start, end, h);
    }
    ReleaseReads(start, end, mem, tiles, h, b);
    if h == start || !tiles[b].free {
      ReleaseLoose(start, end, mem, tiles, free, used, r, live, p, b);
    } else {
      ReleaseLooseLeft(start, end, mem, tiles, free, used, r, live, p, b);
    }
  }

  lemma ReleaseReads(start: int, end: int, mem: Memory, tiles: Tiles, h: int, b: int)
    requires Core(start, end, mem, tiles) && h in tiles && b in tiles && (h == start || b + tiles[b].size == h)
    ensures var m := Poke(mem, h + 4, Kind(true));
      && start <= h && SizeAt(m, h) == tiles[h].size
      && (h == start || (start <= h - 8 && IsMagic(m, h - 8) && BackAt(m, h - 4) == b
                         && IsMagic(m, b + 8) && (IsFree(m, b) <==> tiles[b].free) && SizeAt(m, b) == tiles[b].size))
  {
    hide Core, Spaced;
    CoreFacts(start, end, mem, tiles, h);
    CoreFacts(start, end, mem, tiles, b);
  }

  lemma ReleaseLoose(start: int, end: int, mem: Memory, tiles: Tiles, free: seq<int>, used: seq<int>, r: int, live: map<int, Grant>, p: int, b: int)
    requires Consistent(start, end, mem, tiles, free, used, r, live) && p in live && live[p].at in tiles && !tiles[live[p].at].free
    requires live[p].at == start || (b in tiles && b + tiles[b].size == live[p].at && !tiles[b].free)
    ensures var h := live[p].at;
      Loose(start, end, Poke(mem, h + 4, Kind(true)), tiles[h := Tile(tiles[h].size, true)], free, WithoutFirst(used, h), r, live - {p}, h, {h})
  {
    hide Core, Granted, WithoutFirst;
    var h := live[p].at;
    Relabel(start, end, mem, tiles, h, true);
    ReleaseGranted(tiles, live, p);
    WithoutFirstElements(used, h);
    forall c | c in tiles && c + tiles[c].size == h ensures !tiles[c].free {
      SameLeft(start, end, mem, tiles, h, b, c);
    }
    ReleaseSeparated(tiles, h);
  }

  lemma SameLeft(start: int, end: int, mem: Memory, tiles: Tiles, h: int, b: int, c: int)
    requires Core(start, end, mem, tiles) && h in tiles && c in tiles && c + tiles[c].size == h
    requires h == start || (b in tiles && b + tiles[b].size == h)
    ensures h != start && b == c
  {
    assert TileFits(tiles, start, end, c);
    if h != start {
      assert TileFits(tiles, start, end, b);
    }
  }

  lemma ReleaseLooseLeft(start: int, end: int, mem: Memory, tiles: Tiles, free: seq<int>, used: seq<int>, r: int, live: map<int, Grant>, p: int, b: int)
    requires Consistent(start, end, mem, tiles, free, used, r, live) && p in live && live[p].at in tiles && !tiles[live[p].at].free
    requires b in tiles && b + tiles[b].size == live[p].at && tiles[b].free
    ensures var h := live[p].at; var m := Poke(mem, h + 4, Kind(true)); var size := tiles[b].size + tiles[h].size;
      Loose(start, end, MergedLeft(m, b, h, size, b + size), (tiles[h := Tile(tiles[h].size, true)] - {h})[b := Tile(size, true)],
            free, WithoutFirst(used, h), if r == h then b else r, live - {p}, b, {})
  {
    hide Core, Granted, WithoutFirst, MergedLeft, Poke, Separated, Last, Indexed;
    var h := live[p].at;
    var m, tiles1 := Poke(mem, h + 4, Kind(true)), tiles[h := Tile(tiles[h].size, true)];
    var size := tiles[b].size + tiles[h].size;
    CoreFacts(start, end, mem, tiles, b);
    Relabel(start, end, mem, tiles, h, true);
    MergeLeftCore(start, end, m, tiles1, b, h);
    ReleaseGranted(tiles, live, p);
    MergeGranted(tiles1, live - {p}, b, h, Tile(size, true));
    IndexedMergeLeft(tiles, free, used, b, h);
    CoreTiling(start, end, mem, tiles);
    MergeLeftSeparated(start, end, tiles, b, h);
    MergeLast(start, end, tiles, b, h, r);
    assert (tiles1 - {h})[b := Tile(size, true)] == (tiles - {h})[b := Tile(size, true)];
  }

  lemma IndexedMergeLeft(tiles: Tiles, free: seq<int>, used: seq<int>, b: int, h: int)
    requires Indexed(tiles, free, used, {}) && h in tiles && !tiles[h].free && b in tiles && tiles[b].free
    ensures Indexed((tiles - {h})[b := Tile(tiles[b].size + tiles[h].size, true)], free, WithoutFirst(used, h), {})
  {
    WithoutFirstElements(used, h);
  }

  lemma MergeLeftCore(start: int, end: int, mem: Memory, tiles: Tiles, a: int, b: int)
    requires Core(start, end, mem, tiles) && a in tiles && b in tiles && a + tiles[a].size == b && tiles[a].free
    ensures var size := tiles[a].size + tiles[b].size;
      Core(start, end, MergedLeft(mem, a, b, size, a + size), (tiles - {b})[a := Tile(size, true)])
  {
    hide Core, MergedLeft, Spaced, SideBySide, Joined;
    var size := tiles[a].size + tiles[b].size;
    Neighbours(start, end, mem, tiles, a, b);
    MergedSpaced(mem, a, b, size, a + size);
    MergedLeftFacts(mem, a, b, tiles[a], tiles[b], size, a + size);
    Merge(start, end, mem, tiles, a, b, MergedLeft(mem, a, b, size, a + size));
  }

  lemma MergeRightCore(start: int, end: int, mem: Memory, tiles: Tiles, a: int, b: int)
    requires Core(start, end, mem, tiles) && a in tiles && b in tiles && a + tiles[a].size == b
    ensures var size := tiles[a].size + tiles[b].size;
      Core(start, end, MergedRight(mem, a, b, size, a + size), (tiles - {b})[a := Tile(size, true)])
  {
    hide Core, MergedRight, Spaced, SideBySide, Joined;
    var size := tiles[a].size + tiles[b].size;
    Neighbours(start, end, mem, tiles, a, b);
    MergedSpaced(mem, a, b, size, a + size);
    MergedRightFacts(mem, a, b, tiles[a], tiles[b], size, a + size);
    Merge(start, end, mem, tiles, a, b, MergedRight(mem, a, b, size, a + size));
  }

  lemma CoreTiling(start: int, end: int, mem: Memory, tiles: Tiles)
    requires Core(start, end, mem, tiles)
    ensures Tiling(tiles, start, end)
  {
  }

  lemma RightmostFacts(start: int, end: int, mem: Memory, tiles: Tiles, free: seq<int>, used: seq<int>, r: int, live: map<int, Grant>)
    requires Consistent(start, end, mem, tiles, free, used, r, live)
    ensures r in tiles && r + tiles[r].size == end && start <= r && OVERHEAD < tiles[r].size && end !in tiles
    ensures SizeAt(mem, r) == tiles[r].size && (IsFree(mem, r) <==> tiles[r].free)
    ensures start % PAGE == 0 && end % PAGE == 0
  {
    CoreFacts(start, end, mem, tiles, r);
    if end in tiles {
      CoreFacts(start, end, mem, tiles, end);
      assert false;
    }
  }

  lemma EndClear(start: int, end: int, mem: Memory, tiles: Tiles, free: seq<int>, used: seq<int>, r: int, live: map<int, Grant>)
    requires Consistent(start, end, mem, tiles, free, used, r, live)
    ensures forall h :: h in free || h in used ==> h + SizeAt(mem, h) <= end && h < end
    ensures NoDuplicates(free) && NoDuplicates(used)
  {
    forall h | h in free || h in used ensures h + SizeAt(mem, h) <= end && h < end {
      CoreFacts(start, end, mem, tiles, h);
    }
  }

  lemma GrowConsistent(start: int, end: int, mem: Memory, tiles: Tiles, free: seq<int>, used: seq<int>, r: int, live: map<int, Grant>, more: int)
    requires Consistent(start, end, mem, tiles, free, used, r, live) && tiles[r].free && 0 < more && more % PAGE == 0
    ensures Consistent(start, end + more, Grown(mem, r, tiles[r].size, more), tiles[r := Tile(tiles[r].size + more, true)],
                       free, used, r, live)
  {
    hide Core, Grown;
    var tiles' := tiles[r := Tile(tiles[r].size + more, true)];
    GrowLast(start, end, mem, tiles, r, more);
    CoreFacts(start, end, mem, tiles, r);
    EndFacts(start, end, mem, tiles);
    TailKeeps(start, end, mem, tiles, r, tiles', live);
  }

  lemma AddConsistent(start: int, end: int, mem: Memory, tiles: Tiles, free: seq<int>, used: seq<int>, r: int, live: map<int, Grant>,
                      more: int, free': seq<int>)
    requires Consistent(start, end, mem, tiles, free, used, r, live) && !tiles[r].free && 0 < more && more % PAGE == 0
    requires NoDuplicates(free') && forall x :: x in free' <==> x == end || x in free
    ensures Consistent(start, end + more, WriteArea(mem, end, more, true), tiles[end := Tile(more, true)], free', used, end, live)
  {
    hide Core, WriteArea;
    AddLast(start, end, mem, tiles, more);
    EndFacts(start, end, mem, tiles);
    AddSeparated(start, end, mem, tiles, r, more);
    var tiles' := tiles[end := Tile(more, true)];
    forall q | q in live ensures Honoured(tiles', q, live[q]) {
      assert Honoured(tiles, q, live[q]);
    }
  }

  lemma AddSeparated(start: int, end: int, mem: Memory, tiles: Tiles, r: int, more: int)
    requires Core(start, end, mem, tiles) && Separated(tiles) && Last(tiles, end, r) && !tiles[r].free && 0 < more
    ensures Separated(tiles[end := Tile(more, true)])
  {
    var tiles' := tiles[end := Tile(more, true)];
    forall x ensures !FreePair(tiles', x) {
      assert !FreePair(tiles, x);
      assert TileFits(tiles, start, end, r);
      assert x in tiles ==> TileFits(tiles, start, end, x);
      assert end + more in tiles ==> TileFits(tiles, start, end, end + more);
    }
  }

  /** Changing the size of the free area at the end keeps separation and grants. */
  lemma TailKeeps(start: int, end: int, mem: Memory, tiles: Tiles, r: int, tiles': Tiles, live: map<int, Grant>)
    requires Core(start, end, mem, tiles) && Last(tiles, end, r) && tiles[r].free && Separated(tiles) && Granted(tiles, live)
    requires r in tiles' && tiles' == tiles[r := Tile(tiles'[r].size, true)] && OVERHEAD < tiles'[r].size
    ensures Separated(tiles') && Granted(tiles', live)
  {
    forall x ensures !FreePair(tiles', x) {
      assert !FreePair(tiles, x);
      assert TileFits(tiles, start, end, r);
      assert x in tiles ==> TileFits(tiles, start, end, x);
      var n := r + tiles'[r].size;
      assert n in tiles ==> TileFits(tiles, start, end, n);
    }
    forall q | q in live ensures Honoured(tiles', q, live[q]) {
      assert Honoured(tiles, q, live[q]);
    }
  }

  /** The hole at a stands clear of all other areas, also once o bytes are skipped in it, with its left neighbour b. */
  ghost predicate HoleReady(start: int, end: int, mem: Memory, tiles: Tiles, free: seq<int>, used: seq<int>, r: int, b: int, a: int, o: int)
    requires a in tiles && b in tiles
  {
    && (0 < o <= OVERHEAD ==> b + tiles[b].size == a && Tagged(mem, b, tiles[b]) && OVERHEAD < tiles[b].size)
    && start <= a <= r && a + tiles[a].size <= end && SizeAt(mem, a) == tiles[a].size && OVERHEAD < tiles[a].size
    && NoDuplicates(used) && NoDuplicates(WithoutFirst(free, a))
    && |WithoutFirst(free, a)| == |free| - 1 && a !in WithoutFirst(free, a)
    && (forall h :: h in WithoutFirst(free, a) || h in used ==> h + SizeAt(mem, h) <= a || a + tiles[a].size <= h)
    && var m := Skipped(mem, b, tiles[b].size, a, tiles[a].size, o);
      && (o == 0 ==> m == mem)
      && Spaced(m) && SizeAt(m, a + o) == tiles[a].size - o
      && (OVERHEAD < o ==> SizeAt(m, a) == o)
      && (forall h :: h in WithoutFirst(free, a) || h in used ==>
            (h + SizeAt(m, h) <= a + o && h < a + o) || a + tiles[a].size <= h)
  }

  /** The indexes and the rightmost area after n bytes were placed o bytes into a hole of the given size. */
  ghost predicate HoleTaken(size: int, free: seq<int>, used: seq<int>, r: int, a: int, o: int, n: int,
                            free': seq<int>, used': seq<int>, r': int)
  {
    && NoDuplicates(free') && NoDuplicates(used')
    && (forall x :: x in free' <==>
          x in WithoutFirst(free, a) || (OVERHEAD < o && x == a) || (size - o - n >= MIN_SPLIT && x == a + o + n))
    && (forall x :: x in used' <==> x in used || x == a + o)
    && var newest := if size - o - n >= MIN_SPLIT then a + o + n else a + o;
      r' == if newest > r then newest else r
  }

  lemma SameHole(size: int, free: seq<int>, used: seq<int>, r: int, a: int, o: int, need: int, n: int,
                 free': seq<int>, used': seq<int>, r': int)
    requires HoleTaken(size, free, used, r, a, o, need, free', used', r')
    requires n == need || (n == size - o && size - o - need < MIN_SPLIT)
    ensures HoleTaken(size, free, used, r, a, o, n, free', used', r')
  {
  }

  lemma SamePlaced(mem: Memory, at: int, total: int, need: int, n: int)
    requires n == need || (n == total && total - need < MIN_SPLIT)
    ensures Placed(mem, at, total, n) == Placed(mem, at, total, need)
  {
  }

  lemma AllocatedTile(tiles: Tiles, b: int, a: int, o: int, n: int)
    requires a in tiles && 0 <= o && OVERHEAD < n <= tiles[a].size - o && (0 < o <= OVERHEAD ==> b in tiles)
    ensures var tiles' := AllocTiles(tiles, b, a, o, n);
      a + o in tiles' && tiles'[a + o] == Tile(Used(tiles[a].size - o, n), false)
  {
  }

  lemma RoomFacts(start: int, end: int, mem: Memory, tiles: Tiles, free: seq<int>, used: seq<int>, r: int, live: map<int, Grant>, a: int)
    requires Consistent(start, end, mem, tiles, free, used, r, live) && a in tiles
    ensures SizeAt(mem, a) == tiles[a].size
  {
    CoreFacts(start, end, mem, tiles, a);
  }

  /** What placing n bytes o bytes into the hole at a can rely on. */
  lemma PlaceFacts(start: int, end: int, mem: Memory, tiles: Tiles, free: seq<int>, used: seq<int>, r: int, live: map<int, Grant>,
                   a: int, o: int, n: int) returns (b: int)
    requires Consistent(start, end, mem, tiles, free, used, r, live)
    requires a in tiles && tiles[a].free && (o == 0 || o == PageLoss(a)) && OVERHEAD < n <= tiles[a].size - o
    ensures b in tiles && (0 < o <= OVERHEAD ==> b + tiles[b].size == a)
    ensures HoleReady(start, end, mem, tiles, free, used, r, b, a, o)
  {
    hide Core, Tiling, Separated, Granted, Skipped;
    b := a;
    PageLossFacts(a);
    if 0 < o <= OVERHEAD {
      b := LeftOf(start, end, mem, tiles, a);
      CoreFacts(start, end, mem, tiles, b);
    }
    CoreFacts(start, end, mem, tiles, a);
    RightmostIsRight(start, end, mem, tiles, r, a);
    WithoutFirstElements(free, a);
    IndexClear(start, end, mem, tiles, a);
    SkippedFacts(start, end, mem, tiles, b, a, o);
  }

  lemma AllocConsistent(start: int, end: int, mem: Memory, tiles: Tiles, free: seq<int>, used: seq<int>, r: int, live: map<int, Grant>,
                        b: int, a: int, o: int, n: int, request: int, free': seq<int>, used': seq<int>, r': int)
    requires Consistent(start, end, mem, tiles, free, used, r, live)
    requires a in tiles && tiles[a].free && (o == 0 || o == PageLoss(a)) && OVERHEAD < n <= tiles[a].size - o
    requires b in tiles && (0 < o <= OVERHEAD ==> b + tiles[b].size == a) && o >= 0
    requires Pointer(a + o) + request <= a + o + n - FOOTER
    requires HoleTaken(tiles[a].size, free, used, r, a, o, n, free', used', r')
    ensures Pointer(a + o) !in live
    ensures Consistent(start, end, Placed(Skipped(mem, b, tiles[b].size, a, tiles[a].size, o), a + o, tiles[a].size - o, n),
                       AllocTiles(tiles, b, a, o, n), free', used', r', live[Pointer(a + o) := Grant(a + o, request)])
  {
    hide Core, Tiling, Separated, Granted, Skipped, Placed, AllocTiles, Last;
    WithoutFirstElements(free, a);
    AllocIsReady(start, end, mem, tiles, b, a, o, n);
    AllocCore(start, end, mem, tiles, b, a, o, n);
    AllocSeparated(start, end, tiles, b, a, o, n);
    AllocLast(start, end, tiles, b, a, o, n, r);
    AllocIndexed(start, end, tiles, b, a, o, n, free, used, free', used');
    AllocGranted(start, end, tiles, b, a, o, n, live, request);
  }

  lemma LeftOf(start: int, end: int, mem: Memory, tiles: Tiles, a: int) returns (b: int)
    requires Core(start, end, mem, tiles) && a in tiles && 0 < PageLoss(a) <= OVERHEAD
    ensures b in tiles && b + tiles[b].size == a && b < a
  {
    PageLossFacts(a);
    b := LeftNeighbour(tiles, start, end, a);
    assert TileFits(tiles, start, end, b);
  }

  lemma AllocIsReady(start: int, end: int, mem: Memory, tiles: Tiles, b: int, a: int, o: int, n: int)
    requires Core(start, end, mem, tiles) && Separated(tiles) && a in tiles && tiles[a].free
    requires 0 <= o && OVERHEAD < n <= tiles[a].size - o
    requires 0 < o <= OVERHEAD ==> b in tiles && b + tiles[b].size == a
    ensures AllocReady(start, end, tiles, b, a, o, n)
  {
  }

  lemma RightmostIsRight(start: int, end: int, mem: Memory, tiles: Tiles, r: int, a: int)
    requires Core(start, end, mem, tiles) && Last(tiles, end, r) && a in tiles
    ensures a <= r
  {
    assert TileFits(tiles, start, end, a) && TileFits(tiles, start, end, r);
  }

  lemma IndexClear(start: int, end: int, mem: Memory, tiles: Tiles, a: int)
    requires Core(start, end, mem, tiles) && a in tiles
    ensures forall h :: h in tiles && h != a ==>
              SizeAt(mem, h) == tiles[h].size && ((h + SizeAt(mem, h) <= a && h < a) || a + tiles[a].size <= h)
  {
    forall h | h in tiles && h != a
      ensures SizeAt(mem, h) == tiles[h].size && ((h + SizeAt(mem, h) <= a && h < a) || a + tiles[a].size <= h)
    {
      assert Tagged(mem, h, tiles[h]);
    }
  }

  lemma SkippedFacts(start: int, end: int, mem: Memory, tiles: Tiles, b: int, a: int, o: int)
    requires Core(start, end, mem, tiles) && a in tiles && 0 <= o && OVERHEAD < tiles[a].size - o
    requires 0 < o <= OVERHEAD ==> b in tiles && b + tiles[b].size == a
    requires b in tiles
    ensures var h := tiles[a].size; var m := Skipped(mem, b, tiles[b].size, a, h, o);
      && Spaced(m) && SizeAt(m, a + o) == h - o
      && (OVERHEAD < o ==> SizeAt(m, a) == o)
      && (o == 0 ==> m == mem)
      && (forall x :: x in tiles && x != a ==> (x + SizeAt(m, x) <= a + o && x < a) || a + h <= x)
  {
    hide Core, Tiling, Spaced, Tagged, Stored, CarvedWaste, Shifted;
    var h := tiles[a].size;
    CoreFacts(start, end, mem, tiles, a);
    CoreFacts(start, end, mem, tiles, b);
    TaggedSize(mem, a, tiles[a]);
    IndexClear(start, end, mem, tiles, a);
    var m := Skipped(mem, b, tiles[b].size, a, h, o);
    if OVERHEAD < o {
      CarvedWasteFacts(mem, a, h, o);
      CarvedWasteSize(mem, a, h, o);
      TaggedSize(m, a, Tile(o, true));
      forall x | x in tiles && x != a ensures (x + SizeAt(m, x) <= a + o && x < a) || a + h <= x {
        CoreFacts(start, end, mem, tiles, x);
        StoredSize(mem, m, a, a + h, {a + 8, a + o - 8}, x, tiles[x]);
      }
    } else if o != 0 {
      ShiftedSpaced(mem, b, tiles[b].size, a, h, o);
      ShiftedFacts(mem, b, tiles[b], a, h, o);
      ShiftedSize(mem, b, tiles[b].size, a, h, o);
      TaggedSize(m, b, Tile(tiles[b].size + o, tiles[b].free));
      IndexClear(start, end, mem, tiles, b);
      forall x | x in tiles && x != a ensures (x + SizeAt(m, x) <= a + o && x < a) || a + h <= x {
        CoreFacts(start, end, mem, tiles, x);
        if x != b {
          TaggedSize(mem, x, tiles[x]);
          StoredSize(mem, m, b, a + h, {a + o - 8}, x, tiles[x]);
        }
      }
    }
  }

  lemma TaggedSize(mem: Memory, a: int, t: Tile)
    requires Tagged(mem, a, t)
    ensures SizeAt(mem, a) == t.size
  {
  }

  lemma StoredSize(mem: Memory, mem': Memory, lo: int, hi: int, added: set<int>, x: int, t: Tile)
    requires Stored(mem, mem', lo, hi, added) && Tagged(mem, x, t) && OVERHEAD < t.size && (x + t.size <= lo || hi <= x)
    ensures SizeAt(mem', x) == SizeAt(mem, x) == t.size
  {
  }

  lemma CarvedWasteSize(mem: Memory, a: int, total: int, o: int)
    ensures SizeAt(CarvedWaste(mem, a, total, o), a + o) == total - o
  {
  }

  lemma ShiftedSize(mem: Memory, b: int, sb: int, a: int, total: int, o: int)
    ensures SizeAt(Shifted(mem, b, sb, a, total, o), a + o) == total - o
  {
  }

  lemma AllocCore(start: int, end: int, mem: Memory, tiles: Tiles, b: int, a: int, o: int, n: int)
    requires Core(start, end, mem, tiles) && a in tiles && b in tiles && 0 <= o && OVERHEAD < n <= tiles[a].size - o
    requires 0 < o <= OVERHEAD ==> o == PageLoss(a) && b + tiles[b].size == a
    ensures Core(start, end, Placed(Skipped(mem, b, tiles[b].size, a, tiles[a].size, o), a + o, tiles[a].size - o, n),
                 AllocTiles(tiles, b, a, o, n))
  {
    hide Core, Placed, CarvedWaste, Shifted, PlacedTiles;
    if o == 0 {
      AllocPlain(start, end, mem, tiles, a, n);
    } else if OVERHEAD < o {
      AllocCarved(start, end, mem, tiles, a, o, n);
    } else {
      AllocShifted(start, end, mem, tiles, b, a, n);
    }
  }

  lemma AllocIndexed(start: int, end: int, tiles: Tiles, b: int, a: int, o: int, n: int,
                     free: seq<int>, used: seq<int>, free': seq<int>, used': seq<int>)
    requires AllocReady(start, end, tiles, b, a, o, n) && Indexed(tiles, free, used, {})
    requires NoDuplicates(free') && NoDuplicates(used')
    requires forall x :: x in free' <==>
               (x in free && x != a) || (OVERHEAD < o && x == a) || (tiles[a].size - o - n >= MIN_SPLIT && x == a + o + n)
    requires forall x :: x in used' <==> x in used || x == a + o
    ensures Indexed(AllocTiles(tiles, b, a, o, n), free', used', {})
  {
    hide Tiling;
    var tiles' := AllocTiles(tiles, b, a, o, n);
    forall x ensures x in free' <==> x in tiles' && tiles'[x].free {
      if x in tiles && x != a {
        AllocNeighbours(start, end, tiles, b, a, o, n, x);
      }
    }
    forall x ensures x in used' <==> x in tiles' && !tiles'[x].free {
      if x in tiles && x != a {
        AllocNeighbours(start, end, tiles, b, a, o, n, x);
      }
    }
  }

  function BackAt(mem: Memory, k: int): int { if k in mem && mem[k].Back? then mem[k].header else 0 }

  /** Memory once the first o bytes of the hole at a are given up. */
  ghost function Skipped(mem: Memory, b: int, sb: int, a: int, total: int, o: int): Memory {
    if o == 0 then mem
    else if OVERHEAD < o then CarvedWaste(mem, a, total, o)
    else Shifted(mem, b, sb, a, total, o)
  }

  /** The order of both indexes: by the size in the header. */
  function BySize(mem: Memory): LessThan {
    (a: int, b: int) => SizeAt(mem, a) < SizeAt(mem, b)
  }

  lemma FreeIndexed(start: int, end: int, mem: Memory, tiles: Tiles, free: seq<int>, used: seq<int>, r: int, live: map<int, Grant>)
    requires Consistent(start, end, mem, tiles, free, used, r, live)
    ensures Core(start, end, mem, tiles) && Indexed(tiles, free, used, {})
    ensures forall j :: 0 <= j < |free| ==> free[j] in tiles && tiles[free[j]].free
    ensures forall a :: a in tiles && tiles[a].free ==> a in free
  {
    hide Core;
    forall j | 0 <= j < |free|
      ensures free[j] in tiles && tiles[free[j]].free
    {
      assert free[j] in free;
    }
  }

  lemma SmallestWhenSorted(start: int, end: int, mem: Memory, tiles: Tiles, free: seq<int>, used: seq<int>, i: nat, need: int, align: bool)
    requires Core(start, end, mem, tiles) && Indexed(tiles, free, used, {}) && i < |free|
    requires forall j :: 0 <= j < i && free[j] in tiles ==> !Fits(tiles[free[j]].size, free[j], need, align)
    ensures SortedBy(BySize(mem), free) ==>
              forall a :: a in tiles && tiles[a].free && Fits(tiles[a].size, a, need, align) ==> tiles[free[i]].size <= tiles[a].size
  {
    if SortedBy(BySize(mem), free) {
      forall a | a in tiles && tiles[a].free && Fits(tiles[a].size, a, need, align)
        ensures tiles[free[i]].size <= tiles[a].size
      {
        assert a in free;
        var j :| 0 <= j < |free| && free[j] == a;
        assert j > i ==> !BySize(mem)(free[j], free[i]);
        assert Tagged(mem, a, tiles[a]) && Tagged(mem, free[i], tiles[free[i]]);
      }
    }
  }

  lemma FreshCore(start: int, size: int)
    requires 0 < start && start % PAGE == 0 && size % PAGE == 0 && PAGE <= size
    ensures Core(start, start + size, WriteArea(map[], start, size, true), map[start := Tile(size, true)])
    ensures Separated(map[start := Tile(size, true)]) && Granted(map[start := Tile(size, true)], map[])
  {
    hide WriteArea, Spaced;
    var mem, tiles := WriteArea(map[], start, size, true), map[start := Tile(size, true)];
    WriteAreaFacts(map[], start, size, true);
    WriteAreaTagged(map[], start, size, true);
    FooterOf(mem, tiles, start);
    PageSum(start, size);
    TilingOne(start, Tile(size, true));
    assert forall k :: IsMagic(mem, k) ==> k == start + 8 || k == start + size - 8;
  }
}
