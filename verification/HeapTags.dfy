/**
 The bytes the heap allocator reads and writes: headers and footers of areas (boundary tags),
 as 4-byte words at arbitrary, possibly unaligned, byte addresses.  Also the picture those tags
 must draw: a tiling of the heap by areas.
 */
module HeapTags {

  const PAGE: int := 0x1000
  const HEADER: int := 12    // sizeof(area_header_t): size, type (padded), magic
  const FOOTER: int := 8     // sizeof(area_footer_t): magic, header
  const OVERHEAD: int := 20

  /** A word whose value is known: a field of a tag, or a magic number that was zeroed. */
  datatype Word = Magic | Size(bytes: int) | Kind(free: bool) | Back(header: int) | Cleared

  /** Words by address.  Absent addresses hold bytes that are not a tag field. */
  type Memory = map<int, Word>

  /** A 4-byte store: every other word it overlaps stops being readable. */
  function Poke(mem: Memory, at: int, w: Word): (r: Memory)
    ensures forall k :: k in r <==> k == at || (k in mem && (k + 4 <= at || at + 4 <= k))
    ensures forall k :: k in r ==> r[k] == if k == at then w else mem[k]
  {
    (map k | k in mem && (k + 4 <= at || at + 4 <= k) :: mem[k])[at := w]
  }

  predicate IsMagic(mem: Memory, at: int) { at in mem && mem[at] == Magic }

  function SizeAt(mem: Memory, a: int): int { if a in mem && mem[a].Size? then mem[a].bytes else 0 }

  predicate IsFree(mem: Memory, a: int) { a + 4 in mem && mem[a + 4] == Kind(true) }

  function WriteFooter(mem: Memory, f: int, a: int): Memory {
    Poke(Poke(mem, f, Magic), f + 4, Back(a))
  }

  function WriteHeader(mem: Memory, a: int, size: int, free: bool): Memory {
    Poke(Poke(Poke(mem, a, Size(size)), a + 8, Magic), a + 4, Kind(free))
  }

  /** create_area: both tags of an area. */
  function WriteArea(mem: Memory, a: int, size: int, free: bool): Memory {
    WriteFooter(WriteHeader(mem, a, size, free), a + size - FOOTER, a)
  }

  ghost predicate Spaced(mem: Memory) {
    forall j, k :: j in mem && k in mem && j < k ==> j + 4 <= k
  }

  ghost predicate SameOutside(mem: Memory, mem': Memory, lo: int, hi: int) {
    forall k :: k + 4 <= lo || hi <= k ==>
      (k in mem <==> k in mem') && (k in mem ==> mem'[k] == mem[k])
  }

  /** Every magic number in mem' was one in mem, or is at one of the given addresses. */
  ghost predicate MagicsFrom(mem: Memory, mem': Memory, added: set<int>) {
    forall k :: IsMagic(mem', k) ==> k in added || IsMagic(mem, k)
  }

  ghost predicate KeysWithin(mem: Memory, mem': Memory, lo: int, hi: int) {
    forall k :: k in mem' ==> k in mem || (lo <= k && k + 4 <= hi)
  }

  /** mem' comes from mem by stores inside [lo, hi) that write magic numbers at the given addresses only. */
  ghost predicate Stored(mem: Memory, mem': Memory, lo: int, hi: int, added: set<int>) {
    SameOutside(mem, mem', lo, hi) && MagicsFrom(mem, mem', added) && KeysWithin(mem, mem', lo, hi)
  }

  lemma PokeSpaced(mem: Memory, at: int, w: Word)
    requires Spaced(mem)
    ensures Spaced(Poke(mem, at, w))
  {
  }

  lemma PokeStored(mem: Memory, at: int, w: Word, lo: int, hi: int)
    requires lo <= at && at + 4 <= hi
    ensures Stored(mem, Poke(mem, at, w), lo, hi, if w == Magic then {at} else {})
  {
  }

  lemma StoredTrans(mem: Memory, mem': Memory, mem'': Memory, lo: int, hi: int, one: set<int>, two: set<int>)
    requires Stored(mem, mem', lo, hi, one) && Stored(mem', mem'', lo, hi, two)
    ensures Stored(mem, mem'', lo, hi, one + two)
  {
  }

  lemma StoredWiden(mem: Memory, mem': Memory, lo: int, hi: int, added: set<int>, lo': int, hi': int)
    requires Stored(mem, mem', lo, hi, added) && lo' <= lo && hi <= hi'
    ensures Stored(mem, mem', lo', hi', added)
  {
  }

  //  Tiling

  datatype Tile = Tile(size: int, free: bool)
  type Tiles = map<int, Tile>

  /** Header and footer of the area at a are intact and agree. */
  ghost predicate Tagged(mem: Memory, a: int, t: Tile) {
    && a in mem && mem[a] == Size(t.size)
    && a + 4 in mem && mem[a + 4] == Kind(t.free)
    && IsMagic(mem, a + 8)
    && IsMagic(mem, a + t.size - 8)
    && a + t.size - 4 in mem && mem[a + t.size - 4] == Back(a)
  }

  ghost predicate TileFits(tiles: Tiles, lo: int, hi: int, a: int)
    requires a in tiles
  {
    && lo <= a && OVERHEAD < tiles[a].size && a + tiles[a].size <= hi
    && (a + tiles[a].size == hi || a + tiles[a].size in tiles)
  }

  /** Areas cover [lo, hi) without gap or overlap: each one ends where another starts, or at hi. */
  ghost predicate Tiling(tiles: Tiles, lo: int, hi: int) {
    && lo in tiles
    && (forall a {:trigger TileFits(tiles, lo, hi, a)} :: a in tiles ==> TileFits(tiles, lo, hi, a))
    && (forall a, b :: a in tiles && b in tiles && a < b ==> a + tiles[a].size <= b)
  }

  ghost predicate FooterAt(mem: Memory, tiles: Tiles, k: int) {
    && k + 4 in mem && mem[k + 4].Back?
    && var a := mem[k + 4].header; a in tiles && a + tiles[a].size == k + FOOTER
  }

  /** Where a header that was moved for page alignment can leave its old magic number behind. */
  ghost predicate StalePlace(k: int) { k % PAGE >= PAGE - 24 || k % PAGE < 8 }

  /** Magic numbers are those of current areas, except leftovers near a page boundary. */
  ghost predicate Clean(mem: Memory, tiles: Tiles) {
    forall k :: IsMagic(mem, k) ==> k - 8 in tiles || FooterAt(mem, tiles, k) || StalePlace(k)
  }

  ghost predicate Core(start: int, end: int, mem: Memory, tiles: Tiles) {
    && start % PAGE == 0 && end % PAGE == 0
    && Tiling(tiles, start, end)
    && AllTagged(mem, tiles)
    && Spaced(mem)
    && Clean(mem, tiles)
    // One page past the end stays mapped.
    && (forall k :: k in mem ==> start <= k && k + 4 <= end + PAGE)
  }

  /** Every address of a tiled range lies in some area. */
  lemma {:induction false} Covered(tiles: Tiles, lo: int, hi: int, from: int, x: int) returns (a: int)
    requires Tiling(tiles, lo, hi) && from in tiles && from <= x < hi
    ensures a in tiles && a <= x < a + tiles[a].size
    decreases hi - from
  {
    assert TileFits(tiles, lo, hi, from);
    if x < from + tiles[from].size {
      a := from;
    } else {
      a := Covered(tiles, lo, hi, from + tiles[from].size, x);
    }
  }

  /** No address lies in two areas. */
  lemma OwnerUnique(tiles: Tiles, lo: int, hi: int, a: int, b: int, x: int)
    requires Tiling(tiles, lo, hi) && a in tiles && b in tiles
    requires a <= x < a + tiles[a].size && b <= x < b + tiles[b].size
    ensures a == b
  {
  }

  lemma LeftNeighbour(tiles: Tiles, lo: int, hi: int, a: int) returns (b: int)
    requires Tiling(tiles, lo, hi) && a in tiles && a != lo
    ensures b in tiles && b + tiles[b].size == a
  {
    assert TileFits(tiles, lo, hi, a);
    b := Covered(tiles, lo, hi, lo, a - 1);
  }

  /** Nothing at the end address looks like an area header. */
  lemma NoHeaderAtEnd(start: int, end: int, mem: Memory, tiles: Tiles)
    requires Core(start, end, mem, tiles)
    ensures !IsMagic(mem, end + 8)
  {
    assert (end + 8) % PAGE == 8;
    assert end in tiles ==> TileFits(tiles, start, end, end);
    var a := if end + 12 in mem && mem[end + 12].Back? then mem[end + 12].header else start;
    assert a in tiles ==> TileFits(tiles, start, end, a);
  }

  /** An intact header hides no other header in the three bytes after it. */
  lemma HeaderAlone(mem: Memory, a: int, d: int)
    requires Spaced(mem) && IsMagic(mem, a + 8) && 1 <= d <= 3
    ensures !IsMagic(mem, a + d + 8)
  {
  }

  /** Among the three bytes after a header no other one looks like a header. */
  lemma HeaderFound(mem: Memory, a: int, header: int)
    requires Spaced(mem) && IsMagic(mem, a + 8) && a <= header <= a + 3 && IsMagic(mem, header + 8)
    ensures header == a
  {
    HeaderAlone(mem, a, 1);
    HeaderAlone(mem, a, 2);
    HeaderAlone(mem, a, 3);
  }

  lemma TaggedOutside(mem: Memory, mem': Memory, lo: int, hi: int, a: int, t: Tile)
    requires SameOutside(mem, mem', lo, hi) && Tagged(mem, a, t) && t.size > OVERHEAD
    requires a + t.size <= lo || hi <= a
    ensures Tagged(mem', a, t)
  {
  }

  lemma WriteFooterFacts(mem: Memory, f: int, a: int)
    requires Spaced(mem)
    ensures var r := WriteFooter(mem, f, a); Spaced(r) && Stored(mem, r, f, f + FOOTER, {f})
  {
    PokeSpaced(mem, f, Magic);
    PokeSpaced(Poke(mem, f, Magic), f + 4, Back(a));
    PokeStored(mem, f, Magic, f, f + 8);
    PokeStored(Poke(mem, f, Magic), f + 4, Back(a), f, f + 8);
    StoredTrans(mem, Poke(mem, f, Magic), WriteFooter(mem, f, a), f, f + 8, {f}, {});
  }

  lemma WriteAreaTagged(mem: Memory, a: int, size: int, free: bool)
    requires size > OVERHEAD
    ensures Tagged(WriteArea(mem, a, size, free), a, Tile(size, free))
  {
  }

  lemma WriteHeaderFacts(mem: Memory, a: int, size: int, free: bool)
    requires Spaced(mem)
    ensures var r := WriteHeader(mem, a, size, free); Spaced(r) && Stored(mem, r, a, a + HEADER, {a + 8})
  {
    var m1 := Poke(mem, a, Size(size));
    var m2 := Poke(m1, a + 8, Magic);
    PokeSpaced(mem, a, Size(size));
    PokeSpaced(m1, a + 8, Magic);
    PokeSpaced(m2, a + 4, Kind(free));
  }

  lemma WriteAreaFacts(mem: Memory, a: int, size: int, free: bool)
    requires Spaced(mem) && size > OVERHEAD
    ensures var r := WriteArea(mem, a, size, free);
      Spaced(r) && Stored(mem, r, a, a + size, {a + 8, a + size - 8})
  {
    var m := WriteHeader(mem, a, size, free);
    WriteHeaderFacts(mem, a, size, free);
    WriteFooterFacts(m, a + size - 8, a);
    StoredJoin(mem, m, WriteArea(mem, a, size, free), a, size);
  }

  lemma StoredJoin(mem: Memory, m: Memory, r: Memory, a: int, size: int)
    requires Stored(mem, m, a, a + HEADER, {a + 8})
    requires Stored(m, r, a + size - FOOTER, a + size, {a + size - 8})
    requires size > OVERHEAD
    ensures Stored(mem, r, a, a + size, {a + 8, a + size - 8})
  {
  }

  /** What tiles become when the areas in [lo, hi) are replaced. */
  ghost function Replaced(tiles: Tiles, lo: int, hi: int, pieces: Tiles): Tiles {
    (map a | a in tiles && (a < lo || hi <= a) :: tiles[a]) + pieces
  }

  /** Words outside the range being replaced, which is unbounded when it reaches the end. */
  ghost predicate Untouched(mem: Memory, mem': Memory, lo: int, hi: int, end: int) {
    forall k :: k + 4 <= lo || (hi != end && hi <= k) ==>
      (k in mem <==> k in mem') && (k in mem ==> mem'[k] == mem[k])
  }

  ghost predicate CleanWithin(mem': Memory, pieces: Tiles, lo: int, hi: int, end: int) {
    forall k :: IsMagic(mem', k) && lo < k + 4 && (hi == end || k < hi) ==>
      k - 8 in pieces || FooterAt(mem', pieces, k) || StalePlace(k)
  }

  ghost predicate AllTagged(mem: Memory, tiles: Tiles) {
    forall a {:trigger Tagged(mem, a, tiles[a])} :: a in tiles ==> Tagged(mem, a, tiles[a])
  }

  ghost predicate RangeOf(tiles: Tiles, start: int, end: int, lo: int, hi: int) {
    start <= lo <= hi && (lo in tiles || lo == end) && (hi in tiles || hi == end)
  }

  /**
   The step every operation takes: the areas in [lo, hi) are replaced by pieces that tile the
   same range, or, when the range reaches the end of the heap, a range up to the new end.
   */
  lemma Retile(start: int, end: int, mem: Memory, tiles: Tiles,
               lo: int, hi: int, end': int, mem': Memory, pieces: Tiles)
    requires Core(start, end, mem, tiles) && RangeOf(tiles, start, end, lo, hi)
    requires end' % PAGE == 0 && (hi != end ==> end' == end)
    requires Tiling(pieces, lo, if hi == end then end' else hi)
    requires AllTagged(mem', pieces) && Spaced(mem')
    requires Untouched(mem, mem', lo, hi, end) && CleanWithin(mem', pieces, lo, hi, end)
    requires forall k :: k in mem' ==> start <= k && k + 4 <= end' + PAGE
    ensures Core(start, end', mem', Replaced(tiles, lo, hi, pieces))
  {
    RetileTiling(start, end, tiles, lo, hi, end', pieces);
    RetileTagged(start, end, mem, tiles, lo, hi, mem', pieces);
    RetileClean(start, end, mem, tiles, lo, hi, end', mem', pieces);
  }

  lemma RetileTagged(start: int, end: int, mem: Memory, tiles: Tiles, lo: int, hi: int, mem': Memory, pieces: Tiles)
    requires Core(start, end, mem, tiles) && RangeOf(tiles, start, end, lo, hi)
    requires Untouched(mem, mem', lo, hi, end) && AllTagged(mem', pieces)
    ensures AllTagged(mem', Replaced(tiles, lo, hi, pieces))
  {
    var tiles' := Replaced(tiles, lo, hi, pieces);
    forall a | a in tiles' ensures Tagged(mem', a, tiles'[a]) {
      if a in pieces {
        assert Tagged(mem', a, pieces[a]);
      } else {
        assert Tagged(mem, a, tiles[a]) && TileFits(tiles, start, end, a);
      }
    }
  }

  lemma RetileClean(start: int, end: int, mem: Memory, tiles: Tiles,
                    lo: int, hi: int, end': int, mem': Memory, pieces: Tiles)
    requires Core(start, end, mem, tiles) && RangeOf(tiles, start, end, lo, hi)
    requires Tiling(pieces, lo, if hi == end then end' else hi)
    requires Untouched(mem, mem', lo, hi, end) && CleanWithin(mem', pieces, lo, hi, end)
    ensures Clean(mem', Replaced(tiles, lo, hi, pieces))
  {
    var tiles' := Replaced(tiles, lo, hi, pieces);
    forall k | IsMagic(mem', k) ensures k - 8 in tiles' || FooterAt(mem', tiles', k) || StalePlace(k) {
      if k + 4 <= lo || (hi != end && hi <= k) {
        assert IsMagic(mem, k);
        KeptMagic(start, end, mem, tiles, lo, hi, k);
        if !StalePlace(k) && k - 8 !in tiles {
          var a := mem[k + 4].header;
          assert a in pieces ==> TileFits(pieces, lo, if hi == end then end' else hi, a);
          assert tiles'[a] == tiles[a] && mem'[k + 4] == mem[k + 4];
        }
      }
    }
  }

  lemma RetileTiling(start: int, end: int, tiles: Tiles, lo: int, hi: int, end': int, pieces: Tiles)
    requires Tiling(tiles, start, end) && RangeOf(tiles, start, end, lo, hi)
    requires hi != end ==> end' == end
    requires Tiling(pieces, lo, if hi == end then end' else hi)
    ensures Tiling(Replaced(tiles, lo, hi, pieces), start, end')
  {
    var tiles' := Replaced(tiles, lo, hi, pieces);
    forall a | a in tiles' ensures TileFits(tiles', start, end', a) {
      RetileFits(start, end, tiles, lo, hi, end', pieces, a);
    }
    forall a, b | a in tiles' && b in tiles' && a < b ensures a + tiles'[a].size <= b {
      RetileApart(start, end, tiles, lo, hi, end', pieces, a, b);
    }
    assert start in tiles' by {
      assert start != lo ==> start < lo;
    }
  }

  lemma RetileFits(start: int, end: int, tiles: Tiles, lo: int, hi: int, end': int, pieces: Tiles, a: int)
    requires Tiling(tiles, start, end) && RangeOf(tiles, start, end, lo, hi)
    requires hi != end ==> end' == end
    requires Tiling(pieces, lo, if hi == end then end' else hi)
    requires a in Replaced(tiles, lo, hi, pieces)
    ensures TileFits(Replaced(tiles, lo, hi, pieces), start, end', a)
  {
    var hi' := if hi == end then end' else hi;
    assert TileFits(pieces, lo, hi', lo);
    assert a in pieces ==> TileFits(pieces, lo, hi', a);
    assert hi in tiles ==> TileFits(tiles, start, end, hi);
    assert a in tiles ==> TileFits(tiles, start, end, a);
    if a !in pieces && a < lo {
      assert a + tiles[a].size <= lo < hi' <= end';
    }
  }

  lemma RetileApart(start: int, end: int, tiles: Tiles, lo: int, hi: int, end': int, pieces: Tiles, a: int, b: int)
    requires Tiling(tiles, start, end) && RangeOf(tiles, start, end, lo, hi)
    requires Tiling(pieces, lo, if hi == end then end' else hi)
    requires a in Replaced(tiles, lo, hi, pieces) && b in Replaced(tiles, lo, hi, pieces) && a < b
    ensures a + Replaced(tiles, lo, hi, pieces)[a].size <= b
  {
    var hi' := if hi == end then end' else hi;
    assert a in pieces ==> TileFits(pieces, lo, hi', a);
    assert b in pieces ==> TileFits(pieces, lo, hi', b);
    assert a in tiles ==> TileFits(tiles, start, end, a);
    assert b in tiles ==> TileFits(tiles, start, end, b);
  }

  /** Outside the replaced range a magic number keeps the reason it had. */
  lemma KeptMagic(start: int, end: int, mem: Memory, tiles: Tiles, lo: int, hi: int, k: int)
    requires Core(start, end, mem, tiles) && RangeOf(tiles, start, end, lo, hi)
    requires IsMagic(mem, k) && (k + 4 <= lo || (hi != end && hi <= k))
    ensures k - 8 in tiles ==> k - 8 < lo || hi <= k - 8
    ensures k - 8 !in tiles && !StalePlace(k) ==>
              FooterAt(mem, tiles, k) && (k + 8 <= lo || hi <= k) &&
              (mem[k + 4].header < lo || (hi != end && hi <= mem[k + 4].header))
  {
    if k - 8 in tiles {
      assert TileFits(tiles, start, end, k - 8);
    } else if FooterAt(mem, tiles, k) {
      assert TileFits(tiles, start, end, mem[k + 4].header);
    }
  }
}
