/** Each rewrite of the heap's tags takes one tiling of the heap to another. */
module HeapSteps {
  import opened HeapTags

  /** A magic number at k, if there is one, belongs to one of the pieces or is a harmless leftover. */
  ghost predicate Settled(mem: Memory, pieces: Tiles, k: int) {
    IsMagic(mem, k) ==> k - 8 in pieces || FooterAt(mem, pieces, k) || StalePlace(k)
  }

  ghost predicate OldTagsSettled(mem': Memory, tiles: Tiles, lo: int, hi: int, pieces: Tiles) {
    forall t :: t in tiles && lo <= t < hi ==>
      Settled(mem', pieces, t + 8) && Settled(mem', pieces, t + tiles[t].size - 8)
  }

  ghost predicate KeysBelow(mem: Memory, start: int, limit: int) {
    forall k :: k in mem ==> start <= k && k + 4 <= limit
  }

  lemma Rewrite(start: int, end: int, mem: Memory, tiles: Tiles,
                lo: int, hi: int, end': int, mem': Memory, pieces: Tiles, added: set<int>)
    requires Core(start, end, mem, tiles) && RangeOf(tiles, start, end, lo, hi)
    requires end' % PAGE == 0 && (hi != end ==> end' == end)
    requires Tiling(pieces, lo, if hi == end then end' else hi)
    requires AllTagged(mem', pieces) && Spaced(mem') && KeysBelow(mem', start, end' + PAGE)
    requires Untouched(mem, mem', lo, hi, end) && MagicsFrom(mem, mem', added)
    requires forall k :: k in added ==> Settled(mem', pieces, k)
    requires OldTagsSettled(mem', tiles, lo, hi, pieces)
    ensures Core(start, end', mem', Replaced(tiles, lo, hi, pieces))
  {
    forall k | IsMagic(mem', k) && lo < k + 4 && (hi == end || k < hi)
      ensures k - 8 in pieces || FooterAt(mem', pieces, k) || StalePlace(k)
    {
      if k in added {
        assert Settled(mem', pieces, k);
      } else {
        assert IsMagic(mem, k);
        InnerMagic(start, end, mem, tiles, lo, hi, k);
      }
    }
    Retile(start, end, mem, tiles, lo, hi, end', mem', pieces);
  }

  /** Inside the range being replaced, a magic number is a tag of one of the areas in it. */
  lemma InnerMagic(start: int, end: int, mem: Memory, tiles: Tiles, lo: int, hi: int, k: int)
    requires Core(start, end, mem, tiles) && RangeOf(tiles, start, end, lo, hi)
    requires IsMagic(mem, k) && lo < k + 4 && (hi == end || k < hi)
    ensures StalePlace(k) || exists t :: t in tiles && lo <= t < hi && (k == t + 8 || k == t + tiles[t].size - 8)
  {
    if k - 8 in tiles {
      var t := k - 8;
      assert TileFits(tiles, start, end, t);
      assert lo <= t < hi && k == t + 8;
    } else if FooterAt(mem, tiles, k) {
      var t := mem[k + 4].header;
      assert TileFits(tiles, start, end, t);
      assert hi in tiles ==> TileFits(tiles, start, end, hi);
      assert lo <= t < hi && k == t + tiles[t].size - 8;
    }
  }

  lemma FooterOf(mem: Memory, tiles: Tiles, a: int)
    requires a in tiles && Tagged(mem, a, tiles[a])
    ensures FooterAt(mem, tiles, a + tiles[a].size - 8)
  {
  }

  lemma CoreFacts(start: int, end: int, mem: Memory, tiles: Tiles, a: int)
    requires Core(start, end, mem, tiles) && a in tiles
    ensures TileFits(tiles, start, end, a) && Tagged(mem, a, tiles[a])
    ensures Spaced(mem) && KeysBelow(mem, start, end + PAGE)
    ensures start % PAGE == 0 && end % PAGE == 0
  {
    assert TileFits(tiles, start, end, a) && Tagged(mem, a, tiles[a]);
  }

  lemma TilingOne(lo: int, t: Tile)
    requires OVERHEAD < t.size
    ensures Tiling(map[lo := t], lo, lo + t.size)
  {
  }

  lemma TilingTwo(lo: int, t: Tile, u: Tile)
    requires OVERHEAD < t.size && OVERHEAD < u.size
    ensures Tiling(map[lo := t, lo + t.size := u], lo, lo + t.size + u.size)
  {
  }

  lemma TilingThree(lo: int, t: Tile, u: Tile, v: Tile)
    requires OVERHEAD < t.size && OVERHEAD < u.size && OVERHEAD < v.size
    ensures Tiling(map[lo := t, lo + t.size := u, lo + t.size + u.size := v], lo, lo + t.size + u.size + v.size)
  {
  }

  /** One area is replaced by pieces that fill the same range. */
  lemma RewriteOne(start: int, end: int, mem: Memory, tiles: Tiles, a: int, mem': Memory, pieces: Tiles, added: set<int>)
    requires Core(start, end, mem, tiles) && a in tiles
    requires Tiling(pieces, a, a + tiles[a].size)
    requires AllTagged(mem', pieces) && Spaced(mem')
    requires Stored(mem, mem', a, a + tiles[a].size, added)
    requires forall k :: k in added ==> Settled(mem', pieces, k)
    requires Settled(mem', pieces, a + 8) && Settled(mem', pieces, a + tiles[a].size - 8)
    ensures Core(start, end, mem', tiles + pieces)
  {
    hide Core;
    var hi := a + tiles[a].size;
    CoreFacts(start, end, mem, tiles, a);
    OneArea(start, end, mem, tiles, a);
    assert KeysBelow(mem', start, end + PAGE);
    Rewrite(start, end, mem, tiles, a, hi, end, mem', pieces, added);
    assert Replaced(tiles, a, hi, pieces) == tiles + pieces;
  }

  lemma OneArea(start: int, end: int, mem: Memory, tiles: Tiles, a: int)
    requires Core(start, end, mem, tiles) && a in tiles
    ensures RangeOf(tiles, start, end, a, a + tiles[a].size) && a + tiles[a].size <= end
    ensures forall t :: t in tiles && a <= t < a + tiles[a].size ==> t == a
  {
    assert TileFits(tiles, start, end, a);
  }

  lemma TwoAreas(start: int, end: int, mem: Memory, tiles: Tiles, a: int, b: int)
    requires Core(start, end, mem, tiles) && a in tiles && b in tiles && a + tiles[a].size == b
    ensures RangeOf(tiles, start, end, a, b + tiles[b].size) && b + tiles[b].size <= end
    ensures forall t :: t in tiles && a <= t < b + tiles[b].size ==> t == a || t == b
  {
    assert TileFits(tiles, start, end, a) && TileFits(tiles, start, end, b);
  }

  /** Two neighbouring areas are replaced by pieces that fill their joint range. */
  lemma RewriteTwo(start: int, end: int, mem: Memory, tiles: Tiles, a: int, b: int, mem': Memory, pieces: Tiles, added: set<int>)
    requires Core(start, end, mem, tiles) && a in tiles && b in tiles && a + tiles[a].size == b
    requires Tiling(pieces, a, b + tiles[b].size)
    requires AllTagged(mem', pieces) && Spaced(mem')
    requires Stored(mem, mem', a, b + tiles[b].size, added)
    requires forall k :: k in added ==> Settled(mem', pieces, k)
    requires Settled(mem', pieces, a + 8) && Settled(mem', pieces, b - 8)
    requires Settled(mem', pieces, b + 8) && Settled(mem', pieces, b + tiles[b].size - 8)
    ensures Core(start, end, mem', (tiles - {b}) + pieces)
  {
    hide Core;
    var hi := b + tiles[b].size;
    CoreFacts(start, end, mem, tiles, a);
    CoreFacts(start, end, mem, tiles, b);
    TwoAreas(start, end, mem, tiles, a, b);
    Rewrite(start, end, mem, tiles, a, hi, end, mem', pieces, added);
    assert Replaced(tiles, a, hi, pieces) == (tiles - {b}) + pieces;
  }

  /** heap_free marks an area free in its header. */
  lemma Relabel(start: int, end: int, mem: Memory, tiles: Tiles, a: int, free: bool)
    requires Core(start, end, mem, tiles) && a in tiles
    ensures Core(start, end, Poke(mem, a + 4, Kind(free)), tiles[a := tiles[a].(free := free)])
  {
    hide Core, Tiling;
    var t := tiles[a].(free := free);
    var mem' := Poke(mem, a + 4, Kind(free));
    var pieces := map[a := t];
    CoreFacts(start, end, mem, tiles, a);
    PokeSpaced(mem, a + 4, Kind(free));
    PokeStored(mem, a + 4, Kind(free), a, a + t.size);
    assert Tagged(mem', a, t);
    FooterOf(mem', pieces, a);
    TilingOne(a, t);
    RewriteOne(start, end, mem, tiles, a, mem', pieces, {});
    assert tiles + pieces == tiles[a := t];
  }

  /** Two intact areas, side by side. */
  ghost predicate SideBySide(mem: Memory, a: int, b: int, t: Tile, u: Tile) {
    && Tagged(mem, a, t) && Tagged(mem, b, u) && b == a + t.size
    && OVERHEAD < t.size && OVERHEAD < u.size
  }

  /** One free area of the given size takes the place of the areas at a and b, whose inner tags are gone; all else is as before. */
  ghost predicate Joined(mem: Memory, mem': Memory, a: int, b: int, size: int) {
    && Stored(mem, mem', a, a + size, {}) && Tagged(mem', a, Tile(size, true))
    && !IsMagic(mem', b + 8) && !IsMagic(mem', b - 8)
  }

  lemma Neighbours(start: int, end: int, mem: Memory, tiles: Tiles, a: int, b: int)
    requires Core(start, end, mem, tiles) && a in tiles && b in tiles && a + tiles[a].size == b
    ensures SideBySide(mem, a, b, tiles[a], tiles[b]) && Spaced(mem)
  {
    hide Core;
    CoreFacts(start, end, mem, tiles, a);
    CoreFacts(start, end, mem, tiles, b);
  }

  /** heap_free joins a free area with the one to its right. */
  lemma Merge(start: int, end: int, mem: Memory, tiles: Tiles, a: int, b: int, mem': Memory)
    requires Core(start, end, mem, tiles) && a in tiles && b in tiles && a + tiles[a].size == b
    requires Spaced(mem') && Joined(mem, mem', a, b, tiles[a].size + tiles[b].size)
    ensures Core(start, end, mem', (tiles - {b})[a := Tile(tiles[a].size + tiles[b].size, true)])
  {
    hide Core, Tiling;
    var t := Tile(tiles[a].size + tiles[b].size, true);
    var pieces := map[a := t];
    CoreFacts(start, end, mem, tiles, a);
    CoreFacts(start, end, mem, tiles, b);
    FooterOf(mem', pieces, a);
    TilingOne(a, t);
    RewriteTwo(start, end, mem, tiles, a, b, mem', pieces, {});
    assert (tiles - {b}) + pieces == (tiles - {b})[a := t];
  }

  function MergedLeft(mem: Memory, a: int, b: int, size: int, end: int): Memory {
    Poke(Poke(Poke(Poke(mem, a, Size(size)), end - 4, Back(a)), b + 8, Cleared), b - 8, Cleared)
  }

  function MergedRight(mem: Memory, a: int, b: int, size: int, end: int): Memory {
    Poke(Poke(Poke(Poke(Poke(mem, a, Size(size)), b - 8, Cleared), b + 8, Cleared), end - 4, Back(a)), a + 4, Kind(true))
  }

  lemma MergedSpaced(mem: Memory, a: int, b: int, size: int, end: int)
    requires Spaced(mem)
    ensures Spaced(MergedLeft(mem, a, b, size, end)) && Spaced(MergedRight(mem, a, b, size, end))
  {
    hide Poke, Spaced;
    var m1 := Poke(mem, a, Size(size));
    PokeSpaced(mem, a, Size(size));
    PokeSpaced(m1, end - 4, Back(a));
    PokeSpaced(Poke(m1, end - 4, Back(a)), b + 8, Cleared);
    PokeSpaced(Poke(Poke(m1, end - 4, Back(a)), b + 8, Cleared), b - 8, Cleared);
    var m2 := Poke(m1, b - 8, Cleared);
    PokeSpaced(m1, b - 8, Cleared);
    PokeSpaced(m2, b + 8, Cleared);
    PokeSpaced(Poke(m2, b + 8, Cleared), end - 4, Back(a));
    PokeSpaced(Poke(Poke(m2, b + 8, Cleared), end - 4, Back(a)), a + 4, Kind(true));
  }

  lemma MergedLeftFacts(mem: Memory, a: int, b: int, t: Tile, u: Tile, size: int, end: int)
    requires SideBySide(mem, a, b, t, u) && t.free && size == t.size + u.size && end == a + size
    ensures Joined(mem, MergedLeft(mem, a, b, size, end), a, b, size)
  {
  }

  lemma MergedRightFacts(mem: Memory, a: int, b: int, t: Tile, u: Tile, size: int, end: int)
    requires SideBySide(mem, a, b, t, u) && size == t.size + u.size && end == a + size
    ensures Joined(mem, MergedRight(mem, a, b, size, end), a, b, size)
  {
    hide MergedRight, SideBySide, Stored, Tagged, IsMagic;
    MergedRightStored(mem, a, b, t, u, size, end);
    MergedRightTagged(mem, a, b, t, u, size, end);
  }

  lemma MergedRightStored(mem: Memory, a: int, b: int, t: Tile, u: Tile, size: int, end: int)
    requires SideBySide(mem, a, b, t, u) && size == t.size + u.size && end == a + size
    ensures Stored(mem, MergedRight(mem, a, b, size, end), a, end, {})
  {
  }

  lemma MergedRightTagged(mem: Memory, a: int, b: int, t: Tile, u: Tile, size: int, end: int)
    requires SideBySide(mem, a, b, t, u) && size == t.size + u.size && end == a + size
    ensures var r := MergedRight(mem, a, b, size, end);
      Tagged(r, a, Tile(size, true)) && !IsMagic(r, b + 8) && !IsMagic(r, b - 8)
  {
  }

  /** Whatever the two areas are, the stores of the left merge join them, the left one being free. */
  lemma JoinsLeft(mem: Memory, a: int, b: int, size: int)
    ensures forall t, u :: SideBySide(mem, a, b, t, u) && t.free && size == t.size + u.size ==>
              Joined(mem, MergedLeft(mem, a, b, size, a + size), a, b, size)
  {
    hide SideBySide, Joined, MergedLeft;
    forall t, u | SideBySide(mem, a, b, t, u) && t.free && size == t.size + u.size
      ensures Joined(mem, MergedLeft(mem, a, b, size, a + size), a, b, size)
    {
      MergedLeftFacts(mem, a, b, t, u, size, a + size);
    }
  }

  /** The five stores of a merge with the right neighbour, as the source computes their places. */
  lemma RightStores(mem: Memory, a: int, b: int, size: int, footer: int)
    requires a + size == footer + FOOTER
    ensures Poke(Poke(Poke(Poke(Poke(mem, a, Size(size)), b - FOOTER, Cleared), b + 8, Cleared), footer + 4, Back(a)), a + 4, Kind(true))
            == MergedRight(mem, a, b, size, a + size)
  {
    hide Poke;
    var end := a + size;
    assert footer + 4 == end - 4;
  }

  lemma JoinsRight(mem: Memory, a: int, b: int, size: int)
    ensures forall t, u :: SideBySide(mem, a, b, t, u) && size == t.size + u.size ==>
              Joined(mem, MergedRight(mem, a, b, size, a + size), a, b, size)
  {
    hide SideBySide, Joined, MergedRight;
    forall t, u | SideBySide(mem, a, b, t, u) && size == t.size + u.size
      ensures Joined(mem, MergedRight(mem, a, b, size, a + size), a, b, size)
    {
      MergedRightFacts(mem, a, b, t, u, size, a + size);
    }
  }

  //  Changes at the end of the heap

  /** The range from one area to the end of the heap is replaced by one area up to a new end. */
  lemma RewriteTail(start: int, end: int, mem: Memory, tiles: Tiles, a: int, end': int, mem': Memory, t: Tile, f: int)
    requires Core(start, end, mem, tiles)
    requires a == end || (a in tiles && a + tiles[a].size == end)
    requires end' % PAGE == 0 && OVERHEAD < t.size && a + t.size == end' && f == end' - 8
    requires Tagged(mem', a, t) && Spaced(mem') && KeysBelow(mem', start, end' + PAGE)
    requires Untouched(mem, mem', a, end, end) && MagicsFrom(mem, mem', {a + 8, f})
    requires end != end' ==> !IsMagic(mem', end - 8) || a == end
    ensures Core(start, end', mem', tiles[a := t])
  {
    hide Core, Tiling;
    var pieces := map[a := t];
    EndFacts(start, end, mem, tiles);
    if a in tiles {
      CoreFacts(start, end, mem, tiles, a);
      OneAreaRange(start, end, mem, tiles, a);
    }
    TilingOne(a, t);
    FooterOf(mem', pieces, a);
    assert OldTagsSettled(mem', tiles, a, end, pieces);
    Rewrite(start, end, mem, tiles, a, end, end', mem', pieces, {a + 8, f});
    assert Replaced(tiles, a, end, pieces) == tiles[a := t];
  }

  lemma EndFacts(start: int, end: int, mem: Memory, tiles: Tiles)
    requires Core(start, end, mem, tiles)
    ensures start < end && end !in tiles && forall t :: t in tiles ==> t < end
  {
    assert TileFits(tiles, start, end, start);
    forall t | t in tiles ensures t < end {
      assert TileFits(tiles, start, end, t);
    }
  }

  lemma OneAreaRange(start: int, end: int, mem: Memory, tiles: Tiles, a: int)
    requires Core(start, end, mem, tiles) && a in tiles
    ensures RangeOf(tiles, start, end, a, a + tiles[a].size)
    ensures forall t :: t in tiles && a <= t < a + tiles[a].size ==> t == a
  {
    assert TileFits(tiles, start, end, a);
  }

  /** Room added to the free area at the end. */
  function Grown(mem: Memory, a: int, size: int, more: int): Memory {
    WriteFooter(Poke(Poke(mem, a + size - 8, Cleared), a, Size(size + more)), a + size + more - 8, a)
  }

  lemma GrowLast(start: int, end: int, mem: Memory, tiles: Tiles, a: int, more: int)
    requires Core(start, end, mem, tiles) && a in tiles && tiles[a].free && a + tiles[a].size == end
    requires 0 < more && more % PAGE == 0
    ensures Core(start, end + more, Grown(mem, a, tiles[a].size, more), tiles[a := Tile(tiles[a].size + more, true)])
  {
    hide Core, Tiling, Grown, Spaced;
    var size := tiles[a].size;
    CoreFacts(start, end, mem, tiles, a);
    PageSum(end, more);
    GrownSpaced(mem, a, size, more);
    GrownTagged(mem, a, size, more);
    GrownStored(mem, a, size, more);
    RewriteTail(start, end, mem, tiles, a, end + more, Grown(mem, a, size, more), Tile(size + more, true), end + more - 8);
  }

  lemma PageSum(x: int, y: int)
    requires x % PAGE == 0 && y % PAGE == 0
    ensures (x + y) % PAGE == 0 && (x - y) % PAGE == 0
  {
  }

  lemma GrownSpaced(mem: Memory, a: int, size: int, more: int)
    requires Spaced(mem)
    ensures Spaced(Grown(mem, a, size, more))
  {
    hide Poke, WriteFooter, Spaced;
    var m1 := Poke(mem, a + size - 8, Cleared);
    PokeSpaced(mem, a + size - 8, Cleared);
    PokeSpaced(m1, a, Size(size + more));
    WriteFooterFacts(Poke(m1, a, Size(size + more)), a + size + more - 8, a);
  }

  lemma GrownTagged(mem: Memory, a: int, size: int, more: int)
    requires Tagged(mem, a, Tile(size, true)) && OVERHEAD < size && 8 <= more
    ensures Tagged(Grown(mem, a, size, more), a, Tile(size + more, true))
    ensures !IsMagic(Grown(mem, a, size, more), a + size - 8)
  {
  }

  lemma GrownStored(mem: Memory, a: int, size: int, more: int)
    requires OVERHEAD < size && 8 <= more
    ensures Stored(mem, Grown(mem, a, size, more), a, a + size + more, {a + size + more - 8})
  {
  }

  /** A new free area in the room added after a used one. */
  lemma AddLast(start: int, end: int, mem: Memory, tiles: Tiles, more: int)
    requires Core(start, end, mem, tiles) && 0 < more && more % PAGE == 0
    ensures Core(start, end + more, WriteArea(mem, end, more, true), tiles[end := Tile(more, true)])
  {
    hide Core, Tiling, WriteArea, Spaced;
    CoreFacts'(start, end, mem, tiles);
    EndFacts(start, end, mem, tiles);
    WriteAreaTagged(mem, end, more, true);
    WriteAreaFacts(mem, end, more, true);
    PageSum(end, more);
    RewriteTail(start, end, mem, tiles, end, end + more, WriteArea(mem, end, more, true), Tile(more, true), end + more - 8);
  }

  lemma CoreFacts'(start: int, end: int, mem: Memory, tiles: Tiles)
    requires Core(start, end, mem, tiles)
    ensures Spaced(mem) && KeysBelow(mem, start, end + PAGE)
    ensures start % PAGE == 0 && end % PAGE == 0
  {
  }

  /** Pages above the limit are unmapped; what they held is gone. */
  function Unmapped(mem: Memory, limit: int): Memory {
    map k | k in mem && k + 4 <= limit :: mem[k]
  }

  function Shrunk(mem: Memory, a: int, size: int, end': int): Memory {
    WriteFooter(Poke(Unmapped(mem, end' + PAGE), a, Size(size)), end' - 8, a)
  }

  lemma ShrinkLast(start: int, end: int, mem: Memory, tiles: Tiles, a: int, less: int)
    requires Core(start, end, mem, tiles) && a in tiles && tiles[a].free && a + tiles[a].size == end
    requires 2 * PAGE <= less && less % PAGE == 0 && OVERHEAD < tiles[a].size - less
    ensures Core(start, end - less, Shrunk(mem, a, tiles[a].size - less, end - less), tiles[a := Tile(tiles[a].size - less, true)])
  {
    hide Core, Tiling, Shrunk, Spaced;
    var size := tiles[a].size - less;
    CoreFacts(start, end, mem, tiles, a);
    PageSum(end, less);
    ShrunkSpaced(mem, a, size, end - less);
    ShrunkFacts(mem, a, size, less, start);
    RewriteTail(start, end, mem, tiles, a, end - less, Shrunk(mem, a, size, end - less), Tile(size, true), end - less - 8);
  }

  lemma ShrunkSpaced(mem: Memory, a: int, size: int, end': int)
    requires Spaced(mem)
    ensures Spaced(Shrunk(mem, a, size, end'))
  {
    var m1 := Unmapped(mem, end' + PAGE);
    assert Spaced(m1);
    hide Poke, WriteFooter, Spaced, Unmapped;
    PokeSpaced(m1, a, Size(size));
    WriteFooterFacts(Poke(m1, a, Size(size)), end' - 8, a);
  }

  lemma ShrunkFacts(mem: Memory, a: int, size: int, less: int, start: int)
    requires Tagged(mem, a, Tile(size + less, true)) && OVERHEAD < size && 2 * PAGE <= less
    requires start <= a && KeysBelow(mem, start, a + size + less + PAGE)
    ensures var end' := a + size; var r := Shrunk(mem, a, size, end');
      && Tagged(r, a, Tile(size, true)) && !IsMagic(r, end' + less - 8)
      && Untouched(mem, r, a, end' + less, end' + less)
      && MagicsFrom(mem, r, {end' - 8}) && KeysBelow(r, start, end' + PAGE)
  {
  }

  //  Placing an allocation in a hole

  const MIN_SPLIT: int := 36

  /** The tags written once the hole [area, area + total) is chosen for n bytes: a remainder worth keeping becomes free. */
  function Placed(mem: Memory, area: int, total: int, n: int): Memory {
    if total - n >= MIN_SPLIT
    then WriteArea(WriteArea(mem, area + n, total - n, true), area, n, false)
    else WriteArea(mem, area, total, false)
  }

  ghost function PlacedTiles(area: int, total: int, n: int): Tiles {
    if total - n >= MIN_SPLIT
    then map[area := Tile(n, false), area + n := Tile(total - n, true)]
    else map[area := Tile(total, false)]
  }

  ghost function PlacedMagics(area: int, total: int, n: int): set<int> {
    if total - n >= MIN_SPLIT
    then {area + 8, area + n - 8, area + n + 8, area + total - 8}
    else {area + 8, area + total - 8}
  }

  lemma PlacedFacts(mem: Memory, area: int, total: int, n: int)
    requires Spaced(mem) && OVERHEAD < n <= total
    ensures var r := Placed(mem, area, total, n);
      && Spaced(r) && Stored(mem, r, area, area + total, PlacedMagics(area, total, n))
      && AllTagged(r, PlacedTiles(area, total, n))
      && Tiling(PlacedTiles(area, total, n), area, area + total)
  {
    hide WriteArea, Spaced, Stored, Tagged, Tiling;
    if total - n >= MIN_SPLIT {
      var m := WriteArea(mem, area + n, total - n, true);
      var r := WriteArea(m, area, n, false);
      WriteAreaFacts(mem, area + n, total - n, true);
      WriteAreaTagged(mem, area + n, total - n, true);
      WriteAreaFacts(m, area, n, false);
      WriteAreaTagged(m, area, n, false);
      StoredKeeps(m, r, area, area + n, {area + 8, area + n - 8}, area + n, Tile(total - n, true));
      StoredWiden(mem, m, area + n, area + total, {area + n + 8, area + total - 8}, area, area + total);
      StoredWiden(m, r, area, area + n, {area + 8, area + n - 8}, area, area + total);
      StoredTrans(mem, m, r, area, area + total, {area + n + 8, area + total - 8}, {area + 8, area + n - 8});
      assert {area + n + 8, area + total - 8} + {area + 8, area + n - 8} == PlacedMagics(area, total, n);
      TilingTwo(area, Tile(n, false), Tile(total - n, true));
    } else {
      WriteAreaFacts(mem, area, total, false);
      WriteAreaTagged(mem, area, total, false);
      TilingOne(area, Tile(total, false));
    }
  }

  lemma StoredKeeps(mem: Memory, mem': Memory, lo: int, hi: int, added: set<int>, a: int, t: Tile)
    requires Stored(mem, mem', lo, hi, added) && Tagged(mem, a, t) && OVERHEAD < t.size
    requires a + t.size <= lo || hi <= a
    ensures Tagged(mem', a, t)
  {
    TaggedOutside(mem, mem', lo, hi, a, t);
  }

  /** All tag magics of the pieces are accounted for. */
  lemma PiecesSettled(mem: Memory, pieces: Tiles, k: int, p: int)
    requires AllTagged(mem, pieces) && p in pieces && (k == p + 8 || k == p + pieces[p].size - 8)
    ensures Settled(mem, pieces, k)
  {
    assert Tagged(mem, p, pieces[p]);
    FooterOf(mem, pieces, p);
  }

  lemma PlacedSettled(mem: Memory, pieces: Tiles, area: int, total: int, n: int)
    requires AllTagged(mem, pieces) && OVERHEAD < n <= total
    requires forall p :: p in PlacedTiles(area, total, n) ==> p in pieces && pieces[p] == PlacedTiles(area, total, n)[p]
    ensures forall k :: k in PlacedMagics(area, total, n) ==> Settled(mem, pieces, k)
    ensures Settled(mem, pieces, area + total - 8)
  {
    hide AllTagged, Settled;
    assert area in PlacedTiles(area, total, n) && area in pieces;
    PiecesSettled(mem, pieces, area + 8, area);
    PiecesSettled(mem, pieces, area + pieces[area].size - 8, area);
    if total - n >= MIN_SPLIT {
      var p := area + n;
      assert p in PlacedTiles(area, total, n) && p in pieces;
      PiecesSettled(mem, pieces, p + 8, p);
      PiecesSettled(mem, pieces, p + pieces[p].size - 8, p);
    }
  }

  /** No alignment loss: the hole starts with the new area. */
  lemma AllocPlain(start: int, end: int, mem: Memory, tiles: Tiles, a: int, n: int)
    requires Core(start, end, mem, tiles) && a in tiles && OVERHEAD < n <= tiles[a].size
    ensures Core(start, end, Placed(mem, a, tiles[a].size, n), tiles + PlacedTiles(a, tiles[a].size, n))
  {
    hide Core, Tiling, Placed, Spaced, Stored, Settled;
    var h := tiles[a].size;
    var mem' := Placed(mem, a, h, n);
    var pieces := PlacedTiles(a, h, n);
    CoreFacts(start, end, mem, tiles, a);
    PlacedFacts(mem, a, h, n);
    PlacedSettled(mem', pieces, a, h, n);
    RewriteOne(start, end, mem, tiles, a, mem', pieces, PlacedMagics(a, h, n));
  }

  /** The bytes skipped for alignment are kept as a free area of their own. */
  function CarvedWaste(mem: Memory, a: int, total: int, o: int): Memory {
    Poke(WriteArea(mem, a, o, true), a + o, Size(total - o))
  }

  lemma CarvedWasteFacts(mem: Memory, a: int, total: int, o: int)
    requires Spaced(mem) && OVERHEAD < o && OVERHEAD < total - o
    ensures var r := CarvedWaste(mem, a, total, o);
      Spaced(r) && Stored(mem, r, a, a + total, {a + 8, a + o - 8}) && Tagged(r, a, Tile(o, true))
  {
    hide WriteArea, Spaced, Stored, Tagged, Poke;
    var m := WriteArea(mem, a, o, true);
    var r := Poke(m, a + o, Size(total - o));
    WriteAreaFacts(mem, a, o, true);
    WriteAreaTagged(mem, a, o, true);
    PokeSpaced(m, a + o, Size(total - o));
    PokeStored(m, a + o, Size(total - o), a + o, a + total);
    StoredKeeps(m, r, a + o, a + total, {}, a, Tile(o, true));
    StoredWiden(mem, m, a, a + o, {a + 8, a + o - 8}, a, a + total);
    StoredWiden(m, r, a + o, a + total, {}, a, a + total);
    StoredTrans(mem, m, r, a, a + total, {a + 8, a + o - 8}, {});
    assert {a + 8, a + o - 8} + {} == {a + 8, a + o - 8};
  }

  lemma AllocCarved(start: int, end: int, mem: Memory, tiles: Tiles, a: int, o: int, n: int)
    requires Core(start, end, mem, tiles) && a in tiles && OVERHEAD < o && OVERHEAD < n <= tiles[a].size - o
    ensures var h := tiles[a].size;
      Core(start, end, Placed(CarvedWaste(mem, a, h, o), a + o, h - o, n),
           tiles + (map[a := Tile(o, true)] + PlacedTiles(a + o, h - o, n)))
  {
    hide Core, Tiling, Placed, CarvedWaste, Spaced, Stored, Settled;
    var h := tiles[a].size;
    var m := CarvedWaste(mem, a, h, o);
    var mem' := Placed(m, a + o, h - o, n);
    var pieces := map[a := Tile(o, true)] + PlacedTiles(a + o, h - o, n);
    CoreFacts(start, end, mem, tiles, a);
    CarvedWasteFacts(mem, a, h, o);
    PlacedFacts(m, a + o, h - o, n);
    var added := PlacedMagics(a + o, h - o, n);
    StoredKeeps(m, mem', a + o, a + h, added, a, Tile(o, true));
    StoredWiden(m, mem', a + o, a + h, added, a, a + h);
    StoredTrans(mem, m, mem', a, a + h, {a + 8, a + o - 8}, added);
    PrefixTiling(a, Tile(o, true), a + o, h - o, n);
    assert AllTagged(mem', pieces);
    PlacedSettled(mem', pieces, a + o, h - o, n);
    PiecesSettled(mem', pieces, a + 8, a);
    PiecesSettled(mem', pieces, a + o - 8, a);
    RewriteOne(start, end, mem, tiles, a, mem', pieces, {a + 8, a + o - 8} + added);
  }

  /** Bytes lost to page alignment when the payload of the area at a must start on a page. */
  function PageLoss(a: int): int { (PAGE - (a + HEADER) % PAGE) % PAGE }

  lemma PageLossFacts(a: int)
    ensures 0 <= PageLoss(a) < PAGE && (a + PageLoss(a) + HEADER) % PAGE == 0
    ensures PageLoss(a) == 0 <==> (a + HEADER) % PAGE == 0
    ensures 0 < PageLoss(a) <= OVERHEAD ==> StalePlace(a + 8)
    ensures a % PAGE == 0 ==> PageLoss(a) > OVERHEAD
  {
  }

  /** Too few bytes skipped for an area: the left neighbour takes them over. */
  function Shifted(mem: Memory, b: int, sb: int, a: int, total: int, o: int): Memory {
    Poke(WriteFooter(Poke(Poke(mem, a - 8, Cleared), b, Size(sb + o)), a + o - 8, b), a + o, Size(total - o))
  }

  lemma ShiftedSpaced(mem: Memory, b: int, sb: int, a: int, total: int, o: int)
    requires Spaced(mem)
    ensures Spaced(Shifted(mem, b, sb, a, total, o))
  {
    hide Poke, WriteFooter, Spaced;
    var m1 := Poke(mem, a - 8, Cleared);
    var m2 := Poke(m1, b, Size(sb + o));
    PokeSpaced(mem, a - 8, Cleared);
    PokeSpaced(m1, b, Size(sb + o));
    WriteFooterFacts(m2, a + o - 8, b);
    PokeSpaced(WriteFooter(m2, a + o - 8, b), a + o, Size(total - o));
  }

  lemma ShiftedFacts(mem: Memory, b: int, t: Tile, a: int, total: int, o: int)
    requires Tagged(mem, b, t) && OVERHEAD < t.size && a == b + t.size && 0 < o && OVERHEAD < total - o
    ensures var r := Shifted(mem, b, t.size, a, total, o);
      && Tagged(r, b, Tile(t.size + o, t.free)) && !IsMagic(r, a - 8)
      && Stored(mem, r, b, a + total, {a + o - 8})
  {
  }

  lemma AllocShifted(start: int, end: int, mem: Memory, tiles: Tiles, b: int, a: int, n: int)
    requires Core(start, end, mem, tiles) && b in tiles && a in tiles && b + tiles[b].size == a
    requires 0 < PageLoss(a) <= OVERHEAD && OVERHEAD < n <= tiles[a].size - PageLoss(a)
    ensures var o, t, h := PageLoss(a), tiles[b], tiles[a].size;
      Core(start, end, Placed(Shifted(mem, b, t.size, a, h, o), a + o, h - o, n),
           (tiles - {a}) + (map[b := Tile(t.size + o, t.free)] + PlacedTiles(a + o, h - o, n)))
  {
    hide Core, Tiling, Placed, Shifted, Spaced, Stored, Settled, PageLoss, StalePlace, Tagged;
    var o, t, h := PageLoss(a), tiles[b], tiles[a].size;
    var mem' := Placed(Shifted(mem, b, t.size, a, h, o), a + o, h - o, n);
    var pieces := map[b := Tile(t.size + o, t.free)] + PlacedTiles(a + o, h - o, n);
    CoreFacts(start, end, mem, tiles, a);
    CoreFacts(start, end, mem, tiles, b);
    ShiftedPieces(mem, b, t, a, h, o, n);
    PlacedSettled(mem', pieces, a + o, h - o, n);
    PiecesSettled(mem', pieces, b + 8, b);
    PiecesSettled(mem', pieces, a + o - 8, b);
    PageLossFacts(a);
    StaleSettled(mem', pieces, a + 8);
    RewriteTwo(start, end, mem, tiles, b, a, mem', pieces, {a + o - 8} + PlacedMagics(a + o, h - o, n));
  }

  lemma ShiftedPieces(mem: Memory, b: int, t: Tile, a: int, h: int, o: int, n: int)
    requires Spaced(mem) && Tagged(mem, b, t) && OVERHEAD < t.size && a == b + t.size && 0 < o && OVERHEAD < n <= h - o
    ensures var mem' := Placed(Shifted(mem, b, t.size, a, h, o), a + o, h - o, n);
      var pieces := map[b := Tile(t.size + o, t.free)] + PlacedTiles(a + o, h - o, n);
      && Spaced(mem') && AllTagged(mem', pieces) && Tiling(pieces, b, a + h) && Settled(mem', pieces, a - 8)
      && Stored(mem, mem', b, a + h, {a + o - 8} + PlacedMagics(a + o, h - o, n))
  {
    hide Tiling, Placed, Shifted, Spaced, Stored, Settled, Tagged;
    var m := Shifted(mem, b, t.size, a, h, o);
    var mem' := Placed(m, a + o, h - o, n);
    var u := Tile(t.size + o, t.free);
    var added := PlacedMagics(a + o, h - o, n);
    ShiftedSpaced(mem, b, t.size, a, h, o);
    ShiftedFacts(mem, b, t, a, h, o);
    PlacedFacts(m, a + o, h - o, n);
    StoredKeeps(m, mem', a + o, a + h, added, b, u);
    StoredWiden(m, mem', a + o, a + h, added, b, a + h);
    StoredTrans(mem, m, mem', b, a + h, {a + o - 8}, added);
    PrefixTiling(b, u, a + o, h - o, n);
    StoredNoMagic(m, mem', a + o, a + h, added, a - 8, map[b := u] + PlacedTiles(a + o, h - o, n));
  }

  lemma StoredNoMagic(mem: Memory, mem': Memory, lo: int, hi: int, added: set<int>, k: int, pieces: Tiles)
    requires Stored(mem, mem', lo, hi, added) && !IsMagic(mem, k) && k !in added
    ensures Settled(mem', pieces, k)
  {
  }

  lemma StaleSettled(mem: Memory, pieces: Tiles, k: int)
    requires StalePlace(k)
    ensures Settled(mem, pieces, k)
  {
  }

  lemma PrefixTiling(b: int, u: Tile, area: int, total: int, n: int)
    requires OVERHEAD < u.size && b + u.size == area && OVERHEAD < n <= total
    ensures Tiling(map[b := u] + PlacedTiles(area, total, n), b, area + total)
  {
    if total - n >= MIN_SPLIT {
      TilingThree(b, u, Tile(n, false), Tile(total - n, true));
      assert map[b := u] + PlacedTiles(area, total, n) ==
             map[b := u, area := Tile(n, false), area + n := Tile(total - n, true)];
    } else {
      TilingTwo(b, u, Tile(total, false));
      assert map[b := u] + PlacedTiles(area, total, n) == map[b := u, area := Tile(total, false)];
    }
  }
}
