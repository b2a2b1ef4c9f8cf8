/** The list of memory areas of a task (struct vm_area) and the pages it covers. */
module VmAreas {
  const PAGE: nat := 0x1000
  const USER_LOW: nat := 0x1000_0000
  const USER_HIGH: nat := 0xc000_0000

  datatype Area = Area(start: nat, end: nat, writable: bool)   // end is exclusive

  ghost predicate AreaOk(a: Area) {
    USER_LOW <= a.start < a.end <= USER_HIGH && a.start % PAGE == 0 && a.end % PAGE == 0
  }

  predicate InRange(start: nat, end: nat, v: nat) { start <= v * PAGE < end }

  ghost predicate Apart(a: Area, b: Area) { a.end <= b.start || b.end <= a.start }

  /** Areas are page-aligned, inside user space and pairwise disjoint. */
  ghost predicate AreasOk(areas: seq<Area>) {
    && (forall k :: 0 <= k < |areas| ==> AreaOk(areas[k]))
    && (forall j, k :: 0 <= j < k < |areas| ==> Apart(areas[j], areas[k]))
  }

  /** Page v lies in an area with the given access right. */
  ghost predicate CoveredAs(areas: seq<Area>, v: nat, w: bool) {
    exists k :: 0 <= k < |areas| && InRange(areas[k].start, areas[k].end, v) && areas[k].writable == w
  }

  ghost predicate Covered(areas: seq<Area>, v: nat) { CoveredAs(areas, v, true) || CoveredAs(areas, v, false) }

  /** One area with right w holds all of [start, end). */
  ghost predicate InOneArea(areas: seq<Area>, start: nat, end: nat, w: bool) {
    exists k :: 0 <= k < |areas| && areas[k].start <= start && end <= areas[k].end && areas[k].writable == w
  }

  lemma ApartPair(areas: seq<Area>, j: nat, k: nat)
    requires AreasOk(areas) && j < |areas| && k < |areas|
    ensures AreaOk(areas[j]) && AreaOk(areas[k]) && (j != k ==> Apart(areas[j], areas[k]))
  {
    assert k < j ==> Apart(areas[k], areas[j]);
  }

  /** A page lies in at most one area. */
  lemma CoveredOnce(areas: seq<Area>, v: nat, j: nat, k: nat)
    requires AreasOk(areas) && j < |areas| && k < |areas|
    ensures InRange(areas[j].start, areas[j].end, v) && InRange(areas[k].start, areas[k].end, v) ==> j == k
  {
    ApartPair(areas, j, k);
  }

  lemma Covers(areas: seq<Area>, k: nat, v: nat)
    requires k < |areas|
    ensures InRange(areas[k].start, areas[k].end, v) ==> CoveredAs(areas, v, areas[k].writable)
  {
  }

  /** The page that ends at an aligned address inside an area, or at its end. */
  lemma PageBefore(a: Area, x: nat)
    requires AreaOk(a) && x >= PAGE && x % PAGE == 0
    ensures a.start < x <= a.end ==> InRange(a.start, a.end, x / PAGE - 1)
  {
  }

  lemma PageAt(a: Area, x: nat)
    requires AreaOk(a) && x % PAGE == 0
    ensures a.start <= x < a.end ==> InRange(a.start, a.end, x / PAGE)
  {
  }

  lemma Overlap(a: Area, b: Area)
    requires AreaOk(a) && AreaOk(b)
    ensures var v := (if a.start < b.start then b.start else a.start) / PAGE;
      Apart(a, b) || (InRange(a.start, a.end, v) && InRange(b.start, b.end, v))
  {
    PageAt(a, b.start);
    PageAt(b, b.start);
    PageAt(a, a.start);
    PageAt(b, a.start);
  }

  /** The first area that contains an address, or the number of areas. */
  ghost function Containing(areas: seq<Area>, x: nat): (k: nat)
    ensures k <= |areas| && (k < |areas| ==> areas[k].start <= x < areas[k].end)
    ensures forall j :: 0 <= j < k ==> !(areas[j].start <= x < areas[j].end)
  {
    if areas == [] || areas[0].start <= x < areas[0].end then 0
    else
      var k := Containing(areas[1..], x);
      assert forall j :: 0 < j < k + 1 ==> areas[j] == areas[1..][j - 1];
      k + 1
  }

  lemma {:induction false} ContainingIs(areas: seq<Area>, x: nat, k: nat)
    requires k <= |areas| && (k < |areas| ==> areas[k].start <= x < areas[k].end)
    requires forall j :: 0 <= j < k ==> !(areas[j].start <= x < areas[j].end)
    ensures Containing(areas, x) == k
  {
    if k > 0 {
      ContainingIs(areas[1..], x, k - 1);
    }
  }

  /** Disjoint areas: the one that contains an address is the first. */
  lemma ContainingOnly(areas: seq<Area>, x: nat, k: nat)
    requires AreasOk(areas) && k < |areas| && areas[k].start <= x < areas[k].end
    ensures Containing(areas, x) == k
  {
    forall j | 0 <= j < k
      ensures !(areas[j].start <= x < areas[j].end)
    {
      ApartPair(areas, j, k);
    }
    ContainingIs(areas, x, k);
  }

  /** No page of [start, end) is covered yet. */
  ghost predicate Vacant(areas: seq<Area>, start: nat, end: nat) {
    forall v :: InRange(start, end, v) ==> !Covered(areas, v)
  }

  lemma VacantApart(areas: seq<Area>, start: nat, end: nat, w: bool, k: nat)
    requires AreasOk(areas) && AreaOk(Area(start, end, w)) && Vacant(areas, start, end) && k < |areas|
    ensures Apart(areas[k], Area(start, end, w))
  {
    var a := areas[k];
    var v := (if a.start < start then start else a.start) / PAGE;
    Covers(areas, k, v);
    assert InRange(start, end, v) ==> !Covered(areas, v);
    Overlap(a, Area(start, end, w));
  }

  /** How the area list changes when a range is stored in it. */
  ghost predicate Stretched(areas: seq<Area>, r: seq<Area>, start: nat, end: nat, w: bool) {
    && |areas| <= |r| && InOneArea(r, start, end, w)
    && (forall k :: 0 <= k < |areas| ==> areas[k].writable == r[k].writable && r[k].start <= areas[k].start && areas[k].end <= r[k].end)
    && ((forall k :: 0 <= k < |areas| ==> areas[k].start != end) ==>
          forall k :: 0 <= k < |areas| && areas[k].end == start && areas[k].writable == w ==> r[k].end == end)
    && ((forall k :: 0 <= k < |areas| ==> areas[k].end != start) ==>
          forall k :: 0 <= k < |areas| && areas[k].start == end && areas[k].writable == w ==> r[k].start == start)
  }

  /** Two areas never start, and never end, at the same address. */
  lemma OnlyNeighbour(areas: seq<Area>, i: nat)
    requires AreasOk(areas) && i < |areas|
    ensures forall k :: 0 <= k < |areas| && (areas[k].start == areas[i].start || areas[k].end == areas[i].end) ==> k == i
  {
    forall k | 0 <= k < |areas| && (areas[k].start == areas[i].start || areas[k].end == areas[i].end) ensures k == i {
      ApartPair(areas, k, i);
    }
  }

  ghost predicate Touches(a: Area, start: nat, end: nat, w: bool) {
    a.writable == w && (a.start == end || a.end == start)
  }

  /** The first area that touches a range with the same right, or the number of areas. */
  ghost function FirstTouch(areas: seq<Area>, start: nat, end: nat, w: bool): (k: nat)
    ensures k <= |areas| && (k < |areas| ==> Touches(areas[k], start, end, w))
    ensures forall j :: 0 <= j < k ==> !Touches(areas[j], start, end, w)
  {
    if areas == [] || Touches(areas[0], start, end, w) then 0
    else
      var k := FirstTouch(areas[1..], start, end, w);
      assert forall j :: 0 < j < k + 1 ==> areas[j] == areas[1..][j - 1];
      k + 1
  }

  /** The area list with a range stored in it. */
  ghost function Stored(areas: seq<Area>, start: nat, end: nat, w: bool): seq<Area> {
    var k := FirstTouch(areas, start, end, w);
    if k == |areas| then areas + [Area(start, end, w)]
    else if areas[k].start == end then areas[k := areas[k].(start := start)]
    else areas[k := areas[k].(end := end)]
  }

  lemma {:induction false} FirstTouchIs(areas: seq<Area>, start: nat, end: nat, w: bool, k: nat)
    requires k <= |areas| && (k < |areas| ==> Touches(areas[k], start, end, w))
    requires forall j :: 0 <= j < k ==> !Touches(areas[j], start, end, w)
    ensures FirstTouch(areas, start, end, w) == k
  {
    if k > 0 {
      FirstTouchIs(areas[1..], start, end, w, k - 1);
    }
  }

  lemma StoredIs(areas: seq<Area>, start: nat, end: nat, w: bool, k: nat)
    requires k <= |areas| && (k < |areas| ==> Touches(areas[k], start, end, w))
    requires forall j :: 0 <= j < k ==> !Touches(areas[j], start, end, w)
    ensures Stored(areas, start, end, w) ==
      if k == |areas| then areas + [Area(start, end, w)]
      else if areas[k].start == end then areas[k := areas[k].(start := start)]
      else areas[k := areas[k].(end := end)]
  {
    FirstTouchIs(areas, start, end, w, k);
  }

  /** _vmm_store_area: extend the first area that touches the new range with the same rights, or add one. */
  method StoreArea(areas: seq<Area>, start: nat, end: nat, w: bool) returns (r: seq<Area>)
    requires AreasOk(areas) && AreaOk(Area(start, end, w)) && Vacant(areas, start, end)
    ensures AreasOk(r)
    ensures forall v, w' :: CoveredAs(r, v, w') <==> CoveredAs(areas, v, w') || (InRange(start, end, v) && w' == w)
    ensures Stretched(areas, r, start, end, w) && r == Stored(areas, start, end, w)
  {
    hide Stored;
    var i := 0;
    while i < |areas|
      invariant 0 <= i <= |areas|
      invariant forall k :: 0 <= k < i ==> !Touches(areas[k], start, end, w)
    {
      var a := areas[i];
      VacantApart(areas, start, end, w, i);
      if a.start == end && a.writable == w {
        StoredIs(areas, start, end, w, i);
        r := areas[i := a.(start := start)];
        OnlyNeighbour(areas, i);
        assert AreaOk(a) && r[i].start <= start && end <= r[i].end && r[i].writable == w;
        Extended(areas, start, end, w, i, r);
        return;
      } else if a.end == start && a.writable == w {
        StoredIs(areas, start, end, w, i);
        r := areas[i := a.(end := end)];
        OnlyNeighbour(areas, i);
        assert AreaOk(a) && r[i].start <= start && end <= r[i].end && r[i].writable == w;
        Extended(areas, start, end, w, i, r);
        return;
      }
      // The overlap test of the source; it never fires.
      assert !((a.start <= start < a.end) || (a.start < end < a.end));
      i := i + 1;
    }
    StoredIs(areas, start, end, w, |areas|);
    r := areas + [Area(start, end, w)];
    assert r[|areas|] == Area(start, end, w);
    Appended(areas, start, end, w);
  }

  ghost predicate Extends(areas: seq<Area>, start: nat, end: nat, w: bool, i: nat, r: seq<Area>) {
    && i < |areas| && areas[i].writable == w
    && (|| (areas[i].start == end && r == areas[i := areas[i].(start := start)])
        || (areas[i].end == start && r == areas[i := areas[i].(end := end)]))
  }

  lemma Extended(areas: seq<Area>, start: nat, end: nat, w: bool, i: nat, r: seq<Area>)
    requires AreasOk(areas) && AreaOk(Area(start, end, w)) && Vacant(areas, start, end) && Extends(areas, start, end, w, i, r)
    ensures AreasOk(r)
    ensures forall v, w' :: CoveredAs(r, v, w') <==> CoveredAs(areas, v, w') || (InRange(start, end, v) && w' == w)
  {
    forall k | 0 <= k < |areas| ensures Apart(areas[k], Area(start, end, w)) && AreaOk(areas[k]) {
      VacantApart(areas, start, end, w, k);
    }
    forall j, k | 0 <= j < k < |r| ensures Apart(r[j], r[k]) {
      assert Apart(areas[j], areas[k]);
    }
    forall v, w' ensures CoveredAs(r, v, w') <==> CoveredAs(areas, v, w') || (InRange(start, end, v) && w' == w) {
      ExtendedCovers(areas, start, end, w, i, r, v, w');
    }
  }

  lemma ExtendedCovers(areas: seq<Area>, start: nat, end: nat, w: bool, i: nat, r: seq<Area>, v: nat, w': bool)
    requires AreaOk(Area(start, end, w)) && Extends(areas, start, end, w, i, r) && AreaOk(areas[i])
    ensures CoveredAs(r, v, w') <==> CoveredAs(areas, v, w') || (InRange(start, end, v) && w' == w)
  {
    if CoveredAs(r, v, w') {
      var k :| 0 <= k < |r| && InRange(r[k].start, r[k].end, v) && r[k].writable == w';
      assert InRange(areas[k].start, areas[k].end, v) || InRange(start, end, v);
    }
    if CoveredAs(areas, v, w') {
      var k :| 0 <= k < |areas| && InRange(areas[k].start, areas[k].end, v) && areas[k].writable == w';
      assert InRange(r[k].start, r[k].end, v) && r[k].writable == w';
    }
    if InRange(start, end, v) && w' == w {
      assert InRange(r[i].start, r[i].end, v) && r[i].writable == w;
    }
  }

  lemma Appended(areas: seq<Area>, start: nat, end: nat, w: bool)
    requires AreasOk(areas) && AreaOk(Area(start, end, w)) && Vacant(areas, start, end)
    ensures var r := areas + [Area(start, end, w)];
      && AreasOk(r)
      && forall v, w' :: CoveredAs(r, v, w') <==> CoveredAs(areas, v, w') || (InRange(start, end, v) && w' == w)
  {
    var r := areas + [Area(start, end, w)];
    forall j, k | 0 <= j < k < |r| ensures Apart(r[j], r[k]) {
      VacantApart(areas, start, end, w, j);
    }
    forall v, w' ensures CoveredAs(r, v, w') <==> CoveredAs(areas, v, w') || (InRange(start, end, v) && w' == w) {
      if CoveredAs(areas, v, w') {
        var k :| 0 <= k < |areas| && InRange(areas[k].start, areas[k].end, v) && areas[k].writable == w';
        assert r[k] == areas[k];
      }
      if InRange(start, end, v) && w' == w {
        assert r[|areas|] == Area(start, end, w);
      }
    }
  }

  /** An area cut short at newEnd covers what it did below it. */
  lemma Shortened(areas: seq<Area>, i: nat, newEnd: nat)
    requires AreasOk(areas) && i < |areas| && areas[i].start < newEnd < areas[i].end && newEnd % PAGE == 0
    ensures var r := areas[i := areas[i].(end := newEnd)];
      && AreasOk(r)
      && forall v, w :: CoveredAs(r, v, w) <==> CoveredAs(areas, v, w) && !InRange(newEnd, areas[i].end, v)
  {
    var r := areas[i := areas[i].(end := newEnd)];
    forall k | 0 <= k < |r| ensures AreaOk(r[k]) {
      assert AreaOk(areas[k]) && AreaOk(areas[i]);
    }
    forall j, k | 0 <= j < k < |r| ensures Apart(r[j], r[k]) {
      assert Apart(areas[j], areas[k]);
    }
    forall v, w ensures CoveredAs(r, v, w) <==> CoveredAs(areas, v, w) && !InRange(newEnd, areas[i].end, v) {
      if CoveredAs(r, v, w) {
        var k :| 0 <= k < |r| && InRange(r[k].start, r[k].end, v) && r[k].writable == w;
        assert InRange(areas[k].start, areas[k].end, v);
        CoveredOnce(areas, v, i, k);
      }
      if CoveredAs(areas, v, w) && !InRange(newEnd, areas[i].end, v) {
        var k :| 0 <= k < |areas| && InRange(areas[k].start, areas[k].end, v) && areas[k].writable == w;
        assert InRange(r[k].start, r[k].end, v);
      }
    }
  }
}
