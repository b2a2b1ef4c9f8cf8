/** The size-ordered pointer array that indexes the heap's areas (ordered_array.c). */
module OrderedArrays {

  type LessThan = (int, int) -> bool

  ghost predicate SortedBy(less: LessThan, s: seq<int>) {
    forall i, j :: 0 <= i < j < |s| ==> !less(s[j], s[i])
  }

  ghost predicate NoDuplicates(s: seq<int>) {
    forall i, j :: 0 <= i < j < |s| ==> s[i] != s[j]
  }

  /** The position an insertion chooses: past the longest prefix of smaller elements. */
  ghost function InsertPosition(less: LessThan, s: seq<int>, item: int): (k: nat)
    ensures k <= |s|
    ensures forall j :: 0 <= j < k ==> less(s[j], item)
    ensures k < |s| ==> !less(s[k], item)
  {
    if s != [] && less(s[0], item) then 1 + InsertPosition(less, s[1..], item) else 0
  }

  ghost function Inserted(less: LessThan, s: seq<int>, item: int): seq<int> {
    var k := InsertPosition(less, s, item);
    s[..k] + [item] + s[k..]
  }

  ghost function WithoutFirst(s: seq<int>, item: int): seq<int> {
    if s == [] then [] else if s[0] == item then s[1..] else [s[0]] + WithoutFirst(s[1..], item)
  }

  lemma {:induction false} InsertPositionUnique(less: LessThan, s: seq<int>, item: int, k: nat)
    requires k <= |s|
    requires forall j :: 0 <= j < k ==> less(s[j], item)
    requires k < |s| ==> !less(s[k], item)
    ensures k == InsertPosition(less, s, item)
  {
    if s != [] && k > 0 {
      assert less(s[0], item);
      InsertPositionUnique(less, s[1..], item, k - 1);
    }
  }

  /** Insertion keeps a sorted array sorted, for every strict weak order. */
  lemma InsertedSorted(less: LessThan, s: seq<int>, item: int)
    requires SortedBy(less, s)
    requires forall x, y :: less(x, y) ==> !less(y, x)
    requires forall x, y, z :: less(x, z) ==> less(x, y) || less(y, z)
    ensures SortedBy(less, Inserted(less, s, item))
  {
    var k := InsertPosition(less, s, item);
    var t := Inserted(less, s, item);
    forall i, j | 0 <= i < j < |t| ensures !less(t[j], t[i]) {
      if j == k {
        assert t[i] == s[i] && t[j] == item && less(s[i], item);
        assert !less(item, s[i]);
      } else if i == k {
        assert t[i] == item && t[j] == s[j - 1] && !less(s[k], item);
        var a, b := s[j - 1], s[k];
        assert k < j - 1 ==> !less(a, b);
        assert less(a, item) ==> less(a, b) || less(b, item);
      } else {
        var i', j' := if i < k then i else i - 1, if j < k then j else j - 1;
        assert t[i] == s[i'] && t[j] == s[j'] && i' < j';
        assert !less(s[j'], s[i']);
      }
    }
  }

  /** Insertion adds one occurrence of the item and nothing else. */
  lemma InsertedElements(less: LessThan, s: seq<int>, item: int)
    ensures multiset(Inserted(less, s, item)) == multiset(s) + multiset{item}
    ensures forall x :: x in Inserted(less, s, item) <==> x == item || x in s
    ensures NoDuplicates(s) && item !in s ==> NoDuplicates(Inserted(less, s, item))
  {
    var k := InsertPosition(less, s, item);
    assert s == s[..k] + s[k..];
    InsertedMembers(s, k, item);
    if NoDuplicates(s) && item !in s {
      InsertedOnce(s, k, item);
    }
  }

  lemma InsertedMembers(s: seq<int>, k: nat, item: int)
    requires k <= |s|
    ensures forall x :: x in s[..k] + [item] + s[k..] <==> x == item || x in s
  {
    var t := s[..k] + [item] + s[k..];
    forall x ensures x in t <==> x == item || x in s {
      assert x in s <==> x in s[..k] || x in s[k..];
    }
  }

  lemma InsertedOnce(s: seq<int>, k: nat, item: int)
    requires k <= |s| && NoDuplicates(s) && item !in s
    ensures NoDuplicates(s[..k] + [item] + s[k..])
  {
    var t := s[..k] + [item] + s[k..];
    forall i, j | 0 <= i < j < |t| ensures t[i] != t[j] {
      var i', j' := if i < k then i else i - 1, if j < k then j else j - 1;
      assert t[i] == if i == k then item else s[i'];
      assert t[j] == if j == k then item else s[j'];
    }
  }

  lemma {:induction false} WithoutFirstAt(s: seq<int>, item: int, k: nat)
    requires k < |s| && s[k] == item && item !in s[..k]
    ensures WithoutFirst(s, item) == s[..k] + s[k + 1..]
  {
    if k > 0 {
      assert s[0] in s[..k];
      assert s[1..][..k - 1] == s[..k][1..];
      WithoutFirstAt(s[1..], item, k - 1);
      assert s[..k] == [s[0]] + s[1..][..k - 1];
    }
  }

  lemma {:induction false} WithoutFirstAbsent(s: seq<int>, item: int)
    requires item !in s
    ensures WithoutFirst(s, item) == s
  {
    if s != [] {
      WithoutFirstAbsent(s[1..], item);
    }
  }

  /** In an array without duplicates, removal takes out exactly the item. */
  lemma {:induction false} WithoutFirstElements(s: seq<int>, item: int)
    requires NoDuplicates(s)
    ensures NoDuplicates(WithoutFirst(s, item))
    ensures forall x :: x in WithoutFirst(s, item) <==> x in s && x != item
    ensures item in s ==> |WithoutFirst(s, item)| == |s| - 1
  {
    if s != [] {
      WithoutFirstElements(s[1..], item);
      assert s == [s[0]] + s[1..];
      if s[0] == item {
        assert item !in s[1..];
      } else {
        var t := WithoutFirst(s[1..], item);
        assert s[0] !in s[1..];
        forall i, j | 0 <= i < j < |[s[0]] + t| ensures ([s[0]] + t)[i] != ([s[0]] + t)[j] {
          if i == 0 { assert t[j - 1] in t; }
        }
      }
    }
  }

  class OrderedArray {
    // One slot more than maxSize: removal reads the element after the last one.
    const data: array<int>
    const maxSize: nat
    var size: nat

    ghost predicate Valid()
      reads this
    {
      size <= maxSize && data.Length == maxSize + 1
    }

    ghost function Contents(): seq<int>
      requires Valid()
      reads this, data
    {
      data[..size]
    }

    constructor (maxSize: nat)
      ensures Valid() && Contents() == []
      ensures this.maxSize == maxSize && fresh(data)
    {
      this.maxSize := maxSize;
      data := new int[maxSize + 1](_ => 0);
      size := 0;
    }

    method Insert(item: int, less: LessThan)
      requires Valid() && size + 1 <= maxSize
      modifies this`size, data
      ensures Valid() && size == old(size) + 1
      ensures Contents() == Inserted(less, old(Contents()), item)
    {
      ghost var was := Contents();
      var i := 0;
      while i < size && less(data[i], item)
        invariant 0 <= i <= size == |was| && Contents() == was
        invariant forall j :: 0 <= j < i ==> less(was[j], item)
      {
        i := i + 1;
      }
      InsertPositionUnique(less, was, item, i);
      Shift(i, item);
      size := size + 1;
      assert Contents() == was[..i] + [item] + was[i..];
    }

    /** Stores the item at position k after moving every later element one step up. */
    method Shift(k: nat, item: int)
      requires Valid() && k <= size < maxSize
      modifies data
      ensures data[..size + 1] == old(data[..k]) + [item] + old(data[k..size])
    {
      ghost var was := data[..size];
      if k == size {
        data[size] := item;
      } else {
        var i, tmp := k, data[k];
        data[k] := item;
        while i < size
          invariant k <= i <= size
          invariant i < size ==> tmp == was[i]
          invariant data[..k] == was[..k] && data[k] == item
          invariant forall j :: k < j <= i ==> data[j] == was[j - 1]
          invariant forall j :: i < j < size ==> data[j] == was[j]
        {
          i := i + 1;
          var tmp2 := data[i];
          data[i] := tmp;
          tmp := tmp2;
        }
      }
    }

    /** The index of the first occurrence, or -1. */
    method IndexOf(item: int) returns (r: int)
      requires Valid()
      ensures r == -1 <==> item !in Contents()
      ensures r != -1 ==> 0 <= r < size && Contents()[r] == item && item !in Contents()[..r]
    {
      var i := 0;
      while i < size
        invariant 0 <= i <= size
        invariant item !in data[..i]
      {
        if data[i] == item {
          assert Contents()[..i] == data[..i];
          return i;
        }
        i := i + 1;
      }
      r := -1;
    }

    method Remove(at: nat)
      requires Valid() && at < size
      modifies this`size, data
      ensures Valid() && size == old(size) - 1
      ensures Contents() == old(Contents())[..at] + old(Contents())[at + 1..]
    {
      ghost var was := Contents();
      var i := at;
      while i < size
        invariant at <= i <= size && size == |was|
        invariant data[..at] == was[..at]
        invariant forall j :: at <= j < i && j + 1 < size ==> data[j] == was[j + 1]
        invariant forall j :: i <= j < size ==> data[j] == was[j]
      {
        data[i] := data[i + 1];
        i := i + 1;
      }
      size := size - 1;
      assert Contents() == was[..at] + was[at + 1..];
    }

    /** Removes the first occurrence of the item; an absent item changes nothing. */
    method RemoveItem(item: int)
      requires Valid()
      modifies this`size, data
      ensures Valid()
      ensures Contents() == WithoutFirst(old(Contents()), item)
    {
      ghost var was := Contents();
      var i := 0;
      while i < size
        invariant 0 <= i <= size && Contents() == was
        invariant item !in was[..i]
      {
        if data[i] == item {
          WithoutFirstAt(was, item, i);
          Remove(i);
          return;
        }
        i := i + 1;
      }
      WithoutFirstAbsent(was, item);
    }
  }
}
