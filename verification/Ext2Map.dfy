/**
 The block map of ext2: when what ext2_read_file puts together is the file that the direct, singly,
 doubly and triply indirect block lists describe.
 */
module Ext2Map {
  import opened Ext2

  /** The data block that position k of a list of singly indirect blocks leads to; zero is a hole. */
  ghost function Below(p: Partition, singles: seq<nat>, k: nat): nat
    requires Div(k, PerBlock(p)) < |singles|
  {
    var s := singles[Div(k, PerBlock(p))];
    if s == 0 then 0 else Entries(p, s)[Mod(k, PerBlock(p))]
  }

  /** The singly indirect block at position q below a triply indirect one. */
  ghost function SinglyBelow(p: Partition, doubles: seq<nat>, q: nat): nat
    requires Div(q, PerBlock(p)) < |doubles|
  {
    var d := doubles[Div(q, PerBlock(p))];
    if d == 0 then 0 else Entries(p, d)[Mod(q, PerBlock(p))]
  }

  /** The block map: the disk block that holds block j of a file, zero for a hole. */
  ghost function BlockMap(p: Partition, inode: Inode, j: nat): nat {
    var n := PerBlock(p);
    if j < 12 then At(inode.direct, j)
    else if j < 12 + n then Entries(p, inode.singly)[j - 12]
    else if j < 12 + n + PerDoubly(p) then
      var k := j - 12 - n;
      if Div(k, n) < n then Below(p, Entries(p, inode.doubly), k) else 0
    else
      var k := j - 12 - n - PerDoubly(p);
      if Div(Div(k, n), n) < n then
        var s := SinglyBelow(p, Entries(p, inode.triply), Div(k, n));
        if s == 0 then 0 else Entries(p, s)[Mod(k, n)]
      else 0
  }

  //  Lists of lists

  lemma {:induction false} NonZeroAppend(xs: seq<nat>, ys: seq<nat>)
    ensures NonZero(xs + ys) == NonZero(xs) + NonZero(ys)
    decreases |ys|
  {
    if ys == [] {
      assert xs + ys == xs;
    } else {
      var init := ys[..|ys| - 1];
      assert (xs + ys)[..|xs + ys| - 1] == xs + init;
      NonZeroAppend(xs, init);
    }
  }

  lemma {:induction false} NonZeroAll(xs: seq<nat>)
    requires 0 !in xs
    ensures NonZero(xs) == xs
  {
    if xs != [] {
      NonZeroAll(xs[..|xs| - 1]);
    }
  }

  lemma {:induction false} NonZeroNone(xs: seq<nat>)
    requires forall i :: 0 <= i < |xs| ==> xs[i] == 0
    ensures NonZero(xs) == []
  {
    if xs != [] {
      NonZeroNone(xs[..|xs| - 1]);
    }
  }

  lemma {:induction false} GatheredAppend(f: nat -> seq<nat>, xs: seq<nat>, ys: seq<nat>)
    ensures Gathered(f, xs + ys) == Gathered(f, xs) + Gathered(f, ys)
    decreases |ys|
  {
    if ys == [] {
      assert xs + ys == xs;
    } else {
      var init := ys[..|ys| - 1];
      assert (xs + ys)[..|xs + ys| - 1] == xs + init;
      GatheredAppend(f, xs, init);
    }
  }

  lemma GatheredHead(f: nat -> seq<nat>, xs: seq<nat>)
    requires xs != []
    ensures f(xs[0]) <= Gathered(f, xs)
  {
    assert [xs[0]] + xs[1..] == xs;
    GatheredAppend(f, [xs[0]], xs[1..]);
    assert [xs[0]][..0] == [];
    assert Gathered(f, [xs[0]]) == f(xs[0]);
  }

  /** Lists of equal length, one after another. */
  lemma {:induction false} GatheredAt(p: Partition, xs: seq<nat>, k: nat)
    requires k < |xs| * PerBlock(p)
    ensures |Gathered(Leaves1(p), xs)| == |xs| * PerBlock(p)
    ensures Div(k, PerBlock(p)) < |xs|
    ensures Gathered(Leaves1(p), xs)[k] == Entries(p, xs[Div(k, PerBlock(p))])[Mod(k, PerBlock(p))]
    decreases |xs|
  {
    hide Entries, PerBlock, Div, Mod;
    var n := PerBlock(p);
    var init := xs[..|xs| - 1];
    assert |xs| * n == |init| * n + n;
    GatheredSize(Leaves1(p), init, n);
    if k < |init| * n {
      GatheredAt(p, init, k);
    } else {
      Digit(k, |init|, n);
    }
  }

  lemma Digit(k: nat, q: nat, n: nat)
    requires n > 0 && q * n <= k < q * n + n
    ensures Div(k, n) == q && Mod(k, n) == k - q * n
  {
    assert k == q * n + (k - q * n);
    DivUnique(k, q, k - q * n, n);
  }

  lemma DivUnique(k: nat, q: nat, r: nat, n: nat)
    requires n > 0 && r < n && k == q * n + r
    ensures k / n == q && k % n == r
  {
    MulOrder(k / n, q, n);
    MulOrder(q, k / n, n);
  }

  //  Missing index blocks

  /** No missing index block among those needed for the first m blocks has a present one after it. */
  ghost predicate NoGap(n: nat, singles: seq<nat>, m: nat) {
    forall i, j :: 0 <= i < j < |singles| && i * n < m && singles[i] == 0 ==> singles[j] == 0
  }

  ghost function FirstZero(xs: seq<nat>): (z: nat)
    ensures z <= |xs| && 0 !in xs[..z] && (z < |xs| ==> xs[z] == 0)
    ensures forall i :: 0 <= i < z ==> xs[i] != 0
  {
    if xs == [] || xs[0] == 0 then 0
    else
      var z := FirstZero(xs[1..]);
      assert xs[..z + 1] == [xs[0]] + xs[1..][..z];
      z + 1
  }

  /** What is read from the singly indirect blocks: those before the first that is missing, then the others that are there. */
  lemma LeavesSplit(p: Partition, singles: seq<nat>)
    ensures var z := FirstZero(singles);
      Gathered(Leaves1(p), NonZero(singles)) == Gathered(Leaves1(p), singles[..z]) + Gathered(Leaves1(p), NonZero(singles[z..]))
  {
    hide NonZero, Gathered;
    var z := FirstZero(singles);
    assert singles == singles[..z] + singles[z..];
    NonZeroAppend(singles[..z], singles[z..]);
    NonZeroAll(singles[..z]);
    GatheredAppend(Leaves1(p), singles[..z], NonZero(singles[z..]));
  }

  lemma AgreeBefore(p: Partition, singles: seq<nat>, k: nat)
    requires k < FirstZero(singles) * PerBlock(p)
    ensures Div(k, PerBlock(p)) < |singles|
    ensures At(Gathered(Leaves1(p), NonZero(singles)), k) == Below(p, singles, k)
  {
    hide NonZero, Gathered, Entries, PerBlock, Div, Mod, FirstZero;
    var z := FirstZero(singles);
    LeavesSplit(p, singles);
    GatheredAt(p, singles[..z], k);
    var q := Div(k, PerBlock(p));
    assert singles[..z][q] == singles[q];
  }

  lemma SizeBefore(p: Partition, singles: seq<nat>)
    ensures |Gathered(Leaves1(p), singles[..FirstZero(singles)])| == FirstZero(singles) * PerBlock(p)
  {
    hide Entries, PerBlock;
    GatheredSize(Leaves1(p), singles[..FirstZero(singles)], PerBlock(p));
  }

  lemma AgreeAfter(p: Partition, singles: seq<nat>, k: nat)
    requires FirstZero(singles) * PerBlock(p) <= k < |singles| * PerBlock(p)
    requires forall i :: FirstZero(singles) <= i < |singles| ==> singles[i] == 0
    ensures Div(k, PerBlock(p)) < |singles|
    ensures At(Gathered(Leaves1(p), NonZero(singles)), k) == Below(p, singles, k) == 0
  {
    hide NonZero, Gathered, Entries, PerBlock, Div, Mod, FirstZero;
    var z := FirstZero(singles);
    LeavesSplit(p, singles);
    SizeBefore(p, singles);
    NonZeroNone(singles[z..]);
    NoneGathered(Leaves1(p));
    InDigits(k, z, |singles|, PerBlock(p));
  }

  lemma NoneGathered(f: nat -> seq<nat>)
    ensures Gathered(f, []) == []
  {
  }

  lemma InDigits(k: nat, z: nat, size: nat, n: nat)
    requires n > 0 && z * n <= k < size * n
    ensures z <= Div(k, n) < size
  {
    DivMod(k, n);
    MulOrder(Div(k, n), z, n);
    MulOrder(size, Div(k, n), n);
  }

  /** The first index block after the first missing one: a reader that wants more than the blocks before gets to it. */
  lemma FirstAfter(p: Partition, singles: seq<nat>, j: nat, m: nat) returns (x: nat)
    requires FirstZero(singles) < j < |singles| && singles[j] != 0 && FirstZero(singles) * PerBlock(p) < m
    ensures x < |singles| && Visited(Leaves1(p), singles, x, m)
    ensures var later := NonZero(singles[FirstZero(singles)..]); later != [] && later[0] == singles[x]
  {
    hide Gathered, Entries, PerBlock, FirstZero, NonZero, Leaves1;
    var z := FirstZero(singles);
    x := FirstPresent(singles, z, j);
    OnlyBefore(singles, z, x);
    SizeBefore(p, singles);
    HeadOfRest(singles, z, x);
  }

  lemma OnlyBefore(xs: seq<nat>, z: nat, x: nat)
    requires z <= x <= |xs| && 0 !in xs[..z] && forall k :: z <= k < x ==> xs[k] == 0
    ensures NonZero(xs[..x]) == xs[..z]
  {
    hide NonZero;
    assert xs[..x] == xs[..z] + xs[z..x];
    NonZeroAppend(xs[..z], xs[z..x]);
    NonZeroAll(xs[..z]);
    NonZeroNone(xs[z..x]);
  }

  lemma HeadOfRest(xs: seq<nat>, z: nat, x: nat)
    requires z <= x < |xs| && xs[x] != 0 && forall k :: z <= k < x ==> xs[k] == 0
    ensures NonZero(xs[z..]) != [] && NonZero(xs[z..])[0] == xs[x]
  {
    hide NonZero;
    var rest := xs[z..];
    assert rest[..x - z] == xs[z..x];
    NonZeroNone(rest[..x - z]);
    NonZeroStep(rest, x - z);
    NonZeroPrefix(rest, x - z + 1);
  }

  lemma {:induction false} FirstPresent(xs: seq<nat>, i: nat, j: nat) returns (x: nat)
    requires i <= j < |xs| && xs[j] != 0
    ensures i <= x <= j && xs[x] != 0 && forall k :: i <= k < x ==> xs[k] == 0
    decreases j - i
  {
    if xs[i] != 0 {
      x := i;
    } else {
      x := FirstPresent(xs, i + 1, j);
    }
  }

  lemma DifferAt(p: Partition, singles: seq<nat>, j: nat, m: nat)
    requires FirstZero(singles) < j < |singles| && singles[j] != 0 && FirstZero(singles) * PerBlock(p) < m
    requires SinglesReadable(p, singles, m)
    ensures var k := FirstZero(singles) * PerBlock(p);
      Div(k, PerBlock(p)) < |singles| && At(Gathered(Leaves1(p), NonZero(singles)), k) != Below(p, singles, k)
  {
    hide Gathered, Entries, PerBlock, Div, Mod, FirstZero, NonZero;
    var z, n := FirstZero(singles), PerBlock(p);
    LeavesSplit(p, singles);
    SizeBefore(p, singles);
    var x := FirstAfter(p, singles, j, m);
    GatheredHead(Leaves1(p), NonZero(singles[z..]));
    assert Readable1(p, singles[x]);
    Digit(z * n, z, n);
  }

  /**
   The first m blocks below a list of singly indirect blocks are read where they belong if and only
   if no missing index block among those needed has a present one after it.
   */
  lemma ReadWhereTheyBelong(p: Partition, singles: seq<nat>, m: nat)
    requires m <= |singles| * PerBlock(p) && SinglesReadable(p, singles, m)
    ensures forall k: nat :: k < m ==> Div(k, PerBlock(p)) < |singles|
    ensures NoGap(PerBlock(p), singles, m) <==>
      forall k: nat :: k < m ==> At(Gathered(Leaves1(p), NonZero(singles)), k) == Below(p, singles, k)
  {
    hide Gathered, Entries, PerBlock, Div, Mod, NonZero, Below, SinglesReadable;
    var z, n := FirstZero(singles), PerBlock(p);
    forall k: nat | k < m
      ensures Div(k, n) < |singles|
    {
      InDigits(k, 0, |singles|, n);
    }
    if z * n >= m {
      forall k: nat | k < m
        ensures At(Gathered(Leaves1(p), NonZero(singles)), k) == Below(p, singles, k)
      {
        AgreeBefore(p, singles, k);
      }
      BeforeGap(n, singles, m);
    } else if NoGap(n, singles, m) {
      assert z < |singles|;
      forall k: nat | k < m
        ensures At(Gathered(Leaves1(p), NonZero(singles)), k) == Below(p, singles, k)
      {
        if k < z * n {
          AgreeBefore(p, singles, k);
        } else {
          AgreeAfter(p, singles, k);
        }
      }
    } else {
      var j := GapAfter(n, singles, m);
      DifferAt(p, singles, j, m);
    }
  }

  lemma BeforeGap(n: nat, singles: seq<nat>, m: nat)
    requires FirstZero(singles) * n >= m
    ensures NoGap(n, singles, m)
  {
    forall i: nat | i < |singles| && i * n < m
      ensures singles[i] != 0
    {
      Earlier(i, FirstZero(singles), n);
    }
  }

  lemma Earlier(i: nat, z: nat, n: nat)
    requires i * n < z * n
    ensures i < z
  {
  }

  lemma GapAfter(n: nat, singles: seq<nat>, m: nat) returns (j: nat)
    requires FirstZero(singles) * n < m && !NoGap(n, singles, m)
    ensures FirstZero(singles) < j < |singles| && singles[j] != 0
  {
    var z := FirstZero(singles);
    var i, l :| 0 <= i < l < |singles| && i * n < m && singles[i] == 0 && singles[l] != 0;
    assert z <= i;
    j := l;
  }

  //  Triply indirect blocks

  function Zeros(n: nat): seq<nat> { seq(n, _ => 0) }

  /** All the singly indirect blocks below a list of doubly indirect ones, with zeros for those that are missing. */
  ghost function Expand(p: Partition, doubles: seq<nat>): seq<nat> {
    if doubles == [] then []
    else
      var d := doubles[|doubles| - 1];
      Expand(p, doubles[..|doubles| - 1]) + (if d == 0 then Zeros(PerBlock(p)) else Entries(p, d))
  }

  lemma {:induction false} ExpandAt(p: Partition, doubles: seq<nat>, q: nat)
    requires q < |doubles| * PerBlock(p)
    ensures |Expand(p, doubles)| == |doubles| * PerBlock(p) && Div(q, PerBlock(p)) < |doubles|
    ensures Expand(p, doubles)[q] == SinglyBelow(p, doubles, q)
    decreases |doubles|
  {
    hide Entries, PerBlock, Div, Mod;
    var n, init := PerBlock(p), doubles[..|doubles| - 1];
    assert |doubles| * n == |init| * n + n;
    ExpandSize(p, init);
    if q < |init| * n {
      ExpandAt(p, init, q);
    } else {
      Digit(q, |init|, n);
    }
  }

  lemma {:induction false} ExpandSize(p: Partition, doubles: seq<nat>)
    ensures |Expand(p, doubles)| == |doubles| * PerBlock(p)
  {
    hide Entries, PerBlock;
    if doubles != [] {
      var init := doubles[..|doubles| - 1];
      ExpandSize(p, init);
      assert |doubles| * PerBlock(p) == |init| * PerBlock(p) + PerBlock(p);
    }
  }

  /** Reading doubly indirect blocks one by one reads all the singly indirect blocks below them, in order. */
  lemma {:induction false} ExpandLeaves(p: Partition, doubles: seq<nat>)
    ensures Gathered(Leaves2(p), NonZero(doubles)) == Gathered(Leaves1(p), NonZero(Expand(p, doubles)))
  {
    hide Entries, PerBlock, Leaves1;
    if doubles != [] {
      var init, d := doubles[..|doubles| - 1], doubles[|doubles| - 1];
      ExpandLeaves(p, init);
      var part := if d == 0 then Zeros(PerBlock(p)) else Entries(p, d);
      NonZeroAppend(Expand(p, init), part);
      GatheredAppend(Leaves1(p), NonZero(Expand(p, init)), NonZero(part));
      if d == 0 {
        NonZeroNone(part);
      } else {
        GatheredStep(Leaves2(p), NonZero(init), d);
      }
    }
  }

  /** What lies before position q below doubly indirect blocks: all below the earlier ones, then part of the one at hand. */
  lemma {:induction false} ExpandPrefix(p: Partition, doubles: seq<nat>, a: nat, b: nat, q: nat)
    requires a < |doubles| && doubles[a] != 0 && b <= PerBlock(p) && q == a * PerBlock(p) + b
    ensures q <= |Expand(p, doubles)| && Expand(p, doubles)[..q] == Expand(p, doubles[..a]) + Entries(p, doubles[a])[..b]
    decreases |doubles|
  {
    hide Entries, PerBlock;
    var n, init := PerBlock(p), doubles[..|doubles| - 1];
    ExpandSize(p, doubles);
    ExpandSize(p, init);
    MulOrder(a, |doubles|, n);
    if a < |init| {
      ExpandPrefix(p, init, a, b, q);
      assert init[..a] == doubles[..a];
    } else {
      assert doubles[..a] == init;
    }
  }

  lemma ExpandLed(p: Partition, doubles: seq<nat>, a: nat, b: nat, q: nat)
    requires a < |doubles| && doubles[a] != 0 && b < PerBlock(p) && q == a * PerBlock(p) + b
    ensures q <= |Expand(p, doubles)|
    ensures Led(Leaves1(p), Expand(p, doubles), q)
      == Led(Leaves2(p), doubles, a) + Led(Leaves1(p), Entries(p, doubles[a]), b)
    ensures Led(Leaves1(p), Entries(p, doubles[a]), b) < PerDoubly(p)
  {
    hide Entries, PerBlock, PerDoubly, Expand, NonZero, Gathered, Leaves1, Leaves2;
    ExpandPrefix(p, doubles, a, b, q);
    LedAppend(Leaves1(p), Expand(p, doubles[..a]), Entries(p, doubles[a])[..b]);
    ExpandLeaves(p, doubles[..a]);
    LedBelow(p, Entries(p, doubles[a]), b);
  }

  lemma LedAppend(f: nat -> seq<nat>, xs: seq<nat>, ys: seq<nat>)
    ensures |Gathered(f, NonZero(xs + ys))| == |Gathered(f, NonZero(xs))| + |Gathered(f, NonZero(ys))|
  {
    hide NonZero, Gathered;
    NonZeroAppend(xs, ys);
    GatheredAppend(f, NonZero(xs), NonZero(ys));
  }

  lemma LedBelow(p: Partition, singles: seq<nat>, b: nat)
    requires b <= |singles| && b < PerBlock(p)
    ensures Led(Leaves1(p), singles, b) < PerDoubly(p)
  {
    hide Entries, PerBlock, NonZero, Gathered;
    var part := NonZero(singles[..b]);
    GatheredSize(Leaves1(p), part, PerBlock(p));
    MulOrder(|part|, PerBlock(p), PerBlock(p));
  }

  lemma ExpandReadable(p: Partition, doubles: seq<nat>, num: nat)
    requires DoublesReadable(p, doubles, num)
    ensures SinglesReadable(p, Expand(p, doubles), num)
  {
    hide Entries, PerBlock, PerDoubly, Readable1, Expand, Led, Div, Mod;
    var singles, n := Expand(p, doubles), PerBlock(p);
    ExpandSize(p, doubles);
    forall q: nat | q < |singles| && Visited(Leaves1(p), singles, q, num)
      ensures Readable1(p, singles[q])
    {
      ExpandAt(p, doubles, q);
      DivMod(q, n);
      var a, b := Div(q, n), Mod(q, n);
      ExpandLed(p, doubles, a, b, q);
      assert Visited(Leaves2(p), doubles, a, num);
      assert Visited(Leaves1(p), Entries(p, doubles[a]), b, Least(num - Led(Leaves2(p), doubles, a), PerDoubly(p)));
    }
  }

  //  Whole files

  ghost predicate NoGaps(p: Partition, inode: Inode, num: nat) {
    var n := PerBlock(p);
    && (num > 12 + n ==> NoGap(n, Entries(p, inode.doubly), Least(PerDoubly(p), num - 12 - n)))
    && (num > 12 + n + PerDoubly(p) ==> NoGap(n, Expand(p, Entries(p, inode.triply)), num - 12 - n - PerDoubly(p)))
  }

  ghost predicate Mapped(p: Partition, inode: Inode, from: nat, num: nat) {
    forall j: nat :: from <= j < num ==> Reached(p, inode, j) == BlockMap(p, inode, j)
  }

  lemma MappedStart(p: Partition, inode: Inode, num: nat)
    requires num <= 12 + PerBlock(p)
    ensures Mapped(p, inode, 0, num)
  {
    hide Entries, PerBlock;
  }

  lemma MappedDoubly(p: Partition, inode: Inode, count: nat)
    requires Readable2(p, inode.doubly, count) && count <= PerDoubly(p)
    ensures var k := 12 + PerBlock(p); Mapped(p, inode, k, k + count) <==> NoGap(PerBlock(p), Entries(p, inode.doubly), count)
  {
    hide Entries, PerBlock, Gathered, NonZero, NoGap, Below, Div, Mod, SinglesReadable;
    var n, singles := PerBlock(p), Entries(p, inode.doubly);
    ReadWhereTheyBelong(p, singles, count);
    var leaves := Gathered(Leaves1(p), NonZero(singles));
    forall k: nat | k < count
      ensures Reached(p, inode, 12 + n + k) == At(leaves, k) && BlockMap(p, inode, 12 + n + k) == Below(p, singles, k)
    {
    }
    if NoGap(n, singles, count) {
      forall j: nat | 12 + n <= j < 12 + n + count
        ensures Reached(p, inode, j) == BlockMap(p, inode, j)
      {
        var k := j - 12 - n;
        assert At(leaves, k) == Below(p, singles, k);
      }
    } else {
      var k: nat :| k < count && At(leaves, k) != Below(p, singles, k);
      assert Reached(p, inode, 12 + n + k) != BlockMap(p, inode, 12 + n + k);
    }
  }

  lemma MappedTriply(p: Partition, inode: Inode, count: nat)
    requires Readable3(p, inode.triply, count) && count <= PerTriply(p)
    ensures var k := 12 + PerBlock(p) + PerDoubly(p);
      Mapped(p, inode, k, k + count) <==> NoGap(PerBlock(p), Expand(p, Entries(p, inode.triply)), count)
  {
    hide Entries, PerBlock, Gathered, NonZero, NoGap, Below, Div, Mod, SinglesReadable, DoublesReadable, Expand, SinglyBelow;
    var n, doubles := PerBlock(p), Entries(p, inode.triply);
    var singles, start := Expand(p, doubles), 12 + n + PerDoubly(p);
    ExpandSize(p, doubles);
    ExpandReadable(p, doubles, count);
    ReadWhereTheyBelong(p, singles, count);
    ExpandLeaves(p, doubles);
    var leaves := Gathered(Leaves1(p), NonZero(singles));
    forall k: nat | k < count
      ensures Reached(p, inode, start + k) == At(leaves, k) && BlockMap(p, inode, start + k) == Below(p, singles, k)
    {
      TriplyMap(p, inode, k);
    }
    if NoGap(n, singles, count) {
      forall j: nat | start <= j < start + count
        ensures Reached(p, inode, j) == BlockMap(p, inode, j)
      {
        var k := j - start;
        assert At(leaves, k) == Below(p, singles, k);
      }
    } else {
      var k: nat :| k < count && At(leaves, k) != Below(p, singles, k);
      assert Reached(p, inode, start + k) != BlockMap(p, inode, start + k);
    }
  }

  lemma Squared(p: Partition)
    ensures PerDoubly(p) == PerBlock(p) * PerBlock(p)
  {
  }

  lemma TriplyMap(p: Partition, inode: Inode, k: nat)
    requires k < PerTriply(p)
    ensures var singles := Expand(p, Entries(p, inode.triply));
      Div(k, PerBlock(p)) < |singles| &&
      BlockMap(p, inode, 12 + PerBlock(p) + PerDoubly(p) + k) == Below(p, singles, k)
  {
    hide Entries, PerBlock, Div, Mod, Expand, SinglyBelow, PerDoubly;
    var n, doubles := PerBlock(p), Entries(p, inode.triply);
    ExpandSize(p, doubles);
    InDigits(k, 0, PerDoubly(p), n);
    Squared(p);
    ExpandAt(p, doubles, Div(k, n));
  }

  /**
   For a file whose index blocks pass the source's assertions, ext2_read_file puts every block where
   the block map says if and only if no missing index block has a present one after it.
   */
  lemma FileIsMapped(p: Partition, inode: Inode, num: nat)
    requires |inode.direct| == 12 && Readable(p, inode, num)
    requires num <= 12 + PerBlock(p) + PerDoubly(p) + PerTriply(p)
    ensures Mapped(p, inode, 0, num) <==> NoGaps(p, inode, num)
  {
    hide Entries, PerBlock, PerDoubly, PerTriply, NoGap, Reached, BlockMap, Readable1, Readable2, Readable3, Expand;
    var n := PerBlock(p);
    MappedStart(p, inode, Least(num, 12 + n));
    if num > 12 + n {
      MappedDoubly(p, inode, Least(PerDoubly(p), num - 12 - n));
    }
    if num > 12 + n + PerDoubly(p) {
      MappedTriply(p, inode, num - 12 - n - PerDoubly(p));
    }
  }

  /** With no index block missing, there is no gap. */
  lemma NothingMissing(n: nat, singles: seq<nat>, m: nat)
    requires forall i :: 0 <= i < |singles| && i * n < m ==> singles[i] != 0
    ensures NoGap(n, singles, m)
  {
  }

  /** A missing index block pulls forward what the next one lists. */
  lemma MissingIndexShifts(p: Partition, doubly: nat, num: nat)
    requires num > 0 && Readable2(p, doubly, num) && Entries(p, doubly)[0] == 0 && Entries(p, doubly)[1] != 0
    ensures At(Leaves2(p)(doubly), 0) == Below(p, Entries(p, doubly), PerBlock(p)) != 0
    ensures Below(p, Entries(p, doubly), 0) == 0
  {
    hide Entries, PerBlock, Gathered, NonZero, Div, Mod;
    var singles, n := Entries(p, doubly), PerBlock(p);
    NonZeroStep(singles, 0);
    NonZeroStep(singles, 1);
    NonZeroPrefix(singles, 2);
    assert NonZero(singles)[0] == singles[1];
    NoneGathered(Leaves1(p));
    assert Visited(Leaves1(p), singles, 1, num);
    GatheredHead(Leaves1(p), NonZero(singles));
    Digit(n, 1, n);
    Digit(0, 0, n);
  }

  //  Files without holes. The block count in an inode also counts the index blocks, and ext2_read_file
  //  takes it for the number of data blocks.

  /** How many of the first b blocks of a file lie in a stretch of the given size. */
  ghost function Portion(b: nat, from: nat, size: nat): nat {
    if b <= from then 0 else Least(b - from, size)
  }

  /** A singly indirect block with the first k of its entries in use; none at all without entries. */
  ghost predicate SinglyFull(p: Partition, singly: nat, k: nat) {
    if k == 0 then singly == 0
    else singly > ROOT_INODE && forall i: nat :: i < PerBlock(p) ==> (Entries(p, singly)[i] != 0 <==> i < k)
  }

  ghost predicate DoublyFull(p: Partition, doubly: nat, k: nat) {
    var n := PerBlock(p);
    if k == 0 then doubly == 0
    else doubly > ROOT_INODE && forall i: nat :: i < n ==> SinglyFull(p, Entries(p, doubly)[i], Portion(k, i * n, n))
  }

  ghost predicate TriplyFull(p: Partition, triply: nat, k: nat) {
    var n, m := PerBlock(p), PerDoubly(p);
    if k == 0 then triply == 0
    else triply > ROOT_INODE && forall i: nat :: i < n ==> DoublyFull(p, Entries(p, triply)[i], Portion(k, i * m, m))
  }

  /** The first b blocks of the file are there, nothing else is, and there are no index blocks but those needed. */
  ghost predicate HoleFree(p: Partition, inode: Inode, b: nat) {
    var n, m := PerBlock(p), PerDoubly(p);
    && |inode.direct| == 12 && b <= 12 + n + m + PerTriply(p)
    && (forall i :: 0 <= i < 12 ==> (inode.direct[i] != 0 <==> i < b))
    && SinglyFull(p, inode.singly, Portion(b, 12, n))
    && DoublyFull(p, inode.doubly, Portion(b, 12 + n, m))
    && TriplyFull(p, inode.triply, Portion(b, 12 + n + m, PerTriply(p)))
  }

  /** The index blocks of a file, counted from its inode. */
  ghost function IndexBlocks(p: Partition, inode: Inode): nat {
    var doubles := Entries(p, inode.triply);
    (if inode.singly == 0 then 0 else 1)
    + (if inode.doubly == 0 then 0 else 1 + |NonZero(Entries(p, inode.doubly))|)
    + (if inode.triply == 0 then 0 else 1 + |NonZero(doubles)| + |NonZero(Expand(p, doubles))|)
  }

  lemma FullReadable1(p: Partition, singly: nat, k: nat)
    requires SinglyFull(p, singly, k) && k > 0
    ensures Readable1(p, singly)
  {
    hide Entries, PerBlock;
  }

  lemma FullReadable2(p: Partition, doubly: nat, k: nat, num: nat)
    requires DoublyFull(p, doubly, k) && k > 0
    ensures Readable2(p, doubly, num)
  {
    hide Entries, PerBlock, Readable1, Visited, SinglyFull, Portion;
    var singles := Entries(p, doubly);
    forall i: nat | i < |singles| && Visited(Leaves1(p), singles, i, num)
      ensures Readable1(p, singles[i])
    {
      VisitedThere(Leaves1(p), singles, i, num);
      SinglyReadable(p, doubly, k, i);
    }
  }

  lemma SinglyReadable(p: Partition, doubly: nat, k: nat, i: nat)
    requires DoublyFull(p, doubly, k) && k > 0 && i < PerBlock(p) && Entries(p, doubly)[i] != 0
    ensures Readable1(p, Entries(p, doubly)[i])
  {
    hide Entries, PerBlock, Readable1;
    var part := Portion(k, i * PerBlock(p), PerBlock(p));
    assert SinglyFull(p, Entries(p, doubly)[i], part);
    FullReadable1(p, Entries(p, doubly)[i], part);
  }

  lemma VisitedThere(f: nat -> seq<nat>, xs: seq<nat>, i: nat, num: nat)
    requires i < |xs| && Visited(f, xs, i, num)
    ensures xs[i] != 0
  {
  }

  lemma FullReadable3(p: Partition, triply: nat, k: nat, num: nat)
    requires TriplyFull(p, triply, k) && k > 0
    ensures Readable3(p, triply, num)
  {
    hide Entries, PerBlock, PerDoubly, Readable2, Visited, Led, DoublyFull, Portion;
    var m, doubles := PerDoubly(p), Entries(p, triply);
    forall i: nat | i < |doubles| && Visited(Leaves2(p), doubles, i, num)
      ensures Led(Leaves2(p), doubles, i) < num
      ensures Readable2(p, doubles[i], Least(num - Led(Leaves2(p), doubles, i), m))
    {
      VisitedThere(Leaves2(p), doubles, i, num);
      VisitedBefore(Leaves2(p), doubles, i, num);
      DoublyReadable(p, triply, k, i, Least(num - Led(Leaves2(p), doubles, i), m));
    }
  }

  lemma DoublyReadable(p: Partition, triply: nat, k: nat, i: nat, num: nat)
    requires TriplyFull(p, triply, k) && k > 0 && i < PerBlock(p) && Entries(p, triply)[i] != 0
    ensures Readable2(p, Entries(p, triply)[i], num)
  {
    hide Entries, PerBlock, PerDoubly, Readable2;
    var part := Portion(k, i * PerDoubly(p), PerDoubly(p));
    assert DoublyFull(p, Entries(p, triply)[i], part);
    FullReadable2(p, Entries(p, triply)[i], part, num);
  }

  lemma VisitedBefore(f: nat -> seq<nat>, xs: seq<nat>, i: nat, num: nat)
    requires i < |xs| && Visited(f, xs, i, num)
    ensures Led(f, xs, i) < num
  {
  }

  /** Below a doubly indirect block with k data blocks, the singly indirect ones are the first c entries, c being k / n rounded up. */
  lemma DoublyCount(p: Partition, doubly: nat, k: nat) returns (c: nat)
    requires DoublyFull(p, doubly, k) && 0 < k <= PerDoubly(p)
    ensures |NonZero(Entries(p, doubly))| == c && 0 < c && (c - 1) * PerBlock(p) < k <= c * PerBlock(p)
  {
    hide Entries, PerBlock, NonZero;
    var n, singles := PerBlock(p), Entries(p, doubly);
    c := Div(k - 1, n) + 1;
    DivMod(k - 1, n);
    Squared(p);
    InDigits(k - 1, 0, n, n);
    forall i: nat | i < n
      ensures singles[i] != 0 <==> i < c
    {
      assert SinglyFull(p, singles[i], Portion(k, i * n, n));
      MulOrder(i, c - 1, n);
      MulOrder(c, i, n);
    }
    OnlyBefore(singles, c, n);
    assert singles[..n] == singles;
  }

  /** The sum that decides: the data blocks below a doubly indirect block, their index blocks, and two more. */
  lemma CountPasses(n: nat, k: nat, c: nat)
    requires n >= 2 && 0 < c && (c - 1) * n < k <= c * n && k <= n * n
    ensures k + c + 2 > n * n <==> k >= n * n - n
  {
    assert (n - 1) * n == n * n - n;
    MulOrder(c, n - 1, n);
    MulOrder(n, c, n);
    MulOrder(n - 1, c, n);
  }

  /**
   A file of b data blocks without holes is read exactly when it is not empty and its index blocks do
   not make the count reach into the next kind of index block, which is not there: not for a file that
   fills the singly indirect block, nor for one that nearly fills the doubly indirect one.
   */
  lemma HoleFreeRead(p: Partition, inode: Inode, b: nat, num: nat)
    requires HoleFree(p, inode, b) && num == b + IndexBlocks(p, inode)
    ensures var n, m := PerBlock(p), PerDoubly(p);
      num > 0 && Readable(p, inode, num) <==> b > 0 && b != 12 + n && !(12 + m <= b <= 12 + n + m)
  {
    hide HoleFree, IndexBlocks, Readable, PerBlock, PerDoubly;
    Sizes(p);
    HoleFreeCount(p, inode, b);
    HoleFreeNeeds(p, inode, b, num);
  }

  /** Reading goes through exactly when no index block is followed that the file does not need. */
  lemma HoleFreeNeeds(p: Partition, inode: Inode, b: nat, num: nat)
    requires HoleFree(p, inode, b) && b <= num
    ensures var n, m := PerBlock(p), PerDoubly(p);
      Readable(p, inode, num) <==>
        b > 0 && (num > 12 ==> b > 12) && (num > 12 + n ==> b > 12 + n) && (num > 12 + n + m ==> b > 12 + n + m)
  {
    hide Entries, PerBlock, PerDoubly, PerTriply, Readable1, Readable2, Readable3, SinglyFull, DoublyFull, TriplyFull;
    var n, m := PerBlock(p), PerDoubly(p);
    Sizes(p);
    NoneFull(p, inode, b);
    NotReadable(p);
    if 12 < b {
      FullReadable1(p, inode.singly, Portion(b, 12, n));
    }
    if 12 + n < b {
      FullReadable2(p, inode.doubly, Portion(b, 12 + n, m), Least(num - 12 - n, m));
    }
    if 12 + n + m < b {
      FullReadable3(p, inode.triply, Portion(b, 12 + n + m, PerTriply(p)), num - 12 - n - m);
    }
  }

  /** When the index blocks carry the count of blocks past the stretch that the data blocks end in. */
  lemma HoleFreeCount(p: Partition, inode: Inode, b: nat)
    requires HoleFree(p, inode, b)
    ensures var n, m, num := PerBlock(p), PerDoubly(p), b + IndexBlocks(p, inode);
      && (b <= 12 ==> num == b)
      && (12 < b <= 12 + n ==> num == b + 1)
      && (12 + n < b <= 12 + n + m ==> (num > 12 + n + m <==> b >= 12 + m))
  {
    hide Entries, PerBlock, PerTriply, NonZero, Expand, SinglyFull, DoublyFull, TriplyFull;
    var n, m := PerBlock(p), PerDoubly(p);
    NoneFull(p, inode, b);
    if 12 + n < b <= 12 + n + m {
      var c := DoublyCount(p, inode.doubly, b - 12 - n);
      CountPasses(n, b - 12 - n, c);
    }
  }

  lemma NoneFull(p: Partition, inode: Inode, b: nat)
    requires HoleFree(p, inode, b)
    ensures inode.singly == 0 <==> b <= 12
    ensures inode.doubly == 0 <==> b <= 12 + PerBlock(p)
    ensures inode.triply == 0 <==> b <= 12 + PerBlock(p) + PerDoubly(p)
  {
    hide Entries, PerBlock, PerDoubly, PerTriply;
    Sizes(p);
  }

  lemma Sizes(p: Partition)
    ensures 0 < PerBlock(p) < PerDoubly(p) && 0 < PerTriply(p)
  {
    hide PerBlock;
  }

  lemma NotReadable(p: Partition)
    ensures !Readable1(p, 0) && forall num :: !Readable2(p, 0, num) && !Readable3(p, 0, num)
  {
  }
}
