/**
 Reading files from an ext2 partition (ext2.c): block addresses, the direct and indirect block
 lists, and the whole file they make up. A buffer is an array of blocks.
 */
module Ext2 {
  import opened Basics

  type Sector = s: seq<Byte> | |s| == 512 witness seq(512, _ => 0)

  const ROOT_INODE: nat := 2
  const INODE_SIZE: nat := 128

  function Pow2(n: nat): (r: nat)
    ensures r >= 1
  {
    if n == 0 then 1 else 2 * Pow2(n - 1)
  }

  /** A partition: where it starts, its block size, and what is on the disk. */
  datatype Partition = Partition(startLba: nat, logBlockSize: nat, inodesPerGroup: nat, sectors: nat -> Sector)

  function SectorsPerBlock(p: Partition): (n: nat)
    ensures n >= 2
  {
    2 * Pow2(p.logBlockSize)
  }

  function BlockSize(p: Partition): (n: nat)
    ensures n >= 1024 && n == 512 * SectorsPerBlock(p)
  {
    1024 * Pow2(p.logBlockSize)
  }

  /** How many block numbers fit in a block. */
  function PerBlock(p: Partition): (n: nat)
    ensures n >= 256 && 4 * n == BlockSize(p)
  {
    256 * Pow2(p.logBlockSize)
  }

  /** How many data blocks lie below a doubly and below a triply indirect block. */
  ghost function PerDoubly(p: Partition): nat { PerBlock(p) * PerBlock(p) }

  ghost function PerTriply(p: Partition): nat { PerDoubly(p) * PerBlock(p) }

  /** block_to_abs_lba */
  function BlockLba(p: Partition, block: nat): nat {
    p.startLba + block * SectorsPerBlock(p)
  }

  /** Different blocks never share a sector. */
  lemma BlocksDisjoint(p: Partition, a: nat, b: nat)
    requires a < b
    ensures BlockLba(p, a) + SectorsPerBlock(p) <= BlockLba(p, b)
  {
    var n := SectorsPerBlock(p);
    assert (a + 1) * n <= b * n;
  }

  /** The bytes of n consecutive sectors. */
  function ReadSectors(p: Partition, lba: nat, n: nat): (s: seq<Byte>)
    ensures |s| == 512 * n
  {
    if n == 0 then [] else ReadSectors(p, lba, n - 1) + p.sectors(lba + n - 1)
  }

  function Block(p: Partition, block: nat): (s: seq<Byte>)
    ensures |s| == BlockSize(p)
  {
    ReadSectors(p, BlockLba(p, block), SectorsPerBlock(p))
  }

  function Word(s: seq<Byte>, i: nat): nat
    requires 4 * i + 4 <= |s|
  {
    var b0: int, b1: int, b2: int, b3: int := s[4 * i], s[4 * i + 1], s[4 * i + 2], s[4 * i + 3];
    b0 + 256 * b1 + 65536 * b2 + 16777216 * b3
  }

  /** The block numbers listed in an index block. */
  function Entries(p: Partition, block: nat): (r: seq<nat>)
    ensures |r| == PerBlock(p)
  {
    seq(PerBlock(p), i requires 0 <= i < PerBlock(p) => Word(Block(p, block), i))
  }

  //  The disk byte by byte

  /** Byte k of a run of sectors is byte k % 512 of the sector k / 512 places after its first. */
  lemma {:induction false} SectorByte(p: Partition, lba: nat, n: nat, k: nat)
    requires k < 512 * n
    ensures ReadSectors(p, lba, n)[k] == p.sectors(lba + k / 512)[k % 512]
  {
    if k < 512 * (n - 1) {
      SectorByte(p, lba, n - 1, k);
    } else {
      assert k / 512 == n - 1 && k % 512 == k - 512 * (n - 1);
    }
  }

  /** Where a byte of a block lies on the disk; block zero stands for a hole. */
  ghost function DiskByte(p: Partition, block: nat, k: nat): Byte {
    if block == 0 then 0 else p.sectors(p.startLba + block * SectorsPerBlock(p) + k / 512)[k % 512]
  }

  lemma BlockByte(p: Partition, block: nat, k: nat)
    requires k < BlockSize(p)
    ensures Block(p, block)[k] == p.sectors(p.startLba + block * SectorsPerBlock(p) + k / 512)[k % 512]
  {
    hide ReadSectors, SectorsPerBlock;
    SectorByte(p, BlockLba(p, block), SectorsPerBlock(p), k);
  }

  /** A word is stored as its four base-256 digits, the lowest one first. */
  lemma WordIs(s: seq<Byte>, i: nat, x: nat)
    requires 4 * i + 4 <= |s|
    ensures Word(s, i) == x <==> (
      && x < 0x1_0000_0000
      && s[4 * i] == x % 256 && s[4 * i + 1] == x / 256 % 256
      && s[4 * i + 2] == x / 65536 % 256 && s[4 * i + 3] == x / 16777216 % 256)
  {
    var b0: int, b1: int, b2: int, b3: int := s[4 * i], s[4 * i + 1], s[4 * i + 2], s[4 * i + 3];
    Digits(b0, b1, b2, b3);
    if x < 0x1_0000_0000 {
      Recombine(x);
    }
  }

  lemma Digits(b0: nat, b1: nat, b2: nat, b3: nat)
    requires b0 < 256 && b1 < 256 && b2 < 256 && b3 < 256
    ensures var x := b0 + 256 * b1 + 65536 * b2 + 16777216 * b3;
      x < 0x1_0000_0000 && x % 256 == b0 && x / 256 % 256 == b1 && x / 65536 % 256 == b2 && x / 16777216 % 256 == b3
  {
    var x := b0 + 256 * b1 + 65536 * b2 + 16777216 * b3;
    assert x / 256 == b1 + 256 * b2 + 65536 * b3;
    assert x / 65536 == b2 + 256 * b3;
    assert x / 16777216 == b3;
  }

  lemma Recombine(x: nat)
    requires x < 0x1_0000_0000
    ensures x == x % 256 + 256 * (x / 256 % 256) + 65536 * (x / 65536 % 256) + 16777216 * (x / 16777216 % 256)
  {
    assert x / 65536 == x / 256 / 256 && x / 16777216 == x / 65536 / 256;
    assert x / 16777216 < 256;
  }

  /** An entry of an index block is the number that four bytes on the disk spell. */
  lemma EntryIs(p: Partition, block: nat, i: nat, x: nat)
    requires block != 0 && i < PerBlock(p)
    ensures Entries(p, block)[i] == x <==> (
      && x < 0x1_0000_0000
      && DiskByte(p, block, 4 * i) == x % 256 && DiskByte(p, block, 4 * i + 1) == x / 256 % 256
      && DiskByte(p, block, 4 * i + 2) == x / 65536 % 256 && DiskByte(p, block, 4 * i + 3) == x / 16777216 % 256)
  {
    hide Block, Word, SectorsPerBlock, PerBlock;
    WordIs(Block(p, block), i, x);
    BlockByte(p, block, 4 * i);
    BlockByte(p, block, 4 * i + 1);
    BlockByte(p, block, 4 * i + 2);
    BlockByte(p, block, 4 * i + 3);
  }

  //  Inodes

  ghost function Div(a: nat, b: nat): nat
    requires b > 0
  {
    a / b
  }

  ghost function Mod(a: nat, b: nat): (r: nat)
    requires b > 0
    ensures r < b
  {
    a % b
  }

  lemma DivMod(a: nat, b: nat)
    requires b > 0
    ensures a == Div(a, b) * b + Mod(a, b)
  {
  }

  /** bgrp_for_inode and local_index_for_inode */
  ghost function GroupOf(p: Partition, inode: nat): nat
    requires inode >= 1 && p.inodesPerGroup > 0
  {
    Div(inode - 1, p.inodesPerGroup)
  }

  ghost function IndexOf(p: Partition, inode: nat): nat
    requires inode >= 1 && p.inodesPerGroup > 0
  {
    Mod(inode - 1, p.inodesPerGroup)
  }

  /** The inodes are dealt out to the groups one by one: each place in each group has exactly one inode. */
  lemma InodeNumber(p: Partition, inode: nat, group: nat, index: nat)
    requires inode >= 1 && p.inodesPerGroup > 0 && index < p.inodesPerGroup
    ensures GroupOf(p, inode) == group && IndexOf(p, inode) == index <==> inode == 1 + group * p.inodesPerGroup + index
  {
    hide Div, Mod;
    var n := p.inodesPerGroup;
    DivMod(inode - 1, n);
    if inode == 1 + group * n + index {
      MulOrder(GroupOf(p, inode), group, n);
      MulOrder(group, GroupOf(p, inode), n);
    }
  }

  lemma MulOrder(a: nat, b: nat, n: nat)
    ensures a < b ==> a * n + n <= b * n
    ensures a <= b ==> a * n <= b * n
  {
    if a < b {
      assert (a + 1) * n <= b * n;
    }
  }

  /** The sector that ext2_read_inode reads. */
  ghost function InodeLba(p: Partition, tableBlock: nat, index: nat): nat {
    var offset := index * INODE_SIZE;
    BlockLba(p, tableBlock + Div(offset, BlockSize(p))) + Div(Mod(offset, BlockSize(p)), 512)
  }

  ghost function InodeOffset(p: Partition, index: nat): nat {
    Mod(Mod(index * INODE_SIZE, BlockSize(p)), 512)
  }

  /** The bytes read are those at index * 128 in the inode table, and they lie in one sector. */
  lemma InodeLocated(p: Partition, tableBlock: nat, index: nat)
    ensures 512 * InodeLba(p, tableBlock, index) + InodeOffset(p, index) == 512 * BlockLba(p, tableBlock) + INODE_SIZE * index
    ensures InodeOffset(p, index) + INODE_SIZE <= 512
  {
    hide Div, Mod, BlockSize, SectorsPerBlock;
    var offset, n := index * INODE_SIZE, SectorsPerBlock(p);
    DivMod(offset, BlockSize(p));
    var whole, part := Div(offset, BlockSize(p)), Mod(offset, BlockSize(p));
    DivMod(part, 512);
    Distribute(tableBlock, whole, n);
    InSector(index, whole, n, part);
  }

  lemma Distribute(a: nat, b: nat, n: nat)
    ensures (a + b) * n == a * n + b * n
    ensures b * (512 * n) == 512 * (b * n)
  {
  }

  lemma InSector(index: nat, whole: nat, n: nat, part: nat)
    requires index * 128 == whole * (512 * n) + part
    ensures Mod(part, 512) <= 384
  {
    assert part == 128 * (index - whole * (4 * n));
    Multiple(index - whole * (4 * n), part);
  }

  lemma Multiple(k: int, part: nat)
    requires part == 128 * k
    ensures part % 512 <= 384
  {
  }

  //  The blocks that an index block leads to, in the order the source reads them

  ghost function NonZero(s: seq<nat>): (r: seq<nat>)
    ensures |r| <= |s| && 0 !in r
  {
    if s == [] then [] else if s[|s| - 1] == 0 then NonZero(s[..|s| - 1]) else NonZero(s[..|s| - 1]) + [s[|s| - 1]]
  }

  /** The lists that f gives for each of xs, one after another. */
  ghost function Gathered(f: nat -> seq<nat>, xs: seq<nat>): seq<nat> {
    if xs == [] then [] else Gathered(f, xs[..|xs| - 1]) + f(xs[|xs| - 1])
  }

  ghost function Leaves1(p: Partition): nat -> seq<nat> { b => Entries(p, b) }

  ghost function Leaves2(p: Partition): nat -> seq<nat> { b => Gathered(Leaves1(p), NonZero(Entries(p, b))) }

  ghost function Leaves3(p: Partition): nat -> seq<nat> { b => Gathered(Leaves2(p), NonZero(Entries(p, b))) }

  /** The buffer after the listed blocks were read into it, from position `at` on; a zero leaves its place as it was. */
  ghost function Laid(p: Partition, buf: seq<seq<Byte>>, at: nat, list: seq<nat>): (r: seq<seq<Byte>>)
    ensures |r| == |buf|
  {
    seq(|buf|, i requires 0 <= i < |buf| =>
      if at <= i < at + |list| && list[i - at] != 0 then Block(p, list[i - at]) else buf[i])
  }

  lemma LaidNothing(p: Partition, buf: seq<seq<Byte>>, at: nat)
    ensures Laid(p, buf, at, []) == buf
  {
  }

  lemma LaidOne(p: Partition, buf: seq<seq<Byte>>, at: nat, list: seq<nat>, i: nat)
    requires i < |list| && at + i < |buf|
    ensures var before := Laid(p, buf, at, list[..i]);
      Laid(p, buf, at, list[..i + 1]) == if list[i] == 0 then before else before[at + i := Block(p, list[i])]
  {
    hide Block;
    var before, after := Laid(p, buf, at, list[..i]), Laid(p, buf, at, list[..i + 1]);
    forall j | 0 <= j < |buf|
      ensures after[j] == if j == at + i && list[i] != 0 then Block(p, list[i]) else before[j]
    {
      if at <= j < at + i {
        assert list[..i + 1][j - at] == list[..i][j - at];
      }
    }
  }

  lemma LaidTwice(p: Partition, buf: seq<seq<Byte>>, at: nat, xs: seq<nat>, ys: seq<nat>)
    requires at + |xs| + |ys| <= |buf|
    ensures Laid(p, Laid(p, buf, at, xs), at + |xs|, ys) == Laid(p, buf, at, xs + ys)
  {
    hide Block;
    var one, two := Laid(p, Laid(p, buf, at, xs), at + |xs|, ys), Laid(p, buf, at, xs + ys);
    forall i | 0 <= i < |buf|
      ensures one[i] == two[i]
    {
      if at <= i < at + |xs| {
        assert (xs + ys)[i - at] == xs[i - at];
      } else if at + |xs| <= i < at + |xs| + |ys| {
        assert (xs + ys)[i - at] == ys[i - at - |xs|];
      }
    }
  }

  ghost function Least(a: nat, b: nat): nat { if a < b then a else b }

  //  The readers; a false `ok` means that an assertion of the source stopped the machine

  method ReadDirect(p: Partition, list: seq<nat>, num: nat, buf: array<seq<Byte>>, at: nat) returns (ok: bool)
    requires 0 < num <= |list| && at + num <= buf.Length
    modifies buf
    ensures ok <==> list[0] != 0
    ensures buf[..] == if ok then Laid(p, old(buf[..]), at, list[..num]) else old(buf[..])
  {
    hide Block, Laid;
    if list[0] == 0 {
      return false;
    }
    LaidNothing(p, buf[..], at);
    for i := 0 to num
      invariant buf[..] == Laid(p, old(buf[..]), at, list[..i])
    {
      LaidOne(p, old(buf[..]), at, list, i);
      ghost var before := buf[..];
      if list[i] != 0 {
        buf[at + i] := Block(p, list[i]);
        assert buf[..] == before[at + i := Block(p, list[i])];
      }
    }
    return true;
  }

  ghost predicate Readable1(p: Partition, singly: nat) {
    singly > ROOT_INODE && Entries(p, singly)[0] != 0
  }

  method ReadSingly(p: Partition, singly: nat, num: nat, buf: array<seq<Byte>>, at: nat) returns (ok: bool)
    requires 0 < num <= PerBlock(p) && at + num <= buf.Length
    modifies buf
    ensures ok <==> Readable1(p, singly)
    ensures buf[..] == if ok then Laid(p, old(buf[..]), at, Entries(p, singly)[..num]) else old(buf[..])
  {
    hide Entries, Laid;
    if singly <= ROOT_INODE {
      return false;
    }
    ok := ReadDirect(p, Entries(p, singly), num, buf, at);
  }

  /** How many data blocks the first i of a list of index blocks lead to. */
  ghost function Led(f: nat -> seq<nat>, xs: seq<nat>, i: nat): nat
    requires i <= |xs|
  {
    |Gathered(f, NonZero(xs[..i]))|
  }

  /** Reading num data blocks gets as far as entry i of a list of index blocks, and the entry is there. */
  ghost predicate Visited(f: nat -> seq<nat>, xs: seq<nat>, i: nat, num: nat)
    requires i < |xs|
  {
    xs[i] != 0 && Led(f, xs, i) < num
  }

  ghost predicate SinglesReadable(p: Partition, singles: seq<nat>, num: nat) {
    forall i: nat :: i < |singles| && Visited(Leaves1(p), singles, i, num) ==> Readable1(p, singles[i])
  }

  ghost predicate Readable2(p: Partition, doubly: nat, num: nat) {
    doubly > ROOT_INODE && SinglesReadable(p, Entries(p, doubly), num)
  }

  lemma NotVisited(f: nat -> seq<nat>, xs: seq<nat>, i: nat, j: nat, num: nat)
    requires i <= j < |xs| && Led(f, xs, i) >= num
    ensures !Visited(f, xs, j, num)
  {
    hide NonZero, Gathered;
    NonZeroPrefix(xs[..j], i);
    assert xs[..j][..i] == xs[..i];
    GatheredPrefix(f, NonZero(xs[..i]), NonZero(xs[..j]));
  }

  method ReadDoubly(p: Partition, doubly: nat, num: nat, buf: array<seq<Byte>>, at: nat) returns (read: nat, ok: bool)
    requires num <= PerDoubly(p) && at + num <= buf.Length
    modifies buf
    ensures ok <==> Readable2(p, doubly, num)
    ensures ok ==> read == Least(num, |Leaves2(p)(doubly)|)
    ensures ok ==> buf[..] == Laid(p, old(buf[..]), at, Leaves2(p)(doubly)[..read])
  {
    hide Entries, Laid, Readable1, NonZero, PerBlock, Gathered;
    read := 0;
    if doubly <= ROOT_INODE {
      return 0, false;
    }
    var singles := Entries(p, doubly);
    ghost var before, leaves := buf[..], [];
    var i := 0;
    LaidNothing(p, before, at);
    GatheredNone(Leaves1(p), singles);
    while num > read && i < PerBlock(p)
      invariant i <= PerBlock(p) && leaves == Gathered(Leaves1(p), NonZero(singles[..i]))
      invariant forall j: nat :: j < i && Visited(Leaves1(p), singles, j, num) ==> Readable1(p, singles[j])
      invariant read == Least(num, |leaves|) && buf[..] == Laid(p, before, at, leaves[..read])
    {
      var singly := singles[i];
      GatheredNext(Leaves1(p), singles, i);
      if singly != 0 {
        var n := if num - read < PerBlock(p) then num - read else PerBlock(p);
        ok := ReadSingly(p, singly, n, buf, at + read);
        if !ok {
          assert Visited(Leaves1(p), singles, i, num);
          return read, false;
        }
        LayMore(p, before, at, leaves, Entries(p, singly), num, read, n);
        leaves := leaves + Entries(p, singly);
        read := read + n;
      }
      i := i + 1;
    }
    forall j: nat | i <= j < |singles|
      ensures !Visited(Leaves1(p), singles, j, num)
    {
      NotVisited(Leaves1(p), singles, i, j, num);
    }
    GatheredRest(Leaves1(p), singles, i);
    LayDone(leaves, Leaves2(p)(doubly), num, read);
    ok := true;
  }

  ghost predicate DoublesReadable(p: Partition, doubles: seq<nat>, num: nat) {
    forall i: nat :: i < |doubles| && Visited(Leaves2(p), doubles, i, num) ==>
      Readable2(p, doubles[i], Least(num - Led(Leaves2(p), doubles, i), PerDoubly(p)))
  }

  ghost predicate Readable3(p: Partition, triply: nat, num: nat) {
    triply > ROOT_INODE && DoublesReadable(p, Entries(p, triply), num)
  }

  method ReadTriply(p: Partition, triply: nat, num: nat, buf: array<seq<Byte>>, at: nat) returns (read: nat, ok: bool)
    requires at + num <= buf.Length
    modifies buf
    ensures ok <==> Readable3(p, triply, num)
    ensures ok ==> read == Least(num, |Leaves3(p)(triply)|)
    ensures ok ==> buf[..] == Laid(p, old(buf[..]), at, Leaves3(p)(triply)[..read])
  {
    hide Entries, Laid, Readable2, NonZero, PerBlock, PerDoubly, Gathered, Leaves2;
    read := 0;
    if triply <= ROOT_INODE {
      return 0, false;
    }
    var doubles := Entries(p, triply);
    ghost var before, leaves := buf[..], [];
    var i := 0;
    LaidNothing(p, before, at);
    GatheredNone(Leaves2(p), doubles);
    while num > read && i < PerBlock(p)
      invariant i <= PerBlock(p) && leaves == Gathered(Leaves2(p), NonZero(doubles[..i]))
      invariant forall j: nat :: j < i && Visited(Leaves2(p), doubles, j, num) ==>
        Readable2(p, doubles[j], Least(num - Led(Leaves2(p), doubles, j), PerDoubly(p)))
      invariant read == Least(num, |leaves|) && buf[..] == Laid(p, before, at, leaves[..read])
    {
      var doubly := doubles[i];
      GatheredNext(Leaves2(p), doubles, i);
      if doubly != 0 {
        var n := InOneDoubly(p, num - read);
        Leaves2Size(p, doubly);
        var got;
        got, ok := ReadDoubly(p, doubly, n, buf, at + read);
        if !ok {
          assert Visited(Leaves2(p), doubles, i, num);
          return read, false;
        }
        LayMore(p, before, at, leaves, Leaves2(p)(doubly), num, read, got);
        leaves := leaves + Leaves2(p)(doubly);
        read := read + got;
      }
      i := i + 1;
    }
    forall j: nat | i <= j < |doubles|
      ensures !Visited(Leaves2(p), doubles, j, num)
    {
      NotVisited(Leaves2(p), doubles, i, j, num);
    }
    GatheredRest(Leaves2(p), doubles, i);
    LayDone(leaves, Gathered(Leaves2(p), NonZero(doubles)), num, read);
    ok := true;
  }

  /** The lesser of the blocks still wanted and those below one doubly indirect block, as the source computes it. */
  method InOneDoubly(p: Partition, wanted: nat) returns (n: nat)
    ensures n == Least(wanted, PerDoubly(p))
  {
    var size := BlockSize(p);
    var most := size / 4 * size / 4;
    LeftToRight(PerBlock(p), size);
    n := if wanted < most then wanted else most;
  }

  lemma LeftToRight(n: nat, size: nat)
    requires size == 4 * n
    ensures size / 4 * size / 4 == n * n
  {
    assert size / 4 == n;
    assert n * size == 4 * (n * n);
  }

  /** Reading the next list after those already read. */
  lemma LayMore(
    p: Partition, buf: seq<seq<Byte>>, at: nat, leaves: seq<nat>, more: seq<nat>, num: nat, read: nat, n: nat)
    requires at + num <= |buf| && read == Least(num, |leaves|) && read < num && n == Least(num - read, |more|)
    ensures read + n == Least(num, |leaves + more|)
    ensures Laid(p, Laid(p, buf, at, leaves[..read]), at + read, more[..n]) == Laid(p, buf, at, (leaves + more)[..read + n])
  {
    LaidTwice(p, buf, at, leaves[..read], more[..n]);
    assert (leaves + more)[..read + n] == leaves[..read] + more[..n];
    hide Laid;
  }

  lemma LayDone(leaves: seq<nat>, all: seq<nat>, num: nat, read: nat)
    requires leaves <= all && read == Least(num, |leaves|) && (num > read ==> leaves == all)
    ensures read == Least(num, |all|) && leaves[..read] == all[..read]
  {
  }

  lemma GatheredNone(f: nat -> seq<nat>, xs: seq<nat>)
    ensures Gathered(f, NonZero(xs[..0])) == []
  {
  }

  lemma GatheredNext(f: nat -> seq<nat>, xs: seq<nat>, i: nat)
    requires i < |xs|
    ensures Gathered(f, NonZero(xs[..i + 1])) == Gathered(f, NonZero(xs[..i])) + (if xs[i] == 0 then [] else f(xs[i]))
  {
    hide NonZero;
    NonZeroStep(xs, i);
    if xs[i] != 0 {
      GatheredStep(f, NonZero(xs[..i]), xs[i]);
    } else {
      assert Gathered(f, NonZero(xs[..i])) + [] == Gathered(f, NonZero(xs[..i]));
    }
  }

  lemma GatheredRest(f: nat -> seq<nat>, xs: seq<nat>, i: nat)
    requires i <= |xs|
    ensures Gathered(f, NonZero(xs[..i])) <= Gathered(f, NonZero(xs))
    ensures i == |xs| ==> Gathered(f, NonZero(xs[..i])) == Gathered(f, NonZero(xs))
  {
    hide NonZero;
    NonZeroPrefix(xs, i);
    GatheredPrefix(f, NonZero(xs[..i]), NonZero(xs));
    assert i == |xs| ==> xs[..i] == xs;
  }

  lemma {:induction false} NonZeroPrefix(s: seq<nat>, i: nat)
    requires i <= |s|
    ensures NonZero(s[..i]) <= NonZero(s)
    decreases |s|
  {
    if i < |s| {
      var init := s[..|s| - 1];
      assert init[..i] == s[..i];
      NonZeroPrefix(init, i);
    } else {
      assert s[..i] == s;
    }
  }

  lemma NonZeroStep(s: seq<nat>, i: nat)
    requires i < |s|
    ensures NonZero(s[..i + 1]) == if s[i] == 0 then NonZero(s[..i]) else NonZero(s[..i]) + [s[i]]
  {
    assert s[..i + 1][..i] == s[..i];
  }

  lemma GatheredStep(f: nat -> seq<nat>, xs: seq<nat>, x: nat)
    ensures Gathered(f, xs + [x]) == Gathered(f, xs) + f(x)
  {
    assert (xs + [x])[..|xs|] == xs;
  }

  lemma {:induction false} GatheredPrefix(f: nat -> seq<nat>, xs: seq<nat>, ys: seq<nat>)
    requires xs <= ys
    ensures Gathered(f, xs) <= Gathered(f, ys)
    decreases |ys|
  {
    if |xs| < |ys| {
      GatheredPrefix(f, xs, ys[..|ys| - 1]);
    } else {
      assert xs == ys;
    }
  }

  /** Equal lists, one after another: element k comes from list k / n. */
  lemma {:induction false} GatheredSize(f: nat -> seq<nat>, xs: seq<nat>, n: nat)
    requires forall i :: 0 <= i < |xs| ==> |f(xs[i])| == n
    ensures |Gathered(f, xs)| == |xs| * n
  {
    if xs != [] {
      var init := xs[..|xs| - 1];
      GatheredSize(f, init, n);
      assert |xs| * n == |init| * n + n;
    }
  }

  lemma Leaves2Size(p: Partition, doubly: nat)
    ensures |Leaves2(p)(doubly)| <= PerDoubly(p)
  {
    var singles := NonZero(Entries(p, doubly));
    hide Entries, NonZero, PerBlock;
    GatheredSize(Leaves1(p), singles, PerBlock(p));
    assert |singles| * PerBlock(p) <= PerBlock(p) * PerBlock(p);
  }

  //  Whole files

  datatype Inode = Inode(sectors: nat, direct: seq<nat>, singly: nat, doubly: nat, triply: nat)

  function ZeroBlock(p: Partition): seq<Byte> { seq(BlockSize(p), _ => 0) }

  ghost function Shown(p: Partition, block: nat): seq<Byte> {
    if block == 0 then ZeroBlock(p) else Block(p, block)
  }

  ghost function At(list: seq<nat>, k: nat): nat {
    if k < |list| then list[k] else 0
  }

  /** The disk block that the source puts at position j of the file's buffer; zero when it leaves the place empty. */
  ghost function Reached(p: Partition, inode: Inode, j: nat): nat {
    var n := PerBlock(p);
    if j < 12 then At(inode.direct, j)
    else if j < 12 + n then At(Entries(p, inode.singly), j - 12)
    else if j < 12 + n + PerDoubly(p) then At(Leaves2(p)(inode.doubly), j - 12 - n)
    else At(Leaves3(p)(inode.triply), j - 12 - n - PerDoubly(p))
  }

  /** The first k blocks are read, and the others are still zero. */
  ghost predicate ReadUpTo(p: Partition, inode: Inode, buf: seq<seq<Byte>>, k: nat) {
    forall j :: 0 <= j < |buf| ==> buf[j] == if j < k then Shown(p, Reached(p, inode, j)) else ZeroBlock(p)
  }

  /** Byte k of block j of the buffer is the disk's byte at that place of the block the lists lead to. */
  ghost predicate BytesRead(p: Partition, inode: Inode, buf: seq<seq<Byte>>) {
    forall j: nat :: j < |buf| ==>
      |buf[j]| == BlockSize(p) && forall k: nat :: k < BlockSize(p) ==> buf[j][k] == DiskByte(p, Reached(p, inode, j), k)
  }

  lemma FileBytes(p: Partition, inode: Inode, buf: seq<seq<Byte>>)
    requires ReadUpTo(p, inode, buf, |buf|)
    ensures BytesRead(p, inode, buf)
  {
    hide Reached, Block, SectorsPerBlock, BlockSize;
    forall j: nat, k: nat | j < |buf| && k < BlockSize(p)
      ensures |buf[j]| == BlockSize(p) && buf[j][k] == DiskByte(p, Reached(p, inode, j), k)
    {
      BlockByte(p, Reached(p, inode, j), k);
    }
  }

  lemma ReadOn(p: Partition, inode: Inode, buf: seq<seq<Byte>>, k: nat, list: seq<nat>, k': nat)
    requires ReadUpTo(p, inode, buf, k) && k + |list| <= k'
    requires forall j :: k <= j < k' ==> Reached(p, inode, j) == At(list, j - k)
    ensures ReadUpTo(p, inode, Laid(p, buf, k, list), k')
  {
    hide Reached, Block, ZeroBlock;
    var after := Laid(p, buf, k, list);
    forall j | 0 <= j < |buf|
      ensures after[j] == if j < k' then Shown(p, Reached(p, inode, j)) else ZeroBlock(p)
    {
    }
  }

  ghost predicate Readable(p: Partition, inode: Inode, num: nat)
    requires |inode.direct| == 12
  {
    var n := PerBlock(p);
    && inode.direct[0] != 0
    && (num > 12 ==> Readable1(p, inode.singly))
    && (num > 12 + n ==> Readable2(p, inode.doubly, Least(num - 12 - n, PerDoubly(p))))
    && (num > 12 + n + PerDoubly(p) ==> Readable3(p, inode.triply, num - 12 - n - PerDoubly(p)))
  }

  /** ext2_read_file */
  method ReadFile(p: Partition, inode: Inode) returns (data: array<seq<Byte>>, ok: bool)
    requires |inode.direct| == 12
    ensures fresh(data) && data.Length == inode.sectors / SectorsPerBlock(p)
    ensures ok <==> data.Length > 0 && Readable(p, inode, data.Length)
    ensures ok ==> ReadUpTo(p, inode, data[..], data.Length)
    ensures ok ==> BytesRead(p, inode, data[..])
  {
    hide Reached, Laid, PerBlock, SectorsPerBlock, Readable1, Readable2, Readable3, ReadUpTo, BytesRead;
    var num := inode.sectors / SectorsPerBlock(p);
    data := new seq<Byte>[num](_ => ZeroBlock(p));
    ok := false;
    if num > 0 {
      NothingRead(p, inode, data[..]);
      ok := ReadStart(p, inode, num, data);
      if ok && num > 12 + PerBlock(p) {
        ok := ReadBeyond(p, inode, num, data);
      }
    }
    if ok {
      FileBytes(p, inode, data[..]);
    }
  }

  lemma NothingRead(p: Partition, inode: Inode, buf: seq<seq<Byte>>)
    requires forall j :: 0 <= j < |buf| ==> buf[j] == ZeroBlock(p)
    ensures ReadUpTo(p, inode, buf, 0)
  {
  }

  /** The direct and singly indirect parts of ext2_read_file. */
  method ReadStart(p: Partition, inode: Inode, num: nat, data: array<seq<Byte>>) returns (ok: bool)
    requires num == data.Length > 0 && |inode.direct| == 12 && ReadUpTo(p, inode, data[..], 0)
    modifies data
    ensures ok <==> inode.direct[0] != 0 && (num > 12 ==> Readable1(p, inode.singly))
    ensures ok ==> ReadUpTo(p, inode, data[..], Least(num, 12 + PerBlock(p)))
  {
    hide Reached, Laid, Entries, PerBlock, Readable1, ReadUpTo;
    var n := PerBlock(p);
    var count := if num < 12 then num else 12;
    ghost var before := data[..];
    ok := ReadDirect(p, inode.direct, count, data, 0);
    if !ok {
      return;
    }
    DirectZone(p, inode, count);
    ReadOn(p, inode, before, 0, inode.direct[..count], count);
    var read := count;
    if num > read {
      count := if num - read < n then num - read else n;
      before := data[..];
      ok := ReadSingly(p, inode.singly, count, data, read);
      if !ok {
        return;
      }
      SinglyZone(p, inode, count);
      ReadOn(p, inode, before, read, Entries(p, inode.singly)[..count], read + count);
    }
  }

  /** The doubly and triply indirect parts of ext2_read_file. */
  method ReadBeyond(p: Partition, inode: Inode, num: nat, data: array<seq<Byte>>) returns (ok: bool)
    requires num == data.Length > 12 + PerBlock(p) && ReadUpTo(p, inode, data[..], 12 + PerBlock(p))
    modifies data
    ensures var rest := num - 12 - PerBlock(p);
      ok <==> (
        && Readable2(p, inode.doubly, Least(rest, PerDoubly(p)))
        && (rest > PerDoubly(p) ==> Readable3(p, inode.triply, rest - PerDoubly(p))))
    ensures ok ==> ReadUpTo(p, inode, data[..], num)
  {
    hide Reached, Laid, Entries, Leaves2, Leaves3, PerBlock, PerDoubly, Readable2, Readable3, ReadUpTo;
    var n := PerBlock(p);
    var read := 12 + n;
    var count := InOneDoubly(p, num - read);
    var got;
    ghost var before := data[..];
    got, ok := ReadDoubly(p, inode.doubly, count, data, read);
    if !ok {
      return;
    }
    DoublyZone(p, inode, count);
    ReadOn(p, inode, before, read, Leaves2(p)(inode.doubly)[..got], read + count);
    read := read + count;
    if num > read {
      before := data[..];
      got, ok := ReadTriply(p, inode.triply, num - read, data, read);
      if !ok {
        return;
      }
      TriplyZone(p, inode, num - read);
      ReadOn(p, inode, before, read, Leaves3(p)(inode.triply)[..got], num);
    }
  }

  lemma DirectZone(p: Partition, inode: Inode, count: nat)
    requires |inode.direct| == 12 && count <= 12
    ensures forall j :: 0 <= j < count ==> Reached(p, inode, j) == At(inode.direct[..count], j)
  {
  }

  lemma SinglyZone(p: Partition, inode: Inode, count: nat)
    requires count <= PerBlock(p)
    ensures forall j :: 12 <= j < 12 + count ==> Reached(p, inode, j) == At(Entries(p, inode.singly)[..count], j - 12)
  {
    hide Entries;
  }

  lemma DoublyZone(p: Partition, inode: Inode, count: nat)
    requires count <= PerDoubly(p)
    ensures var k, all := 12 + PerBlock(p), Leaves2(p)(inode.doubly);
      forall j :: k <= j < k + count ==> Reached(p, inode, j) == At(all[..Least(count, |all|)], j - k)
  {
    hide Leaves2, PerBlock, PerDoubly;
  }

  lemma TriplyZone(p: Partition, inode: Inode, count: nat)
    ensures var k, all := 12 + PerBlock(p) + PerDoubly(p), Leaves3(p)(inode.triply);
      forall j :: k <= j < k + count ==> Reached(p, inode, j) == At(all[..Least(count, |all|)], j - k)
  {
    hide Leaves3, PerBlock, PerDoubly;
  }
}
