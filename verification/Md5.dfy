/**
 MD5 over a stream (md5.c): a context that takes a message in pieces of any size and yields the
 digest that RFC 1321 defines for the whole message.
 */
module Md5 {
  import opened Basics
  import opened Md5Block

  const WORD := 0x1_0000_0000

  //  The digest of a whole message, sections 3.1 to 3.5 of RFC 1321

  const IV := State(0x67452301, 0xefcdab89, 0x98badcfe, 0x10325476)

  function Zeros(n: nat): seq<Byte> { seq(n, _ => 0) }

  /** A word, low-order byte first. */
  function LittleEndian(n: nat): (r: seq<Byte>)
    ensures |r| == 4
  {
    [n % 256, n / 256 % 256, n / 65536 % 256, n / 16777216 % 256]
  }

  function Value(b: seq<Byte>): (n: nat)
    requires |b| == 4
    ensures n < WORD
  {
    var b0: int, b1: int, b2: int, b3: int := b[0], b[1], b[2], b[3];
    b0 + 256 * b1 + 65536 * b2 + 16777216 * b3
  }

  function Word(b: seq<Byte>): bv32
    requires |b| == 4
  {
    Value(b) as bv32
  }

  function Words(block: seq<Byte>): (r: seq<bv32>)
    requires |block| == 64
    ensures |r| == 16
  {
    seq(16, i requires 0 <= i < 16 => Word(block[4 * i..4 * i + 4]))
  }

  /** The 64-bit message length in bits, low-order word first. */
  function LengthBytes(n: nat): (r: seq<Byte>)
    ensures |r| == 8
  {
    LittleEndian(8 * n % WORD) + LittleEndian(8 * n / WORD % WORD)
  }

  function Padded(m: seq<Byte>): seq<Byte> {
    m + [0x80] + Zeros((119 - |m| % 64) % 64) + LengthBytes(|m|)
  }

  /** The state after the 64-byte blocks of m. */
  ghost function Chain(m: seq<Byte>): State {
    if |m| < 64 then IV else Compress(Chain(m[..|m| - 64]), Words(m[|m| - 64..]))
  }

  function Bytes(s: State): (r: seq<Byte>)
    ensures |r| == 16
  {
    LittleEndian(s.a as nat) + LittleEndian(s.b as nat) + LittleEndian(s.c as nat) + LittleEndian(s.d as nat)
  }

  ghost function Digest(m: seq<Byte>): seq<Byte> {
    Bytes(Chain(Padded(m)))
  }

  lemma PaddedLength(m: seq<Byte>)
    ensures |Padded(m)| % 64 == 0
    ensures |m| + 9 <= |Padded(m)| <= |m| + 72
  {
    hide Zeros, LengthBytes;
    var r := |m| % 64;
    FillUp(r);
    assert |Padded(m)| == 64 * (|m| / 64) + (r + 9 + (119 - r) % 64) by {
      ZerosLength((119 - r) % 64);
    }
  }

  lemma FillUp(r: nat)
    requires r < 64
    ensures r + 9 + (119 - r) % 64 == if r < 56 then 64 else 128
  {
  }

  lemma ZerosLength(n: nat)
    ensures |Zeros(n)| == n
  {
  }

  lemma LittleEndianInjective(x: nat, y: nat)
    requires x < WORD && y < WORD && LittleEndian(x) == LittleEndian(y)
    ensures x == y
  {
    LittleEndianValue(x);
    LittleEndianValue(y);
  }

  lemma LittleEndianValue(x: nat)
    requires x < WORD
    ensures Value(LittleEndian(x)) == x
  {
    Digits(x);
    Digits(x / 256);
    Digits(x / 65536);
    assert x / 16777216 < 256;
  }

  lemma Digits(x: nat)
    ensures x == 256 * (x / 256) + x % 256
    ensures x / 256 / 256 == x / 65536 && x / 65536 / 256 == x / 16777216
  {
  }

  /** Two messages of fewer than 2^61 bytes with the same padded form are the same message. */
  lemma PaddingInjective(m: seq<Byte>, n: seq<Byte>)
    requires |m| < 0x2000_0000_0000_0000 && |n| < 0x2000_0000_0000_0000
    requires Padded(m) == Padded(n)
    ensures m == n
  {
    var p, q := Padded(m), Padded(n);
    assert p[|p| - 8..] == LengthBytes(|m|) && q[|q| - 8..] == LengthBytes(|n|);
    LengthInjective(|m|, |n|);
    assert p[..|m|] == m && q[..|n|] == n;
  }

  lemma LengthInjective(x: nat, y: nat)
    requires x < 0x2000_0000_0000_0000 && y < 0x2000_0000_0000_0000 && LengthBytes(x) == LengthBytes(y)
    ensures x == y
  {
    hide LittleEndian;
    var x0, x1, y0, y1 := 8 * x % WORD, 8 * x / WORD, 8 * y % WORD, 8 * y / WORD;
    assert x1 < WORD && y1 < WORD;
    assert LengthBytes(x)[..4] == LittleEndian(x0) && LengthBytes(y)[..4] == LittleEndian(y0);
    assert LengthBytes(x)[4..] == LittleEndian(x1) && LengthBytes(y)[4..] == LittleEndian(y1);
    LittleEndianInjective(x0, y0);
    LittleEndianInjective(x1, y1);
  }

  /** One more block at the end of a message is one more compression. */
  lemma ChainSnoc(m: seq<Byte>, block: seq<Byte>)
    requires |block| == 64
    ensures Chain(m + block) == Compress(Chain(m), Words(block))
  {
    var all := m + block;
    assert all[..|all| - 64] == m && all[|all| - 64..] == block;
    hide Compress, Words;
  }

  //  The streaming context

  ghost function Whole(m: seq<Byte>): (r: seq<Byte>)
    ensures |r| % 64 == 0
  {
    m[..|m| - |m| % 64]
  }

  ghost function Tail(m: seq<Byte>): (r: seq<Byte>)
    ensures |r| == |m| % 64
  {
    m[|m| - |m| % 64..]
  }

  /** The two words hold the length in bits, modulo 2^64. */
  ghost predicate CountsTo(bits0: nat, bits1: nat, n: nat) {
    bits0 == 8 * n % WORD && bits1 == 8 * n / WORD % WORD
  }

  /** The carry of the two-word bit count is exact modulo 2^64. */
  lemma BitCount(n: nat, len: nat, bits0: nat, bits1: nat, sum: nat, carried: nat)
    requires len < WORD
    requires bits0 == 8 * n % WORD && bits1 == 8 * n / WORD % WORD
    requires sum == (bits0 + 8 * len % WORD) % WORD
    requires carried == if sum < bits0 then (bits1 + 1) % WORD else bits1
    ensures sum == 8 * (n + len) % WORD
    ensures (carried + len / 0x2000_0000) % WORD == 8 * (n + len) / WORD % WORD
    ensures bits0 / 8 % 64 == n % 64
  {
    var x, y := 8 * n, 8 * len;
    Halves(x);
    Halves(y);
    assert y / WORD == len / 0x2000_0000;
    var carry := CarryOut(x % WORD, y % WORD, sum);
    Joined(x + y, x / WORD + y / WORD + carry, sum);
    ModAdd(x / WORD, carry, len / 0x2000_0000);
    ByteCount(n);
  }

  lemma Halves(x: nat)
    ensures x == WORD * (x / WORD) + x % WORD
  {
  }

  lemma CarryOut(a: nat, b: nat, sum: nat) returns (carry: nat)
    requires a < WORD && b < WORD && sum == (a + b) % WORD
    ensures carry == (if sum < a then 1 else 0) && a + b == WORD * carry + sum
  {
    carry := if a + b >= WORD then 1 else 0;
  }

  lemma Joined(x: nat, high: nat, low: nat)
    requires x == WORD * high + low && low < WORD
    ensures x / WORD == high && x % WORD == low
  {
  }

  lemma ByteCount(n: nat)
    ensures 8 * n % WORD / 8 % 64 == n % 64
  {
  }

  lemma ModAdd(x: nat, c: nat, y: nat)
    ensures ((x % WORD + c) % WORD + y) % WORD == (x + y + c) % WORD
  {
  }

  lemma NothingYet()
    ensures Chain(Whole([])) == IV && Tail([]) == []
  {
    hide Compress, Words;
  }

  lemma WholeAndTail(m: seq<Byte>)
    ensures Whole(m) + Tail(m) == m
  {
  }

  lemma Fits(m: seq<Byte>, data: seq<Byte>)
    requires |m| % 64 + |data| < 64
    ensures Whole(m + data) == Whole(m) && Tail(m + data) == Tail(m) + data
  {
    assert (|m| + |data|) % 64 == |m| % 64 + |data|;
  }

  lemma Split(m: seq<Byte>, done: seq<Byte>, rest: seq<Byte>)
    requires |done| % 64 == 0 && |rest| < 64 && done + rest == m
    ensures Whole(m) == done && Tail(m) == rest
  {
    assert |m| % 64 == |rest|;
  }

  lemma OneBlock(m: seq<Byte>)
    requires |m| % 64 < 56
    ensures Padded(m) == Whole(m) + (Tail(m) + [0x80] + Zeros(55 - |m| % 64) + LengthBytes(|m|))
  {
    assert m == Whole(m) + Tail(m);
    hide LengthBytes, Zeros;
  }

  lemma TwoBlocks(m: seq<Byte>)
    requires 56 <= |m| % 64
    ensures Padded(m) == Whole(m) + (Tail(m) + [0x80] + Zeros(63 - |m| % 64)) + (Zeros(56) + LengthBytes(|m|))
  {
    hide LengthBytes, Zeros, Whole, Tail;
    WholeAndTail(m);
    ZerosJoin(63 - |m| % 64, 56);
    Regroup(Whole(m), Tail(m) + [0x80], Zeros(63 - |m| % 64), Zeros(56), LengthBytes(|m|));
  }

  lemma Regroup(a: seq<Byte>, b: seq<Byte>, c: seq<Byte>, d: seq<Byte>, e: seq<Byte>)
    ensures a + b + (c + d) + e == a + (b + c) + (d + e)
  {
  }

  lemma ZerosJoin(a: nat, b: nat)
    ensures Zeros(a + b) == Zeros(a) + Zeros(b)
  {
  }

  ghost function Flatten(chunks: seq<seq<Byte>>): seq<Byte> {
    if chunks == [] then [] else Flatten(chunks[..|chunks| - 1]) + chunks[|chunks| - 1]
  }

  class Context {
    var buf: State
    var bits0: nat
    var bits1: nat
    const input: array<Byte>
    ghost var message: seq<Byte>

    ghost predicate Valid()
      reads this, input
    {
      && input.Length == 64
      && buf == Chain(Whole(message))
      && input[..|message| % 64] == Tail(message)
      && CountsTo(bits0, bits1, |message|)
    }

    constructor ()
      ensures Valid() && message == [] && fresh(input)
    {
      hide Chain, Whole, Tail;
      NothingYet();
      input := new Byte[64];
      buf := IV;
      bits0, bits1 := 0, 0;
      message := [];
    }

    /** Starts a new message in a context that may have been used before. */
    method Init()
      requires input.Length == 64
      modifies this
      ensures Valid() && message == []
    {
      hide Chain, Whole, Tail;
      NothingYet();
      buf := IV;
      bits0, bits1 := 0, 0;
      message := [];
    }

    method Copy(at: nat, data: seq<Byte>)
      requires input.Length == 64 && at + |data| <= 64
      modifies input
      ensures input[..] == old(input[..at]) + data + old(input[at + |data|..])
    {
      for i := 0 to |data|
        invariant forall k :: 0 <= k < 64 ==>
          input[k] == if at <= k < at + i then data[k - at] else old(input[k])
      {
        input[at + i] := data[i];
      }
    }

    method TransformInput(ghost before: seq<Byte>)
      requires input.Length == 64 && buf == Chain(before)
      modifies this`buf
      ensures buf == Chain(before + input[..])
    {
      ChainSnoc(before, input[..]);
      hide Compress, Words, Chain;
      buf := Transform(buf, Words(input[..]));
    }

    method Count(len: nat) returns (t: nat)
      requires Valid() && len < WORD
      modifies this`bits0, this`bits1
      ensures t == |message| % 64
      ensures CountsTo(bits0, bits1, |message| + len)
    {
      t := bits0;
      bits0 := (t + 8 * len % WORD) % WORD;
      var high := bits1;
      if bits0 < t {
        bits1 := (bits1 + 1) % WORD;
      }
      BitCount(|message|, len, t, high, bits0, bits1);
      bits1 := (bits1 + len / 0x2000_0000) % WORD;
      t := t / 8 % 64;
    }

    /** Completes the block that was begun, and hashes it. */
    method TopUp(ghost m: seq<Byte>, t: nat, part: seq<Byte>)
      requires input.Length == 64 && t == |m| % 64 && t + |part| == 64
      requires buf == Chain(Whole(m)) && input[..t] == Tail(m)
      modifies this`buf, input
      ensures buf == Chain(m + part)
    {
      hide Chain, Whole, Tail;
      Copy(t, part);
      assert input[..] == Tail(m) + part;
      TransformInput(Whole(m));
      WholeAndTail(m);
      assert m + part == Whole(m) + (Tail(m) + part);
    }

    /** Adds a piece that does not complete the block that was begun. */
    method Begin(ghost m: seq<Byte>, t: nat, data: seq<Byte>)
      requires input.Length == 64 && t == |m| % 64 && t + |data| < 64
      requires input[..t] == Tail(m)
      modifies input
      ensures Whole(m + data) == Whole(m) && input[..|m + data| % 64] == Tail(m + data)
    {
      hide Whole, Tail;
      Fits(m, data);
      Copy(t, data);
      assert input[..t + |data|] == Tail(m) + data;
    }

    method Update(data: seq<Byte>)
      requires Valid() && |data| < WORD
      modifies this, input
      ensures Valid() && message == old(message) + data
    {
      hide Chain, Whole, Tail, CountsTo;
      ghost var m := message;
      var t := Count(|data|);
      message := m + data;
      if t == 0 {
        assert Whole(m) == m by {
          WholeAndTail(m);
        }
        Absorb(m, data);
      } else if |data| < 64 - t {
        Begin(m, t, data);
      } else {
        TopUp(m, t, data[..64 - t]);
        assert m + data == (m + data[..64 - t]) + data[64 - t..];
        Absorb(m + data[..64 - t], data[64 - t..]);
      }
    }

    /** The whole blocks of what is left, and the bytes after them. */
    method Absorb(ghost before: seq<Byte>, data: seq<Byte>)
      requires input.Length == 64 && |before| % 64 == 0 && buf == Chain(before)
      modifies this`buf, input
      ensures buf == Chain(Whole(before + data))
      ensures input[..|before + data| % 64] == Tail(before + data)
    {
      hide Chain, Whole, Tail;
      var rest := data;
      ghost var done := before;
      while |rest| >= 64
        invariant |done| % 64 == 0 && done + rest == before + data && buf == Chain(done)
      {
        Copy(0, rest[..64]);
        assert input[..] == rest[..64];
        TransformInput(done);
        done := done + input[..];
        rest := rest[64..];
      }
      Copy(0, rest);
      Split(before + data, done, rest);
      assert input[..|rest|] == rest;
    }

    /** Ends the padding with the length, and hashes the last block. */
    method FinalBlock(ghost done: seq<Byte>, ghost start: seq<Byte>)
      requires input.Length == 64 && buf == Chain(done)
      requires input[..56] == start
      modifies this`buf, input
      ensures buf == Chain(done + (start + (LittleEndian(bits0) + LittleEndian(bits1))))
    {
      hide Chain, LittleEndian;
      Copy(56, LittleEndian(bits0));
      Copy(60, LittleEndian(bits1));
      assert input[..] == start + (LittleEndian(bits0) + LittleEndian(bits1));
      TransformInput(done);
    }

    method Finish() returns (digest: seq<Byte>)
      requires Valid()
      modifies this, input
      ensures digest == Digest(old(message))
      ensures buf == State(0, 0, 0, 0) && bits0 == 0 && bits1 == 0 && input[..] == Zeros(64)
    {
      hide Chain, Bytes, LittleEndian, Padded, Whole;
      ghost var m := message;
      ghost var done := Whole(m);
      ghost var r := |m| % 64;
      var count := bits0 / 8 % 64;
      assert count == r by {
        BitCount(|m|, 0, bits0, bits1, bits0, bits1);
      }
      Copy(count, [0x80]);
      assert input[..r + 1] == Tail(m) + [0x80];
      count := 64 - 1 - count;
      ghost var start;
      if count < 8 {
        Copy(64 - count, Zeros(count));
        assert input[..] == Tail(m) + [0x80] + Zeros(count);
        TransformInput(done);
        done := done + input[..];
        Copy(0, Zeros(56));
        start := Zeros(56);
        TwoBlocks(m);
      } else {
        Copy(64 - count, Zeros(count - 8));
        start := Tail(m) + [0x80] + Zeros(count - 8);
        OneBlock(m);
      }
      assert input[..56] == start;
      assert Padded(m) == done + (start + (LittleEndian(bits0) + LittleEndian(bits1)));
      FinalBlock(done, start);
      digest := Bytes(buf);
      buf := State(0, 0, 0, 0);
      bits0, bits1 := 0, 0;
      Copy(0, Zeros(64));
    }
  }

  /** The digest does not depend on how the message is cut into pieces. */
  method DigestOf(chunks: seq<seq<Byte>>) returns (digest: seq<Byte>)
    requires forall i :: 0 <= i < |chunks| ==> |chunks[i]| < WORD
    ensures digest == Digest(Flatten(chunks))
  {
    var context := new Context();
    for i := 0 to |chunks|
      invariant fresh(context) && fresh(context.input) && context.Valid()
      invariant context.message == Flatten(chunks[..i])
    {
      assert chunks[..i + 1][..i] == chunks[..i];
      context.Update(chunks[i]);
    }
    assert chunks[..|chunks|] == chunks;
    digest := context.Finish();
  }
}
