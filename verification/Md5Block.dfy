/**
 MD5 (RFC 1321): the reference algorithm, and the block transform of md5.c proved equal to it.
 */
module Md5Block {

  datatype State = State(a: bv32, b: bv32, c: bv32, d: bv32)

  /** Addition modulo 2^32. */
  function Add(x: bv32, y: bv32): bv32 { x + y }

  function RotateLeft(w: bv32, s: bv6): bv32
    requires 0 < s < 32
  {
    (w << s) | (w >> (32 - s))
  }

  //  Section 3.4 of RFC 1321

  function F(x: bv32, y: bv32, z: bv32): bv32 { (x & y) | (!x & z) }
  function G(x: bv32, y: bv32, z: bv32): bv32 { (x & z) | (y & !z) }
  function H(x: bv32, y: bv32, z: bv32): bv32 { x ^ y ^ z }
  function I(x: bv32, y: bv32, z: bv32): bv32 { y ^ (x | !z) }

  /** The table T of the integer parts of 4294967296 times abs(sin(i)), by round. */
  const T1: seq<bv32> := [
    0xd76aa478, 0xe8c7b756, 0x242070db, 0xc1bdceee,
    0xf57c0faf, 0x4787c62a, 0xa8304613, 0xfd469501,
    0x698098d8, 0x8b44f7af, 0xffff5bb1, 0x895cd7be,
    0x6b901122, 0xfd987193, 0xa679438e, 0x49b40821]
  const T2: seq<bv32> := [
    0xf61e2562, 0xc040b340, 0x265e5a51, 0xe9b6c7aa,
    0xd62f105d, 0x02441453, 0xd8a1e681, 0xe7d3fbc8,
    0x21e1cde6, 0xc33707d6, 0xf4d50d87, 0x455a14ed,
    0xa9e3e905, 0xfcefa3f8, 0x676f02d9, 0x8d2a4c8a]
  const T3: seq<bv32> := [
    0xfffa3942, 0x8771f681, 0x6d9d6122, 0xfde5380c,
    0xa4beea44, 0x4bdecfa9, 0xf6bb4b60, 0xbebfbc70,
    0x289b7ec6, 0xeaa127fa, 0xd4ef3085, 0x04881d05,
    0xd9d4d039, 0xe6db99e5, 0x1fa27cf8, 0xc4ac5665]
  const T4: seq<bv32> := [
    0xf4292244, 0x432aff97, 0xab9423a7, 0xfc93a039,
    0x655b59c3, 0x8f0ccc92, 0xffeff47d, 0x85845dd1,
    0x6fa87e4f, 0xfe2ce6e0, 0xa3014314, 0x4e0811a1,
    0xf7537e82, 0xbd3af235, 0x2ad7d2bb, 0xeb86d391]

  ghost function T(n: nat): bv32
    requires n < 64
  {
    if n < 16 then T1[n] else if n < 32 then T2[n - 16] else if n < 48 then T3[n - 32] else T4[n - 48]
  }

  /** One of the 64 operations: the new value of a, before the roles of the four words rotate. */
  ghost function RfcOperation(n: nat, s: State, x: seq<bv32>): bv32
    requires n < 64 && |x| == 16
  {
    var mix := if n < 16 then F(s.b, s.c, s.d) else if n < 32 then G(s.b, s.c, s.d)
               else if n < 48 then H(s.b, s.c, s.d) else I(s.b, s.c, s.d);
    Add(s.b, RotateLeft(Add(s.a, Add(mix, Add(x[RfcIndex(n)], T(n)))), RfcShift(n)))
  }

  /** The message word an operation uses. */
  ghost function RfcIndex(n: nat): (k: nat)
    requires n < 64
    ensures k < 16
  {
    if n < 16 then n else if n < 32 then (5 * n + 1) % 16 else if n < 48 then (3 * n + 5) % 16 else 7 * n % 16
  }

  ghost function RfcShift(n: nat): (s: bv6)
    requires n < 64
    ensures 0 < s < 32
  {
    var col := n % 4;
    if n < 16 then (if col == 0 then 7 else if col == 1 then 12 else if col == 2 then 17 else 22)
    else if n < 32 then (if col == 0 then 5 else if col == 1 then 9 else if col == 2 then 14 else 20)
    else if n < 48 then (if col == 0 then 4 else if col == 1 then 11 else if col == 2 then 16 else 23)
    else (if col == 0 then 6 else if col == 1 then 10 else if col == 2 then 15 else 21)
  }

  /** The state after the first n operations; each one rotates the roles of the words. */
  ghost function RfcRun(n: nat, s: State, x: seq<bv32>): State
    requires n <= 64 && |x| == 16
  {
    if n == 0 then s
    else var t := RfcRun(n - 1, s, x); State(t.d, RfcOperation(n - 1, t, x), t.b, t.c)
  }

  ghost function Compress(s: State, x: seq<bv32>): State
    requires |x| == 16
  {
    var t := RfcRun(64, s, x);
    State(Add(s.a, t.a), Add(s.b, t.b), Add(s.c, t.c), Add(s.d, t.d))
  }

  //  The macros of md5.c

  function F1(x: bv32, y: bv32, z: bv32): bv32 { z ^ (x & (y ^ z)) }
  function F2(x: bv32, y: bv32, z: bv32): bv32 { F1(z, x, y) }
  function F3(x: bv32, y: bv32, z: bv32): bv32 { x ^ y ^ z }
  function F4(x: bv32, y: bv32, z: bv32): bv32 { y ^ (x | !z) }

  function Step(f: bv32, w: bv32, x: bv32, data: bv32, s: bv6): bv32
    requires 0 < s < 32
  {
    Add(RotateLeft(Add(w, Add(f, data)), s), x)
  }

  /** The optimised selection functions are those of the standard. */
  lemma SelectionIdentities(x: bv32, y: bv32, z: bv32)
    ensures F1(x, y, z) == F(x, y, z)
    ensures F2(x, y, z) == G(x, y, z)
    ensures F3(x, y, z) == H(x, y, z)
    ensures F4(x, y, z) == I(x, y, z)
  {
    hide F, G, H, I, F1, F2, F3, F4;
    FirstIdentity(x, y, z);
    SecondIdentity(x, y, z);
    OtherIdentities(x, y, z);
  }

  lemma FirstIdentity(x: bv32, y: bv32, z: bv32)
    ensures F1(x, y, z) == F(x, y, z)
  {
    SelectF(x, y, z);
  }

  lemma SecondIdentity(x: bv32, y: bv32, z: bv32)
    ensures F2(x, y, z) == G(x, y, z)
  {
    SelectG(x, y, z);
  }

  lemma OtherIdentities(x: bv32, y: bv32, z: bv32)
    ensures F3(x, y, z) == H(x, y, z) && F4(x, y, z) == I(x, y, z)
  {
  }

  lemma SelectF(x: bv32, y: bv32, z: bv32)
    ensures z ^ (x & (y ^ z)) == (x & y) | (!x & z)
  {
  }

  lemma SelectG(x: bv32, y: bv32, z: bv32)
    ensures y ^ (z & (x ^ y)) == (x & z) | (y & !z)
  {
  }

  lemma StepIsOperation(f: bv32, w: bv32, x: bv32, data: bv32, k: bv32, s: bv6)
    requires 0 < s < 32
    ensures Step(f, w, x, Add(data, k), s) == Add(x, RotateLeft(Add(w, Add(f, Add(data, k))), s))
  {
    hide RotateLeft, Add;
    AddCommutative(RotateLeft(Add(w, Add(f, Add(data, k))), s), x);
  }

  lemma AddCommutative(x: bv32, y: bv32)
    ensures Add(x, y) == Add(y, x)
  {
  }

  ghost function Selection(n: nat, x: bv32, y: bv32, z: bv32): bv32 {
    if n < 16 then F1(x, y, z) else if n < 32 then F2(x, y, z) else if n < 48 then F3(x, y, z) else F4(x, y, z)
  }

  /** One MD5STEP is one operation of the standard. */
  lemma Advance(n: nat, s0: State, xs: seq<bv32>, w: bv32, x: bv32, y: bv32, z: bv32)
    requires n < 64 && |xs| == 16 && RfcRun(n, s0, xs) == State(w, x, y, z)
    ensures RfcRun(n + 1, s0, xs) == State(z, Step(Selection(n, x, y, z), w, x, Add(xs[RfcIndex(n)], T(n)), RfcShift(n)), x, y)
  {
    hide RotateLeft, Step, T, F, G, H, I, F1, F2, F3, F4, RfcIndex, RfcShift, Add;
    SelectionIdentities(x, y, z);
    StepIsOperation(Selection(n, x, y, z), w, x, xs[RfcIndex(n)], T(n), RfcShift(n));
  }

  lemma Parameters1a()
    ensures T(0) == 0xd76aa478 && RfcIndex(0) == 0 && RfcShift(0) == 7
    ensures T(1) == 0xe8c7b756 && RfcIndex(1) == 1 && RfcShift(1) == 12
    ensures T(2) == 0x242070db && RfcIndex(2) == 2 && RfcShift(2) == 17
    ensures T(3) == 0xc1bdceee && RfcIndex(3) == 3 && RfcShift(3) == 22
    ensures T(4) == 0xf57c0faf && RfcIndex(4) == 4 && RfcShift(4) == 7
    ensures T(5) == 0x4787c62a && RfcIndex(5) == 5 && RfcShift(5) == 12
    ensures T(6) == 0xa8304613 && RfcIndex(6) == 6 && RfcShift(6) == 17
    ensures T(7) == 0xfd469501 && RfcIndex(7) == 7 && RfcShift(7) == 22
  {
  }

  lemma Parameters1b()
    ensures T(8) == 0x698098d8 && RfcIndex(8) == 8 && RfcShift(8) == 7
    ensures T(9) == 0x8b44f7af && RfcIndex(9) == 9 && RfcShift(9) == 12
    ensures T(10) == 0xffff5bb1 && RfcIndex(10) == 10 && RfcShift(10) == 17
    ensures T(11) == 0x895cd7be && RfcIndex(11) == 11 && RfcShift(11) == 22
    ensures T(12) == 0x6b901122 && RfcIndex(12) == 12 && RfcShift(12) == 7
    ensures T(13) == 0xfd987193 && RfcIndex(13) == 13 && RfcShift(13) == 12
    ensures T(14) == 0xa679438e && RfcIndex(14) == 14 && RfcShift(14) == 17
    ensures T(15) == 0x49b40821 && RfcIndex(15) == 15 && RfcShift(15) == 22
  {
  }

  /** Operations 0 to 15. */
  method Round1(s: State, x: seq<bv32>, ghost s0: State) returns (r: State)
    requires |x| == 16 && s == RfcRun(0, s0, x)
    ensures r == RfcRun(16, s0, x)
  {
    hide Step, F1, F2, F3, F4, RfcRun, Add, T, RfcIndex, RfcShift;
    Parameters1a();
    Parameters1b();
    var a, b, c, d := s.a, s.b, s.c, s.d;
    Advance(0, s0, x, a, b, c, d);
    a := Step(F1(b, c, d), a, b, Add(x[0], 0xd76aa478), 7);
    Advance(1, s0, x, d, a, b, c);
    d := Step(F1(a, b, c), d, a, Add(x[1], 0xe8c7b756), 12);
    Advance(2, s0, x, c, d, a, b);
    c := Step(F1(d, a, b), c, d, Add(x[2], 0x242070db), 17);
    Advance(3, s0, x, b, c, d, a);
    b := Step(F1(c, d, a), b, c, Add(x[3], 0xc1bdceee), 22);
    Advance(4, s0, x, a, b, c, d);
    a := Step(F1(b, c, d), a, b, Add(x[4], 0xf57c0faf), 7);
    Advance(5, s0, x, d, a, b, c);
    d := Step(F1(a, b, c), d, a, Add(x[5], 0x4787c62a), 12);
    Advance(6, s0, x, c, d, a, b);
    c := Step(F1(d, a, b), c, d, Add(x[6], 0xa8304613), 17);
    Advance(7, s0, x, b, c, d, a);
    b := Step(F1(c, d, a), b, c, Add(x[7], 0xfd469501), 22);
    Advance(8, s0, x, a, b, c, d);
    a := Step(F1(b, c, d), a, b, Add(x[8], 0x698098d8), 7);
    Advance(9, s0, x, d, a, b, c);
    d := Step(F1(a, b, c), d, a, Add(x[9], 0x8b44f7af), 12);
    Advance(10, s0, x, c, d, a, b);
    c := Step(F1(d, a, b), c, d, Add(x[10], 0xffff5bb1), 17);
    Advance(11, s0, x, b, c, d, a);
    b := Step(F1(c, d, a), b, c, Add(x[11], 0x895cd7be), 22);
    Advance(12, s0, x, a, b, c, d);
    a := Step(F1(b, c, d), a, b, Add(x[12], 0x6b901122), 7);
    Advance(13, s0, x, d, a, b, c);
    d := Step(F1(a, b, c), d, a, Add(x[13], 0xfd987193), 12);
    Advance(14, s0, x, c, d, a, b);
    c := Step(F1(d, a, b), c, d, Add(x[14], 0xa679438e), 17);
    Advance(15, s0, x, b, c, d, a);
    b := Step(F1(c, d, a), b, c, Add(x[15], 0x49b40821), 22);
    r := State(a, b, c, d);
  }

  lemma Parameters2a()
    ensures T(16) == 0xf61e2562 && RfcIndex(16) == 1 && RfcShift(16) == 5
    ensures T(17) == 0xc040b340 && RfcIndex(17) == 6 && RfcShift(17) == 9
    ensures T(18) == 0x265e5a51 && RfcIndex(18) == 11 && RfcShift(18) == 14
    ensures T(19) == 0xe9b6c7aa && RfcIndex(19) == 0 && RfcShift(19) == 20
    ensures T(20) == 0xd62f105d && RfcIndex(20) == 5 && RfcShift(20) == 5
    ensures T(21) == 0x02441453 && RfcIndex(21) == 10 && RfcShift(21) == 9
    ensures T(22) == 0xd8a1e681 && RfcIndex(22) == 15 && RfcShift(22) == 14
    ensures T(23) == 0xe7d3fbc8 && RfcIndex(23) == 4 && RfcShift(23) == 20
  {
  }

  lemma Parameters2b()
    ensures T(24) == 0x21e1cde6 && RfcIndex(24) == 9 && RfcShift(24) == 5
    ensures T(25) == 0xc33707d6 && RfcIndex(25) == 14 && RfcShift(25) == 9
    ensures T(26) == 0xf4d50d87 && RfcIndex(26) == 3 && RfcShift(26) == 14
    ensures T(27) == 0x455a14ed && RfcIndex(27) == 8 && RfcShift(27) == 20
    ensures T(28) == 0xa9e3e905 && RfcIndex(28) == 13 && RfcShift(28) == 5
    ensures T(29) == 0xfcefa3f8 && RfcIndex(29) == 2 && RfcShift(29) == 9
    ensures T(30) == 0x676f02d9 && RfcIndex(30) == 7 && RfcShift(30) == 14
    ensures T(31) == 0x8d2a4c8a && RfcIndex(31) == 12 && RfcShift(31) == 20
  {
  }

  /** Operations 16 to 31. */
  method Round2(s: State, x: seq<bv32>, ghost s0: State) returns (r: State)
    requires |x| == 16 && s == RfcRun(16, s0, x)
    ensures r == RfcRun(32, s0, x)
  {
    hide Step, F1, F2, F3, F4, RfcRun, Add, T, RfcIndex, RfcShift;
    Parameters2a();
    Parameters2b();
    var a, b, c, d := s.a, s.b, s.c, s.d;
    Advance(16, s0, x, a, b, c, d);
    a := Step(F2(b, c, d), a, b, Add(x[1], 0xf61e2562), 5);
    Advance(17, s0, x, d, a, b, c);
    d := Step(F2(a, b, c), d, a, Add(x[6], 0xc040b340), 9);
    Advance(18, s0, x, c, d, a, b);
    c := Step(F2(d, a, b), c, d, Add(x[11], 0x265e5a51), 14);
    Advance(19, s0, x, b, c, d, a);
    b := Step(F2(c, d, a), b, c, Add(x[0], 0xe9b6c7aa), 20);
    Advance(20, s0, x, a, b, c, d);
    a := Step(F2(b, c, d), a, b, Add(x[5], 0xd62f105d), 5);
    Advance(21, s0, x, d, a, b, c);
    d := Step(F2(a, b, c), d, a, Add(x[10], 0x02441453), 9);
    Advance(22, s0, x, c, d, a, b);
    c := Step(F2(d, a, b), c, d, Add(x[15], 0xd8a1e681), 14);
    Advance(23, s0, x, b, c, d, a);
    b := Step(F2(c, d, a), b, c, Add(x[4], 0xe7d3fbc8), 20);
    Advance(24, s0, x, a, b, c, d);
    a := Step(F2(b, c, d), a, b, Add(x[9], 0x21e1cde6), 5);
    Advance(25, s0, x, d, a, b, c);
    d := Step(F2(a, b, c), d, a, Add(x[14], 0xc33707d6), 9);
    Advance(26, s0, x, c, d, a, b);
    c := Step(F2(d, a, b), c, d, Add(x[3], 0xf4d50d87), 14);
    Advance(27, s0, x, b, c, d, a);
    b := Step(F2(c, d, a), b, c, Add(x[8], 0x455a14ed), 20);
    Advance(28, s0, x, a, b, c, d);
    a := Step(F2(b, c, d), a, b, Add(x[13], 0xa9e3e905), 5);
    Advance(29, s0, x, d, a, b, c);
    d := Step(F2(a, b, c), d, a, Add(x[2], 0xfcefa3f8), 9);
    Advance(30, s0, x, c, d, a, b);
    c := Step(F2(d, a, b), c, d, Add(x[7], 0x676f02d9), 14);
    Advance(31, s0, x, b, c, d, a);
    b := Step(F2(c, d, a), b, c, Add(x[12], 0x8d2a4c8a), 20);
    r := State(a, b, c, d);
  }

  lemma Parameters3a()
    ensures T(32) == 0xfffa3942 && RfcIndex(32) == 5 && RfcShift(32) == 4
    ensures T(33) == 0x8771f681 && RfcIndex(33) == 8 && RfcShift(33) == 11
    ensures T(34) == 0x6d9d6122 && RfcIndex(34) == 11 && RfcShift(34) == 16
    ensures T(35) == 0xfde5380c && RfcIndex(35) == 14 && RfcShift(35) == 23
    ensures T(36) == 0xa4beea44 && RfcIndex(36) == 1 && RfcShift(36) == 4
    ensures T(37) == 0x4bdecfa9 && RfcIndex(37) == 4 && RfcShift(37) == 11
    ensures T(38) == 0xf6bb4b60 && RfcIndex(38) == 7 && RfcShift(38) == 16
    ensures T(39) == 0xbebfbc70 && RfcIndex(39) == 10 && RfcShift(39) == 23
  {
  }

  lemma Parameters3b()
    ensures T(40) == 0x289b7ec6 && RfcIndex(40) == 13 && RfcShift(40) == 4
    ensures T(41) == 0xeaa127fa && RfcIndex(41) == 0 && RfcShift(41) == 11
    ensures T(42) == 0xd4ef3085 && RfcIndex(42) == 3 && RfcShift(42) == 16
    ensures T(43) == 0x04881d05 && RfcIndex(43) == 6 && RfcShift(43) == 23
    ensures T(44) == 0xd9d4d039 && RfcIndex(44) == 9 && RfcShift(44) == 4
    ensures T(45) == 0xe6db99e5 && RfcIndex(45) == 12 && RfcShift(45) == 11
    ensures T(46) == 0x1fa27cf8 && RfcIndex(46) == 15 && RfcShift(46) == 16
    ensures T(47) == 0xc4ac5665 && RfcIndex(47) == 2 && RfcShift(47) == 23
  {
  }

  /** Operations 32 to 47. */
  method Round3(s: State, x: seq<bv32>, ghost s0: State) returns (r: State)
    requires |x| == 16 && s == RfcRun(32, s0, x)
    ensures r == RfcRun(48, s0, x)
  {
    hide Step, F1, F2, F3, F4, RfcRun, Add, T, RfcIndex, RfcShift;
    Parameters3a();
    Parameters3b();
    var a, b, c, d := s.a, s.b, s.c, s.d;
    Advance(32, s0, x, a, b, c, d);
    a := Step(F3(b, c, d), a, b, Add(x[5], 0xfffa3942), 4);
    Advance(33, s0, x, d, a, b, c);
    d := Step(F3(a, b, c), d, a, Add(x[8], 0x8771f681), 11);
    Advance(34, s0, x, c, d, a, b);
    c := Step(F3(d, a, b), c, d, Add(x[11], 0x6d9d6122), 16);
    Advance(35, s0, x, b, c, d, a);
    b := Step(F3(c, d, a), b, c, Add(x[14], 0xfde5380c), 23);
    Advance(36, s0, x, a, b, c, d);
    a := Step(F3(b, c, d), a, b, Add(x[1], 0xa4beea44), 4);
    Advance(37, s0, x, d, a, b, c);
    d := Step(F3(a, b, c), d, a, Add(x[4], 0x4bdecfa9), 11);
    Advance(38, s0, x, c, d, a, b);
    c := Step(F3(d, a, b), c, d, Add(x[7], 0xf6bb4b60), 16);
    Advance(39, s0, x, b, c, d, a);
    b := Step(F3(c, d, a), b, c, Add(x[10], 0xbebfbc70), 23);
    Advance(40, s0, x, a, b, c, d);
    a := Step(F3(b, c, d), a, b, Add(x[13], 0x289b7ec6), 4);
    Advance(41, s0, x, d, a, b, c);
    d := Step(F3(a, b, c), d, a, Add(x[0], 0xeaa127fa), 11);
    Advance(42, s0, x, c, d, a, b);
    c := Step(F3(d, a, b), c, d, Add(x[3], 0xd4ef3085), 16);
    Advance(43, s0, x, b, c, d, a);
    b := Step(F3(c, d, a), b, c, Add(x[6], 0x04881d05), 23);
    Advance(44, s0, x, a, b, c, d);
    a := Step(F3(b, c, d), a, b, Add(x[9], 0xd9d4d039), 4);
    Advance(45, s0, x, d, a, b, c);
    d := Step(F3(a, b, c), d, a, Add(x[12], 0xe6db99e5), 11);
    Advance(46, s0, x, c, d, a, b);
    c := Step(F3(d, a, b), c, d, Add(x[15], 0x1fa27cf8), 16);
    Advance(47, s0, x, b, c, d, a);
    b := Step(F3(c, d, a), b, c, Add(x[2], 0xc4ac5665), 23);
    r := State(a, b, c, d);
  }

  lemma Parameters4a()
    ensures T(48) == 0xf4292244 && RfcIndex(48) == 0 && RfcShift(48) == 6
    ensures T(49) == 0x432aff97 && RfcIndex(49) == 7 && RfcShift(49) == 10
    ensures T(50) == 0xab9423a7 && RfcIndex(50) == 14 && RfcShift(50) == 15
    ensures T(51) == 0xfc93a039 && RfcIndex(51) == 5 && RfcShift(51) == 21
    ensures T(52) == 0x655b59c3 && RfcIndex(52) == 12 && RfcShift(52) == 6
    ensures T(53) == 0x8f0ccc92 && RfcIndex(53) == 3 && RfcShift(53) == 10
    ensures T(54) == 0xffeff47d && RfcIndex(54) == 10 && RfcShift(54) == 15
    ensures T(55) == 0x85845dd1 && RfcIndex(55) == 1 && RfcShift(55) == 21
  {
  }

  lemma Parameters4b()
    ensures T(56) == 0x6fa87e4f && RfcIndex(56) == 8 && RfcShift(56) == 6
    ensures T(57) == 0xfe2ce6e0 && RfcIndex(57) == 15 && RfcShift(57) == 10
    ensures T(58) == 0xa3014314 && RfcIndex(58) == 6 && RfcShift(58) == 15
    ensures T(59) == 0x4e0811a1 && RfcIndex(59) == 13 && RfcShift(59) == 21
    ensures T(60) == 0xf7537e82 && RfcIndex(60) == 4 && RfcShift(60) == 6
    ensures T(61) == 0xbd3af235 && RfcIndex(61) == 11 && RfcShift(61) == 10
    ensures T(62) == 0x2ad7d2bb && RfcIndex(62) == 2 && RfcShift(62) == 15
    ensures T(63) == 0xeb86d391 && RfcIndex(63) == 9 && RfcShift(63) == 21
  {
  }

  /** Operations 48 to 63. */
  method Round4(s: State, x: seq<bv32>, ghost s0: State) returns (r: State)
    requires |x| == 16 && s == RfcRun(48, s0, x)
    ensures r == RfcRun(64, s0, x)
  {
    hide Step, F1, F2, F3, F4, RfcRun, Add, T, RfcIndex, RfcShift;
    Parameters4a();
    Parameters4b();
    var a, b, c, d := s.a, s.b, s.c, s.d;
    Advance(48, s0, x, a, b, c, d);
    a := Step(F4(b, c, d), a, b, Add(x[0], 0xf4292244), 6);
    Advance(49, s0, x, d, a, b, c);
    d := Step(F4(a, b, c), d, a, Add(x[7], 0x432aff97), 10);
    Advance(50, s0, x, c, d, a, b);
    c := Step(F4(d, a, b), c, d, Add(x[14], 0xab9423a7), 15);
    Advance(51, s0, x, b, c, d, a);
    b := Step(F4(c, d, a), b, c, Add(x[5], 0xfc93a039), 21);
    Advance(52, s0, x, a, b, c, d);
    a := Step(F4(b, c, d), a, b, Add(x[12], 0x655b59c3), 6);
    Advance(53, s0, x, d, a, b, c);
    d := Step(F4(a, b, c), d, a, Add(x[3], 0x8f0ccc92), 10);
    Advance(54, s0, x, c, d, a, b);
    c := Step(F4(d, a, b), c, d, Add(x[10], 0xffeff47d), 15);
    Advance(55, s0, x, b, c, d, a);
    b := Step(F4(c, d, a), b, c, Add(x[1], 0x85845dd1), 21);
    Advance(56, s0, x, a, b, c, d);
    a := Step(F4(b, c, d), a, b, Add(x[8], 0x6fa87e4f), 6);
    Advance(57, s0, x, d, a, b, c);
    d := Step(F4(a, b, c), d, a, Add(x[15], 0xfe2ce6e0), 10);
    Advance(58, s0, x, c, d, a, b);
    c := Step(F4(d, a, b), c, d, Add(x[6], 0xa3014314), 15);
    Advance(59, s0, x, b, c, d, a);
    b := Step(F4(c, d, a), b, c, Add(x[13], 0x4e0811a1), 21);
    Advance(60, s0, x, a, b, c, d);
    a := Step(F4(b, c, d), a, b, Add(x[4], 0xf7537e82), 6);
    Advance(61, s0, x, d, a, b, c);
    d := Step(F4(a, b, c), d, a, Add(x[11], 0xbd3af235), 10);
    Advance(62, s0, x, c, d, a, b);
    c := Step(F4(d, a, b), c, d, Add(x[2], 0x2ad7d2bb), 15);
    Advance(63, s0, x, b, c, d, a);
    b := Step(F4(c, d, a), b, c, Add(x[9], 0xeb86d391), 21);
    r := State(a, b, c, d);
  }

  /** MD5Transform. */
  method Transform(buf: State, x: seq<bv32>) returns (r: State)
    requires |x| == 16
    ensures r == Compress(buf, x)
  {
    hide RfcRun, Add;
    assert buf == RfcRun(0, buf, x) by {
      RunZero(buf, x);
    }
    var s := Round1(buf, x, buf);
    s := Round2(s, x, buf);
    s := Round3(s, x, buf);
    s := Round4(s, x, buf);
    r := State(Add(buf.a, s.a), Add(buf.b, s.b), Add(buf.c, s.c), Add(buf.d, s.d));
  }

  lemma RunZero(s: State, x: seq<bv32>)
    requires |x| == 16
    ensures RfcRun(0, s, x) == s
  {
  }
}
