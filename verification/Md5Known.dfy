/**
 The byte order of MD5, and the digest of the empty message computed step by step (section A.5 of RFC 1321).
 */
module Md5Known {
  import opened Basics
  import opened Md5Block
  import opened Md5
  import Md5Words

  //  Words and bytes

  function WordOf(s: State, i: nat): bv32
    requires i < 4
  {
    if i == 0 then s.a else if i == 1 then s.b else if i == 2 then s.c else s.d
  }

  /** Byte j of a number, the lowest one first. */
  function ByteOf(n: nat, j: nat): Byte
    requires j < 4
  {
    if j == 0 then n % 256 else if j == 1 then n / 256 % 256 else if j == 2 then n / 65536 % 256 else n / 16777216 % 256
  }

  lemma LittleEndianAt(n: nat, j: nat)
    requires j < 4
    ensures LittleEndian(n)[j] == ByteOf(n, j)
  {
  }

  /** A digest holds the words A to D in this order, each with its lowest byte first. */
  lemma BytesAt(s: State, i: nat, j: nat)
    requires i < 4 && j < 4
    ensures Bytes(s)[4 * i + j] == ByteOf(WordOf(s, i) as nat, j)
  {
    hide LittleEndian, ByteOf;
    LittleEndianAt(WordOf(s, i) as nat, j);
  }

  lemma ValueBytes(b: seq<Byte>, j: nat)
    requires |b| == 4 && j < 4
    ensures ByteOf(Value(b), j) == b[j]
  {
    var b0: int, b1: int, b2: int, b3: int := b[0], b[1], b[2], b[3];
    Horner(b0, b1 + 256 * b2 + 65536 * b3);
    Horner(b1, b2 + 256 * b3);
    Horner(b2, b3);
    Nested(Value(b));
  }

  lemma Horner(low: nat, high: nat)
    requires low < 256
    ensures (low + 256 * high) % 256 == low && (low + 256 * high) / 256 == high
  {
  }

  lemma Nested(n: nat)
    ensures n / 65536 == n / 256 / 256 && n / 16777216 == n / 256 / 256 / 256
  {
  }

  lemma FourBytes(n: nat, b0: Byte, b1: Byte, b2: Byte, b3: Byte)
    requires n == b0 + 256 * b1 + 65536 * b2 + 16777216 * b3
    ensures LittleEndian(n) == [b0, b1, b2, b3]
  {
    hide LittleEndian, ByteOf;
    var b := [b0, b1, b2, b3];
    forall j: nat | j < 4 ensures LittleEndian(n)[j] == b[j] {
      ValueBytes(b, j);
      LittleEndianAt(n, j);
    }
  }

  /** The initial words, as section 3.3 of RFC 1321 lists them. */
  lemma InitialBytes()
    ensures Bytes(IV) == [0x01, 0x23, 0x45, 0x67, 0x89, 0xab, 0xcd, 0xef, 0xfe, 0xdc, 0xba, 0x98, 0x76, 0x54, 0x32, 0x10]
  {
    hide LittleEndian;
    FourBytes(0x67452301, 0x01, 0x23, 0x45, 0x67);
    FourBytes(0xefcdab89, 0x89, 0xab, 0xcd, 0xef);
    FourBytes(0x98badcfe, 0xfe, 0xdc, 0xba, 0x98);
    FourBytes(0x10325476, 0x76, 0x54, 0x32, 0x10);
  }

  /** Byte i of a number of any size. */
  function ByteAt(n: nat, i: nat): Byte {
    if i == 0 then n % 256 else ByteAt(n / 256, i - 1)
  }

  lemma ByteAtIs(n: nat, i: nat)
    ensures i < 4 ==> ByteAt(n, i) == ByteOf(n, i)
    ensures i >= 4 ==> ByteAt(n, i) == ByteAt(n / WORD, i - 4)
  {
    Nested(n);
    assert n / WORD == n / 256 / 256 / 256 / 256;
    if i == 2 {
      assert ByteAt(n, 2) == ByteAt(n / 256, 1) == ByteAt(n / 256 / 256, 0);
    } else if i >= 3 {
      assert ByteAt(n, i) == ByteAt(n / 256 / 256, i - 2) == ByteAt(n / 256 / 256 / 256, i - 3);
    }
  }

  lemma LowBytes(n: nat, j: nat)
    requires j < 4
    ensures ByteOf(n % WORD, j) == ByteOf(n, j)
  {
    var q, r := n / WORD, n % WORD;
    assert n == r + WORD * q;
    Nested(n);
    Nested(r);
    Carried(r, 16777216 * q);
    Carried(r / 256, 65536 * q);
    Carried(r / 256 / 256, 256 * q);
    Carried(r / 256 / 256 / 256, q);
  }

  lemma Carried(r: nat, k: nat)
    ensures (r + 256 * k) % 256 == r % 256 && (r + 256 * k) / 256 == r / 256 + k
  {
  }

  /** The padding ends with the length in bits as a 64-bit number, its lowest byte first. */
  lemma LengthAt(n: nat, i: nat)
    requires i < 8
    ensures LengthBytes(n)[i] == ByteAt(8 * n, i)
  {
    hide LittleEndian, ByteOf, ByteAt;
    ByteAtIs(8 * n, i);
    if i < 4 {
      LittleEndianAt(8 * n % WORD, i);
      LowBytes(8 * n, i);
    } else {
      ByteAtIs(8 * n / WORD, i - 4);
      LittleEndianAt(8 * n / WORD % WORD, i - 4);
      LowBytes(8 * n / WORD, i - 4);
    }
  }

  /** The words of a block: byte 4 * i + j of the block is byte j of word i. */
  lemma WordsAt(block: seq<Byte>, i: nat, j: nat)
    requires |block| == 64 && i < 16 && j < 4
    ensures block[4 * i + j] == ByteOf(Words(block)[i] as nat, j)
  {
    hide ByteOf, Value;
    var b := block[4 * i..4 * i + 4];
    Md5Words.RoundTrip(Value(b));
    ValueBytes(b, j);
  }

  ghost predicate SameBytes(m: nat, n: nat) {
    forall j: nat {:trigger ByteOf(m, j)} {:trigger ByteOf(n, j)} :: j < 4 ==> ByteOf(m, j) == ByteOf(n, j)
  }

  lemma SameWord(v: bv32, w: bv32)
    requires SameBytes(v as nat, w as nat)
    ensures v == w
  {
    hide ByteOf;
    BytesDetermine(Md5Words.Val(v), Md5Words.Val(w));
    Md5Words.Injective(v, w);
  }

  lemma BytesDetermine(m: nat, n: nat)
    requires m < WORD && n < WORD && SameBytes(m, n)
    ensures m == n
  {
    assert ByteOf(m, 0) == ByteOf(n, 0) && ByteOf(m, 1) == ByteOf(n, 1);
    assert ByteOf(m, 2) == ByteOf(n, 2) && ByteOf(m, 3) == ByteOf(n, 3);
    LittleEndianInjective(m, n);
  }

  /** Decoding a block gives back the sixteen words it was made of. */
  lemma WordsInvert(block: seq<Byte>, x: seq<bv32>)
    requires |block| == 64 && |x| == 16
    requires forall i: nat, j: nat {:trigger ByteOf(x[i] as nat, j)} :: i < 16 && j < 4 ==> block[4 * i + j] == ByteOf(x[i] as nat, j)
    ensures Words(block) == x
  {
    hide ByteOf, Words;
    forall i: nat | i < 16 ensures Words(block)[i] == x[i] {
      var v, w := Words(block)[i], x[i];
      forall j: nat {:trigger ByteOf(v as nat, j)} | j < 4 ensures ByteOf(v as nat, j) == ByteOf(w as nat, j) {
        WordsAt(block, i, j);
      }
      SameWord(Words(block)[i], x[i]);
    }
  }

  //  The digest of the empty message

  /** The words of its one block. */
  const EMPTY: seq<bv32> := [0x80, 0, 0, 0, 0, 0, 0, 0, 0, 0, 0, 0, 0, 0, 0, 0]

  lemma EmptyWords(i: nat)
    requires i < 16
    ensures EMPTY[i] == if i == 0 then 0x80 else 0
  {
  }

  lemma StepF(n: nat, a: bv32, b: bv32, c: bv32, d: bv32, w: bv32, k: bv32, s: bv6, t: bv32, r: bv32)
    requires n < 16 && RfcRun(n, IV, EMPTY) == State(a, b, c, d)
    requires w == (if RfcIndex(n) == 0 then 0x80 else 0) && T(n) == k && RfcShift(n) == s && 0 < s < 32
    requires Add(a, Add(F(b, c, d), Add(w, k))) == t && Add(b, RotateLeft(t, s)) == r
    ensures RfcRun(n + 1, IV, EMPTY) == State(d, r, b, c)
  {
    hide Add, RotateLeft, T, RfcIndex, RfcShift, F, G, H, I;
    EmptyWords(RfcIndex(n));
  }

  lemma StepG(n: nat, a: bv32, b: bv32, c: bv32, d: bv32, w: bv32, k: bv32, s: bv6, t: bv32, r: bv32)
    requires 16 <= n < 32 && RfcRun(n, IV, EMPTY) == State(a, b, c, d)
    requires w == (if RfcIndex(n) == 0 then 0x80 else 0) && T(n) == k && RfcShift(n) == s && 0 < s < 32
    requires Add(a, Add(G(b, c, d), Add(w, k))) == t && Add(b, RotateLeft(t, s)) == r
    ensures RfcRun(n + 1, IV, EMPTY) == State(d, r, b, c)
  {
    hide Add, RotateLeft, T, RfcIndex, RfcShift, F, G, H, I;
    EmptyWords(RfcIndex(n));
  }

  lemma StepH(n: nat, a: bv32, b: bv32, c: bv32, d: bv32, w: bv32, k: bv32, s: bv6, t: bv32, r: bv32)
    requires 32 <= n < 48 && RfcRun(n, IV, EMPTY) == State(a, b, c, d)
    requires w == (if RfcIndex(n) == 0 then 0x80 else 0) && T(n) == k && RfcShift(n) == s && 0 < s < 32
    requires Add(a, Add(H(b, c, d), Add(w, k))) == t && Add(b, RotateLeft(t, s)) == r
    ensures RfcRun(n + 1, IV, EMPTY) == State(d, r, b, c)
  {
    hide Add, RotateLeft, T, RfcIndex, RfcShift, F, G, H, I;
    EmptyWords(RfcIndex(n));
  }

  lemma StepI(n: nat, a: bv32, b: bv32, c: bv32, d: bv32, w: bv32, k: bv32, s: bv6, t: bv32, r: bv32)
    requires 48 <= n < 64 && RfcRun(n, IV, EMPTY) == State(a, b, c, d)
    requires w == (if RfcIndex(n) == 0 then 0x80 else 0) && T(n) == k && RfcShift(n) == s && 0 < s < 32
    requires Add(a, Add(I(b, c, d), Add(w, k))) == t && Add(b, RotateLeft(t, s)) == r
    ensures RfcRun(n + 1, IV, EMPTY) == State(d, r, b, c)
  {
    hide Add, RotateLeft, T, RfcIndex, RfcShift, F, G, H, I;
    EmptyWords(RfcIndex(n));
  }

  lemma Steps0()
    ensures RfcRun(8, IV, EMPTY) == State(0x32033344, 0x9bc13ce9, 0xf5b158db, 0x2f35d494)
  {
    hide RfcRun, T, RfcIndex, RfcShift;
    Parameters1a();
    NothingRun();
    StepF(0, 0x67452301, 0xefcdab89, 0x98badcfe, 0x10325476, 0x80, 0xd76aa478, 7, 0xd76aa4f7, 0xa5202774);
    StepF(1, 0x10325476, 0xa5202774, 0xefcdab89, 0x98badcfe, 0, 0xe8c7b756, 12, 0xb6950756, 0xf59592dd);
    StepF(2, 0x98badcfe, 0xf59592dd, 0xa5202774, 0xefcdab89, 0, 0x242070db, 17, 0x6c23792d, 0xe7f06b23);
    StepF(3, 0xefcdab89, 0xe7f06b23, 0xf59592dd, 0xa5202774, 0, 0xc1bdceee, 22, 0x971b80cc, 0x1b163203);
    StepF(4, 0xa5202774, 0x1b163203, 0xe7f06b23, 0xf59592dd, 0, 0xf57c0faf, 7, 0x822dda02, 0x32033344);
    StepF(5, 0xf59592dd, 0x32033344, 0x1b163203, 0xe7f06b23, 0, 0x4787c62a, 12, 0x150fd32a, 0x2f35d494);
    StepF(6, 0xe7f06b23, 0x2f35d494, 0x32033344, 0x1b163203, 0, 0xa8304613, 17, 0xc223e33d, 0xf5b158db);
    StepF(7, 0x1b163203, 0xf5b158db, 0x2f35d494, 0x32033344, 0, 0xfd469501, 22, 0x3f903a98, 0x9bc13ce9);
  }

  lemma Steps8()
    requires RfcRun(8, IV, EMPTY) == State(0x32033344, 0x9bc13ce9, 0xf5b158db, 0x2f35d494)
    ensures RfcRun(16, IV, EMPTY) == State(0xf56c7cf1, 0xd6819c6a, 0x5aa53f75, 0x374943a7)
  {
    hide RfcRun, T, RfcIndex, RfcShift;
    Parameters1b();
    StepF(8, 0x32033344, 0x9bc13ce9, 0xf5b158db, 0x2f35d494, 0, 0x698098d8, 7, 0x5139a4f9, 0x3893b991);
    StepF(9, 0x2f35d494, 0x3893b991, 0x9bc13ce9, 0xf5b158db, 0, 0x8b44f7af, 12, 0x981c450e, 0xfce4a312);
    StepF(10, 0xf5b158db, 0xfce4a312, 0x3893b991, 0x9bc13ce9, 0, 0xffff5bb1, 17, 0x31327285, 0xe1ef0576);
    StepF(11, 0x9bc13ce9, 0xe1ef0576, 0xfce4a312, 0x3893b991, 0, 0x895cd7be, 22, 0x1e12ce3a, 0x70768a29);
    StepF(12, 0x3893b991, 0x70768a29, 0xe1ef0576, 0xfce4a312, 0, 0x6b901122, 7, 0x9109ebe5, 0xf56c7cf1);
    StepF(13, 0xfce4a312, 0xf56c7cf1, 0x70768a29, 0xe1ef0576, 0, 0xfd987193, 12, 0x6b641dcc, 0x374943a7);
    StepF(14, 0xe1ef0576, 0x374943a7, 0xf56c7cf1, 0x70768a29, 0, 0xa679438e, 17, 0xfde711ad, 0x5aa53f75);
    StepF(15, 0x70768a29, 0x5aa53f75, 0x374943a7, 0xf56c7cf1, 0, 0x49b40821, 22, 0x7173d5ef, 0xd6819c6a);
  }

  lemma Steps16()
    requires RfcRun(16, IV, EMPTY) == State(0xf56c7cf1, 0xd6819c6a, 0x5aa53f75, 0x374943a7)
    ensures RfcRun(24, IV, EMPTY) == State(0x3d1e3e6c, 0xe422531a, 0xeb41643e, 0x68b7b3e3)
  {
    hide RfcRun, T, RfcIndex, RfcShift;
    Parameters2a();
    StepG(16, 0xf56c7cf1, 0xd6819c6a, 0x5aa53f75, 0x374943a7, 0, 0xf61e2562, 5, 0x4a2fdec5, 0x1c7d7513);
    StepG(17, 0x374943a7, 0x1c7d7513, 0xd6819c6a, 0x5aa53f75, 0, 0xc040b340, 9, 0x93afac02, 0x7bd57a3a);
    StepG(18, 0x5aa53f75, 0x7bd57a3a, 0x1c7d7513, 0xd6819c6a, 0, 0x265e5a51, 14, 0xdc011301, 0xc095f13a);
    StepG(19, 0xd6819c6a, 0xc095f13a, 0x7bd57a3a, 0x1c7d7513, 0x80, 0xe9b6c7aa, 20, 0x23cddfce, 0xbd782e17);
    StepG(20, 0x1c7d7513, 0xbd782e17, 0xc095f13a, 0x7bd57a3a, 0, 0xd62f105d, 5, 0xabfd3082, 0x3d1e3e6c);
    StepG(21, 0x7bd57a3a, 0x3d1e3e6c, 0xbd782e17, 0xc095f13a, 0, 0x02441453, 9, 0xbb95ccba, 0x68b7b3e3);
    StepG(22, 0xc095f13a, 0x68b7b3e3, 0x3d1e3e6c, 0xbd782e17, 0, 0xd8a1e681, 14, 0xc16e0a26, 0xeb41643e);
    StepG(23, 0xbd782e17, 0xeb41643e, 0x68b7b3e3, 0x3d1e3e6c, 0, 0xe7d3fbc8, 20, 0x0eedcf8e, 0xe422531a);
  }

  lemma Steps24()
    requires RfcRun(24, IV, EMPTY) == State(0x3d1e3e6c, 0xe422531a, 0xeb41643e, 0x68b7b3e3)
    ensures RfcRun(32, IV, EMPTY) == State(0x13707036, 0xa2205f1f, 0x1c31c384, 0xae7813db)
  {
    hide RfcRun, T, RfcIndex, RfcShift;
    Parameters2b();
    StepG(24, 0x3d1e3e6c, 0xe422531a, 0xeb41643e, 0x68b7b3e3, 0, 0x21e1cde6, 5, 0x42626370, 0x306ec122);
    StepG(25, 0x68b7b3e3, 0x306ec122, 0xe422531a, 0xeb41643e, 0, 0xc33707d6, 9, 0x50510edb, 0xd28c77c2);
    StepG(26, 0xeb41643e, 0xd28c77c2, 0x306ec122, 0xe422531a, 0, 0xf4d50d87, 14, 0xb06344e7, 0xa3c663da);
    StepG(27, 0xe422531a, 0xa3c663da, 0xd28c77c2, 0x306ec122, 0, 0x455a14ed, 20, 0x0c42dfc9, 0xa0572807);
    StepG(28, 0x306ec122, 0xa0572807, 0xa3c663da, 0xd28c77c2, 0, 0xa9e3e905, 5, 0x7b98ca41, 0x13707036);
    StepG(29, 0xd28c77c2, 0x13707036, 0xa0572807, 0xa3c663da, 0, 0xfcefa3f8, 9, 0xd2cd83d1, 0xae7813db);
    StepG(30, 0xa3c663da, 0xae7813db, 0x13707036, 0xa0572807, 0, 0x676f02d9, 14, 0xbea5b6e6, 0x1c31c384);
    StepG(31, 0xa0572807, 0x1c31c384, 0xae7813db, 0x13707036, 0, 0x8d2a4c8a, 20, 0xe9b9b85e, 0xa2205f1f);
  }

  lemma Steps32()
    requires RfcRun(32, IV, EMPTY) == State(0x13707036, 0xa2205f1f, 0x1c31c384, 0xae7813db)
    ensures RfcRun(40, IV, EMPTY) == State(0x5f7a9b2e, 0xc5dc8c15, 0x91ca4cb7, 0xabc34e16)
  {
    hide RfcRun, T, RfcIndex, RfcShift;
    Parameters3a();
    StepH(32, 0x13707036, 0xa2205f1f, 0x1c31c384, 0xae7813db, 0, 0xfffa3942, 4, 0x23d438b8, 0xdf63eaa1);
    StepH(33, 0xae7813db, 0xdf63eaa1, 0xa2205f1f, 0x1c31c384, 0, 0x8771f681, 11, 0x975c8096, 0xc3689f5b);
    StepH(34, 0x1c31c384, 0xc3689f5b, 0xdf63eaa1, 0xa2205f1f, 0, 0x6d9d6122, 16, 0x47fa4f8b, 0x12f3e755);
    StepH(35, 0xa2205f1f, 0x12f3e755, 0xc3689f5b, 0xdf63eaa1, 0, 0xfde5380c, 23, 0xaefe29da, 0x004b6669);
    StepH(36, 0xdf63eaa1, 0x004b6669, 0x12f3e755, 0xc3689f5b, 0, 0xa4beea44, 4, 0x55f2f34c, 0x5f7a9b2e);
    StepH(37, 0xc3689f5b, 0x5f7a9b2e, 0x004b6669, 0x12f3e755, 0, 0x4bdecfa9, 11, 0x5d098916, 0xabc34e16);
    StepH(38, 0x12f3e755, 0xabc34e16, 0x5f7a9b2e, 0x004b6669, 0, 0xf6bb4b60, 16, 0xfea1e606, 0x91ca4cb7);
    StepH(39, 0x004b6669, 0x91ca4cb7, 0xabc34e16, 0x5f7a9b2e, 0, 0xbebfbc70, 23, 0x247ebc68, 0xc5dc8c15);
  }

  lemma Steps40()
    requires RfcRun(40, IV, EMPTY) == State(0x5f7a9b2e, 0xc5dc8c15, 0x91ca4cb7, 0xabc34e16)
    ensures RfcRun(48, IV, EMPTY) == State(0x3f55edfd, 0xca7d2dbd, 0x68d84ea2, 0x22a31f54)
  {
    hide RfcRun, T, RfcIndex, RfcShift;
    Parameters3b();
    StepH(40, 0x5f7a9b2e, 0xc5dc8c15, 0x91ca4cb7, 0xabc34e16, 0, 0x289b7ec6, 4, 0x87eba8a8, 0x4497169d);
    StepH(41, 0xabc34e16, 0x4497169d, 0xc5dc8c15, 0x91ca4cb7, 0x80, 0xeaa127fa, 11, 0xa6e64ccf, 0x76fd93d4);
    StepH(42, 0x91ca4cb7, 0x76fd93d4, 0x4497169d, 0xc5dc8c15, 0, 0xd4ef3085, 16, 0x5e6f8698, 0xfd95f243);
    StepH(43, 0xc5dc8c15, 0xfd95f243, 0x76fd93d4, 0x4497169d, 0, 0x04881d05, 23, 0x9a642024, 0x0fe32453);
    StepH(44, 0x4497169d, 0x0fe32453, 0xfd95f243, 0x76fd93d4, 0, 0xd9d4d039, 4, 0xa2f72c9a, 0x3f55edfd);
    StepH(45, 0x76fd93d4, 0x3f55edfd, 0x0fe32453, 0xfd95f243, 0, 0xe6db99e5, 11, 0x2afc69a6, 0x22a31f54);
    StepH(46, 0xfd95f243, 0x22a31f54, 0x3f55edfd, 0x0fe32453, 0, 0x1fa27cf8, 16, 0x2f4e4635, 0x68d84ea2);
    StepH(47, 0x0fe32453, 0x68d84ea2, 0x22a31f54, 0x3f55edfd, 0, 0xc4ac5665, 23, 0x49be36c3, 0xca7d2dbd);
  }

  lemma Steps48()
    requires RfcRun(48, IV, EMPTY) == State(0x3f55edfd, 0xca7d2dbd, 0x68d84ea2, 0x22a31f54)
    ensures RfcRun(56, IV, EMPTY) == State(0x5625a114, 0x1e77fa61, 0x392ad0d0, 0x3450f42b)
  {
    hide RfcRun, T, RfcIndex, RfcShift;
    Parameters4a();
    StepI(48, 0x3f55edfd, 0xca7d2dbd, 0x68d84ea2, 0x22a31f54, 0x80, 0xf4292244, 6, 0xeb24b3de, 0x93aa2577);
    StepI(49, 0x22a31f54, 0x93aa2577, 0xca7d2dbd, 0x68d84ea2, 0, 0x432aff97, 10, 0xc3a0b7ad, 0x1688dc85);
    StepI(50, 0x68d84ea2, 0x1688dc85, 0x93aa2577, 0xca7d2dbd, 0, 0xab9423a7, 15, 0xb88d6df9, 0xcd85b8cb);
    StepI(51, 0xca7d2dbd, 0xcd85b8cb, 0x1688dc85, 0x93aa2577, 0, 0xfc93a039, 21, 0xc26df444, 0x561e0689);
    StepI(52, 0x93aa2577, 0x561e0689, 0xcd85b8cb, 0x1688dc85, 0, 0x655b59c3, 6, 0x2c001e6a, 0x5625a114);
    StepI(53, 0x1688dc85, 0x5625a114, 0x561e0689, 0xcd85b8cb, 0, 0x8f0ccc92, 10, 0xc5f78ad4, 0x3450f42b);
    StepI(54, 0xcd85b8cb, 0x3450f42b, 0x5625a114, 0x561e0689, 0, 0xffeff47d, 15, 0xb94a09b3, 0x392ad0d0);
    StepI(55, 0x561e0689, 0x392ad0d0, 0x3450f42b, 0x5625a114, 0, 0x85845dd1, 21, 0x694c8f2a, 0x1e77fa61);
  }

  lemma Steps56()
    requires RfcRun(56, IV, EMPTY) == State(0x5625a114, 0x1e77fa61, 0x392ad0d0, 0x3450f42b)
    ensures RfcRun(64, IV, EMPTY) == State(0x7246fad3, 0x14e45506, 0xff4ea3eb, 0x6e10a476)
  {
    hide RfcRun, T, RfcIndex, RfcShift;
    Parameters4b();
    StepI(56, 0x5625a114, 0x1e77fa61, 0x392ad0d0, 0x3450f42b, 0, 0x6fa87e4f, 6, 0xaca34a88, 0x474a9c8c);
    StepI(57, 0x3450f42b, 0x474a9c8c, 0x1e77fa61, 0x392ad0d0, 0, 0xfe2ce6e0, 10, 0x0c2620d9, 0xdfce00bc);
    StepI(58, 0x392ad0d0, 0xdfce00bc, 0x474a9c8c, 0x1e77fa61, 0, 0xa3014314, 15, 0x94b0ad16, 0x36594b14);
    StepI(59, 0x1e77fa61, 0x36594b14, 0xdfce00bc, 0x474a9c8c, 0, 0x4e0811a1, 21, 0xcdb377cd, 0x30130182);
    StepI(60, 0x474a9c8c, 0x30130182, 0x36594b14, 0xdfce00bc, 0, 0xf7537e82, 6, 0x4508cfe5, 0x7246fad3);
    StepI(61, 0xdfce00bc, 0x7246fad3, 0x30130182, 0x36594b14, 0, 0xbd3af235, 10, 0x68fef26a, 0x6e10a476);
    StepI(62, 0x36594b14, 0x6e10a476, 0x7246fad3, 0x30130182, 0, 0x2ad7d2bb, 15, 0xfeeb227b, 0xff4ea3eb);
    StepI(63, 0x30130182, 0xff4ea3eb, 0x6e10a476, 0x7246fad3, 0, 0xeb86d391, 21, 0xad88d8ac, 0x14e45506);
  }

  lemma NothingRun()
    ensures RfcRun(0, IV, EMPTY) == IV
  {
  }

  lemma EmptyRun()
    ensures RfcRun(64, IV, EMPTY) == State(0x7246fad3, 0x14e45506, 0xff4ea3eb, 0x6e10a476)
  {
    hide RfcRun;
    Steps0();
    Steps8();
    Steps16();
    Steps24();
    Steps32();
    Steps40();
    Steps48();
    Steps56();
  }

  lemma EmptyBytes(k: nat)
    requires k < 64
    ensures |Padded([])| == 64 && Padded([])[k] == if k == 0 then 0x80 else 0
  {
    ZerosLength(55);
    assert LengthBytes(0) == LittleEndian(0) + LittleEndian(0);
    assert LittleEndian(0) == [0, 0, 0, 0];
  }

  lemma SmallBytes(j: nat)
    requires j < 4
    ensures ByteOf(0, j) == 0 && ByteOf(0x80, j) == if j == 0 then 0x80 else 0
  {
  }

  lemma EmptyBlock()
    ensures |Padded([])| == 64 && Words(Padded([])) == EMPTY
  {
    hide Padded, Words, ByteOf;
    EmptyBytes(0);
    forall i: nat, j: nat {:trigger ByteOf(EMPTY[i] as nat, j)} | i < 16 && j < 4
      ensures Padded([])[4 * i + j] == ByteOf(EMPTY[i] as nat, j)
    {
      EmptyBytes(4 * i + j);
      EmptyWords(i);
      SmallBytes(j);
    }
    WordsInvert(Padded([]), EMPTY);
  }

  lemma EmptyCompress()
    ensures Compress(IV, EMPTY) == State(0xd98c1dd4, 0x04b2008f, 0x980980e9, 0x7e42f8ec)
  {
    hide RfcRun;
    EmptyRun();
  }

  lemma EmptyDigest()
    ensures Bytes(State(0xd98c1dd4, 0x04b2008f, 0x980980e9, 0x7e42f8ec)) == [0xd4, 0x1d, 0x8c, 0xd9, 0x8f, 0x00, 0xb2, 0x04, 0xe9, 0x80, 0x09, 0x98, 0xec, 0xf8, 0x42, 0x7e]
  {
    hide LittleEndian;
    FourBytes(0xd98c1dd4, 0xd4, 0x1d, 0x8c, 0xd9);
    FourBytes(0x04b2008f, 0x8f, 0x00, 0xb2, 0x04);
    FourBytes(0x980980e9, 0xe9, 0x80, 0x09, 0x98);
    FourBytes(0x7e42f8ec, 0xec, 0xf8, 0x42, 0x7e);
  }

  /** The first entry of the test suite in section A.5 of RFC 1321. */
  lemma EmptyMessage()
    ensures Digest([]) == [0xd4, 0x1d, 0x8c, 0xd9, 0x8f, 0x00, 0xb2, 0x04, 0xe9, 0x80, 0x09, 0x98, 0xec, 0xf8, 0x42, 0x7e]
  {
    hide Words, Padded, Compress, Bytes;
    EmptyBlock();
    EmptyCompress();
    EmptyDigest();
    ChainSnoc([], Padded([]));
    assert [] + Padded([]) == Padded([]);
  }
}
