/**
 What the word operations of MD5 mean: a word as a number and as 32 bits; addition as a sum of numbers; rotation
 and the selection functions of RFC 1321 bit by bit.
 */
module Md5Words {
  import opened Md5Block

  const WORD := 0x1_0000_0000
  const TOP: bv32 := 0x8000_0000

  //  A word and its bits

  /** The word in which only bit k is set. */
  function Mask(k: nat): bv32
    requires k < 32
  {
    if k == 0 then 1 else Mask(k - 1) << 1
  }

  predicate Has(w: bv32, m: bv32) { w & m != 0 }

  predicate Bit(w: bv32, k: nat)
    requires k < 32
  {
    Has(w, Mask(k))
  }

  function Pow2(k: nat): (r: nat)
    ensures r > 0
  {
    if k == 0 then 1 else 2 * Pow2(k - 1)
  }

  /** The number a word stands for. */
  function Val(w: bv32): (n: nat)
    ensures n < WORD
  {
    w as nat
  }

  ghost function Digit(w: bv32, k: nat): nat
    requires k < 32
  {
    if Bit(w, k) then Pow2(k) else 0
  }

  /** The number that the lowest k bits stand for. */
  ghost function BitSum(w: bv32, k: nat): nat
    requires k <= 32
  {
    if k == 0 then 0 else BitSum(w, k - 1) + Digit(w, k - 1)
  }

  /** A word stands for the number whose binary digits are its bits. */
  lemma ValueIs(w: bv32)
    ensures Val(w) == BitSum(w, 32)
  {
    hide BitSum;
    Bits0(w);
    Bits1(w);
    Bits2(w);
    Bits3(w);
  }

  lemma NoBits(w: bv32)
    ensures BitSum(w, 0) == 0
  {
  }

  lemma Unroll(w: bv32, k: nat)
    requires k + 8 <= 32
    ensures BitSum(w, k + 8) == BitSum(w, k) + Digit(w, k) + Digit(w, k + 1) + Digit(w, k + 2) + Digit(w, k + 3)
                                + Digit(w, k + 4) + Digit(w, k + 5) + Digit(w, k + 6) + Digit(w, k + 7)
  {
    hide Digit;
    Unroll4(w, k);
    Unroll4(w, k + 4);
  }

  lemma Unroll4(w: bv32, k: nat)
    requires k + 4 <= 32
    ensures BitSum(w, k + 4) == BitSum(w, k) + Digit(w, k) + Digit(w, k + 1) + Digit(w, k + 2) + Digit(w, k + 3)
  {
    hide Digit;
    assert BitSum(w, k + 2) == BitSum(w, k) + Digit(w, k) + Digit(w, k + 1);
  }

  lemma Powers0()
    ensures Mask(0) == 0x1 && Pow2(0) == 0x1 && Mask(1) == 0x2 && Pow2(1) == 0x2
    ensures Mask(2) == 0x4 && Pow2(2) == 0x4 && Mask(3) == 0x8 && Pow2(3) == 0x8
    ensures Mask(4) == 0x10 && Pow2(4) == 0x10 && Mask(5) == 0x20 && Pow2(5) == 0x20
    ensures Mask(6) == 0x40 && Pow2(6) == 0x40 && Mask(7) == 0x80 && Pow2(7) == 0x80
  {
  }

  lemma Byte0(w: bv32)
    ensures (w & 0xff) as nat ==
        (if w & 0x1 == 0 then 0 else 0x1) + (if w & 0x2 == 0 then 0 else 0x2) +
        (if w & 0x4 == 0 then 0 else 0x4) + (if w & 0x8 == 0 then 0 else 0x8) +
        (if w & 0x10 == 0 then 0 else 0x10) + (if w & 0x20 == 0 then 0 else 0x20) +
        (if w & 0x40 == 0 then 0 else 0x40) + (if w & 0x80 == 0 then 0 else 0x80)
  {
  }

  lemma Bits0(w: bv32)
    ensures BitSum(w, 8) == (w & 0xff) as nat
  {
    hide BitSum, Mask, Pow2;
    Unroll(w, 0);
    Powers0();
    Byte0(w);
    NoBits(w);
  }

  lemma Powers1()
    ensures Mask(8) == 0x100 && Pow2(8) == 0x100 && Mask(9) == 0x200 && Pow2(9) == 0x200
    ensures Mask(10) == 0x400 && Pow2(10) == 0x400 && Mask(11) == 0x800 && Pow2(11) == 0x800
    ensures Mask(12) == 0x1000 && Pow2(12) == 0x1000 && Mask(13) == 0x2000 && Pow2(13) == 0x2000
    ensures Mask(14) == 0x4000 && Pow2(14) == 0x4000 && Mask(15) == 0x8000 && Pow2(15) == 0x8000
  {
    Powers0();
  }

  lemma Byte1(w: bv32)
    ensures (w & 0xffff) as nat == (w & 0xff) as nat +
        (if w & 0x100 == 0 then 0 else 0x100) + (if w & 0x200 == 0 then 0 else 0x200) +
        (if w & 0x400 == 0 then 0 else 0x400) + (if w & 0x800 == 0 then 0 else 0x800) +
        (if w & 0x1000 == 0 then 0 else 0x1000) + (if w & 0x2000 == 0 then 0 else 0x2000) +
        (if w & 0x4000 == 0 then 0 else 0x4000) + (if w & 0x8000 == 0 then 0 else 0x8000)
  {
  }

  lemma Bits1(w: bv32)
    requires BitSum(w, 8) == (w & 0xff) as nat
    ensures BitSum(w, 16) == (w & 0xffff) as nat
  {
    hide BitSum, Mask, Pow2;
    Unroll(w, 8);
    Powers1();
    Byte1(w);
  }

  lemma Powers2()
    ensures Mask(16) == 0x10000 && Pow2(16) == 0x10000 && Mask(17) == 0x20000 && Pow2(17) == 0x20000
    ensures Mask(18) == 0x40000 && Pow2(18) == 0x40000 && Mask(19) == 0x80000 && Pow2(19) == 0x80000
    ensures Mask(20) == 0x100000 && Pow2(20) == 0x100000 && Mask(21) == 0x200000 && Pow2(21) == 0x200000
    ensures Mask(22) == 0x400000 && Pow2(22) == 0x400000 && Mask(23) == 0x800000 && Pow2(23) == 0x800000
  {
    Powers1();
  }

  lemma Byte2(w: bv32)
    ensures (w & 0xffffff) as nat == (w & 0xffff) as nat +
        (if w & 0x10000 == 0 then 0 else 0x10000) + (if w & 0x20000 == 0 then 0 else 0x20000) +
        (if w & 0x40000 == 0 then 0 else 0x40000) + (if w & 0x80000 == 0 then 0 else 0x80000) +
        (if w & 0x100000 == 0 then 0 else 0x100000) + (if w & 0x200000 == 0 then 0 else 0x200000) +
        (if w & 0x400000 == 0 then 0 else 0x400000) + (if w & 0x800000 == 0 then 0 else 0x800000)
  {
  }

  lemma Bits2(w: bv32)
    requires BitSum(w, 16) == (w & 0xffff) as nat
    ensures BitSum(w, 24) == (w & 0xffffff) as nat
  {
    hide BitSum, Mask, Pow2;
    Unroll(w, 16);
    Powers2();
    Byte2(w);
  }

  lemma Powers3()
    ensures Mask(24) == 0x1000000 && Pow2(24) == 0x1000000 && Mask(25) == 0x2000000 && Pow2(25) == 0x2000000
    ensures Mask(26) == 0x4000000 && Pow2(26) == 0x4000000 && Mask(27) == 0x8000000 && Pow2(27) == 0x8000000
    ensures Mask(28) == 0x10000000 && Pow2(28) == 0x10000000 && Mask(29) == 0x20000000 && Pow2(29) == 0x20000000
    ensures Mask(30) == 0x40000000 && Pow2(30) == 0x40000000 && Mask(31) == 0x80000000 && Pow2(31) == 0x80000000
  {
    Powers2();
  }

  lemma Byte3(w: bv32)
    ensures w as nat == (w & 0xffffff) as nat +
        (if w & 0x1000000 == 0 then 0 else 0x1000000) + (if w & 0x2000000 == 0 then 0 else 0x2000000) +
        (if w & 0x4000000 == 0 then 0 else 0x4000000) + (if w & 0x8000000 == 0 then 0 else 0x8000000) +
        (if w & 0x10000000 == 0 then 0 else 0x10000000) + (if w & 0x20000000 == 0 then 0 else 0x20000000) +
        (if w & 0x40000000 == 0 then 0 else 0x40000000) + (if w & 0x80000000 == 0 then 0 else 0x80000000)
  {
  }

  lemma Bits3(w: bv32)
    requires BitSum(w, 24) == (w & 0xffffff) as nat
    ensures BitSum(w, 32) == w as nat
  {
    hide BitSum, Mask, Pow2;
    Unroll(w, 24);
    Powers3();
    Byte3(w);
  }

  //  Masks

  predicate Single(m: bv32) { m != 0 && m & (m - 1) == 0 }

  function Up(m: bv32): bv32 { m << 1 }

  /** The masks are single bits, one above the other. */
  lemma MaskIs(k: nat)
    requires k < 32
    ensures Single(Mask(k)) && Val(Mask(k)) == Pow2(k)
    ensures k < 31 ==> Mask(k) != TOP && Mask(k + 1) == Up(Mask(k))
  {
    hide Pow2, Single, Val;
    TopMask();
    if k == 0 {
      Powers0();
      FirstMask();
    } else {
      MaskIs(k - 1);
      Double(Mask(k - 1));
      PowerStep(k - 1);
    }
    if k < 31 {
      Growing(k, 31);
      Powers3();
    }
  }

  lemma TopMask()
    ensures Val(TOP) == 0x8000_0000
  {
  }

  lemma FirstMask()
    ensures Single(1) && Val(1) == 1
  {
  }

  lemma Double(m: bv32)
    requires Single(m) && m != TOP
    ensures Single(m << 1) && Val(m << 1) == 2 * Val(m)
  {
  }

  lemma Growing(j: nat, k: nat)
    requires j < k
    ensures Pow2(j) < Pow2(k)
    decreases k
  {
    if j < k - 1 {
      Growing(j, k - 1);
    }
  }

  lemma PowerStep(k: nat)
    ensures Pow2(k + 1) == 2 * Pow2(k)
  {
  }

  //  Addition

  function Join(x: bv32, y: bv32): bv32 { x | y }

  lemma OrMask(x: bv32, y: bv32, m: bv32)
    ensures (x | y) & m != 0 <==> x & m != 0 || y & m != 0
  {
  }

  lemma NotBoth(x: bv32, y: bv32, m: bv32)
    requires x & y == 0 && m & (m - 1) == 0
    ensures !(x & m != 0 && y & m != 0)
  {
  }

  lemma OrBit(x: bv32, y: bv32, m: bv32)
    requires Single(m) && !Has(x, y)
    ensures Has(x | y, m) <==> Has(x, m) || Has(y, m)
    ensures !(Has(x, m) && Has(y, m))
  {
    OrMask(x, y, m);
    NotBoth(x, y, m);
  }

  lemma OrSum(x: bv32, y: bv32, k: nat)
    requires k <= 32 && !Has(x, y)
    ensures BitSum(x | y, k) == BitSum(x, k) + BitSum(y, k)
  {
    hide Mask, Pow2, Has, Single;
    if k > 0 {
      OrSum(x, y, k - 1);
      MaskIs(k - 1);
      OrBit(x, y, Mask(k - 1));
    }
  }

  /** Words without a common bit: their union is their sum. */
  lemma OrIs(x: bv32, y: bv32)
    requires !Has(x, y)
    ensures Val(Join(x, y)) == Val(x) + Val(y)
  {
    hide BitSum, Has, Val;
    ValueIs(x);
    ValueIs(y);
    ValueIs(x | y);
    OrSum(x, y, 32);
  }

  lemma AddApart(x: bv32, m: bv32)
    requires x & m == 0
    ensures x + m == x | m
  {
  }

  lemma SetBit(x: bv32, m: bv32)
    requires !Has(x, m)
    ensures Add(x, m) == Join(x, m)
  {
    hide Add;
    AddDef(x, m);
    AddApart(x, m);
  }

  lemma Split(x: bv32, m: bv32)
    requires m & (m - 1) == 0 && x & m != 0
    ensures (x ^ m) & m == 0 && (x ^ m) | m == x
  {
  }

  lemma ClearBit(x: bv32, m: bv32) returns (y: bv32)
    requires Single(m) && Has(x, m)
    ensures !Has(y, m) && Join(y, m) == x
  {
    Split(x, m);
    y := x ^ m;
  }

  lemma Twice(m: bv32)
    ensures Add(m, m) == Up(m)
  {
  }

  lemma AddDef(x: bv32, y: bv32)
    ensures Add(x, y) == x + y
  {
  }

  lemma CarryOn(x: bv32, m: bv32)
    ensures Add(Add(x, m), m) == Add(x, Up(m))
  {
    hide Add, Up;
    AddMore(x, m, m);
    Twice(m);
  }

  lemma CarryOut(x: bv32)
    ensures Add(Add(x, TOP), TOP) == x
  {
  }

  /** Adding one bit, which carries through the bits above it that are set. */
  lemma AddMask(x: bv32, k: nat)
    requires k < 32
    ensures Val(Add(x, Mask(k))) == (Val(x) + Pow2(k)) % WORD
    decreases 32 - k
  {
    hide Mask, Pow2, Has, Single, Add, Val, Join, Up;
    var m := Mask(k);
    MaskIs(k);
    if !Has(x, m) {
      SetBit(x, m);
      OrIs(x, m);
      assert Val(x) + Pow2(k) < WORD;
    } else {
      var y := ClearBit(x, m);
      SetBit(y, m);
      OrIs(y, m);
      if k == 31 {
        Powers3();
        CarryOut(y);
      } else {
        CarryOn(y, m);
        AddMask(y, k + 1);
        PowerStep(k);
      }
    }
  }

  lemma AddMore(x: bv32, y: bv32, z: bv32)
    ensures Add(Add(x, y), z) == Add(x, Add(y, z)) && Add(x, 0) == x
  {
  }

  lemma SumGrows(w: bv32, k: nat)
    requires k <= 32
    ensures BitSum(w, k) <= Val(w)
    decreases 32 - k
  {
    hide Digit;
    if k == 32 {
      ValueIs(w);
    } else {
      SumGrows(w, k + 1);
    }
  }

  lemma ModStep(a: nat, p: nat)
    ensures (a % WORD + p) % WORD == (a + p) % WORD
  {
  }

  lemma AddAnother(x: bv32, low: bv32, a: nat, k: nat)
    requires k < 32 && Val(low) == a && Val(Add(x, low)) == (Val(x) + a) % WORD && a + Pow2(k) < WORD
    ensures var next := Add(low, Mask(k)); Val(next) == a + Pow2(k) && Val(Add(x, next)) == (Val(x) + a + Pow2(k)) % WORD
  {
    hide Add, Mask, Pow2, Val;
    AddMask(low, k);
    AddMask(Add(x, low), k);
    AddMore(x, low, Mask(k));
    ModStep(Val(x) + a, Pow2(k));
  }

  /** Adding the lowest k bits of y, one at a time. */
  lemma AddLow(x: bv32, y: bv32, k: nat) returns (low: bv32)
    requires k <= 32
    ensures Val(low) == BitSum(y, k) && Val(Add(x, low)) == (Val(x) + BitSum(y, k)) % WORD
  {
    hide Add, Mask, Pow2, Bit, Val;
    low := 0;
    AddMore(x, 0, 0);
    ZeroIs();
    if k > 0 {
      low := AddLow(x, y, k - 1);
      if Bit(y, k - 1) {
        SumGrows(y, k);
        AddAnother(x, low, BitSum(y, k - 1), k - 1);
        low := Add(low, Mask(k - 1));
      }
    }
  }

  lemma ZeroIs()
    ensures Val(0) == 0
  {
  }

  lemma Injective(v: bv32, w: bv32)
    requires Val(v) == Val(w)
    ensures v == w
  {
    Back(v);
    Back(w);
  }

  lemma Back(w: bv32)
    ensures (w as nat) as bv32 == w
  {
  }

  lemma AddVal(x: bv32, y: bv32)
    ensures Val(Add(x, y)) == (Val(x) + Val(y)) % WORD
  {
    hide Add, BitSum, Val;
    var low := AddLow(x, y, 32);
    ValueIs(y);
    Injective(low, y);
  }

  /** Addition of words is addition of numbers modulo 2^32. */
  lemma AddIs(x: bv32, y: bv32)
    ensures Add(x, y) as nat == (x as nat + y as nat) % WORD
  {
    hide Add;
    AddVal(x, y);
  }

  //  Numbers as words

  lemma OneIs()
    ensures Val(1) == 1
  {
  }

  /** Every number below 2^32 is that of a word. */
  lemma {:induction false} Reached(n: nat) returns (w: bv32)
    requires n < WORD
    ensures Val(w) == n
  {
    hide Add, Val;
    w := 0;
    ZeroIs();
    if n > 0 {
      w := Reached(n - 1);
      AddVal(w, 1);
      OneIs();
      w := Add(w, 1);
    }
  }

  lemma RoundTrip(n: nat)
    requires n < WORD
    ensures (n as bv32) as nat == n
  {
    var w := Reached(n);
    Back(w);
  }

  //  Rotation

  function Rotated(v: bv32): bv32 { (v << 1) | (v >> 31) }

  lemma RotateMask(v: bv32, m: bv32)
    requires m != 0 && m & (m - 1) == 0
    ensures ((v << 1) | (v >> 31)) & m != 0 <==> v & (if m == 1 then 0x8000_0000 else m >> 1) != 0
  {
  }

  lemma HalfDouble(m: bv32)
    requires m != 0 && m & (m - 1) == 0 && m != TOP
    ensures m << 1 != 1 && (m << 1) & ((m << 1) - 1) == 0 && m << 1 != 0 && (m << 1) >> 1 == m
  {
  }

  lemma RotateUp(v: bv32, m: bv32)
    requires Single(m) && m != TOP
    ensures Has((v << 1) | (v >> 31), m << 1) <==> Has(v, m)
  {
    HalfDouble(m);
    RotateMask(v, m << 1);
  }

  lemma RotateRound(v: bv32)
    ensures Has((v << 1) | (v >> 31), 1) <==> Has(v, TOP)
  {
    RotateMask(v, 1);
  }

  lemma RotatedBit(v: bv32, k: nat)
    requires k < 32
    ensures Bit(Rotated(v), k) == Bit(v, (k - 1) % 32)
  {
    hide Mask, Has, Single;
    if k == 0 {
      Powers0();
      Powers3();
      RotateRound(v);
    } else {
      MaskIs(k - 1);
      RotateUp(v, Mask(k - 1));
    }
  }

  lemma TurnOn(w: bv32, s: bv6)
    requires 1 <= s < 31
    ensures var v := (w << s) | (w >> (32 - s)); (w << (s + 1)) | (w >> (32 - (s + 1))) == (v << 1) | (v >> 31)
  {
  }

  lemma RotateNext(w: bv32, s: bv6)
    requires 1 <= s < 31
    ensures RotateLeft(w, s + 1) == Rotated(RotateLeft(w, s))
  {
    TurnOn(w, s);
  }

  lemma RotateFirst(w: bv32)
    ensures RotateLeft(w, 1) == Rotated(w)
  {
  }

  lemma CountDown(s: bv6)
    requires 1 < s < 32
    ensures 1 <= s - 1 < 31 && s - 1 + 1 == s && (s - 1) as nat == s as nat - 1
  {
  }

  lemma OneLess(k: nat, s: nat)
    ensures ((k - 1) % 32 - (s - 1)) % 32 == (k - s) % 32
  {
  }

  /** Bit k of a word rotated left by s places is bit k - s, modulo 32, of the word. */
  lemma RotateIs(w: bv32, s: bv6, k: nat)
    requires 0 < s < 32 && k < 32
    ensures Bit(RotateLeft(w, s), k) == Bit(w, (k - s as nat) % 32)
    decreases s
  {
    hide Bit, RotateLeft, Rotated;
    if s == 1 {
      RotateFirst(w);
      RotatedBit(w, k);
    } else {
      var t := s - 1;
      CountDown(s);
      RotateNext(w, t);
      RotatedBit(RotateLeft(w, t), k);
      RotateIs(w, t, (k - 1) % 32);
      OneLess(k, s as nat);
    }
  }

  //  Section 3.4 of RFC 1321: in each bit position F acts as "if X then Y else Z", G as "if Z then X else Y",
  //  H as the parity, and I as "Y differs from (X or not Z)".

  lemma SelectionBits(x: bv32, y: bv32, z: bv32, k: nat)
    requires k < 32
    ensures Bit(F(x, y, z), k) == if Bit(x, k) then Bit(y, k) else Bit(z, k)
    ensures Bit(G(x, y, z), k) == if Bit(z, k) then Bit(x, k) else Bit(y, k)
    ensures Bit(H(x, y, z), k) == ((Bit(x, k) != Bit(y, k)) != Bit(z, k))
    ensures Bit(I(x, y, z), k) == (Bit(y, k) != (Bit(x, k) || !Bit(z, k)))
  {
    hide Bit, F, G, H, I;
    FBit(x, y, z, k);
    GBit(x, y, z, k);
    HBit(x, y, z, k);
    IBit(x, y, z, k);
  }

  lemma SelectF(x: bv32, y: bv32, z: bv32, m: bv32)
    requires m & (m - 1) == 0
    ensures ((x & y) | (!x & z)) & m != 0 <==> if x & m != 0 then y & m != 0 else z & m != 0
  {
  }

  lemma SelectionF(x: bv32, y: bv32, z: bv32, m: bv32)
    requires Single(m)
    ensures Has((x & y) | (!x & z), m) <==> if Has(x, m) then Has(y, m) else Has(z, m)
  {
    SelectF(x, y, z, m);
  }

  lemma BitOfF(x: bv32, y: bv32, z: bv32, k: nat)
    requires k < 32
    ensures Bit((x & y) | (!x & z), k) == if Bit(x, k) then Bit(y, k) else Bit(z, k)
  {
    hide Mask, Has, Single;
    MaskIs(k);
    SelectionF(x, y, z, Mask(k));
  }

  lemma FBit(x: bv32, y: bv32, z: bv32, k: nat)
    requires k < 32
    ensures Bit(F(x, y, z), k) == if Bit(x, k) then Bit(y, k) else Bit(z, k)
  {
    hide Bit;
    BitOfF(x, y, z, k);
  }

  lemma SelectG(x: bv32, y: bv32, z: bv32, m: bv32)
    requires m & (m - 1) == 0
    ensures ((x & z) | (y & !z)) & m != 0 <==> if z & m != 0 then x & m != 0 else y & m != 0
  {
  }

  lemma SelectionG(x: bv32, y: bv32, z: bv32, m: bv32)
    requires Single(m)
    ensures Has((x & z) | (y & !z), m) <==> if Has(z, m) then Has(x, m) else Has(y, m)
  {
    SelectG(x, y, z, m);
  }

  lemma BitOfG(x: bv32, y: bv32, z: bv32, k: nat)
    requires k < 32
    ensures Bit((x & z) | (y & !z), k) == if Bit(z, k) then Bit(x, k) else Bit(y, k)
  {
    hide Mask, Has, Single;
    MaskIs(k);
    SelectionG(x, y, z, Mask(k));
  }

  lemma GBit(x: bv32, y: bv32, z: bv32, k: nat)
    requires k < 32
    ensures Bit(G(x, y, z), k) == if Bit(z, k) then Bit(x, k) else Bit(y, k)
  {
    hide Bit;
    BitOfG(x, y, z, k);
  }

  lemma SelectH(x: bv32, y: bv32, z: bv32, m: bv32)
    requires m & (m - 1) == 0
    ensures (x ^ y ^ z) & m != 0 <==> ((x & m != 0) != (y & m != 0)) != (z & m != 0)
  {
  }

  lemma SelectionH(x: bv32, y: bv32, z: bv32, m: bv32)
    requires Single(m)
    ensures Has(x ^ y ^ z, m) <==> (Has(x, m) != Has(y, m)) != Has(z, m)
  {
    SelectH(x, y, z, m);
  }

  lemma BitOfH(x: bv32, y: bv32, z: bv32, k: nat)
    requires k < 32
    ensures Bit(x ^ y ^ z, k) == ((Bit(x, k) != Bit(y, k)) != Bit(z, k))
  {
    hide Mask, Has, Single;
    MaskIs(k);
    SelectionH(x, y, z, Mask(k));
  }

  lemma HBit(x: bv32, y: bv32, z: bv32, k: nat)
    requires k < 32
    ensures Bit(H(x, y, z), k) == ((Bit(x, k) != Bit(y, k)) != Bit(z, k))
  {
    hide Bit;
    BitOfH(x, y, z, k);
  }

  lemma SelectI(x: bv32, y: bv32, z: bv32, m: bv32)
    requires m & (m - 1) == 0 && m != 0
    ensures (y ^ (x | !z)) & m != 0 <==> (y & m != 0) != (x & m != 0 || z & m == 0)
  {
  }

  lemma SelectionI(x: bv32, y: bv32, z: bv32, m: bv32)
    requires Single(m)
    ensures Has(y ^ (x | !z), m) <==> Has(y, m) != (Has(x, m) || !Has(z, m))
  {
    SelectI(x, y, z, m);
  }

  lemma BitOfI(x: bv32, y: bv32, z: bv32, k: nat)
    requires k < 32
    ensures Bit(y ^ (x | !z), k) == (Bit(y, k) != (Bit(x, k) || !Bit(z, k)))
  {
    hide Mask, Has, Single;
    MaskIs(k);
    SelectionI(x, y, z, Mask(k));
  }

  lemma IBit(x: bv32, y: bv32, z: bv32, k: nat)
    requires k < 32
    ensures Bit(I(x, y, z), k) == (Bit(y, k) != (Bit(x, k) || !Bit(z, k)))
  {
    hide Bit;
    BitOfI(x, y, z, k);
  }
}
