/** The bit helpers of dlcDef.h: the test for a power of two on machine words, the others as arithmetic on
    32-bit values. */
module Bits {

  const TWO_32: nat := 0x1_0000_0000

  function Pow2(k: nat): nat
    ensures Pow2(k) > 0
  {
    if k == 0 then 1 else 2 * Pow2(k - 1)
  }

  ghost predicate IsPowerOf2(n: nat) {
    exists k: nat :: n == Pow2(k)
  }

  lemma OddIsNoPower(n: nat)
    requires n > 1 && n % 2 == 1
    ensures !IsPowerOf2(n)
  {
    forall k: nat
      ensures n != Pow2(k)
    {
      assert k > 0 ==> Pow2(k) == 2 * Pow2(k - 1);
    }
  }

  lemma HalfOfPower(n: nat)
    requires n > 1 && n % 2 == 0
    ensures IsPowerOf2(n) <==> IsPowerOf2(n / 2)
  {
    if k: nat :| n == Pow2(k) {
      assert n / 2 == Pow2(k - 1);
    }
    if k: nat :| n / 2 == Pow2(k) {
      assert n == Pow2(k + 1);
    }
  }

  lemma Doubled(n: nat)
    requires IsPowerOf2(n)
    ensures IsPowerOf2(2 * n)
  {
    var k: nat :| n == Pow2(k);
    assert 2 * n == Pow2(k + 1);
  }

  lemma {:induction false} Pow2Add(a: nat, b: nat)
    ensures Pow2(a + b) == Pow2(a) * Pow2(b)
  {
    if a > 0 {
      Pow2Add(a - 1, b);
    }
  }

  lemma Pow2Values()
    ensures Pow2(16) == 0x1_0000 && Pow2(8) == 0x100 && Pow2(4) == 0x10 && Pow2(2) == 4
    ensures Pow2(31) == 0x8000_0000 && Pow2(32) == TWO_32
  {
    assert Pow2(4) == 16;
    Pow2Add(4, 4);
    Pow2Add(8, 8);
    Pow2Add(16, 16);
    assert Pow2(32) == 2 * Pow2(31);
  }

  lemma {:induction false} Pow2Grows(a: nat, b: nat)
    requires a < b
    ensures 2 * Pow2(a) <= Pow2(b)
  {
    if a + 1 < b {
      Pow2Grows(a, b - 1);
    }
  }

  // ---- the test on machine words ----

  /** w shifted left by one, with bit at the end. */
  function Append(w: bv32, bit: bv32): bv32 {
    (w << 1) | bit
  }

  function LowBit(n: nat): bv32 {
    if n % 2 == 1 then 1 else 0
  }

  /** The machine word with the binary digits of n. */
  function Word(n: nat): bv32 {
    if n == 0 then 0 else Append(Word(n / 2), LowBit(n))
  }

  /** is_power_of_2. */
  predicate HasOneBit(w: bv32) {
    w != 0 && w & (w - 1) == 0
  }

  /** k ones. */
  function Mask(k: nat): bv32 {
    if k == 0 then 0 else Append(Mask(k - 1), 1)
  }

  predicate Fits(w: bv32, mask: bv32) {
    w | mask == mask
  }

  lemma FitsLonger(w: bv32, mask: bv32, bit: bv32)
    requires bit <= 1
    ensures Fits(w, mask) ==> Fits(Append(w, bit), Append(mask, 1))
    ensures Fits(0, mask)
  {
  }

  lemma {:induction false} WordFits(n: nat, k: nat)
    requires n < Pow2(k)
    ensures Fits(Word(n), Mask(k))
  {
    hide Fits, Append;
    FitsLonger(0, Mask(k), 0);
    if n > 0 {
      WordFits(n / 2, k - 1);
      FitsLonger(Word(n / 2), Mask(k - 1), LowBit(n));
    }
  }

  lemma MaskGrows(k: nat, m: bv32)
    requires m == Mask(k)
    ensures Mask(k + 4) == (m << 4) | 0xF
  {
    FourLonger(m);
    hide Append;
    assert Mask(k + 2) == Append(Append(m, 1), 1);
  }

  lemma FourLonger(m: bv32)
    ensures Append(Append(Append(Append(m, 1), 1), 1), 1) == (m << 4) | 0xF
  {
  }

  lemma HalfMask()
    ensures Mask(31) == 0x7FFF_FFFF
  {
    assert Mask(3) == Append(Append(Append(0, 1), 1), 1) == 7;
    hide *;
    MaskGrows(3, 7);
    MaskGrows(7, 0x7F);
    MaskGrows(11, 0x7FF);
    MaskGrows(15, 0x7FFF);
    MaskGrows(19, 0x7_FFFF);
    MaskGrows(23, 0x7F_FFFF);
    MaskGrows(27, 0x7FF_FFFF);
  }

  /** So nothing is shifted out when the word of a 32-bit number is put together. */
  lemma HalfWord(n: nat)
    requires n < TWO_32
    ensures Word(n / 2) <= 0x7FFF_FFFF
  {
    Pow2Values();
    HalfMask();
    WordFits(n / 2, 31);
    InHalf(Word(n / 2));
  }

  lemma InHalf(w: bv32)
    requires Fits(w, 0x7FFF_FFFF)
    ensures w <= 0x7FFF_FFFF
  {
  }

  lemma OneBitHalves(w: bv32, bit: bv32)
    requires w <= 0x7FFF_FFFF && bit <= 1
    ensures HasOneBit(Append(w, bit)) <==> if bit == 1 then w == 0 else HasOneBit(w)
    ensures Append(w, bit) == 0 <==> w == 0 && bit == 0
  {
  }

  lemma {:induction false} WordIsZero(n: nat)
    requires n < TWO_32
    ensures Word(n) == 0 <==> n == 0
  {
    hide HasOneBit, Append;
    if n > 0 {
      WordIsZero(n / 2);
      HalfWord(n);
      OneBitHalves(Word(n / 2), LowBit(n));
    }
  }

  /** The bit trick n & (n - 1) == 0 is right about every 32-bit number. */
  lemma {:induction false} OneBitIsPower(n: nat)
    requires n < TWO_32
    ensures HasOneBit(Word(n)) <==> IsPowerOf2(n)
  {
    if n == 0 {
      assert !HasOneBit(0);
    } else {
      hide HasOneBit, Append;
      HalfWord(n);
      WordIsZero(n / 2);
      OneBitHalves(Word(n / 2), LowBit(n));
      if n == 1 {
        assert Pow2(0) == 1;
      } else if n % 2 == 1 {
        OddIsNoPower(n);
      } else {
        HalfOfPower(n);
        OneBitIsPower(n / 2);
      }
    }
  }

  /** val is v shifted left by 32 - bit. */
  ghost predicate Shifted(v: nat, val: nat, bit: nat) {
    bit <= 32 && val == v * Pow2(32 - bit) && val < TWO_32
  }

  lemma MulAssoc(a: nat, b: nat, c: nat)
    ensures a * b * c == a * (b * c)
  {
  }

  lemma Cancel(a: nat, b: nat, p: nat)
    requires p > 0
    ensures a * p < b * p <==> a < b
  {
    if a < b {
      assert (b - a) * p > 0;
    } else {
      assert (a - b) * p >= 0;
    }
  }

  lemma ShiftOn(v: nat, val: nat, bit: nat, w: nat)
    requires Shifted(v, val, bit) && w <= bit && w <= 16 && Pow2(32 - 2 * w) <= val < Pow2(32 - w)
    ensures Shifted(v, val * Pow2(w), bit - w) && Pow2(32 - w) <= val * Pow2(w)
  {
    hide Pow2;
    Pow2Values();
    Pow2Add(32 - bit, w);
    Pow2Add(32 - 2 * w, w);
    Pow2Add(32 - w, w);
    assert 32 - bit + w == 32 - (bit - w) && 32 - 2 * w + w == 32 - w && 32 - w + w == 32;
    MulAssoc(v, Pow2(32 - bit), Pow2(w));
    Cancel(val, Pow2(32 - w), Pow2(w));
    Cancel(val, Pow2(32 - 2 * w), Pow2(w));
  }

  /** One halving step of __fls: if the top w bits of val are clear, they are shifted out. */
  method Step(ghost v: nat, val: nat, bit: nat, w: nat, mask: nat) returns (val': nat, bit': nat)
    requires Shifted(v, val, bit) && 1 <= w <= 16 && w <= bit && mask == Pow2(32 - w) && Pow2(32 - 2 * w) <= val
    ensures Shifted(v, val', bit') && bit' >= bit - w && Pow2(32 - w) <= val'
  {
    hide Pow2;
    val', bit' := val, bit;
    if val < mask {
      ShiftOn(v, val, bit, w);
      val' := val * Pow2(w);
      bit' := bit - w;
    }
  }

  /** __fls: the position of the highest bit set, counted from 1; 0 for 0. */
  method Fls(v: nat) returns (bit: nat)
    requires v < TWO_32
    ensures v == 0 ==> bit == 0
    ensures v > 0 ==> 1 <= bit <= 32 && Pow2(bit - 1) <= v < Pow2(bit)
  {
    if v == 0 {
      return 0;
    }
    Pow2Values();
    Pow2Add(16, 8);
    Pow2Add(24, 4);
    Pow2Add(28, 2);
    assert Pow2(0) == 1;
    assert Shifted(v, v, 32);
    hide Pow2;
    var val;
    val, bit := Step(v, v, 32, 16, 0x1_0000);
    val, bit := Step(v, val, bit, 8, 0x100_0000);
    val, bit := Step(v, val, bit, 4, 0x1000_0000);
    val, bit := Step(v, val, bit, 2, 0x4000_0000);
    ghost var top := bit;
    if val < 0x8000_0000 {
      bit := bit - 1;
    }
    TopBit(v, val, top);
  }

  lemma TopBit(v: nat, val: nat, bit: nat)
    requires Shifted(v, val, bit) && bit >= 2 && Pow2(30) <= val
    ensures val < Pow2(31) ==> Pow2(bit - 2) <= v < Pow2(bit - 1)
    ensures val >= Pow2(31) ==> Pow2(bit - 1) <= v < Pow2(bit)
  {
    Pow2Values();
    Pow2Add(bit - 2, 32 - bit);
    Pow2Add(bit - 1, 32 - bit);
    Pow2Add(bit, 32 - bit);
    hide Pow2;
    var p := Pow2(32 - bit);
    Cancel(v, Pow2(bit - 2), p);
    Cancel(v, Pow2(bit - 1), p);
    Cancel(v, Pow2(bit), p);
  }

  /** __rounddown_pow_of_two: the largest power of two below x. */
  method RoundDownPowOfTwo(x: nat) returns (r: nat)
    requires 2 <= x < TWO_32
    ensures IsPowerOf2(r) && r < x <= 2 * r
  {
    var bit := Fls(x - 1);
    r := Pow2(bit) / 2;
    assert r == Pow2(bit - 1);
  }

  // ---- remainders, for masking with size - 1 where size is a power of two ----

  lemma MulBounds(n: nat, m: int)
    ensures m > 0 ==> n * m >= n
    ensures m < 0 ==> n * m <= -(n as int)
  {
    if m > 0 {
      assert n * (m - 1) >= 0;
    } else if m < 0 {
      assert n * (-m - 1) >= 0;
    }
  }

  lemma NoMultipleBelow(d: int, n: nat, m: int)
    requires d == n * m && -(n as int) < d < n
    ensures m == 0
  {
    MulBounds(n, m);
  }

  lemma ModUnique(a: nat, n: nat, q: int, r: nat)
    requires a == n * q + r && r < n
    ensures a % n == r && Slot(a, n) == r
  {
    NoMultipleBelow(r - a % n, n, a / n - q);
  }

  lemma RemainderOfRemainder(a: nat, n: nat, f: nat)
    requires n > 0 && f > 0 && n * f > 0
    ensures (a % (n * f)) % n == a % n
  {
    var w, q := a % (n * f), a / (n * f);
    MulAssoc(n, f, q);
    assert a == n * (f * q + w / n) + w % n;
    ModUnique(a, n, f * q + w / n, w % n);
  }

  /** A 32-bit counter that has wrapped still selects the right slot. */
  lemma WrapKeepsSlot(total: nat, n: nat)
    requires IsPowerOf2(n) && n <= TWO_32
    ensures Slot(Low32(total), n) == Slot(total, n)
  {
    var k: nat :| n == Pow2(k);
    Pow2Values();
    if k > 32 {
      Pow2Grows(32, k);
    }
    Pow2Add(k, 32 - k);
    hide Pow2;
    RemainderOfRemainder(total, n, Pow2(32 - k));
  }

  // ---- masking with size - 1 on machine words ----

  lemma AndAppend(w: bv32, mask: bv32, bit: bv32)
    requires bit <= 1
    ensures Append(w, bit) & Append(mask, 1) == Append(w & mask, bit)
    ensures Append(0, 0) == 0 && w & 0 == 0
  {
  }

  lemma HalfRemainder(x: nat, p: nat)
    requires p > 0
    ensures (x % (2 * p)) / 2 == (x / 2) % p && (x % (2 * p)) % 2 == x % 2
  {
    var h := x / 2;
    MulAssoc(2, p, h / p);
    ModUnique(x, 2 * p, h / p, 2 * (h % p) + x % 2);
  }

  lemma WordStep(n: nat)
    ensures Word(n) == Append(Word(n / 2), LowBit(n)) && LowBit(n) <= 1
  {
    if n == 0 {
      AndAppend(0, 0, 0);
    }
  }

  lemma {:induction false} MaskTakesRemainder(x: nat, k: nat)
    ensures Word(x) & Mask(k) == Word(x % Pow2(k))
  {
    if k == 0 {
      AndAppend(Word(x), 0, 0);
    } else {
      var r := x % Pow2(k);
      assert Pow2(k) == 2 * Pow2(k - 1) && Mask(k) == Append(Mask(k - 1), 1);
      HalfRemainder(x, Pow2(k - 1));
      assert LowBit(r) == LowBit(x);
      hide *;
      MaskTakesRemainder(x / 2, k - 1);
      WordStep(x);
      WordStep(r);
      AndAppend(Word(x / 2), Mask(k - 1), LowBit(x));
    }
  }

  lemma {:induction false} WordOfMask(k: nat)
    ensures Word(Pow2(k) - 1) == Mask(k)
  {
    hide Append;
    if k > 0 {
      WordOfMask(k - 1);
      assert (Pow2(k) - 1) / 2 == Pow2(k - 1) - 1;
    }
  }

  /** The mask with size - 1 finds the slot, where the size is a power of two. */
  lemma MaskIsSlot(x: nat, n: nat)
    requires IsPowerOf2(n)
    ensures n > 0 && Word(x) & Word(n - 1) == Word(Slot(x, n))
  {
    var k: nat :| n == Pow2(k);
    MaskTakesRemainder(x, k);
    WordOfMask(k);
  }

  lemma AddToSlot(a: nat, j: nat, n: nat)
    requires n > 0
    ensures Slot(Slot(a, n) + j, n) == Slot(a + j, n)
  {
    var b := a % n + j;
    assert a + j == n * (a / n + b / n) + b % n;
    ModUnique(a + j, n, a / n + b / n, b % n);
  }

  /** Counters less than a lap apart select different slots. */
  lemma SlotsDiffer(a: nat, b: nat, n: nat)
    requires a < b < a + n
    ensures Slot(a, n) != Slot(b, n)
  {
    if a % n == b % n {
      NoMultipleBelow(b - a, n, b / n - a / n);
    }
  }

  /** The low 32 bits of a counter. */
  function Low32(n: nat): (k: nat)
    ensures k < TWO_32
  {
    n % TWO_32
  }

  /** Where element number i of a stream lives in a ring of n slots. */
  function Slot(i: nat, n: nat): (k: nat)
    requires n > 0
    ensures k < n
  {
    i % n
  }

  /** The j-th slot from offset on, in the layout of two copies split at the end of the ring. */
  function SplitSlot(offset: nat, j: nat, n: nat): (k: nat)
    requires offset < n && j < n
    ensures k < n
  {
    if j < n - offset then offset + j else j - (n - offset)
  }

  lemma SplitIsSlot(total: nat, j: nat, n: nat)
    requires j < n
    ensures Slot(total + j, n) == SplitSlot(Slot(total, n), j, n)
  {
    AddToSlot(total, j, n);
    var k := Slot(total, n);
    hide Slot;
    if j >= n - k {
      ModUnique(k + j, n, 1, j - (n - k));
    } else {
      ModUnique(k + j, n, 0, k + j);
    }
  }
}
