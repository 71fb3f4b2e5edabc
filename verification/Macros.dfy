/** The bit macros at the top of kernel/vmem.c on 64-bit words, and the proof that they compute the integer
    formulas the page-table model uses. */
module Macros {
  import opened Kalloc
  import opened PageTree

  // ---- the macros ----------------------------------------------------------------------

  const ADDRESS_FIELD: bv64 := 0x0000_FFFF_FFFF_F000

  /** LVL_ADDR. */
  function LevelIndex(addr: bv64, level: nat): bv64
    requires level <= 3
  {
    (if level == 0 then addr >> 39 else if level == 1 then addr >> 30
     else if level == 2 then addr >> 21 else addr >> 12) & 0x1FF
  }

  function SetBit(addr: bv64, bit: bv64, val: bv64): bv64
    requires bit < 64
  {
    (addr & !(1 << bit)) | (val << bit)
  }

  function GetBit(addr: bv64, bit: bv64): bv64
    requires bit < 64
  {
    (addr & (1 << bit)) >> bit
  }

  function SetPhysical(addr: bv64, phys: bv64): bv64 {
    (addr & !ADDRESS_FIELD) | ((phys << 12) & ADDRESS_FIELD)
  }

  function GetPhysical(addr: bv64): bv64 {
    (addr & ADDRESS_FIELD) >> 12
  }

  function SetMair(addr: bv64, index: bv64): bv64 {
    SetBit(SetBit(SetBit(addr, 4, 1 & (index >> 2)), 3, 1 & (index >> 1)), 2, 1 & index)
  }

  function NextLevelPage(addr: bv64): bv64 {
    SetBit(SetBit(addr, 1, 0), 0, 1)
  }

  function NextLevelInvalid(addr: bv64): bv64 {
    SetBit(SetBit(addr, 1, 0), 0, 0)
  }

  /** PGDPUD_ENTRY and PMD_ENTRY. */
  function TableWord(addr: bv64, phys: bv64): bv64 {
    SetBit(SetBit(SetBit(NextLevelPage(SetPhysical(addr, phys)), 54, 0), 10, 1), 53, 0)
  }

  /** KERNEL_ENTRY. */
  function KernelWord(addr: bv64, phys: bv64): bv64 {
    SetBit(SetBit(SetBit(SetBit(SetMair(NextLevelInvalid(SetPhysical(addr, phys)), 1), 6, 0), 10, 1), 54, 0), 53, 1)
  }

  /** DEVICE_ENTRY. */
  function DeviceWord(addr: bv64, phys: bv64): bv64 {
    var w := SetMair(NextLevelInvalid(SetPhysical(addr, phys)), 0);
    SetBit(SetBit(SetBit(SetBit(SetBit(w, 6, 0), 7, 0), 10, 1), 54, 0), 53, 1)
  }

  /** USER_ENTRY. */
  function UserWord(addr: bv64, phys: bv64): bv64 {
    var w := SetMair(NextLevelInvalid(SetPhysical(addr, phys)), 1);
    SetBit(SetBit(SetBit(SetBit(SetBit(w, 6, 1), 7, 0), 10, 1), 54, 1), 53, 1)
  }

  // ---- words as integers ---------------------------------------------------------------

  predicate Odd(w: bv64) {
    w & 1 == 1
  }

  function Half(w: bv64): bv64 {
    w >> 1
  }

  function And(a: bv64, b: bv64): bv64 {
    a & b
  }

  /** The number a word denotes. */
  function ToInt(w: bv64): (n: nat)
    decreases w
  {
    if w == 0 then 0 else (if Odd(w) then 1 else 0) + 2 * ToInt(Half(w))
  }

  lemma Halve(w: bv64)
    ensures ToInt(Half(w)) == ToInt(w) / 2 && (Odd(w) <==> ToInt(w) % 2 == 1)
  {
  }

  function Power2(k: nat): (p: nat)
    ensures p > 0
  {
    if k == 0 then 1 else 2 * Power2(k - 1)
  }

  /** Shifting right bit by bit. */
  function Right(w: bv64, k: nat): bv64 {
    if k == 0 then w else Half(Right(w, k - 1))
  }

  lemma {:induction false} RightIsQuotient(w: bv64, k: nat)
    ensures ToInt(Right(w, k)) == ToInt(w) / Power2(k)
  {
    if k > 0 {
      RightIsQuotient(w, k - 1);
      assert Right(w, k) == Half(Right(w, k - 1)) && Power2(k) == 2 * Power2(k - 1);
      var v := Right(w, k - 1);
      hide *;
      Halve(v);
      Quotient(ToInt(w), Power2(k - 1));
    }
  }

  lemma Quotient(x: nat, k: nat)
    requires k > 0
    ensures x / k / 2 == x / (2 * k)
  {
    var q, r := x / k, x % k;
    Product(q, k);
    assert x == q * k + r && 0 <= q % 2 * k <= k;
    UniqueQuotient(x, 2 * k, q / 2, q % 2 * k + r);
  }

  lemma Product(q: nat, k: nat)
    ensures q * k == q / 2 * (2 * k) + q % 2 * k
  {
    assert q == q / 2 * 2 + q % 2;
  }

  lemma UniqueQuotient(x: nat, k: nat, q: nat, r: nat)
    requires k > 0 && x == q * k + r && r < k
    ensures x / k == q && x % k == r
  {
    var q', r' := x / k, x % k;
    assert x == q' * k + r';
    if q < q' {
      Multiple(q' - q, k);
    } else if q > q' {
      Multiple(q - q', k);
    }
  }

  lemma Multiple(d: int, k: nat)
    requires d > 0
    ensures d * k >= k
  {
    assert d * k == (d - 1) * k + k;
  }

  /** 2^k - 1. */
  predicate IsMask(m: bv64) {
    m & (m + 1) == 0
  }

  lemma MaskBits(w: bv64, m: bv64)
    requires m != 0 && IsMask(m)
    ensures Odd(m) && (Odd(And(w, m)) <==> Odd(w)) && Half(And(w, m)) == And(Half(w), Half(m))
    ensures IsMask(Half(m)) && Half(m) < m
  {
  }

  lemma MaskZero(w: bv64)
    ensures And(w, 0) == 0 && ToInt(0) == 0
  {
  }

  /** Masking with 2^k - 1 is remainder. */
  lemma {:induction false} MaskIsRemainder(w: bv64, m: bv64)
    requires IsMask(m)
    ensures ToInt(And(w, m)) == ToInt(w) % (ToInt(m) + 1)
    decreases m
  {
    if m == 0 {
      MaskZero(w);
    } else {
      hide *;
      MaskBits(w, m);
      MaskIsRemainder(Half(w), Half(m));
      Halve(w);
      Halve(m);
      Halve(And(w, m));
      MaskStep(ToInt(w), ToInt(m), ToInt(And(w, m)));
    }
  }

  lemma MaskStep(w: nat, m: nat, r: nat)
    requires m % 2 == 1 && r % 2 == w % 2 && r / 2 == w / 2 % (m / 2 + 1)
    ensures r == w % (m + 1)
  {
    Remainder(w, m / 2 + 1);
    assert m + 1 == 2 * (m / 2 + 1);
  }

  lemma Remainder(x: nat, k: nat)
    requires k > 0
    ensures x % (2 * k) == 2 * (x / 2 % k) + x % 2
  {
    var q, r := x / 2 / k, x / 2 % k;
    assert x / 2 == q * k + r;
    assert q * (2 * k) == 2 * (q * k);
    UniqueQuotient(x, 2 * k, q, 2 * r + x % 2);
  }

  // ---- literal shifts ------------------------------------------------------------------

  /** The shift amounts that occur in the macros, and steps towards them. */
  function Shift(w: bv64, k: nat): bv64 {
    if k == 3 then w >> 3
    else if k == 6 then w >> 6
    else if k == 9 then w >> 9
    else if k == 10 then w >> 10
    else if k == 12 then w >> 12
    else if k == 21 then w >> 21
    else if k == 30 then w >> 30
    else if k == 39 then w >> 39
    else if k == 48 then w >> 48
    else w >> 1
  }

  lemma To9(w: bv64)
    ensures Shift(Shift(w, 3), 3) == Shift(w, 6) && Shift(Shift(w, 6), 3) == Shift(w, 9)
  {
  }

  lemma To10(w: bv64)
    ensures Shift(Shift(w, 9), 1) == Shift(w, 10)
  {
  }

  lemma To12(w: bv64)
    ensures Shift(Shift(w, 9), 3) == Shift(w, 12)
  {
  }

  lemma To30(w: bv64)
    ensures Shift(Shift(w, 12), 9) == Shift(w, 21) && Shift(Shift(w, 21), 9) == Shift(w, 30)
  {
  }

  lemma To48(w: bv64)
    ensures Shift(Shift(w, 30), 9) == Shift(w, 39) && Shift(Shift(w, 39), 9) == Shift(w, 48)
  {
  }

  lemma OneToThree(w: bv64)
    ensures Half(w) == Shift(w, 1) && Half(Half(Half(w))) == Shift(w, 3)
  {
  }

  lemma ShiftSteps(w: bv64)
    ensures Shift(Shift(w, 3), 3) == Shift(w, 6) && Shift(Shift(w, 6), 3) == Shift(w, 9)
    ensures Shift(Shift(w, 9), 1) == Shift(w, 10) && Shift(Shift(w, 9), 3) == Shift(w, 12)
    ensures Shift(Shift(w, 12), 9) == Shift(w, 21) && Shift(Shift(w, 21), 9) == Shift(w, 30)
    ensures Shift(Shift(w, 30), 9) == Shift(w, 39) && Shift(Shift(w, 39), 9) == Shift(w, 48)
    ensures Half(w) == Shift(w, 1) && Half(Half(Half(w))) == Shift(w, 3)
  {
    hide *;
    To9(w);
    To10(w);
    To12(w);
    To30(w);
    To48(w);
    OneToThree(w);
  }

  lemma {:induction false} RightTwice(w: bv64, a: nat, b: nat)
    ensures Right(Right(w, a), b) == Right(w, a + b)
  {
    if b > 0 {
      RightTwice(w, a, b - 1);
      hide Half;
      assert Right(Right(w, a), b) == Half(Right(Right(w, a), b - 1));
      assert Right(w, a + b) == Half(Right(w, a + b - 1));
    }
  }

  lemma Right3(w: bv64)
    ensures Right(w, 1) == Shift(w, 1) && Right(w, 3) == Shift(w, 3)
  {
    hide Half, Shift;
    ShiftSteps(w);
    assert Right(w, 1) == Half(w);
    assert Right(w, 2) == Half(Half(w));
  }

  lemma RightStep(w: bv64, a: nat, b: nat)
    requires Right(w, a) == Shift(w, a) && Right(Shift(w, a), b) == Shift(Shift(w, a), b) == Shift(w, a + b)
    ensures Right(w, a + b) == Shift(w, a + b)
  {
    hide *;
    RightTwice(w, a, b);
  }

  lemma Right9(w: bv64)
    ensures Right(w, 9) == Shift(w, 9)
  {
    hide *;
    ShiftSteps(w);
    Right3(w);
    Right3(Shift(w, 3));
    RightStep(w, 3, 3);
    Right3(Shift(w, 6));
    RightStep(w, 6, 3);
  }

  lemma RightIsShift(w: bv64)
    ensures Right(w, 10) == Shift(w, 10) && Right(w, 12) == Shift(w, 12) && Right(w, 21) == Shift(w, 21)
    ensures Right(w, 30) == Shift(w, 30) && Right(w, 39) == Shift(w, 39) && Right(w, 48) == Shift(w, 48)
  {
    hide *;
    ShiftSteps(w);
    Right9(w);
    Right3(Shift(w, 9));
    RightStep(w, 9, 1);
    RightStep(w, 9, 3);
    Right9(Shift(w, 12));
    RightStep(w, 12, 9);
    Right9(Shift(w, 21));
    RightStep(w, 21, 9);
    Right9(Shift(w, 30));
    RightStep(w, 30, 9);
    Right9(Shift(w, 39));
    RightStep(w, 39, 9);
  }

  /** Shifting right is division. */
  lemma ShiftIsQuotient(w: bv64)
    ensures ToInt(Shift(w, 10)) == ToInt(w) / 1024 && ToInt(Shift(w, 12)) == ToInt(w) / 0x1000
    ensures ToInt(Shift(w, 21)) == ToInt(w) / 0x20_0000 && ToInt(Shift(w, 30)) == ToInt(w) / 0x4000_0000
    ensures ToInt(Shift(w, 39)) == ToInt(w) / 0x80_0000_0000 && ToInt(Shift(w, 48)) == ToInt(w) / 0x1_0000_0000_0000
  {
    hide *;
    RightIsShift(w);
    Powers();
    RightIsQuotient(w, 10);
    RightIsQuotient(w, 12);
    RightIsQuotient(w, 21);
    RightIsQuotient(w, 30);
    RightIsQuotient(w, 39);
    RightIsQuotient(w, 48);
  }

  lemma Powers()
    ensures Power2(10) == 1024 && Power2(12) == 0x1000 && Power2(21) == 0x20_0000 && Power2(30) == 0x4000_0000
    ensures Power2(39) == 0x80_0000_0000 && Power2(48) == 0x1_0000_0000_0000 && Power2(36) == PHYS_LIMIT
  {
    PowerSum(12, 9);
    PowerSum(21, 9);
    PowerSum(30, 9);
    PowerSum(30, 6);
    PowerSum(39, 9);
  }

  lemma {:induction false} PowerSum(a: nat, b: nat)
    ensures Power2(a + b) == Power2(a) * Power2(b)
  {
    if b > 0 {
      PowerSum(a, b - 1);
    }
  }

  // ---- the macros compute the model's formulas ------------------------------------------

  lemma SmallNumbers()
    ensures ToInt(1) == 1 && ToInt(0x20) == 0x20 && ToInt(0x60) == 0x60 && ToInt(0x1FF) == 511 && ToInt(0) == 0
    ensures ToInt(0x400) == 1024 && ToInt(0x401) == 1025 && ToInt(0x404) == 1028 && ToInt(0x444) == 1092
    ensures ToInt(0xFFF) == 4095
  {
    assert ToInt(1) == 1;
  }

  lemma Masks()
    ensures IsMask(1) && IsMask(0x1FF) && IsMask(0xFFF) && IsMask(0xF_FFFF_FFFF)
  {
  }

  lemma FieldMask()
    ensures ToInt(0xF_FFFF_FFFF) == PHYS_LIMIT - 1
  {
    var m: bv64 := 0xF_FFFF_FFFF;
    assert And(m, 0xFFF) == 0xFFF && Shift(m, 12) == 0xFF_FFFF;
    assert And(0xFF_FFFF, 0xFFF) == 0xFFF && Shift(0xFF_FFFF, 12) == 0xFFF;
    hide *;
    SmallNumbers();
    Masks();
    ShiftIsQuotient(m);
    MaskIsRemainder(m, 0xFFF);
    ShiftIsQuotient(0xFF_FFFF);
    MaskIsRemainder(0xFF_FFFF, 0xFFF);
  }

  lemma IndexForm(va: bv64, level: nat)
    requires level <= 3
    ensures LevelIndex(va, level) ==
      And(Shift(va, if level == 0 then 39 else if level == 1 then 30 else if level == 2 then 21 else 12), 0x1FF)
  {
  }

  /** LVL_ADDR selects the model's index. */
  lemma IndexBits(va: bv64, level: nat)
    requires level <= 3
    ensures ToInt(LevelIndex(va, level)) == Index(ToInt(va), level)
  {
    hide ToInt, LevelIndex, And, Shift, IsMask;
    IndexForm(va, level);
    SmallNumbers();
    Masks();
    ShiftIsQuotient(va);
    MaskIsRemainder(Shift(va, if level == 0 then 39 else if level == 1 then 30 else if level == 2 then 21 else 12),
                    0x1FF);
  }

  /** GET_PAGE_SET is the model's presence test. */
  lemma PresentBit(w: bv64)
    ensures GetBit(w, 10) != 0 <==> Present(ToInt(w))
  {
    assert GetBit(w, 10) != 0 <==> Odd(Shift(w, 10));
    hide ToInt, GetBit, Shift, Odd;
    ShiftIsQuotient(w);
    Halve(Shift(w, 10));
  }

  lemma PhysicalForm(w: bv64)
    ensures GetPhysical(w) == And(Shift(w, 12), 0xF_FFFF_FFFF)
  {
  }

  /** GET_PHYSICAL_ADDR is the model's address field. */
  lemma PhysicalBits(w: bv64)
    ensures ToInt(GetPhysical(w)) == Phys(ToInt(w))
  {
    hide ToInt, GetPhysical, Shift, And, IsMask;
    PhysicalForm(w);
    FieldMask();
    Masks();
    ShiftIsQuotient(w);
    MaskIsRemainder(Shift(w, 12), 0xF_FFFF_FFFF);
  }

  /** Writing the address field and reading it back gives the address exactly when it has at most 36 bits, and
      changes no other bit. */
  lemma PhysicalRoundTrip(w: bv64, phys: bv64)
    ensures GetPhysical(SetPhysical(w, phys)) == phys <==> phys < 0x10_0000_0000
    ensures SetPhysical(w, phys) & !ADDRESS_FIELD == w & !ADDRESS_FIELD
  {
  }

  /** Attribute bits, address field and low bits of an entry. */
  function Word(high: bv64, pa: bv64, low: bv64): bv64 {
    (high << 48) | ((pa & 0xF_FFFF_FFFF) << 12) | low
  }

  lemma SetLow(high: bv64, pa: bv64, low: bv64, bit: bv64, val: bv64)
    requires bit < 12 && low < 0x1000 && val <= 1
    ensures SetBit(Word(high, pa, low), bit, val) == Word(high, pa, SetBit(low, bit, val))
    ensures SetBit(low, bit, val) < 0x1000
  {
  }

  lemma SetHigh(high: bv64, pa: bv64, low: bv64, val: bv64)
    requires low < 0x1000 && high < 0x1_0000 && val <= 1
    ensures SetBit(Word(high, pa, low), 54, val) == Word(SetBit(high, 6, val), pa, low)
    ensures SetBit(Word(high, pa, low), 53, val) == Word(SetBit(high, 5, val), pa, low)
  {
    Set54(high, pa, low, val);
    Set53(high, pa, low, val);
    hide *;
  }

  lemma Set54(high: bv64, pa: bv64, low: bv64, val: bv64)
    requires low < 0x1000 && high < 0x1_0000 && val <= 1
    ensures SetBit(Word(high, pa, low), 54, val) == Word(SetBit(high, 6, val), pa, low)
  {
  }

  lemma Set53(high: bv64, pa: bv64, low: bv64, val: bv64)
    requires low < 0x1000 && high < 0x1_0000 && val <= 1
    ensures SetBit(Word(high, pa, low), 53, val) == Word(SetBit(high, 5, val), pa, low)
  {
  }

  lemma StartWord(pa: bv64)
    ensures SetPhysical(0, pa) == Word(0, pa, 0)
  {
  }

  lemma BitValues()
    ensures SetBit(0, 0, 0) == 0 && SetBit(0, 1, 0) == 0 && SetBit(0, 2, 0) == 0 && SetBit(0, 3, 0) == 0
    ensures SetBit(0, 4, 0) == 0
    ensures SetBit(0, 0, 1) == 1 && SetBit(0, 2, 1) == 4 && SetBit(1, 10, 1) == 0x401 && SetBit(4, 10, 1) == 0x404
    ensures SetBit(4, 6, 0) == 4 && SetBit(4, 6, 1) == 0x44 && SetBit(0x44, 7, 0) == 0x44
    ensures SetBit(0x44, 10, 1) == 0x444
    ensures SetBit(0, 6, 0) == 0 && SetBit(0, 7, 0) == 0 && SetBit(0, 10, 1) == 0x400
  {
  }

  lemma HighValues()
    ensures SetBit(0, 6, 0) == 0 && SetBit(0, 5, 0) == 0 && SetBit(0, 5, 1) == 0x20 && SetBit(0, 6, 1) == 0x40
    ensures SetBit(0x40, 5, 1) == 0x60
  {
  }

  lemma TableForm(pa: bv64)
    ensures TableWord(0, pa) == Word(0, pa, 0x401)
  {
    hide SetBit, Word, SetPhysical;
    BitValues();
    HighValues();
    StartWord(pa);
    SetLow(0, pa, 0, 1, 0);
    SetLow(0, pa, 0, 0, 1);
    SetHigh(0, pa, 1, 0);
    SetLow(0, pa, 1, 10, 1);
    SetHigh(0, pa, 0x401, 0);
  }

  /** The steps KERNEL_ENTRY, DEVICE_ENTRY and USER_ENTRY begin with. */
  lemma LeafStart(pa: bv64, mair: bv64)
    requires mair <= 1
    ensures SetMair(NextLevelInvalid(SetPhysical(0, pa)), mair) == Word(0, pa, if mair == 1 then 4 else 0)
  {
    assert 1 & (mair >> 2) == 0 && 1 & (mair >> 1) == 0 && 1 & mair == mair;
    hide SetBit, Word, SetPhysical;
    BitValues();
    StartWord(pa);
    SetLow(0, pa, 0, 1, 0);
    SetLow(0, pa, 0, 0, 0);
    SetLow(0, pa, 0, 4, 0);
    SetLow(0, pa, 0, 3, 0);
    SetLow(0, pa, 0, 2, mair);
  }

  lemma KernelForm(pa: bv64)
    ensures KernelWord(0, pa) == Word(0x20, pa, 0x404)
  {
    hide SetBit, Word, SetPhysical, SetMair, NextLevelInvalid;
    BitValues();
    HighValues();
    LeafStart(pa, 1);
    SetLow(0, pa, 4, 6, 0);
    SetLow(0, pa, 4, 10, 1);
    SetHigh(0, pa, 0x404, 0);
    SetHigh(0, pa, 0x404, 1);
  }

  lemma DeviceForm(pa: bv64)
    ensures DeviceWord(0, pa) == Word(0x20, pa, 0x400)
  {
    hide SetBit, Word, SetPhysical, SetMair, NextLevelInvalid;
    BitValues();
    HighValues();
    LeafStart(pa, 0);
    SetLow(0, pa, 0, 6, 0);
    SetLow(0, pa, 0, 7, 0);
    SetLow(0, pa, 0, 10, 1);
    SetHigh(0, pa, 0x400, 0);
    SetHigh(0, pa, 0x400, 1);
  }

  lemma UserForm(pa: bv64)
    ensures UserWord(0, pa) == Word(0x60, pa, 0x444)
  {
    hide SetBit, Word, SetPhysical, SetMair, NextLevelInvalid;
    BitValues();
    HighValues();
    LeafStart(pa, 1);
    SetLow(0, pa, 4, 6, 1);
    SetLow(0, pa, 0x44, 7, 0);
    SetLow(0, pa, 0x44, 10, 1);
    SetHigh(0, pa, 0x444, 1);
    SetHigh(0x40, pa, 0x444, 1);
  }

  lemma HighPart(high: bv64, pa: bv64, low: bv64)
    requires high < 0x1_0000 && low < 0x1000
    ensures Shift(Word(high, pa, low), 48) == high
  {
    assert Word(high, pa, low) >> 48 == high;
  }

  lemma FieldBits(high: bv64, pa: bv64, low: bv64)
    requires low < 0x1000
    ensures GetPhysical(Word(high, pa, low)) == And(pa, 0xF_FFFF_FFFF)
  {
  }

  lemma FieldPart(high: bv64, pa: bv64, low: bv64)
    requires low < 0x1000
    ensures And(Shift(Word(high, pa, low), 12), 0xF_FFFF_FFFF) == And(pa, 0xF_FFFF_FFFF)
  {
    hide *;
    FieldBits(high, pa, low);
    PhysicalForm(Word(high, pa, low));
  }

  lemma LowPart(high: bv64, pa: bv64, low: bv64)
    requires high < 0x1_0000 && low < 0x1000
    ensures And(Word(high, pa, low), 0xFFF) == low
  {
  }

  lemma Assembled(x: nat, high: nat, field: nat, low: nat)
    requires x / 0x1_0000_0000_0000 == high && x / 0x1000 % PHYS_LIMIT == field && x % 4096 == low
    ensures x == high * 0x1_0000_0000_0000 + field * 4096 + low
  {
  }

  lemma WordValue(high: bv64, pa: bv64, low: bv64)
    requires high < 0x1_0000 && low < 0x1000
    ensures ToInt(Word(high, pa, low)) == ToInt(high) * 0x1_0000_0000_0000 + ToInt(pa) % PHYS_LIMIT * 4096 + ToInt(low)
  {
    hide ToInt, Shift, And, IsMask, Word;
    var w := Word(high, pa, low);
    HighPart(high, pa, low);
    FieldPart(high, pa, low);
    LowPart(high, pa, low);
    FieldMask();
    SmallNumbers();
    Masks();
    ShiftIsQuotient(w);
    MaskIsRemainder(w, 0xFFF);
    MaskIsRemainder(Shift(w, 12), 0xF_FFFF_FFFF);
    MaskIsRemainder(pa, 0xF_FFFF_FFFF);
    Assembled(ToInt(w), ToInt(high), ToInt(pa) % PHYS_LIMIT, ToInt(low));
  }

  /** The entry macros build exactly the words the model stores. */
  lemma EntryWords(pa: bv64)
    ensures ToInt(TableWord(0, pa)) == TableEntry(ToInt(pa))
    ensures ToInt(KernelWord(0, pa)) == LeafEntry(ToInt(pa), 0)
    ensures ToInt(DeviceWord(0, pa)) == LeafEntry(ToInt(pa), 1)
    ensures ToInt(UserWord(0, pa)) == LeafEntry(ToInt(pa), 2)
  {
    hide ToInt, Word, TableWord, KernelWord, DeviceWord, UserWord, Present, Phys;
    SmallNumbers();
    TableForm(pa);
    WordValue(0, pa, 0x401);
    KernelForm(pa);
    WordValue(0x20, pa, 0x404);
    DeviceForm(pa);
    WordValue(0x20, pa, 0x400);
    UserForm(pa);
    WordValue(0x60, pa, 0x444);
  }
}
