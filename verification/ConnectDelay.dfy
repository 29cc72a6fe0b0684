/** The delay between two connection attempts, in nanoseconds and 64-bit arithmetic. */
module ConnectDelay {

  const MAX_DELAY: int := 30_000_000_000

  const TWO_63: int := 0x8000_0000_0000_0000

  const TWO_64: int := 0x1_0000_0000_0000_0000

  const DEFAULT_BASE: int := 1_000_000_000

  /** What is left of an integer in 64 signed bits. */
  function Wrap(x: int): (r: int)
    ensures -TWO_63 <= r < TWO_63
    ensures -TWO_63 <= x < TWO_63 ==> r == x
  {
    (x + TWO_63) % TWO_64 - TWO_63
  }

  function Pow2(n: nat): (p: nat)
    ensures p > 0
  {
    if n == 0 then 1 else 2 * Pow2(n - 1)
  }

  function Min(a: int, b: int): int {
    if a < b then a else b
  }

  /** The delay as computed: the shift and the product both wrap. */
  function Delay(base: int, attempt: nat): int {
    Min(Wrap(base * Wrap(Pow2(attempt))), MAX_DELAY)
  }

  lemma WrapIsModular(x: int) returns (k: int)
    ensures Wrap(x) == x + k * TWO_64
  {
    k := -((x + TWO_63) / TWO_64);
  }

  lemma WrapShifted(x: int, k: int)
    ensures Wrap(x + k * TWO_64) == Wrap(x)
  {
    var a := WrapIsModular(x);
    var b := WrapIsModular(x + k * TWO_64);
    var d := a - b - k;
    assert Wrap(x) - Wrap(x + k * TWO_64) == d * TWO_64;
  }

  /** The inner wrap is absorbed by the outer one. */
  lemma WrapOfProduct(a: int, b: int)
    ensures Wrap(a * Wrap(b)) == Wrap(a * b)
  {
    hide Wrap;
    var k := WrapIsModular(b);
    assert a * Wrap(b) == a * b + (a * k) * TWO_64;
    WrapShifted(a * b, a * k);
  }

  /**
    For a positive base the delay is min(base * 2^attempt, 30s) exactly when that product does not overflow, or
    overflows into 30s or more.
   */
  lemma DelayIsCappedExactly(base: int, attempt: nat)
    requires base > 0
    ensures Delay(base, attempt) == Min(base * Pow2(attempt), MAX_DELAY) <==>
      base * Pow2(attempt) < TWO_63 || Wrap(base * Pow2(attempt)) >= MAX_DELAY
  {
    hide Pow2, Wrap;
    WrapOfProduct(base, Pow2(attempt));
    var v := base * Pow2(attempt);
    Positive(base, Pow2(attempt));
    if v < TWO_63 { assert Wrap(v) == v; }
  }

  lemma Positive(a: int, b: int)
    requires a > 0 && b > 0
    ensures a * b > 0
  {
  }

  lemma {:induction false} Pow2Grows(m: nat, n: nat)
    requires m <= n
    ensures Pow2(m) <= Pow2(n)
  {
    if m < n {
      Pow2Grows(m, n - 1);
    }
  }

  lemma ScaledGrows(base: int, a: int, b: int)
    requires base > 0 && a <= b
    ensures base * a <= base * b
  {
  }

  /** When the last attempt's product fits, every attempt waits min(base * 2^attempt, 30s), more than no time at all. */
  lemma DelaysAreCapped(base: int, maxRetries: nat, attempt: nat)
    requires base > 0 && attempt < maxRetries && base * Pow2(maxRetries - 1) < TWO_63
    ensures Delay(base, attempt) == Min(base * Pow2(attempt), MAX_DELAY) && 0 < Delay(base, attempt) <= MAX_DELAY
  {
    hide Pow2, Delay, Wrap;
    Pow2Grows(attempt, maxRetries - 1);
    ScaledGrows(base, Pow2(attempt), Pow2(maxRetries - 1));
    DelayIsCappedExactly(base, attempt);
    Positive(base, Pow2(attempt));
  }

  lemma Pow2Of32()
    ensures Pow2(32) == 0x1_0000_0000
  {
    assert Pow2(8) == 256;
    PowSum(8, 8);
    PowSum(16, 16);
  }

  /** The 64-bit product of the default base with 2^attempt. */
  function DefaultProduct(attempt: nat): int {
    Wrap(DEFAULT_BASE * Pow2(attempt))
  }

  /** Wrapping a number that is out of range by less than a whole turn. */
  function Folded(x: int): int {
    if x >= TWO_63 then x - TWO_64 else if x < -TWO_63 then x + TWO_64 else x
  }

  lemma WrapIsFolded(x: int)
    requires -TWO_64 <= x < TWO_64
    ensures Wrap(x) == Folded(x)
  {
  }

  lemma ProductDoubles(attempt: nat)
    ensures DefaultProduct(attempt + 1) == Folded(2 * DefaultProduct(attempt))
  {
    WrapIsFolded(2 * DefaultProduct(attempt));
    assert Pow2(attempt + 1) == 2 * Pow2(attempt);
    hide Pow2, Wrap;
    WrapOfProduct(2, DEFAULT_BASE * Pow2(attempt));
    assert DEFAULT_BASE * (2 * Pow2(attempt)) == 2 * (DEFAULT_BASE * Pow2(attempt));
  }

  /** Attempt 34 is the first whose product with the default base overflows, and it waits no time at all. */
  lemma DefaultBaseOverflows()
    ensures DEFAULT_BASE * Pow2(33) < TWO_63 <= DEFAULT_BASE * Pow2(34)
    ensures DefaultProduct(34) == -1_266_874_889_709_551_616 && Delay(DEFAULT_BASE, 34) < 0
  {
    Pow2Of32();
    assert Pow2(34) == 2 * Pow2(33) && Pow2(33) == 2 * Pow2(32);
    hide Wrap;
    WrapOfProduct(DEFAULT_BASE, Pow2(34));
    assert DEFAULT_BASE * Pow2(34) == 17_179_869_184_000_000_000;
    WrapShifted(17_179_869_184_000_000_000, -1);
  }

  lemma DefaultProducts34()
    requires DefaultProduct(34) == -1_266_874_889_709_551_616
    ensures DefaultProduct(35) == -2_533_749_779_419_103_232
    ensures DefaultProduct(36) == -5_067_499_558_838_206_464
    ensures DefaultProduct(37) == 8_311_744_956_033_138_688
    ensures DefaultProduct(38) == -1_823_254_161_643_274_240
    ensures DefaultProduct(39) == -3_646_508_323_286_548_480
  {
    hide DefaultProduct;
    ProductDoubles(34);
    ProductDoubles(35);
    ProductDoubles(36);
    ProductDoubles(37);
    ProductDoubles(38);
  }

  lemma DefaultProducts39()
    requires DefaultProduct(39) == -3_646_508_323_286_548_480
    ensures DefaultProduct(40) == -7_293_016_646_573_096_960
    ensures DefaultProduct(41) == 3_860_710_780_563_357_696
    ensures DefaultProduct(42) == 7_721_421_561_126_715_392
    ensures DefaultProduct(43) == -3_003_900_951_456_120_832
    ensures DefaultProduct(44) == -6_007_801_902_912_241_664
  {
    hide DefaultProduct;
    ProductDoubles(39);
    ProductDoubles(40);
    ProductDoubles(41);
    ProductDoubles(42);
    ProductDoubles(43);
  }

  lemma DefaultProducts44()
    requires DefaultProduct(44) == -6_007_801_902_912_241_664
    ensures DefaultProduct(45) == 6_431_140_267_885_068_288
    ensures DefaultProduct(46) == -5_584_463_537_939_415_040
    ensures DefaultProduct(47) == 7_277_816_997_830_721_536
    ensures DefaultProduct(48) == -3_891_110_078_048_108_544
    ensures DefaultProduct(49) == -7_782_220_156_096_217_088
  {
    hide DefaultProduct;
    ProductDoubles(44);
    ProductDoubles(45);
    ProductDoubles(46);
    ProductDoubles(47);
    ProductDoubles(48);
  }

  lemma DefaultProducts49()
    requires DefaultProduct(49) == -7_782_220_156_096_217_088
    ensures DefaultProduct(50) == 2_882_303_761_517_117_440
    ensures DefaultProduct(51) == 5_764_607_523_034_234_880
    ensures DefaultProduct(52) == -6_917_529_027_641_081_856
    ensures DefaultProduct(53) == 4_611_686_018_427_387_904
    ensures DefaultProduct(54) == -9_223_372_036_854_775_808
    ensures DefaultProduct(55) == 0
  {
    hide DefaultProduct;
    ProductDoubles(49);
    ProductDoubles(50);
    ProductDoubles(51);
    ProductDoubles(52);
    ProductDoubles(53);
    ProductDoubles(54);
  }

  /** The overflowing attempts whose wrapped product still exceeds the cap. */
  predicate StillCapped(attempt: nat) {
    || attempt == 37 || attempt == 41 || attempt == 42 || attempt == 45
    || attempt == 47 || attempt == 50 || attempt == 51 || attempt == 53
  }

  lemma DefaultProductOf(attempt: nat)
    requires 34 <= attempt <= 55
    ensures DefaultProduct(attempt) >= MAX_DELAY <==> StillCapped(attempt)
    ensures attempt == 55 ==> DefaultProduct(attempt) == 0
  {
    hide DefaultProduct;
    DefaultBaseOverflows();
    DefaultProducts34();
    DefaultProducts39();
    DefaultProducts44();
    DefaultProducts49();
  }

  lemma {:induction false} ProductVanishes(attempt: nat)
    requires attempt >= 55
    ensures DefaultProduct(attempt) == 0
  {
    hide DefaultProduct;
    if attempt == 55 {
      DefaultProductOf(55);
    } else {
      ProductVanishes(attempt - 1);
      ProductDoubles(attempt - 1);
    }
  }

  lemma OverflowStartsAt34(attempt: nat)
    ensures DEFAULT_BASE * Pow2(attempt) < TWO_63 <==> attempt <= 33
  {
    DefaultBaseOverflows();
    hide Pow2;
    if attempt <= 33 {
      Pow2Grows(attempt, 33);
      ScaledGrows(DEFAULT_BASE, Pow2(attempt), Pow2(33));
    } else {
      Pow2Grows(34, attempt);
      ScaledGrows(DEFAULT_BASE, Pow2(34), Pow2(attempt));
    }
  }

  lemma LateProducts(attempt: nat)
    requires attempt >= 34
    ensures DefaultProduct(attempt) >= MAX_DELAY <==> StillCapped(attempt)
  {
    hide DefaultProduct;
    if attempt <= 54 {
      DefaultProductOf(attempt);
    } else {
      ProductVanishes(attempt);
    }
  }

  /** The default base is capped as documented at exactly these attempts. */
  lemma DefaultBaseIsCappedExactly(attempt: nat)
    ensures Delay(DEFAULT_BASE, attempt) == Min(DEFAULT_BASE * Pow2(attempt), MAX_DELAY) <==>
      attempt <= 33 || StillCapped(attempt)
  {
    OverflowStartsAt34(attempt);
    DelayIsCappedExactly(DEFAULT_BASE, attempt);
    assert DefaultProduct(attempt) == Wrap(DEFAULT_BASE * Pow2(attempt));
    hide Pow2, Wrap, Delay, Min, DefaultProduct;
    if attempt >= 34 {
      LateProducts(attempt);
    }
  }

  lemma {:induction false} PowSum(m: nat, n: nat)
    ensures Pow2(m + n) == Pow2(m) * Pow2(n)
  {
    if n > 0 {
      PowSum(m, n - 1);
      Regroup(Pow2(m), Pow2(n - 1));
    }
  }

  lemma Regroup(a: int, b: int)
    ensures 2 * (a * b) == a * (2 * b)
  {
  }
}
