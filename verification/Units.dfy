/**
  Sizes, unit counts and addresses in em_malloc.c. A unit size that passes the
  bit test is handled with shifts and masks, any other one with division; the
  two paths must compute the same values.
 */
module Units {

  function Pow2(k: nat): (p: nat)
    ensures p > 0
  {
    if k == 0 then 1 else 2 * Pow2(k - 1)
  }

  /** a & b */
  function And(a: nat, b: nat): (r: nat)
    ensures r <= a && r <= b
  {
    if a == 0 || b == 0 then 0
    else 2 * And(a / 2, b / 2) + if a % 2 == 1 && b % 2 == 1 then 1 else 0
  }

  /** a >> k */
  function Shr(a: nat, k: nat): nat {
    if k == 0 then a else Shr(a / 2, k - 1)
  }

  /** a << k */
  function Shl(a: nat, k: nat): nat {
    if k == 0 then a else 2 * Shl(a, k - 1)
  }

  /** log2 as em_memmng_create stores it: truncated to an integer. */
  function Log2(u: nat): nat
    requires u > 0
  {
    if u == 1 then 0 else 1 + Log2(u / 2)
  }

  /** The test of em_memmng_create for the fast path. */
  predicate BitTest(u: nat)
    requires u > 0
  {
    And(u, u - 1) == 0
  }

  lemma {:induction false} AndSelf(a: nat)
    ensures And(a, a) == a
  {
    if a > 0 {
      AndSelf(a / 2);
    }
  }

  lemma {:induction false} BitTestIffLog2(u: nat)
    requires u > 0
    ensures BitTest(u) <==> u == Pow2(Log2(u))
  {
    if u > 1 {
      if u % 2 == 0 {
        assert (u - 1) / 2 == u / 2 - 1 && (u - 1) % 2 == 1;
        BitTestIffLog2(u / 2);
      } else {
        assert (u - 1) / 2 == u / 2;
        AndSelf(u / 2);
        assert Pow2(Log2(u)) % 2 == 0;
      }
    }
  }

  lemma {:induction false} Log2OfPow2(k: nat)
    ensures Log2(Pow2(k)) == k
  {
    if k > 0 {
      Log2OfPow2(k - 1);
    }
  }

  /** The test accepts exactly the powers of two. */
  lemma BitTestIffPow2(u: nat)
    requires u > 0
    ensures BitTest(u) <==> exists k :: u == Pow2(k)
  {
    BitTestIffLog2(u);
    if k :| u == Pow2(k) {
      Log2OfPow2(k);
    }
  }

  lemma {:induction false} ShlIsMul(a: nat, k: nat)
    ensures Shl(a, k) == a * Pow2(k)
  {
    if k > 0 {
      ShlIsMul(a, k - 1);
      assert a * (2 * Pow2(k - 1)) == 2 * (a * Pow2(k - 1));
    }
  }

  lemma DivUnique(a: int, d: int, q: int, r: int)
    requires d > 0 && a == d * q + r && 0 <= r < d
    ensures a / d == q && a % d == r
  {
    var q', r' := a / d, a % d;
    assert d * (q - q') == r' - r;
    SmallMultiple(d, q - q', r' - r);
  }

  lemma SmallMultiple(d: int, t: int, x: int)
    requires d > 0 && d * t == x && -d < x < d
    ensures t == 0
  {
    assert t >= 1 ==> d * t >= d;
    assert t <= -1 ==> d * t <= -d;
  }

  /** Division and remainder by an even number, from the halves. */
  lemma Halves(a: nat, p: nat)
    requires p > 0
    ensures a / (2 * p) == a / 2 / p && a % (2 * p) == 2 * (a / 2 % p) + a % 2
  {
    var h := a / 2;
    var q, r := h / p, h % p;
    assert h == p * q + r;
    assert (2 * p) * q == 2 * (p * q);
    DivUnique(a, 2 * p, q, 2 * r + a % 2);
  }

  lemma {:induction false} ShrIsDiv(a: nat, k: nat)
    ensures Shr(a, k) == a / Pow2(k)
  {
    if k > 0 {
      ShrIsDiv(a / 2, k - 1);
      Halves(a, Pow2(k - 1));
    }
  }

  lemma AndOdd(a: nat, p: nat)
    requires a > 0 && p > 0
    ensures And(a, 2 * p - 1) == 2 * And(a / 2, p - 1) + a % 2
  {
    assert (2 * p - 1) / 2 == p - 1 && (2 * p - 1) % 2 == 1;
  }

  lemma {:induction false} MaskIsMod(a: nat, k: nat)
    ensures And(a, Pow2(k) - 1) == a % Pow2(k)
  {
    if k == 0 {
    } else if a == 0 {
      DivUnique(0, Pow2(k), 0, 0);
    } else {
      var p := Pow2(k - 1);
      MaskIsMod(a / 2, k - 1);
      calc {
        And(a, Pow2(k) - 1);
      ==
        And(a, 2 * p - 1);
      == { AndOdd(a, p); }
        2 * And(a / 2, p - 1) + a % 2;
      ==
        2 * (a / 2 % p) + a % 2;
      == { Halves(a, p); }
        a % (2 * p);
      }
    }
  }

  // ---------------------------------------------------------------- the two paths

  function CountShift(size: nat, unit: nat): nat
    requires unit > 0
  {
    Shr(size, Log2(unit)) + if And(size, unit - 1) != 0 then 1 else 0
  }

  function CountDivide(size: nat, unit: nat): nat
    requires unit > 0
  {
    size / unit + if size % unit != 0 then 1 else 0
  }

  /** The number of units a request of `size` bytes takes. */
  function Count(size: nat, unit: nat): nat
    requires unit > 0
  {
    if BitTest(unit) then CountShift(size, unit) else CountDivide(size, unit)
  }

  function OffsetShift(index: nat, unit: nat): nat
    requires unit > 0
  {
    Shl(index, Log2(unit))
  }

  function OffsetDivide(index: nat, unit: nat): nat {
    index * unit
  }

  /** The distance of unit `index` from the start of the memory. */
  function Offset(index: nat, unit: nat): nat
    requires unit > 0
  {
    if BitTest(unit) then OffsetShift(index, unit) else OffsetDivide(index, unit)
  }

  /** The unit that em_free computes from a distance. */
  function IndexOf(offset: nat, unit: nat): nat
    requires unit > 0
  {
    if BitTest(unit) then Shr(offset, Log2(unit)) else offset / unit
  }

  /** For every unit size the bit test accepts, the two paths agree on counts, addresses and indices. */
  lemma PathsAgree(unit: nat, size: nat, index: nat, offset: nat)
    requires unit > 0 && BitTest(unit)
    ensures CountShift(size, unit) == CountDivide(size, unit)
    ensures OffsetShift(index, unit) == OffsetDivide(index, unit)
    ensures Shr(offset, Log2(unit)) == offset / unit
  {
    var k := Log2(unit);
    BitTestIffLog2(unit);
    ShrIsDiv(size, k);
    MaskIsMod(size, k);
    ShlIsMul(index, k);
    ShrIsDiv(offset, k);
  }

  lemma DivideRoundsUp(size: nat, unit: nat)
    requires unit > 0
    ensures size <= CountDivide(size, unit) * unit < size + unit
    ensures CountDivide(size, unit) > 0 <==> size > 0
  {
    var q, r := size / unit, size % unit;
    assert size == unit * q + r;
    assert r != 0 ==> (q + 1) * unit == unit * q + unit;
  }

  /** The count is the least number of units that holds `size` bytes. */
  lemma CountRoundsUp(size: nat, unit: nat)
    requires unit > 0
    ensures size <= Count(size, unit) * unit < size + unit
    ensures Count(size, unit) > 0 <==> size > 0
  {
    if BitTest(unit) {
      PathsAgree(unit, size, 0, 0);
    }
    DivideRoundsUp(size, unit);
  }

  /** em_free's conversion inverts em_malloc's, for every address inside the unit. */
  lemma IndexInvertsOffset(index: nat, unit: nat, extra: nat)
    requires unit > 0 && extra < unit
    ensures Offset(index, unit) == index * unit
    ensures IndexOf(Offset(index, unit) + extra, unit) == index
  {
    if BitTest(unit) {
      PathsAgree(unit, 0, index, index * unit + extra);
    }
    DivUnique(index * unit + extra, unit, index, extra);
  }
}
