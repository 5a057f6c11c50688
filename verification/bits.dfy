/** Bitwise AND on naturals, and the power-of-two shortcut for the remainder. */
module Bits {

  function BitAnd(x: nat, y: nat): nat
  {
    if x == 0 || y == 0 then 0
    else 2 * BitAnd(x / 2, y / 2) + (if x % 2 == 1 && y % 2 == 1 then 1 else 0)
  }

  /** POWER2_CHECK */
  predicate Power2Check(d: nat)
    requires d > 0
  {
    BitAnd(d, d - 1) == 0
  }

  /** POWER2_GET_MOD */
  function Power2GetMod(x: nat, d: nat): nat
    requires d > 0
  {
    BitAnd(x, d - 1)
  }

  function Power2(k: nat): nat { if k == 0 then 1 else 2 * Power2(k - 1) }

  lemma {:induction false} AndItself(x: nat)
    ensures BitAnd(x, x) == x
  {
    if x > 0 {
      AndItself(x / 2);
    }
  }

  lemma AndZero(x: nat)
    ensures BitAnd(x, 0) == 0
  {
  }

  /** An odd number above one fails the check; an even one passes it with its half. */
  lemma CheckHalves(d: nat)
    requires d > 1
    ensures Power2Check(d) <==> d % 2 == 0 && Power2Check(d / 2)
  {
    if d % 2 == 1 {
      assert (d - 1) / 2 == d / 2;
      AndItself(d / 2);
    } else {
      assert (d - 1) / 2 == d / 2 - 1 && (d - 1) % 2 == 1;
    }
  }

  /** The check recognises exactly the powers of two. */
  lemma {:induction false} CheckIsPower(d: nat)
    requires d > 0
    ensures Power2Check(d) <==> exists k: nat :: Power2(k) == d
  {
    if d == 1 {
      assert Power2(0) == 1;
      AndZero(1);
      assert Power2Check(d);
      assert exists k: nat :: Power2(k) == d;
    } else {
      CheckHalves(d);
      CheckIsPower(d / 2);
      if Power2Check(d) {
        var k: nat :| Power2(k) == d / 2;
        assert Power2(k + 1) == d;
      }
      if k: nat :| Power2(k) == d {
        assert k > 0;
        assert Power2(k - 1) == d / 2;
      }
    }
  }

  lemma HalfRemainder(x: nat, h: nat)
    requires h > 0
    ensures x % (2 * h) == 2 * ((x / 2) % h) + x % 2
  {
    var q, r := (x / 2) / h, (x / 2) % h;
    assert x / 2 == q * h + r;
    assert x == q * (2 * h) + (2 * r + x % 2) by {
      assert x == 2 * (x / 2) + x % 2;
      assert 2 * (q * h) == q * (2 * h);
    }
    RemainderIs(x, 2 * h, q, 2 * r + x % 2);
  }

  /** A positive multiple is at least, a negative one at most, one time the divisor away. */
  lemma Multiple(k: int, d: nat)
    ensures k > 0 ==> k * d >= d
    ensures k < 0 ==> k * d + d <= 0
  {
  }

  lemma RemainderIs(x: nat, d: nat, q: nat, r: nat)
    requires r < d && x == q * d + r
    ensures x % d == r
  {
    var p := x / d;
    assert (p - q) * d == p * d - q * d;
    assert x == p * d + x % d;
    Multiple(p - q, d);
  }

  /** On powers of two the mask is the remainder. */
  lemma {:induction false} MaskIsRemainder(x: nat, d: nat)
    requires d > 0 && Power2Check(d)
    ensures Power2GetMod(x, d) == x % d
    decreases d
  {
    if d == 1 {
      AndZero(x);
    } else {
      CheckHalves(d);
      var h := d / 2;
      MaskIsRemainder(x / 2, h);
      HalfRemainder(x, h);
      assert (d - 1) / 2 == h - 1 && (d - 1) % 2 == 1;
      MaskStep(x, d - 1);
    }
  }

  lemma MaskStep(x: nat, y: nat)
    requires y % 2 == 1
    ensures BitAnd(x, y) == 2 * BitAnd(x / 2, y / 2) + x % 2
  {
  }
}
