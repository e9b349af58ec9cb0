/** util/src/math.rs: adding or subtracting an arbitrary (usize) count to a
    byte, wrapping modulo 256. */
module Math {
  import opened Util

  /** unbalanced_wrapping_add: reduce the count modulo 256, then wrap-add it. */
  function UnbalancedWrappingAdd(n1: u8, n2: nat): (r: u8)
    ensures r as int == (n1 as int + n2) % 256
  {
    var wrappedN2 := (n2 % 256) as u8;
    WrappingAdd(n1, wrappedN2)
  }

  /** unbalanced_wrapping_sub: reduce the count modulo 256, then wrap-subtract it. */
  function UnbalancedWrappingSub(n1: u8, n2: nat): (r: u8)
    ensures r as int == (n1 as int - n2) % 256
  {
    var wrappedN2 := (n2 % 256) as u8;
    WrappingSub(n1, wrappedN2)
  }

  /** Adding or subtracting 256 more is a no-op. */
  lemma Periodic(n1: u8, n2: nat)
    ensures UnbalancedWrappingAdd(n1, n2 + 256) == UnbalancedWrappingAdd(n1, n2)
    ensures UnbalancedWrappingSub(n1, n2 + 256) == UnbalancedWrappingSub(n1, n2)
  {
    var q := n2 / 256;
    assert n2 == 256 * q + n2 % 256;
    assert n2 + 256 == 256 * (q + 1) + n2 % 256;
    assert (n2 + 256) % 256 == n2 % 256;
  }

  /** Subtracting a count undoes adding it. */
  lemma SubUndoesAdd(x: u8, n: nat)
    ensures UnbalancedWrappingSub(UnbalancedWrappingAdd(x, n), n) == x
  {
  }

  /** Adding a count undoes subtracting it. */
  lemma AddUndoesSub(x: u8, n: nat)
    ensures UnbalancedWrappingAdd(UnbalancedWrappingSub(x, n), n) == x
  {
  }

  /** `count` applications of wrapping_add(1), as opinterp2 executes IncData. */
  function IncrementTimes(v: u8, count: nat): u8
  {
    if count == 0 then v else WrappingAdd(IncrementTimes(v, count - 1), 1)
  }

  /** `count` applications of wrapping_sub(1), as opinterp2 executes DecData. */
  function DecrementTimes(v: u8, count: nat): u8
  {
    if count == 0 then v else WrappingSub(DecrementTimes(v, count - 1), 1)
  }

  /** The single modular addition equals the unit-step loop. */
  lemma {:induction false} AddIsRepeatedIncrement(v: u8, count: nat)
    ensures IncrementTimes(v, count) == UnbalancedWrappingAdd(v, count)
  {
    if count > 0 {
      var prev := IncrementTimes(v, count - 1);
      AddIsRepeatedIncrement(v, count - 1);
      assert prev as int == (v as int + (count - 1)) % 256;
      ModSucc(v as int + (count - 1));
      assert IncrementTimes(v, count) as int == (prev as int + 1) % 256;
    }
  }

  /** The single modular subtraction equals the unit-step loop. */
  lemma {:induction false} SubIsRepeatedDecrement(v: u8, count: nat)
    ensures DecrementTimes(v, count) == UnbalancedWrappingSub(v, count)
  {
    if count > 0 {
      var prev := DecrementTimes(v, count - 1);
      SubIsRepeatedDecrement(v, count - 1);
      assert prev as int == (v as int - (count - 1)) % 256;
      ModPred(v as int - (count - 1));
      assert DecrementTimes(v, count) as int == (prev as int - 1) % 256;
    }
  }

  /** The values the crate's own tests expect, at 0, 15 and 255 and around
      the multiples of 256. */
  lemma Examples()
    ensures UnbalancedWrappingAdd(0, 2) == 2
    ensures UnbalancedWrappingAdd(0, 255) == 255
    ensures UnbalancedWrappingAdd(0, 256) == 0
    ensures UnbalancedWrappingAdd(0, 257) == 1
    ensures UnbalancedWrappingAdd(0, 510) == 254
    ensures UnbalancedWrappingAdd(0, 511) == 255
    ensures UnbalancedWrappingAdd(0, 512) == 0
    ensures UnbalancedWrappingAdd(15, 2) == 17
    ensures UnbalancedWrappingAdd(15, 240) == 255
    ensures UnbalancedWrappingAdd(15, 241) == 0
    ensures UnbalancedWrappingAdd(15, 255) == 14
    ensures UnbalancedWrappingAdd(15, 256) == 15
    ensures UnbalancedWrappingAdd(15, 257) == 16
    ensures UnbalancedWrappingAdd(15, 496) == 255
    ensures UnbalancedWrappingAdd(15, 497) == 0
    ensures UnbalancedWrappingAdd(15, 510) == 13
    ensures UnbalancedWrappingAdd(15, 511) == 14
    ensures UnbalancedWrappingAdd(15, 512) == 15
    ensures UnbalancedWrappingAdd(255, 2) == 1
    ensures UnbalancedWrappingAdd(255, 255) == 254
    ensures UnbalancedWrappingAdd(255, 256) == 255
    ensures UnbalancedWrappingAdd(255, 257) == 0
    ensures UnbalancedWrappingAdd(255, 510) == 253
    ensures UnbalancedWrappingAdd(255, 511) == 254
    ensures UnbalancedWrappingAdd(255, 512) == 255
    ensures UnbalancedWrappingAdd(255, 513) == 0
    ensures UnbalancedWrappingSub(0, 2) == 254
    ensures UnbalancedWrappingSub(0, 255) == 1
    ensures UnbalancedWrappingSub(0, 256) == 0
    ensures UnbalancedWrappingSub(0, 257) == 255
    ensures UnbalancedWrappingSub(0, 510) == 2
    ensures UnbalancedWrappingSub(0, 511) == 1
    ensures UnbalancedWrappingSub(0, 512) == 0
    ensures UnbalancedWrappingSub(0, 513) == 255
    ensures UnbalancedWrappingSub(15, 2) == 13
    ensures UnbalancedWrappingSub(15, 255) == 16
    ensures UnbalancedWrappingSub(15, 256) == 15
    ensures UnbalancedWrappingSub(15, 257) == 14
    ensures UnbalancedWrappingSub(15, 271) == 0
    ensures UnbalancedWrappingSub(15, 272) == 255
    ensures UnbalancedWrappingSub(15, 510) == 17
    ensures UnbalancedWrappingSub(15, 511) == 16
    ensures UnbalancedWrappingSub(15, 512) == 15
    ensures UnbalancedWrappingSub(15, 527) == 0
    ensures UnbalancedWrappingSub(15, 528) == 255
    ensures UnbalancedWrappingSub(255, 2) == 253
    ensures UnbalancedWrappingSub(255, 255) == 0
    ensures UnbalancedWrappingSub(255, 256) == 255
    ensures UnbalancedWrappingSub(255, 257) == 254
    ensures UnbalancedWrappingSub(255, 510) == 1
    ensures UnbalancedWrappingSub(255, 511) == 0
    ensures UnbalancedWrappingSub(255, 512) == 255
    ensures UnbalancedWrappingSub(255, 513) == 254
  {
  }

  lemma ModSucc(a: int)
    ensures (a % 256 + 1) % 256 == (a + 1) % 256
  {
    var q := a / 256;
    assert a == 256 * q + a % 256;
    assert a + 1 == 256 * q + (a % 256 + 1);
  }

  lemma ModPred(a: int)
    ensures (a % 256 - 1) % 256 == (a - 1) % 256
  {
    var q := a / 256;
    assert a == 256 * q + a % 256;
    assert a - 1 == 256 * q + (a % 256 - 1);
  }
}
