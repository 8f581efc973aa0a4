/** JavaScript's `|`, `&` and `1 << k` on the small non-negative numbers bytes hold. */
module Bits {

  function BitOr(a: nat, b: nat): nat {
    if a == 0 && b == 0 then 0
    else 2 * BitOr(a / 2, b / 2) + if a % 2 == 1 || b % 2 == 1 then 1 else 0
  }

  function BitAnd(a: nat, b: nat): nat {
    if a == 0 || b == 0 then 0
    else 2 * BitAnd(a / 2, b / 2) + if a % 2 == 1 && b % 2 == 1 then 1 else 0
  }

  function Shl1(k: nat): (m: nat)
    ensures m > 0
  {
    if k == 0 then 1 else 2 * Shl1(k - 1)
  }

  predicate HasBit(a: nat, k: nat) { BitAnd(a, Shl1(k)) != 0 }

  lemma {:induction false} HasBitHalves(a: nat, k: nat)
    ensures HasBit(a, 0) <==> a % 2 == 1
    ensures k > 0 ==> (HasBit(a, k) <==> HasBit(a / 2, k - 1))
  {
    if a % 2 == 1 {
      assert BitAnd(a, 1) == 2 * BitAnd(a / 2, 0) + 1;
    } else if a > 0 {
      assert BitAnd(a, 1) == 2 * BitAnd(a / 2, 0);
    }
    if k > 0 && a > 0 {
      var m := Shl1(k - 1);
      assert BitAnd(a, 2 * m) == 2 * BitAnd(a / 2, 2 * m / 2);
    }
  }

  lemma {:induction false} OrZero(a: nat)
    ensures BitOr(a, 0) == a && BitOr(0, a) == a
  {
    if a > 0 {
      OrZero(a / 2);
    }
  }

  /** Setting a bit sets that bit and no other. */
  lemma {:induction false} OrSetsOneBit(a: nat, k: nat, j: nat)
    ensures HasBit(BitOr(a, Shl1(k)), j) <==> j == k || HasBit(a, j)
    decreases k + j
  {
    var m := Shl1(k);
    var r := BitOr(a, m);
    assert r / 2 == BitOr(a / 2, m / 2) && (r % 2 == 1 <==> a % 2 == 1 || m % 2 == 1);
    HasBitHalves(r, j);
    HasBitHalves(a, j);
    if j > 0 {
      if k > 0 {
        OrSetsOneBit(a / 2, k - 1, j - 1);
      } else {
        OrZero(a / 2);
      }
    }
  }

  /** Neither operand's width is exceeded. */
  lemma {:induction false} OrFits(a: nat, b: nat, width: nat)
    requires a < Shl1(width) && b < Shl1(width)
    ensures BitOr(a, b) < Shl1(width)
    decreases width
  {
    if width > 0 {
      OrFits(a / 2, b / 2, width - 1);
    }
  }

  lemma ByteWidth()
    ensures Shl1(8) == 256
  {}

  lemma {:induction false} MaskMonotone(k: nat, n: nat)
    requires k < n
    ensures Shl1(k) < Shl1(n)
    decreases n
  {
    if k < n - 1 {
      MaskMonotone(k, n - 1);
    }
  }

  lemma AndMask3(x: nat)
    ensures BitAnd(x, 3) == x % 4
  {
    assert BitAnd(x / 2, 1) == x / 2 % 2 by {
      assert BitAnd(x / 2 / 2, 0) == 0;
    }
  }

  lemma AndMask4(x: nat)
    ensures BitAnd(x, 4) == if x / 4 % 2 == 1 then 4 else 0
  {
    assert BitAnd(x / 4, 1) == x / 4 % 2 by {
      assert BitAnd(x / 4 / 2, 0) == 0;
    }
    assert BitAnd(x / 2, 2) == 2 * BitAnd(x / 2 / 2, 1);
  }

  lemma OrMask4(x: nat)
    requires x < 4
    ensures BitOr(x, 4) == x + 4
  {}
}
