/** Bitwise operators on non-negative integers, as Python evaluates them.

Python integers are unbounded, so `a ^ b` and `a | b` are defined here bit by
bit from the least significant end rather than on a fixed-width bit-vector.
The shifts and masks the source uses are arithmetic on non-negative values:
`x >> n` is n halvings (Shr, equal to division by 2^n) and
`x & (2^n - 1)` is `x % 2^n`.
 */
module Bits {

  function Pow2(k: nat): (r: nat)
    ensures r >= 1
  {
    if k == 0 then 1 else 2 * Pow2(k - 1)
  }

  /** Python's `x >> k` for x >= 0: k halvings, each dropping the lowest bit. */
  function Shr(x: nat, k: nat): nat
  {
    if k == 0 then x else Shr(x / 2, k - 1)
  }

  /** Python's `a ^ b` for a, b >= 0. */
  function Xor(a: nat, b: nat): nat
    decreases a + b
  {
    if a == 0 && b == 0 then 0
    else 2 * Xor(a / 2, b / 2) + (if a % 2 == b % 2 then 0 else 1)
  }

  /** Python's `a | b` for a, b >= 0. */
  function Or(a: nat, b: nat): nat
    decreases a + b
  {
    if a == 0 && b == 0 then 0
    else 2 * Or(a / 2, b / 2) + (if a % 2 == 1 || b % 2 == 1 then 1 else 0)
  }

  /** The lowest bit of `a ^ b` is the sum of the lowest bits modulo 2, and the
      remaining bits are the xor of the remaining bits. */
  lemma XorDigits(a: nat, b: nat)
    ensures Xor(a, b) % 2 == (a + b) % 2
    ensures Xor(a, b) / 2 == Xor(a / 2, b / 2)
  {
    if a != 0 || b != 0 {
      var d := if a % 2 == b % 2 then 0 else 1;
      assert Xor(a, b) == 2 * Xor(a / 2, b / 2) + d;
      DivUnique(Xor(a, b), 2, Xor(a / 2, b / 2), d);
      ParitySum(a, b);
    }
  }

  /** The parity of a sum depends only on the parities of its terms. */
  lemma ParitySum(a: nat, b: nat)
    ensures (a + b) % 2 == (if a % 2 == b % 2 then 0 else 1)
  {
    var q, r := a / 2 + b / 2, a % 2 + b % 2;
    assert a + b == 2 * q + r;
    if r == 2 {
      DivUnique(a + b, 2, q + 1, 0);
    } else {
      DivUnique(a + b, 2, q, r);
    }
  }

  lemma {:induction false} XorZero(a: nat)
    ensures Xor(a, 0) == a
    ensures Xor(0, a) == a
    decreases a
  {
    if a != 0 {
      XorZero(a / 2);
    }
  }

  lemma {:induction false} XorSelf(a: nat)
    ensures Xor(a, a) == 0
    decreases a
  {
    if a != 0 {
      XorSelf(a / 2);
    }
  }

  lemma {:induction false} XorComm(a: nat, b: nat)
    ensures Xor(a, b) == Xor(b, a)
    decreases a + b
  {
    if a != 0 || b != 0 {
      XorComm(a / 2, b / 2);
    }
  }

  lemma {:induction false} XorAssoc(a: nat, b: nat, c: nat)
    ensures Xor(Xor(a, b), c) == Xor(a, Xor(b, c))
    decreases a + b + c
  {
    if a == 0 && b == 0 && c == 0 {
    } else {
      XorDigits(a, b);
      XorDigits(Xor(a, b), c);
      XorDigits(b, c);
      XorDigits(a, Xor(b, c));
      XorAssoc(a / 2, b / 2, c / 2);
      var l := Xor(Xor(a, b), c);
      var r := Xor(a, Xor(b, c));
      assert l / 2 == r / 2 && l % 2 == r % 2;
    }
  }

  /** Xor-ing in the same value twice cancels it. */
  lemma XorCancel(x: nat, y: nat, p: nat)
    ensures Xor(Xor(x, p), Xor(y, p)) == Xor(x, y)
  {
    calc {
      Xor(Xor(x, p), Xor(y, p));
      { XorAssoc(x, p, Xor(y, p)); }
      Xor(x, Xor(p, Xor(y, p)));
      { XorComm(y, p); XorAssoc(p, p, y); }
      Xor(x, Xor(Xor(p, p), y));
      { XorSelf(p); XorZero(y); }
      Xor(x, y);
    }
  }

  /** Xor never sets a bit at or above position k that neither operand has. */
  lemma {:induction false} XorBound(a: nat, b: nat, k: nat)
    requires a < Pow2(k) && b < Pow2(k)
    ensures Xor(a, b) < Pow2(k)
    decreases k
  {
    if k == 0 {
      assert a == 0 && b == 0;
    } else if a != 0 || b != 0 {
      XorBound(a / 2, b / 2, k - 1);
    }
  }

  /** Shifting right by k commutes with xor. */
  lemma {:induction false} XorShr(a: nat, b: nat, k: nat)
    ensures Shr(Xor(a, b), k) == Xor(Shr(a, k), Shr(b, k))
    decreases k
  {
    if k > 0 {
      XorDigits(a, b);
      XorShr(a / 2, b / 2, k - 1);
    }
  }

  /** A right shift by k is division by 2^k. */
  lemma {:induction false} ShrIsDiv(x: nat, k: nat, p: nat)
    requires p == Pow2(k)
    ensures Shr(x, k) == x / p
    decreases k
  {
    if k > 0 {
      var q := Pow2(k - 1);
      ShrIsDiv(x / 2, k - 1, q);
      DivDiv(x, q);
    }
  }

  /** x / (2p) == (x / 2) / p */
  lemma DivDiv(x: nat, p: nat)
    requires p >= 1
    ensures x / (2 * p) == (x / 2) / p
  {
    var q := (x / 2) / p;
    var r := (x / 2) % p;
    assert x / 2 == q * p + r;
    assert q * (2 * p) == 2 * (q * p);
    DivUnique(x, 2 * p, q, 2 * r + x % 2);
  }

  /** Euclidean division has a unique quotient. */
  lemma DivUnique(x: int, d: int, q: int, r: int)
    requires d > 0 && 0 <= r < d && x == q * d + r
    ensures x / d == q
  {
    var q' := x / d;
    assert (q - q') * d == x % d - r;
    if q > q' {
      MulMono(q - q', d);
    } else if q < q' {
      MulMono(q' - q, d);
    }
  }

  lemma MulMono(n: int, d: int)
    requires n >= 1 && d > 0
    ensures n * d >= d
  {
  }

  /** Splitting off the k low bits: a high part shifted left by k and a low
      part below 2^k share no bits, so xor adds them. */
  lemma {:induction false} XorDisjoint(lo: nat, hi: nat, k: nat)
    requires lo < Pow2(k)
    ensures Xor(lo, hi * Pow2(k)) == lo + hi * Pow2(k)
    decreases k
  {
    if k == 0 {
      XorZero(hi);
    } else {
      var p := Pow2(k - 1);
      var q := hi * p;
      var h := hi * Pow2(k);
      assert h == 2 * q;
      assert h / 2 == q && h % 2 == 0;
      assert lo / 2 < p;
      XorDisjoint(lo / 2, hi, k - 1);
      if lo == 0 && h == 0 {
      } else {
        assert Xor(lo, h) == 2 * Xor(lo / 2, q) + lo % 2;
      }
    }
  }

  /** The same fact for `|`. */
  lemma {:induction false} OrDisjoint(lo: nat, hi: nat, k: nat)
    requires lo < Pow2(k)
    ensures Or(lo, hi * Pow2(k)) == lo + hi * Pow2(k)
    decreases k
  {
    if k == 0 {
      OrZero(hi);
    } else {
      var p := Pow2(k - 1);
      var h := hi * Pow2(k);
      assert h == 2 * (hi * p);
      OrDisjoint(lo / 2, hi, k - 1);
      if lo == 0 && h == 0 {
      } else {
        assert Or(lo, h) == 2 * Or(lo / 2, hi * p) + lo % 2;
      }
    }
  }

  lemma {:induction false} OrComm(a: nat, b: nat)
    ensures Or(a, b) == Or(b, a)
    decreases a + b
  {
    if a != 0 || b != 0 {
      OrComm(a / 2, b / 2);
    }
  }

  lemma {:induction false} OrZero(a: nat)
    ensures Or(0, a) == a
    decreases a
  {
    if a != 0 {
      OrZero(a / 2);
    }
  }

  /** Bit p = 2^j of x flipped: set when it was clear, cleared when it was set. */
  function Flip(x: nat, p: nat): nat
    requires p >= 1
  {
    if (x / p) % 2 == 0 then x + p else x - p
  }

  /** Xor with a single bit 2^j flips that bit of x and no other. */
  lemma {:induction false} XorBit(x: nat, j: nat, p: nat)
    requires p == Pow2(j)
    ensures Xor(x, p) == Flip(x, p)
    decreases j
  {
    if j == 0 {
      XorZero(x / 2);
    } else {
      var q := Pow2(j - 1);
      XorBit(x / 2, j - 1, q);
      DivDiv(x, q);
      assert Xor(x, p) == 2 * Xor(x / 2, q) + x % 2;
    }
  }

  /** The low k + 1 bits of b are its low k bits plus bit k. */
  lemma ModDouble(b: nat, p: nat)
    requires p >= 1
    ensures b % (2 * p) == b % p + p * ((b / p) % 2)
  {
    var q, r := b / p, b % p;
    assert b == (q / 2) * (2 * p) + (p * (q % 2) + r);
    DivUnique(b, 2 * p, q / 2, p * (q % 2) + r);
  }

  /** ws[j..] flips, one position at a time from bit j (of weight p) up, the
      bits that are set in b. */
  predicate XorSteps(ws: seq<nat>, b: nat, j: nat, p: nat)
    requires p >= 1
    decreases |ws| - j
  {
    j + 1 >= |ws|
    || (ws[j + 1] == (if (b / p) % 2 == 0 then ws[j] else Flip(ws[j], p))
        && XorSteps(ws, b, j + 1, 2 * p))
  }

  /** Xor-ing the low bits of b into c, evaluated bit by bit: if ws[j] is c
      with the bits of b below j flipped and ws goes on flipping the bits of
      b, its last entry is c ^ (b % 2^(|ws| - 1)). */
  lemma {:induction false} XorTrace(c: nat, b: nat, ws: seq<nat>, j: nat, p: nat)
    requires p == Pow2(j)
    requires j < |ws| && ws[j] == Xor(c, b % p) && XorSteps(ws, b, j, p)
    ensures ws[|ws| - 1] == Xor(c, b % Pow2(|ws| - 1))
    decreases |ws| - j
  {
    if j + 1 < |ws| {
      var m := b % p;
      ModDouble(b, p);
      if (b / p) % 2 == 0 {
        assert b % (2 * p) == m;
        assert ws[j + 1] == ws[j];
      } else {
        assert b % (2 * p) == m + p;
        XorDisjoint(m, 1, j);
        assert b % (2 * p) == Xor(m, p);
        XorAssoc(c, m, p);
        XorBit(ws[j], j, p);
        assert ws[j + 1] == Flip(ws[j], p);
      }
      assert ws[j + 1] == Xor(c, b % (2 * p));
      XorTrace(c, b, ws, j + 1, 2 * p);
    }
  }
}
