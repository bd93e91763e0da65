/** Unsigned 64-bit words as natural numbers, with the bitwise operators of C. */
module Bits {

  const TWO64: nat := 0x1_0000_0000_0000_0000

  /** Truncation of an unsigned result to 64 bits. */
  function Wrap64(x: nat): (r: nat)
    ensures r < TWO64
    ensures x < TWO64 ==> r == x
  {
    x % TWO64
  }

  /** 1 << k */
  function Pow2(k: nat): (r: nat)
    ensures r > 0
  {
    if k == 0 then 1 else 2 * Pow2(k - 1)
  }

  /** Bit k of w. */
  predicate Bit(w: nat, k: nat) {
    if k == 0 then w % 2 == 1 else Bit(w / 2, k - 1)
  }

  /** a & b */
  function And(a: nat, b: nat): nat {
    if a == 0 || b == 0 then 0
    else 2 * And(a / 2, b / 2) + if a % 2 == 1 && b % 2 == 1 then 1 else 0
  }

  /** a | b */
  function Or(a: nat, b: nat): nat {
    if a == 0 then b
    else if b == 0 then a
    else 2 * Or(a / 2, b / 2) + if a % 2 == 1 || b % 2 == 1 then 1 else 0
  }

  /** ~a on words of n bits */
  function Not(a: nat, n: nat): nat
    requires a < Pow2(n)
  {
    Pow2(n) - 1 - a
  }

  // ----- what the operators mean, bit by bit

  lemma {:induction false} BitOfZero(k: nat)
    ensures !Bit(0, k)
  {
    if k > 0 { BitOfZero(k - 1); }
  }

  lemma {:induction false} BitOfAnd(a: nat, b: nat, k: nat)
    ensures Bit(And(a, b), k) == (Bit(a, k) && Bit(b, k))
  {
    if a == 0 || b == 0 {
      BitOfZero(k);
    } else if k > 0 {
      BitOfAnd(a / 2, b / 2, k - 1);
    }
  }

  lemma {:induction false} BitOfOr(a: nat, b: nat, k: nat)
    ensures Bit(Or(a, b), k) == (Bit(a, k) || Bit(b, k))
  {
    if a == 0 || b == 0 {
      BitOfZero(k);
    } else if k > 0 {
      BitOfOr(a / 2, b / 2, k - 1);
    }
  }

  lemma {:induction false} BitOfPow2(j: nat, k: nat)
    ensures Bit(Pow2(j), k) == (j == k)
  {
    if j == 0 {
      if k > 0 { BitOfZero(k - 1); }
    } else if k > 0 {
      BitOfPow2(j - 1, k - 1);
    }
  }

  lemma {:induction false} BitOfNot(a: nat, n: nat, k: nat)
    requires a < Pow2(n) && k < n
    ensures Bit(Not(a, n), k) == !Bit(a, k)
  {
    if k > 0 {
      assert (Pow2(n) - 1 - a) / 2 == Pow2(n - 1) - 1 - a / 2;
      BitOfNot(a / 2, n - 1, k - 1);
    }
  }

  /** Two words with the same bits are the same word. */
  lemma {:induction false} SameBits(a: nat, b: nat)
    requires forall k: nat :: Bit(a, k) == Bit(b, k)
    ensures a == b
    decreases a + b
  {
    assert Bit(a, 0) == Bit(b, 0);
    if a + b > 0 {
      forall k: nat ensures Bit(a / 2, k) == Bit(b / 2, k) {
        assert Bit(a, k + 1) == Bit(b, k + 1);
      }
      if a / 2 + b / 2 < a + b { SameBits(a / 2, b / 2); }
    }
  }

  /** (w & (1 << k)) == (1 << k) asks for bit k. */
  lemma {:induction false} MaskTest(w: nat, k: nat)
    ensures (And(w, Pow2(k)) == Pow2(k)) == Bit(w, k)
  {
    BitOfAnd(w, Pow2(k), k);
    BitOfPow2(k, k);
    if Bit(w, k) {
      forall i: nat ensures Bit(And(w, Pow2(k)), i) == Bit(Pow2(k), i) {
        BitOfAnd(w, Pow2(k), i);
        BitOfPow2(k, i);
      }
      SameBits(And(w, Pow2(k)), Pow2(k));
    }
  }

  lemma {:induction false} AndBelow(a: nat, b: nat)
    ensures And(a, b) <= a && And(a, b) <= b
  {
    if a != 0 && b != 0 { AndBelow(a / 2, b / 2); }
  }

  lemma {:induction false} OrBelow(a: nat, b: nat, n: nat)
    requires a < Pow2(n) && b < Pow2(n)
    ensures Or(a, b) < Pow2(n)
  {
    if a != 0 && b != 0 { OrBelow(a / 2, b / 2, n - 1); }
  }

  lemma {:induction false} Pow2Add(j: nat, k: nat)
    ensures Pow2(j + k) == Pow2(j) * Pow2(k)
  {
    hide Pow2;
    Pow2Step(j);
    Pow2Step(j + k);
    if j > 0 {
      Pow2Add(j - 1, k);
      DoubleTimes(Pow2(j - 1), Pow2(k));
    }
  }

  lemma {:induction false} Pow2Step(k: nat)
    ensures if k == 0 then Pow2(k) == 1 else Pow2(k) == 2 * Pow2(k - 1)
  {}

  lemma {:induction false} DoubleTimes(a: nat, b: nat)
    ensures 2 * (a * b) == (2 * a) * b
  {}

  /** The powers that the page-table format uses. */
  lemma {:induction false} Powers()
    ensures Pow2(9) == 0x200 && Pow2(12) == 0x1000 && Pow2(21) == 0x20_0000
    ensures Pow2(30) == 0x4000_0000 && Pow2(39) == 0x80_0000_0000 && Pow2(51) == 0x8_0000_0000_0000
  {
    assert Pow2(9) == 0x200 && Pow2(12) == 0x1000;
    Pow2Add(9, 12);
    Pow2Add(9, 21);
    Pow2Add(9, 30);
    Pow2Add(12, 39);
  }

  lemma {:induction false} Pow2Increases(j: nat, k: nat)
    requires j < k
    ensures Pow2(j) < Pow2(k)
  {
    if j + 1 < k { Pow2Increases(j, k - 1); }
  }

  // ----- bit fields as quotients and remainders

  /** a << s */
  function Shl(a: nat, s: nat): nat {
    if s == 0 then a else 2 * Shl(a, s - 1)
  }

  /** a >> s */
  function Shr(a: nat, s: nat): nat {
    if s == 0 then a else Shr(a / 2, s - 1)
  }

  lemma {:induction false} ShrIsDiv(a: nat, s: nat)
    ensures Shr(a, s) == a / Pow2(s)
  {
    if s > 0 {
      ShrIsDiv(a / 2, s - 1);
      DivDiv(a, Pow2(s - 1));
    }
  }

  lemma {:induction false} ShrShr(a: nat, s: nat, u: nat)
    ensures Shr(a, s + u) == Shr(Shr(a, s), u)
  {
    if s > 0 { ShrShr(a / 2, s - 1, u); }
  }

  lemma {:induction false} ShlIsMul(a: nat, s: nat)
    ensures Shl(a, s) == a * Pow2(s)
  {
    if s > 0 {
      ShlIsMul(a, s - 1);
      DoubleTimes(Pow2(s - 1), a);
    }
  }

  lemma {:induction false} AndOnes(a: nat, n: nat)
    ensures And(a, Pow2(n) - 1) == a % Pow2(n)
  {
    hide And, Pow2;
    Pow2Step(n);
    if n == 0 {
      AndBelow(a, 0);
    } else {
      AndOnes(a / 2, n - 1);
      AndOdd(a, Pow2(n - 1));
      HalfMod(a, Pow2(n - 1));
    }
  }

  lemma {:induction false} AndOdd(a: nat, m: nat)
    requires m > 0
    ensures And(a, 2 * m - 1) == 2 * And(a / 2, m - 1) + a % 2
  {
    assert (2 * m - 1) / 2 == m - 1 && (2 * m - 1) % 2 == 1;
  }

  /** (a & (mask << s)) >> s is the field of a that starts at bit s. */
  lemma {:induction false} FieldAt(a: nat, mask: nat, s: nat)
    ensures And(a, Shl(mask, s)) == Shl(And(Shr(a, s), mask), s)
    ensures Shr(And(a, Shl(mask, s)), s) == And(Shr(a, s), mask)
  {
    hide And;
    if s > 0 {
      FieldAt(a / 2, mask, s - 1);
      AndDouble(a, Shl(mask, s - 1));
    }
  }

  lemma {:induction false} AndDouble(a: nat, b: nat)
    ensures And(a, 2 * b) == 2 * And(a / 2, b)
  {}

  lemma {:induction false} HalfMod(a: nat, m: nat)
    requires m > 0
    ensures a % (2 * m) == 2 * (a / 2 % m) + a % 2
  {
    var q, r := a / 2 / m, a / 2 % m;
    assert a / 2 == q * m + r;
    assert a == 2 * (q * m) + (2 * r + a % 2);
    assert 2 * (q * m) == q * (2 * m);
    ModUnique(a, 2 * m, q, 2 * r + a % 2);
  }

  lemma {:induction false} DivDiv(a: nat, m: nat)
    requires m > 0
    ensures a / 2 / m == a / (2 * m)
  {
    var q, r := a / 2 / m, a / 2 % m;
    assert a / 2 == q * m + r;
    assert a == 2 * (q * m) + (2 * r + a % 2);
    assert 2 * (q * m) == q * (2 * m);
    ModUnique(a, 2 * m, q, 2 * r + a % 2);
  }

  lemma {:induction false} MulMono(x: nat, y: nat, z: nat)
    requires x <= y
    ensures x * z <= y * z
  {}

  lemma {:induction false} ModUnique(a: nat, m: nat, q: nat, r: nat)
    requires m > 0 && a == q * m + r && r < m
    ensures a / m == q && a % m == r
  {
    var q', r' := a / m, a % m;
    assert a == q' * m + r';
    if q < q' {
      MulMono(q + 1, q', m);
      assert false;
    } else if q' < q {
      MulMono(q' + 1, q, m);
      assert false;
    }
  }

  /** Or of two words that share no bit position is their sum. */
  lemma {:induction false} OrAssoc(a: nat, b: nat, c: nat)
    ensures Or(Or(a, b), c) == Or(a, Or(b, c))
  {
    if a > 0 && b > 0 && c > 0 {
      OrAssoc(a / 2, b / 2, c / 2);
      OrHalf(a, b);
      OrHalf(b, c);
      OrHalf(Or(a, b), c);
      OrHalf(a, Or(b, c));
    }
  }

  lemma {:induction false} OrHalf(a: nat, b: nat)
    ensures Or(a, b) / 2 == Or(a / 2, b / 2) && (Or(a, b) % 2 == 1 <==> a % 2 == 1 || b % 2 == 1)
  {}

  lemma {:induction false} OrDisjoint(hi: nat, lo: nat, s: nat)
    requires lo < Pow2(s)
    ensures Or(Shl(hi, s), lo) == Shl(hi, s) + lo
  {
    if s > 0 {
      OrDisjoint(hi, lo / 2, s - 1);
      var b := Shl(hi, s - 1);
      assert b > 0 && lo > 0 ==> Or(2 * b, lo) == 2 * Or(b, lo / 2) + lo % 2;
    }
  }
}
