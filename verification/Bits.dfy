/** Powers of two and Python's bitwise XOR on unbounded integers. */
module Bits {

  function Pow2(k: nat): (p: nat)
    ensures p >= 1
  {
    if k == 0 then 1 else 2 * Pow2(k - 1)
  }

  lemma {:induction false} Pow2Add(i: nat, j: nat)
    ensures Pow2(i + j) == Pow2(i) * Pow2(j)
  {
    if i > 0 {
      Pow2Add(i - 1, j);
      DoubleProduct(Pow2(j), Pow2(i - 1));
    }
  }

  /** The powers of two that the Fibre Channel code writes as literals. */
  lemma PowersOfTwo()
    ensures Pow2(4) == 16 && Pow2(8) == 256
    ensures Pow2(52) == 0x10_0000_0000_0000
    ensures Pow2(56) == 0x0100_0000_0000_0000
    ensures Pow2(60) == 0x1000_0000_0000_0000
    ensures Pow2(64) == 0x1_0000_0000_0000_0000
  {
    assert Pow2(4) == 16;
    Pow2Add(4, 4);
    assert Pow2(8) == 256;
    Pow2Add(8, 8);
    assert Pow2(16) == 0x1_0000;
    Pow2Add(16, 16);
    assert Pow2(32) == 0x1_0000_0000;
    Pow2Add(32, 16);
    assert Pow2(48) == 0x1_0000_0000_0000;
    Pow2Add(48, 4);
    assert Pow2(52) == 0x10_0000_0000_0000;
    Pow2Add(52, 4);
    assert Pow2(56) == 0x0100_0000_0000_0000;
    Pow2Add(56, 4);
    assert Pow2(60) == 0x1000_0000_0000_0000;
    Pow2Add(60, 4);
  }

  /** Python's `m << k`. */
  function Shl(m: nat, k: nat): nat {
    m * Pow2(k)
  }

  /** Python's `a ^ b` for any integer `a` and a non-negative `b`.  Python
      integers behave as infinite two's complement bit strings; with floor
      division (Dafny's `/` for a positive divisor) `a / 2` drops the lowest
      bit and `a % 2` is that bit, also for negative `a`. */
  function Xor(a: int, b: nat): int
    decreases b
  {
    if b == 0 then a else 2 * Xor(a / 2, b / 2) + (a % 2 + b % 2) % 2
  }

  /** A positive multiple of a positive number is at least that number. */
  lemma {:induction false} MultipleAtLeast(m: int, d: int)
    requires m >= 1 && d > 0
    ensures m * d >= d
    decreases m
  {
    if m > 1 {
      MultipleAtLeast(m - 1, d);
      assert m * d == (m - 1) * d + d;
    }
  }

  /** Floor division by a positive number keeps the sign. */
  lemma DivSign(x: int, p: int)
    requires p > 0
    ensures x < 0 <==> x / p < 0
  {
    var q := x / p;
    assert x == q * p + x % p;
    if q >= 1 {
      MultipleAtLeast(q, p);
    } else if q < 0 {
      MultipleAtLeast(-q, p);
      assert q * p == -((-q) * p);
    }
  }

  /** Quotient and remainder are unique. */
  lemma DivModUnique(x: int, d: int, q: int, r: int)
    requires d > 0 && 0 <= r < d && x == q * d + r
    ensures x / d == q && x % d == r
  {
    var q', r' := x / d, x % d;
    assert x == q' * d + r';
    assert (q' - q) * d == r - r' by {
      assert q' * d - q * d == (q' - q) * d;
    }
    if q' > q {
      MultipleAtLeast(q' - q, d);
    } else if q' < q {
      MultipleAtLeast(q - q', d);
    }
  }

  /** The quotient is zero exactly for the values in [0, p), and at least
      one above. */
  lemma DivRange(x: int, p: int)
    requires p > 0
    ensures 0 <= x < p <==> x / p == 0
    ensures x >= p ==> x / p >= 1
  {
    if 0 <= x < p {
      DivModUnique(x, p, 0, x);
    }
    assert x == (x / p) * p + x % p;
    DivSign(x, p);
  }

  /** Dividing by 2 and then by 2^k is dividing by 2^(k+1). */
  lemma HalveThenDivide(a: int, k: nat)
    ensures (a / 2) / Pow2(k) == a / Pow2(k + 1)
    ensures 2 * ((a / 2) % Pow2(k)) + a % 2 == a % Pow2(k + 1)
  {
    var p := Pow2(k);
    var q, r := (a / 2) / p, (a / 2) % p;
    assert a / 2 == q * p + r;
    assert a == q * (2 * p) + (2 * r + a % 2);
    DivModUnique(a, 2 * p, q, 2 * r + a % 2);
  }

  /** Dividing by 2^i and then by 2^j is dividing by 2^(i+j). */
  lemma {:induction false} DivideTwice(a: int, i: nat, j: nat)
    ensures (a / Pow2(i)) / Pow2(j) == a / Pow2(i + j)
    decreases i
  {
    if i > 0 {
      calc {
        (a / Pow2(i)) / Pow2(j);
        { HalveThenDivide(a, i - 1); }
        ((a / 2) / Pow2(i - 1)) / Pow2(j);
        { DivideTwice(a / 2, i - 1, j); }
        (a / 2) / Pow2(i - 1 + j);
        { HalveThenDivide(a, i - 1 + j); }
        a / Pow2(i + j);
      }
    }
  }

  /** XOR with an even number: the lowest bit of `a` is kept. */
  lemma {:induction false} XorEven(a: int, c: nat)
    ensures Xor(a, 2 * c) == 2 * Xor(a / 2, c) + a % 2
  {
    if c > 0 {
      var b := 2 * c;
      assert b / 2 == c && b % 2 == 0;
      var bit := a % 2;
      assert 0 <= bit < 2;
      assert (bit + 0) % 2 == bit;
      assert Xor(a, b) == 2 * Xor(a / 2, b / 2) + (a % 2 + b % 2) % 2;
    }
  }

  /** Used by `Pow2Add` and `XorShifted`. */
  lemma DoubleProduct(x: int, p: int)
    ensures 2 * (x * p) == x * (2 * p)
  {
  }

  /** XOR with a value shifted left by k bits leaves the low k bits alone and
      XORs the rest: `a ^ (b << k) == ((a >> k) ^ b) << k | (a & (2^k - 1))`. */
  lemma {:induction false} XorShifted(a: int, b: nat, k: nat)
    ensures Xor(a, b * Pow2(k)) == Xor(a / Pow2(k), b) * Pow2(k) + a % Pow2(k)
    decreases k
  {
    if k > 0 {
      var p := Pow2(k - 1);
      var c: nat := b * p;
      XorShifted(a / 2, b, k - 1);
      HalveThenDivide(a, k - 1);
      var x := Xor(a / Pow2(k), b);
      var r := (a / 2) % p;
      assert Xor(a / 2, c) == x * p + r;
      assert Xor(a, b * Pow2(k)) == 2 * (x * p + r) + a % 2 by {
        assert Pow2(k) == 2 * p;
        DoubleProduct(b, p);
        XorEven(a, c);
      }
      assert 2 * (x * p + r) + a % 2 == x * Pow2(k) + a % Pow2(k) by {
        DoubleProduct(x, p);
      }
    }
  }


  /** XOR with a value below 2^j does not touch bit j and above. */
  lemma {:induction false} XorBelow(a: int, b: nat, j: nat)
    requires b < Pow2(j)
    ensures Xor(a, b) / Pow2(j) == a / Pow2(j)
    decreases j
  {
    if b != 0 {
      assert j > 0;
      var y := Xor(a / 2, b / 2);
      var x := Xor(a, b);
      assert x == 2 * y + (a % 2 + b % 2) % 2;
      XorBelow(a / 2, b / 2, j - 1);
      HalveThenDivide(x, j - 1);
      HalveThenDivide(a, j - 1);
      assert x / 2 == y;
    }
  }

  /** XOR-ing the same value twice gives the original back. */
  lemma {:induction false} XorTwice(a: int, b: nat)
    ensures Xor(Xor(a, b), b) == a
    decreases b
  {
    if b != 0 {
      var y := Xor(a / 2, b / 2);
      var bit := (a % 2 + b % 2) % 2;
      var x := Xor(a, b);
      assert x == 2 * y + bit;
      DivModUnique(x, 2, y, bit);
      XorTwice(a / 2, b / 2);
      assert (bit + b % 2) % 2 == a % 2;
    }
  }
}
