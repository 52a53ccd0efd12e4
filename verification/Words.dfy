/** The bitwise operations of 32-bit words, on integers. */
module Words {
  const TWO_32: nat := 0x1_0000_0000

  type word = x: int | 0 <= x < TWO_32

  function Pow2(n: nat): (p: nat)
    ensures p >= 1
  {
    if n == 0 then 1 else 2 * Pow2(n - 1)
  }

  /** Shifts right and left by `n`; the left shift loses no bits here. */
  function ShR(x: nat, n: nat): nat {
    if n == 0 then x else ShR(x / 2, n - 1)
  }

  function ShL(x: nat, n: nat): (r: nat)
    ensures r == x * Pow2(n)
  {
    if n == 0 then x else 2 * ShL(x, n - 1)
  }

  function And(x: nat, y: nat): nat {
    if x == 0 || y == 0 then 0 else (x % 2) * (y % 2) + 2 * And(x / 2, y / 2)
  }

  function Or(x: nat, y: nat): nat {
    if x == 0 && y == 0 then 0 else (if x % 2 == 1 || y % 2 == 1 then 1 else 0) + 2 * Or(x / 2, y / 2)
  }

  function Xor(x: nat, y: nat): nat {
    if x == 0 && y == 0 then 0 else (x + y) % 2 + 2 * Xor(x / 2, y / 2)
  }

  function Not(x: word): word {
    TWO_32 - 1 - x
  }

  lemma {:induction false} Bounded(x: nat, y: nat, n: nat)
    requires x < Pow2(n) && y < Pow2(n)
    ensures And(x, y) < Pow2(n) && Or(x, y) < Pow2(n) && Xor(x, y) < Pow2(n)
  {
    if n > 0 {
      Bounded(x / 2, y / 2, n - 1);
    }
  }

  lemma {:induction false} Pow2Adds(m: nat, n: nat)
    ensures Pow2(m + n) == Pow2(m) * Pow2(n)
  {
    if m > 0 {
      Pow2Adds(m - 1, n);
    }
  }

  lemma Pow2Of32()
    ensures Pow2(32) == TWO_32
  {
    Pow2Adds(8, 8);
    Pow2Adds(16, 16);
  }

  lemma {:induction false} XorCommutes(x: nat, y: nat)
    ensures Xor(x, y) == Xor(y, x)
  {
    if x != 0 || y != 0 {
      XorCommutes(x / 2, y / 2);
    }
  }

  lemma Halves(v: nat, bit: nat, rest: nat)
    requires v == bit + 2 * rest && bit < 2
    ensures v % 2 == bit && v / 2 == rest
  {
  }

  lemma XorHalves(x: nat, y: nat, v: nat)
    requires v == Xor(x, y)
    ensures v % 2 == (x + y) % 2 && v / 2 == Xor(x / 2, y / 2)
  {
    if x != 0 || y != 0 {
      Halves(v, (x + y) % 2, Xor(x / 2, y / 2));
    }
  }

  lemma SameHalves(x: nat, y: nat)
    requires x % 2 == y % 2 && x / 2 == y / 2
    ensures x == y
  {
  }

  lemma OddSums(x: nat, y: nat, z: nat, p: nat, q: nat)
    requires p % 2 == (x + y) % 2 && q % 2 == (y + z) % 2
    ensures (p + z) % 2 == (x + q) % 2
  {
  }

  lemma {:induction false} XorAssociates(x: nat, y: nat, z: nat)
    ensures Xor(Xor(x, y), z) == Xor(x, Xor(y, z))
    decreases x + y + z
  {
    var p, q := Xor(x, y), Xor(y, z);
    var u, v := Xor(p, z), Xor(x, q);
    if x != 0 || y != 0 || z != 0 {
      XorHalves(x, y, p);
      XorHalves(y, z, q);
      XorHalves(p, z, u);
      XorHalves(x, q, v);
      OddSums(x, y, z, p, q);
      XorAssociates(x / 2, y / 2, z / 2);
      SameHalves(u, v);
    }
  }

  lemma {:induction false} AndCommutes(x: nat, y: nat)
    ensures And(x, y) == And(y, x)
  {
    if x != 0 && y != 0 {
      AndCommutes(x / 2, y / 2);
    }
  }

  /** Or joins numbers that share no bit by adding them. */
  lemma {:induction false} OrAdds(low: nat, high: nat, n: nat)
    requires low < Pow2(n)
    ensures Or(low, ShL(high, n)) == low + ShL(high, n)
  {
    if n == 0 {
      OrNothing(high);
    } else {
      OrAdds(low / 2, high, n - 1);
      Halves(ShL(high, n), 0, ShL(high, n - 1));
    }
  }

  lemma {:induction false} OrNothing(x: nat)
    ensures Or(0, x) == x
  {
    if x != 0 {
      OrNothing(x / 2);
    }
  }

  lemma {:induction false} OrCommutes(x: nat, y: nat)
    ensures Or(x, y) == Or(y, x)
  {
    if x != 0 || y != 0 {
      OrCommutes(x / 2, y / 2);
    }
  }

  lemma {:induction false} ShRDrops(high: nat, low: nat, n: nat)
    requires low < Pow2(n)
    ensures ShR(ShL(high, n) + low, n) == high
  {
    if n > 0 {
      Halves(ShL(high, n) + low, low % 2, ShL(high, n - 1) + low / 2);
      ShRDrops(high, low / 2, n - 1);
    }
  }

  /** `x` turned right by `n` bits. */
  function RotR(x: word, n: nat): nat
    requires n <= 32
  {
    Or(ShR(x, n), ShL(x, 32 - n) % TWO_32)
  }

  /** The low bits come back at the top. */
  lemma RotRTurns(high: nat, low: nat, n: nat)
    requires n <= 32 && low < Pow2(n) && high < Pow2(32 - n)
    ensures ShL(high, n) + low < TWO_32
    ensures RotR(ShL(high, n) + low, n) == ShL(low, 32 - n) + high
  {
    var x := ShL(high, n) + low;
    Pow2Of32();
    Pow2Adds(n, 32 - n);
    Fits(high, low, Pow2(n), Pow2(32 - n));
    Fits(low, high, Pow2(32 - n), Pow2(n));
    ShRDrops(high, low, n);
    TopDrops(high, low, Pow2(n), Pow2(32 - n));
    OrAdds(high, low, 32 - n);
  }

  lemma Fits(high: nat, low: nat, p: nat, q: nat)
    requires high < q && low < p
    ensures high * p + low < q * p
  {
    assert (high + 1) * p <= q * p;
  }

  lemma TopDrops(high: nat, low: nat, p: nat, q: nat)
    requires p > 0 && q > 0 && low < p && p * q == TWO_32
    ensures (high * p + low) * q % TWO_32 == low * q
  {
    assert (high * p + low) * q == high * TWO_32 + low * q;
    assert low * q < p * q;
  }

  // ----- single bits -----

  predicate HasBit(x: nat, i: nat) {
    ShR(x, i) % 2 == 1
  }

  /** `1 << n` in 32 bits, and `x << 1`. */
  function Bit(n: nat): word {
    ShL(1, n) % TWO_32
  }

  function Doubled(x: word): word {
    ShL(x, 1) % TWO_32
  }

  function OrWord(x: word, y: word): word {
    Pow2Of32();
    Bounded(x, y, 32);
    Or(x, y)
  }

  lemma BitOfLow(n: nat)
    requires n < 32
    ensures Bit(n) == Pow2(n)
  {
    Pow2Of32();
    BitBelow(n, 32);
  }

  lemma BitBelow(n: nat, width: nat)
    requires n < width && Pow2(width) == TWO_32
    ensures Bit(n) == Pow2(n)
  {
    Pow2Below(n, width);
  }

  lemma {:induction false} Pow2Below(m: nat, n: nat)
    requires m < n
    ensures Pow2(m) < Pow2(n)
  {
    if m + 1 < n {
      Pow2Below(m, n - 1);
    }
  }

  lemma NextBit(n: nat)
    ensures Doubled(Bit(n)) == Bit(n + 1)
  {
    var p := Pow2(n);
    assert p == TWO_32 * (p / TWO_32) + p % TWO_32;
  }

  lemma {:induction false} NothingHasNoBit(i: nat)
    ensures !HasBit(0, i)
  {
    if i > 0 {
      NothingHasNoBit(i - 1);
    }
  }

  lemma {:induction false} HasBitOfPow2(n: nat, i: nat)
    ensures HasBit(Pow2(n), i) <==> i == n
  {
    if n > 0 {
      Halves(Pow2(n), 0, Pow2(n - 1));
      if i > 0 {
        HasBitOfPow2(n - 1, i - 1);
      }
    } else if i > 0 {
      NothingHasNoBit(i - 1);
    }
  }

  lemma OrHalves(x: nat, y: nat, v: nat)
    requires v == Or(x, y)
    ensures (v % 2 == 1 <==> x % 2 == 1 || y % 2 == 1) && v / 2 == Or(x / 2, y / 2)
  {
    if x != 0 || y != 0 {
      Halves(v, if x % 2 == 1 || y % 2 == 1 then 1 else 0, Or(x / 2, y / 2));
    }
  }

  lemma {:induction false} HasBitOfOr(x: nat, y: nat, i: nat)
    ensures HasBit(Or(x, y), i) <==> HasBit(x, i) || HasBit(y, i)
    decreases i
  {
    OrHalves(x, y, Or(x, y));
    if i > 0 {
      HasBitOfOr(x / 2, y / 2, i - 1);
    }
  }

  lemma {:induction false} OrAssociates(x: nat, y: nat, z: nat)
    ensures Or(Or(x, y), z) == Or(x, Or(y, z))
    decreases x + y + z
  {
    var p, q := Or(x, y), Or(y, z);
    var u, v := Or(p, z), Or(x, q);
    if x != 0 || y != 0 || z != 0 {
      OrHalves(x, y, p);
      OrHalves(y, z, q);
      OrHalves(p, z, u);
      OrHalves(x, q, v);
      OrAssociates(x / 2, y / 2, z / 2);
      SameHalves(u, v);
    }
  }

  /** Masking with one bit asks for that bit. */
  lemma {:induction false} AndPow2(x: nat, n: nat)
    ensures And(x, Pow2(n)) != 0 <==> HasBit(x, n)
  {
    if x == 0 {
      NothingHasNoBit(n);
    } else if n > 0 {
      Halves(Pow2(n), 0, Pow2(n - 1));
      AndPow2(x / 2, n - 1);
    } else {
      assert And(x, 1) == x % 2 + 2 * And(x / 2, 0);
    }
  }

  lemma NoHighBit(n: nat)
    requires n >= 32
    ensures Bit(n) == 0
  {
    Pow2Of32();
    Pow2Adds(32, n - 32);
    assert Pow2(n) == TWO_32 * Pow2(n - 32);
  }

  lemma MaskAsks(x: word, n: nat)
    requires n < 32
    ensures And(x, Bit(n)) != 0 <==> HasBit(x, n)
  {
    BitOfLow(n);
    AndPow2(x, n);
  }

  // ----- what the operations do, bit by bit -----

  /** A bit is a binary digit. */
  lemma {:induction false} ShRIsQuotient(x: nat, n: nat)
    ensures ShR(x, n) == x / Pow2(n)
  {
    if n > 0 {
      ShRIsQuotient(x / 2, n - 1);
      HalveDiv(x, Pow2(n - 1));
    }
  }

  lemma DivBy256(m: nat, p: int)
    requires p >= 1
    ensures m / p / 256 == m / (256 * p)
  {
    var h, s := m / p, m % p;
    var q, r := h / 256, h % 256;
    assert h == 256 * q + r && m == p * h + s;
    Spread(p, q, r);
    Scale(r, 255, p);
    DivUnique(m, 256 * p, q, p * r + s);
  }

  lemma Spread(p: int, q: int, r: int)
    ensures p * (256 * q + r) == 256 * p * q + p * r
  {
  }

  lemma HalveDiv(m: nat, u: int)
    requires u >= 1
    ensures m / 2 / u == m / (2 * u)
  {
    var h := m / 2;
    var q, r := h / u, h % u;
    assert h == u * q + r;
    assert m == (2 * u) * q + (2 * r + m % 2) by {
      assert 2 * (u * q) == (2 * u) * q;
    }
    DivUnique(m, 2 * u, q, 2 * r + m % 2);
  }

  lemma MulApart(m: int, d: int)
    requires m >= 1 && d != 0
    ensures m * d >= m || m * d <= -m
  {
    if d > 0 {
      Scale(1, d, m);
    } else {
      Scale(1, -d, m);
      assert -d * m == -(m * d);
    }
  }

  lemma DivUnique(n: int, m: int, q: int, r: int)
    requires 0 <= r < m && n == m * q + r
    ensures n / m == q
  {
    var d := n / m - q;
    assert m * d == m * (n / m) - m * q == r - n % m;
    if d != 0 {
      MulApart(m, d);
    }
  }

  lemma Scale(a: nat, b: nat, u: int)
    requires a <= b && u >= 1
    ensures a * u <= b * u
  {
  }

  /** Two words with the same bits are the same. */
  lemma {:induction false} SameBits(x: nat, y: nat, n: nat)
    requires x < Pow2(n) && y < Pow2(n) && forall i :: 0 <= i < n ==> (HasBit(x, i) <==> HasBit(y, i))
    ensures x == y
  {
    if n > 0 {
      assert HasBit(x, 0) <==> HasBit(y, 0);
      forall i | 0 <= i < n - 1
        ensures HasBit(x / 2, i) <==> HasBit(y / 2, i)
      {
        assert HasBit(x, i + 1) <==> HasBit(y, i + 1);
      }
      SameBits(x / 2, y / 2, n - 1);
    }
  }

  lemma AndHalves(x: nat, y: nat, v: nat)
    requires v == And(x, y)
    ensures (v % 2 == 1 <==> x % 2 == 1 && y % 2 == 1) && v / 2 == And(x / 2, y / 2)
  {
    if x != 0 && y != 0 {
      Halves(v, if x % 2 == 1 && y % 2 == 1 then 1 else 0, And(x / 2, y / 2));
    }
  }

  lemma {:induction false} HasBitOfAnd(x: nat, y: nat, i: nat)
    ensures HasBit(And(x, y), i) <==> HasBit(x, i) && HasBit(y, i)
    decreases i
  {
    AndHalves(x, y, And(x, y));
    if i > 0 {
      HasBitOfAnd(x / 2, y / 2, i - 1);
    }
  }

  lemma {:induction false} HasBitOfXor(x: nat, y: nat, i: nat)
    ensures HasBit(Xor(x, y), i) <==> HasBit(x, i) != HasBit(y, i)
    decreases i
  {
    XorHalves(x, y, Xor(x, y));
    if i > 0 {
      HasBitOfXor(x / 2, y / 2, i - 1);
    }
  }

  /** Taken from all ones, a number is its complement. */
  lemma {:induction false} HasBitOfComplement(x: nat, n: nat, i: nat)
    requires x < Pow2(n) && i < n
    ensures HasBit(Pow2(n) - 1 - x, i) <==> !HasBit(x, i)
    decreases n
  {
    var v := Pow2(n) - 1 - x;
    Halves(v, 1 - x % 2, Pow2(n - 1) - 1 - x / 2);
    if i > 0 {
      HasBitOfComplement(x / 2, n - 1, i - 1);
    }
  }

  lemma HasBitOfNot(x: word, i: nat)
    requires i < 32
    ensures HasBit(Not(x), i) <==> !HasBit(x, i)
  {
    Pow2Of32();
    HasBitOfComplement(x, 32, i);
  }

  lemma {:induction false} HasBitOfShR(x: nat, n: nat, i: nat)
    ensures HasBit(ShR(x, n), i) <==> HasBit(x, i + n)
    decreases n
  {
    if n > 0 {
      HasBitOfShR(x / 2, n - 1, i);
    }
  }

  lemma {:induction false} HasBitOfShL(x: nat, n: nat, i: nat)
    ensures HasBit(ShL(x, n), i) <==> i >= n && HasBit(x, i - n)
    decreases n
  {
    if n > 0 {
      Halves(ShL(x, n), 0, ShL(x, n - 1));
      if i > 0 {
        HasBitOfShL(x, n - 1, i - 1);
      }
    }
  }

  /** Only the low bits are left. */
  lemma {:induction false} HasBitOfLow(x: nat, n: nat, i: nat)
    ensures HasBit(x % Pow2(n), i) <==> i < n && HasBit(x, i)
    decreases n
  {
    if n == 0 {
      NothingHasNoBit(i);
    } else {
      LowHalves(x, Pow2(n - 1));
      if i > 0 {
        HasBitOfLow(x / 2, n - 1, i - 1);
      }
    }
  }

  lemma LowHalves(x: nat, p: nat)
    requires p > 0
    ensures x % (2 * p) % 2 == x % 2 && x % (2 * p) / 2 == x / 2 % p
  {
    HalveDiv(x, p);
    var q, r := x / 2 / p, x / 2 % p;
    assert x / 2 == p * q + r && x == 2 * p * q + x % (2 * p);
    assert 2 * (p * q) == 2 * p * q;
    Halves(x % (2 * p), x % 2, r);
  }

  /** Bit `i` of a word turned right by `n` is bit `i + n`, counted around. */
  lemma HasBitOfRotR(x: word, n: nat, i: nat)
    requires 0 < n < 32 && i < 32
    ensures HasBit(RotR(x, n), i) <==> HasBit(x, (i + n) % 32)
  {
    var width := Width();
    TurnedBits(x, n, width, TWO_32, i);
  }

  lemma Width() returns (width: nat)
    ensures width == 32 && Pow2(width) == TWO_32
  {
    width := 32;
    Pow2Of32();
  }

  lemma TurnedBits(x: nat, n: nat, width: nat, p: nat, i: nat)
    requires 0 < n < width && p == Pow2(width) && x < p && i < width
    ensures HasBit(Or(ShR(x, n), ShL(x, width - n) % p), i) <==>
      HasBit(x, if i + n < width then i + n else i + n - width)
  {
    HasBitOfOr(ShR(x, n), ShL(x, width - n) % p, i);
    FromAbove(x, n, width, i);
    FromBelow(x, n, width, i);
  }

  lemma FromAbove(x: nat, n: nat, width: nat, i: nat)
    requires x < Pow2(width)
    ensures HasBit(ShR(x, n), i) <==> i + n < width && HasBit(x, i + n)
  {
    HasBitOfShR(x, n, i);
    if i + n >= width {
      HighBits(x, width, i + n);
    }
  }

  lemma FromBelow(x: nat, n: nat, width: nat, i: nat)
    requires 0 < n < width && i < width
    ensures HasBit(ShL(x, width - n) % Pow2(width), i) <==> i + n >= width && HasBit(x, i + n - width)
  {
    HasBitOfLow(ShL(x, width - n), width, i);
    HasBitOfShL(x, width - n, i);
  }

  lemma {:induction false} HighBits(x: nat, n: nat, i: nat)
    requires x < Pow2(n) && i >= n
    ensures !HasBit(x, i)
    decreases i
  {
    if i == 0 {
    } else if n == 0 {
      NothingHasNoBit(i);
    } else {
      HighBits(x / 2, n - 1, i - 1);
    }
  }
}
