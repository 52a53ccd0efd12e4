/** The doubles that numeric BSON values convert to: IEEE 754 values as extended reals, and the
    round-half-to-even conversion of a 64-bit integer to 53 significant bits. */
module Numbers {
  import opened Bytes
  import opened BsonFormat
  import Words

  datatype Num = NaN | NegInf | PosInf | Fin(r: real)

  predicate Less(a: Num, b: Num)
  {
    match (a, b)
    case (NegInf, PosInf) => true
    case (NegInf, Fin(_)) => true
    case (Fin(_), PosInf) => true
    case (Fin(x), Fin(y)) => x < y
    case _ => false
  }

  predicate Same(a: Num, b: Num)
  {
    a == b && a != NaN
  }

  function RealPow2(k: int): real
    decreases if k < 0 then -k else k
  {
    if k == 0 then 1.0 else if k > 0 then 2.0 * RealPow2(k - 1) else RealPow2(k + 1) / 2.0
  }

  const HIDDEN: int := 0x10_0000_0000_0000
  const LIMIT: int := 0x20_0000_0000_0000

  function NumOfDouble(d: Double): Num
  {
    if d.expo == 2047 then
      if d.frac != 0 then NaN else if d.neg then NegInf else PosInf
    else
      var m := if d.expo == 0 then d.frac else HIDDEN + d.frac;
      var x := m as real * RealPow2(if d.expo == 0 then -1074 else d.expo - 1075);
      Fin(if d.neg then -x else x)
  }

  /** How many low bits of `m` a 53-bit significand has no room for. */
  function Excess(m: nat): nat
  {
    if m < LIMIT then 0 else 1 + Excess(m / 2)
  }

  /** The nearest multiple of `u`, counted in `u`s; ties go to the even one. */
  function RoundedQuotient(m: nat, u: int): nat
    requires u >= 1
  {
    var q, r := m / u, m % u;
    if 2 * r < u || (2 * r == u && q % 2 == 0) then q else q + 1
  }

  function RoundNat(m: nat): (r: int)
    ensures r >= 0
  {
    var u := Words.Pow2(Excess(m));
    RoundedQuotient(m, u) * u
  }

  /** The integer a NumberLong becomes when cast to double. */
  function RoundLong(n: int): int
  {
    if n < 0 then -RoundNat(-n) else RoundNat(n)
  }

  // ----- rounding is monotone -----

  lemma {:induction false} ExcessBounds(m: nat)
    ensures var u := Words.Pow2(Excess(m));
            m / u < LIMIT && (Excess(m) > 0 ==> m / u >= HIDDEN)
  {
    if m >= LIMIT {
      ExcessBounds(m / 2);
      var u := Words.Pow2(Excess(m / 2));
      Words.HalveDiv(m, u);
      if m / 2 < LIMIT {
        assert m / 2 >= HIDDEN;
      }
    }
  }

  lemma DivMonotone(m: nat, n: nat, u: int)
    requires m <= n && u >= 1
    ensures m / u <= n / u
  {
    var q, q' := m / u, n / u;
    assert m == u * q + m % u && n == u * q' + n % u;
    if q' < q {
      Words.Scale(q' + 1, q, u);
    }
  }

  lemma {:induction false} ExcessMonotone(m: nat, n: nat)
    requires m <= n
    ensures Excess(m) <= Excess(n)
  {
    if m >= LIMIT {
      ExcessMonotone(m / 2, n / 2);
    }
  }

  lemma {:induction false} Pow2Monotone(j: nat, k: nat)
    requires j < k
    ensures 2 * Words.Pow2(j) <= Words.Pow2(k)
  {
    if j < k - 1 {
      Pow2Monotone(j, k - 1);
    }
  }

  lemma QuotientMonotone(m: nat, n: nat, u: int)
    requires m <= n && u >= 1
    ensures RoundedQuotient(m, u) <= RoundedQuotient(n, u)
  {
    DivMonotone(m, n, u);
    if m / u == n / u {
      assert m == u * (m / u) + m % u && n == u * (n / u) + n % u;
    }
  }

  lemma RoundNatMonotone(m: nat, n: nat)
    requires m <= n
    ensures RoundNat(m) <= RoundNat(n)
  {
    ExcessMonotone(m, n);
    var j, k := Excess(m), Excess(n);
    var u, w := Words.Pow2(j), Words.Pow2(k);
    if j == k {
      QuotientMonotone(m, n, u);
      Words.Scale(RoundedQuotient(m, u), RoundedQuotient(n, u), u);
    } else {
      ExcessBounds(m);
      ExcessBounds(n);
      Pow2Monotone(j, k);
      Words.Scale(RoundedQuotient(m, u), LIMIT, u);
      Words.Scale(HIDDEN, RoundedQuotient(n, w), w);
      assert HIDDEN * w >= HIDDEN * (2 * u) == LIMIT * u;
    }
  }

  lemma RoundLongMonotone(m: int, n: int)
    requires m <= n
    ensures RoundLong(m) <= RoundLong(n)
  {
    if m >= 0 {
      RoundNatMonotone(m, n);
    } else if n < 0 {
      RoundNatMonotone(-n, -m);
    }
  }

  /** Integers of at most 53 bits convert exactly. */
  lemma RoundLongExact(n: int)
    requires -LIMIT < n < LIMIT
    ensures RoundLong(n) == n
  {
  }

  // ----- every rounded integer is a double -----

  lemma {:induction false} RealPow2OfNat(k: nat)
    ensures RealPow2(k) == Words.Pow2(k) as real
  {
    if k > 0 {
      RealPow2OfNat(k - 1);
    }
  }

  /** The double an integer of more than 53 bits converts to. */
  function DoubleOfLong(n: int): Double
  {
    var m: nat := if n < 0 then -n else n;
    var k := Excess(m);
    var q := RoundedQuotient(m, Words.Pow2(k));
    if q >= LIMIT then Double(n < 0, 1076 + k, 0) else Double(n < 0, 1075 + k, if q < HIDDEN then 0 else q - HIDDEN)
  }

  lemma NormalValue(neg: bool, k: nat, f: nat)
    requires k <= 12 && f < HIDDEN
    ensures var m := (HIDDEN + f) * Words.Pow2(k);
            NumOfDouble(Double(neg, 1075 + k, f)) == Fin((if neg then -m else m) as real)
  {
    RealPow2OfNat(k);
    RealMul(HIDDEN + f, Words.Pow2(k));
    ValueFrom(neg, HIDDEN + f, k, ((HIDDEN + f) * Words.Pow2(k)) as real);
  }

  lemma DoubleOfLongValue(n: int)
    requires InRange(n, 8) && !(-LIMIT < n < LIMIT)
    ensures WfDouble(DoubleOfLong(n)) && NumOfDouble(DoubleOfLong(n)) == Fin(RoundLong(n) as real)
  {
    Pow256Values();
    var m: nat := if n < 0 then -n else n;
    var k := Excess(m);
    var q := RoundedQuotient(m, Words.Pow2(k));
    ExcessBounds(m);
    ExcessSmall(m);
    if q >= LIMIT {
      NormalValue(n < 0, k + 1, 0);
      assert q == 2 * HIDDEN && q * Words.Pow2(k) == HIDDEN * Words.Pow2(k + 1);
    } else {
      NormalValue(n < 0, k, q - HIDDEN);
    }
  }

  lemma RealMul(a: int, b: int)
    ensures a as real * b as real == (a * b) as real
  {
  }

  lemma ExcessSmall(m: nat)
    requires m <= 0x8000_0000_0000_0000
    ensures Excess(m) <= 11
  {
    ExcessMonotone(m, 0x8000_0000_0000_0000);
    assert Excess(0x20_0000_0000_0000) == 1;
    assert Excess(0x100_0000_0000_0000) == 4;
    assert Excess(0x800_0000_0000_0000) == 7;
    assert Excess(0x4000_0000_0000_0000) == 10;
  }

  // ----- the nearest double -----

  /** `q` units of `u` are no further from `m` than half a unit, and where they are just half, `q` is
      the even one of the two. */
  predicate NearestMultiple(m: nat, u: int, q: int)
  {
    -u <= 2 * (q * u - m) <= u && (2 * (q * u - m) == u || 2 * (q * u - m) == -u ==> q % 2 == 0)
  }

  /** An integer is rounded to the nearest multiple of the unit its size leaves room for. */
  lemma RoundedToNearest(m: nat) returns (u: nat, q: int)
    ensures u == Words.Pow2(Excess(m)) && RoundNat(m) == q * u && NearestMultiple(m, u, q)
    ensures m < LIMIT * u && (u > 1 ==> m >= HIDDEN * u)
  {
    u := Words.Pow2(Excess(m));
    q := RoundedQuotient(m, u);
    ExcessBounds(m);
    Rounds(m, u);
    Quotients(m, u);
    Words.Scale(m / u + 1, LIMIT, u);
    if Excess(m) > 0 {
      Words.Scale(HIDDEN, m / u, u);
    }
  }

  lemma Quotients(m: nat, u: int)
    requires u >= 1
    ensures m / u * u <= m < (m / u + 1) * u
  {
    assert m == u * (m / u) + m % u;
    assert (m / u + 1) * u == m / u * u + u;
  }

  lemma Rounds(m: nat, u: int)
    requires u >= 1
    ensures NearestMultiple(m, u, RoundedQuotient(m, u))
  {
    var q, r := m / u, m % u;
    assert m == u * q + r;
    assert (q + 1) * u == q * u + u;
  }

  /** A negative integer rounds to a negative one. */
  lemma RoundLongSign(n: int)
    ensures RoundLong(n) < 0 <==> n < 0
    ensures RoundLong(n) == 0 <==> n == 0
  {
    RoundLongExact(-1);
    RoundLongExact(0);
    RoundLongExact(1);
    if n < 0 {
      RoundLongMonotone(n, -1);
    } else if n > 0 {
      RoundLongMonotone(1, n);
    }
  }

  // ----- what a double is -----

  lemma {:induction false} RealPow2Doubles(k: int)
    ensures RealPow2(k + 1) == 2.0 * RealPow2(k) && RealPow2(k) > 0.0
    decreases if k < 0 then -k else k
  {
    if k > 0 {
      RealPow2Doubles(k - 1);
    } else if k < 0 {
      RealPow2Doubles(k + 1);
    }
  }

  lemma {:induction false} RealPow2Grows(j: int, k: int)
    requires j < k
    ensures 2.0 * RealPow2(j) <= RealPow2(k)
    decreases k - j
  {
    RealPow2Doubles(j);
    if j + 1 < k {
      RealPow2Grows(j + 1, k);
      RealPow2Doubles(j + 1);
    }
  }

  predicate Finite(d: Double)
  {
    WfDouble(d) && d.expo < 2047
  }

  function ValueOf(d: Double): real
    requires Finite(d)
  {
    NumOfDouble(d).r
  }

  /** The sign bit negates; the largest exponent stands for NaN and the infinities. */
  lemma SignsAndSpecials(d: Double)
    requires WfDouble(d)
    ensures NumOfDouble(d).Fin? <==> Finite(d)
    ensures Finite(d) ==> ValueOf(d.(neg := !d.neg)) == -ValueOf(d)
    ensures !Finite(d) ==> NumOfDouble(d) == if d.frac != 0 then NaN else if d.neg then NegInf else PosInf
  {
  }

  /** One more in the exponent is twice the value. */
  lemma NextExponent(d: Double)
    requires Finite(d) && 0 < d.expo < 2046
    ensures ValueOf(d.(expo := d.expo + 1)) == 2.0 * ValueOf(d)
  {
    RealPow2Doubles(d.expo - 1075);
    Reassociate((HIDDEN + d.frac) as real, RealPow2(d.expo - 1075));
  }

  lemma Reassociate(m: real, p: real)
    ensures m * (2.0 * p) == 2.0 * (m * p)
  {
  }

  /** Below the smallest exponent the values go on in the same steps, down to zero. */
  lemma Subnormals(neg: bool, f: nat)
    requires f < HIDDEN
    ensures ValueOf(Double(neg, 0, f)) == ValueOf(Double(neg, 1, f)) - ValueOf(Double(neg, 1, 0))
  {
    Steps(HIDDEN as real, f as real, RealPow2(-1074));
  }

  lemma Steps(h: real, f: real, p: real)
    ensures (h + f) * p - h * p == f * p
  {
  }

  /** Every integer below 2^53 in size is the value of a double. */
  lemma SmallIntegers(n: int) returns (d: Double)
    requires -0x20_0000_0000_0000 < n < 0x20_0000_0000_0000
    ensures NumOfDouble(d) == Fin(n as real)
  {
    if n == 0 {
      d := Double(false, 0, 0);
      ZeroValue(d, d.expo - 1074);
    } else {
      var m := if n < 0 then -n else n;
      Pow2Of52();
      var j := LeadingBit(m, 53);
      d := WithLeadingBit(m, j);
      if n < 0 {
        SignsAndSpecials(d);
        assert m as real == -(n as real);
        d := d.(neg := true);
      }
    }
  }

  lemma ZeroValue(d: Double, k: int)
    requires Finite(d) && d.expo == 0 && d.frac == 0 && !d.neg && k == d.expo - 1074
    ensures NumOfDouble(d) == Fin(0.0)
  {
    Positive(d, d.frac, k);
    assert ValueOf(d) == 0.0;
  }

  lemma {:induction false} LeadingBit(n: nat, k: nat) returns (j: nat)
    requires 0 < n < Words.Pow2(k)
    ensures j < k && Words.Pow2(j) <= n < Words.Pow2(j + 1)
  {
    if k == 0 {
      assert false;
    } else if n >= Words.Pow2(k - 1) {
      j := k - 1;
    } else {
      j := LeadingBit(n, k - 1);
    }
  }

  /** The leading bit gives the exponent. */
  lemma WithLeadingBit(n: nat, j: nat) returns (d: Double)
    requires j <= 52 && Words.Pow2(j) <= n < Words.Pow2(j + 1)
    ensures Finite(d) && !d.neg && NumOfDouble(d) == Fin(n as real)
  {
    var k, l := 52 - j, j - 52;
    var u := Words.Pow2(k);
    Scaled(n, j, k, u);
    d := Shifted(n, u, k, l);
  }

  lemma Shifted(n: nat, u: nat, k: nat, l: int) returns (d: Double)
    requires k + l == 0 && k <= 52 && u == Words.Pow2(k) && HIDDEN <= n * u < LIMIT
    ensures Finite(d) && !d.neg && NumOfDouble(d) == Fin(n as real)
  {
    Inverse(k, l);
    Unscaled(n, u, n * u, RealPow2(l));
    ValueFrom(false, n * u, l, n as real);
    d := Double(false, l + 1075, n * u - HIDDEN);
  }

  lemma ValueFrom(neg: bool, m: nat, k: int, v: real)
    requires HIDDEN <= m < LIMIT && 0 < k + 1075 < 2047 && m as real * RealPow2(k) == v
    ensures NumOfDouble(Double(neg, k + 1075, m - HIDDEN)) == Fin(if neg then -v else v)
  {
  }

  lemma Unscaled(n: nat, u: nat, m: nat, p: real)
    requires m == n * u && u as real * p == 1.0
    ensures m as real * p == n as real
  {
    RealMul(n, u);
    Cancel(n as real, u as real, p);
  }

  lemma Scaled(n: nat, j: nat, k: nat, u: nat)
    requires j + k == 52 && u == Words.Pow2(k) && Words.Pow2(j) <= n < Words.Pow2(j + 1)
    ensures HIDDEN <= n * u < LIMIT
  {
    Words.Pow2Adds(j, k);
    Words.Pow2Adds(j + 1, k);
    Pow2Of52();
    Bounds(n, Words.Pow2(j), Words.Pow2(j + 1), u);
  }

  lemma Pow2Of52()
    ensures Words.Pow2(52) == HIDDEN && Words.Pow2(53) == LIMIT
  {
    Words.Pow2Of32();
    Words.Pow2Adds(32, 20);
    Words.Pow2Adds(52, 1);
  }

  lemma Bounds(n: nat, lo: nat, hi: nat, u: nat)
    requires lo <= n < hi && u >= 1
    ensures lo * u <= n * u < hi * u
  {
    Words.Scale(lo, n, u);
    Words.Scale(n + 1, hi, u);
    assert (n + 1) * u == n * u + u;
  }

  lemma Cancel(n: real, u: real, p: real)
    requires u * p == 1.0
    ensures n * u * p == n
  {
    assert n * u * p == n * (u * p);
  }

  lemma {:induction false} Inverse(k: nat, l: int)
    requires k + l == 0
    ensures Words.Pow2(k) as real * RealPow2(l) == 1.0
    decreases k
  {
    if k > 0 {
      Inverse(k - 1, l + 1);
      RealPow2Doubles(l);
      Halved(Words.Pow2(k - 1) as real, RealPow2(l));
    }
  }

  lemma Halved(u: real, p: real)
    ensures (2.0 * u) * p == u * (2.0 * p)
  {
  }

  /** Positive doubles are ordered as their bits are. */
  lemma OrderedAsBits(d: Double, e: Double)
    requires Finite(d) && Finite(e) && !d.neg && !e.neg
    ensures ValueOf(d) < ValueOf(e) <==> DoubleBits(d) < DoubleBits(e)
  {
    if d.expo < e.expo || (d.expo == e.expo && d.frac < e.frac) {
      BitsAscend(d, e);
    } else if d != e {
      BitsAscend(e, d);
    }
  }

  lemma BitsAscend(d: Double, e: Double)
    requires Finite(d) && Finite(e) && !d.neg && !e.neg
    requires d.expo < e.expo || (d.expo == e.expo && d.frac < e.frac)
    ensures ValueOf(d) < ValueOf(e) && DoubleBits(d) < DoubleBits(e)
  {
    ValuesAscend(d, e);
  }

  lemma ValuesAscend(d: Double, e: Double)
    requires Finite(d) && Finite(e) && !d.neg && !e.neg
    requires d.expo < e.expo || (d.expo == e.expo && d.frac < e.frac)
    ensures ValueOf(d) < ValueOf(e)
  {
    var k := if d.expo == 0 then -1074 else d.expo - 1075;
    var l := if e.expo == 0 then -1074 else e.expo - 1075;
    var m := if d.expo == 0 then d.frac else HIDDEN + d.frac;
    var n := if e.expo == 0 then e.frac else HIDDEN + e.frac;
    Positive(d, m, k);
    Positive(e, n, l);
    Magnified(m, n, k, l);
  }

  lemma Magnified(m: nat, n: nat, k: int, l: int)
    requires (k == l && m < n) || (k < l && m < LIMIT && HIDDEN <= n)
    ensures m as real * RealPow2(k) < n as real * RealPow2(l)
  {
    RealPow2Doubles(k);
    RealPow2Doubles(l);
    if k == l {
      RealScale(m as real, n as real, RealPow2(k));
    } else {
      RealPow2Grows(k, l);
      Larger(m as real, n as real, RealPow2(k), RealPow2(l));
    }
  }

  lemma Positive(d: Double, m: nat, k: int)
    requires Finite(d) && !d.neg && m == if d.expo == 0 then d.frac else HIDDEN + d.frac
    requires k == if d.expo == 0 then -1074 else d.expo - 1075
    ensures ValueOf(d) == m as real * RealPow2(k)
  {
  }

  lemma RealScale(a: real, b: real, p: real)
    requires a < b && p > 0.0
    ensures a * p < b * p
  {
  }

  lemma Larger(m: real, n: real, p: real, q: real)
    requires 0.0 <= m < LIMIT as real && HIDDEN as real <= n && 0.0 < 2.0 * p <= q
    ensures m * p < n * q
  {
    RealScale(m, LIMIT as real, p);
    assert LIMIT as real * p == HIDDEN as real * (2.0 * p);
    assert HIDDEN as real * (2.0 * p) <= HIDDEN as real * q <= n * q;
  }

  /** A double is below zero when its sign bit is set, unless it is zero or NaN. */
  lemma BelowZero(d: Double)
    requires WfDouble(d)
    ensures Less(NumOfDouble(d), Fin(0.0)) <==>
      d.neg && !(d.expo == 0 && d.frac == 0) && !(d.expo == 2047 && d.frac != 0)
  {
    if Finite(d) {
      var m := if d.expo == 0 then d.frac else HIDDEN + d.frac;
      var k := if d.expo == 0 then -1074 else d.expo - 1075;
      RealPow2Doubles(k);
      if m > 0 {
        RealScale(0.0, m as real, RealPow2(k));
      }
    }
  }
}
