/** SHA-256 as FIPS 180-4 defines it. */
module Fips180 {
  import opened Bytes
  import opened Words

  /** Section 4.2.2. */
  const K: seq<nat> :=
    [0x428a2f98, 0x71374491, 0xb5c0fbcf, 0xe9b5dba5, 0x3956c25b, 0x59f111f1, 0x923f82a4, 0xab1c5ed5] +
    [0xd807aa98, 0x12835b01, 0x243185be, 0x550c7dc3, 0x72be5d74, 0x80deb1fe, 0x9bdc06a7, 0xc19bf174] +
    [0xe49b69c1, 0xefbe4786, 0x0fc19dc6, 0x240ca1cc, 0x2de92c6f, 0x4a7484aa, 0x5cb0a9dc, 0x76f988da] +
    [0x983e5152, 0xa831c66d, 0xb00327c8, 0xbf597fc7, 0xc6e00bf3, 0xd5a79147, 0x06ca6351, 0x14292967] +
    [0x27b70a85, 0x2e1b2138, 0x4d2c6dfc, 0x53380d13, 0x650a7354, 0x766a0abb, 0x81c2c92e, 0x92722c85] +
    [0xa2bfe8a1, 0xa81a664b, 0xc24b8b70, 0xc76c51a3, 0xd192e819, 0xd6990624, 0xf40e3585, 0x106aa070] +
    [0x19a4c116, 0x1e376c08, 0x2748774c, 0x34b0bcb5, 0x391c0cb3, 0x4ed8aa4a, 0x5b9cca4f, 0x682e6ff3] +
    [0x748f82ee, 0x78a5636f, 0x84c87814, 0x8cc70208, 0x90befffa, 0xa4506ceb, 0xbef9a3f7, 0xc67178f2]

  lemma KLength()
    ensures |K| == 64
  {
  }

  // ----- section 4.1.2 -----

  function Ch(x: word, y: word, z: word): nat {
    Xor(And(x, y), And(Not(x), z))
  }

  function Maj(x: word, y: word, z: word): nat {
    Xor(Xor(And(x, y), And(x, z)), And(y, z))
  }

  function BigSigma0(x: word): nat {
    Xor(Xor(RotR(x, 2), RotR(x, 13)), RotR(x, 22))
  }

  function BigSigma1(x: word): nat {
    Xor(Xor(RotR(x, 6), RotR(x, 11)), RotR(x, 25))
  }

  function SmallSigma0(x: word): nat {
    Xor(Xor(RotR(x, 7), RotR(x, 18)), ShR(x, 3))
  }

  function SmallSigma1(x: word): nat {
    Xor(Xor(RotR(x, 17), RotR(x, 19)), ShR(x, 10))
  }

  /** The six functions as values: what follows does not depend on what they are. */
  datatype Functions = Functions(
    ch: (word, word, word) -> nat,
    maj: (word, word, word) -> nat,
    bigSigma0: word -> nat,
    bigSigma1: word -> nat,
    smallSigma0: word -> nat,
    smallSigma1: word -> nat)

  const STANDARD: Functions := Functions(Ch, Maj, BigSigma0, BigSigma1, SmallSigma0, SmallSigma1)

  // ----- section 5.1.1 -----

  /** `len` zero bytes. */
  function Zeros(len: nat): (z: seq<byte>)
    ensures |z| == len && forall i :: 0 <= i < len ==> z[i] == 0
  {
    seq(len, i => 0)
  }

  function BigEndian(n: nat, width: nat): seq<byte> {
    seq(width, i requires 0 <= i < width => Shift(n, width - 1 - i) % 256)
  }

  /** The fewest zero bytes that, with the 1 bit's byte and eight for the length, fill blocks. */
  function ZeroBytes(len: nat): (k: nat)
    ensures (len + 1 + k + 8) % 64 == 0 && k < 64
  {
    (119 - len % 64) % 64
  }

  function Pad(msg: seq<byte>): seq<byte> {
    msg + [0x80] + Zeros(ZeroBytes(|msg|)) + BigEndian(8 * |msg|, 8)
  }

  // ----- sections 5.2.1 and 6.2.2 -----

  /** The word at `pos`, its first byte the highest. */
  function WordAt(bytes: seq<byte>, pos: nat): word
    requires pos + 4 <= |bytes|
  {
    var b0: int, b1: int, b2: int, b3: int := bytes[pos], bytes[pos + 1], bytes[pos + 2], bytes[pos + 3];
    0x100_0000 * b0 + 0x1_0000 * b1 + 0x100 * b2 + b3
  }

  lemma WordBytes(bytes: seq<byte>, pos: nat)
    requires pos + 4 <= |bytes|
    ensures BigEndian(WordAt(bytes, pos), 4) == bytes[pos..pos + 4]
  {
    var b0: int, b1: int, b2: int, b3: int := bytes[pos], bytes[pos + 1], bytes[pos + 2], bytes[pos + 3];
    var w1 := 0x100 * b0 + b1;
    var w2 := 0x100 * w1 + b2;
    var w := 0x100 * w2 + b3;
    Appended(b0, b1);
    Appended(w1, b2);
    Appended(w2, b3);
    assert w == WordAt(bytes, pos);
    Dropped(w, 0, w2, bytes[pos + 3]);
    Dropped(w, 1, w1, bytes[pos + 2]);
    Dropped(w, 2, b0, bytes[pos + 1]);
    assert BigEndian(w, 4) == [b0 % 256, w1 % 256, w2 % 256, w % 256];
  }

  lemma Appended(high: nat, low: byte)
    ensures (0x100 * high + low) / 0x100 == high && (0x100 * high + low) % 0x100 == low
  {
  }

  lemma Dropped(n: nat, i: nat, high: nat, low: byte)
    requires Shift(n, i) == 0x100 * high + low
    ensures Shift(n, i + 1) == high
  {
    Appended(high, low);
  }

  function BlockAt(bytes: seq<byte>, pos: nat): (m: seq<word>)
    requires pos + 64 <= |bytes|
    ensures |m| == 16 && forall j :: 0 <= j < 16 ==> m[j] == WordAt(bytes, pos + 4 * j)
  {
    seq(16, j requires 0 <= j < 16 => WordAt(bytes, pos + 4 * j))
  }

  /** The message schedule. */
  function Schedule(fs: Functions, m: seq<word>, t: nat): word
    requires |m| == 16
  {
    if t < 16 then m[t]
    else
      (fs.smallSigma1(Schedule(fs, m, t - 2)) + Schedule(fs, m, t - 7) +
       fs.smallSigma0(Schedule(fs, m, t - 15)) + Schedule(fs, m, t - 16)) % TWO_32
  }

  datatype Regs = Regs(a: word, b: word, c: word, d: word, e: word, f: word, g: word, h: word)

  function Round(fs: Functions, r: Regs, k: nat, w: word): Regs {
    var t1 := r.h + fs.bigSigma1(r.e) + fs.ch(r.e, r.f, r.g) + k + w;
    var t2 := fs.bigSigma0(r.a) + fs.maj(r.a, r.b, r.c);
    Regs((t1 + t2) % TWO_32, r.a, r.b, r.c, (r.d + t1) % TWO_32, r.e, r.f, r.g)
  }

  /** The first `t` rounds, with the constants `k`. */
  function Rounds(fs: Functions, r: Regs, k: seq<nat>, m: seq<word>, t: nat): Regs
    requires |m| == 16 && t <= |k|
  {
    if t == 0 then r else Round(fs, Rounds(fs, r, k, m, t - 1), k[t - 1], Schedule(fs, m, t - 1))
  }

  function Plus(x: Regs, y: Regs): Regs {
    Regs((x.a + y.a) % TWO_32, (x.b + y.b) % TWO_32, (x.c + y.c) % TWO_32, (x.d + y.d) % TWO_32,
         (x.e + y.e) % TWO_32, (x.f + y.f) % TWO_32, (x.g + y.g) % TWO_32, (x.h + y.h) % TWO_32)
  }

  function Compress(fs: Functions, h: Regs, k: seq<nat>, m: seq<word>): Regs
    requires |m| == 16
  {
    Plus(Rounds(fs, h, k, m, |k|), h)
  }

  /** The hash value after the first `n` blocks. */
  function HashValue(fs: Functions, h0: Regs, k: seq<nat>, bytes: seq<byte>, n: nat): Regs
    requires 64 * n <= |bytes|
  {
    if n == 0 then h0 else Compress(fs, HashValue(fs, h0, k, bytes, n - 1), k, BlockAt(bytes, 64 * (n - 1)))
  }

  /** Section 5.3.3. */
  const H0: Regs := Regs(0x6a09e667, 0xbb67ae85, 0x3c6ef372, 0xa54ff53a, 0x510e527f, 0x9b05688c, 0x1f83d9ab, 0x5be0cd19)

  function Hash(msg: seq<byte>): Regs {
    HashValue(STANDARD, H0, K, Pad(msg), |Pad(msg)| / 64)
  }

  // ----- functions that agree -----

  /** The same functions, but for another way to work out the majority. */
  ghost predicate Agree(fs: Functions, gs: Functions) {
    fs.(maj := gs.maj) == gs && forall x, y, z :: fs.maj(x, y, z) == gs.maj(x, y, z)
  }

  lemma {:induction false} AgreeSchedule(fs: Functions, gs: Functions, m: seq<word>, t: nat)
    requires Agree(fs, gs) && |m| == 16
    ensures Schedule(fs, m, t) == Schedule(gs, m, t)
  {
    if t >= 16 {
      AgreeSchedule(fs, gs, m, t - 2);
      AgreeSchedule(fs, gs, m, t - 7);
      AgreeSchedule(fs, gs, m, t - 15);
      AgreeSchedule(fs, gs, m, t - 16);
    }
  }

  lemma AgreeRound(fs: Functions, gs: Functions, r: Regs, k: nat, w: word)
    requires Agree(fs, gs)
    ensures Round(fs, r, k, w) == Round(gs, r, k, w)
  {
  }

  lemma {:induction false} AgreeRounds(fs: Functions, gs: Functions, r: Regs, k: seq<nat>, m: seq<word>, t: nat)
    requires Agree(fs, gs) && |m| == 16 && t <= |k|
    ensures Rounds(fs, r, k, m, t) == Rounds(gs, r, k, m, t)
  {
    if t > 0 {
      AgreeRounds(fs, gs, r, k, m, t - 1);
      AgreeSchedule(fs, gs, m, t - 1);
      AgreeRound(fs, gs, Rounds(fs, r, k, m, t - 1), k[t - 1], Schedule(fs, m, t - 1));
    }
  }

  lemma AgreeCompress(fs: Functions, gs: Functions, h: Regs, k: seq<nat>, m: seq<word>)
    requires Agree(fs, gs) && |m| == 16
    ensures Compress(fs, h, k, m) == Compress(gs, h, k, m)
  {
    AgreeRounds(fs, gs, h, k, m, |k|);
  }

  lemma {:induction false} AgreeHash(fs: Functions, gs: Functions, h0: Regs, k: seq<nat>, bytes: seq<byte>, n: nat)
    requires Agree(fs, gs) && 64 * n <= |bytes|
    ensures HashValue(fs, h0, k, bytes, n) == HashValue(gs, h0, k, bytes, n)
  {
    if n > 0 {
      AgreeHash(fs, gs, h0, k, bytes, n - 1);
      AgreeCompress(fs, gs, HashValue(fs, h0, k, bytes, n - 1), k, BlockAt(bytes, 64 * (n - 1)));
    }
  }
}
