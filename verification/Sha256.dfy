/** The game server's `sha256`, with its 32-bit sizes, its blocks parsed from a string and its
    registers shifted in place, against FIPS 180-4. */
module Sha256 {
  import opened Bytes
  import opened Words
  import opened Fips180

  // ----- fromDecimal -----

  /** The one base it is called with. */
  const BASE: nat := 16

  function DigitChar(d: nat): char
    requires d < 36
  {
    if d < 10 then (48 + d) as char else (55 + d) as char
  }

  lemma DigitChars(d: nat)
    requires d < 16
    ensures DigitChar(d) == "0123456789ABCDEF"[d]
  {
  }

  /** The digits of `n`, the highest first, without leading zeros; none for zero. */
  function Digits(n: nat): seq<nat> {
    if n == 0 then [] else Digits(n / BASE) + [n % BASE]
  }

  function Value(digits: seq<nat>): nat {
    if digits == [] then 0 else Value(digits[..|digits| - 1]) * BASE + digits[|digits| - 1]
  }

  /** The digits decode to the number, each is below the base, and the first is not zero. */
  lemma {:induction false} DigitsDecode(n: nat)
    ensures Value(Digits(n)) == n && Below(Digits(n))
    ensures n > 0 ==> Digits(n) != [] && Digits(n)[0] > 0
  {
    if n > 0 {
      DigitsDecode(n / BASE);
      DigitAppended(Digits(n / BASE), n % BASE);
    }
  }

  predicate Below(digits: seq<nat>) {
    forall i :: 0 <= i < |digits| ==> digits[i] < BASE
  }

  lemma DigitAppended(high: seq<nat>, d: nat)
    requires Below(high) && d < BASE
    ensures Below(high + [d]) && Value(high + [d]) == Value(high) * BASE + d
  {
    assert (high + [d])[..|high|] == high;
  }

  function Text(digits: seq<nat>): string
    requires Below(digits)
  {
    seq(|digits|, i requires 0 <= i < |digits| => DigitChar(digits[i]))
  }

  method FromDecimal(n: word) returns (result: string)
    ensures Below(Digits(n)) && result == Text(Digits(n))
  {
    var rest: nat := n;
    result := "";
    DigitsDecode(n);
    ghost var done: seq<nat> := [];
    ghost var goal := Digits(n);
    while rest > 0
      invariant goal == Digits(rest) + done && Below(done) && result == Text(done)
    {
      var d := rest % BASE;
      assert Digits(rest) + done == Digits(rest / BASE) + ([d] + done);
      done := [d] + done;
      result := [DigitChar(d)] + result;
      rest := rest / BASE;
    }
  }

  /** What `sha256` returns: the words in hexadecimal, one after the other. */
  function Hex(words: seq<word>): string {
    if words == [] then ""
    else
      var last := words[|words| - 1];
      DigitsDecode(last);
      Hex(words[..|words| - 1]) + Text(Digits(last))
  }

  lemma {:induction false} DigitsCount(n: nat, k: nat)
    ensures |Digits(n)| <= k <==> n < Pow2(4 * k)
  {
    if n > 0 && k > 0 {
      DigitsCount(n / 16, k - 1);
      Pow2Adds(4, 4 * (k - 1));
    }
  }

  lemma DigitsOfWord(n: word)
    ensures |Digits(n)| <= 8
    ensures |Digits(n)| == 8 <==> n >= 0x1000_0000
  {
    DigitsCount(n, 8);
    DigitsCount(n, 7);
    Pow2Of32();
    Pow2Adds(4, 28);
  }

  /** The text has eight digits for each word exactly when no word starts with a zero digit. */
  lemma {:induction false} HexLength(words: seq<word>)
    ensures |Hex(words)| <= 8 * |words|
    ensures |Hex(words)| == 8 * |words| <==> forall i :: 0 <= i < |words| ==> words[i] >= 0x1000_0000
  {
    if words != [] {
      HexLength(words[..|words| - 1]);
      DigitsOfWord(words[|words| - 1]);
    }
  }

  lemma {:induction false} TextInjective(a: seq<nat>, b: seq<nat>)
    requires Below(a) && Below(b)
    requires Text(a) == Text(b)
    ensures a == b
  {
    assert |a| == |Text(a)| == |b|;
    forall i | 0 <= i < |a|
      ensures a[i] == b[i]
    {
      assert Text(a)[i] == DigitChar(a[i]) && Text(b)[i] == DigitChar(b[i]);
    }
  }

  /** A text of full length tells the words. */
  lemma {:induction false} HexDecodes(a: seq<word>, b: seq<word>)
    requires |a| == |b| && Hex(a) == Hex(b) && |Hex(a)| == 8 * |a|
    ensures a == b
  {
    if a != [] {
      var x, y := a[|a| - 1], b[|b| - 1];
      HexLength(a);
      HexLength(b);
      DigitsOfWord(x);
      DigitsOfWord(y);
      var p, q := Hex(a[..|a| - 1]), Hex(b[..|b| - 1]);
      DigitsDecode(x);
      DigitsDecode(y);
      var t, u := Text(Digits(x)), Text(Digits(y));
      assert p == (p + t)[..|p|] && q == (q + u)[..|q|] && t == (p + t)[|p|..] && u == (q + u)[|q|..];
      TextInjective(Digits(x), Digits(y));
      HexLength(a[..|a| - 1]);
      HexDecodes(a[..|a| - 1], b[..|b| - 1]);
      assert a == a[..|a| - 1] + [x] && b == b[..|b| - 1] + [y];
    }
  }

  lemma HexOfMore(words: seq<word>, x: word)
    ensures Below(Digits(x)) && Hex(words + [x]) == Hex(words) + Text(Digits(x))
  {
    DigitsDecode(x);
    assert (words + [x])[..|words|] == words;
  }

  /** A shorter text need not tell them: the words d and 17 d, of digits d and d d, read the same
      in either order. */
  lemma HexAmbiguous(d: word)
    requires 0 < d < 16
    ensures Hex([d] + [17 * d]) == Hex([17 * d] + [d])
  {
    var c := DigitChar(d);
    TwoTexts(d);
    HexOfOne(d);
    HexOfOne(17 * d);
    HexOfMore([d], 17 * d);
    HexOfMore([17 * d], d);
    assert [c] + [c, c] == [c, c] + [c];
  }

  lemma TwoTexts(d: nat)
    requires 0 < d < 16
    ensures Below(Digits(d)) && Text(Digits(d)) == [DigitChar(d)]
    ensures Below(Digits(17 * d)) && Text(Digits(17 * d)) == [DigitChar(d), DigitChar(d)]
  {
    TwoDigits(d);
  }

  lemma TwoDigits(d: nat)
    requires 0 < d < 16
    ensures Digits(d) == [d] && Digits(17 * d) == [d, d]
  {
    assert 17 * d / 16 == d && 17 * d % 16 == d;
    assert Digits(d) == Digits(0) + [d];
  }

  lemma HexOfOne(x: word)
    ensures Below(Digits(x)) && Hex([x]) == Text(Digits(x))
  {
    HexOfMore([], x);
    assert [] + [x] == [x];
  }

  // ----- padding -----

  /** Sizes are 32-bit, and wrap. */
  function Bits(len: nat): word {
    8 * len % TWO_32
  }

  /** How many zero bytes the code adds: a difference of wrapped sizes. */
  function PadBytes(len: nat): nat {
    var curLen := (Bits(len) + 8) % TWO_32;
    var reqdLen := (Bits(len) / 512 + 1) * 512 % TWO_32;
    (reqdLen - curLen - 64) % TWO_32 / 8
  }

  function CodePad(msg: seq<byte>): seq<byte> {
    msg + [0x80] + Zeros(PadBytes(|msg|)) + (Zeros(4) + BigEndian(Bits(|msg|), 4))
  }

  /** The bytes of a number in memory, the lowest first as on the machines the server runs on,
      taken from the highest, after four zero bytes. */
  method MyNum(x: word) returns (ret: seq<byte>)
    ensures ret == Zeros(4) + BigEndian(x, 4)
  {
    ret := [];
    for i := 0 to 4
      invariant ret == Zeros(i)
    {
      ret := ret + [0];
    }
    var i := 4;
    while i >= 1
      invariant 0 <= i <= 4
      invariant ret == Zeros(4) + BigEndian(x, 4)[..4 - i]
    {
      ret := ret + [LE(x, 4)[i - 1]];
      i := i - 1;
    }
    assert BigEndian(x, 4)[..4] == BigEndian(x, 4);
  }

  /** For short enough last blocks the wrapped sizes come out right, however long the message;
      for the others they leave half a gigabyte of zeros. */
  lemma PadBytesRight(len: nat)
    requires len < TWO_32
    ensures len % 64 <= 55 ==> PadBytes(len) == ZeroBytes(len)
    ensures len % 64 > 55 ==> PadBytes(len) >= 64
  {
    var q := BitsOf(len);
    WrappedSizes(q, len % 64);
  }

  lemma BitsOf(len: nat) returns (q: nat)
    ensures Bits(len) == 512 * q + 8 * (len % 64) && Bits(len) / 512 == q
  {
    var wraps := 8 * len / TWO_32;
    assert 8 * len == TWO_32 * wraps + Bits(len);
    q := len / 64 - 0x80_0000 * wraps;
  }

  lemma WrappedSizes(q: nat, r: nat)
    requires 512 * q + 8 * r < TWO_32 && r < 64
    ensures ((q + 1) * 512 % TWO_32 - (512 * q + 8 * r + 8) % TWO_32 - 64) % TWO_32 ==
      if r <= 55 then 440 - 8 * r else TWO_32 + 440 - 8 * r
  {
  }

  lemma HighBytesZero(m: word)
    ensures BigEndian(m, 8) == Zeros(4) + BigEndian(m, 4)
  {
    Pow256Values();
    ShiftBound(m, 4, 4);
    ShiftZero(m, 4, 5);
    ShiftZero(m, 4, 6);
    ShiftZero(m, 4, 7);
    assert BigEndian(m, 8)[..4] == Zeros(4);
    assert BigEndian(m, 8)[4..] == BigEndian(m, 4);
  }

  lemma LengthBytes(n: nat, m: word)
    requires n < Pow256(8)
    ensures BigEndian(n, 8) == Zeros(4) + BigEndian(m, 4) <==> n == m
  {
    Pow256Values();
    assert m < Pow256(8);
    HighBytesZero(m);
    if BigEndian(n, 8) == BigEndian(m, 8) {
      BigEndianInjective(n, m, 8);
    }
  }

  lemma BigEndianInjective(n: nat, m: nat, width: nat)
    requires n < Pow256(width) && m < Pow256(width) && BigEndian(n, width) == BigEndian(m, width)
    ensures n == m
  {
    var buf := LE(n, width);
    forall i | 0 <= i < width
      ensures buf[i] == LE(m, width)[i]
    {
      assert BigEndian(n, width)[width - 1 - i] == BigEndian(m, width)[width - 1 - i];
    }
    AtWhole(buf);
    ReadLEOfLE(buf, 0, n, width);
    ReadLEOfLE(buf, 0, m, width);
  }

  lemma {:induction false} ShiftZero(n: nat, i: nat, j: nat)
    requires Shift(n, i) == 0 && i <= j
    ensures Shift(n, j) == 0
  {
    if i < j {
      ShiftZero(n, i, j - 1);
    }
  }

  /** The padding is the standard's exactly when the length in bits fits 32 bits and the last
      block has room for the length: all messages a 32-bit size can describe. */
  lemma PadRightIff(msg: seq<byte>)
    requires |msg| < TWO_32
    ensures CodePad(msg) == Pad(msg) <==> |msg| < 0x2000_0000 && |msg| % 64 <= 55
  {
    var len := |msg|;
    PadBytesRight(len);
    if len % 64 > 55 {
      TooLong(msg);
    } else {
      RoomForLength(msg);
      LengthFits(len);
    }
  }

  /** A message of 56 bytes gets half a gigabyte of padding. */
  lemma Pads56Wrongly(msg: seq<byte>)
    requires |msg| == 56
    ensures |CodePad(msg)| == 0x2000_0040 && |Pad(msg)| == 128
  {
  }

  lemma LengthFits(len: nat)
    requires len < TWO_32
    ensures 8 * len == Bits(len) <==> len < 0x2000_0000
  {
  }

  lemma RoomForLength(msg: seq<byte>)
    requires |msg| < TWO_32 && PadBytes(|msg|) == ZeroBytes(|msg|)
    ensures CodePad(msg) == Pad(msg) <==> 8 * |msg| == Bits(|msg|)
  {
    var len := |msg|;
    var front := msg + [0x80] + Zeros(ZeroBytes(len));
    SameTail(front, Zeros(4) + BigEndian(Bits(len), 4), BigEndian(8 * len, 8));
    Pow256Values();
    LengthBytes(8 * len, Bits(len));
  }

  lemma TooLong(msg: seq<byte>)
    requires |msg| < TWO_32 && PadBytes(|msg|) >= 64
    ensures |CodePad(msg)| > |Pad(msg)|
  {
  }

  lemma SameTail(front: seq<byte>, s: seq<byte>, t: seq<byte>)
    ensures front + s == front + t <==> s == t
  {
    assert (front + s)[|front|..] == s && (front + t)[|front|..] == t;
  }

  // ----- blocks -----

  /** `(cur << 8) | b`. */
  function Shifted(cur: word, b: byte): (r: word)
    ensures r == cur % 0x100_0000 * 0x100 + b
  {
    ShiftedAdds(cur, b);
    Or(ShL(cur, 8) % TWO_32, b)
  }

  lemma ShiftedAdds(cur: word, b: byte)
    ensures Or(ShL(cur, 8) % TWO_32, b) == cur % 0x100_0000 * 0x100 + b < TWO_32
  {
    var kept := cur % 0x100_0000;
    assert Pow2(8) == 256;
    assert ShL(cur, 8) % TWO_32 == ShL(kept, 8);
    OrCommutes(ShL(kept, 8), b);
    OrAdds(b, kept, 8);
  }

  lemma ShiftsIn(cur: word, b: byte)
    requires cur < 0x100_0000
    ensures Shifted(cur, b) == 0x100 * cur + b
  {
    ShiftedAdds(cur, b);
  }

  /** Fills `ret` with the words of a string. */
  method MakeBlock(ret: array<word>, msg: seq<byte>)
    requires |msg| <= 4 * ret.Length
    modifies ret
    ensures forall j :: 0 <= j < |msg| / 4 ==> ret[j] == WordAt(msg, 4 * j)
    ensures forall j :: |msg| / 4 <= j < ret.Length ==> ret[j] == old(ret[j])
  {
    var cur: word := 0;
    var ind := 0;
    for i := 0 to |msg|
      invariant ind == i / 4
      invariant cur == Partial(msg, i / 4, i % 4)
      invariant forall j :: 0 <= j < ind ==> ret[j] == WordAt(msg, 4 * j)
      invariant forall j :: ind <= j < ret.Length ==> ret[j] == old(ret[j])
    {
      Gathers(msg, ind, i % 4);
      cur := Shifted(cur, msg[i]);
      if i % 4 == 3 {
        ret[ind] := cur;
        ind := ind + 1;
        cur := 0;
      }
    }
  }

  /** The word being gathered after the first `r` bytes of word `q`. */
  function Partial(msg: seq<byte>, q: nat, r: nat): word
    requires r < 4 && 4 * q + r <= |msg|
  {
    if r == 0 then 0 else
      var b0: int := msg[4 * q];
      if r == 1 then b0 else
        var b1: int := msg[4 * q + 1];
        if r == 2 then 0x100 * b0 + b1 else
          var b2: int := msg[4 * q + 2];
          0x1_0000 * b0 + 0x100 * b1 + b2
  }

  lemma Gathers(msg: seq<byte>, q: nat, r: nat)
    requires r < 4 && 4 * q + r < |msg|
    ensures Shifted(Partial(msg, q, r), msg[4 * q + r]) == if r == 3 then WordAt(msg, 4 * q) else Partial(msg, q, r + 1)
  {
    ShiftsIn(Partial(msg, q, r), msg[4 * q + r]);
  }

  /** The padded message in blocks of sixteen words. */
  method Split(blks: seq<seq<word>>, msg: seq<byte>) returns (r: seq<seq<word>>)
    requires |msg| == 64 * |blks| && forall i :: 0 <= i < |blks| ==> |blks[i]| == 16
    ensures |r| == |blks| && forall i :: 0 <= i < |r| ==> r[i] == BlockAt(msg, 64 * i)
  {
    r := blks;
    var i := 0;
    while i < |msg|
      invariant 0 <= i <= |msg| && i % 64 == 0 && |r| == |blks|
      invariant forall j :: 0 <= j < i / 64 ==> r[j] == BlockAt(msg, 64 * j)
      decreases |msg| - i
    {
      var block := new word[16];
      var part := msg[i..i + 64];
      MakeBlock(block, part);
      assert forall j :: 0 <= j < 16 ==> WordAt(part, 4 * j) == WordAt(msg, i + 4 * j);
      assert block[..] == BlockAt(msg, 64 * (i / 64));
      r := r[i / 64 := block[..]];
      i := i + 64;
    }
  }

  // ----- maj -----

  function CodeMaj(x: word, y: word, z: word): nat {
    Xor(Xor(And(x, y), And(y, z)), And(z, x))
  }

  lemma CodeMajIsMaj(x: word, y: word, z: word)
    ensures CodeMaj(x, y, z) == Maj(x, y, z)
  {
    AndCommutes(z, x);
    XorAssociates(And(x, y), And(y, z), And(x, z));
    XorCommutes(And(y, z), And(x, z));
    XorAssociates(And(x, y), And(x, z), And(y, z));
  }

  /** The code's functions: the standard's, but for the order of terms in `maj`. */
  const CODE: Functions := Functions(Ch, CodeMaj, BigSigma0, BigSigma1, SmallSigma0, SmallSigma1)

  lemma CodeAgrees()
    ensures Agree(CODE, STANDARD)
  {
    forall x: word, y: word, z: word
      ensures CODE.maj(x, y, z) == STANDARD.maj(x, y, z)
    {
      CodeMajIsMaj(x, y, z);
    }
  }

  // ----- compression -----

  method Expand(fs: Functions, m: seq<word>) returns (w: array<word>)
    requires |m| == 16
    ensures fresh(w) && w.Length == 64 && forall t :: 0 <= t < 64 ==> w[t] == Schedule(fs, m, t)
  {
    w := new word[64];
    for t := 0 to 16
      invariant forall s :: 0 <= s < t ==> w[s] == Schedule(fs, m, s)
    {
      w[t] := m[t];
    }
    for t := 16 to 64
      invariant forall s :: 0 <= s < t ==> w[s] == Schedule(fs, m, s)
    {
      NextWord(fs, m, w[..t]);
      w[t] := (fs.smallSigma1(w[t - 2]) + w[t - 7] + fs.smallSigma0(w[t - 15]) + w[t - 16]) % TWO_32;
    }
  }

  lemma NextWord(fs: Functions, m: seq<word>, w: seq<word>)
    requires |m| == 16 && |w| >= 16 && forall s :: 0 <= s < |w| ==> w[s] == Schedule(fs, m, s)
    ensures var t := |w|;
      (fs.smallSigma1(w[t - 2]) + w[t - 7] + fs.smallSigma0(w[t - 15]) + w[t - 16]) % TWO_32 == Schedule(fs, m, t)
  {
  }

  function RegsOf(s: seq<word>): Regs
    requires |s| == 8
  {
    Regs(s[0], s[1], s[2], s[3], s[4], s[5], s[6], s[7])
  }

  /** The registers move up in place, from the last to the first. */
  method MoveUp(work: array<word>, t1: word, t2: word)
    requires work.Length == 8
    modifies work
    ensures var r := RegsOf(old(work[..]));
      RegsOf(work[..]) == Regs((t1 + t2) % TWO_32, r.a, r.b, r.c, (r.d + t1) % TWO_32, r.e, r.f, r.g)
  {
    work[7] := work[6];
    work[6] := work[5];
    work[5] := work[4];
    work[4] := (work[3] + t1) % TWO_32;
    work[3] := work[2];
    work[2] := work[1];
    work[1] := work[0];
    work[0] := (t1 + t2) % TWO_32;
  }

  lemma WrapOnce(x: nat, y: nat, d: nat)
    ensures (x % TWO_32 + y % TWO_32) % TWO_32 == (x + y) % TWO_32
    ensures (d + x % TWO_32) % TWO_32 == (d + x) % TWO_32
  {
  }

  method Step(fs: Functions, work: array<word>, k: nat, w: word)
    requires work.Length == 8
    modifies work
    ensures RegsOf(work[..]) == Round(fs, RegsOf(old(work[..])), k, w)
  {
    var t1 := work[7] + fs.bigSigma1(work[4]) + fs.ch(work[4], work[5], work[6]) + k + w;
    var t2 := fs.bigSigma0(work[0]) + fs.maj(work[0], work[1], work[2]);
    WrapOnce(t1, t2, work[3]);
    MoveUp(work, t1 % TWO_32, t2 % TWO_32);
  }

  method AddTo(h: array<word>, work: array<word>)
    requires h.Length == 8 && work.Length == 8 && h != work
    modifies h
    ensures RegsOf(h[..]) == Plus(RegsOf(work[..]), RegsOf(old(h[..])))
  {
    for i := 0 to 8
      invariant forall j :: 0 <= j < i ==> h[j] == (work[j] + old(h[j])) % TWO_32
      invariant forall j :: i <= j < 8 ==> h[j] == old(h[j])
    {
      h[i] := (work[i] + h[i]) % TWO_32;
    }
  }

  method RunRounds(fs: Functions, work: array<word>, k: seq<nat>, w: seq<word>, ghost m: seq<word>)
    requires work.Length == 8 && |k| == |w| && |m| == 16 && forall t :: 0 <= t < |w| ==> w[t] == Schedule(fs, m, t)
    modifies work
    ensures RegsOf(work[..]) == Rounds(fs, RegsOf(old(work[..])), k, m, |k|)
  {
    ghost var start := RegsOf(work[..]);
    for t := 0 to |k|
      invariant RegsOf(work[..]) == Rounds(fs, start, k, m, t)
    {
      Step(fs, work, k[t], w[t]);
    }
  }

  /** One block's worth: `h` becomes the next hash value. */
  method CompressBlock(fs: Functions, h: array<word>, k: seq<nat>, m: seq<word>)
    requires h.Length == 8 && |k| == 64 && |m| == 16
    modifies h
    ensures RegsOf(h[..]) == Compress(fs, RegsOf(old(h[..])), k, m)
  {
    var w := Expand(fs, m);
    var work := new word[8];
    for i := 0 to 8
      invariant work[..i] == h[..i]
      modifies work
    {
      work[i] := h[i];
    }
    assert work[..] == work[..8] && h[..] == h[..8];
    RunRounds(fs, work, k, w[..], m);
    AddTo(h, work);
  }

  method HashBlocks(fs: Functions, h: array<word>, k: seq<nat>, bytes: seq<byte>, m: seq<seq<word>>)
    requires h.Length == 8 && |k| == 64 && |bytes| == 64 * |m|
    requires forall i :: 0 <= i < |m| ==> m[i] == BlockAt(bytes, 64 * i)
    modifies h
    ensures RegsOf(h[..]) == HashValue(fs, RegsOf(old(h[..])), k, bytes, |m|)
  {
    ghost var h0 := RegsOf(h[..]);
    for i := 0 to |m|
      invariant RegsOf(h[..]) == HashValue(fs, h0, k, bytes, i)
    {
      CompressBlock(fs, h, k, m[i]);
    }
  }

  method HexText(h: array<word>) returns (text: string)
    ensures text == Hex(h[..])
  {
    text := "";
    for i := 0 to h.Length
      invariant text == Hex(h[..i])
    {
      var piece := FromDecimal(h[i]);
      assert h[..i + 1][..i] == h[..i];
      text := text + piece;
    }
    assert h[..h.Length] == h[..];
  }

  method PadMessage(msg: seq<byte>) returns (msgArr: seq<byte>)
    requires |msg| < TWO_32
    ensures msgArr == CodePad(msg)
    ensures |msg| < 0x2000_0000 - 64 && |msg| % 64 <= 55 ==>
      msgArr == Pad(msg) && |msgArr| == 64 * (|msgArr| * 8 % TWO_32 / 512)
  {
    PadRightIff(msg);
    if |msg| < 0x2000_0000 - 64 && |msg| % 64 <= 55 {
      BlockCount(msg);
    }
    msgArr := msg + [0x80];
    var curLen := (Bits(|msg|) + 8) % TWO_32;
    var reqdLen := (Bits(|msg|) / 512 + 1) * 512 % TWO_32;
    var padLen := (reqdLen - curLen - 64) % TWO_32;
    msgArr := msgArr + Zeros(padLen / 8);
    var lenStr := MyNum(Bits(|msg|));
    msgArr := msgArr + lenStr;
  }

  method Initial() returns (h: array<word>)
    ensures fresh(h) && h.Length == 8 && RegsOf(h[..]) == H0
  {
    h := new word[] [0x6a09e667, 0xbb67ae85, 0x3c6ef372, 0xa54ff53a, 0x510e527f, 0x9b05688c, 0x1f83d9ab, 0x5be0cd19];
  }

  /** The blocks of a padded message. */
  method Parse(msgArr: seq<byte>) returns (m: seq<seq<word>>)
    requires |msgArr| == 64 * (|msgArr| * 8 % TWO_32 / 512)
    ensures 64 * |m| == |msgArr| && forall i :: 0 <= i < |m| ==> m[i] == BlockAt(msgArr, 64 * i)
  {
    var numBlk := |msgArr| * 8 % TWO_32 / 512;
    var empty: seq<word> := [0, 0, 0, 0, 0, 0, 0, 0, 0, 0, 0, 0, 0, 0, 0, 0];
    m := seq(numBlk, _ => empty);
    m := Split(m, msgArr);
  }

  method HashPadded(bytes: seq<byte>, m: seq<seq<word>>) returns (h: array<word>)
    requires |bytes| == 64 * |m|
    requires forall i :: 0 <= i < |m| ==> m[i] == BlockAt(bytes, 64 * i)
    ensures h.Length == 8 && RegsOf(h[..]) == HashValue(STANDARD, H0, K, bytes, |m|)
  {
    h := Initial();
    KLength();
    HashBlocks(CODE, h, K, bytes, m);
    CodeAgrees();
    AgreeHash(CODE, STANDARD, H0, K, bytes, |m|);
  }

  /** Hashes a message whose padding the code gets right, and whose padded size in bits fits 32
      bits: the result is the standard's, in hexadecimal without each word's leading zeros. */
  method Sha256(msg: seq<byte>) returns (text: string, h: array<word>)
    requires |msg| < 0x2000_0000 - 64 && |msg| % 64 <= 55
    ensures h.Length == 8 && RegsOf(h[..]) == Hash(msg)
    ensures text == Hex(h[..])
  {
    var msgArr := PadMessage(msg);
    var m := Parse(msgArr);
    h := HashPadded(msgArr, m);
    assert |m| == |msgArr| / 64;
    text := HexText(h);
  }

  lemma BlockCount(msg: seq<byte>)
    requires |msg| < 0x2000_0000 - 64 && |msg| % 64 <= 55
    ensures |Pad(msg)| == 64 * (|Pad(msg)| * 8 % TWO_32 / 512)
  {
    Blocks(|msg|, ZeroBytes(|msg|));
  }

  lemma Blocks(len: nat, zeros: nat)
    requires len < 0x2000_0000 - 64 && len % 64 <= 55 && zeros < 64 && (len + 9 + zeros) % 64 == 0
    ensures var size := len + 9 + zeros; size == 64 * (size * 8 % TWO_32 / 512)
  {
    assert len + 9 + zeros < 0x2000_0000;
  }
}
