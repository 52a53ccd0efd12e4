/** Outcomes, bytes, little-endian integers and NUL-terminated strings: the vocabulary the
    other modules share. */
module Bytes {
  import Words

  /** What a call gives back: a value, or the number of the assertion that threw. */
  datatype Result<+T> = Ok(value: T) | Threw(code: nat)
  {
    predicate IsFailure()
    {
      Threw?
    }

    function PropagateFailure<U>(): Result<U>
      requires Threw?
    {
      Threw(code)
    }

    function Extract(): T
      requires Ok?
    {
      value
    }
  }

  datatype Option<+T> = None | Some(value: T)

  /** The number used for a plain `assert`, which carries none of its own. */
  const ASSERT: nat := 0

  type byte = x: int | 0 <= x < 256

  function Pow256(width: nat): (p: int)
    ensures p >= 1
  {
    if width == 0 then 1 else 256 * Pow256(width - 1)
  }

  /** `n` with its `i` lowest bytes dropped. */
  function Shift(n: nat, i: nat): nat
  {
    if i == 0 then n else Shift(n, i - 1) / 256
  }

  /** Byte `i` is digit `i` to the base 256. */
  lemma {:induction false} ShiftIsQuotient(n: nat, i: nat)
    ensures Shift(n, i) == n / Pow256(i)
  {
    if i > 0 {
      ShiftIsQuotient(n, i - 1);
      Words.DivBy256(n, Pow256(i - 1));
    }
  }

  /** The little-endian bytes of `n` in a field of `width` bytes; higher bytes are dropped. */
  function LE(n: nat, width: nat): (s: seq<byte>)
  {
    seq(width, i requires 0 <= i < width => Shift(n, i) % 256)
  }

  /** The little-endian number in `buf[pos..end]`. */
  function ReadLE(buf: seq<byte>, pos: nat, end: nat): nat
    requires pos <= end <= |buf|
    decreases end - pos
  {
    if pos == end then 0 else buf[pos] + 256 * ReadLE(buf, pos + 1, end)
  }

  /** `s` stands in `buf` at `pos`. */
  ghost predicate At(buf: seq<byte>, pos: nat, s: seq<byte>)
  {
    pos + |s| <= |buf| && forall i :: 0 <= i < |s| ==> s[i] == buf[pos + i]
  }

  lemma AtWhole(s: seq<byte>)
    ensures At(s, 0, s)
  {
  }

  lemma AtSplit(buf: seq<byte>, pos: nat, a: seq<byte>, b: seq<byte>)
    ensures At(buf, pos, a + b) <==> At(buf, pos, a) && At(buf, pos + |a|, b)
  {
    var s := a + b;
    if At(buf, pos, s) {
      forall i | 0 <= i < |a| ensures a[i] == buf[pos + i] {
        assert s[i] == a[i];
      }
      forall i | 0 <= i < |b| ensures b[i] == buf[pos + |a| + i] {
        assert s[|a| + i] == b[i];
      }
    }
  }

  lemma AtSlice(buf: seq<byte>, pos: nat, s: seq<byte>)
    ensures At(buf, pos, s) <==> pos + |s| <= |buf| && buf[pos..pos + |s|] == s
  {
    if pos + |s| <= |buf| && buf[pos..pos + |s|] == s {
      forall i | 0 <= i < |s| ensures s[i] == buf[pos + i] {
        assert buf[pos..pos + |s|][i] == buf[pos + i];
      }
    }
  }

  lemma AtByte(buf: seq<byte>, pos: nat, b: byte)
    ensures At(buf, pos, [b]) <==> pos < |buf| && buf[pos] == b
  {
    assert [b][0] == b;
  }

  lemma {:induction false} ShiftBound(n: nat, i: nat, width: nat)
    requires i <= width && n < Pow256(width)
    ensures Shift(n, i) < Pow256(width - i)
  {
    if i > 0 {
      ShiftBound(n, i - 1, width);
    }
  }

  lemma {:induction false} ReadLEDigits(buf: seq<byte>, pos: nat, n: nat, width: nat, i: nat)
    requires i <= width && n < Pow256(width) && pos + width <= |buf|
    requires forall j :: i <= j < width ==> buf[pos + j] == Shift(n, j) % 256
    ensures ReadLE(buf, pos + i, pos + width) == Shift(n, i)
    decreases width - i
  {
    if i < width {
      ReadLEDigits(buf, pos, n, width, i + 1);
      assert buf[pos + i] == Shift(n, i) % 256;
    } else {
      ShiftBound(n, width, width);
    }
  }

  lemma ReadLEOfLE(buf: seq<byte>, pos: nat, n: nat, width: nat)
    requires n < Pow256(width) && At(buf, pos, LE(n, width))
    ensures ReadLE(buf, pos, pos + width) == n
  {
    forall j | 0 <= j < width ensures buf[pos + j] == Shift(n, j) % 256 {
      assert LE(n, width)[j] == Shift(n, j) % 256;
    }
    ReadLEDigits(buf, pos, n, width, 0);
  }

  /** The bytes read are those of the number they are read as. */
  lemma {:induction false} ShiftOfReadLE(buf: seq<byte>, pos: nat, end: nat, i: nat)
    requires pos + i <= end <= |buf|
    ensures Shift(ReadLE(buf, pos, end), i) == ReadLE(buf, pos + i, end)
  {
    if i > 0 {
      ShiftOfReadLE(buf, pos, end, i - 1);
    }
  }

  lemma {:induction false} ReadLEBound(buf: seq<byte>, pos: nat, end: nat)
    requires pos <= end <= |buf|
    ensures ReadLE(buf, pos, end) < Pow256(end - pos)
    decreases end - pos
  {
    if pos < end {
      ReadLEBound(buf, pos + 1, end);
    }
  }

  /** So a number read stands there as its bytes. */
  lemma ReadStands(buf: seq<byte>, pos: nat, width: nat)
    requires pos + width <= |buf|
    ensures At(buf, pos, LE(ReadLE(buf, pos, pos + width), width)) && ReadLE(buf, pos, pos + width) < Pow256(width)
  {
    var n := ReadLE(buf, pos, pos + width);
    ReadLEBound(buf, pos, pos + width);
    forall i | 0 <= i < width
      ensures LE(n, width)[i] == buf[pos + i]
    {
      ShiftOfReadLE(buf, pos, pos + width, i);
    }
  }

  lemma Pow256Values()
    ensures Pow256(4) == 0x1_0000_0000
    ensures Pow256(8) == 0x1_0000_0000_0000_0000
  {
    assert Pow256(4) == 256 * (256 * (256 * (256 * Pow256(0))));
    assert Pow256(8) == 256 * (256 * (256 * (256 * Pow256(4))));
  }

  /** Two's complement: the unsigned pattern of an integer truncated to `width` bytes, and
      the signed integer a pattern stands for. */
  function Unsigned(n: int, width: nat): nat
  {
    n % Pow256(width)
  }

  function Signed(n: nat, width: nat): int
  {
    if 2 * n >= Pow256(width) then n - Pow256(width) else n
  }

  predicate InRange(n: int, width: nat)
  {
    -Pow256(width) <= 2 * n < Pow256(width)
  }

  lemma SignedOfUnsigned(n: int, width: nat)
    requires InRange(n, width)
    ensures Unsigned(n, width) < Pow256(width)
    ensures Signed(Unsigned(n, width), width) == n
  {
    if n < 0 {
      ModOfNegative(n, Pow256(width));
    } else {
      ModOfSmall(n, Pow256(width));
    }
  }

  lemma ModOfSmall(n: int, m: int)
    requires 0 <= n < m
    ensures n % m == n
  {
  }

  lemma ModOfNegative(n: int, m: int)
    requires -m <= n < 0
    ensures n % m == n + m
  {
    assert n / m == -1;
  }

  predicate NulFree(s: seq<byte>)
  {
    forall i :: 0 <= i < |s| ==> s[i] != 0
  }

  /** Where the C string at `pos` ends: the first NUL from there on, or the end of `buf`. */
  function StrEnd(buf: seq<byte>, pos: nat): (end: nat)
    requires pos <= |buf|
    ensures pos <= end <= |buf|
    ensures end < |buf| ==> buf[end] == 0
    decreases |buf| - pos
  {
    if pos == |buf| || buf[pos] == 0 then pos else StrEnd(buf, pos + 1)
  }

  lemma {:induction false} StrEndOf(buf: seq<byte>, pos: nat, end: nat)
    requires pos <= end < |buf| && buf[end] == 0
    requires forall i :: pos <= i < end ==> buf[i] != 0
    ensures StrEnd(buf, pos) == end
    decreases end - pos
  {
    if pos < end {
      StrEndOf(buf, pos + 1, end);
    }
  }

  lemma {:induction false} StrEndNulFree(buf: seq<byte>, pos: nat)
    requires pos <= |buf|
    ensures NulFree(buf[pos..StrEnd(buf, pos)])
    decreases |buf| - pos
  {
    if pos < |buf| && buf[pos] != 0 {
      StrEndNulFree(buf, pos + 1);
      var t := buf[pos + 1..StrEnd(buf, pos + 1)];
      assert buf[pos..StrEnd(buf, pos)] == [buf[pos]] + t;
    }
  }

  lemma StrEndAt(buf: seq<byte>, pos: nat, text: seq<byte>)
    requires NulFree(text) && At(buf, pos, text + [0])
    ensures StrEnd(buf, pos) == pos + |text| && buf[pos..pos + |text|] == text
  {
    AtSplit(buf, pos, text, [0]);
    AtByte(buf, pos + |text|, 0);
    AtSlice(buf, pos, text);
    forall i | pos <= i < pos + |text| ensures buf[i] != 0 {
      assert text[i - pos] == buf[pos + (i - pos)];
    }
    StrEndOf(buf, pos, pos + |text|);
  }
}
