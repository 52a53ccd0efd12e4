/** Which order `woCompare` is: the sign of every comparison, told from the values compared. */
module BsonMeaning {
  import opened Bytes
  import opened BsonFormat
  import opened Numbers
  import opened BsonCompare
  import opened BsonOrder
  import Sequences
  import Words

  // ----- what is before what -----

  /** The canonical types from the least to the greatest. */
  function TypeRank(v: Value): nat
  {
    match v
    case MinKey => 0
    case EOO => 1
    case Undefined => 1
    case Null => 2
    case NumberInt(_) => 3
    case NumberLong(_) => 3
    case NumberDouble(_) => 3
    case String(_) => 4
    case Symbol(_) => 4
    case Object(_) => 5
    case Array(_) => 6
    case BinData(_, _) => 7
    case OID(_) => 8
    case Bool(_) => 9
    case Date(_) => 10
    case Timestamp(_) => 10
    case RegEx(_, _) => 11
    case DBRef(_, _) => 12
    case Code(_) => 13
    case CodeWScope(_, _) => 14
    case MaxKey => 15
  }

  lemma TypeRankDecides(x: Value, y: Value)
    ensures CanonicalType(x) < CanonicalType(y) <==> TypeRank(x) < TypeRank(y)
    ensures CanonicalType(x) == CanonicalType(y) <==> TypeRank(x) == TypeRank(y)
  {
  }

  /** The double a number is cast to. */
  function AsDouble(v: Value): Num
    requires TypeRank(v) == 3
  {
    match v
    case NumberInt(n) => Fin(n as real)
    case NumberLong(n) => Fin(RoundLong(n) as real)
    case NumberDouble(d) => NumOfDouble(d)
  }

  /** NaN is the least, then minus infinity, and infinity the greatest. */
  predicate NumBefore(x: Num, y: Num)
  {
    x != y && !y.NaN? && (x.NaN? || x.NegInf? || y.PosInf? || (x.Fin? && y.Fin? && x.r < y.r))
  }

  predicate NumberBefore(x: Value, y: Value)
    requires TypeRank(x) == TypeRank(y) == 3
  {
    if (x.NumberInt? && y.NumberInt?) || (x.NumberLong? && y.NumberLong?) then x.n < y.n
    else NumBefore(AsDouble(x), AsDouble(y))
  }

  predicate NumberSame(x: Value, y: Value)
    requires TypeRank(x) == TypeRank(y) == 3
  {
    if (x.NumberInt? && y.NumberInt?) || (x.NumberLong? && y.NumberLong?) then x.n == y.n
    else AsDouble(x) == AsDouble(y)
  }

  /** A time as it is stored, without regard to sign. */
  function Ticks(v: Value): nat
    requires TypeRank(v) == 10
  {
    if v.Date? then v.millis else v.ticks
  }

  /** A date's time with the stored sign. */
  function Time(millis: nat): int
  {
    if millis < 0x8000_0000_0000_0000 then millis else millis - 0x1_0000_0000_0000_0000
  }

  predicate TimeBefore(x: Value, y: Value)
    requires TypeRank(x) == TypeRank(y) == 10
  {
    if x.Date? && y.Date? then Time(x.millis) < Time(y.millis) else Ticks(x) < Ticks(y)
  }

  /** The C string `s` begins with. */
  function CString(s: seq<byte>): (c: seq<byte>)
    ensures |c| <= |s|
  {
    if s == [] || s[0] == 0 then [] else [s[0]] + CString(s[1..])
  }

  /** The C string of a code with scope, and the one after it: of the scope's bytes if the code has
      no NUL. */
  function CodeStrings(v: Value): (seq<byte>, seq<byte>)
    requires v.CodeWScope?
  {
    var c := CString(v.code);
    (c, CString((v.code + [0] + EncDoc(v.scope))[|c| + 1..]))
  }

  ghost predicate PairBefore(a: seq<byte>, b: seq<byte>, c: seq<byte>, d: seq<byte>)
  {
    Sequences.Precedes(a, c) || (a == c && Sequences.Precedes(b, d))
  }

  /** What value of a canonical type comes before another. */
  ghost predicate Before(x: Value, y: Value)
    requires TypeRank(x) == TypeRank(y)
    decreases x, 0
  {
    match x
    case NumberInt(_) => NumberBefore(x, y)
    case NumberLong(_) => NumberBefore(x, y)
    case NumberDouble(_) => NumberBefore(x, y)
    case String(_) => Sequences.Precedes(x.text, y.text)
    case Symbol(_) => Sequences.Precedes(x.text, y.text)
    case Code(_) => Sequences.Precedes(x.text, y.text)
    case Object(d) => DocBefore(d, y.doc)
    case Array(d) => DocBefore(d, y.doc)
    case BinData(k, d) =>
      |d| < |y.data| || (|d| == |y.data| && (k < y.subtype || (k == y.subtype && Sequences.Precedes(d, y.data))))
    case OID(id) => Sequences.Precedes(id, y.id)
    case Bool(flag) => !flag && y.flag
    case Date(_) => TimeBefore(x, y)
    case Timestamp(_) => TimeBefore(x, y)
    case RegEx(p, o) => PairBefore(p, o, y.pattern, y.options)
    case DBRef(ns, id) => |ns| < |y.ns| || (|ns| == |y.ns| && PairBefore(ns, id, y.ns, y.id))
    case CodeWScope(_, _) =>
      PairBefore(CodeStrings(x).0, CodeStrings(x).1, CodeStrings(y).0, CodeStrings(y).1)
    case _ => false
  }

  /** What values are the same to the comparison. */
  predicate Alike(x: Value, y: Value)
    requires TypeRank(x) == TypeRank(y)
    decreases x, 0
  {
    match x
    case NumberInt(_) => NumberSame(x, y)
    case NumberLong(_) => NumberSame(x, y)
    case NumberDouble(_) => NumberSame(x, y)
    case String(_) => x.text == y.text
    case Symbol(_) => x.text == y.text
    case Code(_) => x.text == y.text
    case Object(d) => DocAlike(d, y.doc)
    case Array(d) => DocAlike(d, y.doc)
    case Date(_) => Ticks(x) == Ticks(y)
    case Timestamp(_) => Ticks(x) == Ticks(y)
    case CodeWScope(_, _) => CodeStrings(x) == CodeStrings(y)
    case EOO => true
    case Undefined => true
    case _ => x == y
  }

  /** Of elements: by type, then name if it is considered, then value. */
  ghost predicate ElementBefore(x: Element, y: Element, c: bool)
    decreases x, 1
  {
    TypeRank(x.value) < TypeRank(y.value) ||
    (TypeRank(x.value) == TypeRank(y.value) &&
     ((c && Sequences.Precedes(x.name, y.name)) || ((c ==> x.name == y.name) && Before(x.value, y.value))))
  }

  predicate ElementAlike(x: Element, y: Element, c: bool)
    decreases x, 1
  {
    TypeRank(x.value) == TypeRank(y.value) && (c ==> x.name == y.name) && Alike(x.value, y.value)
  }

  /** Of embedded documents: by the first fields that differ, or the one that has no more fields. */
  ghost predicate DocBefore(a: Doc, b: Doc)
    decreases a, 2
  {
    b.Cons? &&
    (a.Nil? || ElementBefore(a.head, b.head, true) || (ElementAlike(a.head, b.head, true) && DocBefore(a.tail, b.tail)))
  }

  predicate DocAlike(a: Doc, b: Doc)
    decreases a, 2
  {
    if a.Nil? || b.Nil? then a == b else ElementAlike(a.head, b.head, true) && DocAlike(a.tail, b.tail)
  }

  // ----- the signs -----

  /** Negative just for `before`, zero just for `same`. */
  ghost predicate SignIs(x: int, before: bool, same: bool)
  {
    (x < 0 <==> before) && (x == 0 <==> same)
  }

  lemma {:induction false} LexSign(a: seq<byte>, b: seq<byte>, i: nat)
    requires i <= |a| && i <= |b| && a[..i] == b[..i]
    ensures SignIs(Lex(a, b, i), Sequences.Precedes(a, b), a == b)
    decreases |a| - i
  {
    if i < |a| && i < |b| && a[i] == b[i] {
      assert a[..i + 1] == a[..i] + [a[i]] && b[..i + 1] == b[..i] + [b[i]];
      LexSign(a, b, i + 1);
    } else {
      Sequences.OneOfThree(a, b);
      if i < |b| && (i == |a| || a[i] < b[i]) {
        assert Sequences.DecidesAt(a, b, i);
      } else if i < |a| {
        assert Sequences.DecidesAt(b, a, i);
      } else {
        assert a == a[..i] == b[..i] == b;
      }
    }
  }

  /** The NUL behind both makes no difference. */
  lemma TerminatedSign(a: seq<byte>, b: seq<byte>)
    ensures SignIs(Lex(a + [0], b + [0], 0), Sequences.Precedes(a, b), a == b)
  {
    LexSign(a + [0], b + [0], 0);
    Sequences.OneOfThree(a, b);
    Sequences.OneOfThree(a + [0], b + [0]);
    TerminatedKeeps(a, b);
    TerminatedKeeps(b, a);
    if a + [0] == b + [0] {
      assert a == (a + [0])[..|a|] && b == (b + [0])[..|b|];
    }
  }

  lemma TerminatedKeeps(a: seq<byte>, b: seq<byte>)
    ensures Sequences.Precedes(a, b) ==> Sequences.Precedes(a + [0], b + [0])
  {
    if Sequences.Precedes(a, b) {
      var i: nat :| Sequences.DecidesAt(a, b, i);
      var s, t := a + [0], b + [0];
      assert s[..i] == a[..i] && t[..i] == b[..i];
      if i == |a| && b[i] == 0 {
        assert s[..i + 1] == a[..i] + [0] && t[..i + 1] == b[..i] + [0];
        assert Sequences.DecidesAt(s, t, i + 1);
      } else {
        assert Sequences.DecidesAt(s, t, i);
      }
    }
  }

  lemma TextSign(a: seq<byte>, b: seq<byte>)
    ensures SignIs(TextCmp(a, b), Sequences.Precedes(a, b), a == b)
  {
    TextCmpIsLex(a, b);
    TerminatedSign(a, b);
  }

  lemma StrSign(a: seq<byte>, b: seq<byte>)
    requires NulFree(a) && NulFree(b)
    ensures SignIs(StrCmp(a, b), Sequences.Precedes(a, b), a == b)
  {
    StrCmpIsLex(a, b);
    TerminatedSign(a, b);
  }

  lemma SizedSign(a: seq<byte>, b: seq<byte>)
    ensures SignIs(SizedCmp(a, b), |a| < |b| || (|a| == |b| && Sequences.Precedes(a, b)), a == b)
  {
    if |a| == |b| {
      MemCmpLex(a, b, 0);
      LexSign(a, b, 0);
    }
  }

  lemma PairSign(a: seq<byte>, b: seq<byte>, c: seq<byte>, d: seq<byte>)
    requires NulFree(a) && NulFree(b) && NulFree(c) && NulFree(d)
    ensures SignIs(if StrCmp(a, c) != 0 then StrCmp(a, c) else StrCmp(b, d), PairBefore(a, b, c, d), a == c && b == d)
  {
    StrSign(a, c);
    StrSign(b, d);
    Sequences.OneOfThree(a, c);
  }

  // ----- values -----

  ghost predicate ValueSignIs(x: Value, y: Value)
    requires TypeRank(x) == TypeRank(y)
  {
    CompareElementValues(x, y).Ok? ==> SignIs(CompareElementValues(x, y).value, Before(x, y), Alike(x, y))
  }

  lemma NumberSign(x: Value, y: Value)
    requires TypeRank(x) == TypeRank(y) == 3
    ensures ValueSignIs(x, y)
  {
    assert AsDouble(x) == Number(x) && AsDouble(y) == Number(y);
  }

  lemma TimeSign(x: Value, y: Value)
    requires TypeRank(x) == TypeRank(y) == 10 && WfValue(x) && WfValue(y)
    ensures ValueSignIs(x, y)
  {
    Pow256Values();
  }

  lemma BinDataSign(x: Value, y: Value)
    requires x.BinData? && y.BinData?
    ensures ValueSignIs(x, y)
  {
    SizedSign([x.subtype] + x.data, [y.subtype] + y.data);
    Sequences.PrecedesAppended([x.subtype], [y.subtype], x.data, y.data);
    OneByte(x.subtype, y.subtype);
    assert x.data == ([x.subtype] + x.data)[1..] && y.data == ([y.subtype] + y.data)[1..];
  }

  lemma OneByte(a: byte, b: byte)
    ensures Sequences.Precedes([a], [b]) <==> a < b
    ensures [a] == [b] <==> a == b
  {
    Sequences.LessIff([a], [b]);
    assert [a][1..] == [] && [b][1..] == [];
  }

  lemma DBRefSign(x: Value, y: Value)
    requires x.DBRef? && y.DBRef? && WfValue(x) && WfValue(y)
    ensures ValueSignIs(x, y)
  {
    var s, t := x.ns + [0] + x.id, y.ns + [0] + y.id;
    SizedSign(s, t);
    if |x.ns| == |y.ns| {
      assert s == (x.ns + [0]) + x.id && t == (y.ns + [0]) + y.id;
      Sequences.PrecedesAppended(x.ns + [0], y.ns + [0], x.id, y.id);
      Sequences.PrecedesAppended(x.ns, y.ns, [0], [0]);
      OneByte(0, 0);
      assert x.ns == s[..|x.ns|] && y.ns == t[..|y.ns|] && x.id == s[|x.ns| + 1..] && y.id == t[|y.ns| + 1..];
    }
  }

  lemma {:induction false} CStringEnds(s: seq<byte>, pos: nat)
    requires pos <= |s|
    ensures CString(s[pos..]) == s[pos..StrEnd(s, pos)]
    decreases |s| - pos
  {
    if pos < |s| && s[pos] != 0 {
      CStringEnds(s, pos + 1);
      assert s[pos..][1..] == s[pos + 1..];
      assert s[pos..StrEnd(s, pos)] == [s[pos]] + s[pos + 1..StrEnd(s, pos + 1)];
    }
  }

  lemma {:induction false} CStringOfTerminated(s: seq<byte>, t: seq<byte>)
    ensures CString(s + [0] + t) == CString(s) && |CString(s)| <= |s|
  {
    if s == [] {
      assert s + [0] + t == [0] + t;
    } else {
      assert (s + [0] + t)[1..] == s[1..] + [0] + t;
      CStringOfTerminated(s[1..], t);
    }
  }

  lemma CodeStringsAre(v: Value)
    requires v.CodeWScope?
    ensures CodeStrings(v) == CodeBytes(v.code, EncDoc(v.scope))
  {
    var raw := v.code + [0] + EncDoc(v.scope);
    CStringOfTerminated(v.code, EncDoc(v.scope));
    CStringEnds(raw, 0);
    assert raw[0..] == raw;
    CStringEnds(raw, |CString(v.code)| + 1);
  }

  lemma CodeSign(x: Value, y: Value)
    requires x.CodeWScope? && y.CodeWScope?
    ensures ValueSignIs(x, y)
  {
    CodeStringsAre(x);
    CodeStringsAre(y);
    CodeBytesNulFree(x.code, EncDoc(x.scope));
    CodeBytesNulFree(y.code, EncDoc(y.scope));
    PairSign(CodeStrings(x).0, CodeStrings(x).1, CodeStrings(y).0, CodeStrings(y).1);
  }

  lemma OIDSign(x: Value, y: Value)
    requires x.OID? && y.OID? && WfValue(x) && WfValue(y)
    ensures ValueSignIs(x, y)
  {
    SizedSign(x.id, y.id);
  }

  lemma PlainSign(x: Value, y: Value)
    requires TypeRank(x) == TypeRank(y) && (TypeRank(x) <= 2 || TypeRank(x) == 9 || TypeRank(x) == 15)
    ensures ValueSignIs(x, y)
  {
    PlainCompare(x, y);
  }

  lemma FlatSign(x: Value, y: Value)
    requires WfValue(x) && WfValue(y) && TypeRank(x) == TypeRank(y) && !x.Object? && !x.Array?
    ensures ValueSignIs(x, y)
  {
    match x
    case NumberInt(_) => NumberSign(x, y);
    case NumberLong(_) => NumberSign(x, y);
    case NumberDouble(_) => NumberSign(x, y);
    case String(_) => TextSign(x.text, y.text);
    case Symbol(_) => TextSign(x.text, y.text);
    case Code(_) => TextSign(x.text, y.text);
    case OID(_) => OIDSign(x, y);
    case DBRef(_, _) => DBRefSign(x, y);
    case BinData(_, _) => BinDataSign(x, y);
    case RegEx(_, _) => PairSign(x.pattern, x.options, y.pattern, y.options);
    case CodeWScope(_, _) => CodeSign(x, y);
    case Date(_) => TimeSign(x, y);
    case Timestamp(_) => TimeSign(x, y);
    case _ => PlainSign(x, y);
  }

  /** The sign of any comparison of two values of one canonical type that answers. */
  lemma {:induction false} ValueSign(x: Value, y: Value)
    requires WfValue(x) && WfValue(y) && TypeRank(x) == TypeRank(y)
    ensures ValueSignIs(x, y)
    decreases x, 0
  {
    if x.Object? || x.Array? {
      DocSign(x.doc, y.doc);
    } else {
      FlatSign(x, y);
    }
  }

  /** The sign of any comparison of two elements that answers. */
  lemma {:induction false} ElementSign(x: Element, y: Element, c: bool)
    requires WfElement(x) && WfElement(y)
    ensures WoCompare(x, y, c).Ok? ==> SignIs(WoCompare(x, y, c).value, ElementBefore(x, y, c), ElementAlike(x, y, c))
    decreases x, 1
  {
    TypeRankDecides(x.value, y.value);
    if TypeRank(x.value) == TypeRank(y.value) {
      StrSign(x.name, y.name);
      Sequences.OneOfThree(x.name, y.name);
      ValueSign(x.value, y.value);
    } else {
      TypesDecide(x, y, c);
    }
  }

  /** And of two embedded documents. */
  lemma {:induction false} DocSign(a: Doc, b: Doc)
    requires WfDoc(a) && WfDoc(b)
    ensures CompareDocs(a, b, Plain, true).Ok? ==>
      SignIs(CompareDocs(a, b, Plain, true).value, DocBefore(a, b), DocAlike(a, b))
    decreases a, 2
  {
    if a.Cons? && b.Cons? {
      ElementSign(a.head, b.head, true);
      if WoCompare(a.head, b.head, true) == Ok(0) {
        DocSign(a.tail, b.tail);
      }
    }
  }

  // ----- directions -----

  /** A number below zero: of a double, the sign bit set on what is neither zero nor NaN. */
  predicate Negative(v: Value)
  {
    match v
    case NumberInt(n) => n < 0
    case NumberLong(n) => n < 0
    case NumberDouble(d) => d.neg && !(d.expo == 0 && d.frac == 0) && !(d.expo == 2047 && d.frac != 0)
    case _ => false
  }

  /** A key pattern's field descends when it is a negative number. */
  lemma DescendsIff(e: Element)
    requires WfElement(e)
    ensures Descends(e) <==> Negative(e.value)
  {
    match e.value
    case NumberLong(n) => RoundLongSign(n);
    case NumberDouble(d) => BelowZero(d);
    case _ =>
  }

  lemma {:induction false} KeySignAt(key: Doc, i: nat)
    requires WfDoc(key) && i < key.Length()
    ensures KeySigns(key).At(i) <==> Negative(key.Field(i).value)
  {
    if i == 0 {
      DescendsIff(key.head);
    } else {
      KeySignAt(key.tail, i - 1);
    }
  }

  /** Whether field `i` from here on is compared the other way round. */
  predicate Turned(dir: Direction, i: nat)
    decreases i
  {
    Turn(dir).Ok? && if i == 0 then Turn(dir).value.0 else Turned(Turn(dir).value.1, i - 1)
  }

  lemma {:induction false} TurnedByMask(bits: Words.word, n: nat, i: nat)
    ensures Turned(ByOrdering(bits, Words.Bit(n)), i) <==> n + i < 32 && Words.HasBit(bits, n + i)
    decreases i
  {
    Words.NextBit(n);
    if i > 0 {
      TurnedByMask(bits, n + 1, i - 1);
    } else if n < 32 {
      Words.MaskAsks(bits, n);
    } else {
      Words.NoHighBit(n);
    }
  }

  lemma {:induction false} TurnedByKey(signs: Signs, i: nat)
    ensures Turned(ByKey(Some(signs)), i) <==> i < signs.Length() && signs.At(i)
  {
    if signs.Next? && i > 0 {
      TurnedByKey(signs.rest, i - 1);
    } else if signs.Last? && i > 0 {
      assert !Turned(ByKey(None), i - 1);
    }
  }

  lemma {:induction false} NeverTurned(i: nat)
    ensures !Turned(Plain, i)
  {
    if i > 0 {
      NeverTurned(i - 1);
    }
  }

  // ----- documents -----

  /** The first `n` fields of both are there and alike. */
  predicate AlikeUpTo(a: Doc, b: Doc, n: nat, c: bool)
  {
    n <= a.Length() && n <= b.Length() && forall i :: 0 <= i < n ==> ElementAlike(a.Field(i), b.Field(i), c)
  }

  lemma AlikeTails(a: Doc, b: Doc, n: nat, c: bool)
    requires n > 0 && AlikeUpTo(a, b, n, c)
    ensures a.Cons? && b.Cons? && ElementAlike(a.head, b.head, c) && AlikeUpTo(a.tail, b.tail, n - 1, c)
  {
    assert ElementAlike(a.Field(0), b.Field(0), c);
    forall i | 0 <= i < n - 1
      ensures ElementAlike(a.tail.Field(i), b.tail.Field(i), c)
    {
      assert ElementAlike(a.Field(i + 1), b.Field(i + 1), c);
    }
  }

  /** The first field in which two documents differ decides, turned round if its direction is. */
  lemma {:induction false} FirstDifference(a: Doc, b: Doc, dir: Direction, c: bool, n: nat)
    requires WfDoc(a) && WfDoc(b) && CompareDocs(a, b, dir, c).Ok? && AlikeUpTo(a, b, n, c)
    requires n < a.Length() && n < b.Length() && !ElementAlike(a.Field(n), b.Field(n), c)
    ensures var r := CompareDocs(a, b, dir, c).value;
      r != 0 && (r < 0 <==> ElementBefore(a.Field(n), b.Field(n), c) != Turned(dir, n))
    decreases n
  {
    ElementSign(a.head, b.head, c);
    if n > 0 {
      AlikeTails(a, b, n, c);
      FirstDifference(a.tail, b.tail, Turn(dir).value.1, c, n - 1);
    }
  }

  /** Where none differs, the one that has fewer fields comes first, whatever the directions. */
  lemma {:induction false} NoDifference(a: Doc, b: Doc, dir: Direction, c: bool, n: nat)
    requires WfDoc(a) && WfDoc(b) && CompareDocs(a, b, dir, c).Ok? && AlikeUpTo(a, b, n, c)
    requires n == a.Length() || n == b.Length()
    ensures SignIs(CompareDocs(a, b, dir, c).value, a.Length() < b.Length(), a.Length() == b.Length())
    decreases n
  {
    if n > 0 {
      AlikeTails(a, b, n, c);
      ElementSign(a.head, b.head, c);
      NoDifference(a.tail, b.tail, Turn(dir).value.1, c, n - 1);
    }
  }

  /** `woCompare` with an Ordering: field `n`, the first to differ, is turned where bit `n` is set. */
  lemma OrderedSign(a: Doc, b: Doc, bits: Words.word, c: bool, n: nat)
    requires WfDoc(a) && WfDoc(b) && CompareOrdered(a, b, bits, c).Ok? && AlikeUpTo(a, b, n, c)
    requires n < a.Length() && n < b.Length() && !ElementAlike(a.Field(n), b.Field(n), c)
    ensures var r := CompareOrdered(a, b, bits, c).value;
      r != 0 && (r < 0 <==> ElementBefore(a.Field(n), b.Field(n), c) != (n < 32 && Words.HasBit(bits, n)))
  {
    FirstDifference(a, b, ByOrdering(bits, Words.Bit(0)), c, n);
    TurnedByMask(bits, 0, n);
  }

  /** With a key pattern: it is turned where the pattern's field `n` is negative. */
  lemma KeyedSign(a: Doc, b: Doc, key: Doc, c: bool, n: nat)
    requires WfDoc(a) && WfDoc(b) && WfDoc(key) && CompareByKey(a, b, key, c).Ok? && AlikeUpTo(a, b, n, c)
    requires n < a.Length() && n < b.Length() && !ElementAlike(a.Field(n), b.Field(n), c)
    ensures var r := CompareByKey(a, b, key, c).value;
      r != 0 && (r < 0 <==> ElementBefore(a.Field(n), b.Field(n), c) !=
                            (n < key.Length() && Negative(key.Field(n).value)))
  {
    if key.Nil? {
      FirstDifference(a, b, Plain, c, n);
      NeverTurned(n);
    } else {
      FirstDifference(a, b, ByKey(Some(KeySigns(key))), c, n);
      TurnedByKey(KeySigns(key), n);
      if n < key.Length() {
        KeySignAt(key, n);
      }
    }
  }
}
