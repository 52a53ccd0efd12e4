/** When `woCompare` is a total preorder. On any set of documents: when no Date meets a Timestamp
    and no double lies between two NumberLongs that round to it, at the places the comparisons
    come to, and no document has more fields than the key pattern, if there is one. On all the
    documents certain NumberLongs, Dates and Timestamps can occur in: exactly when there is no key
    pattern, no two of the NumberLongs round to one double and Dates or Timestamps are not allowed. */
module BsonOrder {
  import opened Bytes
  import opened BsonFormat
  import opened Numbers
  import opened BsonCompare
  import Words

  /** Signs of (x,y) and (y,x). */
  predicate Opposite(xy: int, yx: int)
  {
    (xy < 0 <==> yx > 0) && (xy > 0 <==> yx < 0)
  }

  /** Signs of (x,y), (y,z) and (x,z) that one order could give. */
  predicate Consistent(xy: int, yz: int, xz: int)
  {
    (xy <= 0 && yz <= 0 ==> xz <= 0 && (xy < 0 || yz < 0 ==> xz < 0)) &&
    (xy >= 0 && yz >= 0 ==> xz >= 0 && (xy > 0 || yz > 0 ==> xz > 0))
  }

  // ----- bytes -----

  lemma {:induction false} MemCmpOpposite(a: seq<byte>, b: seq<byte>, i: nat, n: nat)
    requires i <= n <= |a| && n <= |b|
    ensures Opposite(MemCmp(a, b, i, n), MemCmp(b, a, i, n))
    decreases n - i
  {
    if i < n {
      MemCmpOpposite(a, b, i + 1, n);
    }
  }

  lemma {:induction false} MemCmpConsistent(a: seq<byte>, b: seq<byte>, c: seq<byte>, i: nat, n: nat)
    requires i <= n <= |a| && n <= |b| && n <= |c|
    ensures Consistent(MemCmp(a, b, i, n), MemCmp(b, c, i, n), MemCmp(a, c, i, n))
    decreases n - i
  {
    if i < n {
      MemCmpConsistent(a, b, c, i + 1, n);
    }
  }

  /** Byte by byte, then the longer is the greater: what both string comparisons amount to. */
  function Lex(a: seq<byte>, b: seq<byte>, i: nat): int
    requires i <= |a| && i <= |b|
    decreases |a| - i
  {
    if i == |a| || i == |b| then |a| - |b| else if a[i] != b[i] then a[i] - b[i] else Lex(a, b, i + 1)
  }

  lemma {:induction false} LexOpposite(a: seq<byte>, b: seq<byte>, i: nat)
    requires i <= |a| && i <= |b|
    ensures Opposite(Lex(a, b, i), Lex(b, a, i))
    decreases |a| - i
  {
    if i < |a| && i < |b| {
      LexOpposite(a, b, i + 1);
    }
  }

  lemma {:induction false} LexConsistent(a: seq<byte>, b: seq<byte>, c: seq<byte>, i: nat)
    requires i <= |a| && i <= |b| && i <= |c|
    ensures Consistent(Lex(a, b, i), Lex(b, c, i), Lex(a, c, i))
    decreases |a| - i
  {
    if i < |a| && i < |b| && i < |c| && a[i] == b[i] == c[i] {
      LexConsistent(a, b, c, i + 1);
    } else {
      LexLong(a, b, i);
      LexLong(b, c, i);
      LexLong(a, c, i);
    }
  }

  /** At the end of the shorter string the sign is that of the lengths. */
  lemma LexLong(a: seq<byte>, b: seq<byte>, i: nat)
    requires i <= |a| && i <= |b|
    ensures i == |a| || i == |b| ==> Lex(a, b, i) == |a| - |b|
  {
  }

  lemma {:induction false} MemCmpLex(a: seq<byte>, b: seq<byte>, i: nat)
    requires i <= |a| && i <= |b|
    ensures var m := MemCmp(a, b, i, Min(|a|, |b|));
            Lex(a, b, i) == if m != 0 then m else |a| - |b|
    decreases |a| - i
  {
    if i < |a| && i < |b| {
      MemCmpLex(a, b, i + 1);
    }
  }

  lemma TextCmpIsLex(a: seq<byte>, b: seq<byte>)
    ensures TextCmp(a, b) == Lex(a + [0], b + [0], 0)
  {
    MemCmpLex(a + [0], b + [0], 0);
  }

  lemma StrCmpIsLex(a: seq<byte>, b: seq<byte>)
    requires NulFree(a) && NulFree(b)
    ensures StrCmp(a, b) == Lex(a + [0], b + [0], 0)
  {
    var s, t, n := a + [0], b + [0], Min(|a|, |b|) + 1;
    MemCmpLex(s, t, 0);
    assert s[|a|] == 0 && t[|b|] == 0;
    if |a| != |b| {
      assert s[n - 1] != t[n - 1] by {
        if |a| < |b| {
          assert t[|a|] == b[|a|];
        } else {
          assert s[|b|] == a[|b|];
        }
      }
      MemCmpDiffers(s, t, 0, n, n - 1);
    }
  }

  lemma {:induction false} MemCmpDiffers(a: seq<byte>, b: seq<byte>, i: nat, n: nat, k: nat)
    requires i <= k < n <= |a| && n <= |b| && a[k] != b[k]
    ensures MemCmp(a, b, i, n) != 0
    decreases n - i
  {
    if i < k {
      MemCmpDiffers(a, b, i + 1, n, k);
    }
  }

  lemma TextLaws(a: seq<byte>, b: seq<byte>, c: seq<byte>)
    ensures Opposite(TextCmp(a, b), TextCmp(b, a))
    ensures Consistent(TextCmp(a, b), TextCmp(b, c), TextCmp(a, c))
  {
    TextCmpIsLex(a, b);
    TextCmpIsLex(b, a);
    TextCmpIsLex(b, c);
    TextCmpIsLex(a, c);
    LexOpposite(a + [0], b + [0], 0);
    LexConsistent(a + [0], b + [0], c + [0], 0);
  }

  lemma StrLaws(a: seq<byte>, b: seq<byte>, c: seq<byte>)
    requires NulFree(a) && NulFree(b) && NulFree(c)
    ensures Opposite(StrCmp(a, b), StrCmp(b, a))
    ensures Consistent(StrCmp(a, b), StrCmp(b, c), StrCmp(a, c))
  {
    StrCmpIsLex(a, b);
    StrCmpIsLex(b, a);
    StrCmpIsLex(b, c);
    StrCmpIsLex(a, c);
    LexOpposite(a + [0], b + [0], 0);
    LexConsistent(a + [0], b + [0], c + [0], 0);
  }

  lemma SizedLaws(a: seq<byte>, b: seq<byte>, c: seq<byte>)
    ensures Opposite(SizedCmp(a, b), SizedCmp(b, a))
    ensures Consistent(SizedCmp(a, b), SizedCmp(b, c), SizedCmp(a, c))
  {
    if |a| == |b| {
      MemCmpOpposite(a, b, 0, |a|);
      if |b| == |c| {
        MemCmpConsistent(a, b, c, 0, |a|);
      }
    }
  }

  // ----- numbers -----

  lemma DoubleLaws(x: Num, y: Num, z: Num)
    ensures Opposite(DoubleCmp(x, y), DoubleCmp(y, x))
    ensures Consistent(DoubleCmp(x, y), DoubleCmp(y, z), DoubleCmp(x, z))
  {
  }

  /** Two NumberLongs that differ, but not as doubles. */
  predicate Collide(m: Value, n: Value)
  {
    m.NumberLong? && n.NumberLong? && m.n != n.n && RoundLong(m.n) == RoundLong(n.n)
  }

  /** Two such, and a number of another type that is the same double. */
  predicate Between(m: Value, v: Value, n: Value)
  {
    Collide(m, n) && IsNumber(v) && !v.NumberLong? && Number(v) == Number(m)
  }

  /** Three numbers no order can give: two NumberLongs that collide, with the third between. */
  predicate ClashN(x: Value, y: Value, z: Value)
  {
    Between(x, y, z) || Between(y, x, z) || Between(x, z, y)
  }

  /** Comparing two NumberLongs exactly agrees with comparing them as doubles, but where they
      collide. */
  lemma NumberCmpIsDoubleCmp(l: Value, r: Value)
    requires IsNumber(l) && IsNumber(r)
    ensures var d := DoubleCmp(Number(l), Number(r));
      if Collide(l, r) then d == 0 && NumberCmp(l, r) == Sign(l.n - r.n) else NumberCmp(l, r) == d
  {
    if l.NumberLong? && r.NumberLong? {
      if l.n <= r.n {
        RoundLongMonotone(l.n, r.n);
      } else {
        RoundLongMonotone(r.n, l.n);
      }
    }
  }

  lemma NumberOpposite(x: Value, y: Value)
    requires IsNumber(x) && IsNumber(y)
    ensures Opposite(NumberCmp(x, y), NumberCmp(y, x))
  {
    NumberCmpIsDoubleCmp(x, y);
    NumberCmpIsDoubleCmp(y, x);
    DoubleLaws(Number(x), Number(y), Number(x));
  }

  /** The comparison of three numbers is transitive exactly when they do not clash. */
  lemma NumbersConsistentIff(x: Value, y: Value, z: Value)
    requires IsNumber(x) && IsNumber(y) && IsNumber(z)
    ensures Consistent(NumberCmp(x, y), NumberCmp(y, z), NumberCmp(x, z)) <==> !ClashN(x, y, z)
  {
    if x.NumberLong? && y.NumberLong? && z.NumberLong? {
    } else if Collide(x, y) {
      CollidingSame(x, y, z);
    } else if Collide(y, z) {
      CollidingSame(y, z, x);
    } else if Collide(x, z) {
      CollidingSame(x, z, y);
    } else {
      NumberCmpIsDoubleCmp(x, y);
      NumberCmpIsDoubleCmp(y, z);
      NumberCmpIsDoubleCmp(x, z);
      DoubleLaws(Number(x), Number(y), Number(z));
    }
  }

  /** Two that collide stand the same to any other number but a NumberLong. */
  lemma CollidingSame(m: Value, n: Value, v: Value)
    requires Collide(m, n) && IsNumber(v) && !v.NumberLong?
    ensures Number(m) == Number(n)
    ensures NumberCmp(m, v) == NumberCmp(n, v) == DoubleCmp(Number(m), Number(v))
    ensures NumberCmp(v, m) == NumberCmp(v, n) == DoubleCmp(Number(v), Number(m))
    ensures NumberCmp(m, n) != 0
    ensures DoubleCmp(Number(m), Number(v)) == 0 <==> Number(v) == Number(m)
    ensures DoubleCmp(Number(v), Number(m)) == 0 <==> Number(v) == Number(m)
  {
  }

  // ----- values of one type -----

  /** The comparisons of three things all answer, and with signs one order could give. */
  predicate Laws(xy: Result<int>, yx: Result<int>, yz: Result<int>, xz: Result<int>)
  {
    xy.Ok? && yx.Ok? && yz.Ok? && xz.Ok? &&
    Opposite(xy.value, yx.value) && Consistent(xy.value, yz.value, xz.value)
  }

  ghost predicate ValueLaws(x: Value, y: Value, z: Value)
  {
    Laws(CompareElementValues(x, y), CompareElementValues(y, x),
         CompareElementValues(y, z), CompareElementValues(x, z))
  }

  lemma CodeLaws(x: Value, y: Value, z: Value)
    requires x.CodeWScope? && y.CodeWScope? && z.CodeWScope?
    ensures ValueLaws(x, y, z)
  {
    var (c1, s1) := CodeBytes(x.code, EncDoc(x.scope));
    var (c2, s2) := CodeBytes(y.code, EncDoc(y.scope));
    var (c3, s3) := CodeBytes(z.code, EncDoc(z.scope));
    CodeBytesNulFree(x.code, EncDoc(x.scope));
    CodeBytesNulFree(y.code, EncDoc(y.scope));
    CodeBytesNulFree(z.code, EncDoc(z.scope));
    StrLaws(c1, c2, c3);
    StrLaws(s1, s2, s3);
  }

  lemma CodeBytesNulFree(code: seq<byte>, scope: seq<byte>)
    ensures NulFree(CodeBytes(code, scope).0) && NulFree(CodeBytes(code, scope).1)
  {
    var raw := code + [0] + scope;
    var end := StrEnd(raw, 0);
    StrEndNulFree(raw, 0);
    StrEndNulFree(raw, if end < |raw| then end + 1 else end);
  }

  lemma RegExLaws(x: Value, y: Value, z: Value)
    requires x.RegEx? && y.RegEx? && z.RegEx? && WfValue(x) && WfValue(y) && WfValue(z)
    ensures ValueLaws(x, y, z)
  {
    StrLaws(x.pattern, y.pattern, z.pattern);
    StrLaws(x.options, y.options, z.options);
  }

  lemma BytesLaws(x: Value, y: Value, z: Value)
    requires x.OID? || x.DBRef? || x.BinData?
    requires CanonicalType(x) == CanonicalType(y) == CanonicalType(z) && WfValue(x) && WfValue(y) && WfValue(z)
    ensures ValueLaws(x, y, z)
  {
    match x
    case OID(_) =>
      MemCmpOpposite(x.id, y.id, 0, 12);
      MemCmpConsistent(x.id, y.id, z.id, 0, 12);
    case DBRef(_, _) => SizedLaws(x.ns + [0] + x.id, y.ns + [0] + y.id, z.ns + [0] + z.id);
    case BinData(_, _) => SizedLaws([x.subtype] + x.data, [y.subtype] + y.data, [z.subtype] + z.data);
  }

  lemma TextValueLaws(x: Value, y: Value, z: Value)
    requires x.String? || x.Symbol? || x.Code?
    requires CanonicalType(x) == CanonicalType(y) == CanonicalType(z)
    ensures ValueLaws(x, y, z)
  {
    TextLaws(x.text, y.text, z.text);
  }

  lemma NumericLawsIff(x: Value, y: Value, z: Value)
    requires IsNumber(x) && IsNumber(y) && IsNumber(z)
    ensures ValueLaws(x, y, z) <==> !ClashN(x, y, z)
  {
    NumberOpposite(x, y);
    NumbersConsistentIff(x, y, z);
  }

  /** Dates among themselves and Timestamps among themselves. */
  lemma TimeLaws(x: Value, y: Value, z: Value)
    requires (x.Date? && y.Date? && z.Date?) || (x.Timestamp? && y.Timestamp? && z.Timestamp?)
    ensures ValueLaws(x, y, z)
  {
  }

  /** The types whose comparison is a difference of ranks, and booleans. */
  lemma PlainLaws(x: Value, y: Value, z: Value)
    requires x.MinKey? || x.MaxKey? || x.EOO? || x.Undefined? || x.Null? || x.Bool?
    requires CanonicalType(x) == CanonicalType(y) == CanonicalType(z)
    ensures ValueLaws(x, y, z)
  {
    PlainCompare(x, y);
    PlainCompare(y, x);
    PlainCompare(y, z);
    PlainCompare(x, z);
  }

  function Truth(v: Value): int
  {
    if v.Bool? && v.flag then 1 else 0
  }

  lemma PlainCompare(x: Value, y: Value)
    requires x.MinKey? || x.MaxKey? || x.EOO? || x.Undefined? || x.Null? || x.Bool?
    requires CanonicalType(x) == CanonicalType(y)
    ensures CompareElementValues(x, y) == Ok(Truth(x) - Truth(y))
  {
  }

  // ----- what can go wrong, and where -----

  /** A Date on the left of a Timestamp, here or at a place the comparison of two embedded
      objects comes to. */
  predicate MeetsV(x: Value, y: Value)
    decreases x, 0
  {
    (x.Date? && y.Timestamp?) ||
    (x.Object? && y.Object? && MeetsD(x.doc, y.doc, true)) ||
    (x.Array? && y.Array? && MeetsD(x.doc, y.doc, true))
  }

  predicate MeetsE(x: Element, y: Element, c: bool)
    decreases x, 1
  {
    (c ==> StrCmp(x.name, y.name) == 0) && MeetsV(x.value, y.value)
  }

  /** The comparison comes to a position, all before it being equal, where a Date is on the left
      of a Timestamp. */
  predicate MeetsD(a: Doc, b: Doc, c: bool)
    decreases a, 2
  {
    a.Cons? && b.Cons? &&
    (MeetsE(a.head, b.head, c) || (WoCompare(a.head, b.head, c) == Ok(0) && MeetsD(a.tail, b.tail, c)))
  }

  predicate ClashV(x: Value, y: Value, z: Value)
    decreases x, 0
  {
    if IsNumber(x) then ClashN(x, y, z)
    else
      ((x.Object? && y.Object? && z.Object?) || (x.Array? && y.Array? && z.Array?)) && ClashD(x.doc, y.doc, z.doc, true)
  }

  predicate ClashE(x: Element, y: Element, z: Element, c: bool)
    decreases x, 1
  {
    (c ==> StrCmp(x.name, y.name) == 0 && StrCmp(y.name, z.name) == 0) && ClashV(x.value, y.value, z.value)
  }

  /** The three comparisons come to a position, all before it being equal, where three numbers
      clash. */
  predicate ClashD(a: Doc, b: Doc, d: Doc, c: bool)
    decreases a, 2
  {
    a.Cons? && b.Cons? && d.Cons? &&
    (ClashE(a.head, b.head, d.head, c) ||
     (WoCompare(a.head, b.head, c) == Ok(0) && WoCompare(b.head, d.head, c) == Ok(0) &&
      ClashD(a.tail, b.tail, d.tail, c)))
  }

  // ----- which comparisons answer -----

  /** The first `n` fields of both documents are there and compare equal. */
  predicate AgreeOn(a: Doc, b: Doc, n: nat, c: bool)
    decreases n
  {
    n == 0 || (a.Cons? && b.Cons? && WoCompare(a.head, b.head, c) == Ok(0) && AgreeOn(a.tail, b.tail, n - 1, c))
  }

  /** How many turns an iterator over a key pattern gives: one for each field, and the end. */
  function Turns(signs: Option<Signs>): nat
  {
    if signs.None? then 0 else signs.value.Length() + 1
  }

  /** The comparison runs off the end of its key pattern. */
  predicate RunsOut(a: Doc, b: Doc, dir: Direction, c: bool)
  {
    dir.ByKey? && AgreeOn(a, b, Turns(dir.signs), c)
  }

  /** A document has no more fields than the key pattern, if there is one. */
  predicate Covered(a: Doc, dir: Direction)
  {
    dir.ByKey? ==> a.Length() < Turns(dir.signs)
  }

  /** Such a document keeps the comparison from running out. */
  lemma CoveredKeeps(a: Doc, b: Doc, dir: Direction, c: bool)
    requires Covered(a, dir) || Covered(b, dir)
    ensures !RunsOut(a, b, dir, c)
  {
    if dir.ByKey? && dir.signs.Some? {
      ShortDocsDoNotRunOver(a, b, dir.signs.value.Length(), c);
    }
  }

  /** Two documents do not agree on more fields than either has. */
  lemma {:induction false} ShortDocsDoNotRunOver(a: Doc, b: Doc, n: nat, c: bool)
    requires a.Length() <= n || b.Length() <= n
    ensures !AgreeOn(a, b, n + 1, c)
    decreases n
  {
    if n > 0 && a.Cons? && b.Cons? {
      ShortDocsDoNotRunOver(a.tail, b.tail, n - 1, c);
    }
  }

  lemma FlatThrowsIff(x: Value, y: Value)
    requires WfValue(x) && WfValue(y) && CanonicalType(x) == CanonicalType(y) && !x.Object? && !x.Array?
    ensures if MeetsV(x, y) then CompareElementValues(x, y) == Threw(13111) else CompareElementValues(x, y).Ok?
  {
  }

  lemma {:induction false} ValueThrowsIff(x: Value, y: Value)
    requires WfValue(x) && WfValue(y) && CanonicalType(x) == CanonicalType(y)
    ensures if MeetsV(x, y) then CompareElementValues(x, y) == Threw(13111) else CompareElementValues(x, y).Ok?
    decreases x, 0
  {
    if x.Object? || x.Array? {
      ThrowsIff(x.doc, y.doc, Plain, true);
    } else {
      FlatThrowsIff(x, y);
    }
  }

  lemma TypesDecide(x: Element, y: Element, c: bool)
    requires CanonicalType(x.value) != CanonicalType(y.value)
    ensures WoCompare(x, y, c) == Ok(CanonicalType(x.value) - CanonicalType(y.value)) && !MeetsV(x.value, y.value)
  {
  }

  lemma NamesDecide(x: Element, y: Element)
    requires CanonicalType(x.value) == CanonicalType(y.value) && StrCmp(x.name, y.name) != 0
    ensures WoCompare(x, y, true) == Ok(StrCmp(x.name, y.name))
  {
  }

  lemma {:induction false} ElementThrowsIff(x: Element, y: Element, c: bool)
    requires WfElement(x) && WfElement(y)
    ensures if MeetsE(x, y, c) then WoCompare(x, y, c) == Threw(13111) else WoCompare(x, y, c).Ok?
    decreases x, 1
  {
    if CanonicalType(x.value) == CanonicalType(y.value) {
      ValueThrowsIff(x.value, y.value);
    } else {
      TypesDecide(x, y, c);
    }
  }

  lemma RunsOutNext(a: Doc, b: Doc, dir: Direction, c: bool)
    requires a.Cons? && b.Cons? && Turn(dir).Ok?
    ensures RunsOut(a, b, dir, c) <==>
      WoCompare(a.head, b.head, c) == Ok(0) && RunsOut(a.tail, b.tail, Turn(dir).value.1, c)
  {
  }

  /** A comparison of well-formed documents throws exactly when it runs off the end of its key
      pattern or comes to a Date on the left of a Timestamp; else it answers. */
  lemma {:induction false} ThrowsIff(a: Doc, b: Doc, dir: Direction, c: bool)
    requires WfDoc(a) && WfDoc(b)
    ensures
      if RunsOut(a, b, dir, c) then CompareDocs(a, b, dir, c) == Threw(ASSERT)
      else if MeetsD(a, b, c) then CompareDocs(a, b, dir, c) == Threw(13111)
      else CompareDocs(a, b, dir, c).Ok?
    decreases a, 2
  {
    if Turn(dir).Ok? && a.Cons? && b.Cons? {
      RunsOutNext(a, b, dir, c);
      ElementThrowsIff(a.head, b.head, c);
      ThrowsIff(a.tail, b.tail, Turn(dir).value.1, c);
    }
  }

  // ----- the laws -----

  /** No Date meets a Timestamp between any two of three values, either way round. */
  predicate ApartV(x: Value, y: Value, z: Value)
  {
    !MeetsV(x, y) && !MeetsV(y, x) && !MeetsV(y, z) && !MeetsV(z, y) && !MeetsV(x, z) && !MeetsV(z, x)
  }

  predicate ApartE(x: Element, y: Element, z: Element, c: bool)
  {
    !MeetsE(x, y, c) && !MeetsE(y, x, c) && !MeetsE(y, z, c) && !MeetsE(z, y, c) && !MeetsE(x, z, c) && !MeetsE(z, x, c)
  }

  predicate ApartD(a: Doc, b: Doc, d: Doc, c: bool)
  {
    !MeetsD(a, b, c) && !MeetsD(b, a, c) && !MeetsD(b, d, c) && !MeetsD(d, b, c) && !MeetsD(a, d, c) && !MeetsD(d, a, c)
  }

  lemma FlatLaws(x: Value, y: Value, z: Value)
    requires WfValue(x) && WfValue(y) && WfValue(z) && ApartV(x, y, z) && !ClashV(x, y, z)
    requires CanonicalType(x) == CanonicalType(y) == CanonicalType(z) && !x.Object? && !x.Array?
    ensures ValueLaws(x, y, z)
  {
    match x
    case NumberInt(_) => NumericLawsIff(x, y, z);
    case NumberLong(_) => NumericLawsIff(x, y, z);
    case NumberDouble(_) => NumericLawsIff(x, y, z);
    case String(_) => TextValueLaws(x, y, z);
    case Symbol(_) => TextValueLaws(x, y, z);
    case Code(_) => TextValueLaws(x, y, z);
    case OID(_) => BytesLaws(x, y, z);
    case DBRef(_, _) => BytesLaws(x, y, z);
    case BinData(_, _) => BytesLaws(x, y, z);
    case RegEx(_, _) => RegExLaws(x, y, z);
    case CodeWScope(_, _) => CodeLaws(x, y, z);
    case Date(_) => TimeLaws(x, y, z);
    case Timestamp(_) => TimeLaws(x, y, z);
    case _ => PlainLaws(x, y, z);
  }

  // ----- opposite signs -----

  lemma FlatOpposite(x: Value, y: Value)
    requires WfValue(x) && WfValue(y) && !MeetsV(x, y) && !MeetsV(y, x)
    requires CanonicalType(x) == CanonicalType(y) && !x.Object? && !x.Array?
    ensures CompareElementValues(x, y).Ok? && CompareElementValues(y, x).Ok?
    ensures Opposite(CompareElementValues(x, y).value, CompareElementValues(y, x).value)
  {
    ThereAndBack(x, y);
    FlatLaws(x, y, x);
  }

  lemma ThereAndBack(x: Value, y: Value)
    requires !MeetsV(x, y) && !MeetsV(y, x)
    requires CanonicalType(x) == CanonicalType(y) && !x.Object? && !x.Array?
    ensures ApartV(x, y, x) && !ClashV(x, y, x)
  {
  }

  lemma {:induction false} ValueOpposite(x: Value, y: Value)
    requires WfValue(x) && WfValue(y) && CanonicalType(x) == CanonicalType(y) && !MeetsV(x, y) && !MeetsV(y, x)
    ensures CompareElementValues(x, y).Ok? && CompareElementValues(y, x).Ok?
    ensures Opposite(CompareElementValues(x, y).value, CompareElementValues(y, x).value)
    decreases x, 0
  {
    if x.Object? || x.Array? {
      DocOpposite(x.doc, y.doc, Plain, true);
    } else {
      FlatOpposite(x, y);
    }
  }

  lemma {:induction false} ElementOpposite(x: Element, y: Element, c: bool)
    requires WfElement(x) && WfElement(y) && !MeetsE(x, y, c) && !MeetsE(y, x, c)
    ensures WoCompare(x, y, c).Ok? && WoCompare(y, x, c).Ok?
    ensures Opposite(WoCompare(x, y, c).value, WoCompare(y, x, c).value)
    decreases x, 1
  {
    StrLaws(x.name, y.name, x.name);
    if CanonicalType(x.value) == CanonicalType(y.value) && (c ==> StrCmp(x.name, y.name) == 0) {
      ValueOpposite(x.value, y.value);
    }
  }

  lemma {:induction false} DocOpposite(a: Doc, b: Doc, dir: Direction, c: bool)
    requires WfDoc(a) && WfDoc(b) && !MeetsD(a, b, c) && !MeetsD(b, a, c)
    requires !RunsOut(a, b, dir, c) && !RunsOut(b, a, dir, c)
    ensures CompareDocs(a, b, dir, c).Ok? && CompareDocs(b, a, dir, c).Ok?
    ensures Opposite(CompareDocs(a, b, dir, c).value, CompareDocs(b, a, dir, c).value)
    decreases a, 2
  {
    if a.Cons? && b.Cons? {
      ElementOpposite(a.head, b.head, c);
      if WoCompare(a.head, b.head, c) == Ok(0) {
        DocOpposite(a.tail, b.tail, Turn(dir).value.1, c);
      }
    }
  }

  // ----- transitivity -----

  lemma {:induction false} SameTypeLaws(x: Value, y: Value, z: Value)
    requires WfValue(x) && WfValue(y) && WfValue(z) && ApartV(x, y, z) && !ClashV(x, y, z)
    requires CanonicalType(x) == CanonicalType(y) == CanonicalType(z)
    ensures ValueLaws(x, y, z)
    decreases x, 0
  {
    if x.Object? || x.Array? {
      DocLaws(x.doc, y.doc, z.doc, Plain, true);
    } else {
      FlatLaws(x, y, z);
    }
  }

  /** Elements whose types or names tell them apart. */
  lemma RankLaws(x: Element, y: Element, z: Element, c: bool)
    requires WfElement(x) && WfElement(y) && WfElement(z)
    requires WoCompare(x, y, c).Ok? && WoCompare(y, z, c).Ok? && WoCompare(x, z, c).Ok?
    requires !(CanonicalType(x.value) == CanonicalType(y.value) == CanonicalType(z.value))
    ensures Consistent(WoCompare(x, y, c).value, WoCompare(y, z, c).value, WoCompare(x, z, c).value)
  {
    var p, q, r := CanonicalType(x.value), CanonicalType(y.value), CanonicalType(z.value);
    if p != q {
      TypesDecide(x, y, c);
    }
    if q != r {
      TypesDecide(y, z, c);
    }
    if p != r {
      TypesDecide(x, z, c);
    }
  }

  lemma NameLaws(x: Element, y: Element, z: Element)
    requires WfElement(x) && WfElement(y) && WfElement(z)
    requires WoCompare(x, y, true).Ok? && WoCompare(y, z, true).Ok? && WoCompare(x, z, true).Ok?
    requires CanonicalType(x.value) == CanonicalType(y.value) == CanonicalType(z.value)
    requires StrCmp(x.name, y.name) != 0 || StrCmp(y.name, z.name) != 0
    ensures Consistent(WoCompare(x, y, true).value, WoCompare(y, z, true).value, WoCompare(x, z, true).value)
  {
    StrLaws(x.name, y.name, z.name);
    if StrCmp(x.name, y.name) != 0 {
      NamesDecide(x, y);
    }
    if StrCmp(y.name, z.name) != 0 {
      NamesDecide(y, z);
    }
    if StrCmp(x.name, z.name) != 0 {
      NamesDecide(x, z);
    }
  }

  lemma {:induction false} ElementLaws(x: Element, y: Element, z: Element, c: bool)
    requires WfElement(x) && WfElement(y) && WfElement(z) && ApartE(x, y, z, c) && !ClashE(x, y, z, c)
    ensures Laws(WoCompare(x, y, c), WoCompare(y, x, c), WoCompare(y, z, c), WoCompare(x, z, c))
    decreases x, 1
  {
    ElementOpposite(x, y, c);
    ElementThrowsIff(y, z, c);
    ElementThrowsIff(x, z, c);
    if !(CanonicalType(x.value) == CanonicalType(y.value) == CanonicalType(z.value)) {
      RankLaws(x, y, z, c);
    } else if c && (StrCmp(x.name, y.name) != 0 || StrCmp(y.name, z.name) != 0) {
      NameLaws(x, y, z);
    } else {
      SameNameLaws(x, y, z, c);
    }
  }

  lemma {:induction false} SameNameLaws(x: Element, y: Element, z: Element, c: bool)
    requires WfElement(x) && WfElement(y) && WfElement(z) && ApartE(x, y, z, c) && !ClashE(x, y, z, c)
    requires CanonicalType(x.value) == CanonicalType(y.value) == CanonicalType(z.value)
    requires c ==> StrCmp(x.name, y.name) == 0 && StrCmp(y.name, z.name) == 0
    ensures Laws(WoCompare(x, y, c), WoCompare(y, x, c), WoCompare(y, z, c), WoCompare(x, z, c))
    decreases x, 0
  {
    StrLaws(x.name, y.name, z.name);
    StrLaws(y.name, z.name, y.name);
    StrLaws(x.name, z.name, x.name);
    SameTypeLaws(x.value, y.value, z.value);
  }

  /** What the heads of three documents being apart and equal says of their tails. */
  lemma TailsApart(a: Doc, b: Doc, d: Doc, c: bool)
    requires WfDoc(a) && WfDoc(b) && WfDoc(d) && a.Cons? && b.Cons? && d.Cons? && ApartD(a, b, d, c)
    requires WoCompare(a.head, b.head, c) == Ok(0) && WoCompare(b.head, d.head, c) == Ok(0)
    requires WoCompare(a.head, d.head, c) == Ok(0)
    ensures ApartD(a.tail, b.tail, d.tail, c)
  {
    ElementOpposite(a.head, b.head, c);
    ElementOpposite(b.head, d.head, c);
    ElementOpposite(a.head, d.head, c);
  }

  /** None of the comparisons of three documents runs off the end of the key pattern. */
  predicate KeyLasts(a: Doc, b: Doc, d: Doc, dir: Direction, c: bool)
  {
    !RunsOut(a, b, dir, c) && !RunsOut(b, a, dir, c) && !RunsOut(b, d, dir, c) && !RunsOut(a, d, dir, c)
  }

  /** Any three documents, to any depth, are compared as one order would, for any mask or key
      pattern that lasts and with or without field names, if no Date meets a Timestamp between two of
      them and no three numbers clash, at the places the comparisons come to. */
  lemma {:induction false} DocLaws(a: Doc, b: Doc, d: Doc, dir: Direction, c: bool)
    requires WfDoc(a) && WfDoc(b) && WfDoc(d) && ApartD(a, b, d, c) && !ClashD(a, b, d, c)
    requires KeyLasts(a, b, d, dir, c)
    ensures Laws(CompareDocs(a, b, dir, c), CompareDocs(b, a, dir, c),
                 CompareDocs(b, d, dir, c), CompareDocs(a, d, dir, c))
    decreases a, 2
  {
    DocOpposite(a, b, dir, c);
    ThrowsIff(b, d, dir, c);
    ThrowsIff(a, d, dir, c);
    if a.Cons? && b.Cons? && d.Cons? {
      ElementLaws(a.head, b.head, d.head, c);
      if WoCompare(a.head, b.head, c) == Ok(0) && WoCompare(b.head, d.head, c) == Ok(0) {
        TailsApart(a, b, d, c);
        KeyLastsTails(a, b, d, dir, c);
        DocLaws(a.tail, b.tail, d.tail, Turn(dir).value.1, c);
      } else {
        HeadsDecide(a, b, d, dir, c);
      }
    }
  }

  lemma KeyLastsTails(a: Doc, b: Doc, d: Doc, dir: Direction, c: bool)
    requires a.Cons? && b.Cons? && d.Cons? && KeyLasts(a, b, d, dir, c)
    requires Laws(WoCompare(a.head, b.head, c), WoCompare(b.head, a.head, c),
                  WoCompare(b.head, d.head, c), WoCompare(a.head, d.head, c))
    requires WoCompare(a.head, b.head, c) == Ok(0) && WoCompare(b.head, d.head, c) == Ok(0)
    ensures Turn(dir).Ok? && KeyLasts(a.tail, b.tail, d.tail, Turn(dir).value.1, c)
  {
  }

  /** Where two of the heads differ, their signs are those of the documents. */
  lemma HeadsDecide(a: Doc, b: Doc, d: Doc, dir: Direction, c: bool)
    requires a.Cons? && b.Cons? && d.Cons?
    requires Laws(WoCompare(a.head, b.head, c), WoCompare(b.head, a.head, c),
                  WoCompare(b.head, d.head, c), WoCompare(a.head, d.head, c))
    requires WoCompare(a.head, b.head, c) != Ok(0) || WoCompare(b.head, d.head, c) != Ok(0)
    requires CompareDocs(a, b, dir, c).Ok? && CompareDocs(b, d, dir, c).Ok? && CompareDocs(a, d, dir, c).Ok?
    ensures Consistent(CompareDocs(a, b, dir, c).value, CompareDocs(b, d, dir, c).value,
                       CompareDocs(a, d, dir, c).value)
  {
  }

  // ----- sets of documents -----

  /** `woCompare` always answers on `docs`, is reflexive, antisymmetric in sign and transitive. */
  ghost predicate PreorderOn(docs: iset<Doc>, dir: Direction, c: bool)
  {
    forall a, b, d :: a in docs && b in docs && d in docs ==> Ordered(a, b, d, dir, c)
  }

  ghost predicate Ordered(a: Doc, b: Doc, d: Doc, dir: Direction, c: bool)
  {
    CompareDocs(a, a, dir, c) == Ok(0) &&
    Laws(CompareDocs(a, b, dir, c), CompareDocs(b, a, dir, c),
         CompareDocs(b, d, dir, c), CompareDocs(a, d, dir, c))
  }

  lemma Reflexive(a: Doc, dir: Direction, c: bool)
    requires WfDoc(a) && Covered(a, dir) && !MeetsD(a, a, c)
    ensures CompareDocs(a, a, dir, c) == Ok(0)
  {
    CoveredKeeps(a, a, dir, c);
    DocOpposite(a, a, dir, c);
  }

  lemma OrderedIfApart(a: Doc, b: Doc, d: Doc, dir: Direction, c: bool)
    requires WfDoc(a) && WfDoc(b) && WfDoc(d) && Covered(a, dir) && Covered(b, dir)
    requires !MeetsD(a, a, c) && ApartD(a, b, d, c) && !ClashD(a, b, d, c)
    ensures Ordered(a, b, d, dir, c)
  {
    Reflexive(a, dir, c);
    CoveredKeeps(a, b, dir, c);
    CoveredKeeps(b, a, dir, c);
    CoveredKeeps(b, d, dir, c);
    CoveredKeeps(a, d, dir, c);
    DocLaws(a, b, d, dir, c);
  }

  /** Of these documents, no Date meets a Timestamp between any two. */
  ghost predicate AllApart(docs: iset<Doc>, c: bool)
  {
    forall a, b :: a in docs && b in docs ==> !MeetsD(a, b, c)
  }

  /** None of these documents has more fields than the key pattern. */
  ghost predicate AllCovered(docs: iset<Doc>, dir: Direction)
  {
    forall a :: a in docs ==> Covered(a, dir)
  }

  lemma ApartOrdered(docs: iset<Doc>, dir: Direction, c: bool)
    requires (forall a :: a in docs ==> WfDoc(a)) && AllApart(docs, c) && AllCovered(docs, dir)
    requires forall a, b, d :: a in docs && b in docs && d in docs ==> !ClashD(a, b, d, c)
    ensures PreorderOn(docs, dir, c)
  {
    forall a, b, d | a in docs && b in docs && d in docs
      ensures Ordered(a, b, d, dir, c)
    {
      OrderedIfApart(a, b, d, dir, c);
    }
  }

  /** Any set of documents, of which no three clash, is totally preordered, for any Ordering or key
      pattern and with or without field names, exactly when no Date in one meets a Timestamp in
      another and none has more fields than the key pattern. Dates and Timestamps may well occur in
      the same documents. */
  lemma PreorderIffApart(docs: iset<Doc>, dir: Direction, c: bool)
    requires forall a :: a in docs ==> WfDoc(a)
    requires forall a, b, d :: a in docs && b in docs && d in docs ==> !ClashD(a, b, d, c)
    ensures PreorderOn(docs, dir, c) <==> AllApart(docs, c) && AllCovered(docs, dir)
  {
    if AllApart(docs, c) && AllCovered(docs, dir) {
      ApartOrdered(docs, dir, c);
    } else if PreorderOn(docs, dir, c) {
      PreorderApart(docs, dir, c);
    }
  }

  lemma PreorderApart(docs: iset<Doc>, dir: Direction, c: bool)
    requires (forall a :: a in docs ==> WfDoc(a)) && PreorderOn(docs, dir, c)
    ensures AllApart(docs, c) && AllCovered(docs, dir)
  {
    forall a, b | a in docs && b in docs
      ensures !MeetsD(a, b, c) && Covered(a, dir)
    {
      PreorderAnswers(docs, a, b, b, dir, c);
      ThrowsIff(a, b, dir, c);
      ThrowsIff(a, a, dir, c);
      if !Covered(a, dir) {
        AgreesWithItself(a, Turns(dir.signs), c);
      }
    }
  }

  lemma {:induction false} AgreesWithItself(a: Doc, n: nat, c: bool)
    requires WfDoc(a) && n <= a.Length() && !MeetsD(a, a, c)
    ensures AgreeOn(a, a, n, c)
    decreases n
  {
    if n > 0 {
      ElementOpposite(a.head, a.head, c);
      AgreesWithItself(a.tail, n - 1, c);
    }
  }

  lemma PreorderAnswers(docs: iset<Doc>, a: Doc, b: Doc, d: Doc, dir: Direction, c: bool)
    requires PreorderOn(docs, dir, c) && a in docs && b in docs && d in docs
    ensures Ordered(a, b, d, dir, c)
  {
  }

  // ----- all documents of a kind -----

  /** A kind of documents: which NumberLongs may occur, and whether Dates and Timestamps may. */
  datatype Universe = Universe(longs: iset<int>, dates: bool, timestamps: bool)

  ghost predicate NoCollisions(longs: iset<int>)
  {
    forall m, n :: m in longs && n in longs && RoundLong(m) == RoundLong(n) ==> m == n
  }

  ghost predicate Sound(u: Universe)
  {
    NoCollisions(u.longs) && !(u.dates && u.timestamps)
  }

  ghost predicate InValue(v: Value, u: Universe)
    decreases v, 0
  {
    WfValue(v) &&
    match v
    case NumberLong(n) => n in u.longs
    case Date(_) => u.dates
    case Timestamp(_) => u.timestamps
    case Object(d) => In(d, u)
    case Array(d) => In(d, u)
    case _ => true
  }

  ghost predicate InElement(e: Element, u: Universe)
    decreases e, 1
  {
    NulFree(e.name) && InValue(e.value, u)
  }

  ghost predicate In(d: Doc, u: Universe)
    decreases d, 2
  {
    d.Cons? ==> InElement(d.head, u) && In(d.tail, u)
  }

  ghost function Docs(u: Universe): iset<Doc>
  {
    iset d | In(d, u)
  }

  lemma {:induction false} InValueApart(x: Value, y: Value, u: Universe)
    requires InValue(x, u) && InValue(y, u) && !(u.dates && u.timestamps)
    ensures !MeetsV(x, y)
    decreases x, 0
  {
    if (x.Object? && y.Object?) || (x.Array? && y.Array?) {
      InApart(x.doc, y.doc, u, true);
    }
  }

  lemma {:induction false} InApart(a: Doc, b: Doc, u: Universe, c: bool)
    requires In(a, u) && In(b, u) && !(u.dates && u.timestamps)
    ensures !MeetsD(a, b, c)
    decreases a, 1
  {
    if a.Cons? && b.Cons? {
      assert InElement(a.head, u) && InElement(b.head, u);
      InValueApart(a.head.value, b.head.value, u);
      InApart(a.tail, b.tail, u, c);
    }
  }

  lemma InNotColliding(x: Value, y: Value, u: Universe)
    requires InValue(x, u) && InValue(y, u) && NoCollisions(u.longs)
    ensures !Collide(x, y)
  {
    if x.NumberLong? && y.NumberLong? {
      assert x.n in u.longs && y.n in u.longs;
    }
  }

  lemma ClashCollides(x: Value, y: Value, z: Value)
    requires ClashN(x, y, z)
    ensures Collide(x, y) || Collide(y, z) || Collide(x, z)
  {
    if Between(x, y, z) {
      BetweenCollides(x, y, z);
    } else if Between(y, x, z) {
      BetweenCollides(y, x, z);
    } else {
      BetweenCollides(x, z, y);
    }
  }

  lemma BetweenCollides(m: Value, v: Value, n: Value)
    requires Between(m, v, n)
    ensures Collide(m, n)
  {
  }

  lemma InNumbersNoClash(x: Value, y: Value, z: Value, u: Universe)
    requires InValue(x, u) && InValue(y, u) && InValue(z, u) && NoCollisions(u.longs)
    ensures !ClashN(x, y, z)
  {
    InNotColliding(x, y, u);
    InNotColliding(y, z, u);
    InNotColliding(x, z, u);
    if ClashN(x, y, z) {
      ClashCollides(x, y, z);
    }
  }

  lemma ClashNested(x: Value, y: Value, z: Value)
    requires ClashV(x, y, z) && !ClashN(x, y, z)
    ensures (x.Object? && y.Object? && z.Object?) || (x.Array? && y.Array? && z.Array?)
    ensures ClashD(x.doc, y.doc, z.doc, true)
  {
  }

  lemma InNested(v: Value, u: Universe)
    requires InValue(v, u) && (v.Object? || v.Array?)
    ensures In(v.doc, u)
  {
  }

  lemma {:induction false} InValueNoClash(x: Value, y: Value, z: Value, u: Universe)
    requires InValue(x, u) && InValue(y, u) && InValue(z, u) && NoCollisions(u.longs)
    ensures !ClashV(x, y, z)
    decreases x, 0
  {
    if ClashV(x, y, z) {
      InNumbersNoClash(x, y, z, u);
      ClashNested(x, y, z);
      InNested(x, u);
      InNested(y, u);
      InNested(z, u);
      InNoClash(x.doc, y.doc, z.doc, u, true);
    }
  }

  lemma {:induction false} InNoClash(a: Doc, b: Doc, d: Doc, u: Universe, c: bool)
    requires In(a, u) && In(b, u) && In(d, u) && NoCollisions(u.longs)
    ensures !ClashD(a, b, d, c)
    decreases a, 1
  {
    if a.Cons? && b.Cons? && d.Cons? {
      assert InElement(a.head, u) && InElement(b.head, u) && InElement(d.head, u);
      InValueNoClash(a.head.value, b.head.value, d.head.value, u);
      InNoClash(a.tail, b.tail, d.tail, u, c);
    }
  }

  lemma InElementWf(e: Element, u: Universe)
    requires InElement(e, u)
    ensures WfElement(e)
  {
    assert InValue(e.value, u);
  }

  lemma {:induction false} InWf(d: Doc, u: Universe)
    requires In(d, u)
    ensures WfDoc(d)
  {
    if d.Cons? {
      assert InElement(d.head, u);
      InElementWf(d.head, u);
      InWf(d.tail, u);
    }
  }

  function Nulls(n: nat): Doc
  {
    if n == 0 then Nil else Cons(Element([], Null), Nulls(n - 1))
  }

  lemma {:induction false} InNulls(n: nat, u: Universe)
    ensures In(Nulls(n), u) && Nulls(n).Length() == n
  {
    if n > 0 {
      InNulls(n - 1, u);
      assert InElement(Element([], Null), u);
    }
  }

  /** No key pattern has as many fields as every document. */
  lemma KeyTooShort(u: Universe, dir: Direction, c: bool)
    requires dir.ByKey?
    ensures !PreorderOn(Docs(u), dir, c)
  {
    if PreorderOn(Docs(u), dir, c) {
      forall a | a in Docs(u)
        ensures WfDoc(a)
      {
        InWf(a, u);
      }
      PreorderApart(Docs(u), dir, c);
      var _ := LongDoc(u, dir);
    }
  }

  lemma LongDoc(u: Universe, dir: Direction) returns (a: Doc)
    requires dir.ByKey?
    ensures a in Docs(u) && !Covered(a, dir)
  {
    a := Nulls(Turns(dir.signs));
    InNulls(Turns(dir.signs), u);
  }

  /** All documents of a kind are totally preordered exactly when there is no key pattern, no two of
      the NumberLongs allowed collide as doubles, and Dates and Timestamps are not both allowed. */
  lemma TotalPreorderIffSound(u: Universe, dir: Direction, c: bool)
    requires forall n :: n in u.longs ==> InRange(n, 8)
    ensures PreorderOn(Docs(u), dir, c) <==> !dir.ByKey? && Sound(u)
  {
    if dir.ByKey? {
      KeyTooShort(u, dir, c);
    } else if Sound(u) {
      forall a, b | a in Docs(u) && b in Docs(u)
        ensures WfDoc(a) && !MeetsD(a, b, c)
      {
        InWf(a, u);
        InApart(a, b, u, c);
      }
      forall a, b, d | a in Docs(u) && b in Docs(u) && d in Docs(u)
        ensures !ClashD(a, b, d, c)
      {
        InNoClash(a, b, d, u, c);
      }
      PreorderIffApart(Docs(u), dir, c);
    } else if u.dates && u.timestamps {
      MixedDatesThrow(u, dir, c);
    } else {
      var m, n :| m in u.longs && n in u.longs && RoundLong(m) == RoundLong(n) && m != n;
      CollisionBreaksTransitivity(u, dir, c, m, n);
    }
  }

  function Single(v: Value): Doc
  {
    Cons(Element([], v), Nil)
  }

  lemma InSingle(v: Value, u: Universe)
    requires InValue(v, u)
    ensures Single(v) in Docs(u)
  {
    assert In(Nil, u);
    assert InElement(Element([], v), u);
    assert In(Single(v), u);
  }

  lemma NamelessElements(x: Value, y: Value, c: bool)
    requires CanonicalType(x) == CanonicalType(y)
    ensures WoCompare(Element([], x), Element([], y), c) == CompareElementValues(x, y)
  {
    StrLaws([], [], []);
  }

  lemma CompareSingles(x: Value, y: Value, dir: Direction, c: bool)
    requires !dir.ByKey? && CanonicalType(x) == CanonicalType(y)
    ensures var r, s := CompareDocs(Single(x), Single(y), dir, c), CompareElementValues(x, y);
            r.Ok? == s.Ok? && (r.Ok? ==> r.value == s.value || r.value == -s.value)
  {
    NamelessElements(x, y, c);
    assert CompareDocs(Nil, Nil, Turn(dir).value.1, c) == Ok(0);
  }

  lemma LawsOfSingles(x: Value, y: Value, z: Value, u: Universe, dir: Direction, c: bool)
    requires InValue(x, u) && InValue(y, u) && InValue(z, u)
    requires PreorderOn(Docs(u), dir, c)
    ensures Laws(CompareDocs(Single(x), Single(y), dir, c), CompareDocs(Single(y), Single(x), dir, c),
                 CompareDocs(Single(y), Single(z), dir, c), CompareDocs(Single(x), Single(z), dir, c))
  {
    InSingle(x, u);
    InSingle(y, u);
    InSingle(z, u);
    LawsOfThree(Docs(u), Single(x), Single(y), Single(z), dir, c);
  }

  lemma LawsOfThree(docs: iset<Doc>, a: Doc, b: Doc, d: Doc, dir: Direction, c: bool)
    requires a in docs && b in docs && d in docs && PreorderOn(docs, dir, c)
    ensures Laws(CompareDocs(a, b, dir, c), CompareDocs(b, a, dir, c),
                 CompareDocs(b, d, dir, c), CompareDocs(a, d, dir, c))
  {
    assert Ordered(a, b, d, dir, c);
  }

  lemma MixedDatesThrow(u: Universe, dir: Direction, c: bool)
    requires u.dates && u.timestamps && !dir.ByKey?
    ensures !PreorderOn(Docs(u), dir, c)
  {
    if PreorderOn(Docs(u), dir, c) {
      var x, y := Date(0), Timestamp(0);
      Pow256Values();
      LawsOfSingles(x, y, y, u, dir, c);
      CompareSingles(x, y, dir, c);
    }
  }

  lemma CollisionBreaksTransitivity(u: Universe, dir: Direction, c: bool, m: int, n: int)
    requires m in u.longs && n in u.longs && InRange(m, 8) && InRange(n, 8) && !dir.ByKey?
    requires RoundLong(m) == RoundLong(n) && m != n
    ensures !PreorderOn(Docs(u), dir, c)
  {
    if PreorderOn(Docs(u), dir, c) {
      var k := LargeOfTwo(m, n);
      DoubleOfLongValue(k);
      var x, y, z := NumberLong(m), NumberDouble(DoubleOfLong(k)), NumberLong(n);
      LawsOfSingles(x, y, z, u, dir, c);
      CompareSingles(x, y, dir, c);
      CompareSingles(y, z, dir, c);
      CompareSingles(x, z, dir, c);
    }
  }

  lemma LargeOfTwo(m: int, n: int) returns (k: int)
    requires RoundLong(m) == RoundLong(n) && m != n
    ensures (k == m || k == n) && !(-LIMIT < k < LIMIT)
  {
    if -LIMIT < m < LIMIT {
      k := n;
      RoundLongExact(m);
      if -LIMIT < n < LIMIT {
        RoundLongExact(n);
      }
    } else {
      k := m;
    }
  }

  /** Such a pair of NumberLongs exists: 2^53 and 2^53 + 1 are the same double. */
  lemma CollisionExists()
    ensures RoundLong(0x20_0000_0000_0000) == RoundLong(0x20_0000_0000_0001)
  {
    assert Words.Pow2(1) == 2;
    assert Excess(0x20_0000_0000_0000) == 1 && Excess(0x20_0000_0000_0001) == 1;
  }
}
