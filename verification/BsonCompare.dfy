/** The order of values, elements and documents: `compareElementValues` and the `woCompare`s. */
module BsonCompare {
  import opened Bytes
  import opened BsonFormat
  import opened Numbers
  import Words

  // ----- C byte comparisons -----

  /** `memcmp` of `n` bytes from index `i` on. */
  function MemCmp(a: seq<byte>, b: seq<byte>, i: nat, n: nat): int
    requires i <= n <= |a| && n <= |b|
    decreases n - i
  {
    if i == n then 0 else if a[i] != b[i] then a[i] - b[i] else MemCmp(a, b, i + 1, n)
  }

  function Min(a: int, b: int): int
  {
    if a < b then a else b
  }

  /** `strcmp` of two NUL-free strings: their terminated bytes, to the end of the shorter. */
  function StrCmp(a: seq<byte>, b: seq<byte>): int
  {
    MemCmp(a + [0], b + [0], 0, Min(|a|, |b|) + 1)
  }

  /** The order of String, Symbol and Code: NULs inside count as bytes, then length. */
  function TextCmp(a: seq<byte>, b: seq<byte>): int
  {
    var res := MemCmp(a + [0], b + [0], 0, Min(|a| + 1, |b| + 1));
    if res != 0 then res else (|a| + 1) - (|b| + 1)
  }

  /** Length first, then bytes. */
  function SizedCmp(a: seq<byte>, b: seq<byte>): int
  {
    if |a| != |b| then |a| - |b| else MemCmp(a, b, 0, |a|)
  }

  // ----- values -----

  function CanonicalType(v: Value): int
  {
    match v
    case MinKey => -1
    case MaxKey => 127
    case EOO => 0
    case Undefined => 0
    case Null => 5
    case NumberDouble(_) => 10
    case NumberInt(_) => 10
    case NumberLong(_) => 10
    case String(_) => 15
    case Symbol(_) => 15
    case Object(_) => 20
    case Array(_) => 25
    case BinData(_, _) => 30
    case OID(_) => 35
    case Bool(_) => 40
    case Date(_) => 45
    case Timestamp(_) => 45
    case RegEx(_, _) => 50
    case DBRef(_, _) => 55
    case Code(_) => 60
    case CodeWScope(_, _) => 65
  }

  predicate IsNumber(v: Value)
  {
    v.NumberDouble? || v.NumberInt? || v.NumberLong?
  }

  /** `BSONElement::number`: zero for what is not a number. */
  function Number(v: Value): Num
  {
    match v
    case NumberDouble(d) => NumOfDouble(d)
    case NumberInt(n) => Fin(n as real)
    case NumberLong(n) => Fin(RoundLong(n) as real)
    case _ => Fin(0.0)
  }

  function Sign(n: int): int
  {
    if n < 0 then -1 else if n == 0 then 0 else 1
  }

  function DoubleCmp(left: Num, right: Num): int
  {
    if Less(left, right) then -1
    else if Same(left, right) then 0
    else if left.NaN? then (if right.NaN? then 0 else -1)
    else 1
  }

  function NumberCmp(l: Value, r: Value): int
  {
    if l.NumberLong? && r.NumberLong? then Sign(l.n - r.n)
    else if l.NumberInt? && r.NumberInt? then Sign(l.n - r.n)
    else DoubleCmp(Number(l), Number(r))
  }

  /** What `codeWScopeCode` and `codeWScopeScopeData` compare: the C string after the sizes,
      and the C string after that one's NUL. */
  function CodeBytes(code: seq<byte>, scope: seq<byte>): (seq<byte>, seq<byte>)
  {
    var raw := code + [0] + scope;
    var end := StrEnd(raw, 0);
    var from := if end < |raw| then end + 1 else end;
    (raw[..end], raw[from..StrEnd(raw, from)])
  }

  /** `compareElementValues`, meant for values of the same canonical type; where the C++ would
      misread a value of another type the answer is an assertion. */
  function CompareElementValues(l: Value, r: Value): Result<int>
    decreases l, 0
  {
    match l
    case Bool(a) => if r.Bool? then Ok((if a then 1 else 0) - (if r.flag then 1 else 0)) else Threw(ASSERT)
    case Timestamp(a) =>
      if r.Timestamp? then Ok(Sign(a - r.ticks))
      else if r.Date? then Ok(Sign(a - r.millis))
      else Threw(ASSERT)
    case Date(a) =>
      if r.Date? then Ok(Sign(Signed(a, 8) - Signed(r.millis, 8))) else Threw(13111)
    case NumberLong(_) => if IsNumber(r) then Ok(NumberCmp(l, r)) else Threw(ASSERT)
    case NumberInt(_) => if IsNumber(r) then Ok(NumberCmp(l, r)) else Threw(ASSERT)
    case NumberDouble(_) => if IsNumber(r) then Ok(NumberCmp(l, r)) else Threw(ASSERT)
    case OID(a) => if r.OID? && |a| == |r.id| then Ok(MemCmp(a, r.id, 0, |a|)) else Threw(ASSERT)
    case String(a) => CompareTexts(a, r)
    case Symbol(a) => CompareTexts(a, r)
    case Code(a) => CompareTexts(a, r)
    case Object(a) => if r.Object? || r.Array? then CompareDocs(a, r.doc, Plain, true) else Threw(ASSERT)
    case Array(a) => if r.Object? || r.Array? then CompareDocs(a, r.doc, Plain, true) else Threw(ASSERT)
    case DBRef(ns, id) =>
      if r.DBRef? then Ok(SizedCmp(ns + [0] + id, r.ns + [0] + r.id)) else Threw(ASSERT)
    case BinData(k, d) =>
      if r.BinData? then Ok(SizedCmp([k] + d, [r.subtype] + r.data)) else Threw(ASSERT)
    case RegEx(p, o) =>
      if r.RegEx? then
        var c := StrCmp(p, r.pattern);
        Ok(if c != 0 then c else StrCmp(o, r.options))
      else Threw(ASSERT)
    case CodeWScope(code, scope) =>
      if r.CodeWScope? then
        var (c1, s1) := CodeBytes(code, EncDoc(scope));
        var (c2, s2) := CodeBytes(r.code, EncDoc(r.scope));
        var f := StrCmp(c1, c2);
        Ok(if f != 0 then f else StrCmp(s1, s2))
      else Ok(CanonicalType(l) - CanonicalType(r))
    case _ => Ok(Sign(CanonicalType(l) - CanonicalType(r)))
  }

  function CompareTexts(a: seq<byte>, r: Value): Result<int>
  {
    if r.String? || r.Symbol? || r.Code? then Ok(TextCmp(a, r.text)) else Threw(ASSERT)
  }

  /** `BSONElement::woCompare`: canonical type, then name if asked, then value. */
  function WoCompare(l: Element, r: Element, considerFieldName: bool): Result<int>
    decreases l, 1
  {
    var x := CanonicalType(l.value) - CanonicalType(r.value);
    if x != 0 && (!IsNumber(l.value) || !IsNumber(r.value)) then Ok(x)
    else
      var n := if considerFieldName then StrCmp(l.name, r.name) else 0;
      if n != 0 then Ok(n) else CompareElementValues(l.value, r.value)
  }

  // ----- documents -----

  /** The directions a key pattern asks for, field by field. */
  datatype Signs = Last | Next(descends: bool, rest: Signs)
  {
    function Length(): nat
    {
      if Last? then 0 else 1 + rest.Length()
    }

    function At(i: nat): bool
      requires i < Length()
    {
      if i == 0 then descends else rest.At(i - 1)
    }
  }

  predicate Descends(e: Element)
  {
    Less(Number(e.value), Fin(0.0))
  }

  function KeySigns(key: Doc): (s: Signs)
    ensures s.Length() == key.Length()
  {
    if key.Nil? then Last else Next(Descends(key.head), KeySigns(key.tail))
  }

  /** Where the next field's direction comes from: nowhere, a bit mask, or the rest of a key
      pattern (`None` once its iterator is past the end). */
  datatype Direction = Plain | ByOrdering(bits: Words.word, mask: Words.word) | ByKey(signs: Option<Signs>)

  /** Whether the next field descends, and the direction after it. */
  function Turn(dir: Direction): Result<(bool, Direction)>
  {
    match dir
    case Plain => Ok((false, Plain))
    case ByOrdering(bits, mask) => Ok((Words.And(bits, mask) != 0, ByOrdering(bits, Words.Doubled(mask))))
    case ByKey(None) => Threw(ASSERT)
    case ByKey(Some(Last)) => Ok((false, ByKey(None)))
    case ByKey(Some(Next(descends, rest))) => Ok((descends, ByKey(Some(rest))))
  }

  function CompareDocs(a: Doc, b: Doc, dir: Direction, considerFieldName: bool): Result<int>
    decreases a, 2
  {
    match Turn(dir)
    case Threw(c) => Threw(c)
    case Ok((descends, next)) =>
      if a.Nil? then Ok(if b.Nil? then 0 else -1)
      else if b.Nil? then Ok(1)
      else
        match WoCompare(a.head, b.head, considerFieldName)
        case Threw(c) => Threw(c)
        case Ok(x) =>
          if x != 0 then Ok(if descends then -x else x)
          else CompareDocs(a.tail, b.tail, next, considerFieldName)
  }

  /** The bits `Ordering::make` sets for the fields from field `n` on. */
  function MakeBits(signs: Signs, n: nat): Words.word
  {
    if signs.Last? then 0 else Words.OrWord(SignBit(signs.descends, n), MakeBits(signs.rest, n + 1))
  }

  function SignBit(descends: bool, n: nat): Words.word
  {
    if descends then Words.Bit(n) else 0
  }

  /** `woCompare` with a precomputed Ordering. */
  function CompareOrdered(a: Doc, b: Doc, bits: Words.word, considerFieldName: bool): Result<int>
  {
    CompareDocs(a, b, ByOrdering(bits, Words.Bit(0)), considerFieldName)
  }

  /** `woCompare` with a key pattern; an empty one is no pattern. */
  function CompareByKey(a: Doc, b: Doc, key: Doc, considerFieldName: bool): Result<int>
  {
    CompareDocs(a, b, if key.Nil? then Plain else ByKey(Some(KeySigns(key))), considerFieldName)
  }
}
