/** The BSON data model and its byte layout (bsonspec.org, "Non-terminals"). A document is a
    list of named values; `EncDoc` gives its bytes and `ParseDoc` reads them back, sizing
    each element the way `BSONElement::size` does. */
module BsonFormat {
  import opened Bytes

  /** An IEEE 754 double by its three fields. */
  datatype Double = Double(neg: bool, expo: nat, frac: nat)

  /** `EOO` is the value of the element that ends an object and of a field that is not there. */
  datatype Value =
    | EOO | MinKey | MaxKey | Undefined | Null
    | Bool(flag: bool)
    | NumberInt(n: int)
    | NumberLong(n: int)
    | NumberDouble(d: Double)
    | String(text: seq<byte>)
    | Symbol(text: seq<byte>)
    | Code(text: seq<byte>)
    | Date(millis: nat)
    | Timestamp(ticks: nat)
    | OID(id: seq<byte>)
    | RegEx(pattern: seq<byte>, options: seq<byte>)
    | DBRef(ns: seq<byte>, id: seq<byte>)
    | BinData(subtype: byte, data: seq<byte>)
    | Object(doc: Doc)
    | Array(doc: Doc)
    | CodeWScope(code: seq<byte>, scope: Doc)

  datatype Element = Element(name: seq<byte>, value: Value)

  datatype Doc = Nil | Cons(head: Element, tail: Doc)
  {
    function Length(): nat
    {
      if Nil? then 0 else 1 + tail.Length()
    }

    function Field(i: nat): Element
      requires i < Length()
    {
      if i == 0 then head else tail.Field(i - 1)
    }

    /** This document with the fields of `d` after its own. */
    function Then(d: Doc): Doc
    {
      if Nil? then d else Cons(head, tail.Then(d))
    }
  }

  const END: Element := Element([], EOO)

  const BSON_OBJ_MAX_INTERNAL_SIZE: nat := 16 * 1024 * 1024 + 16 * 1024

  // ----- layout -----

  function TypeByte(v: Value): byte
  {
    match v
    case EOO => 0
    case NumberDouble(_) => 1
    case String(_) => 2
    case Object(_) => 3
    case Array(_) => 4
    case BinData(_, _) => 5
    case Undefined => 6
    case OID(_) => 7
    case Bool(_) => 8
    case Date(_) => 9
    case Null => 10
    case RegEx(_, _) => 11
    case DBRef(_, _) => 12
    case Code(_) => 13
    case Symbol(_) => 14
    case CodeWScope(_, _) => 15
    case NumberInt(_) => 16
    case Timestamp(_) => 17
    case NumberLong(_) => 18
    case MaxKey => 127
    case MinKey => 255
  }

  function DoubleBits(d: Double): nat
  {
    (if d.neg then 0x8000_0000_0000_0000 else 0) + d.expo * 0x10_0000_0000_0000 + d.frac
  }

  function DoubleOfBits(n: nat): Double
  {
    Double(n >= 0x8000_0000_0000_0000,
           n % 0x8000_0000_0000_0000 / 0x10_0000_0000_0000,
           n % 0x10_0000_0000_0000)
  }

  function EncText(text: seq<byte>): seq<byte>
  {
    LE(|text| + 1, 4) + text + [0]
  }

  function EncValue(v: Value): seq<byte>
    decreases v, 0
  {
    match v
    case EOO => []
    case MinKey => []
    case MaxKey => []
    case Undefined => []
    case Null => []
    case Bool(b) => [if b then 1 else 0]
    case NumberInt(n) => LE(Unsigned(n, 4), 4)
    case NumberLong(n) => LE(Unsigned(n, 8), 8)
    case NumberDouble(d) => LE(DoubleBits(d), 8)
    case String(t) => EncText(t)
    case Symbol(t) => EncText(t)
    case Code(t) => EncText(t)
    case Date(m) => LE(m, 8)
    case Timestamp(t) => LE(t, 8)
    case OID(id) => id
    case RegEx(p, o) => p + [0] + o + [0]
    case DBRef(ns, id) => EncText(ns) + id
    case BinData(k, d) => LE(|d|, 4) + [k] + d
    case Object(d) => EncDoc(d)
    case Array(d) => EncDoc(d)
    case CodeWScope(c, s) =>
      var scope := EncDoc(s);
      LE(4 + 4 + |c| + 1 + |scope|, 4) + EncText(c) + scope
  }

  function EncElement(e: Element): seq<byte>
    decreases e, 1
  {
    [TypeByte(e.value)] + e.name + [0] + EncValue(e.value)
  }

  function EncElements(d: Doc): seq<byte>
    decreases d, 2
  {
    if d.Nil? then [] else EncElement(d.head) + EncElements(d.tail)
  }

  function EncDoc(d: Doc): seq<byte>
    decreases d, 3
  {
    var body := EncElements(d);
    LE(4 + |body| + 1, 4) + body + [0]
  }

  /** What the builder can be given: integers of the right width, NUL-free names and regular
      expressions, no EOO inside. */
  predicate WfValue(v: Value)
    decreases v, 0
  {
    match v
    case EOO => false
    case NumberInt(n) => InRange(n, 4)
    case NumberLong(n) => InRange(n, 8)
    case NumberDouble(d) => WfDouble(d)
    case Date(m) => m < Pow256(8)
    case Timestamp(t) => t < Pow256(8)
    case OID(id) => |id| == 12
    case RegEx(p, o) => NulFree(p) && NulFree(o)
    case DBRef(_, id) => |id| == 12
    case Object(d) => WfDoc(d)
    case Array(d) => WfDoc(d)
    case CodeWScope(_, s) => WfDoc(s)
    case _ => true
  }

  /** Any int, any long long, and any 64 bits of a date or timestamp. */
  lemma AnyWidth(n: int, m: nat)
    ensures WfValue(NumberInt(n)) <==> -0x8000_0000 <= n < 0x8000_0000
    ensures WfValue(NumberLong(n)) <==> -0x8000_0000_0000_0000 <= n < 0x8000_0000_0000_0000
    ensures WfValue(Date(m)) && WfValue(Timestamp(m)) <==> m < 0x1_0000_0000_0000_0000
  {
    Pow256Values();
  }

  predicate WfDouble(d: Double)
  {
    d.expo < 2048 && d.frac < 0x10_0000_0000_0000
  }

  predicate WfElement(e: Element)
    decreases e, 1
  {
    NulFree(e.name) && WfValue(e.value)
  }

  predicate WfDoc(d: Doc)
    decreases d, 2
  {
    d.Cons? ==> WfElement(d.head) && WfDoc(d.tail)
  }

  /** Small enough for `BSONObj::isValid`. */
  predicate Fits(d: Doc)
  {
    |EncDoc(d)| <= BSON_OBJ_MAX_INTERNAL_SIZE
  }

  lemma {:induction false} EncElementsOfThen(a: Doc, b: Doc)
    ensures EncElements(a.Then(b)) == EncElements(a) + EncElements(b)
    ensures WfDoc(a.Then(b)) <==> WfDoc(a) && WfDoc(b)
    ensures a.Then(b).Length() == a.Length() + b.Length()
  {
    if a.Cons? {
      EncElementsOfThen(a.tail, b);
      Associates(EncElement(a.head), EncElements(a.tail), EncElements(b));
    } else {
      assert [] + EncElements(b) == EncElements(b);
    }
  }

  lemma Associates(s: seq<byte>, t: seq<byte>, u: seq<byte>)
    ensures (s + t) + u == s + (t + u)
  {
  }

  // ----- reading back -----

  function ReadInt(buf: seq<byte>, pos: nat): int
    requires pos + 4 <= |buf|
  {
    Signed(ReadLE(buf, pos, pos + 4), 4)
  }

  /** Bytes the value of type `t` at `pos` takes, as in the switch of `BSONElement::size`.
      Where the C++ would read past the buffer the answer is an assertion. */
  function ValueSize(t: byte, buf: seq<byte>, pos: nat): Result<int>
    requires pos <= |buf|
  {
    match t
    case 0 => Ok(0)
    case 6 => Ok(0)
    case 10 => Ok(0)
    case 127 => Ok(0)
    case 255 => Ok(0)
    case 8 => Ok(1)
    case 16 => Ok(4)
    case 1 => Ok(8)
    case 9 => Ok(8)
    case 17 => Ok(8)
    case 18 => Ok(8)
    case 7 => Ok(12)
    case 2 => PrefixedSize(buf, pos, 4)
    case 13 => PrefixedSize(buf, pos, 4)
    case 14 => PrefixedSize(buf, pos, 4)
    case 12 => PrefixedSize(buf, pos, 4 + 12)
    case 5 => PrefixedSize(buf, pos, 4 + 1)
    case 3 => PrefixedSize(buf, pos, 0)
    case 4 => PrefixedSize(buf, pos, 0)
    case 15 => PrefixedSize(buf, pos, 0)
    case 11 => RegExSize(buf, pos)
    case _ => Threw(10320)
  }

  function PrefixedSize(buf: seq<byte>, pos: nat, extra: nat): Result<int>
    requires pos <= |buf|
  {
    if pos + 4 > |buf| then Threw(ASSERT) else Ok(ReadInt(buf, pos) + extra)
  }

  function RegExSize(buf: seq<byte>, pos: nat): Result<int>
    requires pos <= |buf|
  {
    var end := StrEnd(buf, pos);
    if end == |buf| then Threw(ASSERT)
    else
      var end2 := StrEnd(buf, end + 1);
      if end2 == |buf| then Threw(ASSERT) else Ok(end2 + 1 - pos)
  }

  /** `BSONElement::size` for the element at `pos`. */
  function ElementSize(buf: seq<byte>, pos: nat): Result<int>
    requires pos < |buf|
  {
    if buf[pos] == 0 then Ok(1)
    else
      var end := StrEnd(buf, pos + 1);
      if end == |buf| then Threw(ASSERT)
      else
        match ValueSize(buf[pos], buf, end + 1)
        case Threw(c) => Threw(c)
        case Ok(x) => Ok(x + (end + 1 - pos))
  }

  function ParseText(buf: seq<byte>, pos: nat, end: nat): Option<seq<byte>>
    requires pos <= end <= |buf|
  {
    if end - pos >= 5 && ReadInt(buf, pos) == end - pos - 4 && buf[end - 1] == 0
    then Some(buf[pos + 4..end - 1]) else None
  }

  /** The value of type `t` in `buf[pos..end]`. */
  function ParseValue(t: byte, buf: seq<byte>, pos: nat, end: nat): Option<Value>
    requires pos <= end <= |buf|
    decreases end - pos, 1
  {
    if t == 3 || t == 4 then
      match ParseDoc(buf, pos, end)
      case Some(d) => Some(if t == 3 then Object(d) else Array(d))
      case None => None
    else if t == 15 then
      if end - pos < 8 || ReadInt(buf, pos) != end - pos then None else ParseScoped(buf, pos + 4, end)
    else ParseFlat(t, buf, pos, end)
  }

  /** A length-prefixed code text and the scope document after it. */
  function ParseScoped(buf: seq<byte>, pos: nat, end: nat): Option<Value>
    requires pos + 4 <= end <= |buf|
    decreases end - pos, 1
  {
    var mid := pos + 4 + ReadInt(buf, pos);
    if !(pos <= mid <= end) then None
    else
      match (ParseText(buf, pos, mid), ParseDoc(buf, mid, end))
      case (Some(c), Some(s)) => Some(CodeWScope(c, s))
      case _ => None
  }

  /** The values that hold no document. */
  function ParseFlat(t: byte, buf: seq<byte>, pos: nat, end: nat): Option<Value>
    requires pos <= end <= |buf|
  {
    if t == 2 || t == 13 || t == 14 then
      match ParseText(buf, pos, end)
      case Some(x) => Some(if t == 2 then String(x) else if t == 13 then Code(x) else Symbol(x))
      case None => None
    else if t == 11 then ParseRegEx(buf, pos, end)
    else if t == 12 then ParseDBRef(buf, pos, end)
    else if t == 5 then
      if end - pos >= 5 && ReadInt(buf, pos) == end - pos - 5
      then Some(BinData(buf[pos + 4], buf[pos + 5..end])) else None
    else ParseFixed(t, buf, pos, end - pos)
  }

  function ParseRegEx(buf: seq<byte>, pos: nat, end: nat): Option<Value>
    requires pos <= end <= |buf|
  {
    var e := StrEnd(buf, pos);
    if e >= end then None
    else
      var e2 := StrEnd(buf, e + 1);
      if e2 + 1 == end then Some(RegEx(buf[pos..e], buf[e + 1..e2])) else None
  }

  function ParseDBRef(buf: seq<byte>, pos: nat, end: nat): Option<Value>
    requires pos <= end <= |buf|
  {
    if end - pos < 12 then None
    else
      match ParseText(buf, pos, end - 12)
      case Some(x) => Some(DBRef(x, buf[end - 12..end]))
      case None => None
  }

  function ParseFixed(t: byte, buf: seq<byte>, pos: nat, size: nat): Option<Value>
    requires pos + size <= |buf|
  {
    if size == 0 then
      if t == 255 then Some(MinKey)
      else if t == 127 then Some(MaxKey)
      else if t == 6 then Some(Undefined)
      else if t == 10 then Some(Null)
      else None
    else if size == 1 then if t == 8 then Some(Bool(buf[pos] != 0)) else None
    else if size == 4 then if t == 16 then Some(NumberInt(ReadInt(buf, pos))) else None
    else if size == 8 then
      var n := ReadLE(buf, pos, pos + 8);
      if t == 18 then Some(NumberLong(Signed(n, 8)))
      else if t == 1 then Some(NumberDouble(DoubleOfBits(n)))
      else if t == 9 then Some(Date(n))
      else if t == 17 then Some(Timestamp(n))
      else None
    else if size == 12 && t == 7 then Some(OID(buf[pos..pos + 12]))
    else None
  }

  /** The element in `buf[pos..end]`. */
  function ParseElement(buf: seq<byte>, pos: nat, end: nat): Option<Element>
    requires pos < end <= |buf|
    decreases end - pos, 2
  {
    var e := StrEnd(buf, pos + 1);
    if e >= end then None
    else
      match ParseValue(buf[pos], buf, e + 1, end)
      case Some(v) => Some(Element(buf[pos + 1..e], v))
      case None => None
  }

  function ParseElements(buf: seq<byte>, pos: nat, end: nat): Option<Doc>
    requires pos <= end <= |buf|
    decreases end - pos, 3
  {
    if pos == end then Some(Nil)
    else
      match ElementSize(buf, pos)
      case Threw(_) => None
      case Ok(n) =>
        if !(0 < n <= end - pos) then None
        else
          match (ParseElement(buf, pos, pos + n), ParseElements(buf, pos + n, end))
          case (Some(e), Some(d)) => Some(Cons(e, d))
          case _ => None
  }

  /** The document in `buf[pos..end]`. */
  function ParseDoc(buf: seq<byte>, pos: nat, end: nat): Option<Doc>
    requires pos <= end <= |buf|
    decreases end - pos, 0
  {
    if end - pos >= 5 && ReadInt(buf, pos) == end - pos && buf[end - 1] == 0
    then ParseElements(buf, pos + 4, end - 1) else None
  }

  // ----- what the layout puts where -----

  lemma IntAt(buf: seq<byte>, pos: nat, n: nat)
    requires 2 * n < 0x1_0000_0000 && At(buf, pos, LE(n, 4))
    ensures ReadInt(buf, pos) == n
  {
    Pow256Values();
    ReadLEOfLE(buf, pos, n, 4);
  }

  lemma TextAt(buf: seq<byte>, pos: nat, t: seq<byte>)
    requires |t| <= BSON_OBJ_MAX_INTERNAL_SIZE && At(buf, pos, EncText(t))
    ensures |EncText(t)| == |t| + 5 && ReadInt(buf, pos) == |t| + 1
    ensures ParseText(buf, pos, pos + |t| + 5) == Some(t)
  {
    AtSplit(buf, pos, LE(|t| + 1, 4) + t, [0]);
    AtSplit(buf, pos, LE(|t| + 1, 4), t);
    IntAt(buf, pos, |t| + 1);
    AtSlice(buf, pos + 4, t);
    AtByte(buf, pos + 4 + |t|, 0);
  }

  /** What an encoded value says of itself: its size, and, when it holds no document, all
      of it. */
  ghost predicate Readable(buf: seq<byte>, pos: nat, v: Value)
  {
    var n := |EncValue(v)|;
    pos + n <= |buf| && ValueSize(TypeByte(v), buf, pos) == Ok(n) &&
    (!IsNested(v) ==> ParseFlat(TypeByte(v), buf, pos, pos + n) == Some(v))
  }

  predicate IsNested(v: Value)
  {
    v.Object? || v.Array? || v.CodeWScope?
  }

  lemma TextValueAt(buf: seq<byte>, pos: nat, t: seq<byte>)
    requires |t| <= BSON_OBJ_MAX_INTERNAL_SIZE && At(buf, pos, EncText(t))
    ensures Readable(buf, pos, String(t)) && Readable(buf, pos, Symbol(t)) && Readable(buf, pos, Code(t))
  {
    TextAt(buf, pos, t);
  }

  lemma DBRefAt(buf: seq<byte>, pos: nat, ns: seq<byte>, id: seq<byte>)
    requires |ns| <= BSON_OBJ_MAX_INTERNAL_SIZE && |id| == 12 && At(buf, pos, EncText(ns) + id)
    ensures Readable(buf, pos, DBRef(ns, id))
  {
    AtSplit(buf, pos, EncText(ns), id);
    TextAt(buf, pos, ns);
    AtSlice(buf, pos + |ns| + 5, id);
  }

  lemma RegExAt(buf: seq<byte>, pos: nat, p: seq<byte>, o: seq<byte>)
    requires NulFree(p) && NulFree(o) && At(buf, pos, p + [0] + o + [0])
    ensures Readable(buf, pos, RegEx(p, o))
  {
    assert p + [0] + o + [0] == p + [0] + (o + [0]);
    AtSplit(buf, pos, p + [0], o + [0]);
    StrEndAt(buf, pos, p);
    StrEndAt(buf, pos + |p| + 1, o);
  }

  lemma BinDataParts(buf: seq<byte>, pos: nat, k: byte, d: seq<byte>)
    requires |d| <= BSON_OBJ_MAX_INTERNAL_SIZE && At(buf, pos, LE(|d|, 4) + [k] + d)
    ensures pos + 5 + |d| <= |buf| && ReadInt(buf, pos) == |d|
    ensures buf[pos + 4] == k && buf[pos + 5..pos + 5 + |d|] == d
  {
    AtSplit(buf, pos, LE(|d|, 4) + [k], d);
    AtSplit(buf, pos, LE(|d|, 4), [k]);
    IntAt(buf, pos, |d|);
    AtByte(buf, pos + 4, k);
    AtSlice(buf, pos + 5, d);
  }

  lemma BinDataReadable(buf: seq<byte>, pos: nat, k: byte, d: seq<byte>)
    requires pos + 5 + |d| <= |buf| && ReadInt(buf, pos) == |d|
    requires buf[pos + 4] == k && buf[pos + 5..pos + 5 + |d|] == d
    ensures Readable(buf, pos, BinData(k, d))
  {
    assert ParseFlat(5, buf, pos, pos + 5 + |d|) == Some(BinData(k, d));
  }

  lemma BinDataAt(buf: seq<byte>, pos: nat, k: byte, d: seq<byte>)
    requires |d| <= BSON_OBJ_MAX_INTERNAL_SIZE && At(buf, pos, LE(|d|, 4) + [k] + d)
    ensures Readable(buf, pos, BinData(k, d))
  {
    BinDataParts(buf, pos, k, d);
    BinDataReadable(buf, pos, k, d);
  }

  lemma DocAt(buf: seq<byte>, pos: nat, d: Doc)
    requires Fits(d) && At(buf, pos, EncDoc(d))
    ensures |EncDoc(d)| == |EncElements(d)| + 5 && ReadInt(buf, pos) == |EncDoc(d)|
    ensures At(buf, pos + 4, EncElements(d)) && buf[pos + |EncDoc(d)| - 1] == 0
  {
    var body := EncElements(d);
    AtSplit(buf, pos, LE(|body| + 5, 4) + body, [0]);
    AtSplit(buf, pos, LE(|body| + 5, 4), body);
    IntAt(buf, pos, |body| + 5);
    AtByte(buf, pos + 4 + |body|, 0);
  }

  lemma CodeWScopeAt(buf: seq<byte>, pos: nat, c: seq<byte>, scope: Doc)
    requires At(buf, pos, EncValue(CodeWScope(c, scope)))
    requires |EncValue(CodeWScope(c, scope))| <= BSON_OBJ_MAX_INTERNAL_SIZE
    ensures |EncValue(CodeWScope(c, scope))| == |c| + 9 + |EncDoc(scope)|
    ensures ReadInt(buf, pos) == |c| + 9 + |EncDoc(scope)|
    ensures At(buf, pos + 4, EncText(c)) && At(buf, pos + |c| + 9, EncDoc(scope))
  {
    var n := 4 + 4 + |c| + 1 + |EncDoc(scope)|;
    assert |EncText(c)| == |c| + 5;
    AtSplit(buf, pos, LE(n, 4) + EncText(c), EncDoc(scope));
    AtSplit(buf, pos, LE(n, 4), EncText(c));
    IntAt(buf, pos, n);
  }

  lemma ElementAt(buf: seq<byte>, pos: nat, e: Element)
    requires NulFree(e.name) && At(buf, pos, EncElement(e))
    ensures |EncElement(e)| == 2 + |e.name| + |EncValue(e.value)| && buf[pos] == TypeByte(e.value)
    ensures StrEnd(buf, pos + 1) == pos + 1 + |e.name| && buf[pos + 1..pos + 1 + |e.name|] == e.name
    ensures At(buf, pos + 2 + |e.name|, EncValue(e.value))
  {
    var t := [TypeByte(e.value)];
    assert t + e.name + [0] == t + (e.name + [0]);
    AtSplit(buf, pos, t + e.name + [0], EncValue(e.value));
    AtSplit(buf, pos, t, e.name + [0]);
    AtByte(buf, pos, TypeByte(e.value));
    StrEndAt(buf, pos + 1, e.name);
  }

  // ----- sizes read off the bytes are the sizes written -----

  lemma FixedAt(buf: seq<byte>, pos: nat, v: Value)
    requires WfValue(v) && At(buf, pos, EncValue(v))
    requires v.NumberInt? || v.NumberLong? || v.NumberDouble? || v.Date? || v.Timestamp? || v.OID?
    ensures Readable(buf, pos, v)
  {
    Pow256Values();
    match v
    case NumberInt(n) =>
      SignedOfUnsigned(n, 4);
      ReadLEOfLE(buf, pos, Unsigned(n, 4), 4);
    case NumberLong(n) =>
      SignedOfUnsigned(n, 8);
      ReadLEOfLE(buf, pos, Unsigned(n, 8), 8);
    case NumberDouble(d) =>
      DoubleRoundTrip(d);
      ReadLEOfLE(buf, pos, DoubleBits(d), 8);
    case Date(m) => ReadLEOfLE(buf, pos, m, 8);
    case Timestamp(t) => ReadLEOfLE(buf, pos, t, 8);
    case OID(id) => AtSlice(buf, pos, id);
  }

  lemma BareAt(buf: seq<byte>, pos: nat, v: Value)
    requires v.MinKey? || v.MaxKey? || v.Undefined? || v.Null? || v.Bool?
    requires At(buf, pos, EncValue(v))
    ensures Readable(buf, pos, v)
  {
    if v.Bool? {
      AtByte(buf, pos, if v.flag then 1 else 0);
    }
  }

  lemma NestedAt(buf: seq<byte>, pos: nat, d: Doc)
    requires Fits(d) && At(buf, pos, EncDoc(d))
    ensures Readable(buf, pos, Object(d)) && Readable(buf, pos, Array(d))
  {
    DocAt(buf, pos, d);
  }

  lemma CodeWScopeReadable(buf: seq<byte>, pos: nat, c: seq<byte>, scope: Doc)
    requires At(buf, pos, EncValue(CodeWScope(c, scope)))
    requires |EncValue(CodeWScope(c, scope))| <= BSON_OBJ_MAX_INTERNAL_SIZE
    ensures Readable(buf, pos, CodeWScope(c, scope))
  {
    CodeWScopeAt(buf, pos, c, scope);
  }

  lemma ValueAt(buf: seq<byte>, pos: nat, v: Value)
    requires WfValue(v) && At(buf, pos, EncValue(v)) && |EncValue(v)| <= BSON_OBJ_MAX_INTERNAL_SIZE
    ensures Readable(buf, pos, v)
  {
    match v
    case String(t) => TextValueAt(buf, pos, t);
    case Symbol(t) => TextValueAt(buf, pos, t);
    case Code(t) => TextValueAt(buf, pos, t);
    case DBRef(ns, id) => DBRefAt(buf, pos, ns, id);
    case RegEx(p, o) => RegExAt(buf, pos, p, o);
    case BinData(k, d) => BinDataAt(buf, pos, k, d);
    case Object(d) => NestedAt(buf, pos, d);
    case Array(d) => NestedAt(buf, pos, d);
    case CodeWScope(c, s) => CodeWScopeReadable(buf, pos, c, s);
    case MinKey => BareAt(buf, pos, v);
    case MaxKey => BareAt(buf, pos, v);
    case Undefined => BareAt(buf, pos, v);
    case Null => BareAt(buf, pos, v);
    case Bool(_) => BareAt(buf, pos, v);
    case _ => FixedAt(buf, pos, v);
  }

  /** Whatever follows it in the buffer, an element's size read off its bytes is the size it
      was written with. */
  lemma ElementSizeOfEnc(buf: seq<byte>, pos: nat, e: Element)
    requires WfElement(e) && At(buf, pos, EncElement(e)) && |EncElement(e)| <= BSON_OBJ_MAX_INTERNAL_SIZE
    ensures ElementSize(buf, pos) == Ok(|EncElement(e)|)
  {
    ElementAt(buf, pos, e);
    ValueAt(buf, pos + 2 + |e.name|, e.value);
    assert e.value != EOO;
  }

  // ----- round trip -----

  lemma DoubleRoundTrip(d: Double)
    requires WfDouble(d)
    ensures DoubleBits(d) < 0x1_0000_0000_0000_0000 && DoubleOfBits(DoubleBits(d)) == d
  {
  }

  lemma ParseNested(buf: seq<byte>, pos: nat, end: nat, d: Doc)
    requires pos <= end <= |buf| && ParseDoc(buf, pos, end) == Some(d)
    ensures ParseValue(3, buf, pos, end) == Some(Object(d)) && ParseValue(4, buf, pos, end) == Some(Array(d))
  {
  }

  lemma ParseNotNested(t: byte, buf: seq<byte>, pos: nat, end: nat)
    requires pos <= end <= |buf| && t != 3 && t != 4 && t != 15
    ensures ParseValue(t, buf, pos, end) == ParseFlat(t, buf, pos, end)
  {
  }

  lemma ParseCodeWScope(buf: seq<byte>, pos: nat, mid: nat, end: nat, c: seq<byte>, scope: Doc)
    requires pos + 8 <= mid <= end <= |buf|
    requires ReadInt(buf, pos) == end - pos && ReadInt(buf, pos + 4) == mid - pos - 8
    requires ParseText(buf, pos + 4, mid) == Some(c) && ParseDoc(buf, mid, end) == Some(scope)
    ensures ParseValue(15, buf, pos, end) == Some(CodeWScope(c, scope))
  {
    assert ParseScoped(buf, pos + 4, end) == Some(CodeWScope(c, scope));
  }

  lemma {:induction false} ParseCodeWScopeOfEnc(buf: seq<byte>, pos: nat, c: seq<byte>, scope: Doc)
    requires WfDoc(scope) && At(buf, pos, EncValue(CodeWScope(c, scope)))
    requires |EncValue(CodeWScope(c, scope))| <= BSON_OBJ_MAX_INTERNAL_SIZE
    ensures ParseValue(15, buf, pos, pos + |EncValue(CodeWScope(c, scope))|) == Some(CodeWScope(c, scope))
    decreases scope, 3
  {
    CodeWScopeAt(buf, pos, c, scope);
    TextAt(buf, pos + 4, c);
    var mid := pos + |c| + 9;
    ParseDocOfEnc(buf, mid, scope);
    ParseCodeWScope(buf, pos, mid, mid + |EncDoc(scope)|, c, scope);
  }

  lemma {:induction false} ParseNestedOfEnc(buf: seq<byte>, pos: nat, d: Doc)
    requires WfDoc(d) && Fits(d) && At(buf, pos, EncDoc(d))
    ensures ParseValue(3, buf, pos, pos + |EncDoc(d)|) == Some(Object(d))
    ensures ParseValue(4, buf, pos, pos + |EncDoc(d)|) == Some(Array(d))
    decreases d, 3
  {
    ParseDocOfEnc(buf, pos, d);
    ParseNested(buf, pos, pos + |EncDoc(d)|, d);
  }

  lemma ParseFlatOfEnc(buf: seq<byte>, pos: nat, v: Value)
    requires WfValue(v) && At(buf, pos, EncValue(v)) && |EncValue(v)| <= BSON_OBJ_MAX_INTERNAL_SIZE
    requires !IsNested(v)
    ensures ParseValue(TypeByte(v), buf, pos, pos + |EncValue(v)|) == Some(v)
  {
    ValueAt(buf, pos, v);
    ParseNotNested(TypeByte(v), buf, pos, pos + |EncValue(v)|);
  }

  /** Nothing is lost in a value's bytes. */
  lemma {:induction false} ParseValueOfEnc(buf: seq<byte>, pos: nat, v: Value)
    requires WfValue(v) && At(buf, pos, EncValue(v)) && |EncValue(v)| <= BSON_OBJ_MAX_INTERNAL_SIZE
    ensures ParseValue(TypeByte(v), buf, pos, pos + |EncValue(v)|) == Some(v)
    decreases v, 0
  {
    if v.Object? || v.Array? {
      ParseNestedOfEnc(buf, pos, v.doc);
    } else if v.CodeWScope? {
      ParseCodeWScopeOfEnc(buf, pos, v.code, v.scope);
    } else {
      ParseFlatOfEnc(buf, pos, v);
    }
  }

  lemma {:induction false} ParseElementOfEnc(buf: seq<byte>, pos: nat, e: Element)
    requires WfElement(e) && At(buf, pos, EncElement(e)) && |EncElement(e)| <= BSON_OBJ_MAX_INTERNAL_SIZE
    ensures ParseElement(buf, pos, pos + |EncElement(e)|) == Some(e)
    decreases e, 1
  {
    ElementAt(buf, pos, e);
    ParseValueOfEnc(buf, pos + 2 + |e.name|, e.value);
  }

  lemma ParseCons(buf: seq<byte>, pos: nat, mid: nat, end: nat, e: Element, d: Doc)
    requires pos < mid <= end <= |buf| && ElementSize(buf, pos) == Ok(mid - pos)
    requires ParseElement(buf, pos, mid) == Some(e) && ParseElements(buf, mid, end) == Some(d)
    ensures ParseElements(buf, pos, end) == Some(Cons(e, d))
  {
  }

  lemma HeadAndTailAt(buf: seq<byte>, pos: nat, d: Doc)
    requires d.Cons? && At(buf, pos, EncElements(d))
    ensures var n := |EncElement(d.head)|;
      n > 0 && At(buf, pos, EncElement(d.head)) && At(buf, pos + n, EncElements(d.tail)) &&
      |EncElements(d)| == n + |EncElements(d.tail)|
  {
    AtSplit(buf, pos, EncElement(d.head), EncElements(d.tail));
  }

  lemma {:induction false} ParseElementsOfEnc(buf: seq<byte>, pos: nat, end: nat, d: Doc)
    requires WfDoc(d) && At(buf, pos, EncElements(d)) && end == pos + |EncElements(d)|
    requires end - pos <= BSON_OBJ_MAX_INTERNAL_SIZE
    ensures ParseElements(buf, pos, end) == Some(d)
    decreases d, 1
  {
    if d.Cons? {
      var mid := pos + |EncElement(d.head)|;
      HeadAndTailAt(buf, pos, d);
      ElementSizeOfEnc(buf, pos, d.head);
      ParseElementOfEnc(buf, pos, d.head);
      ParseElementsOfEnc(buf, mid, end, d.tail);
      ParseCons(buf, pos, mid, end, d.head, d.tail);
    }
  }

  /** Parsing the bytes of a document gives the document back: same types, names and values
      in the same order, to any depth, and nothing is read beyond its counted size. */
  lemma {:induction false} ParseDocOfEnc(buf: seq<byte>, pos: nat, d: Doc)
    requires WfDoc(d) && Fits(d) && At(buf, pos, EncDoc(d))
    ensures ParseDoc(buf, pos, pos + |EncDoc(d)|) == Some(d)
    decreases d, 2
  {
    DocAt(buf, pos, d);
    ParseElementsOfEnc(buf, pos + 4, pos + 4 + |EncElements(d)|, d);
  }

  lemma ParseWhole(s: seq<byte>, d: Doc)
    requires WfDoc(d) && Fits(d) && s == EncDoc(d)
    ensures ParseDoc(s, 0, |s|) == Some(d)
  {
    ParseWholeFrom(s, 0, d);
  }

  lemma ParseWholeFrom(s: seq<byte>, pos: nat, d: Doc)
    requires WfDoc(d) && Fits(d) && s == EncDoc(d) && pos == 0
    ensures ParseDoc(s, pos, |s|) == Some(d)
  {
    AtWhole(s);
    ParseDocOfEnc(s, pos, d);
  }

  /** So two documents with the same bytes are the same document. */
  lemma EncDocInjective(a: Doc, b: Doc)
    requires WfDoc(a) && WfDoc(b) && Fits(a)
    requires EncDoc(a) == EncDoc(b)
    ensures a == b
  {
    ParseWhole(EncDoc(a), a);
    ParseWhole(EncDoc(a), b);
  }
}
