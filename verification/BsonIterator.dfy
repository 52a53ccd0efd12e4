/** `BSONObjIterator`, which walks the elements of an object by their sizes, and `valid`,
    which walks an object and everything inside it with bounds checked. */
module BsonIterator {
  import opened Bytes
  import opened BsonFormat

  class BSONObjIterator {
    const data: seq<byte>
    var pos: nat
    const theend: nat

    /** What is still to come, while it is known: `None` once the EOO element was returned. */
    ghost var rest: Option<Doc>

    /** An iterator over the object at `base`; the object is the encoding of `d`. */
    constructor (data: seq<byte>, base: nat, ghost d: Doc)
      requires WfDoc(d) && Fits(d) && At(data, base, EncDoc(d))
      ensures Valid() && rest == Some(d) && this.data == data && pos == base + 4
      ensures theend == base + |EncDoc(d)| - 1
    {
      DocAt(data, base, d);
      var sz := ReadInt(data, base);
      this.data := data;
      pos := base + 4;
      theend := base + sz - 1;
      rest := Some(d);
    }

    ghost predicate Valid()
      reads this
    {
      theend < |data| && data[theend] == 0 &&
      match rest
      case None => pos == theend + 1
      case Some(d) =>
        WfDoc(d) && At(data, pos, EncElements(d)) && pos + |EncElements(d)| == theend &&
        |EncElements(d)| <= BSON_OBJ_MAX_INTERNAL_SIZE
    }

    /** Elements other than the EOO remain. */
    predicate More()
      requires Valid()
      reads this
      ensures rest.Some? ==> More() == rest.value.Cons?
    {
      assert rest.Some? && rest.value.Cons? ==> |EncElement(rest.value.head)| >= 2;
      pos < theend
    }

    predicate MoreWithEOO()
      requires Valid()
      reads this
      ensures MoreWithEOO() == rest.Some?
    {
      pos <= theend
    }

    /** The next element: each element of the object in order, then the EOO element once,
        then an assertion. */
    method Next() returns (r: Result<Element>)
      requires Valid()
      modifies this
      ensures Valid()
      ensures match old(rest)
              case None => r == Threw(ASSERT) && rest == None
              case Some(Nil) => r == Ok(END) && rest == None
              case Some(Cons(e, d)) =>
                r == Ok(e) && !e.value.EOO? && rest == Some(d) && pos == old(pos) + |EncElement(e)|
    {
      if pos > theend {
        return Threw(ASSERT);
      }
      Arrive();
      if data[pos] == 0 {
        pos := pos + 1;
        rest := None;
        return Ok(END);
      }
      var size := ElementSize(data, pos).value;
      var e := ParseElement(data, pos, pos + size).value;
      pos := pos + size;
      rest := Some(rest.value.tail);
      return Ok(e);
    }

    /** `next(true)`: the size is computed without scanning past the end of the object. */
    method NextChecked() returns (r: Result<Element>)
      requires Valid()
      modifies this
      ensures Valid()
      ensures match old(rest)
              case None => r == Threw(ASSERT) && rest == None
              case Some(Nil) => r == Ok(END) && rest == None
              case Some(Cons(e, d)) =>
                r == Ok(e) && !e.value.EOO? && rest == Some(d) && pos == old(pos) + |EncElement(e)|
    {
      if pos > theend {
        return Threw(ASSERT);
      }
      Arrive();
      if rest.value.Cons? {
        CheckedSizeOfEnc(data, pos, theend, rest.value.head);
      } else {
        assert data[pos] == 0;
      }
      var size := CheckedSize(data, pos, theend + 1 - pos);
      assert size.Ok?;
      r := Next();
    }

    /** What the bytes under the iterator say. */
    lemma Arrive()
      requires Valid() && rest.Some?
      ensures rest.value.Nil? ==> pos == theend
      ensures rest.value.Cons? ==>
        var e, n := rest.value.head, |EncElement(rest.value.head)|;
        data[pos] != 0 && ElementSize(data, pos) == Ok(n) && 0 < n <= theend - pos &&
        ParseElement(data, pos, pos + n) == Some(e) && At(data, pos, EncElement(e)) &&
        At(data, pos + n, EncElements(rest.value.tail)) &&
        pos + n + |EncElements(rest.value.tail)| == theend
    {
      if rest.value.Cons? {
        var d := rest.value;
        AtSplit(data, pos, EncElement(d.head), EncElements(d.tail));
        ElementSizeOfEnc(data, pos, d.head);
        ParseElementOfEnc(data, pos, d.head);
        ElementAt(data, pos, d.head);
      }
    }
  }

  /** The assertion of a type whose size is kept in four bytes, for when they are not there. */
  function NoSize(t: byte): Option<nat>
  {
    if t == 2 || t == 13 || t == 14 then Some(10313)
    else if t == 15 then Some(10314)
    else if t == 12 then Some(10315)
    else if t == 3 || t == 4 then Some(10316)
    else if t == 5 then Some(10317)
    else None
  }

  /** `BSONElement::size(maxLen)` after the constructor's check of the field name. A regular
      expression that runs past `maxLen` is an assertion here. */
  function CheckedSize(buf: seq<byte>, pos: nat, maxLen: nat): Result<int>
    requires pos + maxLen <= |buf| && maxLen > 0
  {
    if buf[pos] == 0 then Ok(1)
    else
      var end := StrEnd(buf, pos + 1);
      if end >= pos + maxLen then Threw(10333)
      else
        var remain := maxLen - (end - pos) - 1;
        if NoSize(buf[pos]).Some? && remain <= 3 then Threw(NoSize(buf[pos]).value)
        else if buf[pos] == 11 && ElementSize(buf, pos).Ok? && ElementSize(buf, pos).value > maxLen then Threw(ASSERT)
        else
          match ElementSize(buf, pos)
          case Threw(c) => Threw(if c == 10320 then 13655 else c)
          case Ok(x) => Ok(x)
  }

  lemma CheckedSizeOfEnc(buf: seq<byte>, pos: nat, theend: nat, e: Element)
    requires WfElement(e) && At(buf, pos, EncElement(e)) && |EncElement(e)| <= BSON_OBJ_MAX_INTERNAL_SIZE
    requires pos + |EncElement(e)| <= theend < |buf|
    ensures CheckedSize(buf, pos, theend + 1 - pos) == Ok(|EncElement(e)|)
  {
    ElementAt(buf, pos, e);
    ElementSizeOfEnc(buf, pos, e);
    if NoSize(TypeByte(e.value)).Some? {
      PrefixedSizes(e.value);
    }
  }

  lemma PrefixedSizes(v: Value)
    requires NoSize(TypeByte(v)).Some?
    ensures |EncValue(v)| >= 4
  {
  }

  /** On any bytes: a name that does not end within the bound is an assertion, and so is a string,
      symbol, code, scope, reference, object, array or binary data with fewer than four bytes behind
      the name, and an unknown type; what else has room for its size is as without the bound. */
  lemma CheckedSizeAsserts(buf: seq<byte>, pos: nat, maxLen: nat, end: nat)
    requires pos + maxLen <= |buf| && pos < end <= pos + maxLen
    requires buf[pos] != 0 && forall i :: pos < i < end ==> buf[i] != 0
    ensures end == pos + maxLen ==> CheckedSize(buf, pos, maxLen) == Threw(10333)
    ensures end < pos + maxLen < end + 5 && buf[end] == 0 ==>
      var t, r := buf[pos], CheckedSize(buf, pos, maxLen);
      (t in {2, 13, 14} ==> r == Threw(10313)) && (t == 15 ==> r == Threw(10314)) &&
      (t == 12 ==> r == Threw(10315)) && (t in {3, 4} ==> r == Threw(10316)) && (t == 5 ==> r == Threw(10317))
    ensures end < pos + maxLen && buf[end] == 0 ==>
      (CheckedSize(buf, pos, maxLen) == Threw(13655) <==> 18 < buf[pos] < 127 || 127 < buf[pos] < 255)
    ensures end + 5 <= pos + maxLen && buf[end] == 0 && (buf[pos] <= 18 || buf[pos] in {127, 255}) && buf[pos] != 11 ==>
      CheckedSize(buf, pos, maxLen) == ElementSize(buf, pos)
  {
    EndsNoSooner(buf, pos + 1, end);
  }

  lemma {:induction false} EndsNoSooner(buf: seq<byte>, pos: nat, end: nat)
    requires pos <= end <= |buf| && forall i :: pos <= i < end ==> buf[i] != 0
    ensures StrEnd(buf, pos) >= end
    ensures end < |buf| && buf[end] == 0 ==> StrEnd(buf, pos) == end
    decreases end - pos
  {
    if pos < end {
      EndsNoSooner(buf, pos + 1, end);
    }
  }

  // ----- valid() -----

  /** `BSONElement::validate` for a value of type `t` at `pos`; false where it throws. */
  predicate Validate(t: byte, buf: seq<byte>, pos: nat)
    requires pos <= |buf|
  {
    if t == 2 || t == 12 || t == 13 || t == 14 then ValidString(buf, pos)
    else if t == 15 then ValidScope(buf, pos)
    else true
  }

  predicate ValidString(buf: seq<byte>, pos: nat)
  {
    pos + 4 <= |buf| &&
    var x := ReadInt(buf, pos);
    0 < x < BSON_OBJ_MAX_INTERNAL_SIZE && pos + 4 + x <= |buf| && buf[pos + 4 + x - 1] == 0
  }

  predicate ValidScope(buf: seq<byte>, pos: nat)
  {
    pos + 8 <= |buf| && ReadInt(buf, pos) >= 8 &&
    var strSizeWNull := ReadInt(buf, pos + 4);
    ReadInt(buf, pos) >= strSizeWNull + 4 + 4 &&
    strSizeWNull > 0 && pos + 8 + strSizeWNull <= |buf| &&
    StrEnd(buf, pos + 8) == pos + 8 + strSizeWNull - 1 &&
    ReadInt(buf, pos) >= strSizeWNull + 4 + 4 + 4 && pos + 8 + strSizeWNull + 4 <= |buf| &&
    ReadInt(buf, pos) == 4 + 4 + strSizeWNull + ReadInt(buf, pos + 8 + strSizeWNull)
  }

  /** A count read, if not negative, stands there as its bytes. */
  lemma CountStands(buf: seq<byte>, pos: nat)
    requires pos + 4 <= |buf| && ReadInt(buf, pos) >= 0
    ensures At(buf, pos, LE(ReadInt(buf, pos), 4)) && ReadInt(buf, pos) < 0x8000_0000
  {
    Pow256Values();
    ReadStands(buf, pos, 4);
  }

  lemma TextStands(buf: seq<byte>, pos: nat, n: int)
    requires n > 0 && pos + 4 + n <= |buf| && ReadInt(buf, pos) == n && buf[pos + 4 + n - 1] == 0
    ensures At(buf, pos, EncText(buf[pos + 4..pos + 4 + n - 1]))
  {
    var t := buf[pos + 4..pos + 4 + n - 1];
    CountStands(buf, pos);
    AtSplit(buf, pos, LE(n, 4), t);
    AtSplit(buf, pos, LE(n, 4) + t, [0]);
    AtByte(buf, pos + 4 + |t|, 0);
  }

  lemma CountOf(buf: seq<byte>, pos: nat, t: seq<byte>)
    requires |t| + 1 < 0x8000_0000 && At(buf, pos, EncText(t))
    ensures pos + 5 + |t| <= |buf| && ReadInt(buf, pos) == |t| + 1 && buf[pos + 4 + |t|] == 0
    ensures buf[pos + 4..pos + 4 + |t|] == t
  {
    AtSplit(buf, pos, LE(|t| + 1, 4) + t, [0]);
    AtSplit(buf, pos, LE(|t| + 1, 4), t);
    IntAt(buf, pos, |t| + 1);
    AtByte(buf, pos + 4 + |t|, 0);
    AtSlice(buf, pos + 4, t);
  }

  /** A string of less than the largest size. */
  ghost predicate StringStands(buf: seq<byte>, pos: nat, t: seq<byte>)
  {
    |t| + 1 < 16_793_600 && At(buf, pos, EncText(t))
  }

  /** On any bytes: what passes for a string is one. */
  lemma ValidStringIff(buf: seq<byte>, pos: nat)
    ensures ValidString(buf, pos) <==> exists t :: StringStands(buf, pos, t)
  {
    if ValidString(buf, pos) {
      var n := ReadInt(buf, pos);
      TextStands(buf, pos, n);
      assert StringStands(buf, pos, buf[pos + 4..pos + 4 + n - 1]);
    }
    if t :| StringStands(buf, pos, t) {
      CountOf(buf, pos, t);
    }
  }

  /** A size, NUL-free code, and the size of a document with which the first agrees. */
  ghost predicate ScopeStands(buf: seq<byte>, pos: nat, c: seq<byte>)
  {
    NulFree(c) && |c| + 1 < 0x8000_0000 && At(buf, pos + 4, EncText(c)) && pos + |c| + 13 <= |buf| &&
    var inner := ReadInt(buf, pos + |c| + 9);
    inner >= 4 && ReadInt(buf, pos) == |c| + 9 + inner
  }

  lemma ValidScopeIff(buf: seq<byte>, pos: nat)
    ensures ValidScope(buf, pos) <==> exists c :: ScopeStands(buf, pos, c)
  {
    if ValidScope(buf, pos) {
      var n := ReadInt(buf, pos + 4);
      var c := buf[pos + 8..pos + 8 + n - 1];
      TextStands(buf, pos + 4, n);
      CountStands(buf, pos + 4);
      StrEndNulFree(buf, pos + 8);
      assert ScopeStands(buf, pos, c);
    }
    if c :| ScopeStands(buf, pos, c) {
      CountOf(buf, pos + 4, c);
      assert forall i :: pos + 8 <= i < pos + 8 + |c| ==> buf[i] == c[i - (pos + 8)];
      StrEndOf(buf, pos + 8, pos + 8 + |c|);
    }
  }

  /** Every code with scope has NUL-free code, at any depth. */
  predicate ScopesNulFree(d: Doc)
    decreases d, 1
  {
    d.Cons? ==> ValueNulFree(d.head.value) && ScopesNulFree(d.tail)
  }

  predicate ValueNulFree(v: Value)
    decreases v, 0
  {
    match v
    case Object(d) => ScopesNulFree(d)
    case Array(d) => ScopesNulFree(d)
    case CodeWScope(c, s) => NulFree(c) && ScopesNulFree(s)
    case _ => true
  }

  lemma ValidateText(buf: seq<byte>, pos: nat, v: Value)
    requires WfValue(v) && At(buf, pos, EncValue(v)) && |EncValue(v)| <= BSON_OBJ_MAX_INTERNAL_SIZE
    requires !v.CodeWScope?
    ensures Validate(TypeByte(v), buf, pos)
  {
    match v
    case String(t) => ValidStringAt(buf, pos, t);
    case Symbol(t) => ValidStringAt(buf, pos, t);
    case Code(t) => ValidStringAt(buf, pos, t);
    case DBRef(ns, id) =>
      AtSplit(buf, pos, EncText(ns), id);
      ValidStringAt(buf, pos, ns);
    case _ =>
  }

  lemma ValidStringAt(buf: seq<byte>, pos: nat, t: seq<byte>)
    requires At(buf, pos, EncText(t)) && |EncText(t)| <= BSON_OBJ_MAX_INTERNAL_SIZE
    ensures ValidString(buf, pos)
  {
    TextAt(buf, pos, t);
  }

  lemma StrEndIffNulFree(buf: seq<byte>, pos: nat, c: seq<byte>)
    requires At(buf, pos, c + [0])
    ensures StrEnd(buf, pos) == pos + |c| <==> NulFree(c)
  {
    if NulFree(c) {
      StrEndAt(buf, pos, c);
    } else {
      AtSplit(buf, pos, c, [0]);
      var i :| 0 <= i < |c| && c[i] == 0;
      assert buf[pos + i] == 0;
      StrEndFirst(buf, pos, pos + i);
    }
  }

  lemma ValidateCode(buf: seq<byte>, pos: nat, c: seq<byte>, scope: Doc)
    requires At(buf, pos, EncValue(CodeWScope(c, scope)))
    requires |EncValue(CodeWScope(c, scope))| <= BSON_OBJ_MAX_INTERNAL_SIZE
    ensures Validate(15, buf, pos) <==> NulFree(c)
  {
    CodeWScopeAt(buf, pos, c, scope);
    TextAt(buf, pos + 4, c);
    DocAt(buf, pos + |c| + 9, scope);
    assert LE(|c| + 1, 4) + c + [0] == LE(|c| + 1, 4) + (c + [0]);
    AtSplit(buf, pos + 4, LE(|c| + 1, 4), c + [0]);
    StrEndIffNulFree(buf, pos + 8, c);
  }

  lemma {:induction false} StrEndFirst(buf: seq<byte>, pos: nat, end: nat)
    requires pos <= end < |buf| && buf[end] == 0
    ensures StrEnd(buf, pos) <= end
    decreases end - pos
  {
    if pos < end && buf[pos] != 0 {
      StrEndFirst(buf, pos + 1, end);
    }
  }

  /** `BSONObj::valid` on the bytes of `d`: true exactly when every code with scope, at any
      depth, has NUL-free code. */
  method IsValid(data: seq<byte>, base: nat, ghost d: Doc) returns (ok: bool)
    requires WfDoc(d) && Fits(d) && At(data, base, EncDoc(d))
    ensures ok == ScopesNulFree(d)
    decreases d, 1
  {
    var it := new BSONObjIterator(data, base, d);
    ghost var todo := d;
    while it.MoreWithEOO()
      invariant fresh(it) && it.Valid() && it.rest == Some(todo)
      invariant todo == d || todo < d
      invariant it.data == data
      invariant ScopesNulFree(d) == ScopesNulFree(todo)
      decreases |data| - it.pos
    {
      var at := it.pos;
      it.Arrive();
      var next := it.NextChecked();
      if next.value.value.EOO? {
        return !it.MoreWithEOO();
      }
      assert todo.Cons?;
      var ok := ElementIsValid(data, at, todo.head);
      if !ok {
        return false;
      }
      todo := todo.tail;
    }
    return false;
  }

  /** The part of the loop that validates one element and what it embeds. */
  method ElementIsValid(data: seq<byte>, at: nat, ghost e: Element) returns (ok: bool)
    requires WfElement(e) && At(data, at, EncElement(e)) && |EncElement(e)| <= BSON_OBJ_MAX_INTERNAL_SIZE
    ensures ok == ValueNulFree(e.value)
    decreases e, 0
  {
    ElementAt(data, at, e);
    var pos := StrEnd(data, at + 1) + 1;
    if e.value.CodeWScope? {
      ValidateCode(data, pos, e.value.code, e.value.scope);
    } else {
      ValidateText(data, pos, e.value);
    }
    if !Validate(data[at], data, pos) {
      return false;
    }
    if data[at] == 3 || data[at] == 4 {
      ok := IsValid(data, pos, e.value.doc);
    } else if data[at] == 15 {
      ok := ScopeIsValid(data, pos, e.value.code, e.value.scope);
    } else {
      ok := true;
    }
  }

  method ScopeIsValid(data: seq<byte>, pos: nat, ghost c: seq<byte>, ghost scope: Doc) returns (ok: bool)
    requires WfDoc(scope) && At(data, pos, EncValue(CodeWScope(c, scope)))
    requires |EncValue(CodeWScope(c, scope))| <= BSON_OBJ_MAX_INTERNAL_SIZE
    ensures ok == ScopesNulFree(scope)
    decreases scope, 2
  {
    CodeWScopeAt(data, pos, c, scope);
    TextAt(data, pos + 4, c);
    var strSizeWNull := ReadInt(data, pos + 4);
    ok := IsValid(data, pos + 4 + 4 + strSizeWNull, scope);
  }

  /** The builder writes a scope whose code is a NUL, and `validate` rejects its bytes. */
  lemma NulInCodeRejected()
    ensures var v := CodeWScope([0], Nil);
      WfDoc(Cons(Element([], v), Nil)) && Fits(Cons(Element([], v), Nil)) && !Validate(TypeByte(v), EncValue(v), 0)
  {
    assert |EncDoc(Nil)| == 5 && |EncValue(CodeWScope([0], Nil))| == 15;
    var code: seq<byte> := [0];
    assert code[0] == 0;
    NulRejected(code, Nil, 0);
  }

  lemma NulRejected(c: seq<byte>, scope: Doc, pos: nat)
    requires !NulFree(c) && |EncValue(CodeWScope(c, scope))| <= BSON_OBJ_MAX_INTERNAL_SIZE && pos == 0
    ensures !Validate(15, EncValue(CodeWScope(c, scope)), pos)
  {
    AtWhole(EncValue(CodeWScope(c, scope)));
    ValidateCode(EncValue(CodeWScope(c, scope)), pos, c, scope);
  }

  function ToSeq(d: Doc): seq<Element>
  {
    if d.Nil? then [] else [d.head] + ToSeq(d.tail)
  }

  /** All elements of an object, as `BSONObj::elems` collects them. */
  method Elems(data: seq<byte>, base: nat, ghost d: Doc) returns (v: seq<Element>)
    requires WfDoc(d) && Fits(d) && At(data, base, EncDoc(d))
    ensures v == ToSeq(d)
  {
    var i := new BSONObjIterator(data, base, d);
    v := [];
    while i.More()
      invariant fresh(i) && i.Valid() && i.rest.Some? && v + ToSeq(i.rest.value) == ToSeq(d)
      decreases |data| - i.pos
    {
      var e := i.Next();
      v := v + [e.value];
    }
  }
}
