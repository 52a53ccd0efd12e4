/** `BufBuilder`, a growable byte array, and `BSONObjBuilder`, which appends elements to one
    and patches the size of the finished object in place. Children may share the buffer of
    their parent. */
module BsonBuilder {
  import opened Bytes
  import opened BsonFormat

  const BUFFER_MAX_SIZE: nat := 64 * 1024 * 1024

  class BufBuilder {
    var data: array<byte>
    var l: nat

    constructor (initsize: nat)
      ensures Valid() && Contents() == [] && data.Length == initsize && fresh(data)
    {
      data := new byte[initsize];
      l := 0;
    }

    ghost predicate Valid()
      reads this
    {
      l <= data.Length
    }

    ghost function Contents(): seq<byte>
      requires Valid()
      reads this, data
    {
      data[..l]
    }

    /** The capacity after `grow_reallocate` when `want` bytes are needed. */
    static function NewSize(size: nat, want: nat): nat
    {
      var a := if size * 2 == 0 then 512 else size * 2;
      if want > a then want + 16 * 1024 else a
    }

    /** The capacity when `want` bytes are to fit: as it is if they do; else doubled, from 512 on, if
        that is enough; else 16K more than wanted. */
    static function Capacity(size: nat, want: nat): nat
    {
      var doubled := if size == 0 then 512 else 2 * size;
      if want <= size then size else if want <= doubled then doubled else want + 0x4000
    }

    /** Makes room for `n` more bytes, whose values are whatever was there. */
    method Grow(n: nat) returns (r: Result<()>)
      requires Valid()
      modifies this
      ensures r.Threw? <==>
        old(l) + n > old(data.Length) && Capacity(old(data.Length), old(l) + n) > 0x400_0000
      ensures r.Threw? ==> r.code == 13548 && data == old(data)
      ensures r.Ok? ==> data.Length == Capacity(old(data.Length), old(l) + n)
      ensures r.Ok? ==> data.Length <= 64 * 1024 * 1024 || data == old(data)
      ensures r.Ok? ==> Valid() && l == old(l) + n && (data == old(data) || fresh(data))
      ensures r.Ok? ==> data[..old(l)] == old(Contents())
    {
      var oldlen := l;
      l := l + n;
      if l > data.Length {
        var a := NewSize(data.Length, l);
        if a > BUFFER_MAX_SIZE {
          return Threw(13548);
        }
        var d := new byte[a];
        var i := 0;
        while i < oldlen
          invariant 0 <= i <= oldlen <= data.Length && data == old(data) && l == oldlen + n
          invariant d[..i] == data[..i]
        {
          d[i] := data[i];
          i := i + 1;
        }
        data := d;
      }
      return Ok(());
    }

    method AppendBuf(src: seq<byte>) returns (r: Result<()>)
      requires Valid()
      modifies this, data
      ensures r.Ok? ==> Valid() && Contents() == old(Contents()) + src
      ensures data == old(data) || fresh(data)
      ensures 2 * (old(l) + |src|) <= BUFFER_MAX_SIZE ==> r.Ok?
    {
      var start := l;
      var _ :- Grow(|src|);
      var i := 0;
      while i < |src|
        invariant 0 <= i <= |src| && l == start + |src| && Valid()
        invariant data == old(data) || fresh(data)
        invariant data[..start] == old(Contents())
        invariant data[start..start + i] == src[..i]
      {
        data[start + i] := src[i];
        i := i + 1;
      }
      Halves(data[..l], old(Contents()), src);
      return Ok(());
    }

    static lemma Halves(s: seq<byte>, front: seq<byte>, back: seq<byte>)
      requires |s| == |front| + |back| && s[..|front|] == front && s[|front|..] == back
      ensures s == front + back
    {
    }

    method SetLen(newLen: nat)
      requires Valid() && newLen <= l
      modifies this`l
      ensures Valid() && Contents() == old(Contents())[..newLen]
    {
      l := newLen;
    }

    /** Overwrites the bytes at `pos` in place. */
    method Patch(pos: nat, src: seq<byte>)
      requires Valid() && pos + |src| <= l
      modifies data
      ensures Contents() == old(Contents())[..pos] + src + old(Contents())[pos + |src|..]
    {
      var i := 0;
      while i < |src|
        invariant 0 <= i <= |src|
        invariant data[..l] == old(Contents())[..pos] + src[..i] + old(Contents())[pos + i..]
      {
        data[pos + i] := src[i];
        i := i + 1;
      }
    }
  }

  /** What a caller does to a builder: put a value, build a child object or array in the builder's
      own buffer, or peek with `asTempObj`, at this builder or at the one so many levels `up`; a peek
      further up than there are builders is none. */
  datatype Script =
    | Stop
    | Put(name: seq<byte>, v: Value, next: Script)
    | Peek(up: nat, next: Script)
    | Nest(name: seq<byte>, isArray: bool, body: Script, next: Script)

  /** The document a script builds. */
  function Built(s: Script): Doc
  {
    match s
    case Stop => Nil
    case Put(name, v, next) => Cons(Element(name, v), Built(next))
    case Peek(_, next) => Built(next)
    case Nest(name, isArray, body, next) =>
      Cons(Nested(name, isArray, Built(body)), Built(next))
  }

  /** The buffer with the size of the object at `at` set, counting the end byte to come. */
  function Sized(s: seq<byte>, at: nat): (t: seq<byte>)
    requires at + 4 <= |s|
    ensures |t| == |s|
  {
    s[..at] + LE(|s| + 1 - at, 4) + s[at + 4..]
  }

  lemma SizedAt(s: seq<byte>, at: nat)
    requires at + 4 <= |s|
    ensures Sized(s, at)[..at] == s[..at] && Sized(s, at)[at + 4..] == s[at + 4..]
    ensures Sized(s, at)[at..] == LE(|s| + 1 - at, 4) + s[at + 4..]
  {
    var size := LE(|s| + 1 - at, 4);
    assert Sized(s, at) == s[..at] + (size + s[at + 4..]);
  }

  lemma ClosedIsDoc(s: seq<byte>, prefix: seq<byte>, d: Doc)
    requires |prefix| + 4 <= |s| && s[..|prefix|] == prefix && s[|prefix| + 4..] == EncElements(d)
    ensures Sized(s, |prefix|) + [0] == prefix + EncDoc(d)
  {
    PeekIsDoc(s, |prefix|, d);
    SizedAt(s, |prefix|);
    var t := Sized(s, |prefix|);
    assert t == t[..|prefix|] + t[|prefix|..];
  }

  /** What `asTempObj` hands out when no child is open is the object. */
  lemma PeekIsDoc(s: seq<byte>, at: nat, d: Doc)
    requires at + 4 <= |s| && s[at + 4..] == EncElements(d)
    ensures Sized(s, at)[at..] + [0] == EncDoc(d)
  {
    SizedAt(s, at);
  }

  /** The end byte appended, the size patched, and the end byte taken off again. */
  lemma PatchedSized(s: seq<byte>, at: nat)
    requires at + 4 <= |s|
    ensures var t, size := s + [0], LE(|s| + 1 - at, 4);
      t[..at] + size + t[at + 4..] == Sized(s, at) + [0]
  {
  }

  lemma EndByteOff(s: seq<byte>, at: nat)
    requires at <= |s|
    ensures (s + [0])[..|s|] == s && (s + [0])[at..] == s[at..] + [0]
  {
  }

  /** The same bytes but for the sizes of the objects that start at `slots`. */
  ghost predicate SameBut(s: seq<byte>, t: seq<byte>, slots: set<nat>)
  {
    |s| == |t| && forall i :: 0 <= i < |s| && !InSlot(slots, i) ==> s[i] == t[i]
  }

  ghost predicate InSlot(slots: set<nat>, i: int)
  {
    exists o :: o in slots && o <= i < o + 4
  }

  lemma SizedSame(s: seq<byte>, t: seq<byte>, n: nat, at: nat, slots: set<nat>)
    requires n <= |t| && at + 4 <= |t| && SameBut(s, t[..n], slots) && at in slots
    ensures SameBut(s, Sized(t, at)[..n], slots)
  {
    forall i | 0 <= i < n && !InSlot(slots, i)
      ensures Sized(t, at)[..n][i] == s[i]
    {
      assert i < at || at + 4 <= i;
    }
  }

  /** What changed under a child, seen from its parent at `at`. */
  lemma SameBelow(prefix: seq<byte>, header: seq<byte>, now: seq<byte>, at: nat, slots: set<nat>)
    requires at + 4 <= |header| && |prefix| == at && SameBut(prefix, header[..at], slots)
    requires SameBut(header, now, slots + {at}) && forall o :: o in slots ==> o + 4 <= at
    ensures SameBut(prefix, now[..at], slots) && now[at + 4..] == header[at + 4..]
  {
    forall i | 0 <= i < at && !InSlot(slots, i)
      ensures now[..at][i] == prefix[i]
    {
      assert !InSlot(slots + {at}, i);
      assert header[..at][i] == header[i];
    }
    forall i | at + 4 <= i < |header|
      ensures now[i] == header[i]
    {
      assert !InSlot(slots + {at}, i);
    }
  }

  lemma AfterChild(prefix: seq<byte>, before: seq<byte>, added: seq<byte>, now: seq<byte>, at: nat, slots: set<nat>)
    requires at + 4 <= |before| && |prefix| == at && SameBut(prefix, before[..at], slots)
    requires SameBut(before + added, now, slots + {at}) && forall o :: o in slots ==> o + 4 <= at
    ensures SameBut(prefix, now[..at], slots) && now == now[..|before|] + added
    ensures now[..|before|][..at] == now[..at] && now[..|before|][at + 4..] == before[at + 4..]
  {
    var header := before + added;
    assert header[..at] == before[..at];
    SameBelow(prefix, header, now, at, slots);
    assert now[|before|..] == now[at + 4..][|before| - at - 4..] == added;
    assert now[..|before|][at + 4..] == now[at + 4..][..|before| - at - 4];
    assert before[at + 4..] == header[at + 4..][..|before| - at - 4];
  }

  lemma SameAsItself(s: seq<byte>, slots: set<nat>)
    ensures SameBut(s, s, slots)
  {
  }

  lemma SameButNothing(s: seq<byte>, t: seq<byte>)
    requires SameBut(s, t, {})
    ensures s == t
  {
    forall i | 0 <= i < |s|
      ensures s[i] == t[i]
    {
      assert !InSlot({}, i);
    }
  }

  function Slots(up: seq<BSONObjBuilder>): set<nat>
  {
    set u | u in up :: u.offset
  }

  lemma ScopeBytes(before: seq<byte>, c: seq<byte>, s: Doc)
    ensures var n := 4 + 4 + |c| + 1 + |EncDoc(s)|;
            before + LE(n, 4) + EncText(c) + EncDoc(s) == before + EncValue(CodeWScope(c, s))
    ensures |EncValue(CodeWScope(c, s))| == 4 + |EncText(c)| + |EncDoc(s)|
  {
    Joined(before, LE(4 + 4 + |c| + 1 + |EncDoc(s)|, 4), EncText(c), EncDoc(s));
  }

  lemma Joined(a: seq<byte>, x: seq<byte>, y: seq<byte>, z: seq<byte>)
    ensures a + x + y + z == a + (x + y + z)
  {
  }

  function Nested(name: seq<byte>, isArray: bool, d: Doc): Element
  {
    Element(name, if isArray then Array(d) else Object(d))
  }

  lemma NestedSize(name: seq<byte>, isArray: bool, d: Doc)
    ensures EncElement(Nested(name, isArray, d)) ==
            [if isArray then 4 else 3] + name + [0] + EncDoc(d)
    ensures |EncDoc(d)| == |EncElements(d)| + 5
  {
  }

  class BSONObjBuilder {
    const b: BufBuilder
    const offset: nat
    var doneCalled: bool

    /** A builder over its own buffer: four bytes of reference count, then the object. */
    constructor (initsize: nat)
      ensures fresh(b) && fresh(b.data) && offset == 4 && b.Valid() && b.l == 8
      ensures Open(b.Contents()[..4], Nil)
    {
      b := new BufBuilder(initsize + 4);
      offset := 4;
      doneCalled := false;
      new;
      var r := b.AppendBuf(LE(0, 4));
      r := b.Grow(4);
      assert b.Contents()[8..] == [];
    }

    /** A builder over a buffer that already holds `base.Contents()`. */
    constructor Over(base: BufBuilder)
      ensures b == base && offset == base.l && !doneCalled
    {
      b := base;
      offset := base.l;
      doneCalled := false;
    }

    method Start() returns (r: Result<()>)
      requires b.Valid() && offset == b.l && !doneCalled
      modifies b, b.data
      ensures b.data == old(b.data) || fresh(b.data)
      ensures r.Ok? ==> Open(old(b.Contents()), Nil)
      ensures 2 * (offset + 4) <= BUFFER_MAX_SIZE ==> r.Ok?
    {
      var _ :- b.Grow(4);
      assert b.Contents()[offset + 4..] == [];
      return Ok(());
    }

    /** Not finished yet: after `prefix`, four bytes kept for the size, then the fields of `d`. */
    ghost predicate Open(prefix: seq<byte>, d: Doc)
      reads this, b, b.data
    {
      b.Valid() && !doneCalled && |prefix| == offset && offset + 4 <= b.l &&
      b.Contents()[..offset] == prefix && b.Contents()[offset + 4..] == EncElements(d)
    }

    method AppendHeader(t: byte, name: seq<byte>) returns (r: Result<()>)
      requires b.Valid()
      modifies b, b.data
      ensures b.data == old(b.data) || fresh(b.data)
      ensures r.Ok? ==> b.Valid() && b.Contents() == old(b.Contents()) + ([t] + name + [0])
      ensures 2 * (old(b.l) + |name| + 2) <= BUFFER_MAX_SIZE ==> r.Ok?
    {
      var _ :- b.AppendBuf([t]);
      var _ :- b.AppendBuf(name + [0]);
      assert [t] + name + [0] == [t] + (name + [0]);
      return Ok(());
    }

    method AppendPayload(v: Value) returns (r: Result<()>)
      requires b.Valid()
      modifies b, b.data
      ensures b.data == old(b.data) || fresh(b.data)
      ensures r.Ok? ==> b.Valid() && b.Contents() == old(b.Contents()) + EncValue(v)
      ensures 2 * (old(b.l) + |EncValue(v)|) <= BUFFER_MAX_SIZE ==> r.Ok?
    {
      match v {
        case String(t) => r := AppendText(t);
        case Symbol(t) => r := AppendText(t);
        case Code(t) => r := AppendText(t);
        case RegEx(p, o) => r := AppendRegEx(p, o);
        case DBRef(ns, id) => r := AppendDBRef(ns, id);
        case BinData(k, data) => r := AppendBinData(k, data);
        case Object(d) => r := b.AppendBuf(EncDoc(d));
        case Array(d) => r := b.AppendBuf(EncDoc(d));
        case CodeWScope(c, s) => r := AppendCodeWScope(c, s);
        case _ => r := AppendScalar(v);
      }
    }

    method AppendScalar(v: Value) returns (r: Result<()>)
      requires b.Valid() && !IsNested(v) && !v.String? && !v.Symbol? && !v.Code?
      requires !v.RegEx? && !v.DBRef? && !v.BinData?
      modifies b, b.data
      ensures b.data == old(b.data) || fresh(b.data)
      ensures r.Ok? ==> b.Valid() && b.Contents() == old(b.Contents()) + EncValue(v)
      ensures 2 * (old(b.l) + |EncValue(v)|) <= BUFFER_MAX_SIZE ==> r.Ok?
    {
      var bytes: seq<byte> := [];
      match v {
        case Bool(flag) => bytes := [if flag then 1 else 0];
        case NumberInt(n) => bytes := LE(Unsigned(n, 4), 4);
        case NumberLong(n) => bytes := LE(Unsigned(n, 8), 8);
        case NumberDouble(d) => bytes := LE(DoubleBits(d), 8);
        case Date(m) => bytes := LE(m, 8);
        case Timestamp(t) => bytes := LE(t, 8);
        case OID(id) => bytes := id;
        case _ =>
      }
      r := b.AppendBuf(bytes);
    }

    method AppendRegEx(p: seq<byte>, o: seq<byte>) returns (r: Result<()>)
      requires b.Valid()
      modifies b, b.data
      ensures b.data == old(b.data) || fresh(b.data)
      ensures r.Ok? ==> b.Valid() && b.Contents() == old(b.Contents()) + EncValue(RegEx(p, o))
      ensures 2 * (old(b.l) + |EncValue(RegEx(p, o))|) <= BUFFER_MAX_SIZE ==> r.Ok?
    {
      ghost var before := b.Contents();
      var _ :- b.AppendBuf(p + [0]);
      var _ :- b.AppendBuf(o + [0]);
      assert before + (p + [0]) + (o + [0]) == before + (p + [0] + o + [0]);
      return Ok(());
    }

    method AppendDBRef(ns: seq<byte>, id: seq<byte>) returns (r: Result<()>)
      requires b.Valid()
      modifies b, b.data
      ensures b.data == old(b.data) || fresh(b.data)
      ensures r.Ok? ==> b.Valid() && b.Contents() == old(b.Contents()) + EncValue(DBRef(ns, id))
      ensures 2 * (old(b.l) + |EncValue(DBRef(ns, id))|) <= BUFFER_MAX_SIZE ==> r.Ok?
    {
      ghost var before := b.Contents();
      var _ :- AppendText(ns);
      var _ :- b.AppendBuf(id);
      assert before + EncText(ns) + id == before + (EncText(ns) + id);
      return Ok(());
    }

    method AppendBinData(k: byte, data: seq<byte>) returns (r: Result<()>)
      requires b.Valid()
      modifies b, b.data
      ensures b.data == old(b.data) || fresh(b.data)
      ensures r.Ok? ==> b.Valid() && b.Contents() == old(b.Contents()) + EncValue(BinData(k, data))
      ensures 2 * (old(b.l) + |EncValue(BinData(k, data))|) <= BUFFER_MAX_SIZE ==> r.Ok?
    {
      ghost var before := b.Contents();
      var _ :- b.AppendBuf(LE(|data|, 4));
      var _ :- b.AppendBuf([k]);
      var _ :- b.AppendBuf(data);
      Joined(before, LE(|data|, 4), [k], data);
      return Ok(());
    }

    method AppendText(t: seq<byte>) returns (r: Result<()>)
      requires b.Valid()
      modifies b, b.data
      ensures b.data == old(b.data) || fresh(b.data)
      ensures r.Ok? ==> b.Valid() && b.Contents() == old(b.Contents()) + EncText(t)
      ensures 2 * (old(b.l) + |EncText(t)|) <= BUFFER_MAX_SIZE ==> r.Ok?
    {
      ghost var before := b.Contents();
      var _ :- b.AppendBuf(LE(|t| + 1, 4));
      var _ :- b.AppendBuf(t + [0]);
      assert before + LE(|t| + 1, 4) + (t + [0]) == before + EncText(t);
      return Ok(());
    }

    method AppendCodeWScope(c: seq<byte>, s: Doc) returns (r: Result<()>)
      requires b.Valid()
      modifies b, b.data
      ensures b.data == old(b.data) || fresh(b.data)
      ensures r.Ok? ==> b.Valid() && b.Contents() == old(b.Contents()) + EncValue(CodeWScope(c, s))
      ensures 2 * (old(b.l) + |EncValue(CodeWScope(c, s))|) <= BUFFER_MAX_SIZE ==> r.Ok?
    {
      ghost var before := b.Contents();
      ScopeBytes(before, c, s);
      var scope := EncDoc(s);
      var n := 4 + 4 + |c| + 1 + |scope|;
      var _ :- b.AppendBuf(LE(n, 4));
      var _ :- AppendText(c);
      var _ :- b.AppendBuf(scope);
      return Ok(());
    }

    /** The append family: type, name and value of one element. */
    method Append(e: Element) returns (r: Result<()>)
      requires b.Valid()
      modifies b, b.data
      ensures b.data == old(b.data) || fresh(b.data)
      ensures r.Ok? ==> b.Valid() && b.Contents() == old(b.Contents()) + EncElement(e)
      ensures 2 * (old(b.l) + |EncElement(e)|) <= BUFFER_MAX_SIZE ==> r.Ok?
    {
      ghost var before := b.Contents();
      var _ :- AppendHeader(TypeByte(e.value), e.name);
      var _ :- AppendPayload(e.value);
      assert before + ([TypeByte(e.value)] + e.name + [0]) + EncValue(e.value) == before + EncElement(e);
      return Ok(());
    }

    /** Appends the end-of-object byte and patches the size, once; says where the object
        starts. */
    method Done(ghost prefix: seq<byte>, ghost d: Doc) returns (r: Result<nat>)
      requires Open(prefix, d) || Finished(prefix, d)
      modifies this`doneCalled, b, b.data
      ensures b.data == old(b.data) || fresh(b.data)
      ensures r.Ok? ==> r.value == offset && Finished(prefix, d)
      ensures 2 * (offset + |EncDoc(d)|) <= BUFFER_MAX_SIZE ==> r.Ok?
    {
      if doneCalled {
        return Ok(offset);
      }
      ghost var before := b.Contents();
      var _ :- Close();
      ClosedIsDoc(before, prefix, d);
      return Ok(offset);
    }

    /** `_done`, when it has not been called: whatever stands in the buffer becomes the object. */
    method Close() returns (r: Result<()>)
      requires b.Valid() && !doneCalled && offset + 4 <= b.l
      modifies this`doneCalled, b, b.data
      ensures b.data == old(b.data) || fresh(b.data)
      ensures r.Ok? ==> b.Valid() && doneCalled && b.Contents() == Sized(old(b.Contents()), offset) + [0]
      ensures 2 * (old(b.l) + 1) <= BUFFER_MAX_SIZE ==> r.Ok?
    {
      PatchedSized(b.Contents(), offset);
      doneCalled := true;
      var _ :- b.AppendBuf([0]);
      b.Patch(offset, LE(b.l - offset, 4));
      return Ok(());
    }

    /** Finished: after `prefix` stands the whole object. */
    ghost predicate Finished(prefix: seq<byte>, d: Doc)
      reads this, b, b.data
    {
      b.Valid() && doneCalled && |prefix| == offset && b.Contents() == prefix + EncDoc(d)
    }

    /** The object as it stands; the builder is left ready for more. All that changes is its size,
        also where a child is open. */
    method AsTempObj() returns (r: Result<seq<byte>>)
      requires b.Valid() && !doneCalled && offset + 4 <= b.l
      modifies this`doneCalled, b, b.data
      ensures b.data == old(b.data) || fresh(b.data)
      ensures r.Ok? ==> b.Valid() && !doneCalled && b.Contents() == Sized(old(b.Contents()), offset)
      ensures r.Ok? ==> r.value == Sized(old(b.Contents()), offset)[offset..] + [0]
      ensures 2 * (old(b.l) + 1) <= BUFFER_MAX_SIZE ==> r.Ok?
    {
      EndByteOff(Sized(b.Contents(), offset), offset);
      var _ :- Close();
      var temp := b.data[offset..b.l];
      assert temp == b.Contents()[offset..];
      b.SetLen(b.l - 1);
      doneCalled := false;
      return Ok(temp);
    }

    /** Puts one element into an open object. */
    method Put(e: Element, ghost prefix: seq<byte>, ghost d: Doc) returns (r: Result<()>)
      requires Open(prefix, d)
      modifies b, b.data
      ensures b.data == old(b.data) || fresh(b.data)
      ensures r.Ok? ==> Open(prefix, Snoc(d, e)) && b.l == old(b.l) + |EncElement(e)|
      ensures 2 * (old(b.l) + |EncElement(e)|) <= BUFFER_MAX_SIZE ==> r.Ok?
    {
      ghost var before := b.Contents();
      var _ :- Append(e);
      OneMore(before, prefix, d, e);
      return Ok(());
    }

    /** An open object stays open when the bytes of one more element were appended. */
    lemma OneMore(before: seq<byte>, prefix: seq<byte>, d: Doc, e: Element)
      requires offset + 4 <= |before| && before[..offset] == prefix && before[offset + 4..] == EncElements(d)
      requires b.Valid() && !doneCalled && |prefix| == offset && b.Contents() == before + EncElement(e)
      ensures Open(prefix, Snoc(d, e))
    {
      EncElementsOfSnoc(d, e);
      assert b.Contents()[offset + 4..] == before[offset + 4..] + EncElement(e);
    }

    /** Open, the bytes before it being those of `prefix` but for the sizes at `slots`, which belong to
        the builders it is a child of. */
    ghost predicate OpenBut(slots: set<nat>, prefix: seq<byte>, d: Doc)
      reads this, b, b.data
    {
      b.Valid() && !doneCalled && |prefix| == offset && offset + 4 <= b.l &&
      SameBut(prefix, b.Contents()[..offset], slots) && b.Contents()[offset + 4..] == EncElements(d)
    }

    /** The builders this one is a child of, from the outermost on, all in one buffer. */
    ghost predicate Above(up: seq<BSONObjBuilder>)
      reads this, up
    {
      forall u :: u in up ==> u != this && u.b == b && !u.doneCalled && u.offset + 4 <= offset
    }

    /** Carries out a script, children sharing this builder's buffer, to any depth. */
    method Run(s: Script, up: seq<BSONObjBuilder>, ghost prefix: seq<byte>, ghost d: Doc) returns (r: Result<()>)
      requires Above(up) && OpenBut(Slots(up), prefix, d)
      modifies this`doneCalled, (set u | u in up)`doneCalled, b, b.data
      ensures b.data == old(b.data) || fresh(b.data)
      ensures r.Ok? ==> Above(up) && OpenBut(Slots(up), prefix, d.Then(Built(s)))
      ensures 2 * (offset + |EncDoc(d.Then(Built(s)))|) <= BUFFER_MAX_SIZE ==> r.Ok?
      decreases s, 0
    {
      EncElementsOfThen(d, Built(s));
      match s {
        case Stop =>
          ThenNil(d);
          return Ok(());
        case Put(name, v, next) =>
          var e := Element(name, v);
          SnocThen(d, e, Built(next));
          var _ :- Put(e, b.Contents()[..offset], d);
          r := Run(next, up, prefix, Snoc(d, e));
        case Peek(k, next) =>
          var _ :- PeekAt(k, up, prefix, d);
          r := Run(next, up, prefix, d);
        case Nest(name, isArray, body, next) =>
          var e := Nested(name, isArray, Built(body));
          SnocThen(d, e, Built(next));
          NestedSize(name, isArray, Built(body));
          var _ :- RunChild(name, isArray, body, up, prefix, d);
          r := Run(next, up, prefix, Snoc(d, e));
      }
    }

    /** Peeks at this builder or at one above. */
    method PeekAt(k: nat, up: seq<BSONObjBuilder>, ghost prefix: seq<byte>, ghost d: Doc) returns (r: Result<()>)
      requires Above(up) && OpenBut(Slots(up), prefix, d)
      modifies this`doneCalled, (set u | u in up)`doneCalled, b, b.data
      ensures b.data == old(b.data) || fresh(b.data)
      ensures r.Ok? ==> Above(up) && OpenBut(Slots(up), prefix, d)
      ensures 2 * (offset + |EncDoc(d)|) <= BUFFER_MAX_SIZE ==> r.Ok?
    {
      ghost var before := b.Contents();
      if k == 0 {
        SizedAt(before, offset);
        var _ :- AsTempObj();
      } else if k <= |up| {
        var u := up[|up| - k];
        SizedAt(before, u.offset);
        SizedSame(prefix, before, offset, u.offset, Slots(up));
        assert Sized(before, u.offset)[offset + 4..] == before[offset + 4..];
        var _ :- u.AsTempObj();
      }
      return Ok(());
    }

    /** `subobjStart` or `subarrayStart`, then a child builder over the same buffer. */
    method RunChild(name: seq<byte>, isArray: bool, body: Script, up: seq<BSONObjBuilder>,
                    ghost prefix: seq<byte>, ghost d: Doc) returns (r: Result<()>)
      requires Above(up) && OpenBut(Slots(up), prefix, d)
      modifies this`doneCalled, (set u | u in up)`doneCalled, b, b.data
      ensures b.data == old(b.data) || fresh(b.data)
      ensures r.Ok? ==> Above(up) && OpenBut(Slots(up), prefix, Snoc(d, Nested(name, isArray, Built(body))))
      ensures 2 * (old(b.l) + |name| + 2 + |EncElements(Built(body))| + 5) <= BUFFER_MAX_SIZE ==> r.Ok?
      decreases body, 2
    {
      ghost var before := b.Contents();
      var _ :- AppendHeader(if isArray then 4 else 3, name);
      ghost var header := b.Contents();
      var _ :- BuildOver(b, body, up + [this]);
      ghost var now := b.Contents()[..|header|];
      SlotsOfChild(up);
      AfterChild(prefix, before, [if isArray then 4 else 3] + name + [0], now, offset, Slots(up));
      Extended(now[..|before|], now, now[..offset], name, isArray, d, Built(body));
      return Ok(());
    }

    lemma SlotsOfChild(up: seq<BSONObjBuilder>)
      requires Above(up)
      ensures Slots(up + [this]) == Slots(up) + {offset} && forall o :: o in Slots(up) ==> o + 4 <= offset
    {
      assert this in up + [this];
      assert forall u :: u in up + [this] <==> u in up || u == this;
    }

    /** A child builder from its start to `done`, over a buffer in use. */
    static method BuildOver(b: BufBuilder, body: Script, up: seq<BSONObjBuilder>) returns (r: Result<()>)
      requires b.Valid() && forall u :: u in up ==> u.b == b && !u.doneCalled && u.offset + 4 <= b.l
      modifies (set u | u in up)`doneCalled, b, b.data
      ensures b.data == old(b.data) || fresh(b.data)
      ensures r.Ok? ==> b.Valid() && forall u :: u in up ==> !u.doneCalled
      ensures r.Ok? ==> old(b.l) <= b.l && b.Contents()[old(b.l)..] == EncDoc(Built(body))
      ensures r.Ok? ==> SameBut(old(b.Contents()), b.Contents()[..old(b.l)], Slots(up))
      ensures 2 * (old(b.l) + |EncElements(Built(body))| + 5) <= BUFFER_MAX_SIZE ==> r.Ok?
      decreases body, 1
    {
      ghost var header := b.Contents();
      var child := new BSONObjBuilder.Over(b);
      var _ :- child.Start();
      SameAsItself(header, Slots(up));
      var _ :- child.Run(body, up, header, Nil);
      ghost var now := b.Contents()[..|header|];
      var _ :- child.Done(now, Built(body));
      assert (now + EncDoc(Built(body)))[..|header|] == now;
      return Ok(());
    }

    lemma Extended(before: seq<byte>, header: seq<byte>, prefix: seq<byte>, name: seq<byte>, isArray: bool,
                   d: Doc, sub: Doc)
      requires offset + 4 <= |before| && before[offset + 4..] == EncElements(d) && before[..offset] == prefix
      requires header == before + ([if isArray then 4 else 3] + name + [0])
      requires b.Valid() && !doneCalled && |prefix| == offset && b.Contents() == header + EncDoc(sub)
      ensures Open(prefix, Snoc(d, Nested(name, isArray, sub)))
    {
      var e := Nested(name, isArray, sub);
      NestedSize(name, isArray, sub);
      assert header + EncDoc(sub) == before + EncElement(e);
      OneMore(before, prefix, d, e);
    }

    /** Adds a finished object's bytes as a member. */
    method AppendObject(name: seq<byte>, isArray: bool, bytes: seq<byte>, ghost sub: Doc,
                        ghost prefix: seq<byte>, ghost d: Doc) returns (r: Result<()>)
      requires Open(prefix, d) && bytes == EncDoc(sub)
      modifies b, b.data
      ensures b.data == old(b.data) || fresh(b.data)
      ensures var e := Nested(name, isArray, sub);
              (r.Ok? ==> Open(prefix, Snoc(d, e))) &&
              (2 * (old(b.l) + |EncElement(e)|) <= BUFFER_MAX_SIZE ==> r.Ok?)
    {
      NestedSize(name, isArray, sub);
      ghost var before := b.Contents();
      var _ :- AppendHeader(if isArray then 4 else 3, name);
      ghost var header := b.Contents();
      var _ :- b.AppendBuf(bytes);
      Extended(before, header, prefix, name, isArray, d, sub);
      return Ok(());
    }
  }

  function Snoc(d: Doc, e: Element): Doc
  {
    d.Then(Cons(e, Nil))
  }

  lemma EncElementsOfSnoc(d: Doc, e: Element)
    ensures EncElements(Snoc(d, e)) == EncElements(d) + EncElement(e)
  {
    EncElementsOfThen(d, Cons(e, Nil));
    assert EncElements(Cons(e, Nil)) == EncElement(e) + [];
  }

  lemma {:induction false} ThenNil(d: Doc)
    ensures d.Then(Nil) == d
  {
    if d.Cons? {
      ThenNil(d.tail);
    }
  }

  lemma {:induction false} SnocThen(d: Doc, e: Element, rest: Doc)
    ensures Snoc(d, e).Then(rest) == d.Then(Cons(e, rest))
  {
    if d.Cons? {
      SnocThen(d.tail, e, rest);
    }
  }

  /** The whole object, every child built in the buffer of its parent. */
  method BuildInPlace(s: Script, initsize: nat) returns (r: Result<seq<byte>>)
    ensures r.Ok? ==> r.value == EncDoc(Built(s))
    ensures Fits(Built(s)) ==> r.Ok?
  {
    var bld := new BSONObjBuilder(initsize);
    ghost var prefix := bld.b.Contents()[..4];
    SameAsItself(prefix, {});
    var _ :- bld.Run(s, [], prefix, Nil);
    SameButNothing(prefix, bld.b.Contents()[..4]);
    var at :- bld.Done(prefix, Built(s));
    return Ok(bld.b.data[at..bld.b.l]);
  }

  /** The whole object, every child built on its own and copied into its parent. */
  method BuildByCopying(s: Script, initsize: nat) returns (r: Result<seq<byte>>)
    ensures r.Ok? ==> r.value == EncDoc(Built(s))
    ensures Fits(Built(s)) ==> r.Ok?
    decreases s, 1
  {
    var bld := new BSONObjBuilder(initsize);
    ghost var prefix := bld.b.Contents()[..4];
    var _ :- PutAllByCopying(bld, s, prefix, Nil);
    var at :- bld.Done(prefix, Built(s));
    return Ok(bld.b.data[at..bld.b.l]);
  }

  method PutAllByCopying(bld: BSONObjBuilder, s: Script, ghost prefix: seq<byte>, ghost d: Doc)
      returns (r: Result<()>)
    requires bld.Open(prefix, d) && bld.offset == 4
    modifies bld.b, bld.b.data
    ensures bld.b.data == old(bld.b.data) || fresh(bld.b.data)
    ensures r.Ok? ==> bld.Open(prefix, d.Then(Built(s)))
    ensures Fits(d.Then(Built(s))) ==> r.Ok?
    decreases s, 0
  {
    EncElementsOfThen(d, Built(s));
    match s {
      case Stop =>
        ThenNil(d);
        return Ok(());
      case Put(name, v, next) =>
        var e := Element(name, v);
        SnocThen(d, e, Built(next));
        var _ :- bld.Put(e, prefix, d);
        r := PutAllByCopying(bld, next, prefix, Snoc(d, e));
      case Peek(_, next) =>
        r := PutAllByCopying(bld, next, prefix, d);
      case Nest(name, isArray, body, next) =>
        ghost var e := Nested(name, isArray, Built(body));
        SnocThen(d, e, Built(next));
        NestedSize(name, isArray, Built(body));
        var sub :- BuildByCopying(body, 512);
        var _ :- bld.AppendObject(name, isArray, sub, Built(body), prefix, d);
        r := PutAllByCopying(bld, next, prefix, Snoc(d, e));
    }
  }

  /** Both ways give the same bytes, and they read back as the document of the script. */
  method BothWays(s: Script) returns (inPlace: seq<byte>, copied: seq<byte>)
    requires WfDoc(Built(s)) && Fits(Built(s))
    ensures inPlace == copied && ParseDoc(inPlace, 0, |inPlace|) == Some(Built(s))
  {
    var a := BuildInPlace(s, 512);
    var c := BuildByCopying(s, 512);
    ParseWhole(a.value, Built(s));
    return a.value, c.value;
  }
}
