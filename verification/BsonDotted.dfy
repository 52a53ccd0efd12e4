/** `nested2dotted`, which flattens embedded objects into dotted names, and `getFieldDotted`,
    which looks a dotted name up. */
module BsonDotted {
  import opened Bytes
  import opened BsonFormat
  import opened BsonIterator
  import opened BsonBuilder

  const DOT: byte := 46

  // ----- lookup -----

  /** `getField`: the first field of that name, or EOO. */
  function GetField(d: Doc, name: seq<byte>): Element
  {
    if d.Nil? then END else if d.head.name == name then d.head else GetField(d.tail, name)
  }

  /** It is the first field that has the name, and EOO only if none has. */
  lemma {:induction false} GetFieldFirst(d: Doc, name: seq<byte>) returns (i: nat)
    ensures i <= d.Length() && forall j :: 0 <= j < i ==> d.Field(j).name != name
    ensures GetField(d, name) == if i < d.Length() then d.Field(i) else END
    ensures i < d.Length() ==> d.Field(i).name == name
  {
    i := 0;
    if d.Cons? && d.head.name != name {
      var k := GetFieldFirst(d.tail, name);
      i := k + 1;
      forall j | 0 <= j < i
        ensures d.Field(j).name != name
      {
        if j > 0 {
          assert d.Field(j) == d.tail.Field(j - 1);
        }
      }
    }
  }

  /** `getObjectField`: the embedded object or array of that name, or an empty object. */
  function GetObjectField(d: Doc, name: seq<byte>): Doc
  {
    var v := GetField(d, name).value;
    if v.Object? || v.Array? then v.doc else Nil
  }

  /** Index of the first dot, or the length. */
  function DotAt(name: seq<byte>): (p: nat)
    ensures p <= |name| && forall i :: 0 <= i < p ==> name[i] != DOT
    ensures p < |name| ==> name[p] == DOT
  {
    DotFrom(name, 0)
  }

  function DotFrom(name: seq<byte>, i: nat): (p: nat)
    requires i <= |name| && forall k :: 0 <= k < i ==> name[k] != DOT
    ensures i <= p <= |name| && forall k :: 0 <= k < p ==> name[k] != DOT
    ensures p < |name| ==> name[p] == DOT
    decreases |name| - i
  {
    if i == |name| || name[i] == DOT then i else DotFrom(name, i + 1)
  }

  /** `getFieldDotted`: the field of the whole name if there is one, else the rest of the name
      after its first dot in the object of the part before. */
  function GetFieldDotted(d: Doc, name: seq<byte>): Element
    decreases |name|
  {
    var e := GetField(d, name);
    if !e.value.EOO? then e
    else
      var p := DotAt(name);
      if p == |name| then e
      else
        var sub := GetObjectField(d, name[..p]);
        if sub.Nil? then END else GetFieldDotted(sub, name[p + 1..])
  }

  /** `getField` over an object's bytes. */
  method FindField(data: seq<byte>, base: nat, name: seq<byte>, ghost d: Doc) returns (r: Element)
    requires WfDoc(d) && Fits(d) && At(data, base, EncDoc(d))
    ensures r == GetField(d, name)
  {
    var i := new BSONObjIterator(data, base, d);
    while i.More()
      invariant fresh(i) && i.Valid() && i.rest.Some? && GetField(i.rest.value, name) == GetField(d, name)
      decreases |data| - i.pos
    {
      var e := i.Next();
      if e.value.name == name {
        return e.value;
      }
    }
    return END;
  }

  // ----- flattening -----

  /** What `nested2dotted` appends for `d` under the prefix `base`. */
  function Flatten(d: Doc, base: seq<byte>): Doc
    decreases d
  {
    if d.Nil? then Nil
    else
      var rest := Flatten(d.tail, base);
      if d.head.value.Object? then Flatten(d.head.value.doc, base + d.head.name + [DOT]).Then(rest)
      else Cons(Element(base + d.head.name, d.head.value), rest)
  }

  /** A value that is no Object, and the names on the way to it. */
  datatype Leaf = Leaf(path: seq<seq<byte>>, value: Value)

  /** All of them, depth first. */
  function Leaves(d: Doc): seq<Leaf>
    decreases d
  {
    if d.Nil? then []
    else
      (if d.head.value.Object? then Under(d.head.name, Leaves(d.head.value.doc))
       else [Leaf([d.head.name], d.head.value)]) + Leaves(d.tail)
  }

  function Under(name: seq<byte>, ls: seq<Leaf>): seq<Leaf>
  {
    seq(|ls|, i requires 0 <= i < |ls| => Leaf([name] + ls[i].path, ls[i].value))
  }

  /** The names of a path with a dot, byte 46, between any two. */
  function Join(path: seq<seq<byte>>): seq<byte>
  {
    if |path| == 0 then [] else if |path| == 1 then path[0] else path[0] + [46] + Join(path[1..])
  }

  lemma {:induction false} LeavesHavePaths(d: Doc)
    ensures forall i :: 0 <= i < |Leaves(d)| ==> |Leaves(d)[i].path| >= 1
    decreases d
  {
    if d.Cons? {
      LeavesHavePaths(d.tail);
      if d.head.value.Object? {
        LeavesHavePaths(d.head.value.doc);
      }
    }
  }

  lemma JoinUnder(name: seq<byte>, path: seq<seq<byte>>)
    requires |path| >= 1
    ensures Join([name] + path) == name + [DOT] + Join(path)
  {
    assert ([name] + path)[1..] == path;
  }

  function Dotted(ls: seq<Leaf>, base: seq<byte>): seq<Element>
  {
    seq(|ls|, i requires 0 <= i < |ls| => Element(base + Join(ls[i].path), ls[i].value))
  }

  lemma {:induction false} ToSeqOfThen(a: Doc, b: Doc)
    ensures ToSeq(a.Then(b)) == ToSeq(a) + ToSeq(b)
  {
    if a.Cons? {
      ToSeqOfThen(a.tail, b);
    }
  }

  /** The flattened document lists exactly the leaves, depth first, each under its dotted
      path. */
  lemma {:induction false} FlattenListsLeaves(d: Doc, base: seq<byte>)
    ensures ToSeq(Flatten(d, base)) == Dotted(Leaves(d), base)
    decreases d
  {
    if d.Cons? {
      FlattenListsLeaves(d.tail, base);
      var name, v := d.head.name, d.head.value;
      if v.Object? {
        var ls := Leaves(v.doc);
        FlattenListsLeaves(v.doc, base + name + [DOT]);
        ToSeqOfThen(Flatten(v.doc, base + name + [DOT]), Flatten(d.tail, base));
        LeavesHavePaths(v.doc);
        forall i | 0 <= i < |ls|
          ensures Dotted(Under(name, ls), base)[i] == Dotted(ls, base + name + [DOT])[i]
        {
          JoinUnder(name, ls[i].path);
          assert base + (name + [DOT] + Join(ls[i].path)) == base + name + [DOT] + Join(ls[i].path);
        }
        assert Dotted(Under(name, ls), base) == Dotted(ls, base + name + [DOT]);
        DottedOfConcat(Under(name, ls), Leaves(d.tail), base);
      } else {
        DottedOfConcat([Leaf([name], v)], Leaves(d.tail), base);
        assert Dotted([Leaf([name], v)], base) == [Element(base + name, v)];
      }
    }
  }

  lemma DottedOfConcat(a: seq<Leaf>, b: seq<Leaf>, base: seq<byte>)
    ensures Dotted(a + b, base) == Dotted(a, base) + Dotted(b, base)
  {
  }

  // ----- each listed name finds its leaf -----

  predicate DotFree(name: seq<byte>)
  {
    DOT !in name
  }

  /** Dot-free names, unique at each level of embedded objects. */
  predicate PlainNames(d: Doc)
    decreases d
  {
    d.Cons? ==>
      DotFree(d.head.name) && GetField(d.tail, d.head.name) == END &&
      (d.head.value.Object? ==> PlainNames(d.head.value.doc)) && PlainNames(d.tail)
  }

  lemma {:induction false} NoDottedField(d: Doc, name: seq<byte>)
    requires PlainNames(d) && DOT in name
    ensures GetField(d, name) == END
    decreases d
  {
    if d.Cons? {
      NoDottedField(d.tail, name);
    }
  }

  lemma DotAfter(left: seq<byte>, right: seq<byte>)
    requires DotFree(left)
    ensures var name := left + [DOT] + right;
            DotAt(name) == |left| && name[..|left|] == left && name[|left| + 1..] == right && DOT in name
  {
    var name := left + [DOT] + right;
    assert name[|left|] == DOT;
    forall i | 0 <= i < |left| ensures name[i] != DOT {
      assert name[i] == left[i];
    }
  }

  /** Fields before the one a path starts with do not matter. */
  lemma SkipField(d: Doc, path: seq<seq<byte>>)
    requires PlainNames(d) && d.Cons? && |path| >= 1 && path[0] != d.head.name && DotFree(path[0])
    ensures GetFieldDotted(d, Join(path)) == GetFieldDotted(d.tail, Join(path))
  {
    if |path| > 1 {
      DotAfter(path[0], Join(path[1..]));
      NoDottedField(d, Join(path));
      NoDottedField(d.tail, Join(path));
    }
  }

  lemma {:induction false} LeafStartsAtField(d: Doc, i: nat)
    requires PlainNames(d) && WfDoc(d) && i < |Leaves(d)|
    ensures var path := Leaves(d)[i].path;
            |path| >= 1 && DotFree(path[0]) && !GetField(d, path[0]).value.EOO?
    decreases d
  {
    var n := HeadLeaves(d);
    WfHead(d);
    if i >= n {
      LeafStartsAtField(d.tail, i - n);
    } else {
      assert Leaves(d)[i].path[0] == d.head.name;
    }
  }

  lemma WfHead(d: Doc)
    requires WfDoc(d) && d.Cons?
    ensures !d.head.value.EOO? && NulFree(d.head.name)
    ensures d.head.value.Object? || d.head.value.Array? ==> WfDoc(d.head.value.doc)
  {
    var v := d.head.value;
    assert WfElement(d.head);
    assert WfValue(v);
    match v
    case Object(sub) => assert WfDoc(sub);
    case Array(sub) => assert WfDoc(sub);
    case _ =>
  }

  /** How many leaves the first field contributes. */
  function HeadLeaves(d: Doc): nat
    requires d.Cons?
  {
    if d.head.value.Object? then |Leaves(d.head.value.doc)| else 1
  }

  /** Each name `nested2dotted` lists gives back its leaf under `getFieldDotted`. */
  lemma {:induction false} LookupFindsLeaf(d: Doc, i: nat)
    requires PlainNames(d) && WfDoc(d) && i < |Leaves(d)|
    ensures var l := Leaves(d)[i];
            |l.path| >= 1 && GetFieldDotted(d, Join(l.path)) == Element(l.path[|l.path| - 1], l.value)
    decreases d
  {
    var l := Leaves(d)[i];
    var n := HeadLeaves(d);
    LeafStartsAtField(d, i);
    WfHead(d);
    if i >= n {
      LookupFindsLeaf(d.tail, i - n);
      LeafStartsAtField(d.tail, i - n);
      SkipField(d, l.path);
    } else if d.head.value.Object? {
      var sub := d.head.value.doc;
      var m := Leaves(sub)[i];
      LookupFindsLeaf(sub, i);
      assert l.path == [d.head.name] + m.path;
      JoinUnder(d.head.name, m.path);
      DotAfter(d.head.name, Join(m.path));
      NoDottedField(d, Join(l.path));
    }
  }

  // ----- paths -----

  /** No name has a dot, in embedded objects and arrays either. */
  predicate Undotted(d: Doc)
    decreases d
  {
    d.Cons? ==>
      DotFree(d.head.name) && Undotted(d.tail) &&
      (d.head.value.Object? || d.head.value.Array? ==> Undotted(d.head.value.doc))
  }

  /** The field a path leads to, through objects and arrays; END where it leads nowhere. */
  function Walk(d: Doc, path: seq<seq<byte>>): Element
    requires path != []
    decreases |path|
  {
    var e := GetField(d, path[0]);
    if |path| == 1 then e
    else
      match e.value
      case Object(sub) => Walk(sub, path[1..])
      case Array(sub) => Walk(sub, path[1..])
      case _ => END
  }

  lemma {:induction false} UndottedField(d: Doc, name: seq<byte>)
    requires Undotted(d)
    ensures DOT in name ==> GetField(d, name) == END
    ensures var v := GetField(d, name).value; v.Object? || v.Array? ==> Undotted(v.doc)
  {
    if d.Cons? {
      UndottedField(d.tail, name);
    }
  }

  /** Looking a dotted name up is walking its path, and gives END exactly where the walk does. */
  lemma {:induction false} LookupWalks(d: Doc, path: seq<seq<byte>>)
    requires Undotted(d) && WfDoc(d) && path != [] && forall i :: 0 <= i < |path| ==> DotFree(path[i])
    ensures GetFieldDotted(d, Join(path)) == Walk(d, path)
    decreases |path|
  {
    if |path| > 1 {
      var first, rest := path[0], path[1..];
      DotAfter(first, Join(rest));
      UndottedField(d, Join(path));
      UndottedField(d, first);
      WfFound(d, first);
      var v := GetField(d, first).value;
      if v.Object? || v.Array? {
        LookupWalks(v.doc, rest);
        WalkOfNothing(rest);
      }
    } else {
      NoDot(path[0]);
    }
  }

  lemma NoDot(name: seq<byte>)
    requires DotFree(name)
    ensures DotAt(name) == |name|
  {
  }

  lemma WalkOfNothing(path: seq<seq<byte>>)
    requires path != []
    ensures Walk(Nil, path) == END
  {
  }

  lemma {:induction false} WfFound(d: Doc, name: seq<byte>)
    requires WfDoc(d)
    ensures var e := GetField(d, name);
      (e.value.EOO? <==> e == END) && (e.value.Object? || e.value.Array? ==> WfDoc(e.value.doc))
  {
    if d.Cons? {
      WfHead(d);
      WfFound(d.tail, name);
    }
  }

  // ----- writing the flattened object -----

  /** `appendAs`: an element's type and value bytes under a new name. */
  method AppendAs(b: BSONObjBuilder, data: seq<byte>, at: nat, size: nat, newName: seq<byte>, ghost e: Element,
                  ghost prefix: seq<byte>, ghost d: Doc) returns (r: Result<()>)
    requires b.Open(prefix, d) && NulFree(e.name) && At(data, at, EncElement(e)) && size == |EncElement(e)|
    modifies b.b, b.b.data
    ensures b.b.data == old(b.b.data) || fresh(b.b.data)
    ensures r.Ok? ==> b.Open(prefix, Snoc(d, Element(newName, e.value)))
    ensures 2 * (b.offset + |EncDoc(Snoc(d, Element(newName, e.value)))|) <= BUFFER_MAX_SIZE ==> r.Ok?
  {
    RoomFor(d, Element(newName, e.value));
    ElementAt(data, at, e);
    var value := StrEnd(data, at + 1) + 1;
    AtSlice(data, value, EncValue(e.value));
    ghost var before := b.b.Contents();
    var _ :- b.AppendHeader(data[at], newName);
    var _ :- b.b.AppendBuf(data[value..at + size]);
    ghost var f := Element(newName, e.value);
    HeaderThenValue(before, f);
    b.OneMore(before, prefix, d, f);
    return Ok(());
  }

  lemma HeaderThenValue(before: seq<byte>, e: Element)
    ensures before + ([TypeByte(e.value)] + e.name + [0]) + EncValue(e.value) == before + EncElement(e)
  {
  }

  lemma RoomFor(d: Doc, e: Element)
    ensures |EncDoc(Snoc(d, e))| == |EncElements(d)| + |e.name| + 2 + |EncValue(e.value)| + 5
  {
    EncElementsOfSnoc(d, e);
    assert |EncElement(e)| == |e.name| + 2 + |EncValue(e.value)|;
  }

  /** The bytes of a beginning are no more than those of the whole. */
  lemma RoomForMore(d: Doc, rest: Doc)
    ensures |EncDoc(d)| <= |EncDoc(d.Then(rest))|
  {
    EncElementsOfThen(d, rest);
  }

  /** What `nested2dotted` appends for one field. */
  function FlattenField(e: Element, base: seq<byte>): Doc
  {
    if e.value.Object? then Flatten(e.value.doc, base + e.name + [DOT])
    else Cons(Element(base + e.name, e.value), Nil)
  }

  lemma FlattenFirst(d: Doc, base: seq<byte>)
    requires d.Cons?
    ensures Flatten(d, base) == FlattenField(d.head, base).Then(Flatten(d.tail, base))
  {
  }

  /** `nested2dotted(b, obj, base)` for the object at `start` in `data`. */
  method Nested2Dotted(b: BSONObjBuilder, data: seq<byte>, start: nat, base: seq<byte>, ghost obj: Doc,
                       ghost prefix: seq<byte>, ghost d: Doc) returns (r: Result<()>)
    requires WfDoc(obj) && Fits(obj) && At(data, start, EncDoc(obj))
    requires b.Open(prefix, d)
    modifies b.b, b.b.data
    ensures b.b.data == old(b.b.data) || fresh(b.b.data)
    ensures r.Ok? ==> b.Open(prefix, d.Then(Flatten(obj, base)))
    ensures 2 * (b.offset + |EncDoc(d.Then(Flatten(obj, base)))|) <= BUFFER_MAX_SIZE ==> r.Ok?
    decreases obj, 1
  {
    var it := new BSONObjIterator(data, start, obj);
    ghost var todo, done := obj, d;
    ghost var goal := d.Then(Flatten(obj, base));
    while it.More()
      invariant fresh(it) && it.Valid() && it.rest == Some(todo) && it.data == data
      invariant todo == obj || todo < obj
      invariant b.b.data == old(b.b.data) || fresh(b.b.data)
      invariant b.Open(prefix, done)
      invariant done.Then(Flatten(todo, base)) == goal
      decreases |data| - it.pos
    {
      var at := it.pos;
      it.Arrive();
      var next := it.Next();
      FlattenFirst(todo, base);
      ThenThen(done, FlattenField(todo.head, base), Flatten(todo.tail, base));
      RoomForMore(done.Then(FlattenField(todo.head, base)), Flatten(todo.tail, base));
      var _ :- PutFlattened(b, data, at, it.pos - at, base, next.value, prefix, done);
      done := done.Then(FlattenField(todo.head, base));
      todo := todo.tail;
    }
    ThenNil(done);
    return Ok(());
  }

  /** One field: recurse into an Object, append anything else under its dotted name. */
  method PutFlattened(b: BSONObjBuilder, data: seq<byte>, at: nat, size: nat, base: seq<byte>, e: Element,
                      ghost prefix: seq<byte>, ghost d: Doc) returns (r: Result<()>)
    requires WfElement(e) && At(data, at, EncElement(e)) && size == |EncElement(e)|
    requires size <= BSON_OBJ_MAX_INTERNAL_SIZE && b.Open(prefix, d)
    modifies b.b, b.b.data
    ensures b.b.data == old(b.b.data) || fresh(b.b.data)
    ensures r.Ok? ==> b.Open(prefix, d.Then(FlattenField(e, base)))
    ensures 2 * (b.offset + |EncDoc(d.Then(FlattenField(e, base)))|) <= BUFFER_MAX_SIZE ==> r.Ok?
    decreases e, 0
  {
    if e.value.Object? {
      ElementAt(data, at, e);
      var sub := StrEnd(data, at + 1) + 1;
      r := Nested2Dotted(b, data, sub, base + e.name + [DOT], e.value.doc, prefix, d);
    } else {
      r := AppendAs(b, data, at, size, base + e.name, e, prefix, d);
    }
  }

  lemma {:induction false} ThenThen(a: Doc, b: Doc, c: Doc)
    ensures a.Then(b).Then(c) == a.Then(b.Then(c))
  {
    if a.Cons? {
      ThenThen(a.tail, b, c);
    }
  }
}
