/** The loops over two objects' bytes: both `woCompare`s, `equal` and `binaryEqual`, and how the
    three notions of equality relate. */
module BsonEquality {
  import opened Bytes
  import opened BsonFormat
  import opened Numbers
  import opened BsonCompare
  import opened BsonOrder
  import opened BsonMeaning
  import opened BsonIterator
  import Words

  /** `objsize() <= 5`. */
  predicate IsEmpty(data: seq<byte>, base: nat)
    requires base + 4 <= |data|
  {
    ReadInt(data, base) <= 5
  }

  lemma IsEmptyOfEnc(data: seq<byte>, base: nat, d: Doc)
    requires WfDoc(d) && Fits(d) && At(data, base, EncDoc(d))
    ensures base + 4 <= |data| && (IsEmpty(data, base) <==> d.Nil?)
  {
    DocAt(data, base, d);
    if d.Cons? {
      assert |EncElement(d.head)| >= 2;
    }
  }

  function HeadOr(d: Doc): Element
  {
    if d.Nil? then END else d.head
  }

  function Advanced(d: Doc): Option<Doc>
  {
    if d.Nil? then None else Some(d.tail)
  }

  /** The next element of either object. */
  method NextPair(i: BSONObjIterator, j: BSONObjIterator) returns (l: Element, r: Element)
    requires i != j && i.Valid() && j.Valid() && i.rest.Some? && j.rest.Some?
    modifies i, j
    ensures i.Valid() && j.Valid()
    ensures l == HeadOr(old(i.rest).value) && i.rest == Advanced(old(i.rest).value)
    ensures r == HeadOr(old(j.rest).value) && j.rest == Advanced(old(j.rest).value)
    ensures (l.value.EOO? <==> old(i.rest).value.Nil?) && (r.value.EOO? <==> old(j.rest).value.Nil?)
  {
    var li := i.Next();
    var rj := j.Next();
    return li.value, rj.value;
  }

  /** One turn of the loop below: the answer, or that the next elements compare equal. */
  method CompareNextOrdered(i: BSONObjIterator, j: BSONObjIterator, bits: Words.word, mask: Words.word,
                            considerFieldName: bool) returns (decided: Option<Result<int>>)
    requires i != j && i.Valid() && j.Valid() && i.rest.Some? && j.rest.Some?
    modifies i, j
    ensures i.Valid() && j.Valid()
    ensures var ra, rb := old(i.rest).value, old(j.rest).value;
            var answer := CompareDocs(ra, rb, ByOrdering(bits, mask), considerFieldName);
            if decided.Some? then answer == decided.value
            else ra.Cons? && rb.Cons? && i.rest == Some(ra.tail) && j.rest == Some(rb.tail) &&
                 answer == CompareDocs(ra.tail, rb.tail, ByOrdering(bits, Words.Doubled(mask)), considerFieldName)
  {
    var l, r := NextPair(i, j);
    if l.value.EOO? {
      return Some(Ok(if r.value.EOO? then 0 else -1));
    }
    if r.value.EOO? {
      return Some(Ok(1));
    }
    match WoCompare(l, r, considerFieldName) {
      case Threw(c) => return Some(Threw(c));
      case Ok(x) =>
        if x != 0 {
          return Some(Ok(if Words.And(bits, mask) != 0 then -x else x));
        }
    }
    return None;
  }

  /** `woCompare` with an Ordering, over the bytes of both objects. */
  method WoCompareOrdered(a: seq<byte>, abase: nat, b: seq<byte>, bbase: nat, bits: Words.word, considerFieldName: bool,
                          ghost da: Doc, ghost db: Doc) returns (r: Result<int>)
    requires WfDoc(da) && Fits(da) && At(a, abase, EncDoc(da))
    requires WfDoc(db) && Fits(db) && At(b, bbase, EncDoc(db))
    ensures r == CompareOrdered(da, db, bits, considerFieldName)
  {
    IsEmptyOfEnc(a, abase, da);
    IsEmptyOfEnc(b, bbase, db);
    if IsEmpty(a, abase) {
      return Ok(if IsEmpty(b, bbase) then 0 else -1);
    }
    if IsEmpty(b, bbase) {
      return Ok(1);
    }
    var i := new BSONObjIterator(a, abase, da);
    var j := new BSONObjIterator(b, bbase, db);
    var mask := Words.Bit(0);
    ghost var ra, rb := da, db;
    ghost var goal := CompareOrdered(da, db, bits, considerFieldName);
    while true
      invariant fresh(i) && fresh(j) && i != j && i.Valid() && j.Valid()
      invariant i.rest == Some(ra) && j.rest == Some(rb)
      invariant CompareDocs(ra, rb, ByOrdering(bits, mask), considerFieldName) == goal
      decreases ra
    {
      var decided := CompareNextOrdered(i, j, bits, mask, considerFieldName);
      if decided.Some? {
        return decided.value;
      }
      mask := Words.Doubled(mask);
      ra, rb := ra.tail, rb.tail;
    }
  }

  /** The next field of a key pattern: whether its number is negative. */
  method KeyTurn(k: BSONObjIterator) returns (r: Result<bool>)
    requires k.Valid()
    modifies k
    ensures k.Valid()
    ensures match Turn(ByKey(Left(old(k.rest))))
            case Threw(c) => r == Threw(c)
            case Ok((descends, next)) => r == Ok(descends) && next == ByKey(Left(k.rest))
    ensures match old(k.rest)
            case None => r == Threw(ASSERT)
            case Some(Nil) => r == Ok(false)
            case Some(Cons(e, _)) => r == Ok(Negative(e.value))
  {
    if k.rest.Some? && k.rest.value.Cons? {
      DescendsIff(k.rest.value.head);
    }
    var o :- k.Next();
    return Ok(Descends(o));
  }

  /** The direction a key gives for the next field; without a key, up. */
  function DirectionOf(ordered: bool, rest: Option<Doc>): Direction
  {
    if ordered then ByKey(Left(rest)) else Plain
  }

  /** The next element of either object, and the direction of the key's next field. */
  method NextKeyed(i: BSONObjIterator, j: BSONObjIterator, k: BSONObjIterator, ordered: bool)
      returns (l: Element, r: Element, descends: Result<bool>)
    requires i != j && i != k && j != k && i.Valid() && j.Valid() && k.Valid() && i.rest.Some? && j.rest.Some?
    modifies i, j, k
    ensures i.Valid() && j.Valid() && k.Valid()
    ensures l == HeadOr(old(i.rest).value) && i.rest == Advanced(old(i.rest).value)
    ensures r == HeadOr(old(j.rest).value) && j.rest == Advanced(old(j.rest).value)
    ensures (l.value.EOO? <==> old(i.rest).value.Nil?) && (r.value.EOO? <==> old(j.rest).value.Nil?)
    ensures match Turn(DirectionOf(ordered, old(k.rest)))
            case Threw(c) => descends == Threw(c)
            case Ok((d, next)) => descends == Ok(d) && next == DirectionOf(ordered, k.rest)
  {
    l, r := NextPair(i, j);
    if ordered {
      descends := KeyTurn(k);
    } else {
      descends := Ok(false);
    }
  }

  /** One turn of the loop below: the answer, or that the next elements compare equal. */
  method CompareNext(i: BSONObjIterator, j: BSONObjIterator, k: BSONObjIterator, ordered: bool,
                     considerFieldName: bool) returns (decided: Option<Result<int>>)
    requires i != j && i != k && j != k && i.Valid() && j.Valid() && k.Valid() && i.rest.Some? && j.rest.Some?
    modifies i, j, k
    ensures i.Valid() && j.Valid() && k.Valid()
    ensures var ra, rb := old(i.rest).value, old(j.rest).value;
            var answer := CompareDocs(ra, rb, DirectionOf(ordered, old(k.rest)), considerFieldName);
            if decided.Some? then answer == decided.value
            else ra.Cons? && rb.Cons? && i.rest == Some(ra.tail) && j.rest == Some(rb.tail) &&
                 answer == CompareDocs(ra.tail, rb.tail, DirectionOf(ordered, k.rest), considerFieldName)
  {
    var l, r, turn := NextKeyed(i, j, k, ordered);
    if turn.Threw? {
      return Some(Threw(turn.code));
    }
    if l.value.EOO? {
      return Some(Ok(if r.value.EOO? then 0 else -1));
    }
    if r.value.EOO? {
      return Some(Ok(1));
    }
    match WoCompare(l, r, considerFieldName) {
      case Threw(c) => return Some(Threw(c));
      case Ok(x) =>
        if x != 0 {
          return Some(Ok(if turn.value then -x else x));
        }
    }
    return None;
  }

  /** `woCompare` with a key pattern, over the bytes of all three objects. */
  method WoCompareByKey(a: seq<byte>, abase: nat, b: seq<byte>, bbase: nat, idxKey: seq<byte>, kbase: nat,
                        considerFieldName: bool, ghost da: Doc, ghost db: Doc, ghost key: Doc)
      returns (r: Result<int>)
    requires WfDoc(da) && Fits(da) && At(a, abase, EncDoc(da))
    requires WfDoc(db) && Fits(db) && At(b, bbase, EncDoc(db))
    requires WfDoc(key) && Fits(key) && At(idxKey, kbase, EncDoc(key))
    ensures r == CompareByKey(da, db, key, considerFieldName)
  {
    IsEmptyOfEnc(a, abase, da);
    IsEmptyOfEnc(b, bbase, db);
    IsEmptyOfEnc(idxKey, kbase, key);
    if IsEmpty(a, abase) {
      return Ok(if IsEmpty(b, bbase) then 0 else -1);
    }
    if IsEmpty(b, bbase) {
      return Ok(1);
    }
    var ordered := !IsEmpty(idxKey, kbase);
    var i := new BSONObjIterator(a, abase, da);
    var j := new BSONObjIterator(b, bbase, db);
    var k := new BSONObjIterator(idxKey, kbase, key);
    ghost var ra, rb := da, db;
    ghost var goal := CompareByKey(da, db, key, considerFieldName);
    while true
      modifies i, j, k
      invariant i.Valid() && j.Valid() && k.Valid()
      invariant i.rest == Some(ra) && j.rest == Some(rb)
      invariant CompareDocs(ra, rb, DirectionOf(ordered, k.rest), considerFieldName) == goal
      decreases ra
    {
      var decided := CompareNext(i, j, k, ordered, considerFieldName);
      if decided.Some? {
        return decided.value;
      }
      ra, rb := ra.tail, rb.tail;
    }
  }

  /** What is left of a key, as directions. */
  function Left(rest: Option<Doc>): Option<Signs>
  {
    if rest.None? then None else Some(KeySigns(rest.value))
  }

  // ----- equal -----

  /** `equal`: next elements until one side ends or they differ; reading past the end of the
      right-hand side asserts. */
  function EqualDocs(a: Doc, b: Doc): Result<bool>
    decreases a
  {
    if a.Nil? then Ok(b.Nil?)
    else
      match WoCompare(a.head, HeadOr(b), true)
      case Threw(c) => Threw(c)
      case Ok(x) =>
        if x != 0 then Ok(false)
        else if b.Nil? then Threw(ASSERT)
        else EqualDocs(a.tail, b.tail)
  }

  method Equal(a: seq<byte>, abase: nat, b: seq<byte>, bbase: nat, ghost da: Doc, ghost db: Doc)
      returns (r: Result<bool>)
    requires WfDoc(da) && Fits(da) && At(a, abase, EncDoc(da))
    requires WfDoc(db) && Fits(db) && At(b, bbase, EncDoc(db))
    ensures r == EqualDocs(da, db)
  {
    var i := new BSONObjIterator(a, abase, da);
    var j := new BSONObjIterator(b, bbase, db);
    ghost var ra, rb := da, Some(db);
    while true
      invariant fresh(i) && fresh(j) && i != j && i.Valid() && j.Valid()
      invariant i.rest == Some(ra) && j.rest == rb
      invariant (if rb.None? then Threw(ASSERT) else EqualDocs(ra, rb.value)) == EqualDocs(da, db)
      decreases ra
    {
      var li := i.Next();
      var l := li.value;
      var r' :- j.Next();
      if l.value.EOO? {
        return Ok(r'.value.EOO?);
      }
      var x :- WoCompare(l, r', true);
      if x != 0 {
        return Ok(false);
      }
      ra := ra.tail;
      rb := if rb.value.Nil? then None else Some(rb.value.tail);
    }
  }

  /** `b` ends where `a` goes on with an Undefined without a name, which compares equal to the
      end of an object. */
  predicate EndsAtUndefined(a: Doc, b: Doc)
  {
    a.Cons? &&
    if b.Nil? then a.head == Element([], Undefined)
    else WoCompare(a.head, b.head, true) == Ok(0) && EndsAtUndefined(a.tail, b.tail)
  }

  lemma NamedFromNameless(name: seq<byte>)
    requires NulFree(name)
    ensures StrCmp(name, []) == 0 <==> name == []
  {
    StrLaws(name, [], []);
    if name != [] {
      assert (name + [0])[0] == name[0];
    }
  }

  lemma LikeTheEnd(e: Element)
    requires WfElement(e)
    ensures WoCompare(e, END, true).Ok?
    ensures WoCompare(e, END, true) == Ok(0) <==> e == Element([], Undefined)
  {
    NamedFromNameless(e.name);
  }

  /** `equal` answers true exactly when `woCompare` without a key answers 0. It throws exactly
      when `woCompare` throws, or when the right-hand side ends at such an Undefined. */
  lemma {:induction false} EqualIffCompareZero(a: Doc, b: Doc)
    requires WfDoc(a) && WfDoc(b)
    ensures EqualDocs(a, b) == Ok(true) <==> CompareDocs(a, b, Plain, true) == Ok(0)
    ensures EqualDocs(a, b).Threw? <==> CompareDocs(a, b, Plain, true).Threw? || EndsAtUndefined(a, b)
    decreases a
  {
    if a.Cons? {
      if b.Cons? {
        EqualIffCompareZero(a.tail, b.tail);
      } else {
        LikeTheEnd(a.head);
      }
    }
  }

  // ----- binaryEqual -----

  /** `binaryEqual`: same size and same bytes. */
  predicate BinaryEqual(a: seq<byte>, abase: nat, b: seq<byte>, bbase: nat)
    requires abase + 4 <= |a| && 0 <= ReadInt(a, abase) && abase + ReadInt(a, abase) <= |a|
    requires bbase + 4 <= |b| && 0 <= ReadInt(b, bbase) && bbase + ReadInt(b, bbase) <= |b|
  {
    ReadInt(a, abase) == ReadInt(b, bbase) &&
    a[abase..abase + ReadInt(a, abase)] == b[bbase..bbase + ReadInt(b, bbase)]
  }

  /** Any document compares equal to itself, for no Date in it faces a Timestamp, unless a key
      pattern runs out on the way. */
  lemma {:induction false} CompareSelf(d: Doc, dir: Direction, c: bool)
    requires WfDoc(d)
    ensures CompareDocs(d, d, dir, c) == if Covered(d, dir) then Ok(0) else Threw(ASSERT)
    decreases d, 1
  {
    if Turn(dir).Ok? && d.Cons? {
      ElementSelf(d.head, c);
      CompareSelf(d.tail, Turn(dir).value.1, c);
    }
  }

  lemma {:induction false} ElementSelf(e: Element, c: bool)
    requires WfElement(e)
    ensures WoCompare(e, e, c) == Ok(0)
    decreases e, 0
  {
    StrLaws(e.name, e.name, e.name);
    if e.value.Object? || e.value.Array? {
      CompareSelf(e.value.doc, Plain, true);
    } else {
      FlatLaws(e.value, e.value, e.value);
    }
  }

  /** With a key pattern of one field, a document of two is not equal to itself: the comparison
      asserts. */
  lemma ShortKeyAsserts()
    ensures var f := Element([], Null); var d := Cons(f, Cons(f, Nil));
      CompareByKey(d, d, Cons(f, Nil), false) == Threw(ASSERT)
  {
    var f := Element([], Null);
    CompareSelf(Cons(f, Cons(f, Nil)), ByKey(Some(KeySigns(Cons(f, Nil)))), false);
  }

  /** A document of one nameless Undefined against the empty one: `equal` asserts, and `woCompare`
      tells them apart. */
  lemma UndefinedAgainstNothing()
    ensures var d := Cons(Element([], Undefined), Nil);
      EqualDocs(d, Nil) == Threw(ASSERT) && CompareDocs(d, Nil, Plain, true) == Ok(1)
  {
    LikeTheEnd(Element([], Undefined));
  }

  lemma BinaryEqualBytes(a: seq<byte>, abase: nat, x: seq<byte>, b: seq<byte>, bbase: nat, y: seq<byte>)
    requires At(a, abase, x) && abase + 4 <= |a| && ReadInt(a, abase) == |x|
    requires At(b, bbase, y) && bbase + 4 <= |b| && ReadInt(b, bbase) == |y|
    ensures BinaryEqual(a, abase, b, bbase) <==> x == y
  {
    AtSlice(a, abase, x);
    AtSlice(b, bbase, y);
  }

  /** Equal bytes mean equal documents, under both comparisons too. */
  lemma BinaryEqualImpliesBoth(a: seq<byte>, abase: nat, b: seq<byte>, bbase: nat, da: Doc, db: Doc)
    requires WfDoc(da) && Fits(da) && At(a, abase, EncDoc(da)) && abase + 4 <= |a|
    requires WfDoc(db) && Fits(db) && At(b, bbase, EncDoc(db)) && bbase + 4 <= |b|
    requires ReadInt(a, abase) == |EncDoc(da)| && ReadInt(b, bbase) == |EncDoc(db)|
    ensures BinaryEqual(a, abase, b, bbase) <==> da == db
    ensures BinaryEqual(a, abase, b, bbase) ==>
              CompareDocs(da, db, Plain, true) == Ok(0) && EqualDocs(da, db) == Ok(true)
  {
    var x, y := EncDoc(da), EncDoc(db);
    BinaryEqualBytes(a, abase, x, b, bbase, y);
    if x == y {
      EncDocInjective(da, db);
      CompareSelf(da, Plain, true);
      EqualIffCompareZero(da, da);
    }
  }
}
