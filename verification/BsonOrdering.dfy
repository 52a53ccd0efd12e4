/** `Ordering`, the bit mask made from a key pattern, against the key pattern itself. */
module BsonOrdering {
  import opened Bytes
  import opened BsonFormat
  import opened BsonCompare
  import opened BsonIterator
  import opened BsonOrder
  import opened BsonMeaning
  import Words

  /** `Ordering::get`: -1 where field `i` descends. */
  function Get(bits: Words.word, i: nat): int
  {
    if Words.And(Words.Bit(i), bits) != 0 then -1 else 1
  }

  /** `Ordering::make` on the bytes of a key pattern: at most 32 fields, and -1 just for those that
      are negative numbers. */
  method Make(data: seq<byte>, base: nat, ghost key: Doc) returns (r: Result<Words.word>)
    requires WfDoc(key) && Fits(key) && At(data, base, EncDoc(key))
    ensures r == if key.Length() <= 32 then Ok(MakeBits(KeySigns(key), 0)) else Threw(13103)
    ensures r.Ok? ==> forall i :: 0 <= i < key.Length() ==>
      Get(r.value, i) == if Negative(key.Field(i).value) then -1 else 1
  {
    var b: Words.word := 0;
    var k := new BSONObjIterator(data, base, key);
    var n := 0;
    ghost var left := key;
    Words.OrNothing(MakeBits(KeySigns(key), 0));
    while true
      invariant fresh(k) && k.Valid() && k.rest == Some(left)
      invariant n <= 32 && n + left.Length() == key.Length()
      invariant Words.OrWord(b, MakeBits(KeySigns(left), n)) == MakeBits(KeySigns(key), 0)
      decreases left
    {
      var next := k.Next();
      var e := next.value;
      if e.value.EOO? {
        assert left.Nil?;
        break;
      }
      if n > 31 {
        return Threw(13103);
      }
      OneField(b, e, KeySigns(left.tail), n);
      if Descends(e) {
        b := Words.OrWord(b, Words.Bit(n));
      }
      n := n + 1;
      left := left.tail;
    }
    Words.OrCommutes(b, 0);
    Words.OrNothing(b);
    MadeFromKey(key);
    return Ok(b);
  }

  lemma OneField(b: Words.word, e: Element, rest: Signs, n: nat)
    ensures Words.OrWord(b, MakeBits(Next(Descends(e), rest), n)) ==
            Words.OrWord(if Descends(e) then Words.OrWord(b, Words.Bit(n)) else b, MakeBits(rest, n + 1))
  {
    Words.OrAssociates(b, SignBit(Descends(e), n), MakeBits(rest, n + 1));
    Words.OrCommutes(b, 0);
    Words.OrNothing(b);
  }

  // ----- the bits of a key -----

  /** Bit `j` of the word made for the fields from `n` on is the sign of field `j`. */
  lemma {:induction false} BitOfField(s: Signs, n: nat, j: nat)
    requires n + s.Length() <= 32 && j < 32
    ensures Words.HasBit(MakeBits(s, n), j) <==> n <= j < n + s.Length() && s.At(j - n)
  {
    if s.Last? {
      Words.NothingHasNoBit(j);
    } else {
      var first := SignBit(s.descends, n);
      Words.HasBitOfOr(first, MakeBits(s.rest, n + 1), j);
      BitOfField(s.rest, n + 1, j);
      Words.BitOfLow(n);
      Words.HasBitOfPow2(n, j);
      Words.NothingHasNoBit(j);
    }
  }

  /** For `{ a : 1, b : -1 }`, get(0) is 1 and get(1) is -1. */
  lemma GetOfMake(s: Signs, i: nat)
    requires i < s.Length() <= 32
    ensures Get(MakeBits(s, 0), i) == if s.At(i) then -1 else 1
  {
    BitOfField(s, 0, i);
    Words.AndCommutes(Words.Bit(i), MakeBits(s, 0));
    Words.MaskAsks(MakeBits(s, 0), i);
  }

  lemma MadeFromKey(key: Doc)
    requires WfDoc(key) && key.Length() <= 32
    ensures forall i :: 0 <= i < key.Length() ==>
      Get(MakeBits(KeySigns(key), 0), i) == if Negative(key.Field(i).value) then -1 else 1
  {
    forall i | 0 <= i < key.Length()
      ensures Get(MakeBits(KeySigns(key), 0), i) == if Negative(key.Field(i).value) then -1 else 1
    {
      GetOfMake(KeySigns(key), i);
      KeySignAt(key, i);
    }
  }

  // ----- the mask against the key -----

  /** A bit mask and a position in it say the same as what is left of a key. */
  ghost predicate SameDirections(bits: Words.word, rest: Signs, n: nat)
  {
    n + rest.Length() <= 32 && forall j :: n <= j < 32 ==> (Words.HasBit(bits, j) <==> InRest(rest, j - n))
  }

  predicate InRest(rest: Signs, i: nat)
  {
    i < rest.Length() && rest.At(i)
  }

  lemma MadeSame(s: Signs)
    requires s.Length() <= 32
    ensures SameDirections(MakeBits(s, 0), s, 0)
  {
    forall j | 0 <= j < 32
      ensures Words.HasBit(MakeBits(s, 0), j) <==> InRest(s, j)
    {
      BitOfField(s, 0, j);
    }
  }

  lemma OneTurn(bits: Words.word, rest: Signs, n: nat)
    requires SameDirections(bits, rest, n) && rest.Next?
    ensures Turn(ByOrdering(bits, Words.Bit(n))) == Ok((rest.descends, ByOrdering(bits, Words.Bit(n + 1))))
    ensures SameDirections(bits, rest.rest, n + 1)
  {
    Words.NextBit(n);
    Words.MaskAsks(bits, n);
    assert InRest(rest, 0) == rest.descends;
    forall j | n + 1 <= j < 32
      ensures Words.HasBit(bits, j) <==> InRest(rest.rest, j - (n + 1))
    {
      assert InRest(rest, j - n) == InRest(rest.rest, j - (n + 1));
    }
  }

  lemma LastTurn(bits: Words.word, n: nat)
    requires SameDirections(bits, Last, n)
    ensures Turn(ByOrdering(bits, Words.Bit(n))) == Ok((false, ByOrdering(bits, Words.Bit(n + 1))))
  {
    Words.NextBit(n);
    if n < 32 {
      Words.MaskAsks(bits, n);
    } else {
      Words.NoHighBit(n);
    }
  }

  lemma {:induction false} MaskRefinesKey(a: Doc, b: Doc, bits: Words.word, rest: Signs, n: nat, c: bool)
    requires SameDirections(bits, rest, n) && !AgreeOn(a, b, Turns(Some(rest)), c)
    ensures CompareDocs(a, b, ByOrdering(bits, Words.Bit(n)), c) == CompareDocs(a, b, ByKey(Some(rest)), c)
    decreases a
  {
    var both := a.Cons? && b.Cons? && WoCompare(a.head, b.head, c) == Ok(0);
    if rest.Next? {
      OneTurn(bits, rest, n);
      if both {
        MaskRefinesKey(a.tail, b.tail, bits, rest.rest, n + 1, c);
      }
    } else {
      LastTurn(bits, n);
      if both {
        assert AgreeOn(a.tail, b.tail, 0, c);
      }
    }
  }

  /** Where both run past the key, the key's iterator asserts and the mask goes on. */
  lemma {:induction false} KeyRunsOut(a: Doc, b: Doc, rest: Option<Signs>, c: bool)
    requires RunsOut(a, b, ByKey(rest), c)
    ensures CompareDocs(a, b, ByKey(rest), c) == Threw(ASSERT)
    decreases a
  {
    if rest.Some? {
      KeyRunsOut(a.tail, b.tail, if rest.value.Last? then None else Some(rest.value.rest), c);
    }
  }

  /** The precomputed mask gives what the key pattern gives exactly when the key is empty or
      the documents do not agree on more fields than the key has. */
  lemma OrderingRefinesKey(a: Doc, b: Doc, key: Doc, c: bool)
    requires WfDoc(a) && WfDoc(b) && key.Length() <= 32
    ensures CompareOrdered(a, b, MakeBits(KeySigns(key), 0), c) == CompareByKey(a, b, key, c)
            <==> key.Nil? || !AgreeOn(a, b, key.Length() + 1, c)
  {
    if key.Nil? {
      NoBits(a, b, Words.Bit(0), c);
    } else {
      MadeIsKeyIff(a, b, KeySigns(key), c);
    }
  }

  lemma MadeIsKeyIff(a: Doc, b: Doc, signs: Signs, c: bool)
    requires WfDoc(a) && WfDoc(b) && signs.Length() <= 32
    ensures CompareOrdered(a, b, MakeBits(signs, 0), c) == CompareDocs(a, b, ByKey(Some(signs)), c)
            <==> !AgreeOn(a, b, signs.Length() + 1, c)
  {
    MadeSame(signs);
    MaskIsKeyIff(a, b, MakeBits(signs, 0), signs, 0, c);
  }

  lemma MaskIsKeyIff(a: Doc, b: Doc, bits: Words.word, rest: Signs, n: nat, c: bool)
    requires WfDoc(a) && WfDoc(b) && SameDirections(bits, rest, n)
    ensures CompareDocs(a, b, ByOrdering(bits, Words.Bit(n)), c) == CompareDocs(a, b, ByKey(Some(rest)), c)
            <==> !AgreeOn(a, b, rest.Length() + 1, c)
  {
    if AgreeOn(a, b, rest.Length() + 1, c) {
      BeyondKey(a, b, ByOrdering(bits, Words.Bit(n)), rest, c);
    } else {
      MaskRefinesKey(a, b, bits, rest, n, c);
    }
  }

  lemma BeyondKey(a: Doc, b: Doc, dir: Direction, signs: Signs, c: bool)
    requires WfDoc(a) && WfDoc(b) && AgreeOn(a, b, signs.Length() + 1, c) && !dir.ByKey?
    ensures CompareDocs(a, b, dir, c) != CompareDocs(a, b, ByKey(Some(signs)), c)
  {
    KeyRunsOut(a, b, Some(signs), c);
    ThrowsIff(a, b, dir, c);
  }

  lemma {:induction false} NoBits(a: Doc, b: Doc, mask: Words.word, c: bool)
    ensures CompareDocs(a, b, ByOrdering(0, mask), c) == CompareDocs(a, b, Plain, c)
    decreases a
  {
    if a.Cons? && b.Cons? {
      NoBits(a.tail, b.tail, Words.Doubled(mask), c);
    }
  }
}
