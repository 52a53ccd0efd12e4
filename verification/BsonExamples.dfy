/** The bytes of some documents, written out: the examples of bsonspec.org, and an element of each
    type. */
module BsonExamples {
  import opened Bytes
  import opened BsonFormat

  lemma FourBytes(n: nat)
    ensures LE(n, 4) == [n % 256, n / 256 % 256, n / 256 / 256 % 256, n / 256 / 256 / 256 % 256]
  {
    Shifts(n, 0);
  }

  /** Shifting goes on from where it was. */
  lemma Shifts(n: nat, i: nat)
    ensures var d := Shift(n, i); Shift(n, i + 1) == d / 256 && Shift(n, i + 2) == d / 256 / 256
    ensures var d := Shift(n, i); Shift(n, i + 3) == d / 256 / 256 / 256 && Shift(n, i + 4) == d / 256 / 256 / 256 / 256
  {
    assert Shift(n, i + 2) == Shift(n, i + 1) / 256;
    assert Shift(n, i + 3) == Shift(n, i + 2) / 256;
  }

  lemma EightBytes(n: nat)
    ensures LE(n, 8) == LE(n, 4) + LE(n / 256 / 256 / 256 / 256, 4)
  {
    var d := n / 256 / 256 / 256 / 256;
    Shifts(n, 0);
    Shifts(n, 4);
    Shifts(d, 0);
  }

  function Named(v: Value): Element
  {
    Element([97], v)
  }

  lemma Payload(v: Value, bytes: seq<byte>)
    requires EncValue(v) == bytes
    ensures EncElement(Named(v)) == [TypeByte(v), 97, 0] + bytes
  {
    assert [TypeByte(v)] + [97] + [0] == [TypeByte(v), 97, 0];
  }

  lemma BareElements()
    ensures EncElement(Named(Undefined)) == [6, 97, 0] && EncElement(Named(Null)) == [10, 97, 0]
    ensures EncElement(Named(MaxKey)) == [127, 97, 0] && EncElement(Named(MinKey)) == [255, 97, 0]
    ensures EncElement(Named(Bool(true))) == [8, 97, 0, 1] && EncElement(Named(Bool(false))) == [8, 97, 0, 0]
  {
  }

  lemma HiText()
    ensures EncText([104, 105]) == [3, 0, 0, 0, 104, 105, 0]
  {
    FourBytes(3);
  }

  lemma TextElements()
    ensures EncElement(Named(String([104, 105]))) == [2, 97, 0] + [3, 0, 0, 0, 104, 105, 0]
    ensures EncElement(Named(Code([104, 105]))) == [13, 97, 0] + [3, 0, 0, 0, 104, 105, 0]
    ensures EncElement(Named(Symbol([104, 105]))) == [14, 97, 0] + [3, 0, 0, 0, 104, 105, 0]
  {
    HiText();
  }

  lemma MinusTwo()
    ensures LE(Unsigned(-2, 4), 4) == [254, 255, 255, 255]
    ensures LE(Unsigned(-2, 8), 8) == [254, 255, 255, 255, 255, 255, 255, 255]
  {
    Pow256Values();
    FourBytes(0xFFFF_FFFE);
    EightBytes(0xFFFF_FFFF_FFFF_FFFE);
    FourBytes(0xFFFF_FFFF);
    FourBytes(0xFFFF_FFFF_FFFF_FFFE);
  }

  lemma IntElements()
    ensures EncElement(Named(NumberInt(-2))) == [16, 97, 0] + [254, 255, 255, 255]
    ensures EncElement(Named(NumberLong(-2))) == [18, 97, 0] + [254, 255, 255, 255, 255, 255, 255, 255]
  {
    MinusTwo();
  }

  lemma TwoWords()
    ensures LE(0x1_0000_0002, 8) == [2, 0, 0, 0, 1, 0, 0, 0]
  {
    EightBytes(0x1_0000_0002);
    FourBytes(0x1_0000_0002);
    FourBytes(1);
  }

  lemma TimeElements()
    ensures EncElement(Named(Date(0x1_0000_0002))) == [9, 97, 0] + [2, 0, 0, 0, 1, 0, 0, 0]
    ensures EncElement(Named(Timestamp(0x1_0000_0002))) == [17, 97, 0] + [2, 0, 0, 0, 1, 0, 0, 0]
  {
    TwoWords();
  }

  /** 5.05 is 0x4014333333333333. */
  const FIVE_OH_FIVE: Double := Double(false, 0x401, 0x4_3333_3333_3333)

  lemma FiveOhFive()
    ensures EncValue(NumberDouble(FIVE_OH_FIVE)) == [0x33, 0x33, 0x33, 0x33, 0x33, 0x33, 0x14, 0x40]
  {
    EightBytes(0x4014_3333_3333_3333);
    FourBytes(0x4014_3333_3333_3333);
    FourBytes(0x4014_3333);
    assert DoubleBits(FIVE_OH_FIVE) == 0x4014_3333_3333_3333;
  }

  lemma DoubleElement()
    ensures EncElement(Named(NumberDouble(FIVE_OH_FIVE))) ==
      [1, 97, 0] + [0x33, 0x33, 0x33, 0x33, 0x33, 0x33, 0x14, 0x40]
  {
    FiveOhFive();
  }

  lemma IdElements(id: seq<byte>)
    requires |id| == 12
    ensures EncElement(Named(OID(id))) == [7, 97, 0] + id
    ensures EncElement(Named(DBRef([110], id))) == [12, 97, 0] + ([2, 0, 0, 0, 110, 0] + id)
  {
    FourBytes(2);
    assert EncText([110]) == [2, 0, 0, 0, 110, 0];
    Payload(DBRef([110], id), [2, 0, 0, 0, 110, 0] + id);
  }

  lemma BinaryElements()
    ensures EncElement(Named(BinData(128, [1, 2]))) == [5, 97, 0] + [2, 0, 0, 0, 128, 1, 2]
    ensures EncElement(Named(RegEx([120], [105]))) == [11, 97, 0] + [120, 0, 105, 0]
  {
    FourBytes(2);
    Payload(BinData(128, [1, 2]), [2, 0, 0, 0, 128, 1, 2]);
    Payload(RegEx([120], [105]), [120, 0, 105, 0]);
  }

  lemma EmptyDocument()
    ensures EncDoc(Nil) == [5, 0, 0, 0, 0]
  {
    FourBytes(5);
    assert EncElements(Nil) == [];
  }

  lemma NestedElements()
    ensures EncElement(Named(Object(Nil))) == [3, 97, 0] + [5, 0, 0, 0, 0]
    ensures EncElement(Named(Array(Nil))) == [4, 97, 0] + [5, 0, 0, 0, 0]
  {
    EmptyDocument();
  }

  lemma ScopeElement()
    ensures EncElement(Named(CodeWScope([102], Nil))) ==
      [15, 97, 0] + [15, 0, 0, 0, 2, 0, 0, 0, 102, 0, 5, 0, 0, 0, 0]
  {
    ScopeBytes();
    Payload(CodeWScope([102], Nil), [15, 0, 0, 0, 2, 0, 0, 0, 102, 0, 5, 0, 0, 0, 0]);
  }

  lemma ScopeBytes()
    ensures EncValue(CodeWScope([102], Nil)) == [15, 0, 0, 0, 2, 0, 0, 0, 102, 0, 5, 0, 0, 0, 0]
  {
    EmptyDocument();
    FourBytes(15);
    FourBytes(2);
    assert EncText([102]) == [2, 0, 0, 0, 102, 0];
  }

  /** { "hello": "world" } */
  lemma HelloWorld()
    ensures EncDoc(Cons(Element([104, 101, 108, 108, 111], String([119, 111, 114, 108, 100])), Nil)) ==
      [0x16, 0, 0, 0] +
      [2, 104, 101, 108, 108, 111, 0] + [6, 0, 0, 0, 119, 111, 114, 108, 100, 0] +
      [0]
  {
    var e := Element([104, 101, 108, 108, 111], String([119, 111, 114, 108, 100]));
    FourBytes(6);
    FourBytes(0x16);
    assert EncValue(e.value) == [6, 0, 0, 0, 119, 111, 114, 108, 100, 0];
    assert EncElement(e) == [2, 104, 101, 108, 108, 111, 0] + [6, 0, 0, 0, 119, 111, 114, 108, 100, 0];
    assert EncElements(Cons(e, Nil)) == EncElement(e);
  }

  const AWESOME: seq<byte> := [97, 119, 101, 115, 111, 109, 101]

  const ITEMS: Doc :=
    Cons(Element([48], String(AWESOME)), Cons(Element([49], NumberDouble(FIVE_OH_FIVE)),
      Cons(Element([50], NumberInt(1986)), Nil)))

  lemma AwesomeItem()
    ensures EncElement(Element([48], String(AWESOME))) ==
      [2, 48, 0, 8, 0, 0, 0, 97, 119, 101, 115, 111, 109, 101, 0]
  {
    FourBytes(8);
    assert EncText(AWESOME) == [8, 0, 0, 0, 97, 119, 101, 115, 111, 109, 101, 0];
  }

  lemma NumberItems()
    ensures EncElement(Element([49], NumberDouble(FIVE_OH_FIVE))) ==
      [1, 49, 0, 0x33, 0x33, 0x33, 0x33, 0x33, 0x33, 0x14, 0x40]
    ensures EncElement(Element([50], NumberInt(1986))) == [16, 50, 0, 0xC2, 7, 0, 0]
  {
    FiveOhFive();
    FourBytes(1986);
    Pow256Values();
    assert Unsigned(1986, 4) == 1986;
  }

  lemma Items()
    ensures EncDoc(ITEMS) ==
      [0x26, 0, 0, 0] +
      [2, 48, 0, 8, 0, 0, 0, 97, 119, 101, 115, 111, 109, 101, 0] +
      [1, 49, 0, 0x33, 0x33, 0x33, 0x33, 0x33, 0x33, 0x14, 0x40] +
      [16, 50, 0, 0xC2, 7, 0, 0] +
      [0]
  {
    AwesomeItem();
    NumberItems();
    FourBytes(0x26);
    var x, y, z := ITEMS.head, ITEMS.tail.head, ITEMS.tail.tail.head;
    assert EncElements(Cons(z, Nil)) == EncElement(z);
    assert EncElements(ITEMS) == EncElement(x) + EncElement(y) + EncElement(z);
  }

  /** { "BSON": ["awesome", 5.05, 1986] } */
  lemma Awesome()
    ensures EncDoc(Cons(Element([66, 83, 79, 78], Array(ITEMS)), Nil)) ==
      [0x31, 0, 0, 0] + ([4, 66, 83, 79, 78, 0] + EncDoc(ITEMS)) + [0]
  {
    Items();
    FourBytes(0x31);
    var e := Element([66, 83, 79, 78], Array(ITEMS));
    assert EncElement(e) == [4, 66, 83, 79, 78, 0] + EncDoc(ITEMS);
    assert EncElements(Cons(e, Nil)) == EncElement(e);
  }
}
