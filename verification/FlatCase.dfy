/** A search over a small device tree, given as the bytes of its blob. */
module FlatCase {
  import opened Options
  import opened Bytes
  import opened FlatTree
  import opened FlatBytes
  import opened DeviceTree

  /** Magic number, total size, offsets of the structure and of the strings, and the rest of
      the header. */
  function Header(): (b: seq<Byte>)
    ensures |b| == 40
  {
    [0xD0, 0x0D, 0xFE, 0xED] + [0, 0, 0, 0x64] + [0, 0, 0, 0x28] + [0, 0, 0, 0x60] + Zeros(24)
  }

  function RootBegins(): seq<Byte> {
    [0, 0, 0, 1] + [0, 0, 0, 0]
  }

  function MemoryBegins(): seq<Byte> {
    [0, 0, 0, 1] + (Chars("memory") + [0, 0])
  }

  function RegIs(): seq<Byte> {
    [0, 0, 0, 3] + [0, 0, 0, 5] + [0, 0, 0, 0] + [1, 2, 3, 4, 5, 0, 0, 0]
  }

  function MemoryEnds(): seq<Byte> {
    [0, 0, 0, 2]
  }

  function Nothing(): seq<Byte> {
    [0, 0, 0, 4]
  }

  function TreeEnds(): seq<Byte> {
    [0, 0, 0, 9]
  }

  function Strings(): seq<Byte> {
    Chars("reg") + [0]
  }

  function Blob(): seq<Byte> {
    Header() + RootBegins() + MemoryBegins() + RegIs() + MemoryEnds() + Nothing() + MemoryEnds() + TreeEnds() + Strings()
  }

  function Reg(): Property {
    Property(Chars("reg"), 0, [1, 2, 3, 4, 5])
  }

  function Root(): Node {
    Node([], [], [Node(Chars("memory"), [Reg()], [])])
  }

  function Items(): seq<Item> {
    [Begin([]), Begin(Chars("memory")), Prop(Reg()), End, Nop, End, Finish]
  }

  // ----- the blob is that of the tree -----

  lemma SmallWord(v: nat)
    requires v < 256
    ensures BigBytes(v) == [0, 0, 0, v]
  {
  }

  lemma Fillings()
    ensures Aligned([0]) == [0, 0, 0, 0] && Aligned(Chars("memory") + [0]) == Chars("memory") + [0, 0]
    ensures Aligned([1, 2, 3, 4, 5]) == [1, 2, 3, 4, 5, 0, 0, 0]
  {
    assert Rounded(1) == 4 && Rounded(7) == 8 && Rounded(5) == 8;
    assert Zeros(1) == [0] && Zeros(3) == [0, 0, 0];
  }

  lemma Encodings()
    ensures Encode(Begin([])) == RootBegins() && Encode(Begin(Chars("memory"))) == MemoryBegins()
    ensures Encode(Prop(Reg())) == RegIs() && Encode(End) == MemoryEnds() && Encode(Nop) == Nothing() && Encode(Finish) == TreeEnds()
  {
    hide BigBytes, Aligned, Chars;
    SmallWord(0);
    SmallWord(1);
    SmallWord(2);
    SmallWord(3);
    SmallWord(4);
    SmallWord(5);
    SmallWord(9);
    Fillings();
    assert [] + [0] == [0];
  }

  function EncodeAll(items: seq<Item>): seq<Byte> {
    if items == [] then [] else Encode(items[0]) + EncodeAll(items[1..])
  }

  lemma {:induction false} AllThere(front: seq<Byte>, items: seq<Item>, rest: seq<Byte>)
    ensures HasItems(front + EncodeAll(items) + rest, |front|, items)
    decreases |items|
  {
    hide Encode;
    if items != [] {
      var e, b := Encode(items[0]), front + EncodeAll(items) + rest;
      assert b == (front + e) + EncodeAll(items[1..]) + rest;
      AllThere(front + e, items[1..], rest);
      assert b[|front|..|front| + |e|] == e;
    }
  }

  lemma EncodedNext(x: Item, rest: seq<Item>)
    ensures EncodeAll([x] + rest) == Encode(x) + EncodeAll(rest)
  {
    assert ([x] + rest)[1..] == rest;
  }

  lemma AllEncoded()
    ensures EncodeAll(Items()) == RootBegins() + MemoryBegins() + RegIs() + MemoryEnds() + Nothing() + MemoryEnds() + TreeEnds()
  {
    hide Encode, EncodeAll, RootBegins, MemoryBegins, RegIs, MemoryEnds, Nothing, TreeEnds, Chars, Reg;
    Encodings();
    NoItems();
    EncodedNext(Finish, []);
    EncodedNext(End, [Finish]);
    EncodedNext(Nop, [End, Finish]);
    EncodedNext(End, [Nop, End, Finish]);
    EncodedNext(Prop(Reg()), [End, Nop, End, Finish]);
    EncodedNext(Begin(Chars("memory")), [Prop(Reg()), End, Nop, End, Finish]);
    EncodedNext(Begin([]), [Begin(Chars("memory")), Prop(Reg()), End, Nop, End, Finish]);
    assert [Finish] + [] == [Finish] && [End] + [Finish] == [End, Finish] && [Nop] + [End, Finish] == [Nop, End, Finish];
    assert [End] + [Nop, End, Finish] == [End, Nop, End, Finish];
    assert [Prop(Reg())] + [End, Nop, End, Finish] == [Prop(Reg()), End, Nop, End, Finish];
    assert [Begin(Chars("memory"))] + [Prop(Reg()), End, Nop, End, Finish]
        == [Begin(Chars("memory")), Prop(Reg()), End, Nop, End, Finish];
    assert [Begin([])] + [Begin(Chars("memory")), Prop(Reg()), End, Nop, End, Finish] == Items();
  }

  lemma NoItems()
    ensures EncodeAll([]) == []
  {
  }

  lemma HeaderWords(rest: seq<Byte>)
    ensures var b := Header() + rest; Big(b, 0) == FDT_MAGIC && Big(b, 8) == 40 && Big(b, 12) == 96
  {
    var b := Header() + rest;
    assert forall i | 0 <= i < 40 :: b[i] == Header()[i];
    assert Header()[0] == 0xD0 && Header()[1] == 0x0D && Header()[2] == 0xFE && Header()[3] == 0xED;
    assert Header()[8] == 0 && Header()[9] == 0 && Header()[10] == 0 && Header()[11] == 0x28;
    assert Header()[12] == 0 && Header()[13] == 0 && Header()[14] == 0 && Header()[15] == 0x60;
  }

  lemma StructureSize()
    ensures |EncodeAll(Items())| == 56
  {
    hide EncodeAll;
    AllEncoded();
  }

  lemma BlobIs()
    ensures Blob() == Header() + (EncodeAll(Items()) + Strings()) == Header() + EncodeAll(Items()) + Strings()
  {
    hide EncodeAll, Header, RootBegins, MemoryBegins, RegIs, Strings;
    AllEncoded();
  }

  lemma BlobFacts()
    ensures |Blob()| == 100 && Big(Blob(), 0) == FDT_MAGIC && Big(Blob(), 8) == 40 && Big(Blob(), 12) == 96
    ensures HasItems(Blob(), 40, Items()) && Has(Blob(), 96, Chars("reg") + [0])
  {
    hide HasItems, EncodeAll, Blob, Big, Header;
    BlobIs();
    StructureSize();
    HeaderWords(EncodeAll(Items()) + Strings());
    AllThere(Header(), Items(), Strings());
    var b := Blob();
    assert b[96..96 + 4] == Strings();
  }

  lemma TokensOfTree()
    ensures WithoutNops(Items()) == ItemsOf(Root()) + [Finish]
  {
    hide Chars;
    TokensOfMemory();
    var m := Node(Chars("memory"), [Reg()], []);
    assert ChildItems([m]) == ItemsOf(m) + ChildItems([m][1..]) && [m][1..] == [];
    assert ItemsOf(Root()) == [Begin([]), Begin(Chars("memory")), Prop(Reg()), End, End];
    NopsLeftOut();
  }

  lemma TokensOfMemory()
    ensures ItemsOf(Node(Chars("memory"), [Reg()], [])) == [Begin(Chars("memory")), Prop(Reg()), End]
  {
    hide Chars;
    assert PropItems([Reg()]) == [Prop(Reg())] && ChildItems([]) == [] && PropItems([]) == [];
  }

  lemma NopsLeftOut()
    ensures WithoutNops(Items()) == [Begin([]), Begin(Chars("memory")), Prop(Reg()), End, End, Finish]
  {
    hide Chars, WithoutNops, Reg;
    WithoutNext(Finish, []);
    WithoutNext(End, [Finish]);
    WithoutNext(Nop, [End, Finish]);
    WithoutNext(End, [Nop, End, Finish]);
    WithoutNext(Prop(Reg()), [End, Nop, End, Finish]);
    WithoutNext(Begin(Chars("memory")), [Prop(Reg()), End, Nop, End, Finish]);
    WithoutNext(Begin([]), [Begin(Chars("memory")), Prop(Reg()), End, Nop, End, Finish]);
    assert [Finish] + [] == [Finish] && [End] + [Finish] == [End, Finish] && [Nop] + [End, Finish] == [Nop, End, Finish];
    assert [End] + [Nop, End, Finish] == [End, Nop, End, Finish];
    assert [Prop(Reg())] + [End, Nop, End, Finish] == [Prop(Reg()), End, Nop, End, Finish];
    assert [Begin(Chars("memory"))] + [Prop(Reg()), End, Nop, End, Finish]
        == [Begin(Chars("memory")), Prop(Reg()), End, Nop, End, Finish];
    assert [Begin([])] + [Begin(Chars("memory")), Prop(Reg()), End, Nop, End, Finish] == Items();
  }

  lemma WithoutNext(x: Item, rest: seq<Item>)
    ensures WithoutNops([x] + rest) == (if x.Nop? then [] else [x]) + WithoutNops(rest)
    ensures rest == [] ==> WithoutNops(rest) == []
  {
    assert ([x] + rest)[1..] == rest;
  }

  lemma NamesOk()
    ensures IsName([]) && IsName(Chars("memory")) && IsName(Chars("reg"))
  {
  }

  lemma ItemsOk()
    ensures forall i | 0 <= i < |Items()| :: ItemOk(Blob(), 96, Items()[i])
  {
    hide Blob, IsName, Has;
    BlobFacts();
    NamesOk();
  }

  lemma RegFound()
    ensures AreNames([Chars("memory"), Chars("reg")])
    ensures FindIn(Root(), 0, [Chars("memory"), Chars("reg")]) == Some(Reg())
  {
    hide IsName;
    NamesOk();
    var cs, m := [Chars("memory"), Chars("reg")], Node(Chars("memory"), [Reg()], []);
    assert FirstProp([Reg()], cs[1]) == Some(Reg());
    assert FindIn(m, 1, cs) == Some(Reg());
    assert Root().children[0] == m;
    assert FindAmong([m], 1, cs) == Some(Reg());
  }

  lemma PathBytes()
    ensures PathOf([Chars("memory"), Chars("reg")]) == Chars("/memory/reg")
  {
  }

  /** The property is found, through names and a value that need filling and over a NOP. */
  method FindReg() returns (length: nat, data: Option<nat>)
    ensures length == 5 && data.Some? && data.value + 5 <= |Blob()| && Blob()[data.value..data.value + 5] == [1, 2, 3, 4, 5]
  {
    hide Blob, HasItems, ItemOk, PathOf, FindIn, WithoutNops, ItemsOf, AreNames;
    BlobFacts();
    TokensOfTree();
    ItemsOk();
    RegFound();
    PathBytes();
    length, data := ParseDTB(Blob(), Chars("/memory/reg"), [Chars("memory"), Chars("reg")], Items(), Root());
  }
}
