/** The bytes of a flattened device tree, and paths as C strings. */
module FlatBytes {
  import opened Options
  import opened Bytes
  import opened FlatTree

  const FDT_MAGIC: nat := 0xD00DFEED
  const FDT_BEGIN_NODE: nat := 1
  const FDT_END_NODE: nat := 2
  const FDT_PROP: nat := 3
  const FDT_NOP: nat := 4
  const FDT_END: nat := 9

  // ----- tokens -----

  /** The big-endian word at o. */
  function Big(b: seq<Byte>, o: nat): nat
    requires o + 4 <= |b|
  {
    b[o] as int * 0x100_0000 + b[o + 1] as int * 0x1_0000 + b[o + 2] as int * 0x100 + b[o + 3]
  }

  function BigBytes(v: nat): (b: seq<Byte>)
    ensures |b| == 4
  {
    [v / 0x100_0000 % 256, v / 0x1_0000 % 256, v / 0x100 % 256, v % 256]
  }

  lemma BigInverse(v: nat)
    requires v < 0x1_0000_0000
    ensures Big(BigBytes(v), 0) == v
  {
    assert v / 0x1_0000 == v / 0x100_0000 * 256 + v / 0x1_0000 % 256;
    assert v / 0x100 == v / 0x1_0000 * 256 + v / 0x100 % 256;
  }

  /** The highest byte of a word comes first. */
  lemma BigOrder(b: seq<Byte>, o: nat)
    requires o + 4 <= |b|
    ensures var v := Big(b, o);
            && v < 0x1_0000_0000
            && b[o] == v / 0x100_0000 && b[o + 1] == v / 0x1_0000 % 256 && b[o + 2] == v / 0x100 % 256 && b[o + 3] == v % 256
    ensures b[o..o + 4] == [0xD0, 0x0D, 0xFE, 0xED] <==> Big(b, o) == FDT_MAGIC
  {
    var v := Big(b, o);
    assert v / 0x100 == b[o] as int * 0x1_0000 + b[o + 1] as int * 0x100 + b[o + 2];
    assert v / 0x1_0000 == b[o] as int * 0x100 + b[o + 1];
    assert b[o..o + 4] == [b[o], b[o + 1], b[o + 2], b[o + 3]];
  }

  /** The next multiple of a word. */
  function Rounded(n: nat): (r: nat)
    ensures n <= r < n + 4 && r % 4 == 0
  {
    (n + 3) / 4 * 4
  }

  /** Bytes filled up to whole words. */
  function Aligned(s: seq<Byte>): (r: seq<Byte>)
    ensures |r| == Rounded(|s|) && s <= r
  {
    s + Zeros(Rounded(|s|) - |s|)
  }

  function Encode(item: Item): seq<Byte> {
    match item
    case Begin(name) => BigBytes(FDT_BEGIN_NODE) + Aligned(name + [0])
    case Prop(p) => BigBytes(FDT_PROP) + BigBytes(|p.value|) + BigBytes(p.nameOff) + Aligned(p.value)
    case End => BigBytes(FDT_END_NODE)
    case Nop => BigBytes(FDT_NOP)
    case Finish => BigBytes(FDT_END)
  }

  function TokenOf(item: Item): nat {
    match item
    case Begin(name) => FDT_BEGIN_NODE
    case Prop(p) => FDT_PROP
    case End => FDT_END_NODE
    case Nop => FDT_NOP
    case Finish => FDT_END
  }

  /** b has s at o. */
  predicate Has(b: seq<Byte>, o: nat, s: seq<Byte>) {
    o + |s| <= |b| && b[o..o + |s|] == s
  }

  /** b has the items from o on. */
  predicate HasItems(b: seq<Byte>, o: nat, items: seq<Item>)
    decreases |items|
  {
    items == [] || (Has(b, o, Encode(items[0])) && HasItems(b, o + |Encode(items[0])|, items[1..]))
  }

  /** A name: no NUL and no slash. */
  predicate IsName(s: seq<Byte>) {
    0 !in s && SLASH !in s
  }

  /** Names are C strings, sizes and offsets fit a word, and the strings block has the
      name of a property. */
  predicate ItemOk(b: seq<Byte>, strings: nat, item: Item) {
    match item
    case Begin(name) => IsName(name)
    case Prop(p) =>
      && IsName(p.name) && |p.value| < 0x1_0000_0000 && p.nameOff < 0x1_0000_0000
      && Has(b, strings + p.nameOff, p.name + [0])
    case _ => true
  }

  lemma HasWord(b: seq<Byte>, o: nat, s: seq<Byte>, k: nat, v: nat)
    requires Has(b, o, s) && k + 4 <= |s| && s[k..k + 4] == BigBytes(v) && v < 0x1_0000_0000
    ensures o + k + 4 <= |b| && Big(b, o + k) == v
  {
    BigInverse(v);
    var w := BigBytes(v);
    HasPart(b, o, s, k, w);
    assert b[o + k..o + k + 4] == w;
    assert b[o + k] == w[0] && b[o + k + 1] == w[1] && b[o + k + 2] == w[2] && b[o + k + 3] == w[3];
  }

  lemma HasPart(b: seq<Byte>, o: nat, s: seq<Byte>, k: nat, t: seq<Byte>)
    requires Has(b, o, s) && k + |t| <= |s| && s[k..k + |t|] == t
    ensures Has(b, o + k, t)
  {
    forall i | 0 <= i < |t|
      ensures b[o + k + i] == t[i]
    {
      assert b[o..o + |s|][k + i] == s[k..k + |t|][i];
    }
  }

  /** The token word of an item. */
  lemma TokenAt(b: seq<Byte>, o: nat, item: Item)
    requires Has(b, o, Encode(item))
    ensures o + 4 <= |b| && Big(b, o) == TokenOf(item)
  {
    assert Encode(item)[0..4] == BigBytes(TokenOf(item));
    HasWord(b, o, Encode(item), 0, TokenOf(item));
  }

  lemma BeginAt(b: seq<Byte>, o: nat, name: seq<Byte>)
    requires Has(b, o, Encode(Begin(name)))
    ensures Has(b, o + 4, name + [0]) && |Encode(Begin(name))| == 4 + Rounded(|name| + 1)
  {
    var e := Encode(Begin(name));
    assert e[4..4 + |name + [0]|] == name + [0];
    HasPart(b, o, e, 4, name + [0]);
  }

  lemma PropAt(b: seq<Byte>, o: nat, p: Property)
    requires Has(b, o, Encode(Prop(p))) && |p.value| < 0x1_0000_0000 && p.nameOff < 0x1_0000_0000
    ensures |Encode(Prop(p))| == 12 + Rounded(|p.value|) && o + 12 <= |b|
    ensures Big(b, o + 4) == |p.value| && Big(b, o + 8) == p.nameOff && Has(b, o + 12, p.value)
  {
    hide Big, BigBytes, Has;
    var e := Encode(Prop(p));
    assert e[4..8] == BigBytes(|p.value|);
    assert e[8..12] == BigBytes(p.nameOff);
    assert e[12..12 + |p.value|] == p.value;
    HasWord(b, o, e, 4, |p.value|);
    HasWord(b, o, e, 8, p.nameOff);
    HasPart(b, o, e, 12, p.value);
  }

  // ----- paths -----

  /** "/c1/c2/...". */
  function PathOf(cs: seq<seq<Byte>>): seq<Byte> {
    if cs == [] then [] else PathOf(cs[..|cs| - 1]) + [SLASH] + cs[|cs| - 1]
  }

  predicate AreNames(cs: seq<seq<Byte>>) {
    forall i | 0 <= i < |cs| :: IsName(cs[i])
  }

  /** Where component d starts. */
  function StartOf(cs: seq<seq<Byte>>, d: nat): nat
    requires 1 <= d <= |cs|
  {
    |PathOf(cs[..d - 1])| + 1
  }

  /** The character of a C string at i; the terminator is past the end. */
  function At(s: seq<Byte>, i: nat): Byte
    requires i <= |s|
  {
    if i < |s| then s[i] else 0
  }

  /** Component d, the slash before it, and what ends it. */
  lemma {:induction false} ComponentIn(cs: seq<seq<Byte>>, d: nat)
    requires 1 <= d <= |cs|
    ensures var p, o := PathOf(cs), StartOf(cs, d);
            && 1 <= o && o + |cs[d - 1]| <= |p| && p[o - 1] == SLASH && p[o..o + |cs[d - 1]|] == cs[d - 1]
            && o + |cs[d - 1]| == |PathOf(cs[..d])|
            && At(p, o + |cs[d - 1]|) == (if d < |cs| then SLASH else 0)
    decreases |cs|
  {
    var front, c, o := cs[..|cs| - 1], cs[d - 1], StartOf(cs, d);
    assert cs[..d][..d - 1] == cs[..d - 1];
    if d < |cs| {
      ComponentIn(front, d);
      assert front[..d - 1] == cs[..d - 1] && front[..d] == cs[..d];
      var q, p := PathOf(front), PathOf(cs);
      assert p[..|q|] == q;
      assert p[o..o + |c|] == q[o..o + |c|];
      assert o + |c| < |q| ==> p[o + |c|] == q[o + |c|];
    } else {
      assert cs[..d] == cs && cs[..d - 1] == front;
    }
  }
}
