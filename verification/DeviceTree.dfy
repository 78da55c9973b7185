/** The search of a flattened device tree for the property a path names. */
module DeviceTree {
  import opened Options
  import opened Bytes
  import opened FlatTree
  import opened FlatBytes

  /** Compares a component of a path, up to the next slash, with a name. */
  method PathCmp(path: seq<Byte>, i: nat, b: seq<Byte>, j: nat, ghost c: seq<Byte>, ghost name: seq<Byte>) returns (r: int)
    requires i + |c| <= |path| && path[i..i + |c|] == c && IsName(c)
    requires At(path, i + |c|) == 0 || At(path, i + |c|) == SLASH
    requires Has(b, j, name + [0]) && IsName(name)
    ensures r == 0 <==> c == name
  {
    NameBytes(b, j, name);
    var k := 0;
    while At(path, i + k) != 0 && At(path, i + k) != SLASH && At(path, i + k) == b[j + k]
      invariant 0 <= k <= |c| && k <= |name| && c[..k] == name[..k]
      decreases |c| - k
    {
      assert k < |c| ==> path[i + k] == c[k];
      assert k < |name| ==> b[j + k] == name[k];
      k := k + 1;
    }
    assert k < |c| ==> path[i + k] == c[k] && c[k] in c;
    assert k < |name| ==> b[j + k] == name[k] && name[k] in name;
    var s1v: int, s2v: int := At(path, i + k), b[j + k];
    if s1v == SLASH {
      s1v := 0;
    }
    if s2v == SLASH {
      s2v := 0;
    }
    r := (if s1v > s2v then 1 else 0) - (if s2v > s1v then 1 else 0);
  }

  /** The bytes of a C string. */
  lemma NameBytes(b: seq<Byte>, j: nat, name: seq<Byte>)
    requires Has(b, j, name + [0])
    ensures forall k | 0 <= k < |name| :: b[j + k] == name[k]
    ensures j + |name| < |b| && b[j + |name|] == 0
  {
    var s := name + [0];
    assert forall k | 0 <= k < |s| :: b[j..j + |s|][k] == s[k];
  }

  method StrLen(b: seq<Byte>, j: nat, ghost name: seq<Byte>) returns (length: nat)
    requires Has(b, j, name + [0]) && IsName(name)
    ensures length == |name|
  {
    NameBytes(b, j, name);
    assert forall i | 0 <= i < |name| :: name[i] != 0;
    length := 0;
    while b[j + length] != 0
      invariant length <= |name|
      decreases |name| - length
    {
      length := length + 1;
    }
  }

  /** Where the component of a path at a depth starts. */
  method GetPathComponent(path: seq<Byte>, depth: int, ghost cs: seq<seq<Byte>>) returns (start: Option<nat>)
    requires path == PathOf(cs) && AreNames(cs)
    ensures start == if 1 <= depth <= |cs| then Some(StartOf(cs, depth)) else None
  {
    hide PathOf;
    var countedDepth := 0;
    var at := 0;
    PathEnds(cs);
    while at < |path|
      invariant 0 <= countedDepth <= |cs| && !(1 <= depth <= countedDepth)
      invariant InComponent(cs, countedDepth, at)
    {
      NextCharacter(cs, countedDepth, at);
      if path[at] == SLASH {
        countedDepth := countedDepth + 1;
      }
      if countedDepth == depth {
        return Some(at + 1);
      }
      at := at + 1;
    }
    AllCounted(cs, countedDepth, at);
    return None;
  }

  /** Position p is in component k, or right behind it. */
  predicate InComponent(cs: seq<seq<Byte>>, k: int, p: nat) {
    0 <= k <= |cs| && (if k == 0 then p == 0 else StartOf(cs, k) <= p <= |PathOf(cs[..k])|)
  }

  lemma PathEnds(cs: seq<seq<Byte>>)
    ensures cs[..|cs|] == cs && cs[..0] == [] && PathOf([]) == []
  {
  }

  lemma NextCharacter(cs: seq<seq<Byte>>, k: int, p: nat)
    requires AreNames(cs) && InComponent(cs, k, p) && p < |PathOf(cs)|
    ensures var slash := PathOf(cs)[p] == SLASH;
            && InComponent(cs, if slash then k + 1 else k, p + 1)
            && (slash ==> k < |cs| && p + 1 == StartOf(cs, k + 1)) && (!slash ==> 0 < k)
  {
    hide PathOf, IsName, At;
    PathEnds(cs);
    var here := |PathOf(cs[..k])|;
    if p == here {
      ComponentIn(cs, k + 1);
    } else {
      ComponentIn(cs, k);
      var o, c := StartOf(cs, k), cs[k - 1];
      assert PathOf(cs)[o..o + |c|][p - o] == c[p - o];
      NotSlash(c, p - o);
    }
  }

  lemma NotSlash(c: seq<Byte>, i: nat)
    requires IsName(c) && i < |c|
    ensures c[i] != SLASH && c[i] != 0
  {
  }

  lemma AllCounted(cs: seq<seq<Byte>>, k: int, p: nat)
    requires InComponent(cs, k, p) && |PathOf(cs)| <= p
    ensures k == |cs|
  {
    hide PathOf;
    if k < |cs| {
      PathEnds(cs);
      LongerPath(cs, k);
    }
  }

  lemma LongerPath(cs: seq<seq<Byte>>, k: nat)
    requires k < |cs|
    ensures |PathOf(cs[..k])| < |PathOf(cs)|
  {
    ComponentIn(cs, k + 1);
  }

  /** Whether the component at a depth is the name at j. */
  method ComponentIs(path: seq<Byte>, depth: int, b: seq<Byte>, j: nat, ghost cs: seq<seq<Byte>>, ghost name: seq<Byte>)
    returns (same: bool)
    requires path == PathOf(cs) && AreNames(cs) && Has(b, j, name + [0]) && IsName(name)
    ensures same == Matches(cs, depth, name)
  {
    hide PathOf, IsName, StartOf;
    var component := GetPathComponent(path, depth, cs);
    if component == None {
      return false;
    }
    ComponentIn(cs, depth);
    var r := PathCmp(path, component.value, b, j, cs[depth - 1], name);
    return r == 0;
  }

  /** Searches the blob b; items are the items of its structure block. */
  method ParseDTB(b: seq<Byte>, path: seq<Byte>, ghost cs: seq<seq<Byte>>, ghost items: seq<Item>, ghost root: Node)
    returns (length: nat, data: Option<nat>)
    requires path == PathOf(cs) && AreNames(cs) && 40 <= |b|
    requires Big(b, 0) == FDT_MAGIC ==>
               && HasItems(b, Big(b, 8), items) && WithoutNops(items) == ItemsOf(root) + [Finish]
               && forall i | 0 <= i < |items| :: ItemOk(b, Big(b, 12), items[i])
    ensures Big(b, 0) != FDT_MAGIC ==> length == 0 && data == None
    ensures Big(b, 0) == FDT_MAGIC ==>
              match FindIn(root, 0, cs)
              case Some(p) => length == |p.value| && data.Some? && Has(b, data.value, p.value)
              case None => length == 0 && data == None
  {
    hide PathOf, Big, Has, Encode, HasItems, ItemOk, IsName, FindIn;
    if Big(b, 0) != FDT_MAGIC {
      return 0, None;
    }
    var ptr := Big(b, 8);
    var strtab := Big(b, 12);
    var depth, componentDepth, active := 0, 0, false;
    ghost var rest := items;
    SearchTree(root, items, cs);
    FinishThere(items, ItemsOf(root));
    while true
      invariant Finish in rest && HasItems(b, ptr, rest)
      invariant forall i | 0 <= i < |rest| :: ItemOk(b, strtab, rest[i])
      invariant Search(rest, depth, active && depth == componentDepth, cs) == FindIn(root, 0, cs)
      decreases |rest|
    {
      NextItem(b, ptr, strtab, rest);
      var token := Big(b, ptr);
      if depth != componentDepth {
        active := false;
      }
      if token == FDT_BEGIN_NODE {
        BeginAt(b, ptr, rest[0].name);
        BeginName(b, strtab, rest[0].name);
        var nameLen := StrLen(b, ptr + 4, rest[0].name);
        var same := ComponentIs(path, depth, b, ptr + 4, cs, rest[0].name);
        ptr := ptr + 4 + (nameLen + 4) / 4 * 4;
        if same {
          componentDepth := depth + 1;
          active := true;
        }
        depth := depth + 1;
      } else if token == FDT_PROP {
        ghost var p := rest[0].prop;
        PropName(b, strtab, p);
        PropAt(b, ptr, p);
        var len := Big(b, ptr + 4);
        var nameoff := Big(b, ptr + 8);
        if active {
          var same := ComponentIs(path, depth, b, strtab + nameoff, cs, p.name);
          if same {
            return len, Some(ptr + 12);
          }
        }
        ptr := ptr + 12 + (len + 3) / 4 * 4;
      } else if token == FDT_END_NODE {
        ptr := ptr + 4;
        depth := depth - 1;
      } else if token == FDT_END {
        return 0, None;
      } else {
        ptr := ptr + 4;
      }
      rest := rest[1..];
    }
  }

  /** The item at hand and what follows it. */
  lemma NextItem(b: seq<Byte>, o: nat, strings: nat, rest: seq<Item>)
    requires Finish in rest && HasItems(b, o, rest) && forall i | 0 <= i < |rest| :: ItemOk(b, strings, rest[i])
    ensures rest != [] && Has(b, o, Encode(rest[0])) && ItemOk(b, strings, rest[0])
    ensures o + 4 <= |b| && Big(b, o) == TokenOf(rest[0])
    ensures HasItems(b, o + |Encode(rest[0])|, rest[1..])
    ensures forall i | 0 <= i < |rest[1..]| :: ItemOk(b, strings, rest[1..][i])
    ensures rest[0] != Finish ==> Finish in rest[1..]
    ensures rest[0].End? || rest[0].Nop? ==> |Encode(rest[0])| == 4
  {
    hide Big, ItemOk;
    TokenAt(b, o, rest[0]);
  }

  lemma BeginName(b: seq<Byte>, strings: nat, name: seq<Byte>)
    requires ItemOk(b, strings, Begin(name))
    ensures IsName(name)
  {
  }

  lemma PropName(b: seq<Byte>, strings: nat, p: Property)
    requires ItemOk(b, strings, Prop(p))
    ensures IsName(p.name) && |p.value| < 0x1_0000_0000 && p.nameOff < 0x1_0000_0000
    ensures Has(b, strings + p.nameOff, p.name + [0])
  {
  }

  lemma {:induction false} FinishThere(items: seq<Item>, inner: seq<Item>)
    requires WithoutNops(items) == inner + [Finish]
    ensures Finish in items
    decreases |items|
  {
    assert (inner + [Finish])[|inner|] == Finish;
    KeptItems(items);
  }

  lemma {:induction false} KeptItems(items: seq<Item>)
    ensures forall x | x in WithoutNops(items) :: x in items
    decreases |items|
  {
    if items != [] {
      KeptItems(items[1..]);
    }
  }
}
