/** Device trees, their flattened form (section 5.4 of the Devicetree Specification), and
    what a search over the flattened form finds. */
module FlatTree {
  import opened Options
  import opened Bytes

  const SLASH: Byte := 47

  datatype Property = Property(name: seq<Byte>, nameOff: nat, value: seq<Byte>)

  datatype Node = Node(name: seq<Byte>, props: seq<Property>, children: seq<Node>)

  /** One token of the structure block with its data. */
  datatype Item = Begin(name: seq<Byte>) | Prop(prop: Property) | End | Nop | Finish

  function ItemsOf(n: Node): seq<Item>
    decreases n, 1
  {
    [Begin(n.name)] + PropItems(n.props) + ChildItems(n.children) + [End]
  }

  function PropItems(props: seq<Property>): seq<Item> {
    if props == [] then [] else [Prop(props[0])] + PropItems(props[1..])
  }

  function ChildItems(children: seq<Node>): seq<Item>
    decreases children, 0
  {
    if children == [] then [] else ItemsOf(children[0]) + ChildItems(children[1..])
  }

  // ----- looking a path up in a tree -----

  function FirstProp(props: seq<Property>, name: seq<Byte>): Option<Property> {
    if props == [] then None else if props[0].name == name then Some(props[0]) else FirstProp(props[1..], name)
  }

  function ChildNamed(children: seq<Node>, name: seq<Byte>): (c: Option<Node>)
    ensures c.Some? ==> c.value in children && c.value.name == name
  {
    if children == [] then None else if children[0].name == name then Some(children[0]) else ChildNamed(children[1..], name)
  }

  /** The property a path names: subnodes by all components but the last, which names
      the property. */
  function Resolve(n: Node, cs: seq<seq<Byte>>): Option<Property>
    requires cs != []
    decreases |cs|
  {
    if |cs| == 1 then FirstProp(n.props, cs[0])
    else match ChildNamed(n.children, cs[0])
      case None => None
      case Some(c) => Resolve(c, cs[1..])
  }

  /** Component d of a path, counted from 1, is name. */
  predicate Matches(cs: seq<seq<Byte>>, d: int, name: seq<Byte>) {
    1 <= d <= |cs| && cs[d - 1] == name
  }

  /** The first property, in document order, that is named like a component of the path
      and lies directly in a node that sits at the depth of the component before it and
      is named like that one, whatever the nodes above are called. */
  function FindIn(n: Node, d: nat, cs: seq<seq<Byte>>): Option<Property>
    decreases n, 1
  {
    var own := if Matches(cs, d, n.name) && d < |cs| then FirstProp(n.props, cs[d]) else None;
    if own.Some? then own else FindAmong(n.children, d + 1, cs)
  }

  function FindAmong(children: seq<Node>, d: nat, cs: seq<seq<Byte>>): Option<Property>
    decreases children, 0
  {
    if children == [] then None else
      var first := FindIn(children[0], d, cs);
      if first.Some? then first else FindAmong(children[1..], d, cs)
  }

  // ----- searching the flattened form -----

  /** The search over the items; live says that the node at hand matched. */
  function Search(items: seq<Item>, d: int, live: bool, cs: seq<seq<Byte>>): Option<Property>
    decreases |items|
  {
    if items == [] then None else
      match items[0]
      case Begin(name) => Search(items[1..], d + 1, Matches(cs, d, name), cs)
      case Prop(p) => if live && Matches(cs, d, p.name) then Some(p) else Search(items[1..], d, live, cs)
      case End => Search(items[1..], d - 1, false, cs)
      case Nop => Search(items[1..], d, live, cs)
      case Finish => None
  }

  function WithoutNops(items: seq<Item>): seq<Item> {
    if items == [] then [] else (if items[0].Nop? then [] else [items[0]]) + WithoutNops(items[1..])
  }

  lemma {:induction false} NopsIgnored(items: seq<Item>, d: int, live: bool, cs: seq<seq<Byte>>)
    ensures Search(WithoutNops(items), d, live, cs) == Search(items, d, live, cs)
    decreases |items|
  {
    if items != [] {
      var rest := WithoutNops(items[1..]);
      assert !items[0].Nop? ==> WithoutNops(items)[1..] == rest;
      assert items[0].Nop? ==> WithoutNops(items) == rest;
      match items[0]
      case Begin(name) => NopsIgnored(items[1..], d + 1, Matches(cs, d, name), cs);
      case Prop(p) => NopsIgnored(items[1..], d, live, cs);
      case End => NopsIgnored(items[1..], d - 1, false, cs);
      case Nop => NopsIgnored(items[1..], d, live, cs);
      case Finish =>
    }
  }

  /** Over the items of a node the search finds what is in the node, and is left outside
      any matching node otherwise. */
  lemma {:induction false} SearchNode(n: Node, rest: seq<Item>, d: nat, live: bool, cs: seq<seq<Byte>>)
    ensures Search(ItemsOf(n) + rest, d, live, cs)
            == match FindIn(n, d, cs) case Some(p) => Some(p) case None => Search(rest, d, false, cs)
    decreases n, 1
  {
    var inner := ChildItems(n.children) + ([End] + rest);
    var props := PropItems(n.props) + inner;
    assert ItemsOf(n) + rest == [Begin(n.name)] + props;
    SearchProps(n.props, inner, d + 1, Matches(cs, d, n.name), cs);
    var own := if Matches(cs, d, n.name) && d < |cs| then FirstProp(n.props, cs[d]) else None;
    assert Search(ItemsOf(n) + rest, d, live, cs) == Search(props, d + 1, Matches(cs, d, n.name), cs);
    SearchChildren(n.children, rest, d, Matches(cs, d, n.name), cs);
  }

  lemma {:induction false} SearchProps(props: seq<Property>, rest: seq<Item>, d: nat, live: bool, cs: seq<seq<Byte>>)
    requires 1 <= d
    ensures Search(PropItems(props) + rest, d, live, cs)
            == var own := if live && d <= |cs| then FirstProp(props, cs[d - 1]) else None;
               if own.Some? then own else Search(rest, d, live, cs)
    decreases |props|
  {
    if props == [] {
      assert PropItems(props) + rest == rest;
    } else {
      assert (PropItems(props) + rest)[1..] == PropItems(props[1..]) + rest;
      SearchProps(props[1..], rest, d, live, cs);
    }
  }

  lemma {:induction false} SearchChildren(children: seq<Node>, rest: seq<Item>, d: nat, live: bool, cs: seq<seq<Byte>>)
    ensures Search(ChildItems(children) + ([End] + rest), d + 1, live, cs)
            == match FindAmong(children, d + 1, cs) case Some(p) => Some(p) case None => Search(rest, d, false, cs)
    decreases children, 0
  {
    if children == [] {
      assert ChildItems(children) + ([End] + rest) == [End] + rest;
      assert ([End] + rest)[1..] == rest;
    } else {
      var others := ChildItems(children[1..]) + ([End] + rest);
      assert ChildItems(children) + ([End] + rest) == ItemsOf(children[0]) + others;
      SearchNode(children[0], others, d + 1, live, cs);
      SearchChildren(children[1..], rest, d, false, cs);
    }
  }

  /** The search over a flattened tree, with or without NOP tokens. */
  lemma SearchTree(root: Node, items: seq<Item>, cs: seq<seq<Byte>>)
    requires WithoutNops(items) == ItemsOf(root) + [Finish]
    ensures Search(items, 0, false, cs) == FindIn(root, 0, cs)
  {
    NopsIgnored(items, 0, false, cs);
    SearchNode(root, [Finish], 0, false, cs);
  }

  // ----- when the search finds the property the path names -----

  predicate DistinctNames(children: seq<Node>) {
    forall i, j | 0 <= i < j < |children| :: children[i].name != children[j].name
  }

  /** Below the last component nothing can match. */
  lemma {:induction false} NothingDeep(n: Node, d: nat, cs: seq<seq<Byte>>)
    requires |cs| <= d
    ensures FindIn(n, d, cs) == None
    decreases n, 1
  {
    NothingAmong(n.children, d + 1, cs);
  }

  lemma {:induction false} NothingAmong(children: seq<Node>, d: nat, cs: seq<seq<Byte>>)
    requires |cs| <= d
    ensures FindAmong(children, d, cs) == None
    decreases children, 0
  {
    if children != [] {
      NothingDeep(children[0], d, cs);
      NothingAmong(children[1..], d, cs);
    }
  }

  lemma {:induction false} TwoAmong(children: seq<Node>, cs: seq<seq<Byte>>)
    requires |cs| == 2 && DistinctNames(children)
    ensures FindAmong(children, 1, cs)
            == match ChildNamed(children, cs[0]) case None => None case Some(c) => FirstProp(c.props, cs[1])
    decreases |children|
  {
    if children != [] {
      var c := children[0];
      NothingAmong(c.children, 2, cs);
      TwoAmong(children[1..], cs);
      if c.name == cs[0] {
        NotNamed(children[1..], cs[0]);
      }
    }
  }

  lemma {:induction false} NotNamed(children: seq<Node>, name: seq<Byte>)
    requires forall i | 0 <= i < |children| :: children[i].name != name
    ensures ChildNamed(children, name) == None
    decreases |children|
  {
    if children != [] {
      NotNamed(children[1..], name);
    }
  }

  /** A path of two components finds what it names. */
  lemma TwoComponents(root: Node, cs: seq<seq<Byte>>)
    requires |cs| == 2 && DistinctNames(root.children)
    ensures FindIn(root, 0, cs) == Resolve(root, cs)
  {
    TwoAmong(root.children, cs);
  }

  /** A path of one component never finds the root's property. */
  lemma OneComponent(root: Node, c: seq<Byte>)
    ensures FindIn(root, 0, [c]) == None
  {
    NothingAmong(root.children, 1, [c]);
  }

  /** With three components or more, a property can be found in a node whose parent the
      path does not name. */
  lemma ThreeComponents(cs: seq<seq<Byte>>, root: Node, p: Property)
    requires |cs| >= 3 && p == Property(cs[2], 0, [])
    requires root == Node([], [], [Node(cs[0] + [1], [], [Node(cs[1], [p], [])])])
    ensures FindIn(root, 0, cs) == Some(p) && Resolve(root, cs) == None
  {
    var inner := Node(cs[1], [p], []);
    var outer := Node(cs[0] + [1], [], [inner]);
    assert FindIn(inner, 2, cs) == Some(p);
    assert FindAmong(outer.children, 2, cs) == Some(p);
    assert FindIn(outer, 1, cs) == Some(p);
    assert FindAmong(root.children, 1, cs) == Some(p);
    assert ChildNamed(root.children, cs[0]) == None;
  }

  /** The search is right for every tree with distinct sibling names exactly for the
      paths of two components. */
  lemma RightIffTwo(cs: seq<seq<Byte>>)
    requires cs != []
    ensures (forall root: Node | DistinctNames(root.children) :: FindIn(root, 0, cs) == Resolve(root, cs)) <==> |cs| == 2
  {
    hide FindIn, Resolve, DistinctNames;
    if |cs| == 2 {
      forall root: Node | DistinctNames(root.children)
        ensures FindIn(root, 0, cs) == Resolve(root, cs)
      {
        TwoComponents(root, cs);
      }
    } else {
      var root := WrongFor(cs);
    }
  }

  lemma WrongFor(cs: seq<seq<Byte>>) returns (root: Node)
    requires cs != [] && |cs| != 2
    ensures DistinctNames(root.children) && FindIn(root, 0, cs) != Resolve(root, cs)
  {
    hide FindIn;
    if |cs| == 1 {
      root := Node([], [Property(cs[0], 0, [])], []);
      OneComponent(root, cs[0]);
      assert cs == [cs[0]];
    } else {
      var p := Property(cs[2], 0, []);
      root := Node([], [], [Node(cs[0] + [1], [], [Node(cs[1], [p], [])])]);
      ThreeComponents(cs, root, p);
    }
  }
}
