/** What the two edits of a device tree look for, token by token as the emulator looks, and the trees that
    come out. */
module FdtTree {
  import opened Words
  import opened Fdt

  /** `seg` is what is at `k`. */
  predicate At(toks: seq<Tok>, k: nat, seg: seq<Tok>) {
    k + |seg| <= |toks| && toks[k..k + |seg|] == seg
  }

  lemma WholeAt(toks: seq<Tok>)
    ensures At(toks, 0, toks)
  {
  }

  lemma AtParts(toks: seq<Tok>, k: nat, a: seq<Tok>, b: seq<Tok>)
    requires At(toks, k, a + b)
    ensures At(toks, k, a) && At(toks, k + |a|, b)
  {
    assert toks[k..k + |a|] == (a + b)[..|a|];
    assert toks[k + |a|..k + |a| + |b|] == (a + b)[|a|..];
  }

  lemma NodeParts(toks: seq<Tok>, k: nat, name: seq<Byte>, items: seq<Item>)
    requires At(toks, k, FlattenItem(Node(name, items)))
    ensures k + 1 + |Flatten(items)| < |toks| && toks[k] == Begin(name) && toks[k + 1 + |Flatten(items)|] == Close
    ensures At(toks, k + 1, Flatten(items)) && |FlattenItem(Node(name, items))| == |Flatten(items)| + 2
  {
    AtParts(toks, k, [Begin(name)] + Flatten(items), [Close]);
    AtParts(toks, k, [Begin(name)], Flatten(items));
    assert toks[k] == toks[k..k + 1][0];
    var e := k + 1 + |Flatten(items)|;
    assert toks[e] == toks[e..e + 1][0];
  }

  lemma PropertyParts(toks: seq<Tok>, k: nat, nameoff: nat, value: seq<Byte>)
    requires At(toks, k, FlattenItem(Property(nameoff, value)))
    ensures k < |toks| && toks[k] == Prop(nameoff, value) && |FlattenItem(Property(nameoff, value))| == 1
  {
  }

  lemma ItemsParts(toks: seq<Tok>, k: nat, items: seq<Item>)
    requires items != [] && At(toks, k, Flatten(items))
    ensures At(toks, k, FlattenItem(items[0])) && At(toks, k + |FlattenItem(items[0])|, Flatten(items[1..]))
    ensures |Flatten(items)| == |FlattenItem(items[0])| + |Flatten(items[1..])|
  {
    hide At, FlattenItem;
    AtParts(toks, k, FlattenItem(items[0]), Flatten(items[1..]));
  }

  // ---- Finding a node ----------------------------------------------------------------------------

  /** The tokens, from the Begin to past the Close, of the first node at depth 2 called `name`. */
  function FindNode(toks: seq<Tok>, k: nat, depth: int, start: Option<nat>, name: seq<Byte>): Option<(nat, nat)>
    requires k <= |toks|
    decreases |toks| - k
  {
    if k == |toks| then None
    else
      match toks[k]
      case Begin(n) =>
        FindNode(toks, k + 1, depth + 1, if start.None? && depth == 1 && n == name then Some(k) else start, name)
      case Close =>
        if start.Some? && depth == 2 then Some((start.value, k + 1)) else FindNode(toks, k + 1, depth - 1, start, name)
      case Prop(_, _) => FindNode(toks, k + 1, depth, start, name)
  }

  predicate HasChild(items: seq<Item>, name: seq<Byte>) {
    items != [] && ((items[0].Node? && items[0].name == name) || HasChild(items[1..], name))
  }

  /** Without the first child of that name. */
  function RemoveFirst(items: seq<Item>, name: seq<Byte>): seq<Item> {
    if items == [] then []
    else if items[0].Node? && items[0].name == name then items[1..]
    else [items[0]] + RemoveFirst(items[1..], name)
  }

  /** Whatever is inside a child is passed over. */
  lemma {:induction false} PassItems(toks: seq<Tok>, k: nat, items: seq<Item>, depth: int, start: Option<nat>,
                                     name: seq<Byte>)
    requires At(toks, k, Flatten(items)) && depth >= 2
    ensures FindNode(toks, k, depth, start, name) == FindNode(toks, k + |Flatten(items)|, depth, start, name)
    decreases items
  {
    hide At, FlattenItem;
    if items != [] {
      ItemsParts(toks, k, items);
      PassItem(toks, k, items[0], depth, start, name);
      PassItems(toks, k + |FlattenItem(items[0])|, items[1..], depth, start, name);
    } else {
      NoTokens();
    }
  }

  lemma NoTokens()
    ensures |Flatten([])| == 0
  {
  }

  lemma {:induction false} PassItem(toks: seq<Tok>, k: nat, item: Item, depth: int, start: Option<nat>, name: seq<Byte>)
    requires At(toks, k, FlattenItem(item))
    requires depth >= 2 || (item.Node? && item.name != name && depth == 1 && start.None?)
    ensures k + |FlattenItem(item)| <= |toks|
    ensures FindNode(toks, k, depth, start, name) == FindNode(toks, k + |FlattenItem(item)|, depth, start, name)
    decreases item
  {
    hide Flatten, FlattenItem, At;
    AtEnds(toks, k, FlattenItem(item));
    match item {
      case Property(nameoff, value) => PropertyParts(toks, k, nameoff, value);
      case Node(n, items) =>
        NodeParts(toks, k, n, items);
        PassItems(toks, k + 1, items, depth + 1, start, name);
    }
  }

  lemma AtEnds(toks: seq<Tok>, k: nat, seg: seq<Tok>)
    requires At(toks, k, seg)
    ensures k + |seg| <= |toks|
  {
  }

  function Cut(toks: seq<Tok>, i: nat, j: nat): seq<Tok>
    requires i <= j <= |toks|
  {
    toks[..i] + toks[j..]
  }

  lemma CutFirst(one: seq<Tok>, rest: seq<Tok>)
    ensures Cut(one + rest, 0, |one|) == rest
  {
  }

  lemma CutAfter(one: seq<Tok>, rest: seq<Tok>, i: nat, j: nat)
    requires i <= j <= |rest|
    ensures Cut(one + rest, i + |one|, j + |one|) == one + Cut(rest, i, j)
  {
  }

  /** Among the root's children, the first of the name is found; and taking its tokens out leaves the
      tokens of the tree without it. */
  lemma {:induction false} FindChild(toks: seq<Tok>, k: nat, items: seq<Item>, name: seq<Byte>)
    requires At(toks, k, Flatten(items))
    ensures k + |Flatten(items)| <= |toks|
    ensures var r := FindNode(toks, k, 1, None, name);
      if HasChild(items, name) then
        && r.Some? && k <= r.value.0 < r.value.1 <= k + |Flatten(items)|
        && Cut(Flatten(items), r.value.0 - k, r.value.1 - k) == Flatten(RemoveFirst(items, name))
      else r == FindNode(toks, k + |Flatten(items)|, 1, None, name)
    decreases |items|
  {
    hide At, FlattenItem, FindNode, Cut;
    AtEnds(toks, k, Flatten(items));
    if items == [] {
      NoTokens();
    } else {
      var one, rest := FlattenItem(items[0]), Flatten(items[1..]);
      ItemsParts(toks, k, items);
      if items[0].Node? && items[0].name == name {
        TakeChild(toks, k, items[0], name);
        CutFirst(one, rest);
      } else {
        PassChild(toks, k, items[0], name);
        FindChild(toks, k + |one|, items[1..], name);
        if HasChild(items[1..], name) {
          var r := FindNode(toks, k, 1, None, name).value;
          CutAfter(one, rest, r.0 - k - |one|, r.1 - k - |one|);
          FlattenCons(items[0], RemoveFirst(items[1..], name));
        }
      }
    }
  }

  lemma FlattenCons(item: Item, items: seq<Item>)
    ensures Flatten([item] + items) == FlattenItem(item) + Flatten(items)
  {
  }

  lemma PassChild(toks: seq<Tok>, k: nat, item: Item, name: seq<Byte>)
    requires At(toks, k, FlattenItem(item)) && !(item.Node? && item.name == name)
    ensures k + |FlattenItem(item)| <= |toks|
    ensures FindNode(toks, k, 1, None, name) == FindNode(toks, k + |FlattenItem(item)|, 1, None, name)
  {
    hide At, FlattenItem;
    if item.Node? {
      PassItem(toks, k, item, 1, None, name);
    } else {
      PropertyParts(toks, k, item.nameoff, item.value);
    }
  }

  lemma TakeChild(toks: seq<Tok>, k: nat, item: Item, name: seq<Byte>)
    requires At(toks, k, FlattenItem(item)) && item.Node? && item.name == name
    ensures k < k + |FlattenItem(item)| <= |toks|
    ensures FindNode(toks, k, 1, None, name) == Some((k, k + |FlattenItem(item)|))
  {
    hide At, FlattenItem, Flatten;
    NodeParts(toks, k, item.name, item.items);
    PassItems(toks, k + 1, item.items, 2, Some(k), name);
  }

  /** The whole tree. */
  lemma FindInTree(toks: seq<Tok>, root: Item, name: seq<Byte>)
    requires root.Node? && toks == FlattenItem(root)
    ensures var r := FindNode(toks, 0, 0, None, name);
      if HasChild(root.items, name) then
        && r.Some? && r.value.0 < r.value.1 <= |toks|
        && Cut(toks, r.value.0, r.value.1) == FlattenItem(Node(root.name, RemoveFirst(root.items, name)))
      else r == None
  {
    hide Flatten, Cut, At, FindNode, FlattenItem;
    var f := Flatten(root.items);
    WholeAt(toks);
    NodeParts(toks, 0, root.name, root.items);
    RootSteps(toks, name);
    FindChild(toks, 1, root.items, name);
    if HasChild(root.items, name) {
      var r := FindNode(toks, 0, 0, None, name).value;
      FlattenNode(root.name, root.items);
      FlattenNode(root.name, RemoveFirst(root.items, name));
      CutInside(Begin(root.name), f, Close, r.0, r.1);
    }
  }

  lemma CutInside(one: Tok, f: seq<Tok>, last: Tok, i: nat, j: nat)
    requires 1 <= i <= j <= |f| + 1
    ensures Cut([one] + f + [last], i, j) == [one] + Cut(f, i - 1, j - 1) + [last]
  {
  }

  lemma FlattenNode(name: seq<Byte>, items: seq<Item>)
    ensures FlattenItem(Node(name, items)) == [Begin(name)] + Flatten(items) + [Close]
  {
  }

  lemma RootSteps(toks: seq<Tok>, name: seq<Byte>)
    requires |toks| >= 2 && toks[0].Begin? && toks[|toks| - 1].Close?
    ensures FindNode(toks, 0, 0, None, name) == FindNode(toks, 1, 1, None, name)
    ensures FindNode(toks, |toks| - 1, 1, None, name) == None
  {
  }

  // ---- Finding the memory node's reg -----------------------------------------------------------------

  datatype Found = Nowhere | BadSize | AtToken(k: nat)

  predicate IsMemory(name: seq<Byte>) {
    |name| >= 7 && name[..7] == [0x6D, 0x65, 0x6D, 0x6F, 0x72, 0x79, 0x40]   // memory@
  }

  /** The first property `reg` says is one called reg, inside a memory node at depth 2. */
  function FindReg(toks: seq<Tok>, k: nat, depth: int, inMemory: bool, reg: nat -> bool): Found
    requires k <= |toks|
    decreases |toks| - k
  {
    if k == |toks| then Nowhere
    else
      match toks[k]
      case Begin(n) => FindReg(toks, k + 1, depth + 1, inMemory || (depth == 1 && IsMemory(n)), reg)
      case Close => FindReg(toks, k + 1, depth - 1, inMemory && depth != 2, reg)
      case Prop(nameoff, value) =>
        if inMemory && reg(nameoff) then (if |value| == 16 then AtToken(k) else BadSize)
        else FindReg(toks, k + 1, depth, inMemory, reg)
  }

  predicate HasReg(item: Item, reg: nat -> bool)
    decreases item
  {
    match item
    case Property(nameoff, _) => reg(nameoff)
    case Node(_, items) => AnyReg(items, reg)
  }

  predicate AnyReg(items: seq<Item>, reg: nat -> bool)
    decreases items
  {
    items != [] && (HasReg(items[0], reg) || AnyReg(items[1..], reg))
  }

  /** With the first reg, outermost and leftmost first, given a new value. */
  function PatchItem(item: Item, reg: nat -> bool, value: seq<Byte>): Item
    decreases item
  {
    match item
    case Property(nameoff, _) => Property(nameoff, value)
    case Node(name, items) => Node(name, PatchFirst(items, reg, value))
  }

  function PatchFirst(items: seq<Item>, reg: nat -> bool, value: seq<Byte>): seq<Item>
    decreases items
  {
    if items == [] then []
    else if HasReg(items[0], reg) then [PatchItem(items[0], reg, value)] + items[1..]
    else [items[0]] + PatchFirst(items[1..], reg, value)
  }

  /** The value of that reg. */
  function FirstReg(items: seq<Item>, reg: nat -> bool): seq<Byte>
    requires AnyReg(items, reg)
    decreases items
  {
    if HasReg(items[0], reg) then RegIn(items[0], reg) else FirstReg(items[1..], reg)
  }

  function RegIn(item: Item, reg: nat -> bool): seq<Byte>
    requires HasReg(item, reg)
    decreases item
  {
    match item
    case Property(_, value) => value
    case Node(_, items) => FirstReg(items, reg)
  }

  /** A root-level memory node with a reg inside. */
  predicate IsTarget(item: Item, reg: nat -> bool) {
    item.Node? && IsMemory(item.name) && AnyReg(item.items, reg)
  }

  predicate HasTarget(items: seq<Item>, reg: nat -> bool) {
    items != [] && (IsTarget(items[0], reg) || HasTarget(items[1..], reg))
  }

  /** The first of them. */
  function Target(items: seq<Item>, reg: nat -> bool): (item: Item)
    requires HasTarget(items, reg)
    ensures IsTarget(item, reg)
  {
    if IsTarget(items[0], reg) then items[0] else Target(items[1..], reg)
  }

  function PatchMemory(items: seq<Item>, reg: nat -> bool, value: seq<Byte>): seq<Item> {
    if items == [] then []
    else if IsTarget(items[0], reg) then [PatchItem(items[0], reg, value)] + items[1..]
    else [items[0]] + PatchMemory(items[1..], reg, value)
  }

  /** The token found is a reg whose value is `first`, if that is sixteen bytes, and rewriting it gives the
      tokens `patched`. */
  ghost predicate Finds(toks: seq<Tok>, k: nat, flat: seq<Tok>, r: Found, reg: nat -> bool, first: seq<Byte>,
                        value: seq<Byte>, patched: seq<Tok>)
  {
    if |first| != 16 then r == BadSize
    else
      && r.AtToken? && k <= r.k < k + |flat| <= |toks|
      && toks[r.k].Prop? && reg(toks[r.k].nameoff) && toks[r.k].value == first
      && flat[r.k - k := Prop(toks[r.k].nameoff, value)] == patched
  }

  lemma {:induction false} RegItems(toks: seq<Tok>, k: nat, items: seq<Item>, depth: int, reg: nat -> bool,
                                    value: seq<Byte>)
    requires At(toks, k, Flatten(items)) && depth >= 2
    ensures k + |Flatten(items)| <= |toks|
    ensures var r := FindReg(toks, k, depth, true, reg);
      if AnyReg(items, reg) then
        Finds(toks, k, Flatten(items), r, reg, FirstReg(items, reg), value, Flatten(PatchFirst(items, reg, value)))
      else r == FindReg(toks, k + |Flatten(items)|, depth, true, reg)
    decreases items
  {
    hide At, FlattenItem, FindReg, HasReg, PatchItem;
    AtEnds(toks, k, Flatten(items));
    if items == [] {
      NoTokens();
    } else {
      var one, rest := FlattenItem(items[0]), Flatten(items[1..]);
      ItemsParts(toks, k, items);
      RegItem(toks, k, items[0], depth, reg, value);
      var r := FindReg(toks, k, depth, true, reg);
      if HasReg(items[0], reg) {
        FlattenCons(PatchItem(items[0], reg, value), items[1..]);
        FindsMore(toks, k, one, rest, r, reg, RegIn(items[0], reg), value,
          FlattenItem(PatchItem(items[0], reg, value)));
      } else {
        RegItems(toks, k + |one|, items[1..], depth, reg, value);
        FlattenCons(items[0], PatchFirst(items[1..], reg, value));
        if AnyReg(items[1..], reg) {
          FindsAfter(toks, k, one, rest, r, reg, FirstReg(items[1..], reg), value,
            Flatten(PatchFirst(items[1..], reg, value)));
        }
      }
    }
  }

  lemma FindsMore(toks: seq<Tok>, k: nat, one: seq<Tok>, rest: seq<Tok>, r: Found, reg: nat -> bool, first: seq<Byte>,
        value: seq<Byte>, patched: seq<Tok>)
    requires Finds(toks, k, one, r, reg, first, value, patched) && k + |one| + |rest| <= |toks|
    ensures Finds(toks, k, one + rest, r, reg, first, value, patched + rest)
  {
  }

  lemma FindsAfter(toks: seq<Tok>, k: nat, one: seq<Tok>, rest: seq<Tok>, r: Found, reg: nat -> bool, first: seq<Byte>,
        value: seq<Byte>, patched: seq<Tok>)
    requires Finds(toks, k + |one|, rest, r, reg, first, value, patched)
    ensures Finds(toks, k, one + rest, r, reg, first, value, one + patched)
  {
  }

  lemma {:induction false} RegItem(toks: seq<Tok>, k: nat, item: Item, depth: int, reg: nat -> bool, value: seq<Byte>)
    requires At(toks, k, FlattenItem(item)) && depth >= 2
    ensures k + |FlattenItem(item)| <= |toks|
    ensures var r := FindReg(toks, k, depth, true, reg);
      if HasReg(item, reg) then
        Finds(toks, k, FlattenItem(item), r, reg, RegIn(item, reg), value, FlattenItem(PatchItem(item, reg, value)))
      else r == FindReg(toks, k + |FlattenItem(item)|, depth, true, reg)
    decreases item
  {
    hide At, Flatten;
    AtEnds(toks, k, FlattenItem(item));
    match item {
      case Property(nameoff, v) =>
        PropertyParts(toks, k, nameoff, v);
      case Node(n, items) =>
        NodeParts(toks, k, n, items);
        RegItems(toks, k + 1, items, depth + 1, reg, value);
        if AnyReg(items, reg) {
          RegInside(toks, k, n, items, FindReg(toks, k + 1, depth + 1, true, reg), reg, value);
        }
    }
  }

  lemma RegInside(toks: seq<Tok>, k: nat, n: seq<Byte>, items: seq<Item>, r: Found, reg: nat -> bool, value: seq<Byte>)
    requires AnyReg(items, reg)
    requires Finds(toks, k + 1, Flatten(items), r, reg, FirstReg(items, reg), value,
      Flatten(PatchFirst(items, reg, value)))
    requires k + 2 + |Flatten(items)| <= |toks|
    ensures Finds(toks, k, FlattenItem(Node(n, items)), r, reg, FirstReg(items, reg), value,
                  FlattenItem(Node(n, PatchFirst(items, reg, value))))
  {
  }

  /** Outside a memory node nothing is looked at. */
  lemma {:induction false} PassOutside(toks: seq<Tok>, k: nat, items: seq<Item>, depth: int, reg: nat -> bool)
    requires At(toks, k, Flatten(items)) && depth >= 2
    ensures k + |Flatten(items)| <= |toks|
    ensures FindReg(toks, k, depth, false, reg) == FindReg(toks, k + |Flatten(items)|, depth, false, reg)
    decreases items
  {
    hide At, FlattenItem;
    AtEnds(toks, k, Flatten(items));
    if items != [] {
      ItemsParts(toks, k, items);
      PassOutsideItem(toks, k, items[0], depth, reg);
      PassOutside(toks, k + |FlattenItem(items[0])|, items[1..], depth, reg);
    } else {
      NoTokens();
    }
  }

  lemma {:induction false} PassOutsideItem(toks: seq<Tok>, k: nat, item: Item, depth: int, reg: nat -> bool)
    requires At(toks, k, FlattenItem(item)) && (depth >= 2 || (depth == 1 && (item.Node? ==> !IsMemory(item.name))))
    ensures k + |FlattenItem(item)| <= |toks|
    ensures FindReg(toks, k, depth, false, reg) == FindReg(toks, k + |FlattenItem(item)|, depth, false, reg)
    decreases item
  {
    hide At, FlattenItem, Flatten, IsMemory;
    AtEnds(toks, k, FlattenItem(item));
    match item {
      case Property(nameoff, value) => PropertyParts(toks, k, nameoff, value);
      case Node(n, items) =>
        NodeParts(toks, k, n, items);
        PassOutside(toks, k + 1, items, depth + 1, reg);
    }
  }

  lemma TargetParts(item: Item, reg: nat -> bool)
    requires IsTarget(item, reg)
    ensures item.Node? && AnyReg(item.items, reg) && HasReg(item, reg) && RegIn(item, reg) == FirstReg(item.items, reg)
  {
  }

  /** One child of the root. */
  lemma RegChild(toks: seq<Tok>, k: nat, item: Item, reg: nat -> bool, value: seq<Byte>)
    requires At(toks, k, FlattenItem(item))
    ensures k + |FlattenItem(item)| <= |toks|
    ensures var r := FindReg(toks, k, 1, false, reg);
      if IsTarget(item, reg) then
        Finds(toks, k, FlattenItem(item), r, reg, RegIn(item, reg), value, FlattenItem(PatchItem(item, reg, value)))
      else r == FindReg(toks, k + |FlattenItem(item)|, 1, false, reg)
  {
    hide At, Flatten, IsMemory, AnyReg, PatchFirst;
    if item.Node? && IsMemory(item.name) {
      NodeParts(toks, k, item.name, item.items);
      RegItems(toks, k + 1, item.items, 2, reg, value);
      if AnyReg(item.items, reg) {
        RegInside(toks, k, item.name, item.items, FindReg(toks, k + 1, 2, true, reg), reg, value);
      }
    } else {
      PassOutsideItem(toks, k, item, 1, reg);
    }
  }

  lemma {:induction false} RegChildren(toks: seq<Tok>, k: nat, items: seq<Item>, reg: nat -> bool, value: seq<Byte>)
    requires At(toks, k, Flatten(items))
    ensures k + |Flatten(items)| <= |toks|
    ensures var r := FindReg(toks, k, 1, false, reg);
      if HasTarget(items, reg) then
        Finds(toks, k, Flatten(items), r, reg, FirstReg(Target(items, reg).items, reg), value,
              Flatten(PatchMemory(items, reg, value)))
      else r == FindReg(toks, k + |Flatten(items)|, 1, false, reg)
    decreases |items|
  {
    hide At, FlattenItem, FindReg, IsTarget, PatchItem;
    AtEnds(toks, k, Flatten(items));
    if items == [] {
      NoTokens();
    } else {
      var one, rest := FlattenItem(items[0]), Flatten(items[1..]);
      ItemsParts(toks, k, items);
      RegChild(toks, k, items[0], reg, value);
      var r := FindReg(toks, k, 1, false, reg);
      if HasTarget(items, reg) {
        TargetParts(Target(items, reg), reg);
      }
      if IsTarget(items[0], reg) {
        FlattenCons(PatchItem(items[0], reg, value), items[1..]);
        FindsMore(toks, k, one, rest, r, reg, RegIn(items[0], reg), value,
          FlattenItem(PatchItem(items[0], reg, value)));
      } else {
        RegChildren(toks, k + |one|, items[1..], reg, value);
        FlattenCons(items[0], PatchMemory(items[1..], reg, value));
        if HasTarget(items[1..], reg) {
          FindsAfter(toks, k, one, rest, r, reg, FirstReg(Target(items[1..], reg).items, reg), value,
                     Flatten(PatchMemory(items[1..], reg, value)));
        }
      }
    }
  }

  /** The whole tree: the reg found, if any, is in the first memory node that has one inside. */
  lemma RegInTree(toks: seq<Tok>, root: Item, reg: nat -> bool, value: seq<Byte>)
    requires root.Node? && toks == FlattenItem(root)
    ensures var r := FindReg(toks, 0, 0, false, reg);
      if HasTarget(root.items, reg) then
        Finds(toks, 0, toks, r, reg, FirstReg(Target(root.items, reg).items, reg), value,
              FlattenItem(Node(root.name, PatchMemory(root.items, reg, value))))
      else r == Nowhere
  {
    hide Flatten, PatchMemory;
    assert At(toks, 0, FlattenItem(root));
    NodeParts(toks, 0, root.name, root.items);
    RegChildren(toks, 1, root.items, reg, value);
    var f := Flatten(root.items);
    if HasTarget(root.items, reg) {
      var r := FindReg(toks, 1, 1, false, reg);
      var first := FirstReg(Target(root.items, reg).items, reg);
      FindsAfter(toks, 0, [Begin(root.name)], f, r, reg, first, value, Flatten(PatchMemory(root.items, reg, value)));
      FindsMore(toks, 0, [Begin(root.name)] + f, [Close], r, reg, first, value,
                [Begin(root.name)] + Flatten(PatchMemory(root.items, reg, value)));
    }
  }

  // ---- Whose reg --------------------------------------------------------------------------------------------

  /** The first of a node's items with a reg in it is a property. */
  predicate OwnFirst(items: seq<Item>, reg: nat -> bool) {
    items != [] && (if HasReg(items[0], reg) then items[0].Property? else OwnFirst(items[1..], reg))
  }

  /** The items, with one property of theirs given the value, are `patched`. */
  ghost predicate OwnPatched(items: seq<Item>, reg: nat -> bool, value: seq<Byte>, patched: seq<Item>) {
    exists k | 0 <= k < |items| :: items[k].Property? && reg(items[k].nameoff)
      && patched == items[k := Property(items[k].nameoff, value)]
  }

  lemma {:induction false} OwnFirstPatched(items: seq<Item>, reg: nat -> bool, value: seq<Byte>)
    requires OwnFirst(items, reg)
    ensures OwnPatched(items, reg, value, PatchFirst(items, reg, value))
  {
    var patched := PatchFirst(items, reg, value);
    if HasReg(items[0], reg) {
      assert PatchItem(items[0], reg, value) == Property(items[0].nameoff, value);
      assert patched == [Property(items[0].nameoff, value)] + items[1..]
        == items[0 := Property(items[0].nameoff, value)];
    } else {
      var rest := items[1..];
      OwnFirstPatched(rest, reg, value);
      var k :| 0 <= k < |rest| && rest[k].Property? && reg(rest[k].nameoff)
        && PatchFirst(rest, reg, value) == rest[k := Property(rest[k].nameoff, value)];
      assert patched == items[k + 1 := Property(items[k + 1].nameoff, value)];
    }
  }

  /** The longest value anywhere in an item. */
  function Longest(item: Item): nat
    decreases item
  {
    match item
    case Property(_, value) => |value|
    case Node(_, items) => LongestOf(items)
  }

  function LongestOf(items: seq<Item>): nat
    decreases items
  {
    if items == [] then 0
    else if Longest(items[0]) < LongestOf(items[1..]) then LongestOf(items[1..]) else Longest(items[0])
  }

  /** A value longer than any there shows where it went. */
  lemma {:induction false} PatchShows(items: seq<Item>, reg: nat -> bool, value: seq<Byte>)
    requires AnyReg(items, reg) && |value| > LongestOf(items)
    ensures PatchFirst(items, reg, value) != items
    decreases items
  {
    if HasReg(items[0], reg) {
      assert PatchFirst(items, reg, value)[0] == PatchItem(items[0], reg, value);
      if items[0].Node? {
        PatchShows(items[0].items, reg, value);
      }
    } else {
      PatchShows(items[1..], reg, value);
      assert PatchFirst(items, reg, value)[1..] == PatchFirst(items[1..], reg, value);
    }
  }

  lemma {:induction false} NotOwnFirstPatched(items: seq<Item>, reg: nat -> bool, value: seq<Byte>)
    requires AnyReg(items, reg) && !OwnFirst(items, reg) && |value| > LongestOf(items)
    ensures !OwnPatched(items, reg, value, PatchFirst(items, reg, value))
    decreases |items|
  {
    var patched, rest := PatchFirst(items, reg, value), items[1..];
    if HasReg(items[0], reg) {
      PatchShows(items[0].items, reg, value);
      assert patched[0] == PatchItem(items[0], reg, value)
        == Node(items[0].name, PatchFirst(items[0].items, reg, value));
    } else {
      NotOwnFirstPatched(rest, reg, value);
      forall k | 0 <= k < |items| && items[k].Property? && reg(items[k].nameoff)
        ensures patched != items[k := Property(items[k].nameoff, value)]
      {
        assert k > 0;
        assert items[k := Property(items[k].nameoff, value)][1..]
          == rest[k - 1 := Property(rest[k - 1].nameoff, value)];
        assert patched[1..] == PatchFirst(rest, reg, value);
      }
    }
  }

  /** Of the children of the root `items`, a memory node has its own reg given the value, and nothing else
      differs in `patched`. */
  ghost predicate MemorySet(items: seq<Item>, reg: nat -> bool, value: seq<Byte>, patched: seq<Item>) {
    exists t, own {:trigger OwnPatched(items[t].items, reg, value, own)} | 0 <= t < |items| && items[t].Node? ::
      IsMemory(items[t].name) && OwnPatched(items[t].items, reg, value, own)
        && patched == items[t := Node(items[t].name, own)]
  }

  lemma {:induction false} PatchedTarget(items: seq<Item>, reg: nat -> bool, value: seq<Byte>) returns (t: nat)
    requires HasTarget(items, reg)
    ensures t < |items| && items[t] == Target(items, reg)
    ensures PatchMemory(items, reg, value) == items[t := Node(items[t].name, PatchFirst(items[t].items, reg, value))]
    decreases |items|
  {
    if IsTarget(items[0], reg) {
      t := 0;
    } else {
      var u := PatchedTarget(items[1..], reg, value);
      t := u + 1;
    }
  }

  lemma {:induction false} LongestThere(items: seq<Item>, t: nat)
    requires t < |items|
    ensures Longest(items[t]) <= LongestOf(items)
    decreases |items|
  {
    if t > 0 {
      LongestThere(items[1..], t - 1);
    }
  }

  /** What the edit of a tree sets is a memory node's own reg, whatever the new value, exactly if in the first
      memory node with a reg inside no child with a reg comes before one of its own -- which the
      specification's order, properties before children, guarantees for a node that has one. */
  lemma OwnRegExactly(items: seq<Item>, reg: nat -> bool)
    requires HasTarget(items, reg)
    ensures (forall value: seq<Byte> :: MemorySet(items, reg, value, PatchMemory(items, reg, value)))
       <==> OwnFirst(Target(items, reg).items, reg)
  {
    hide PatchMemory, PatchFirst, OwnFirst, IsMemory, OwnPatched, AnyReg;
    if OwnFirst(Target(items, reg).items, reg) {
      forall value: seq<Byte>
        ensures MemorySet(items, reg, value, PatchMemory(items, reg, value))
      {
        var t := PatchedTarget(items, reg, value);
        OwnFirstPatched(items[t].items, reg, value);
      }
    } else {
      var value: seq<Byte> := seq(LongestOf(items) + 1, _ => 0);
      var t := PatchedTarget(items, reg, value);
      var patched := PatchMemory(items, reg, value);
      LongestThere(items, t);
      NotOwnFirstPatched(items[t].items, reg, value);
      PatchShows(items[t].items, reg, value);
      assert patched[t] != items[t];
      forall u, own | 0 <= u < |items| && items[u].Node? && OwnPatched(items[u].items, reg, value, own)
        ensures patched != items[u := Node(items[u].name, own)]
      {
        assert u != t ==> items[u := Node(items[u].name, own)][t] == items[t];
        assert u == t ==> own != PatchFirst(items[t].items, reg, value);
      }
    }
  }

  /** memory@0 with a bank inside it before its own reg, sixteen bytes each. */
  function BankFirst(bank: seq<Byte>, own: seq<Byte>): Item {
    Node([0x6D, 0x65, 0x6D, 0x6F, 0x72, 0x79, 0x40, 0x30], [Node([0x62], [Property(0, bank)]), Property(0, own)])
  }

  /** The wrong reg: the bank's is set, and the memory node's own left as it was. */
  lemma WrongRegSet(bank: seq<Byte>, own: seq<Byte>, value: seq<Byte>)
    ensures var reg := (nameoff: nat) => nameoff == 0;
      && HasTarget([BankFirst(bank, own)], reg)
      && FirstReg(Target([BankFirst(bank, own)], reg).items, reg) == bank
      && PatchMemory([BankFirst(bank, own)], reg, value) == [BankFirst(value, own)]
  {
    var reg := (nameoff: nat) => nameoff == 0;
    var inner, mine := [Property(0, bank)], Property(0, own);
    assert HasReg(Property(0, bank), reg) && AnyReg(inner, reg) && inner[1..] == [];
    assert PatchFirst(inner, reg, value) == [Property(0, value)];
    var items := [Node([0x62], inner), mine];
    assert items[1..] == [mine] && HasReg(items[0], reg) && AnyReg(items, reg);
    assert PatchFirst(items, reg, value) == [Node([0x62], [Property(0, value)]), mine];
    assert FirstReg(inner, reg) == RegIn(Property(0, bank), reg) == bank;
    assert FirstReg(items, reg) == RegIn(items[0], reg) == FirstReg(inner, reg);
    assert IsMemory(BankFirst(bank, own).name);
    assert [BankFirst(bank, own)][1..] == [];
  }

  /** A node whose properties come first, as the specification has them, and that has a reg. */
  lemma {:induction false} PropertiesFirstIsOwn(items: seq<Item>, reg: nat -> bool, n: nat)
    requires n <= |items| && (forall k | 0 <= k < n :: items[k].Property?)
    requires exists k | 0 <= k < n :: items[k].Property? && reg(items[k].nameoff)
    ensures AnyReg(items, reg) && OwnFirst(items, reg)
  {
    if !reg(items[0].nameoff) {
      var k :| 0 <= k < n && items[k].Property? && reg(items[k].nameoff);
      assert items[1..][k - 1] == items[k];
      PropertiesFirstIsOwn(items[1..], reg, n - 1);
    }
  }
}
