/** The format itself (chapter 5 of the Devicetree Specification), as one writes it: a tree's structure block
    byte by byte, and what the edits look for and write, in the specification's own literals. */
module FdtFormat {
  import opened Words
  import opened Fdt
  import opened FdtTree
  import opened FdtPatch
  import P = Pmp

  // ---- Numbers -------------------------------------------------------------------------------------

  /** The number big-endian bytes write. */
  function Big(s: seq<Byte>): nat {
    if s == [] then 0 else Big(s[..|s| - 1]) * 0x100 + s[|s| - 1]
  }

  /** The last `n` big-endian bytes of a number. */
  function Digits(v: nat, n: nat): (s: seq<Byte>)
    ensures |s| == n
  {
    if n == 0 then [] else Digits(v / 0x100, n - 1) + [v % 0x100]
  }

  function Power(n: nat): (p: nat)
    ensures p > 0
  {
    if n == 0 then 1 else Power(n - 1) * 0x100
  }

  lemma {:induction false} BigDigits(v: nat, n: nat)
    ensures Big(Digits(v, n)) == v % Power(n)
  {
    if n > 0 {
      BigDigits(v / 0x100, n - 1);
      assert Digits(v, n)[..n - 1] == Digits(v / 0x100, n - 1);
      HighAndLow(v, Power(n - 1));
    }
  }

  lemma HighAndLow(v: nat, p: nat)
    requires p > 0
    ensures v / 0x100 % p * 0x100 + v % 0x100 == v % (p * 0x100)
  {
    var q, r := v / 0x100 / p, v / 0x100 % p;
    assert v / 0x100 == q * p + r;
    assert q * p * 0x100 == q * (p * 0x100);
    P.DivModUnique(v, p * 0x100, q, r * 0x100 + v % 0x100);
  }

  lemma WordIsBig(b: Blob, p: nat)
    requires p + 4 <= |b|
    ensures Word(b, p) == Big(b[p..p + 4])
  {
    hide Big;
    var s := b[p..p + 4];
    NoDigits();
    BigMore(s[..0], s[0]);
    BigMore(s[..1], s[1]);
    BigMore(s[..2], s[2]);
    BigMore(s[..3], s[3]);
    assert s[..0] == [] && s[..0] + [s[0]] == s[..1] && s[..1] + [s[1]] == s[..2];
    assert s[..2] + [s[2]] == s[..3] && s[..3] + [s[3]] == s;
  }

  lemma NoDigits()
    ensures Big([]) == 0
  {
  }

  lemma BigMore(s: seq<Byte>, x: Byte)
    ensures Big(s + [x]) == Big(s) * 0x100 + x
  {
    assert (s + [x])[..|s|] == s;
  }

  /** The eight bytes of a value are the value's, modulo 2^64. */
  lemma Be64IsBig(v: nat)
    ensures |Be64(v)| == 8 && Big(Be64(v)) == v % TWO64
  {
    hide Big;
    BigDigits(v, 8);
    EightDigits(v);
    assert Be64(v) == Digits(v, 8);
    PowerOfEight();
  }

  lemma PowerOfEight()
    ensures Power(8) == TWO64 && Power(4) == TWO32
  {
    assert Power(4) == TWO32;
    assert Power(8) == Power(4) * 0x100 * 0x100 * 0x100 * 0x100;
  }

  lemma EightDigits(v: nat)
    ensures forall i | 0 <= i < 8 :: Digits(v, 8)[i] == Be64Byte(v, i)
  {
    hide Digits, Be64Byte;
    var v4 := v / 0x1_0000_0000;
    FourDigits(v);
    FourDigits(v4);
    SplitDigits(v);
    HighBytes(v);
    LowBytes(v);
  }

  lemma HighBytes(v: nat)
    ensures var v4 := v / 0x1_0000_0000;
      && Be64Byte(v, 0) == v4 / 0x100_0000 % 0x100 && Be64Byte(v, 1) == v4 / 0x1_0000 % 0x100
      && Be64Byte(v, 2) == v4 / 0x100 % 0x100 && Be64Byte(v, 3) == v4 % 0x100
  {
    var v4 := v / 0x1_0000_0000;
    DivDiv(v, 0x100_0000, 0x100_0000_0000_0000);
    DivDiv(v, 0x1_0000, 0x1_0000_0000_0000);
    DivDiv(v, 0x100, 0x100_0000_0000);
  }

  lemma DivDiv(v: nat, d: nat, both: nat)
    requires d > 0 && both == 0x1_0000_0000 * d
    ensures v / 0x1_0000_0000 / d == v / both
  {
    var h := v / 0x1_0000_0000;
    var q, r, low := h / d, h % d, v % 0x1_0000_0000;
    assert h == q * d + r && v == h * 0x1_0000_0000 + low;
    assert q * d * 0x1_0000_0000 == q * both;
    P.DivModUnique(v, both, q, r * 0x1_0000_0000 + low);
  }

  lemma LowBytes(v: nat)
    ensures Be64Byte(v, 4) == v / 0x100_0000 % 0x100 && Be64Byte(v, 5) == v / 0x1_0000 % 0x100
    ensures Be64Byte(v, 6) == v / 0x100 % 0x100 && Be64Byte(v, 7) == v % 0x100
  {
  }

  lemma FourDigits(v: nat)
    ensures Digits(v, 4) == [v / 0x100_0000 % 0x100, v / 0x1_0000 % 0x100, v / 0x100 % 0x100, v % 0x100]
  {
    var v1 := v / 0x100;
    var v2 := v1 / 0x100;
    var v3 := v2 / 0x100;
    assert v2 == v / 0x1_0000 && v3 == v / 0x100_0000;
    assert Digits(v3, 1) == Digits(v3 / 0x100, 0) + [v3 % 0x100] == [v3 % 0x100];
    assert Digits(v2, 2) == [v3 % 0x100, v2 % 0x100];
    assert Digits(v1, 3) == [v3 % 0x100, v2 % 0x100, v1 % 0x100];
  }

  lemma SplitDigits(v: nat)
    ensures Digits(v, 8) == Digits(v / 0x1_0000_0000, 4) + Digits(v, 4)
  {
    var v1 := v / 0x100;
    var v2 := v1 / 0x100;
    var v3 := v2 / 0x100;
    var v4 := v3 / 0x100;
    assert v4 == v / 0x1_0000_0000;
    var d := Digits(v4, 4);
    assert Digits(v3, 5) == d + Digits(v3, 1);
    assert Digits(v2, 6) == d + Digits(v2, 2);
    assert Digits(v1, 7) == d + Digits(v1, 3);
  }

  // ---- A structure block written -------------------------------------------------------------------

  function Zeros(n: nat): (s: seq<Byte>)
    ensures |s| == n
  {
    seq(n, _ => 0)
  }

  /** Section 5.4.1: 1 and the name with its NUL, 2, and 3, the length, the name's offset and the value; each
      padded with zeros to a word. */
  function Written(t: Tok): seq<Byte> {
    match t
    case Begin(name) => [0, 0, 0, 1] + name + [0] + Zeros(3 - |name| % 4)
    case Close => [0, 0, 0, 2]
    case Prop(nameoff, value) =>
      [0, 0, 0, 3] + Digits(|value|, 4) + Digits(nameoff, 4) + value + Zeros((4 - |value| % 4) % 4)
  }

  /** And the block ends with 9. */
  function Block(toks: seq<Tok>): seq<Byte> {
    if toks == [] then [0, 0, 0, 9] else Written(toks[0]) + Block(toks[1..])
  }

  /** What can be written: names have no NUL in them, and the numbers are 32-bit. */
  predicate Writable(t: Tok) {
    match t
    case Begin(name) => 0 !in name
    case Close => true
    case Prop(nameoff, value) => nameoff < TWO32 && |value| < TWO32
  }

  predicate Holds(b: Blob, p: nat, s: seq<Byte>) {
    p + |s| <= |b| && b[p..p + |s|] == s
  }

  lemma HoldsParts(b: Blob, p: nat, s: seq<Byte>, t: seq<Byte>)
    requires Holds(b, p, s + t)
    ensures Holds(b, p, s) && Holds(b, p + |s|, t)
  {
    assert b[p..p + |s|] == (s + t)[..|s|];
    assert b[p + |s|..p + |s| + |t|] == (s + t)[|s|..];
  }

  lemma HoldsWord(b: Blob, p: nat, w: nat)
    requires Holds(b, p, Digits(w, 4)) && w < TWO32
    ensures p + 4 <= |b| && Word(b, p) == w
  {
    hide Big;
    WordIsBig(b, p);
    BigDigits(w, 4);
    PowerOfEight();
  }

  lemma HoldsSmall(b: Blob, p: nat, w: Byte)
    requires Holds(b, p, [0, 0, 0, w])
    ensures p + 4 <= |b| && Word(b, p) == w
  {
    assert b[p] == b[p..p + 4][0] && b[p + 1] == b[p..p + 4][1] && b[p + 2] == b[p..p + 4][2];
    assert b[p + 3] == b[p..p + 4][3];
  }

  lemma {:induction false} HoldsStr(b: Blob, p: nat, name: seq<Byte>)
    requires Holds(b, p, name + [0]) && 0 !in name
    ensures Str(b, p) == name
    decreases |name|
  {
    if name == [] {
      assert b[p] == b[p..p + 1][0];
    } else {
      assert name + [0] == [name[0]] + (name[1..] + [0]);
      HoldsParts(b, p, [name[0]], name[1..] + [0]);
      assert b[p] == b[p..p + 1][0] && name[0] in name;
      HoldsStr(b, p + 1, name[1..]);
    }
  }

  lemma ReadWritten(b: Blob, p: nat, end: nat, t: Tok)
    requires Holds(b, p, Written(t)) && Writable(t) && p + |Written(t)| <= end <= |b|
    ensures p + 4 <= end && Word(b, p) in {1, 2, 3} && Read(b, p, end) == Some(Placed(p, p + |Written(t)|, t))
  {
    hide Word, Str, Digits, Holds, Zeros;
    match t {
      case Begin(name) => ReadBegin(b, p, end, name);
      case Close => HoldsSmall(b, p, 2);
      case Prop(nameoff, value) => ReadProperty(b, p, end, nameoff, value);
    }
  }

  lemma ReadBegin(b: Blob, p: nat, end: nat, name: seq<Byte>)
    requires Holds(b, p, Written(Begin(name))) && 0 !in name && p + |Written(Begin(name))| <= end <= |b|
    ensures p + 4 <= end && Word(b, p) == 1
    ensures Read(b, p, end) == Some(Placed(p, p + |Written(Begin(name))|, Begin(name)))
  {
    hide Word, Str, Holds, Zeros;
    var head, text := [0, 0, 0, 1], name + [0];
    assert head + name + [0] == head + text;
    HoldsParts(b, p, head + text, Zeros(3 - |name| % 4));
    HoldsParts(b, p, head, text);
    HoldsSmall(b, p, 1);
    HoldsStr(b, p + 4, name);
  }

  lemma ReadProperty(b: Blob, p: nat, end: nat, nameoff: nat, value: seq<Byte>)
    requires Holds(b, p, Written(Prop(nameoff, value))) && Writable(Prop(nameoff, value))
    requires p + |Written(Prop(nameoff, value))| <= end <= |b|
    ensures p + 4 <= end && Word(b, p) == 3
    ensures Read(b, p, end) == Some(Placed(p, p + |Written(Prop(nameoff, value))|, Prop(nameoff, value)))
  {
    hide Word, Str, Digits, Holds;
    var head, size, off := [0, 0, 0, 3], Digits(|value|, 4), Digits(nameoff, 4);
    HoldsParts(b, p, head + size + off + value, Zeros((4 - |value| % 4) % 4));
    HoldsParts(b, p, head + size + off, value);
    HoldsParts(b, p, head + size, off);
    HoldsParts(b, p, head, size);
    HoldsSmall(b, p, 3);
    HoldsWord(b, p + 4, |value|);
    HoldsWord(b, p + 8, nameoff);
    HeldValue(b, p + 12, value);
  }

  lemma HeldValue(b: Blob, p: nat, s: seq<Byte>)
    requires Holds(b, p, s)
    ensures p + |s| <= |b| && b[p..p + |s|] == s
  {
  }

  /** Tokens written are the tokens scanned. */
  lemma {:induction false} WrittenIsScanned(b: Blob, p: nat, end: nat, toks: seq<Tok>)
    requires Holds(b, p, Block(toks)) && p + |Block(toks)| <= end <= |b| && forall t <- toks :: Writable(t)
    ensures Scan(b, p, end).Some? && Strip(Scan(b, p, end).value) == toks
    decreases |toks|
  {
    hide Word, Read, Written, Holds, Writable;
    if toks == [] {
      HoldsSmall(b, p, 9);
    } else {
      var t := toks[0];
      HoldsParts(b, p, Written(t), Block(toks[1..]));
      ReadWritten(b, p, end, t);
      SomeBytes(t);
      WrittenIsScanned(b, p + |Written(t)|, end, toks[1..]);
    }
  }

  lemma SomeBytes(t: Tok)
    ensures |Written(t)| > 0
  {
  }

  /** A tree written is the tree the blob says, so every tree that can be written has a blob for the edits to be
      about. */
  lemma WrittenTree(b: Blob, p: nat, end: nat, root: Item)
    requires Holds(b, p, Block(FlattenItem(root))) && p + |Block(FlattenItem(root))| <= end <= |b|
    requires forall t <- FlattenItem(root) :: Writable(t)
    ensures Encodes(b, p, end, root)
  {
    hide Scan, FlattenItem, Holds, Block, Writable;
    WrittenIsScanned(b, p, end, FlattenItem(root));
  }

  // ---- The header ------------------------------------------------------------------------------------

  /** Section 5.2: the magic number, totalsize at 4, off_dt_struct at 8 and size_dt_struct at 36. */
  lemma HeaderExactly(b: Blob)
    ensures HeaderOk(b) <==>
      && |b| >= 40 && b[..4] == [0xD0, 0x0D, 0xFE, 0xED] && Big(b[4..8]) <= |b|
      && Big(b[8..12]) + Big(b[36..40]) <= Big(b[4..8])
  {
    hide Big;
    if |b| >= 40 {
      WordIsBig(b, 4);
      WordIsBig(b, 8);
      WordIsBig(b, 36);
      Magic(b);
    }
  }

  lemma Magic(b: Blob)
    requires |b| >= 4
    ensures Word(b, 0) == 0xD00D_FEED <==> b[..4] == [0xD0, 0x0D, 0xFE, 0xED]
  {
    assert b[..4] == [b[0], b[1], b[2], b[3]];
  }

  // ---- What the edits look for ------------------------------------------------------------------------

  predicate Spells(s: seq<Byte>, text: string) {
    |s| == |text| && forall i | 0 <= i < |s| :: s[i] == text[i] as int
  }

  lemma MemoryExactly(name: seq<Byte>)
    ensures IsMemory(name) <==> |name| >= 7 && Spells(name[..7], "memory@")
  {
    if IsMemory(name) {
      assert forall i | 0 <= i < 7 :: name[i] == name[..7][i];
    }
  }

  /** A property is reg if its name, off_dt_strings (at 12) past its offset, is that string. */
  lemma RegExactly(b: Blob, nameoff: nat)
    requires |b| >= 40
    ensures IsReg(b, nameoff) <==>
      && (Big(b[12..16]) + nameoff) % 0x1_0000_0000 < Big(b[4..8])
      && Spells(Str(b, Big(b[12..16]) + nameoff), "reg")
  {
    hide Big, Str;
    WordIsBig(b, 4);
    WordIsBig(b, 12);
    SpellsReg(Str(b, Word(b, 12) + nameoff));
  }

  lemma SpellsReg(s: seq<Byte>)
    ensures s == [0x72, 0x65, 0x67] <==> Spells(s, "reg")
  {
  }

  /** Of the children of the root that have the name the first is taken out, and nothing else. */
  lemma {:induction false} FirstRemoved(items: seq<Item>, name: seq<Byte>) returns (k: nat)
    requires HasChild(items, name)
    ensures k < |items| && IsNamed(items[k], name) && NoneNamed(items[..k], name)
    ensures RemoveFirst(items, name) == items[..k] + items[k + 1..]
  {
    if IsNamed(items[0], name) {
      k := 0;
    } else {
      k := FirstRemoved(items[1..], name);
      OneLater(items, k, name);
      k := k + 1;
    }
  }

  lemma OneLater(items: seq<Item>, k: nat, name: seq<Byte>)
    requires k + 1 < |items| && NoneNamed(items[1..][..k], name) && !IsNamed(items[0], name)
    ensures NoneNamed(items[..k + 1], name)
    ensures [items[0]] + (items[1..][..k] + items[1..][k + 1..]) == items[..k + 1] + items[k + 2..]
  {
    var rest := items[1..][..k];
    assert items[..k + 1] == [items[0]] + rest;
  }

  lemma {:induction false} ChildIsNamed(items: seq<Item>, name: seq<Byte>)
    ensures HasChild(items, name) <==> !NoneNamed(items, name)
  {
    if items != [] {
      ChildIsNamed(items[1..], name);
      assert items == [items[0]] + items[1..];
    }
  }

  predicate IsNamed(item: Item, name: seq<Byte>) {
    item.Node? && item.name == name
  }

  predicate NoneNamed(items: seq<Item>, name: seq<Byte>) {
    forall k | 0 <= k < |items| :: !IsNamed(items[k], name)
  }

  // ---- Which reg -----------------------------------------------------------------------------------

  predicate IsRegTok(t: Tok, reg: nat -> bool) {
    t.Prop? && reg(t.nameoff)
  }

  predicate NoReg(toks: seq<Tok>, reg: nat -> bool) {
    forall i | 0 <= i < |toks| :: !IsRegTok(toks[i], reg)
  }

  /** Position `j` holds the first reg of `toks`, its value is `first`, and with `value` there they are `patched`. */
  predicate FirstAt(toks: seq<Tok>, j: nat, reg: nat -> bool, first: seq<Byte>, value: seq<Byte>, patched: seq<Tok>) {
    && j < |toks| && IsRegTok(toks[j], reg) && NoReg(toks[..j], reg) && toks[j].value == first
    && patched == toks[j := Prop(toks[j].nameoff, value)]
  }

  lemma FirstAtMore(toks: seq<Tok>, j: nat, reg: nat -> bool, first: seq<Byte>, value: seq<Byte>, patched: seq<Tok>,
                    more: seq<Tok>)
    requires FirstAt(toks, j, reg, first, value, patched)
    ensures FirstAt(toks + more, j, reg, first, value, patched + more)
  {
    assert (toks + more)[..j] == toks[..j];
  }

  lemma FirstAtAfter(less: seq<Tok>, toks: seq<Tok>, j: nat, reg: nat -> bool, first: seq<Byte>, value: seq<Byte>,
                     patched: seq<Tok>)
    requires FirstAt(toks, j, reg, first, value, patched) && NoReg(less, reg)
    ensures FirstAt(less + toks, |less| + j, reg, first, value, less + patched)
  {
    assert (less + toks)[..|less| + j] == less + toks[..j];
  }

  /** In the items of a node the reg that is found and patched is the first in the order of the tokens, however
      deep. */
  lemma {:induction false} FirstRegExactly(items: seq<Item>, reg: nat -> bool, value: seq<Byte>) returns (j: nat)
    ensures AnyReg(items, reg) <==> !NoReg(Flatten(items), reg)
    ensures AnyReg(items, reg) ==>
      FirstAt(Flatten(items), j, reg, FirstReg(items, reg), value, Flatten(PatchFirst(items, reg, value)))
    decreases items
  {
    hide FirstAt, HasReg, RegIn, PatchItem, FlattenItem;
    if items == [] {
      j := 0;
    } else {
      var i := RegOfItem(items[0], reg, value);
      j := FirstRegExactly(items[1..], reg, value);
      FirstOfItems(items, i, j, reg, value);
      j := if HasReg(items[0], reg) then i else |FlattenItem(items[0])| + j;
    }
  }

  /** The first item has the first reg, or the rest have. */
  lemma FirstOfItems(items: seq<Item>, i: nat, j: nat, reg: nat -> bool, value: seq<Byte>)
    requires items != []
    requires HasReg(items[0], reg) <==> !NoReg(FlattenItem(items[0]), reg)
    requires HasReg(items[0], reg) ==>
      FirstAt(FlattenItem(items[0]), i, reg, RegIn(items[0], reg), value, FlattenItem(PatchItem(items[0], reg, value)))
    requires AnyReg(items[1..], reg) <==> !NoReg(Flatten(items[1..]), reg)
    requires AnyReg(items[1..], reg) ==>
      FirstAt(Flatten(items[1..]), j, reg, FirstReg(items[1..], reg), value,
              Flatten(PatchFirst(items[1..], reg, value)))
    ensures AnyReg(items, reg) <==> !NoReg(Flatten(items), reg)
    ensures AnyReg(items, reg) ==>
      FirstAt(Flatten(items), if HasReg(items[0], reg) then i else |FlattenItem(items[0])| + j, reg,
              FirstReg(items, reg), value, Flatten(PatchFirst(items, reg, value)))
  {
    hide FirstAt, HasReg, RegIn, PatchItem, FlattenItem, NoReg;
    var one, rest := FlattenItem(items[0]), Flatten(items[1..]);
    NoRegBoth(one, rest, reg);
    if HasReg(items[0], reg) {
      FirstAtMore(one, i, reg, RegIn(items[0], reg), value, FlattenItem(PatchItem(items[0], reg, value)), rest);
      FlattenCons(PatchItem(items[0], reg, value), items[1..]);
    } else if AnyReg(items[1..], reg) {
      FirstAtAfter(one, rest, j, reg, FirstReg(items[1..], reg), value, Flatten(PatchFirst(items[1..], reg, value)));
      FlattenCons(items[0], PatchFirst(items[1..], reg, value));
    }
  }

  lemma NoRegBoth(s: seq<Tok>, t: seq<Tok>, reg: nat -> bool)
    ensures NoReg(s + t, reg) == (NoReg(s, reg) && NoReg(t, reg))
  {
    if NoReg(s + t, reg) {
      assert forall i | 0 <= i < |s| :: s[i] == (s + t)[i];
      assert forall i | 0 <= i < |t| :: t[i] == (s + t)[|s| + i];
    }
  }

  lemma {:induction false} RegOfItem(item: Item, reg: nat -> bool, value: seq<Byte>) returns (j: nat)
    ensures HasReg(item, reg) <==> !NoReg(FlattenItem(item), reg)
    ensures HasReg(item, reg) ==>
      FirstAt(FlattenItem(item), j, reg, RegIn(item, reg), value, FlattenItem(PatchItem(item, reg, value)))
    decreases item
  {
    hide Flatten, AnyReg, FirstReg, PatchFirst;
    match item {
      case Property(nameoff, v) =>
        j := 0;
        assert FlattenItem(item)[0] == Prop(nameoff, v);
      case Node(name, items) =>
        j := FirstRegExactly(items, reg, value);
        InsideNode(name, items, j, reg, value);
        j := j + 1;
    }
  }

  lemma InsideNode(name: seq<Byte>, items: seq<Item>, j: nat, reg: nat -> bool, value: seq<Byte>)
    requires AnyReg(items, reg) <==> !NoReg(Flatten(items), reg)
    requires AnyReg(items, reg) ==>
      FirstAt(Flatten(items), j, reg, FirstReg(items, reg), value, Flatten(PatchFirst(items, reg, value)))
    ensures AnyReg(items, reg) <==> !NoReg(FlattenItem(Node(name, items)), reg)
    ensures AnyReg(items, reg) ==>
      FirstAt(FlattenItem(Node(name, items)), j + 1, reg, FirstReg(items, reg), value,
              FlattenItem(Node(name, PatchFirst(items, reg, value))))
  {
    hide Flatten, AnyReg, FirstReg, PatchFirst, FirstAt;
    var f := Flatten(items);
    NoRegBoth([Begin(name)], f, reg);
    NoRegBoth([Begin(name)] + f, [Close], reg);
    if AnyReg(items, reg) {
      var patched := Flatten(PatchFirst(items, reg, value));
      FirstAtAfter([Begin(name)], f, j, reg, FirstReg(items, reg), value, patched);
      FirstAtMore([Begin(name)] + f, j + 1, reg, FirstReg(items, reg), value, [Begin(name)] + patched, [Close]);
    }
  }

  predicate NoTarget(items: seq<Item>, reg: nat -> bool) {
    forall i | 0 <= i < |items| :: !IsTarget(items[i], reg)
  }

  /** And of the children of the root it is the first memory node with a reg inside that is patched. */
  lemma {:induction false} FirstTarget(items: seq<Item>, reg: nat -> bool, value: seq<Byte>) returns (k: nat)
    ensures HasTarget(items, reg) <==> !NoTarget(items, reg)
    ensures HasTarget(items, reg) ==>
      && k < |items| && NoTarget(items[..k], reg) && Target(items, reg) == items[k]
      && PatchMemory(items, reg, value) == items[k := PatchItem(items[k], reg, value)]
  {
    hide IsTarget, PatchItem;
    k := 0;
    if items != [] && !IsTarget(items[0], reg) {
      var rest := items[1..];
      k := FirstTarget(rest, reg, value);
      assert items == [items[0]] + rest;
      if HasTarget(rest, reg) {
        assert items[..k + 1] == [items[0]] + rest[..k];
        k := k + 1;
      }
    }
  }
}
