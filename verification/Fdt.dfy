/** A flattened device tree's structure block (section 5.4 of the Devicetree Specification): its tokens,
    the tree they say, and what blanking a node or rewriting a value does to them.

    Bytes past the blob read as zero. */
module Fdt {
  import opened Words

  type Byte = b: nat | b < 256

  type Blob = seq<Byte>

  const BEGIN_NODE: nat := 1
  const END_NODE: nat := 2
  const PROP: nat := 3
  const NOP: nat := 4
  const END: nat := 9

  function Word(b: Blob, p: nat): (w: nat)
    requires p + 4 <= |b|
    ensures w < TWO32
  {
    var b0: nat, b1: nat, b2: nat := b[p], b[p + 1], b[p + 2];
    b0 * 0x100_0000 + b1 * 0x1_0000 + b2 * 0x100 + b[p + 3]
  }

  /** The string at `p`. */
  function Str(b: Blob, p: nat): (s: seq<Byte>)
    ensures p + |s| <= |b| || s == []
    decreases |b| - p
  {
    if p >= |b| || b[p] == 0 then [] else [b[p]] + Str(b, p + 1)
  }

  // ---- Tokens ------------------------------------------------------------------------------------

  datatype Tok = Begin(name: seq<Byte>) | Close | Prop(nameoff: nat, value: seq<Byte>)

  /** A token and the bytes it takes. */
  datatype Placed = Placed(at: nat, next: nat, tok: Tok)

  /** Where the token after a BEGIN_NODE at `p` is, and after a PROP of `length` bytes. */
  function AfterName(p: nat, name: seq<Byte>): nat {
    p + 4 + (|name| + 4) / 4 * 4
  }

  function AfterValue(p: nat, length: nat): nat {
    p + 12 + (length + 3) / 4 * 4
  }

  /** The token at `p` if there is one, whole, before `end`. */
  function Read(b: Blob, p: nat, end: nat): Option<Placed>
    requires p + 4 <= end <= |b|
  {
    var word := Word(b, p);
    if word == BEGIN_NODE then
      var name := Str(b, p + 4);
      if AfterName(p, name) <= end then Some(Placed(p, AfterName(p, name), Begin(name))) else None
    else if word == END_NODE then Some(Placed(p, p + 4, Close))
    else if word == PROP then
      if p + 12 <= end && AfterValue(p, Word(b, p + 4)) <= end then
        Some(Placed(p, AfterValue(p, Word(b, p + 4)), Prop(Word(b, p + 8), b[p + 12..p + 12 + Word(b, p + 4)])))
      else None
    else None
  }

  /** The tokens from `p` to the END token, NOPs aside; None if they are not all there. */
  function Scan(b: Blob, p: nat, end: nat): Option<seq<Placed>>
    requires end <= |b|
    decreases |b| - p
  {
    if p + 4 > end then None
    else if Word(b, p) == NOP then Scan(b, p + 4, end)
    else if Word(b, p) == END then Some([])
    else
      var t := Read(b, p, end);
      if t.None? then None
      else
        var rest := Scan(b, t.value.next, end);
        if rest.None? then None else Some([t.value] + rest.value)
  }

  function Strip(ps: seq<Placed>): seq<Tok> {
    if ps == [] then [] else [ps[0].tok] + Strip(ps[1..])
  }

  // ---- Trees -----------------------------------------------------------------------------------------

  datatype Item = Property(nameoff: nat, value: seq<Byte>) | Node(name: seq<Byte>, items: seq<Item>)

  function FlattenItem(i: Item): seq<Tok>
    decreases i
  {
    match i
    case Property(nameoff, value) => [Prop(nameoff, value)]
    case Node(name, items) => [Begin(name)] + Flatten(items) + [Close]
  }

  function Flatten(items: seq<Item>): seq<Tok>
    decreases items
  {
    if items == [] then [] else FlattenItem(items[0]) + Flatten(items[1..])
  }

  /** The items up to the Close of the node they are in, and what is left. */
  function Parse(toks: seq<Tok>): (r: Option<(seq<Item>, seq<Tok>)>)
    ensures r.Some? ==> |r.value.1| <= |toks|
    decreases |toks|
  {
    if toks == [] || toks[0].Close? then Some(([], toks))
    else if toks[0].Prop? then
      match Parse(toks[1..])
      case None => None
      case Some((items, rest)) => Some(([Property(toks[0].nameoff, toks[0].value)] + items, rest))
    else
      match Parse(toks[1..])
      case None => None
      case Some((inner, left)) =>
        if left == [] then None
        else
          match Parse(left[1..])
          case None => None
          case Some((items, rest)) => Some(([Node(toks[0].name, inner)] + items, rest))
  }

  lemma ParseProperty(nameoff: nat, value: seq<Byte>, tail: seq<Tok>)
    requires Parse(tail).Some?
    ensures Parse([Prop(nameoff, value)] + tail) ==
      Some(([Property(nameoff, value)] + Parse(tail).value.0, Parse(tail).value.1))
  {
  }

  lemma ParseNode(toks: seq<Tok>, inner: seq<Item>, left: seq<Tok>)
    requires toks != [] && toks[0].Begin? && left != []
    requires Parse(toks[1..]) == Some((inner, left)) && Parse(left[1..]).Some?
    ensures Parse(toks) == Some(([Node(toks[0].name, inner)] + Parse(left[1..]).value.0, Parse(left[1..]).value.1))
  {
  }

  lemma ParseEnd(rest: seq<Tok>)
    requires rest == [] || rest[0].Close?
    ensures Parse(rest) == Some(([], rest))
  {
  }

  /** A blob's tokens say one tree at most: parsing gives it back. */
  lemma {:induction false} ParseFlatten(items: seq<Item>, rest: seq<Tok>)
    requires rest == [] || rest[0].Close?
    ensures Parse(Flatten(items) + rest) == Some((items, rest))
    decreases items
  {
    hide Parse;
    if items == [] {
      assert Flatten(items) + rest == rest;
      ParseEnd(rest);
    } else {
      var tail := Flatten(items[1..]) + rest;
      ParseFlatten(items[1..], rest);
      assert Flatten(items) + rest == FlattenItem(items[0]) + tail;
      assert items == [items[0]] + items[1..];
      match items[0] {
        case Property(nameoff, value) =>
          ParseProperty(nameoff, value, tail);
        case Node(name, inner) =>
          ParseFlatten(inner, [Close] + tail);
          var toks := FlattenItem(items[0]) + tail;
          assert toks[1..] == Flatten(inner) + ([Close] + tail);
          assert ([Close] + tail)[1..] == tail;
          ParseNode(toks, inner, [Close] + tail);
      }
    }
  }

  /** The structure block of a blob says `root`. */
  ghost predicate Encodes(b: Blob, p: nat, end: nat, root: Item)
    requires end <= |b|
  {
    Scan(b, p, end).Some? && Strip(Scan(b, p, end).value) == FlattenItem(root)
  }

  lemma TreeIsUnique(b: Blob, p: nat, end: nat, r: Item, s: Item)
    requires end <= |b| && Encodes(b, p, end, r) && Encodes(b, p, end, s)
    ensures r == s
  {
    hide Scan, Parse;
    assert [r][1..] == [] && [s][1..] == [];
    assert Flatten([r]) == FlattenItem(r) + Flatten([]) == FlattenItem(r) + [] == FlattenItem(r);
    assert Flatten([s]) == FlattenItem(s) + Flatten([]) == FlattenItem(s) + [] == FlattenItem(s);
    ParseFlatten([r], []);
    ParseFlatten([s], []);
  }

  // ---- Pieces of token lists ---------------------------------------------------------------------------

  lemma {:induction false} StripParts(ps: seq<Placed>, i: nat)
    requires i <= |ps|
    ensures |Strip(ps)| == |ps| && Strip(ps[..i]) == Strip(ps)[..i] && Strip(ps[i..]) == Strip(ps)[i..]
    ensures i < |ps| ==> Strip(ps)[i] == ps[i].tok
  {
    if ps != [] {
      StripParts(ps[1..], if i > 0 then i - 1 else 0);
      if i > 0 {
        assert ps[..i][1..] == ps[1..][..i - 1];
        assert ps[i..] == ps[1..][i - 1..];
      } else {
        assert ps[0..] == ps;
      }
    }
  }

  lemma {:induction false} StripAppend(ps: seq<Placed>, qs: seq<Placed>)
    ensures Strip(ps + qs) == Strip(ps) + Strip(qs)
  {
    if ps == [] {
      assert ps + qs == qs;
    } else {
      assert (ps + qs)[1..] == ps[1..] + qs;
      StripAppend(ps[1..], qs);
    }
  }

  // ---- What scanning depends on --------------------------------------------------------------------------

  predicate SameFrom(a: Blob, b: Blob, p: nat) {
    |a| == |b| && forall k | p <= k < |a| :: a[k] == b[k]
  }

  predicate SameOn(a: Blob, b: Blob, p: nat, q: nat) {
    |a| == |b| && forall k | p <= k < q && k < |a| :: a[k] == b[k]
  }

  lemma {:induction false} SameStr(a: Blob, b: Blob, p: nat, q: nat)
    requires SameOn(a, b, p, q) && p + |Str(a, p)| < q
    ensures Str(b, p) == Str(a, p)
    decreases |a| - p
  {
    if p < |a| && a[p] != 0 {
      SameStr(a, b, p + 1, q);
    }
  }

  lemma SameWord(a: Blob, b: Blob, p: nat, q: nat)
    requires SameOn(a, b, p, q) && p + 4 <= q && p + 4 <= |a|
    ensures Word(b, p) == Word(a, p)
  {
  }

  /** A token is read from its own bytes. */
  lemma SameRead(a: Blob, b: Blob, p: nat, end: nat)
    requires p + 4 <= end <= |a| && Read(a, p, end).Some? && SameOn(a, b, p, Read(a, p, end).value.next)
    ensures Read(b, p, end) == Read(a, p, end)
  {
    hide Word;
    var q := Read(a, p, end).value.next;
    SameWord(a, b, p, q);
    if Word(a, p) == BEGIN_NODE {
      SameStr(a, b, p + 4, q);
    } else if Word(a, p) == PROP {
      SameWord(a, b, p + 4, q);
      SameWord(a, b, p + 8, q);
      assert a[p + 12..p + 12 + Word(a, p + 4)] == b[p + 12..p + 12 + Word(a, p + 4)];
    }
  }

  lemma {:induction false} SameScan(a: Blob, b: Blob, p: nat, end: nat)
    requires end <= |a| && SameFrom(a, b, p) && Scan(a, p, end).Some?
    ensures Scan(b, p, end) == Scan(a, p, end)
    decreases |a| - p
  {
    hide Word, Read;
    SameWord(a, b, p, |a|);
    if Word(a, p) == NOP {
      SameScan(a, b, p + 4, end);
    } else if Word(a, p) != END {
      SameRead(a, b, p, end);
      ReadAdvances(a, p, end);
      SameScan(a, b, Read(a, p, end).value.next, end);
    }
  }

  lemma ReadAdvances(b: Blob, p: nat, end: nat)
    requires p + 4 <= end <= |b| && Read(b, p, end).Some?
    ensures var t := Read(b, p, end).value; t.at == p && p + 4 <= t.next <= end && (t.next - p) % 4 == 0
  {
  }

  /** One step of a scan. */
  lemma ScanStep(b: Blob, p: nat, end: nat)
    requires end <= |b|
    ensures Scan(b, p, end).Some? ==> p + 4 <= end && (Word(b, p) == NOP || Word(b, p) == END || Read(b, p, end).Some?)
    ensures p + 4 <= end && Word(b, p) == NOP ==> Scan(b, p, end) == Scan(b, p + 4, end)
    ensures p + 4 <= end && Word(b, p) == END ==> Scan(b, p, end) == Some([])
    ensures p + 4 <= end && Read(b, p, end).Some? ==>
      var t := Read(b, p, end).value;
      Word(b, p) != NOP && Word(b, p) != END && Scan(b, p, end) == Cons(t, Scan(b, t.next, end))
  {
  }

  function Cons(t: Placed, o: Option<seq<Placed>>): Option<seq<Placed>> {
    match o
    case None => None
    case Some(ps) => Some([t] + ps)
  }

  lemma ConsParts(t: Placed, o: Option<seq<Placed>>)
    requires o.Some?
    ensures Cons(t, o).Some? && |Cons(t, o).value| == |o.value| + 1
    ensures Cons(t, o).value[0] == t && Cons(t, o).value[1..] == o.value
  {
  }

  /** Tokens are in order, end to end but for NOPs, and a whole number of words apart. */
  lemma {:induction false} ScanOrder(b: Blob, p: nat, end: nat, i: nat)
    requires end <= |b| && Scan(b, p, end).Some? && i < |Scan(b, p, end).value|
    ensures var t := Scan(b, p, end).value[i];
      p <= t.at && t.at + 4 <= t.next <= end && (t.at - p) % 4 == 0 && (t.next - t.at) % 4 == 0
    ensures Scan(b, Scan(b, p, end).value[i].next, end) == Some(Scan(b, p, end).value[i + 1..])
    decreases |b| - p
  {
    hide Word, Read, Scan, Cons;
    ScanStep(b, p, end);
    if Word(b, p) == NOP {
      ScanOrder(b, p + 4, end, i);
    } else {
      ReadAdvances(b, p, end);
      var next := Read(b, p, end).value.next;
      ConsSome(Read(b, p, end).value, Scan(b, next, end));
      ConsParts(Read(b, p, end).value, Scan(b, next, end));
      if i > 0 {
        ScanOrder(b, next, end, i - 1);
        assert Scan(b, p, end).value[1..][i..] == Scan(b, p, end).value[i + 1..];
      }
    }
  }

  lemma ConsSome(t: Placed, o: Option<seq<Placed>>)
    ensures Cons(t, o).Some? <==> o.Some?
  {
  }

  // ---- Blanking -----------------------------------------------------------------------------------------

  /** Every word of [start, stop) a NOP. */
  predicate Blanked(a: Blob, b: Blob, start: nat, stop: nat) {
    && |a| == |b| && start <= stop <= |a| && (stop - start) % 4 == 0
    && (forall k | 0 <= k < |a| && !(start <= k < stop) :: b[k] == a[k])
    && (forall k | start <= k < stop :: b[k] == if (k - start) % 4 == 3 then 4 else 0)
  }

  lemma {:induction false} NopRun(a: Blob, b: Blob, start: nat, stop: nat, p: nat, end: nat)
    requires Blanked(a, b, start, stop) && start <= p <= stop <= end <= |b| && (p - start) % 4 == 0
    ensures Scan(b, p, end) == Scan(b, stop, end)
    decreases stop - p
  {
    hide Read;
    if p < stop {
      assert (p - start) % 4 == 0 && (p + 1 - start) % 4 == 1 && (p + 2 - start) % 4 == 2 && (p + 3 - start) % 4 == 3;
      assert Word(b, p) == NOP;
      NopRun(a, b, start, stop, p + 4, end);
    }
  }

  /** Blanking tokens i to j takes just them out. */
  lemma {:induction false} BlankedScan(a: Blob, b: Blob, p: nat, end: nat, i: nat, j: nat)
    requires end <= |a| && Scan(a, p, end).Some? && i < j <= |Scan(a, p, end).value|
    requires var ps := Scan(a, p, end).value; Blanked(a, b, ps[i].at, ps[j - 1].next)
    ensures var ps := Scan(a, p, end).value; Scan(b, p, end) == Some(ps[..i] + ps[j..])
    decreases |a| - p
  {
    hide Word, Read, Scan, Cons, Blanked, SameOn, SameFrom;
    var ps := Scan(a, p, end).value;
    var start, stop := ps[i].at, ps[j - 1].next;
    ScanOrder(a, p, end, i);
    ScanOrder(a, p, end, j - 1);
    BlankedSame(a, b, start, stop, p);
    ScanStep(a, p, end);
    ScanStep(b, p, end);
    if Word(a, p) == NOP {
      ScanOrder(a, p + 4, end, i);
      SameWord(a, b, p, start);
      BlankedScan(a, b, p + 4, end, i, j);
    } else {
      var t := Read(a, p, end).value;
      ReadAdvances(a, p, end);
      ConsSome(t, Scan(a, t.next, end));
      ConsParts(t, Scan(a, t.next, end));
      if i == 0 {
        BlankedFirst(a, b, p, end, j);
      } else {
        ScanOrder(a, t.next, end, i - 1);
        SameRead(a, b, p, end);
        BlankedScan(a, b, t.next, end, i - 1, j - 1);
        CutAfterFirst(ps, i, j);
        ConsOf(t, ps[1..][..i - 1] + ps[1..][j - 1..]);
      }
    }
  }

  lemma BlankedFirst(a: Blob, b: Blob, p: nat, end: nat, j: nat)
    requires end <= |a| && Scan(a, p, end).Some? && 0 < j <= |Scan(a, p, end).value|
    requires var ps := Scan(a, p, end).value; ps[0].at == p && Blanked(a, b, p, ps[j - 1].next)
    ensures var ps := Scan(a, p, end).value; Scan(b, p, end) == Some(ps[..0] + ps[j..])
  {
    hide Word, Read, Scan, Blanked, SameFrom, SameOn;
    var ps := Scan(a, p, end).value;
    var stop := ps[j - 1].next;
    ScanOrder(a, p, end, j - 1);
    BlankedSame(a, b, p, stop, p);
    NopRun(a, b, p, stop, p, end);
    SameScan(a, b, stop, end);
    assert ps[..0] + ps[j..] == ps[j..];
  }

  lemma BlankedSame(a: Blob, b: Blob, start: nat, stop: nat, p: nat)
    requires Blanked(a, b, start, stop)
    ensures |a| == |b| && start <= stop <= |a| && (stop - start) % 4 == 0
    ensures SameFrom(a, b, stop)
    ensures forall q: nat | q <= start :: SameOn(a, b, p, q)
  {
  }

  lemma CutAfterFirst(ps: seq<Placed>, i: nat, j: nat)
    requires 0 < i < j <= |ps|
    ensures [ps[0]] + (ps[1..][..i - 1] + ps[1..][j - 1..]) == ps[..i] + ps[j..]
  {
  }

  lemma ConsOf(t: Placed, ps: seq<Placed>)
    ensures Cons(t, Some(ps)) == Some([t] + ps)
  {
  }

  // ---- Rewriting a value -----------------------------------------------------------------------------------

  /** Token i's value replaced by one as long. */
  predicate Rewritten(a: Blob, b: Blob, t: Placed, value: seq<Byte>)
  {
    t.tok.Prop? && |value| == |t.tok.value| && OnlyAt(a, b, t.at + 12, value)
  }

  /** These bytes are there, and nothing else has changed. */
  predicate OnlyAt(a: Blob, b: Blob, at: nat, value: seq<Byte>) {
    && at + |value| <= |a| == |b|
    && (forall k | 0 <= k < |a| && !(at <= k < at + |value|) :: b[k] == a[k])
    && (forall k | 0 <= k < |value| :: b[at + k] == value[k])
  }

  function WithValue(t: Placed, value: seq<Byte>): Placed
    requires t.tok.Prop?
  {
    t.(tok := Prop(t.tok.nameoff, value))
  }

  lemma RewrittenRead(a: Blob, b: Blob, p: nat, end: nat, value: seq<Byte>)
    requires p + 4 <= end <= |a| && Read(a, p, end).Some? && Rewritten(a, b, Read(a, p, end).value, value)
    ensures Read(b, p, end) == Some(WithValue(Read(a, p, end).value, value)) && Word(b, p) == Word(a, p)
  {
    hide Word, Str;
    SameWord(a, b, p, p + 12);
    SameWord(a, b, p + 4, p + 12);
    SameWord(a, b, p + 8, p + 12);
    assert b[p + 12..p + 12 + |value|] == value;
  }

  lemma {:induction false} RewrittenScan(a: Blob, b: Blob, p: nat, end: nat, i: nat, value: seq<Byte>)
    requires end <= |a| && Scan(a, p, end).Some? && i < |Scan(a, p, end).value|
    requires Rewritten(a, b, Scan(a, p, end).value[i], value)
    ensures var ps := Scan(a, p, end).value; Scan(b, p, end) == Some(ps[i := WithValue(ps[i], value)])
    decreases |a| - p
  {
    hide Word, Read, Scan, Cons;
    var ps := Scan(a, p, end).value;
    ScanOrder(a, p, end, i);
    ScanStep(a, p, end);
    ScanStep(b, p, end);
    if Word(a, p) == NOP {
      ScanOrder(a, p + 4, end, i);
      SameWord(a, b, p, ps[i].at);
      RewrittenScan(a, b, p + 4, end, i, value);
    } else {
      var t := Read(a, p, end).value;
      ReadAdvances(a, p, end);
      ConsSome(t, Scan(a, t.next, end));
      ConsParts(t, Scan(a, t.next, end));
      if i == 0 {
        RewrittenRead(a, b, p, end, value);
        ValueBeforeNext(a, p, end);
        SameScan(a, b, t.next, end);
        ConsOf(WithValue(t, value), ps[1..]);
        assert [WithValue(t, value)] + ps[1..] == ps[0 := WithValue(t, value)];
      } else {
        ScanOrder(a, t.next, end, i - 1);
        SameRead(a, b, p, end);
        RewrittenScan(a, b, t.next, end, i - 1, value);
        ConsOf(t, ps[1..][i - 1 := WithValue(ps[i], value)]);
        assert [ps[0]] + ps[1..][i - 1 := WithValue(ps[i], value)] == ps[i := WithValue(ps[i], value)];
      }
    }
  }

  lemma ValueBeforeNext(b: Blob, p: nat, end: nat)
    requires p + 4 <= end <= |b| && Read(b, p, end).Some? && Read(b, p, end).value.tok.Prop?
    ensures var t := Read(b, p, end).value; t.at + 12 + |t.tok.value| <= t.next
  {
  }
}
