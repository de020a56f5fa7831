/** The two edits, in place: a pointer walks the structure block, and bytes are overwritten where it
    stops. */
module FdtPatch {
  import opened Words
  import opened Fdt
  import opened FdtTree

  const FDT_MAGIC: nat := 0xD00D_FEED

  /** The header is one this understands: the blob holds the whole tree, and the tree the structure block. */
  predicate HeaderOk(b: Blob) {
    && |b| >= 40 && Word(b, 0) == FDT_MAGIC
    && Word(b, 4) <= |b| && Word(b, 8) + Word(b, 36) <= Word(b, 4)
  }

  /** The structure block's bounds, in a blob whose header adds up without wrapping at 32 bits. */
  predicate Adds(b: Blob) {
    |b| >= 40 ==> Word(b, 8) + Word(b, 36) < TWO32
  }

  function Start(b: Blob): nat
    requires HeaderOk(b)
  {
    Word(b, 8)
  }

  function Stop(b: Blob): (e: nat)
    requires HeaderOk(b)
    ensures e <= |b| && e < TWO32
  {
    Word(b, 8) + Word(b, 36)
  }

  function Tokens(b: Blob): Option<seq<Placed>>
    requires HeaderOk(b)
  {
    Scan(b, Start(b), Stop(b))
  }

  /** A well-formed blob, its structure block past its header, of the tree `root`. */
  ghost predicate Says(b: Blob, root: Item) {
    HeaderOk(b) && 40 <= Start(b) && root.Node? && Encodes(b, Start(b), Stop(b), root)
  }

  /** (length + 3) & ~3 on 32 bits. */
  function PadWord(length: nat): nat {
    (length + 3) % TWO32 / 4 * 4
  }

  method Be32(blob: array<Byte>, p: nat) returns (w: nat)
    requires p + 4 <= blob.Length
    ensures w == Word(blob[..], p)
  {
    var b0: nat, b1: nat, b2: nat, b3: nat := blob[p], blob[p + 1], blob[p + 2], blob[p + 3];
    w := b0 * 0x100_0000 + b1 * 0x1_0000 + b2 * 0x100 + b3;
  }

  /** strlen and the bytes before it. */
  method ReadStr(blob: array<Byte>, p: nat) returns (s: seq<Byte>)
    ensures s == Str(blob[..], p)
  {
    s := [];
    var q := p;
    while q < blob.Length && blob[q] != 0
      invariant p <= q && s + Str(blob[..], q) == Str(blob[..], p)
      decreases blob.Length - q
    {
      s := s + [blob[q]];
      q := q + 1;
    }
  }

  // ---- Removing a node -----------------------------------------------------------------------------

  /** `ps` of `b` are still to come at `p`, from token `k` on. */
  ghost predicate Onward(b: Blob, p: nat, end: nat, ps: seq<Placed>, k: nat) {
    p + 4 <= end <= |b| && k <= |ps| && Scan(b, p, end) == Some(ps[k..])
  }

  /** What the next token says of where the scan is. */
  lemma OnwardStep(b: Blob, p: nat, end: nat, ps: seq<Placed>, k: nat)
    requires Onward(b, p, end, ps, k) && end < TWO32
    ensures Word(b, p) == NOP ==> Onward(b, p + 4, end, ps, k)
    ensures Word(b, p) == END ==> k == |ps|
    ensures Word(b, p) != NOP && Word(b, p) != END ==>
      && k < |ps| && Read(b, p, end) == Some(ps[k]) && ps[k].at == p && Onward(b, ps[k].next, end, ps, k + 1)
  {
    hide Word, Read, Scan, Cons;
    ScanStep(b, p, end);
    ScanStep(b, p + 4, end);
    if Word(b, p) != NOP && Word(b, p) != END {
      var t := Read(b, p, end).value;
      ReadAdvances(b, p, end);
      ScanStep(b, t.next, end);
      ConsSome(t, Scan(b, t.next, end));
      ConsParts(t, Scan(b, t.next, end));
      assert ps[k..][1..] == ps[k + 1..];
    }
  }

  /** A token's parts. */
  lemma ReadParts(b: Blob, p: nat, end: nat)
    requires p + 4 <= end <= |b| && end < TWO32 && Read(b, p, end).Some?
    ensures var t := Read(b, p, end).value;
      match t.tok
      case Begin(name) => Word(b, p) == BEGIN_NODE && name == Str(b, p + 4) && t.next == AfterName(p, name)
      case Close => Word(b, p) == END_NODE && t.next == p + 4
      case Prop(nameoff, value) =>
        && Word(b, p) == PROP && p + 12 <= end && nameoff == Word(b, p + 8) && |value| == Word(b, p + 4)
        && p + 12 + |value| <= end && t.next == p + 12 + PadWord(|value|) && t.next < TWO32
  {
  }

  /** One token of the search, as the walk does it. */
  lemma NodeStep(b: Blob, p: nat, end: nat, ps: seq<Placed>, k: nat, depth: int, start: Option<nat>, name: seq<Byte>)
    requires Onward(b, p, end, ps, k) && end < TWO32
    ensures |Strip(ps)| == |ps|
    ensures var word, here := Word(b, p), FindNode(Strip(ps), k, depth, start, name);
      if word == BEGIN_NODE then
        && k < |ps| && ps[k].at == p && Onward(b, AfterName(p, Str(b, p + 4)), end, ps, k + 1)
        && here == FindNode(Strip(ps), k + 1, depth + 1,
                            if start.None? && depth == 1 && Str(b, p + 4) == name then Some(k) else start, name)
      else if word == END_NODE then
        && k < |ps| && ps[k].next == p + 4 && Onward(b, p + 4, end, ps, k + 1)
        && here == if start.Some? && depth == 2 then Some((start.value, k + 1))
           else FindNode(Strip(ps), k + 1, depth - 1, start, name)
      else if word == PROP then
        && k < |ps| && p + 12 <= end && Onward(b, p + 4 + (8 + PadWord(Word(b, p + 4))) % TWO32, end, ps, k + 1)
        && here == FindNode(Strip(ps), k + 1, depth, start, name)
      else if word == NOP then Onward(b, p + 4, end, ps, k)
      else here == None
  {
    hide Word, Str, Onward, Read, Scan, Strip, FindNode, AfterName, PadWord;
    OnwardBounds(b, p, end, ps, k);
    OnwardStep(b, p, end, ps, k);
    StripParts(ps, k);
    FindPastEnd(Strip(ps), k, depth, start, name);
    if Word(b, p) != NOP && Word(b, p) != END {
      ReadParts(b, p, end);
      FindStep(Strip(ps), k, depth, start, name);
    }
  }

  lemma OnwardBounds(b: Blob, p: nat, end: nat, ps: seq<Placed>, k: nat)
    requires Onward(b, p, end, ps, k)
    ensures p + 4 <= end <= |b| && k <= |ps|
  {
  }

  /** The walk is at token `k` with the node's Begin, if found, at `start`, and what it will find from
      here is what there was to find. */
  ghost predicate Following(b: Blob, p: nat, end: nat, ps: seq<Placed>, k: nat, depth: int, start: Option<nat>,
                            from_: Option<nat>, name: seq<Byte>)
  {
    && Onward(b, p, end, ps, k) && |Strip(ps)| == |ps|
    && (start.Some? <==> from_.Some?)
    && (from_.Some? ==> from_.value < k && ps[from_.value].at == start.value)
    && FindNode(Strip(ps), k, depth, from_, name) == FindNode(Strip(ps), 0, 0, None, name)
  }

  lemma FollowStep(b: Blob, p: nat, end: nat, ps: seq<Placed>, k: nat, depth: int, start: Option<nat>,
                   from_: Option<nat>, name: seq<Byte>)
    requires Following(b, p, end, ps, k, depth, start, from_, name) && end < TWO32
    ensures p + 4 <= end <= |b|
    ensures var word, target := Word(b, p), FindNode(Strip(ps), 0, 0, None, name);
      if word == BEGIN_NODE then
        var hit := start.None? && depth == 1 && Str(b, p + 4) == name;
        Following(b, AfterName(p, Str(b, p + 4)), end, ps, k + 1, depth + 1,
                  if hit then Some(p) else start, if hit then Some(k) else from_, name)
      else if word == END_NODE then
        if start.Some? && depth == 2 then
          && target.Some? && target.value.0 < target.value.1 <= |ps|
          && ps[target.value.0].at == start.value && ps[target.value.1 - 1].next == p + 4
        else Following(b, p + 4, end, ps, k + 1, depth - 1, start, from_, name)
      else if word == PROP then
        p + 12 <= end
        && Following(b, p + 4 + (8 + PadWord(Word(b, p + 4))) % TWO32, end, ps, k + 1, depth, start, from_, name)
      else if word == NOP then Following(b, p + 4, end, ps, k, depth, start, from_, name)
      else target == None
  {
    hide Word, Str, Onward, Strip, FindNode, AfterName, PadWord;
    OnwardBounds(b, p, end, ps, k);
    NodeStep(b, p, end, ps, k, depth, from_, name);
  }

  /** Whole words on from `begin`. */
  predicate WordsOn(begin: nat, p: nat) {
    begin <= p && (p - begin) % 4 == 0
  }

  lemma WordsHere(p: nat)
    ensures WordsOn(p, p)
  {
  }

  lemma Onwards(begin: nat, p: nat, n: nat)
    requires WordsOn(begin, p) && n % 4 == 0
    ensures WordsOn(begin, p + n)
  {
  }

  lemma WordsBetween(begin: nat, p: nat, q: nat)
    requires WordsOn(begin, p) && WordsOn(begin, q) && p <= q
    ensures (q - p) % 4 == 0
  {
  }

  /** fdt_remove_node's walk: where the node's tokens start and stop. */
  method WalkToNode(blob: array<Byte>, begin: nat, end: nat, name: seq<Byte>)
    returns (found: bool, start: nat, stop: nat)
    requires end <= blob.Length && end < TWO32
    ensures found ==> begin <= start < stop <= end && (stop - start) % 4 == 0
    ensures Scan(blob[..], begin, end).Some? ==>
      var ps := Scan(blob[..], begin, end).value;
      match FindNode(Strip(ps), 0, 0, None, name)
      case None => !found
      case Some((i, j)) => found && i < j <= |ps| && start == ps[i].at && stop == ps[j - 1].next
  {
    hide Word, Str, Scan, FindNode, Strip, AfterName, Following, PadWord, WordsOn;
    ghost var b := blob[..];
    var p, depth := begin, 0;
    var at: Option<nat> := None;      // the node's BEGIN_NODE, once found
    ghost var good := Scan(b, begin, end).Some?;
    ghost var ps := if good then Scan(b, begin, end).value else [];
    ghost var k, from_: Option<nat> := 0, None;
    FollowStart(b, p, end, name);
    WordsHere(begin);
    while p + 4 <= end
      invariant begin <= p && WordsOn(begin, p)
      invariant at.Some? ==> begin <= at.value < p && WordsOn(begin, at.value)
      invariant good ==> p + 4 <= end && Following(b, p, end, ps, k, depth, at, from_, name)
      decreases end - p
    {
      if good {
        FollowStep(b, p, end, ps, k, depth, at, from_, name);
      }
      var tokenAt := p;
      var token := Be32(blob, p);
      p := p + 4;
      Onwards(begin, tokenAt, 4);
      if token == BEGIN_NODE {
        var node := ReadStr(blob, p);
        NameAdvances(tokenAt, node);
        Onwards(begin, p, (|node| + 4) / 4 * 4);
        p := p + (|node| + 4) / 4 * 4;
        depth := depth + 1;
        if at.None? && depth == 2 && node == name {
          at := Some(tokenAt);
          from_ := Some(k);
        }
        k := k + 1;
      } else if token == END_NODE {
        if at.Some? && depth == 2 {
          WordsBetween(begin, at.value, p);
          return true, at.value, p;
        }
        depth := depth - 1;
        k := k + 1;
      } else if token == PROP {
        if p + 8 > end {
          return false, 0, 0;
        }
        var length := Be32(blob, p);
        PadAdvances(length);
        Onwards(begin, p, (8 + PadWord(length)) % TWO32);
        p := p + (8 + PadWord(length)) % TWO32;
        k := k + 1;
      } else if token != NOP {
        return false, 0, 0;
      }
      if good {
        FollowRoom(b, p, end, ps, k, depth, at, from_, name);
      }
    }
    return false, 0, 0;
  }

  lemma FollowRoom(b: Blob, p: nat, end: nat, ps: seq<Placed>, k: nat, depth: int, start: Option<nat>,
                   from_: Option<nat>, name: seq<Byte>)
    requires Following(b, p, end, ps, k, depth, start, from_, name)
    ensures p + 4 <= end
  {
  }

  /** The header checks both edits make. */
  method ReadHeader(blob: array<Byte>) returns (ok: bool, begin: nat, end: nat)
    requires Adds(blob[..])
    ensures ok == HeaderOk(blob[..])
    ensures ok ==> begin == Start(blob[..]) && end == Stop(blob[..])
  {
    begin, end := 0, 0;
    if blob.Length < 40 {
      return false, 0, 0;
    }
    var magic := Be32(blob, 0);
    if magic != FDT_MAGIC {
      return false, 0, 0;
    }
    var total := Be32(blob, 4);
    var offStruct := Be32(blob, 8);
    var lenStruct := Be32(blob, 36);
    ok := total <= blob.Length && offStruct + lenStruct <= total;
    begin, end := offStruct, offStruct + lenStruct;
  }

  /** Bytes from `q` on may have changed: not the header. */
  lemma SameHeader(a: Blob, b: Blob)
    requires HeaderOk(a) && 40 <= Start(a) && |a| == |b| && forall k | 0 <= k < Start(a) :: b[k] == a[k]
    ensures HeaderOk(b) && Start(b) == Start(a) && Stop(b) == Stop(a)
  {
  }

  /** The tree of the blob with the node's tokens blanked is the tree without the node. */
  lemma BlankedTree(a: Blob, b: Blob, root: Item, name: seq<Byte>, i: nat, j: nat)
    requires Says(a, root) && HasChild(root.items, name)
    requires FindNode(Strip(Tokens(a).value), 0, 0, None, name) == Some((i, j))
    requires i < j <= |Tokens(a).value| && Blanked(a, b, Tokens(a).value[i].at, Tokens(a).value[j - 1].next)
    ensures Says(b, Node(root.name, RemoveFirst(root.items, name)))
  {
    hide Word, FindNode, Scan, FlattenItem, Flatten, RemoveFirst, Cut;
    var ps := Tokens(a).value;
    FindInTree(Strip(ps), root, name);
    ScanOrder(a, Start(a), Stop(a), i);
    SameHeader(a, b);
    BlankedScan(a, b, Start(a), Stop(a), i, j);
    StripCut(ps, i, j);
  }

  lemma StripCut(ps: seq<Placed>, i: nat, j: nat)
    requires i <= j <= |ps|
    ensures |Strip(ps)| == |ps| && Strip(ps[..i] + ps[j..]) == Cut(Strip(ps), i, j)
  {
    StripAppend(ps[..i], ps[j..]);
    StripParts(ps, i);
    StripParts(ps, j);
  }

  /** Which blobs there is nothing to remove from. */
  lemma NothingToRemove(a: Blob, root: Item, name: seq<Byte>)
    requires Says(a, root)
    ensures FindNode(Strip(Tokens(a).value), 0, 0, None, name).Some? <==> HasChild(root.items, name)
  {
    hide Word, FindNode, Scan;
    FindInTree(Strip(Tokens(a).value), root, name);
  }

  /** fdt_remove_node. On failure the blob is untouched; else every word of the node's tokens is a NOP, and
      a blob that said a tree says the tree without the first such child of the root. */
  method RemoveNode(blob: array<Byte>, name: seq<Byte>) returns (ok: bool)
    requires Adds(blob[..])
    modifies blob
    ensures !ok ==> blob[..] == old(blob[..])
    ensures HeaderOk(old(blob[..])) && Tokens(old(blob[..])).Some? ==>
      var ps := Tokens(old(blob[..])).value;
      match FindNode(Strip(ps), 0, 0, None, name)
      case None => !ok
      case Some((i, j)) => ok && i < j <= |ps| && Blanked(old(blob[..]), blob[..], ps[i].at, ps[j - 1].next)
    ensures ok ==> HeaderOk(old(blob[..])) && exists start: nat, stop: nat ::
      Blanked(old(blob[..]), blob[..], start, stop) && Start(old(blob[..])) <= start < stop <= Stop(old(blob[..]))
    ensures forall root | Says(old(blob[..]), root) ::
      ok == HasChild(root.items, name) && (ok ==> Says(blob[..], Node(root.name, RemoveFirst(root.items, name))))
  {
    hide Scan, FindNode, Blanked, Strip, Word, HasChild, RemoveFirst, FlattenItem;
    forall root | Says(blob[..], root)
      ensures FindNode(Strip(Tokens(blob[..]).value), 0, 0, None, name).Some? <==> HasChild(root.items, name)
    {
      NothingToRemove(blob[..], root, name);
    }
    var fine, begin, end := ReadHeader(blob);
    if !fine {
      return false;
    }
    var found, start, stop := WalkToNode(blob, begin, end, name);
    if !found {
      return false;
    }
    Blank(blob, start, stop);
    forall root | Says(old(blob[..]), root)
      ensures Says(blob[..], Node(root.name, RemoveFirst(root.items, name)))
    {
      var r := FindNode(Strip(Tokens(old(blob[..])).value), 0, 0, None, name).value;
      BlankedTree(old(blob[..]), blob[..], root, name, r.0, r.1);
    }
    return true;
  }

  lemma FollowStart(b: Blob, p: nat, end: nat, name: seq<Byte>)
    requires end <= |b|
    ensures Scan(b, p, end).Some? ==>
      p + 4 <= end && Following(b, p, end, Scan(b, p, end).value, 0, 0, None, None, name)
  {
    hide FindNode, Scan;
    OnwardStart(b, p, end);
  }

  lemma OnwardStart(b: Blob, p: nat, end: nat)
    requires end <= |b|
    ensures Scan(b, p, end).Some? ==>
      var ps := Scan(b, p, end).value; Onward(b, p, end, ps, 0) && p + 4 <= end && |Strip(ps)| == |ps|
  {
    hide Word, Read;
    if Scan(b, p, end).Some? {
      var ps := Scan(b, p, end).value;
      assert ps[0..] == ps;
      StripParts(ps, 0);
    }
  }

  lemma PadAdvances(length: nat)
    ensures (8 + PadWord(length)) % TWO32 % 4 == 0
  {
  }

  lemma NameAdvances(p: nat, name: seq<Byte>)
    ensures AfterName(p, name) == p + 4 + (|name| + 4) / 4 * 4 && (|name| + 4) / 4 * 4 % 4 == 0
  {
  }

  lemma FindStep(toks: seq<Tok>, k: nat, depth: int, start: Option<nat>, name: seq<Byte>)
    requires k < |toks|
    ensures FindNode(toks, k, depth, start, name) ==
      match toks[k]
      case Begin(n) =>
        FindNode(toks, k + 1, depth + 1, if start.None? && depth == 1 && n == name then Some(k) else start, name)
      case Close =>
        if start.Some? && depth == 2 then Some((start.value, k + 1)) else FindNode(toks, k + 1, depth - 1, start, name)
      case Prop(_, _) => FindNode(toks, k + 1, depth, start, name)
  {
  }

  lemma FindPastEnd(toks: seq<Tok>, k: nat, depth: int, start: Option<nat>, name: seq<Byte>)
    ensures k == |toks| ==> FindNode(toks, k, depth, start, name) == None
  {
  }

  /** Every word from `start` to `stop` becomes a NOP. */
  method Blank(blob: array<Byte>, start: nat, stop: nat)
    requires start <= stop <= blob.Length && (stop - start) % 4 == 0
    modifies blob
    ensures Blanked(old(blob[..]), blob[..], start, stop)
  {
    var w := start;
    while w < stop
      invariant start <= w <= stop && (w - start) % 4 == 0
      invariant forall k | 0 <= k < blob.Length && !(start <= k < w) :: blob[k] == old(blob[k])
      invariant forall k | start <= k < w :: blob[k] == if (k - start) % 4 == 3 then NOP else 0
    {
      assert (w + 1 - start) % 4 == 1 && (w + 2 - start) % 4 == 2 && (w + 3 - start) % 4 == 3;
      blob[w], blob[w + 1], blob[w + 2], blob[w + 3] := 0, 0, 0, NOP;
      w := w + 4;
    }
  }

  // ---- The memory node's reg -----------------------------------------------------------------------

  /** Whether the name at `nameoff` of the strings block is reg. */
  predicate IsReg(b: Blob, nameoff: nat) {
    |b| >= 40 && (Word(b, 12) + nameoff) % TWO32 < Word(b, 4) && Str(b, Word(b, 12) + nameoff) == [0x72, 0x65, 0x67]
  }

  function RegOf(b: Blob): nat -> bool {
    (nameoff: nat) => IsReg(b, nameoff)
  }

  ghost predicate Seeking(b: Blob, p: nat, end: nat, ps: seq<Placed>, k: nat, depth: int, inMemory: bool) {
    && Onward(b, p, end, ps, k) && |Strip(ps)| == |ps|
    && FindReg(Strip(ps), k, depth, inMemory, RegOf(b)) == FindReg(Strip(ps), 0, 0, false, RegOf(b))
  }

  lemma RegStep(toks: seq<Tok>, k: nat, depth: int, inMemory: bool, reg: nat -> bool)
    requires k < |toks|
    ensures FindReg(toks, k, depth, inMemory, reg) ==
      match toks[k]
      case Begin(n) => FindReg(toks, k + 1, depth + 1, inMemory || (depth == 1 && IsMemory(n)), reg)
      case Close => FindReg(toks, k + 1, depth - 1, inMemory && depth != 2, reg)
      case Prop(nameoff, value) =>
        if inMemory && reg(nameoff) then (if |value| == 16 then AtToken(k) else BadSize)
        else FindReg(toks, k + 1, depth, inMemory, reg)
  {
  }

  lemma RegPastEnd(toks: seq<Tok>, k: nat, depth: int, inMemory: bool, reg: nat -> bool)
    ensures k == |toks| ==> FindReg(toks, k, depth, inMemory, reg) == Nowhere
  {
  }

  lemma SeekStep(b: Blob, p: nat, end: nat, ps: seq<Placed>, k: nat, depth: int, inMemory: bool)
    requires Seeking(b, p, end, ps, k, depth, inMemory) && end < TWO32
    ensures p + 4 <= end <= |b|
    ensures var word, target := Word(b, p), FindReg(Strip(ps), 0, 0, false, RegOf(b));
      if word == BEGIN_NODE then
        var name := Str(b, p + 4);
        Seeking(b, AfterName(p, name), end, ps, k + 1, depth + 1, inMemory || (depth == 1 && IsMemory(name)))
      else if word == END_NODE then Seeking(b, p + 4, end, ps, k + 1, depth - 1, inMemory && depth != 2)
      else if word == PROP then
        && p + 12 <= end && p + 12 + Word(b, p + 4) <= end
        && if inMemory && IsReg(b, Word(b, p + 8)) then
          if Word(b, p + 4) == 16 then
            target == AtToken(k) && k < |ps| && ps[k].tok.Prop? && |ps[k].tok.value| == 16 && ps[k].at == p
          else target == BadSize
        else Seeking(b, p + 12 + PadWord(Word(b, p + 4)), end, ps, k + 1, depth, inMemory)
      else if word == NOP then Seeking(b, p + 4, end, ps, k, depth, inMemory)
      else target == Nowhere
  {
    hide Word, Str, Onward, Strip, FindReg, AfterName, PadWord, IsReg, IsMemory, Scan, Read;
    OnwardBounds(b, p, end, ps, k);
    OnwardStep(b, p, end, ps, k);
    StripParts(ps, k);
    RegPastEnd(Strip(ps), k, depth, inMemory, RegOf(b));
    if Word(b, p) != NOP && Word(b, p) != END {
      ReadParts(b, p, end);
      RegStep(Strip(ps), k, depth, inMemory, RegOf(b));
    }
  }

  lemma SeekStart(b: Blob, p: nat, end: nat)
    requires end <= |b|
    ensures Scan(b, p, end).Some? ==> p + 4 <= end && Seeking(b, p, end, Scan(b, p, end).value, 0, 0, false)
  {
    hide FindReg, Scan;
    OnwardStart(b, p, end);
  }

  lemma SeekRoom(b: Blob, p: nat, end: nat, ps: seq<Placed>, k: nat, depth: int, inMemory: bool)
    requires Seeking(b, p, end, ps, k, depth, inMemory)
    ensures p + 4 <= end
  {
  }

  /** fdt_set_memory_size's walk: where the value is. */
  method WalkToReg(blob: array<Byte>, begin: nat, end: nat) returns (found: bool, at: nat)
    requires end <= blob.Length && end < TWO32 && blob.Length >= 40
    ensures found ==> begin + 12 <= at && at + 16 <= end
    ensures Scan(blob[..], begin, end).Some? ==>
      var ps := Scan(blob[..], begin, end).value;
      match FindReg(Strip(ps), 0, 0, false, RegOf(blob[..]))
      case AtToken(k) => found && k < |ps| && ps[k].tok.Prop? && |ps[k].tok.value| == 16 && at == ps[k].at + 12
      case _ => !found
  {
    hide Word, Str, Scan, FindReg, Strip, AfterName, Seeking, PadWord, IsMemory;
    ghost var b := blob[..];
    var total := Be32(blob, 4);
    var offStrings := Be32(blob, 12);
    var p, depth, inMemory := begin, 0, false;
    ghost var good := Scan(b, begin, end).Some?;
    ghost var ps := if good then Scan(b, begin, end).value else [];
    ghost var k := 0;
    SeekStart(b, p, end);
    while p + 4 <= end
      invariant begin <= p
      invariant good ==> p + 4 <= end && Seeking(b, p, end, ps, k, depth, inMemory)
      decreases end - p
    {
      if good {
        SeekStep(b, p, end, ps, k, depth, inMemory);
      }
      ghost var tokenAt := p;
      var token := Be32(blob, p);
      p := p + 4;
      if token == BEGIN_NODE {
        var name := ReadStr(blob, p);
        NameAdvances(tokenAt, name);
        p := p + (|name| + 4) / 4 * 4;
        depth := depth + 1;
        if !inMemory && depth == 2 && IsMemory(name) {
          inMemory := true;
        }
        k := k + 1;
      } else if token == END_NODE {
        if inMemory && depth == 2 {
          inMemory := false;
        }
        depth := depth - 1;
        k := k + 1;
      } else if token == PROP {
        if p + 8 > end {
          return false, 0;
        }
        var length := Be32(blob, p);
        var nameoff := Be32(blob, p + 4);
        p := p + 8;
        if p + length > end {
          return false, 0;
        }
        if inMemory && (offStrings + nameoff) % TWO32 < total {
          var name := ReadStr(blob, offStrings + nameoff);
          if name == [0x72, 0x65, 0x67] {
            if length != 16 {
              return false, 0;
            }
            return true, p;
          }
        }
        p := p + PadWord(length);
        k := k + 1;
      } else if token != NOP {
        return false, 0;
      }
      if good {
        SeekRoom(b, p, end, ps, k, depth, inMemory);
      }
    }
    return false, 0;
  }

  /** Byte `i` of a big-endian 64-bit value. */
  function Be64Byte(v: nat, i: nat): Byte {
    match i
    case 0 => v / 0x100_0000_0000_0000 % 256
    case 1 => v / 0x1_0000_0000_0000 % 256
    case 2 => v / 0x100_0000_0000 % 256
    case 3 => v / 0x1_0000_0000 % 256
    case 4 => v / 0x100_0000 % 256
    case 5 => v / 0x1_0000 % 256
    case 6 => v / 0x100 % 256
    case _ => v % 256
  }

  function Be64(v: nat): seq<Byte> {
    seq(8, i requires 0 <= i < 8 => Be64Byte(v, i))
  }

  method PutBe64(blob: array<Byte>, p: nat, v: nat)
    requires p + 8 <= blob.Length
    modifies blob
    ensures forall k | 0 <= k < blob.Length && !(p <= k < p + 8) :: blob[k] == old(blob[k])
    ensures forall k | p <= k < p + 8 :: blob[k] == Be64(v)[k - p]
  {
    hide Be64Byte;
    for i := 0 to 8
      invariant forall k | 0 <= k < blob.Length && !(p <= k < p + i) :: blob[k] == old(blob[k])
      invariant forall k | p <= k < p + i :: blob[k] == Be64(v)[k - p]
    {
      blob[p + i] := Be64Byte(v, i);
    }
  }

  /** The tree of the blob with that value rewritten is the tree with the reg of the memory node so. */
  lemma RewrittenTree(a: Blob, b: Blob, root: Item, k: nat, value: seq<Byte>)
    requires Says(a, root) && HasTarget(root.items, RegOf(a))
    requires FindReg(Strip(Tokens(a).value), 0, 0, false, RegOf(a)) == AtToken(k)
    requires k < |Tokens(a).value| && Rewritten(a, b, Tokens(a).value[k], value)
    ensures Says(b, Node(root.name, PatchMemory(root.items, RegOf(a), value)))
  {
    hide Word, FindReg, Scan, FlattenItem, Flatten, PatchMemory, HasTarget;
    var ps := Tokens(a).value;
    RegInTree(Strip(ps), root, RegOf(a), value);
    ScanOrder(a, Start(a), Stop(a), k);
    SameHeader(a, b);
    RewrittenScan(a, b, Start(a), Stop(a), k, value);
    StripUpdate(ps, k, WithValue(ps[k], value));
    StripParts(ps, k);
  }

  lemma {:induction false} StripUpdate(ps: seq<Placed>, k: nat, t: Placed)
    requires k < |ps|
    ensures |Strip(ps)| == |ps| && Strip(ps[k := t]) == Strip(ps)[k := t.tok]
  {
    if k > 0 {
      assert ps[k := t][1..] == ps[1..][k - 1 := t];
      StripUpdate(ps[1..], k - 1, t);
    } else {
      assert ps[0 := t][1..] == ps[1..];
      StripParts(ps, 0);
    }
  }

  lemma NothingToPatch(a: Blob, root: Item)
    requires Says(a, root)
    ensures !HasTarget(root.items, RegOf(a)) ==> FindReg(Strip(Tokens(a).value), 0, 0, false, RegOf(a)) == Nowhere
    ensures HasTarget(root.items, RegOf(a)) ==>
      FindReg(Strip(Tokens(a).value), 0, 0, false, RegOf(a)).AtToken?
        == (|FirstReg(Target(root.items, RegOf(a)).items, RegOf(a))| == 16)
  {
    hide Word, FindReg, Scan;
    RegInTree(Strip(Tokens(a).value), root, RegOf(a), []);
  }

  lemma CanSetIsFound(a: Blob, root: Item)
    requires Says(a, root)
    ensures Tokens(a).Some?
        && (CanSet(root.items, RegOf(a)) <==> FindReg(Strip(Tokens(a).value), 0, 0, false, RegOf(a)).AtToken?)
  {
    hide Word, FindReg, Scan, HasTarget, Target, FirstReg;
    NothingToPatch(a, root);
  }

  /** The tree has a memory node with a reg inside, and the first reg inside the first such is the sixteen
      bytes of one base and size. */
  predicate CanSet(items: seq<Item>, reg: nat -> bool) {
    HasTarget(items, reg) && |FirstReg(Target(items, reg).items, reg)| == 16
  }

  /** The header is in order, and the strings block starts within the blob. */
  predicate StringsInside(b: Blob) {
    HeaderOk(b) && Word(b, 12) <= Word(b, 4)
  }

  /** fdt_set_memory_size. On failure the blob is untouched; else sixteen bytes of its structure block, and no
      others, are the base and size. On a blob that said a tree it succeeds exactly if there is such a reg and
      the strings block starts within the blob, and the blob then says the tree with that reg so. */
  method SetMemorySize(blob: array<Byte>, base: nat, size: nat) returns (ok: bool)
    requires Adds(blob[..])
    modifies blob
    ensures !ok ==> blob[..] == old(blob[..])
    ensures StringsInside(old(blob[..])) && Tokens(old(blob[..])).Some? ==>
      var ps := Tokens(old(blob[..])).value;
      match FindReg(Strip(ps), 0, 0, false, RegOf(old(blob[..])))
      case AtToken(k) => ok && k < |ps| && Rewritten(old(blob[..]), blob[..], ps[k], Be64(base) + Be64(size))
      case _ => !ok
    ensures ok ==> HeaderOk(old(blob[..])) && exists at: nat ::
      && OnlyAt(old(blob[..]), blob[..], at, Be64(base) + Be64(size))
      && Start(old(blob[..])) + 12 <= at && at + 16 <= Stop(old(blob[..]))
    ensures forall root | Says(old(blob[..]), root) ::
      && (ok <==> CanSet(root.items, RegOf(old(blob[..]))) && StringsInside(old(blob[..])))
      && (ok ==>
            var value := Be64(base) + Be64(size);
            Says(blob[..], Node(root.name, PatchMemory(root.items, RegOf(old(blob[..])), value))))
  {
    hide Scan, FindReg, Strip, Word, HasTarget, PatchMemory, FlattenItem, RegOf, Be64Byte, CanSet;
    ghost var a := blob[..];
    forall root | Says(a, root)
      ensures Tokens(a).Some?
        && (CanSet(root.items, RegOf(a)) <==> FindReg(Strip(Tokens(a).value), 0, 0, false, RegOf(a)).AtToken?)
    {
      CanSetIsFound(a, root);
    }
    var fine, begin, end := ReadHeader(blob);
    if !fine {
      return false;
    }
    var total := Be32(blob, 4);
    var offStrings := Be32(blob, 12);
    if offStrings > total {
      return false;
    }
    var found, at := WalkToReg(blob, begin, end);
    if !found {
      return false;
    }
    PutBe64(blob, at, base);
    PutBe64(blob, at + 8, size);
    assert OnlyAt(a, blob[..], at, Be64(base) + Be64(size));
    if Tokens(a).Some? {
      ghost var k := FindReg(Strip(Tokens(a).value), 0, 0, false, RegOf(a)).k;
      assert Rewritten(a, blob[..], Tokens(a).value[k], Be64(base) + Be64(size));
      forall root | Says(a, root)
        ensures Says(blob[..], Node(root.name, PatchMemory(root.items, RegOf(a), Be64(base) + Be64(size))))
      {
        NothingToPatch(a, root);
        RewrittenTree(a, blob[..], root, k, Be64(base) + Be64(size));
      }
    }
    return true;
  }
}
