/** The framing of gdb's remote serial protocol (the GDB manual, appendix "GDB Remote Serial Protocol",
    section Overview): $payload#checksum, with $, #, } and * escaped, a byte at a time in and a frame at
    a time out. */
module GdbPacket {
  import opened Words
  import opened Bits
  import opened BitFlags

  type Byte = b: nat | b < 256

  const CTRL_C: Byte := 0x03
  const DOLLAR: Byte := 0x24
  const HASH: Byte := 0x23
  const BRACE: Byte := 0x7D
  const STAR: Byte := 0x2A
  const PLUS: Byte := 0x2B
  const MINUS: Byte := 0x2D

  predicate Special(b: Byte) {
    b == DOLLAR || b == HASH || b == BRACE || b == STAR
  }

  /** b ^ 0x20. */
  function Flip(b: Byte): Byte {
    if b / 32 % 2 == 1 then b - 32 else b + 32
  }

  function HexDigit(n: nat): Byte
    requires n < 16
  {
    if n < 10 then 0x30 + n else 0x61 + n - 10
  }

  // ---- Printing --------------------------------------------------------------------------------

  function Escape(s: seq<Byte>): seq<Byte> {
    if s == [] then []
    else (if Special(s[0]) then [BRACE, Flip(s[0])] else [s[0]]) + Escape(s[1..])
  }

  function Sum(s: seq<Byte>): nat {
    if s == [] then 0 else s[0] + Sum(s[1..])
  }

  function Enclose(body: seq<Byte>, sum: nat): seq<Byte> {
    [DOLLAR] + body + [HASH, HexDigit(sum / 16 % 16), HexDigit(sum % 16)]
  }

  function Frame(payload: seq<Byte>): seq<Byte> {
    Enclose(Escape(payload), Sum(Escape(payload)))
  }

  // ---- Parsing ----------------------------------------------------------------------------------

  /** A packet still arriving, from its $ on. */
  type Partial = s: seq<Byte> | s == [] || s[0] == DOLLAR

  datatype Conn = Conn(partial: Partial, queue: seq<seq<Byte>>, interrupt: bool, noAck: bool, acks: seq<Byte>)

  function FirstHash(s: seq<Byte>): (i: nat)
    ensures i <= |s| && (i < |s| ==> s[i] == HASH) && HASH !in s[..i]
  {
    if s == [] || s[0] == HASH then 0
    else
      assert s[..1 + FirstHash(s[1..])] == [s[0]] + s[1..][..FirstHash(s[1..])];
      1 + FirstHash(s[1..])
  }

  function HexValue(b: Byte): Option<nat> {
    if 0x30 <= b <= 0x39 then Some(b - 0x30)
    else if 0x41 <= b <= 0x46 then Some(b - 0x41 + 10)
    else if 0x61 <= b <= 0x66 then Some(b - 0x61 + 10)
    else None
  }

  predicate IsSpace(b: Byte) {
    b == 0x20 || 9 <= b <= 13
  }

  /** strtoul in base 16 on two characters: white space or a sign first, and as many digits as follow. */
  function TwoDigits(a: Byte, b: Byte): nat {
    match HexValue(a)
    case Some(high) => (match HexValue(b) case Some(low) => high * 16 + low case None => high)
    case None =>
      match HexValue(b)
      case Some(low) =>
        if IsSpace(a) || a == PLUS then low
        else if a == MINUS then (TWO32 - low) % TWO32
        else 0
      case None => 0
  }

  function Unescape(s: seq<Byte>): seq<Byte> {
    if s == [] then []
    else if s[0] == BRACE && |s| > 1 then [Flip(s[1])] + Unescape(s[2..])
    else [s[0]] + Unescape(s[1..])
  }

  /** A whole packet: acknowledged, and queued unless its checksum is refused. */
  function Complete(c: Conn, payload: seq<Byte>, want: nat): Conn {
    var d := c.(partial := []);
    if c.noAck then d.(queue := d.queue + [Unescape(payload)])
    else if Sum(payload) % 256 == want then d.(acks := d.acks + [PLUS], queue := d.queue + [Unescape(payload)])
    else d.(acks := d.acks + [MINUS])
  }

  function Feed(c: Conn, ch: Byte): Conn {
    if c.partial == [] && ch == CTRL_C then c.(interrupt := true)
    else if c.partial == [] && ch != DOLLAR then c
    else
      var p := c.partial + [ch];
      var hash := FirstHash(p);
      if |p| < hash + 3 then c.(partial := p)
      else Complete(c, p[1..hash], TwoDigits(p[hash + 1], p[hash + 2]))
  }

  function FeedAll(c: Conn, s: seq<Byte>): Conn
    decreases |s|
  {
    if s == [] then c else FeedAll(Feed(c, s[0]), s[1..])
  }

  function Concat(chunks: seq<seq<Byte>>): seq<Byte> {
    if chunks == [] then [] else chunks[0] + Concat(chunks[1..])
  }

  // ---- Printing and parsing back -------------------------------------------------------------------

  lemma {:induction false} UnescapeEscape(s: seq<Byte>)
    ensures Unescape(Escape(s)) == s
  {
    if s != [] {
      UnescapeEscape(s[1..]);
      var rest := Escape(s[1..]);
      if Special(s[0]) {
        assert ([BRACE, Flip(s[0])] + rest)[2..] == rest;
      } else {
        assert ([s[0]] + rest)[1..] == rest;
      }
    }
  }

  lemma {:induction false} NoHashEscaped(s: seq<Byte>)
    ensures HASH !in Escape(s)
  {
    if s != [] {
      NoHashEscaped(s[1..]);
    }
  }

  lemma {:induction false} FirstHashAfter(s: seq<Byte>, t: seq<Byte>)
    requires HASH !in s
    ensures FirstHash(s + [HASH] + t) == |s| && FirstHash(s) == |s|
  {
    if s != [] {
      assert s[0] in s;
      FirstHashAfter(s[1..], t);
      assert (s + [HASH] + t)[1..] == s[1..] + [HASH] + t;
    }
  }

  lemma {:induction false} FeedAppend(c: Conn, s: seq<Byte>, t: seq<Byte>)
    ensures FeedAll(c, s + t) == FeedAll(FeedAll(c, s), t)
    decreases |s|
  {
    hide Feed;
    if s == [] {
      assert s + t == t;
    } else {
      assert (s + t)[1..] == s[1..] + t;
      FeedAppend(Feed(c, s[0]), s[1..], t);
    }
  }

  /** However the bytes are cut into reads. */
  lemma {:induction false} ChunksDoNotMatter(c: Conn, chunks: seq<seq<Byte>>)
    ensures FeedAll(c, Concat(chunks)) == FeedChunks(c, chunks)
    decreases |chunks|
  {
    if chunks != [] {
      FeedAppend(c, chunks[0], Concat(chunks[1..]));
      ChunksDoNotMatter(FeedAll(c, chunks[0]), chunks[1..]);
    }
  }

  function FeedChunks(c: Conn, chunks: seq<seq<Byte>>): Conn
    decreases |chunks|
  {
    if chunks == [] then c else FeedChunks(FeedAll(c, chunks[0]), chunks[1..])
  }

  /** Inside a packet every byte is the packet's, whatever it is. */
  lemma {:induction false} FeedBody(c: Conn, body: seq<Byte>)
    requires c.partial != [] && HASH !in c.partial && HASH !in body
    ensures FeedAll(c, body) == c.(partial := c.partial + body)
    decreases |body|
  {
    if body == [] {
      assert c.partial + body == c.partial;
    } else {
      assert body[0] in body;
      var p := c.partial + [body[0]];
      FirstHashAfter(p, []);
      FeedBody(c.(partial := p), body[1..]);
      assert p + body[1..] == c.partial + body;
    }
  }

  /** The three bytes that end a packet. */
  lemma FeedEnd(c: Conn, body: seq<Byte>, x: Byte, y: Byte)
    requires c.partial == [DOLLAR] + body && HASH !in body
    ensures FeedAll(c, [HASH, x, y]) == Complete(c, body, TwoDigits(x, y))
  {
    hide TwoDigits, Complete, FirstHash;
    var start := [DOLLAR] + body;
    var c1, c2 := c.(partial := start + [HASH]), c.(partial := start + [HASH, x]);
    FirstHashAfter(start, []);
    FirstHashAfter(start, [x]);
    assert start + [HASH] + [] == c1.partial && start + [HASH] + [x] == c2.partial;
    assert Feed(c, HASH) == c1 && Feed(c1, x) == c2;
    FeedLast(c2, body, x, y);
    CompleteForgets(c, c2, body, TwoDigits(x, y));
    FeedThree(c, HASH, x, y);
  }

  lemma FeedThree(c: Conn, x: Byte, y: Byte, z: Byte)
    ensures FeedAll(c, [x, y, z]) == Feed(Feed(Feed(c, x), y), z)
  {
    hide Feed;
    assert [x, y, z][1..] == [y, z] && [y, z][1..] == [z] && [z][1..] == [];
    assert FeedAll(c, [x, y, z]) == FeedAll(Feed(c, x), [y, z]);
    assert FeedAll(Feed(c, x), [y, z]) == FeedAll(Feed(Feed(c, x), y), [z]);
  }

  lemma FeedLast(c: Conn, body: seq<Byte>, x: Byte, y: Byte)
    requires c.partial == [DOLLAR] + body + [HASH, x] && HASH !in body
    ensures Feed(c, y) == Complete(c, body, TwoDigits(x, y))
  {
    hide TwoDigits, Complete, FirstHash;
    var start := [DOLLAR] + body;
    FirstHashAfter(start, [x, y]);
    assert start + [HASH] + [x, y] == c.partial + [y];
    assert (c.partial + [y])[1..|start|] == body;
  }

  lemma CompleteForgets(c: Conn, d: Conn, body: seq<Byte>, want: nat)
    requires d == c.(partial := d.partial)
    ensures Complete(c, body, want) == Complete(d, body, want)
  {
  }

  /** A frame round any bytes but #, with any two checksum characters: a packet is always complete after
      it, and it is queued if the checksum is right or nobody asks. */
  lemma FramedIsComplete(c: Conn, body: seq<Byte>, x: Byte, y: Byte)
    requires c.partial == [] && HASH !in body
    ensures FeedAll(c, [DOLLAR] + body + [HASH, x, y]) == Complete(c, body, TwoDigits(x, y))
  {
    hide Complete, TwoDigits, FirstHash;
    var d := c.(partial := [DOLLAR]);
    FeedAppend(c, [DOLLAR] + body, [HASH, x, y]);
    FeedAppend(c, [DOLLAR], body);
    assert [DOLLAR][1..] == [];
    FirstHashAfter([DOLLAR], []);
    assert Feed(c, DOLLAR) == d;
    FeedBody(d, body);
    var e := c.(partial := [DOLLAR] + body);
    FeedEnd(e, body, x, y);
    CompleteForgets(c, e, body, TwoDigits(x, y));
  }

  lemma DigitsReadBack(sum: nat)
    ensures TwoDigits(HexDigit(sum / 16 % 16), HexDigit(sum % 16)) == sum % 256
  {
    hide HexValue, HexDigit, IsSpace;
    DigitReadsBack(sum / 16 % 16);
    DigitReadsBack(sum % 16);
    TwoNibbles(sum);
  }

  lemma TwoNibbles(sum: nat)
    ensures sum / 16 % 16 * 16 + sum % 16 == sum % 256
  {
    var q := sum / 16;
    assert sum == q * 16 + sum % 16 && q == q / 16 * 16 + q % 16;
  }

  lemma DigitReadsBack(n: nat)
    requires n < 16
    ensures HexValue(HexDigit(n)) == Some(n)
  {
  }

  /** One payload queued, and acknowledged if anyone asks. */
  function Received(c: Conn, p: seq<Byte>): Conn {
    c.(queue := c.queue + [p], acks := if c.noAck then c.acks else c.acks + [PLUS])
  }

  /** A reply printed and parsed back is the reply, once, acknowledged, with no interrupt raised. */
  lemma RoundTrip(c: Conn, payload: seq<Byte>)
    requires c.partial == []
    ensures FeedAll(c, Frame(payload)) == Received(c, payload)
  {
    hide Escape, TwoDigits, Unescape;
    var body := Escape(payload);
    NoHashEscaped(payload);
    UnescapeEscape(payload);
    FramedIsComplete(c, body, HexDigit(Sum(body) / 16 % 16), HexDigit(Sum(body) % 16));
    DigitsReadBack(Sum(body));
  }

  /** What goes over the wire: packets, and acknowledgements or other noise between them. */
  datatype Message = Packet(payload: seq<Byte>) | Noise(bytes: seq<Byte>)

  function Bytes(m: Message): seq<Byte> {
    match m
    case Packet(p) => Frame(p)
    case Noise(b) => b
  }

  function Wire(ms: seq<Message>): seq<Byte> {
    if ms == [] then []
    else Bytes(ms[0]) + Wire(ms[1..])
  }

  function Payloads(ms: seq<Message>): seq<seq<Byte>> {
    if ms == [] then [] else (if ms[0].Packet? then [ms[0].payload] else []) + Payloads(ms[1..])
  }

  /** Noise starts no packet. */
  predicate Quiet(ms: seq<Message>) {
    forall m <- ms :: m.Noise? ==> 0x24 !in m.bytes
  }

  /** A Ctrl-C (byte 3) between packets. */
  predicate Breaks(m: Message) {
    m.Noise? && 0x03 in m.bytes
  }

  predicate Broken(ms: seq<Message>) {
    ms != [] && (Breaks(ms[0]) || Broken(ms[1..]))
  }

  lemma {:induction false} BrokenIsSome(ms: seq<Message>)
    ensures Broken(ms) <==> exists m <- ms :: Breaks(m)
  {
    hide Breaks;
    if ms != [] {
      assert ms == [ms[0]] + ms[1..];
      BrokenIsSome(ms[1..]);
    }
  }

  lemma {:induction false} NoiseOnlyBreaks(c: Conn, bytes: seq<Byte>)
    requires c.partial == [] && 0x24 !in bytes
    ensures FeedAll(c, bytes) == c.(interrupt := c.interrupt || 0x03 in bytes)
    decreases |bytes|
  {
    if bytes != [] {
      assert bytes[0] in bytes && bytes == [bytes[0]] + bytes[1..];
      NoiseOnlyBreaks(Feed(c, bytes[0]), bytes[1..]);
    }
  }

  /** Any packets, with any noise between them, in any chunks: exactly their payloads are queued, in order, each
      acknowledged with a + (0x2B) if anyone asks, and an interrupt is raised exactly by a Ctrl-C between packets --
      though byte 3 may be inside one, and an escaped # is the byte that is one between packets. */
  lemma WireRoundTrip(c: Conn, ms: seq<Message>, chunks: seq<seq<Byte>>)
    requires c.partial == [] && Quiet(ms) && Concat(chunks) == Wire(ms)
    ensures var d := FeedChunks(c, chunks);
      && d.partial == [] && d.noAck == c.noAck && d.queue == c.queue + Payloads(ms)
      && d.acks == c.acks + (if c.noAck then [] else seq(|Payloads(ms)|, _ => 0x2B))
      && d.interrupt == (c.interrupt || exists m <- ms :: Breaks(m))
  {
    ChunksDoNotMatter(c, chunks);
    WireDelivers(c, ms);
    BrokenIsSome(ms);
  }

  /** From `c` to `d` these payloads came, and perhaps a Ctrl-C. */
  predicate Delivered(c: Conn, d: Conn, ps: seq<seq<Byte>>, broken: bool) {
    && d.partial == [] && d.noAck == c.noAck && d.queue == c.queue + ps
    && d.acks == c.acks + (if c.noAck then [] else seq(|ps|, _ => 0x2B))
    && d.interrupt == (c.interrupt || broken)
  }

  lemma DeliveredBoth(c: Conn, e: Conn, d: Conn, ps: seq<seq<Byte>>, qs: seq<seq<Byte>>, b: bool, b': bool)
    requires Delivered(c, e, ps, b) && Delivered(e, d, qs, b')
    ensures Delivered(c, d, ps + qs, b || b')
  {
    assert c.queue + ps + qs == c.queue + (ps + qs);
    if !c.noAck {
      var x, y := seq(|ps|, _ => 0x2B), seq(|qs|, _ => 0x2B);
      assert c.acks + x + y == c.acks + (x + y) && x + y == seq(|ps + qs|, _ => 0x2B);
    }
  }

  lemma {:induction false} WireDelivers(c: Conn, ms: seq<Message>)
    requires c.partial == [] && Quiet(ms)
    ensures Delivered(c, FeedAll(c, Wire(ms)), Payloads(ms), Broken(ms))
    decreases |ms|
  {
    hide FeedAll, Bytes, Breaks, Received, Delivered, Payloads;
    if ms == [] {
      NothingDelivered(c);
    } else {
      assert ms[0] in ms;
      var e := FeedAll(c, Bytes(ms[0]));
      FeedAppend(c, Bytes(ms[0]), Wire(ms[1..]));
      OneMessage(c, ms[0]);
      WireDelivers(e, ms[1..]);
      FirstMessage(ms);
      DeliveredBoth(c, e, FeedAll(c, Wire(ms)), Payloads([ms[0]]), Payloads(ms[1..]), Breaks(ms[0]), Broken(ms[1..]));
    }
  }

  lemma FirstMessage(ms: seq<Message>)
    requires ms != []
    ensures Payloads(ms) == Payloads([ms[0]]) + Payloads(ms[1..])
  {
    assert [ms[0]][1..] == [];
  }

  lemma NothingDelivered(c: Conn)
    requires c.partial == []
    ensures Delivered(c, FeedAll(c, []), Payloads([]), Broken([]))
  {
  }

  lemma OneMessage(c: Conn, m: Message)
    requires c.partial == [] && (m.Noise? ==> 0x24 !in m.bytes)
    ensures Delivered(c, FeedAll(c, Bytes(m)), Payloads([m]), Breaks(m)) && FeedAll(c, Bytes(m)).partial == []
  {
    hide FeedAll, Frame;
    assert [m][1..] == [];
    if m.Packet? {
      RoundTrip(c, m.payload);
    } else {
      NoiseOnlyBreaks(c, m.bytes);
    }
  }

  // ---- The bytes of a frame ------------------------------------------------------------------------

  const HEX_DIGITS := "0123456789abcdef"

  /** `b` with bit 5 the other way. */
  ghost predicate OtherWay(x: Byte, b: Byte) {
    forall k: nat :: Bit(x, k) == (Bit(b, k) != (k == 5))
  }

  lemma FlipIsXor(b: Byte, k: nat)
    ensures Bit(Flip(b), k) == (Bit(b, k) != (k == 5))
  {
    hide Bit;
    BitIsHas(b, 5, 32);
    if Bit(b, 5) {
      FlipBack(b - 32);
      BitOfSum(b - 32, 5, k);
    } else {
      BitOfSum(b, 5, k);
    }
  }

  lemma FlipBack(b: nat)
    requires Bit(b + 32, 5)
    ensures !Bit(b, 5)
  {
    hide Bit;
    BitIsHas(b, 5, 32);
    BitIsHas(b + 32, 5, 32);
    assert (b + 32) / 32 == b / 32 + 1;
  }

  /** Section "Overview" of the protocol: a byte of the payload goes as itself, but for # $ * and }, which go as } and
      the byte with bit 5 the other way; what is put together goes together. */
  lemma {:induction false} EscapedByByte(s: seq<Byte>, t: seq<Byte>, b: Byte)
    ensures Escape(s + t) == Escape(s) + Escape(t)
    ensures b in {0x23, 0x24, 0x2A, 0x7D} ==>
      |Escape([b])| == 2 && Escape([b])[0] == 0x7D && OtherWay(Escape([b])[1], b)
    ensures b !in {0x23, 0x24, 0x2A, 0x7D} ==> Escape([b]) == [b]
  {
    hide Flip, Bit;
    forall k: nat
      ensures Bit(Flip(b), k) == (Bit(b, k) != (k == 5))
    {
      FlipIsXor(b, k);
    }
    assert [b][1..] == [];
    assert Special(b) ==> Escape([b]) == [0x7D, Flip(b)];
    if s == [] {
      assert s + t == t;
    } else {
      EscapedByByte(s[1..], t, b);
      assert (s + t)[1..] == s[1..] + t;
    }
  }

  lemma {:induction false} SumAdds(s: seq<Byte>, t: seq<Byte>, b: Byte)
    ensures Sum([]) == 0 && Sum([b]) == b && Sum(s + t) == Sum(s) + Sum(t)
  {
    assert [b][1..] == [];
    if s == [] {
      assert s + t == t;
    } else {
      SumAdds(s[1..], t, b);
      assert (s + t)[1..] == s[1..] + t;
    }
  }

  /** A frame is $, the payload escaped -- with no $, # or * left in it -- then # and the sum of the escaped bytes
      modulo 256 as two lower-case hexadecimal digits. */
  lemma FramedExactly(payload: seq<Byte>)
    ensures var body, f := Escape(payload), Frame(payload);
      && |f| == |body| + 4 && f[0] == 0x24 && f[1..|f| - 3] == body && f[|f| - 3] == 0x23
      && 0x24 !in body && 0x23 !in body && 0x2A !in body
      && f[|f| - 2] == HEX_DIGITS[Sum(body) % 256 / 16] as int && f[|f| - 1] == HEX_DIGITS[Sum(body) % 16] as int
  {
    hide Escape, Sum, HexDigit, Enclose;
    CleanEscaped(payload);
    EnclosedExactly(Escape(payload), Sum(Escape(payload)));
  }

  lemma EnclosedExactly(body: seq<Byte>, sum: nat)
    ensures var f := Enclose(body, sum);
      && |f| == |body| + 4 && f[0] == 0x24 && f[1..|f| - 3] == body && f[|f| - 3] == 0x23
      && f[|f| - 2] == HEX_DIGITS[sum % 256 / 16] as int && f[|f| - 1] == HEX_DIGITS[sum % 16] as int
  {
    hide HexDigit;
    HighNibble(sum);
    DigitIsCharacter(sum / 16 % 16);
    DigitIsCharacter(sum % 16);
  }

  lemma HighNibble(sum: nat)
    ensures sum / 16 % 16 == sum % 256 / 16
  {
    TwoNibbles(sum);
  }

  lemma {:induction false} CleanEscaped(s: seq<Byte>)
    ensures 0x24 !in Escape(s) && 0x23 !in Escape(s) && 0x2A !in Escape(s)
  {
    if s != [] {
      CleanEscaped(s[1..]);
    }
  }

  lemma DigitIsCharacter(n: nat)
    requires n < 16
    ensures HexDigit(n) == HEX_DIGITS[n] as int
  {
  }

  /** Two digits of either case are the number they write. */
  lemma DigitsRead(high: nat, low: nat)
    requires high < 16 && low < 16
    ensures TwoDigits(HEX_DIGITS[high] as int, HEX_DIGITS[low] as int) == high * 16 + low
    ensures var upper := "0123456789ABCDEF"; TwoDigits(upper[high] as int, upper[low] as int) == high * 16 + low
  {
    hide IsSpace;
    CharacterReads(high);
    CharacterReads(low);
  }

  lemma CharacterReads(n: nat)
    requires n < 16
    ensures HexValue(HEX_DIGITS[n] as int) == Some(n) && HexValue("0123456789ABCDEF"[n] as int) == Some(n)
  {
  }

  /** What gdb may send for `s`: a byte as itself if it is not }, or escaped, as it pleases. */
  predicate Writes(w: seq<Byte>, s: seq<Byte>)
    decreases |s|
  {
    if s == [] then w == []
    else
      || (w != [] && w[0] == s[0] != 0x7D && Writes(w[1..], s[1..]))
      || (|w| > 1 && w[0] == 0x7D && s[0] == Flip(w[1]) && Writes(w[2..], s[1..]))
  }

  /** Whichever it chose to escape, it reads back. */
  lemma {:induction false} AnyEscapingReadsBack(w: seq<Byte>, s: seq<Byte>)
    requires Writes(w, s)
    ensures Unescape(w) == s
    decreases |s|
  {
    hide Flip;
    if s != [] {
      if w[0] == 0x7D {
        AnyEscapingReadsBack(w[2..], s[1..]);
      } else {
        AnyEscapingReadsBack(w[1..], s[1..]);
      }
    }
  }

  // ---- Corruption ------------------------------------------------------------------------------------

  lemma {:induction false} SumOfChanged(s: seq<Byte>, i: nat, b: Byte)
    requires i < |s|
    ensures Sum(s[i := b]) == Sum(s) - s[i] + b
  {
    if i == 0 {
      assert s[0 := b][1..] == s[1..];
    } else {
      assert s[i := b][1..] == s[1..][i - 1 := b];
      SumOfChanged(s[1..], i - 1, b);
    }
  }

  /** One byte of a body changed on the way, to anything but #: refused, and nothing is queued -- and the
      next packet starts afresh. */
  lemma OneBadByteIsRefused(c: Conn, payload: seq<Byte>, i: nat, b: Byte)
    requires c.partial == [] && !c.noAck && i < |Escape(payload)| && b != Escape(payload)[i] && b != 0x23
    ensures FeedAll(c, Enclose(Escape(payload)[i := b], Sum(Escape(payload)))) == c.(acks := c.acks + [0x2D])
  {
    hide Escape, TwoDigits, Unescape, Sum, HexDigit, FeedAll;
    var body := Escape(payload);
    NoHashEscaped(payload);
    StillNoHash(body, i, b);
    ChangedSumDiffers(body, i, b);
    FramedIsComplete(c, body[i := b], HexDigit(Sum(body) / 16 % 16), HexDigit(Sum(body) % 16));
    DigitsReadBack(Sum(body));
  }

  lemma StillNoHash(s: seq<Byte>, i: nat, b: Byte)
    requires HASH !in s && i < |s| && b != HASH
    ensures HASH !in s[i := b]
  {
  }

  lemma ChangedSumDiffers(s: seq<Byte>, i: nat, b: Byte)
    requires i < |s| && b != s[i]
    ensures Sum(s[i := b]) % 256 != Sum(s) % 256
  {
    hide Sum;
    SumOfChanged(s, i, b);
  }

  // ---- The object --------------------------------------------------------------------------------------

  class Server {
    var partial: seq<Byte>
    var queue: seq<seq<Byte>>
    var interrupt: bool
    var noAck: bool
    var acks: seq<Byte>      // sent to gdb: + and -

    ghost predicate Valid()
      reads this
    {
      partial == [] || partial[0] == DOLLAR
    }

    ghost function View(): Conn
      requires Valid()
      reads this
    {
      Conn(partial, queue, interrupt, noAck, acks)
    }

    constructor ()
      ensures Valid() && View() == Conn([], [], false, false, [])
    {
      partial, queue, interrupt, noAck, acks := [], [], false, false, [];
    }

    /** handle_bytes: one read's worth. */
    method HandleBytes(data: seq<Byte>)
      requires Valid()
      modifies this
      ensures Valid() && View() == FeedAll(old(View()), data)
    {
      hide FirstHash, TwoDigits, Unescape, Sum;
      ghost var start := View();
      for i := 0 to |data|
        invariant Valid() && FeedAll(View(), data[i..]) == FeedAll(start, data)
      {
        assert data[i..][1..] == data[i + 1..];
        var ch := data[i];
        if partial == [] {
          if ch == CTRL_C {
            interrupt := true;
            continue;
          }
          if ch != DOLLAR {
            continue;
          }
        }
        partial := partial + [ch];
        var hash := FirstHash(partial);
        if hash == |partial| || |partial| < hash + 3 {
          continue;
        }
        var payload := partial[1..hash];
        var want := TwoDigits(partial[hash + 1], partial[hash + 2]);
        partial := [];
        if !noAck {
          var sum := Checksum(payload);
          acks := acks + [if sum % 256 == want then PLUS else MINUS];
          if sum % 256 != want {
            continue;
          }
        }
        var plain := Plain(payload);
        queue := queue + [plain];
      }
      assert data[|data|..] == [];
    }

    /** next_packet. */
    method NextPacket() returns (payload: Option<seq<Byte>>)
      requires Valid()
      modifies this`queue
      ensures Valid()
      ensures match payload
        case Some(p) => old(queue) == [p] + queue
        case None => old(queue) == [] && queue == []
    {
      if queue == [] {
        return None;
      }
      payload := Some(queue[0]);
      queue := queue[1..];
    }
  }

  method Checksum(s: seq<Byte>) returns (sum: nat)
    ensures sum == Sum(s)
  {
    sum := 0;
    for k := 0 to |s|
      invariant sum + Sum(s[k..]) == Sum(s)
    {
      assert s[k..][1..] == s[k + 1..];
      sum := sum + s[k];
    }
  }

  method Plain(s: seq<Byte>) returns (plain: seq<Byte>)
    ensures plain == Unescape(s)
  {
    hide Unescape, Flip;
    plain := [];
    var k := 0;
    assert s[0..] == s;
    while k < |s|
      invariant k <= |s| && plain + Unescape(s[k..]) == Unescape(s)
    {
      UnescapeFrom(s, k);
      if s[k] == BRACE && k + 1 < |s| {
        Grow(plain, Flip(s[k + 1]), Unescape(s[k + 2..]));
        plain := plain + [Flip(s[k + 1])];
        k := k + 2;
      } else {
        Grow(plain, s[k], Unescape(s[k + 1..]));
        plain := plain + [s[k]];
        k := k + 1;
      }
    }
    UnescapeFrom(s, k);
  }

  lemma UnescapeFrom(s: seq<Byte>, k: nat)
    requires k <= |s|
    ensures Unescape(s[k..]) == if k == |s| then []
      else if s[k] == BRACE && k + 1 < |s| then [Flip(s[k + 1])] + Unescape(s[k + 2..])
      else [s[k]] + Unescape(s[k + 1..])
  {
  }

  lemma Grow(s: seq<Byte>, b: Byte, rest: seq<Byte>)
    ensures s + ([b] + rest) == s + [b] + rest
  {
  }

  /** send: the frame, built a byte at a time. */
  method Send(payload: seq<Byte>) returns (frame: seq<Byte>)
    ensures frame == Frame(payload)
  {
    hide Flip, Special, Escape, Sum;
    var body: seq<Byte> := [];
    var sum := 0;
    NothingEscaped();
    for k := 0 to |payload|
      invariant body == Escape(payload[..k]) && sum == Sum(body)
    {
      assert payload[..k] + [payload[k]] == payload[..k + 1];
      EscapeMore(payload[..k], payload[k]);
      var b := payload[k];
      if Special(b) {
        SumOfMore(body, BRACE);
        body := body + [BRACE];
        sum := sum + BRACE;
        b := Flip(b);
      }
      SumOfMore(body, b);
      body := body + [b];
      sum := sum + b;
    }
    assert payload[..|payload|] == payload;
    frame := [DOLLAR] + body + [HASH, HexDigit(sum / 16 % 16), HexDigit(sum % 16)];
  }

  lemma NothingEscaped()
    ensures Escape([]) == [] && Sum([]) == 0
  {
  }

  lemma {:induction false} EscapeMore(s: seq<Byte>, b: Byte)
    ensures Escape(s + [b]) == if Special(b) then Escape(s) + [BRACE] + [Flip(b)] else Escape(s) + [b]
  {
    hide Flip, Special;
    if s == [] {
      assert s + [b] == [b] && [b][1..] == [];
    } else {
      assert (s + [b])[1..] == s[1..] + [b];
      EscapeMore(s[1..], b);
    }
  }

  lemma {:induction false} SumOfMore(s: seq<Byte>, b: Byte)
    ensures Sum(s + [b]) == Sum(s) + b
  {
    if s == [] {
      assert s + [b] == [b] && [b][1..] == [];
    } else {
      assert (s + [b])[1..] == s[1..] + [b];
      SumOfMore(s[1..], b);
    }
  }
}
