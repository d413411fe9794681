/** The Wayland wire format as the virtual pointer speaks it: message framing over an arbitrarily cut byte
    stream, strings, registry announcements, and the round trip that waits for the compositor. */
module WaylandWire {
  import opened Division

  type Byte = b: int | 0 <= b < 0x100

  type Word = w: int | 0 <= w < 0x1_0000_0000

  type Bytes = seq<Byte>

  // -- words --------------------------------------------------------------------

  function Le32(w: Word): Bytes {
    [w % 0x100, w / 0x100 % 0x100, w / 0x1_0000 % 0x100, w / 0x100_0000]
  }

  function WordAt(b: Bytes, i: nat): Word
    requires i + 4 <= |b|
  {
    Joined(b[i], b[i + 1], b[i + 2], b[i + 3])
  }

  function Joined(b0: Byte, b1: Byte, b2: Byte, b3: Byte): Word {
    (b0 as int) + 0x100 * (b1 as int) + 0x1_0000 * (b2 as int) + 0x100_0000 * (b3 as int)
  }

  lemma WordReadsBack(w: Word)
    ensures WordAt(Le32(w), 0) == w
  {
    var w1: int, w2: int := w / 0x100, w / 0x1_0000;
    assert w1 / 0x100 == w2 && w2 / 0x100 == w / 0x100_0000;
  }

  lemma JoinedSplits(b0: Byte, b1: Byte, b2: Byte, b3: Byte)
    ensures Le32(Joined(b0, b1, b2, b3)) == [b0, b1, b2, b3]
  {
    var w: int, w2: int := Joined(b0, b1, b2, b3), b2 + 0x100 * b3;
    var w1: int := b1 + 0x100 * w2;
    DivModIs(w, 0x100, w1, b0);
    DivModIs(w1, 0x100, w2, b1);
    DivModIs(w2, 0x100, b3, b2);
    DivModIs(w, 0x1_0000, w2, b0 + 0x100 * b1);
    DivModIs(w, 0x100_0000, b3, b0 + 0x100 * b1 + 0x1_0000 * b2);
  }

  // -- messages -----------------------------------------------------------------

  datatype Event = Event(obj: Word, opcode: Word, body: Bytes)

  /** Bitwise or of two halves of a word. */
  function Or16(a: nat, b: nat): (c: nat)
    requires a < 0x1_0000 && b < 0x1_0000
    ensures c < 0x1_0000
  {
    if b == 0 then a else (a as bv16 | b as bv16) as nat
  }

  /** The size shifted into the upper half, in 32 bits, or-ed with the opcode. */
  function SizeAndOpcode(size: nat, opcode: Word): Word {
    0x1_0000 * Or16(size % 0x1_0000, opcode / 0x1_0000) + opcode % 0x1_0000
  }

  function EncodeMsg(e: Event): Bytes {
    Le32(e.obj) + Le32(SizeAndOpcode(8 + |e.body|, e.opcode)) + e.body
  }

  predicate Fits(e: Event) { 8 + |e.body| < 0x1_0000 && e.opcode < 0x1_0000 }

  function EncodeAll(es: seq<Event>): Bytes {
    if es == [] then [] else EncodeMsg(es[0]) + EncodeAll(es[1..])
  }

  /** The two halves of the second header word. */
  function SizeAt(b: Bytes, off: nat): nat
    requires off + 8 <= |b|
  {
    (b[off + 6] as int) + 0x100 * (b[off + 7] as int)
  }

  function OpcodeAt(b: Bytes, off: nat): Word
    requires off + 8 <= |b|
  {
    (b[off + 4] as int) + 0x100 * (b[off + 5] as int)
  }

  lemma HalvesOfTheWord(b: Bytes, off: nat)
    requires off + 8 <= |b|
    ensures WordAt(b, off + 4) / 0x1_0000 == SizeAt(b, off) && WordAt(b, off + 4) % 0x1_0000 == OpcodeAt(b, off)
  {
  }

  /** A whole message, with a size that covers at least its header, starts at `off`. */
  predicate WholeAt(b: Bytes, off: nat) {
    off + 8 <= |b| && 8 <= SizeAt(b, off) && off + SizeAt(b, off) <= |b|
  }

  function EventAt(b: Bytes, off: nat): Event
    requires WholeAt(b, off)
  {
    Event(WordAt(b, off), OpcodeAt(b, off), b[off + 8..off + SizeAt(b, off)])
  }

  datatype Parsed = Parsed(events: seq<Event>, rest: Bytes)

  /** The messages a buffer starts with, and the bytes left over. */
  function Parse(b: Bytes): Parsed {
    if !WholeAt(b, 0) then Parsed([], b) else
      var later := Parse(b[SizeAt(b, 0)..]);
      Parsed([EventAt(b, 0)] + later.events, later.rest)
  }

  /** A message that fits, byte by byte: the object, the opcode and the size, low bytes first, then the body. */
  lemma MessageLayout(e: Event)
    requires Fits(e)
    ensures var size := 8 + |e.body|;
      EncodeMsg(e) == [e.obj % 0x100, e.obj / 0x100 % 0x100, e.obj / 0x1_0000 % 0x100, e.obj / 0x100_0000,
                       e.opcode % 0x100, e.opcode / 0x100, size % 0x100, size / 0x100] + e.body
  {
    var size := 8 + |e.body|;
    assert SizeAndOpcode(size, e.opcode) == 0x1_0000 * size + e.opcode;
    HalvesSplit(size, e.opcode);
  }

  lemma HalvesSplit(high: nat, low: nat)
    requires high < 0x1_0000 && low < 0x1_0000
    ensures Le32(0x1_0000 * high + low) == [low % 0x100, low / 0x100, high % 0x100, high / 0x100]
  {
    var w := 0x1_0000 * high + low;
    DivModIs(w, 0x1_0000, high, low);
    DivModIs(w, 0x100, 0x100 * high + low / 0x100, low % 0x100);
    DivModIs(w, 0x100_0000, high / 0x100, 0x1_0000 * (high % 0x100) + low);
  }

  // -- framing ------------------------------------------------------------------

  lemma JoinIsAssociative<T>(a: seq<T>, b: seq<T>, c: seq<T>)
    ensures a + b + c == a + (b + c)
  {
  }

  lemma FramedIsWhole(o: Bytes, h: Bytes, body: Bytes, rest: Bytes)
    requires |o| == |h| == 4 && SizeAt(o + h, 0) == 8 + |body|
    ensures WholeAt(o + h + body + rest, 0) && SizeAt(o + h + body + rest, 0) == 8 + |body|
    ensures EventAt(o + h + body + rest, 0) == Event(WordAt(o, 0), OpcodeAt(o + h, 0), body)
  {
    var b := o + h + body + rest;
    assert b[..8] == o + h;
    assert b[8..8 + |body|] == body;
  }

  lemma HeaderReadsBack(o: Bytes, size: nat, opcode: Word)
    requires |o| == 4
    ensures SizeAt(o + Le32(SizeAndOpcode(size, opcode)), 0) == Or16(size % 0x1_0000, opcode / 0x1_0000)
    ensures OpcodeAt(o + Le32(SizeAndOpcode(size, opcode)), 0) == opcode % 0x1_0000
  {
    var w := SizeAndOpcode(size, opcode);
    WordReadsBack(w);
    var b := o + Le32(w);
    assert b[4..] == Le32(w) && WordAt(b, 4) == w;
    HalvesOfTheWord(b, 0);
  }

  /** A message that fits is framed as itself, whatever follows. */
  lemma EncodedIsWhole(e: Event, rest: Bytes)
    requires Fits(e)
    ensures WholeAt(EncodeMsg(e) + rest, 0) && SizeAt(EncodeMsg(e) + rest, 0) == |EncodeMsg(e)| == 8 + |e.body|
    ensures EventAt(EncodeMsg(e) + rest, 0) == e
  {
    var o, size := Le32(e.obj), 8 + |e.body|;
    WordReadsBack(e.obj);
    HeaderReadsBack(o, size, e.opcode);
    FramedIsWhole(o, Le32(SizeAndOpcode(size, e.opcode)), e.body, rest);
  }

  lemma HeaderEncodesBack(b: Bytes)
    requires |b| >= 8
    ensures Le32(SizeAndOpcode(SizeAt(b, 0), OpcodeAt(b, 0))) == b[4..8]
  {
    JoinedSplits(b[4], b[5], b[6], b[7]);
    Recombined(OpcodeAt(b, 0), SizeAt(b, 0));
    assert b[4..8] == [b[4], b[5], b[6], b[7]];
  }

  lemma Recombined(low: Word, high: nat)
    requires low < 0x1_0000 && high < 0x1_0000
    ensures SizeAndOpcode(high, low) == 0x1_0000 * high + low
  {
  }

  /** What is framed encodes back to the bytes it came from. */
  lemma WholeEncodesBack(b: Bytes)
    requires WholeAt(b, 0)
    ensures Fits(EventAt(b, 0)) && EncodeMsg(EventAt(b, 0)) == b[..SizeAt(b, 0)]
  {
    var e, n := EventAt(b, 0), SizeAt(b, 0);
    JoinedSplits(b[0], b[1], b[2], b[3]);
    HeaderEncodesBack(b);
    assert b[..n] == b[0..4] + b[4..8] + b[8..n];
  }

  ghost predicate Splits(b: Bytes, es: seq<Event>, rest: Bytes) {
    && EncodeAll(es) + rest == b && !WholeAt(rest, 0)
    && forall e | e in es :: Fits(e)
  }

  /** Parsing loses nothing and invents nothing: its result is the one and only way to write the buffer as
      messages that fit followed by a tail that does not start with a whole message. */
  lemma {:induction false} ParsingIsTheOnlySplit(b: Bytes, es: seq<Event>, rest: Bytes)
    ensures Splits(b, es, rest) <==> Parse(b) == Parsed(es, rest)
    decreases |b|
  {
    assert [] + rest == rest;
    if WholeAt(b, 0) {
      var n := SizeAt(b, 0);
      WholeEncodesBack(b);
      assert b == b[..n] + b[n..];
      if es != [] {
        ParsingIsTheOnlySplit(b[n..], es[1..], rest);
        assert es == [es[0]] + es[1..];
        JoinIsAssociative(EncodeMsg(es[0]), EncodeAll(es[1..]), rest);
        if Splits(b, es, rest) {
          EncodedIsWhole(es[0], EncodeAll(es[1..]) + rest);
          assert b[n..] == EncodeAll(es[1..]) + rest;
        }
      }
    } else if es != [] && Splits(b, es, rest) {
      JoinIsAssociative(EncodeMsg(es[0]), EncodeAll(es[1..]), rest);
      EncodedIsWhole(es[0], EncodeAll(es[1..]) + rest);
      assert false;
    }
  }

  lemma {:induction false} EncodingJoins(a: seq<Event>, b: seq<Event>)
    ensures EncodeAll(a + b) == EncodeAll(a) + EncodeAll(b)
  {
    if a == [] {
      assert a + b == b;
      assert EncodeAll(a) == [];
    } else {
      calc {
        EncodeAll(a + b);
        { assert (a + b)[0] == a[0] && (a + b)[1..] == a[1..] + b; }
        EncodeMsg(a[0]) + EncodeAll(a[1..] + b);
        { EncodingJoins(a[1..], b); }
        EncodeMsg(a[0]) + (EncodeAll(a[1..]) + EncodeAll(b));
        { JoinIsAssociative(EncodeMsg(a[0]), EncodeAll(a[1..]), EncodeAll(b)); }
        EncodeAll(a) + EncodeAll(b);
      }
    }
  }

  method ParseEvents(buf: Bytes) returns (events: seq<Event>, rest: Bytes)
    ensures Parsed(events, rest) == Parse(buf)
  {
    events := [];
    var off: nat := 0;
    while |buf| >= off + 8
      invariant Framed(buf, off, events)
    {
      HalvesOfTheWord(buf, off);
      var obj, sizeop := WordAt(buf, off), WordAt(buf, off + 4);
      var size, opcode := sizeop / 0x1_0000, sizeop % 0x1_0000;
      if size < 8 || |buf| < off + size { break; }
      OneMoreEvent(buf, off, events);
      events := events + [Event(obj, opcode, buf[off + 8..off + size])];
      off := off + size;
    }
    rest := buf[off..];
    FramedToTheEnd(buf, off, events);
  }

  /** So far the buffer is exactly these messages. */
  ghost predicate Framed(b: Bytes, off: nat, events: seq<Event>) {
    off <= |b| && EncodeAll(events) == b[..off] && forall e | e in events :: Fits(e)
  }

  lemma EventShifts(b: Bytes, off: nat)
    requires WholeAt(b, off)
    ensures var here := b[off..];
      WholeAt(here, 0) && SizeAt(here, 0) == SizeAt(b, off) && EventAt(here, 0) == EventAt(b, off)
  {
    var here, n := b[off..], SizeAt(b, off);
    assert here[8..n] == b[off + 8..off + n];
  }

  lemma OneMoreEvent(b: Bytes, off: nat, events: seq<Event>)
    requires WholeAt(b, off) && Framed(b, off, events)
    ensures Framed(b, off + SizeAt(b, off), events + [EventAt(b, off)])
  {
    EventShifts(b, off);
    WholeEncodesBack(b[off..]);
    FramedJoins(b, off, events, EventAt(b, off), SizeAt(b, off));
  }

  lemma FramedJoins(b: Bytes, off: nat, events: seq<Event>, e: Event, n: nat)
    requires Framed(b, off, events) && off + n <= |b|
    requires Fits(e) && EncodeMsg(e) == b[off..][..n]
    ensures Framed(b, off + n, events + [e])
  {
    EncodingJoins(events, [e]);
    var m := EncodeMsg(e);
    assert EncodeAll([e]) == m + EncodeAll([]) == m;
    assert b[..off + n] == b[..off] + m;
  }

  lemma FramedToTheEnd(b: Bytes, off: nat, events: seq<Event>)
    requires Framed(b, off, events) && !WholeAt(b, off)
    ensures Parse(b) == Parsed(events, b[off..])
  {
    assert b == b[..off] + b[off..];
    assert !WholeAt(b[off..], 0);
    ParsingIsTheOnlySplit(b, events, b[off..]);
  }

  /** Cutting the stream in two and keeping the remainder gives the same messages and the same remainder. */
  lemma CutAnywhere(x: Bytes, y: Bytes)
    ensures Parse(x + y).events == Parse(x).events + Parse(Parse(x).rest + y).events
    ensures Parse(x + y).rest == Parse(Parse(x).rest + y).rest
  {
    var first := Parse(x);
    var second := Parse(first.rest + y);
    ParsingIsTheOnlySplit(x, first.events, first.rest);
    ParsingIsTheOnlySplit(first.rest + y, second.events, second.rest);
    EncodingJoins(first.events, second.events);
    JoinIsAssociative(EncodeAll(first.events), first.rest, y);
    JoinIsAssociative(EncodeAll(first.events), EncodeAll(second.events), second.rest);
    ParsingIsTheOnlySplit(x + y, first.events + second.events, second.rest);
  }

  /** A single message comes back as itself exactly when its size and opcode fit their halves of the word. */
  lemma MessageReadsBackExactlyWhenItFits(e: Event)
    ensures Parse(EncodeMsg(e)) == Parsed([e], []) <==> Fits(e)
  {
    ParsingIsTheOnlySplit(EncodeMsg(e), [e], []);
    assert EncodeAll([e]) + [] == EncodeMsg(e);
  }

  // -- strings and registry announcements ---------------------------------------------

  /** The bytes that bring a length up to a multiple of four. */
  function PadOf(len: nat): nat { (4 - len % 4) % 4 }

  /** Length with the closing zero, in 32 bits; text; closing zero; padding. */
  function WlString(text: Bytes): Bytes {
    var len := |text| + 1;
    Le32(len % 0x1_0000_0000) + text + [0] + seq(PadOf(len), _ => 0)
  }

  /** A string always fills whole words. */
  lemma StringsAreAligned(text: Bytes)
    ensures |WlString(text)| % 4 == 0
  {
    var len := |text| + 1;
    JoinedLength(Le32(len % 0x1_0000_0000), text, seq(PadOf(len), _ => 0));
    PadFills(len);
  }

  lemma JoinedLength(h: Bytes, text: Bytes, zeros: Bytes)
    ensures |h + text + [0] + zeros| == |h| + |text| + 1 + |zeros|
  {
  }

  lemma PadFills(len: nat)
    ensures (4 + len + PadOf(len)) % 4 == 0 && (len + PadOf(len)) % 4 == 0 && PadOf(len) < 4
  {
  }

  /** `Panics` is an index out of range. */
  datatype Announcement = NotOne | Panics | Global(name: Word, interface: Bytes, version: Word)

  function ParseGlobal(body: Bytes): Announcement {
    if |body| < 12 then NotOne else
      var slen := WordAt(body, 4);
      if |body| < 8 + slen + 4 then NotOne
      else if slen == 0 || |body| < 8 + slen + PadOf(slen) + 4 then Panics
      else Global(WordAt(body, 0), body[8..8 + slen - 1], WordAt(body, 8 + slen + PadOf(slen)))
  }

  function Announce(name: Word, interface: Bytes, version: Word): Bytes {
    Le32(name) + WlString(interface) + Le32(version)
  }

  lemma Layout(o: Bytes, h: Bytes, text: Bytes, zeros: Bytes, v: Bytes)
    requires |o| == |h| == |v| == 4
    ensures var b := o + (h + text + zeros) + v;
      && WordAt(b, 0) == WordAt(o, 0) && WordAt(b, 4) == WordAt(h, 0) && b[8..8 + |text|] == text
      && WordAt(b, 8 + |text| + |zeros|) == WordAt(v, 0)
  {
    var b := o + (h + text + zeros) + v;
    assert b[..4] == o && b[4..8] == h && b[8 + |text| + |zeros|..] == v;
  }

  /** How the bytes of an announcement are laid out. */
  predicate LaidOut(b: Bytes, name: Word, interface: Bytes, version: Word) {
    var len := |interface| + 1;
    && |b| == 8 + len + PadOf(len) + 4
    && WordAt(b, 0) == name && WordAt(b, 4) == len % 0x1_0000_0000 && WordAt(b, 8 + len + PadOf(len)) == version
    && b[8..8 + len - 1] == interface
  }

  lemma AnnouncementLayout(name: Word, interface: Bytes, version: Word)
    ensures LaidOut(Announce(name, interface, version), name, interface, version)
  {
    var len := |interface| + 1;
    WordReadsBack(name);
    WordReadsBack(len % 0x1_0000_0000);
    WordReadsBack(version);
    var zeros: Bytes := [0] + seq(PadOf(len), _ => 0);
    Layout(Le32(name), Le32(len % 0x1_0000_0000), interface, zeros, Le32(version));
    assert Le32(len % 0x1_0000_0000) + interface + zeros == WlString(interface);
  }

  /** What an announcement that was read was made of. */
  lemma PartsOf(b: Bytes)
    requires ParseGlobal(b).Global?
    ensures var n := WordAt(b, 4);
      n > 0 && 12 + n + PadOf(n) <= |b|
      && ParseGlobal(b) == Global(WordAt(b, 0), b[8..8 + n - 1], WordAt(b, 8 + n + PadOf(n)))
  {
  }

  lemma PartsAreParsed(b: Bytes, name: Word, interface: Bytes, version: Word, n: Word, pad: nat)
    requires n > 0 && pad == PadOf(n) && |b| >= 12 + n + pad
    requires WordAt(b, 0) == name && WordAt(b, 4) == n && WordAt(b, 8 + n + pad) == version
    requires b[8..8 + n - 1] == interface
    ensures ParseGlobal(b) == Global(name, interface, version)
  {
  }

  lemma ReadNamesFit(b: Bytes)
    requires ParseGlobal(b).Global?
    ensures |ParseGlobal(b).interface| + 1 < 0x1_0000_0000
  {
    PartsOf(b);
  }

  lemma ShortNamesAreRead(b: Bytes, name: Word, interface: Bytes, version: Word)
    requires LaidOut(b, name, interface, version) && |interface| + 1 < 0x1_0000_0000
    ensures ParseGlobal(b) == Global(name, interface, version)
  {
    var n := |interface| + 1;
    assert n % 0x1_0000_0000 == n;
    PartsAreParsed(b, name, interface, version, n, PadOf(n));
  }

  lemma LaidOutReadsBackExactlyWhen(b: Bytes, name: Word, interface: Bytes, version: Word)
    requires LaidOut(b, name, interface, version)
    ensures ParseGlobal(b) == Global(name, interface, version) <==> |interface| + 1 < 0x1_0000_0000
  {
    if |interface| + 1 < 0x1_0000_0000 {
      ShortNamesAreRead(b, name, interface, version);
    } else if ParseGlobal(b).Global? {
      ReadNamesFit(b);
    }
  }

  /** An announced global is read back exactly when the length of its name fits 32 bits. */
  lemma AnnouncementReadsBackExactlyWhen(name: Word, interface: Bytes, version: Word)
    ensures ParseGlobal(Announce(name, interface, version)) == Global(name, interface, version)
      <==> |interface| + 1 < 0x1_0000_0000
  {
    AnnouncementLayout(name, interface, version);
    LaidOutReadsBackExactlyWhen(Announce(name, interface, version), name, interface, version);
  }

  /** The bytes of an announcement: the length of the name counts one closing byte, and anything may follow the
      version. */
  function AnnouncementBytes(name: Word, len: Word, interface: Bytes, close: Byte, padding: Bytes, version: Word,
      rest: Bytes): Bytes
  {
    Le32(name) + Le32(len) + interface + [close] + padding + Le32(version) + rest
  }

  /** The padding brings the length up to a multiple of four. */
  predicate Pads(padding: Bytes, len: nat) { |padding| < 4 && (len + |padding|) % 4 == 0 }

  predicate IsAnnouncement(b: Bytes, name: Word, interface: Bytes, version: Word, close: Byte, padding: Bytes,
      rest: Bytes)
  {
    && |interface| + 1 < 0x1_0000_0000 && Pads(padding, |interface| + 1)
    && b == AnnouncementBytes(name, |interface| + 1, interface, close, padding, version, rest)
  }

  ghost predicate Announces(b: Bytes, name: Word, interface: Bytes, version: Word) {
    exists close, padding, rest :: IsAnnouncement(b, name, interface, version, close, padding, rest)
  }

  lemma SixParts(a: Bytes, h: Bytes, text: Bytes, close: Bytes, padding: Bytes, v: Bytes, rest: Bytes)
    requires |a| == |h| == |v| == 4 && |close| == 1
    ensures var b, n := a + h + text + close + padding + v + rest, |text| + 1;
      && |b| == 12 + n + |padding| + |rest|
      && b[0..4] == a && b[4..8] == h && b[8..8 + n - 1] == text
      && b[8 + n + |padding|..12 + n + |padding|] == v
  {
  }

  lemma WordIn(b: Bytes, i: nat, w: Word)
    requires i + 4 <= |b|
    ensures WordAt(b, i) == w <==> b[i..i + 4] == Le32(w)
  {
    WordReadsBack(w);
    JoinedSplits(b[i], b[i + 1], b[i + 2], b[i + 3]);
    assert b[i..i + 4] == [b[i], b[i + 1], b[i + 2], b[i + 3]];
    if b[i..i + 4] == Le32(w) { assert WordAt(b[i..i + 4], 0) == WordAt(b, i); }
  }

  lemma AnnouncedIsParsed(b: Bytes, name: Word, interface: Bytes, version: Word, close: Byte, padding: Bytes,
      rest: Bytes)
    requires IsAnnouncement(b, name, interface, version, close, padding, rest)
    ensures ParseGlobal(b) == Global(name, interface, version)
  {
    var n, pad := |interface| + 1, |padding|;
    SixParts(Le32(name), Le32(n), interface, [close], padding, Le32(version), rest);
    WordIn(b, 0, name);
    WordIn(b, 4, n);
    WordIn(b, 8 + n + pad, version);
    PaddingIs(n, pad);
    PartsAreParsed(b, name, interface, version, n, pad);
  }

  lemma PaddingIs(n: nat, pad: nat)
    requires pad < 4 && (n + pad) % 4 == 0
    ensures PadOf(n) == pad
  {
  }

  lemma ParsedIsAnnounced(b: Bytes)
    requires ParseGlobal(b).Global?
    ensures var g := ParseGlobal(b); Announces(b, g.name, g.interface, g.version)
  {
    PartsOf(b);
    var g, n := ParseGlobal(b), WordAt(b, 4);
    WordIn(b, 0, g.name);
    WordIn(b, 4, n);
    WordIn(b, 8 + n + PadOf(n), g.version);
    PadFills(n);
    PartsAnnounce(b, g.name, g.interface, g.version, n, PadOf(n));
  }

  lemma PartsAnnounce(b: Bytes, name: Word, interface: Bytes, version: Word, n: Word, pad: nat)
    requires n > 0 && pad < 4 && (n + pad) % 4 == 0 && |b| >= 12 + n + pad
    requires b[0..4] == Le32(name) && b[4..8] == Le32(n) && b[8 + n + pad..12 + n + pad] == Le32(version)
    requires b[8..8 + n - 1] == interface
    ensures Announces(b, name, interface, version)
  {
    CutApart(b, n, pad);
    assert IsAnnouncement(b, name, interface, version, b[8 + n - 1], b[8 + n..8 + n + pad], b[12 + n + pad..]);
  }

  lemma CutApart(b: Bytes, n: nat, pad: nat)
    requires n > 0 && 12 + n + pad <= |b|
    ensures b == b[0..4] + b[4..8] + b[8..8 + n - 1] + [b[8 + n - 1]] + b[8 + n..8 + n + pad]
                 + b[8 + n + pad..12 + n + pad] + b[12 + n + pad..]
  {
    assert b[8..8 + n] == b[8..8 + n - 1] + [b[8 + n - 1]];
  }

  /** A body is read as an announcement exactly when it is one. */
  lemma AnnouncementsAreReadExactlyWhen(b: Bytes, name: Word, interface: Bytes, version: Word)
    ensures ParseGlobal(b) == Global(name, interface, version) <==> Announces(b, name, interface, version)
  {
    if Announces(b, name, interface, version) {
      var close, padding, rest :| IsAnnouncement(b, name, interface, version, close, padding, rest);
      AnnouncedIsParsed(b, name, interface, version, close, padding, rest);
    }
    if ParseGlobal(b).Global? { ParsedIsAnnounced(b); }
  }

  /** Reading panics exactly when the name has room for no closing byte, or there is room for it but not for its
      padding. */
  lemma AnnouncementsPanicExactlyWhen(b: Bytes)
    ensures ParseGlobal(b) == Panics <==> exists n: Word ::
      && 12 + n <= |b| && b[4..8] == Le32(n)
      && (n == 0 || |b| < 12 + n + (if n % 4 == 0 then 0 else 4 - n % 4))
  {
    if |b| >= 12 {
      var n := WordAt(b, 4);
      WordIn(b, 4, n);
      forall m: Word | b[4..8] == Le32(m) ensures m == n { WordIn(b, 4, m); }
      if 12 + n <= |b| { assert b[4..8] == Le32(n); }
    }
  }

  // -- the round trip ---------------------------------------------------------------

  const DISPLAY_ID: Word := 1
  const REQ_SYNC: Word := 0

  /** What a caller of the round trip has learned from the events handled so far. */
  datatype Outcome =
    | Waiting(globals: seq<Announcement>)
    | Done(globals: seq<Announcement>)
    | ServerError(body: Bytes)
    | Panicked

  datatype Watch = Watch(registry: Word, callback: Word, collect: bool)

  function Handle(w: Watch, o: Outcome, e: Event): Outcome {
    if !o.Waiting? then o
    else if e.obj == DISPLAY_ID && e.opcode == 1 then ServerError(e.body)
    else
      var g := if e.obj == w.registry && e.opcode == 0 && w.collect then ParseGlobal(e.body) else NotOne;
      if g == Panics then Panicked else
        var globals := if g == NotOne then o.globals else o.globals + [g];
        if e.obj == w.callback && e.opcode == 0 then Done(globals) else Waiting(globals)
  }

  function HandleAll(w: Watch, o: Outcome, es: seq<Event>): Outcome
    decreases |es|
  {
    if es == [] then o else HandleAll(w, Handle(w, o, es[0]), es[1..])
  }

  lemma {:induction false} HandlingJoins(w: Watch, o: Outcome, a: seq<Event>, b: seq<Event>)
    ensures HandleAll(w, o, a + b) == HandleAll(w, HandleAll(w, o, a), b)
    decreases |a|
  {
    if a == [] {
      assert a + b == b;
    } else {
      HandlingJoins(w, Handle(w, o, a[0]), a[1..], b);
      assert (a + b)[1..] == a[1..] + b;
    }
  }

  lemma {:induction false} SettledStays(w: Watch, o: Outcome, es: seq<Event>)
    requires !o.Waiting?
    ensures HandleAll(w, o, es) == o
  {
    if es != [] { SettledStays(w, o, es[1..]); }
  }

  // -- what is learned, in the events' own terms ------------------------------------------

  /** The event ends the round trip: a server error, the callback asked for, or an announcement out of range. */
  predicate Settles(w: Watch, e: Event) {
    || (e.obj == DISPLAY_ID && e.opcode == 1)
    || (e.obj == w.callback && e.opcode == 0)
    || (w.collect && e.obj == w.registry && e.opcode == 0 && ParseGlobal(e.body) == Panics)
  }

  /** The globals announced in these events, in order. */
  function AnnouncedIn(w: Watch, es: seq<Event>): seq<Announcement> {
    if es == [] then []
    else
      var e := es[|es| - 1];
      AnnouncedIn(w, es[..|es| - 1]) +
      if w.collect && e.obj == w.registry && e.opcode == 0 && ParseGlobal(e.body).Global? then [ParseGlobal(e.body)]
      else []
  }

  lemma OneHandled(w: Watch, o: Outcome, e: Event)
    ensures HandleAll(w, o, [e]) == Handle(w, o, e)
  {
    assert [e][1..] == [];
    assert HandleAll(w, o, [e]) == HandleAll(w, Handle(w, o, e), []);
  }

  /** Until an event settles the matter, every global announced is kept. */
  lemma {:induction false} NothingSettled(w: Watch, es: seq<Event>)
    requires forall i | 0 <= i < |es| :: !Settles(w, es[i])
    ensures HandleAll(w, Waiting([]), es) == Waiting(AnnouncedIn(w, es))
  {
    if es != [] {
      var front, e := es[..|es| - 1], es[|es| - 1];
      assert forall i | 0 <= i < |front| :: front[i] == es[i];
      NothingSettled(w, front);
      assert es == front + [e];
      HandlingJoins(w, Waiting([]), front, [e]);
      OneHandled(w, Waiting(AnnouncedIn(w, front)), e);
    }
  }

  /** The first event that settles the matter decides the outcome: a server error before all else, then an announcement
      out of range, then the callback, with every global announced up to it. */
  lemma TheFirstToSettleDecides(w: Watch, es: seq<Event>, k: nat)
    requires k < |es| && Settles(w, es[k]) && forall i | 0 <= i < k :: !Settles(w, es[i])
    ensures var e := es[k];
      HandleAll(w, Waiting([]), es) ==
        if e.obj == DISPLAY_ID && e.opcode == 1 then ServerError(e.body)
        else if w.collect && e.obj == w.registry && e.opcode == 0 && ParseGlobal(e.body) == Panics then Panicked
        else Done(AnnouncedIn(w, es[..k + 1]))
  {
    var before, e, after := es[..k], es[k], es[k + 1..];
    assert forall i | 0 <= i < |before| :: before[i] == es[i];
    NothingSettled(w, before);
    assert es == before + ([e] + after);
    HandlingJoins(w, Waiting([]), before, [e] + after);
    HandlingJoins(w, Waiting(AnnouncedIn(w, before)), [e], after);
    OneHandled(w, Waiting(AnnouncedIn(w, before)), e);
    assert es[..k + 1][..k] == before;
    SettledStays(w, Handle(w, Waiting(AnnouncedIn(w, before)), e), after);
  }

  datatype Read = Data(bytes: Bytes) | Quiet | Broken

  /** Everything received before the connection breaks. */
  function Received(inputs: seq<Read>): Bytes {
    if inputs == [] || inputs[0] == Broken then []
    else (if inputs[0] == Quiet then [] else inputs[0].bytes) + Received(inputs[1..])
  }

  datatype Result = Settled(outcome: Outcome) | ConnectionLost | SyncTimeout

  /** What a round trip must end in: a function of the bytes received, not of how they were cut. */
  function Expected(w: Watch, stream: Bytes, broken: bool): Result {
    var o := HandleAll(w, Waiting([]), Parse(stream).events);
    if !o.Waiting? then Settled(o) else if broken then ConnectionLost else SyncTimeout
  }

  /** What has settled before more bytes arrive is what those bytes would have led to anyway. */
  lemma SettledEarly(w: Watch, x: Bytes, y: Bytes, broken: bool)
    requires !HandleAll(w, Waiting([]), Parse(x).events).Waiting?
    ensures Expected(w, x + y, broken) == Settled(HandleAll(w, Waiting([]), Parse(x).events))
  {
    CutAnywhere(x, y);
    var first := HandleAll(w, Waiting([]), Parse(x).events);
    HandlingJoins(w, Waiting([]), Parse(x).events, Parse(Parse(x).rest + y).events);
    SettledStays(w, first, Parse(Parse(x).rest + y).events);
  }

  lemma OneMoreRead(w: Watch, x: Bytes, y: Bytes)
    ensures HandleAll(w, Waiting([]), Parse(x + y).events)
      == HandleAll(w, HandleAll(w, Waiting([]), Parse(x).events), Parse(Parse(x).rest + y).events)
    ensures Parse(x + y).rest == Parse(Parse(x).rest + y).rest
  {
    CutAnywhere(x, y);
    HandlingJoins(w, Waiting([]), Parse(x).events, Parse(Parse(x).rest + y).events);
  }

  class VirtualPointer {
    var buf: Bytes
    var nextId: nat
    var registry: Word
    var sent: Bytes

    constructor ()
      ensures Valid() && buf == [] && nextId == 2 && sent == []
    {
      buf, nextId, registry, sent := [], 2, 0, [];
    }

    /** Between round trips no whole message is left waiting in the buffer. */
    predicate Valid()
      reads this
    {
      !WholeAt(buf, 0)
    }

    method NewId() returns (id: nat)
      modifies `nextId
      ensures id == old(nextId) && nextId == id + 1
    {
      id := nextId;
      nextId := nextId + 1;
    }

    /** Handles a batch, up to the event that settles the matter. */
    method HandleBatch(w: Watch, o: Outcome, events: seq<Event>) returns (after: Outcome)
      requires o.Waiting?
      ensures after == HandleAll(w, o, events)
    {
      after := o;
      var i := 0;
      while i < |events|
        invariant i <= |events| && after.Waiting?
        invariant HandleAll(w, o, events) == HandleAll(w, after, events[i..])
      {
        after := Handle(w, after, events[i]);
        assert events[i..][0] == events[i] && events[i..][1..] == events[i + 1..];
        if !after.Waiting? {
          SettledStays(w, after, events[i + 1..]);
          return;
        }
        i := i + 1;
      }
    }

    /** Takes one chunk in; `got` is everything received before it. */
    method TakeIn(w: Watch, o: Outcome, bytes: Bytes, ghost got: Bytes) returns (after: Outcome)
      requires o.Waiting? && o == HandleAll(w, Waiting([]), Parse(got).events) && buf == Parse(got).rest
      modifies `buf
      ensures after == HandleAll(w, Waiting([]), Parse(got + bytes).events) && buf == Parse(got + bytes).rest
    {
      OneMoreRead(w, got, bytes);
      buf := buf + bytes;
      var events;
      events, buf := ParseEvents(buf);
      after := HandleBatch(w, o, events);
    }

    /** Asks for a callback and reads until it comes; running out of `inputs` is the deadline. */
    method RoundtripCollect(collect: bool, inputs: seq<Read>) returns (result: Result)
      requires Valid() && nextId < 0x1_0000_0000
      modifies this
      ensures Valid() && registry == old(registry) && nextId == old(nextId) + 1
      ensures sent == old(sent) + EncodeMsg(Event(DISPLAY_ID, REQ_SYNC, Le32(old(nextId))))
      ensures result == Expected(Watch(registry, old(nextId), collect), old(buf) + Received(inputs), Broken in inputs)
      ensures !result.Settled? ==> buf == Parse(old(buf) + Received(inputs)).rest
    {
      var cb := NewId();
      sent := sent + EncodeMsg(Event(DISPLAY_ID, REQ_SYNC, Le32(cb)));
      result := Await(Watch(registry, cb, collect), inputs);
    }

    method Await(w: Watch, inputs: seq<Read>) returns (result: Result)
      requires Valid()
      modifies `buf
      ensures Valid()
      ensures result == Expected(w, old(buf) + Received(inputs), Broken in inputs)
      ensures !result.Settled? ==> buf == Parse(old(buf) + Received(inputs)).rest
    {
      var o := Waiting([]);
      ghost var got := old(buf);
      var i := 0;
      while i < |inputs|
        modifies `buf
        invariant i <= |inputs| && Broken !in inputs[..i] && o.Waiting?
        invariant old(buf) + Received(inputs) == got + Received(inputs[i..])
        invariant Parse(got).rest == buf && o == HandleAll(w, Waiting([]), Parse(got).events)
      {
        OneReadMore(inputs, i, got);
        if inputs[i] == Broken {
          RestIsNotWhole(got);
          return ConnectionLost;
        }
        if inputs[i] != Quiet {
          o := TakeIn(w, o, inputs[i].bytes, got);
          got := got + inputs[i].bytes;
          if !o.Waiting? {
            SettledEarly(w, got, Received(inputs[i + 1..]), Broken in inputs);
            RestIsNotWhole(got);
            return Settled(o);
          }
        }
        i := i + 1;
      }
      assert inputs[..|inputs|] == inputs;
      assert got + [] == got;
      RestIsNotWhole(got);
      result := SyncTimeout;
    }
  }

  lemma RestIsNotWhole(b: Bytes)
    ensures !WholeAt(Parse(b).rest, 0)
  {
    ParsingIsTheOnlySplit(b, Parse(b).events, Parse(b).rest);
  }

  lemma OneReadMore(inputs: seq<Read>, i: nat, got: Bytes)
    requires i < |inputs|
    ensures got + Received(inputs[i..]) == match inputs[i]
      case Broken => got
      case Quiet => got + Received(inputs[i + 1..])
      case Data(bytes) => got + bytes + Received(inputs[i + 1..])
  {
    assert inputs[i..][0] == inputs[i] && inputs[i..][1..] == inputs[i + 1..];
  }
}
