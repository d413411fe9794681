/** Finding the size of an image: in the header of a PNG, or by scanning the markers of a JPEG. */
module ImageSizes {
  import opened Wrappers

  type Byte = b: int | 0 <= b < 0x100

  type Bytes = seq<Byte>

  const START_OF_FRAME: set<int> := {0xC0, 0xC1, 0xC2, 0xC3, 0xC5, 0xC6, 0xC7, 0xC9, 0xCA, 0xCB, 0xCD, 0xCE, 0xCF}

  /** Markers without a length: start and end of image, restarts. */
  predicate StandsAlone(m: Byte) { 0xD0 <= m <= 0xD9 }

  function Be16(b: Bytes, i: nat): nat
    requires i + 2 <= |b|
  {
    0x100 * (b[i] as int) + b[i + 1] as int
  }

  predicate FrameStartsAt(b: Bytes, i: nat) {
    i + 9 < |b| && b[i] == 0xFF && b[i + 1] in START_OF_FRAME
  }

  datatype Size = Size(width: nat, height: nat)

  function SizeAt(b: Bytes, i: nat): Size
    requires i + 9 < |b|
  {
    Size(Be16(b, i + 7), Be16(b, i + 5))
  }

  predicate IsJpeg(b: Bytes) { |b| >= 2 && b[0] == 0xFF && b[1] == 0xD8 }

  /** Where the scan stands after the marker, or stray byte, at `i`. */
  function Next(b: Bytes, i: nat): (j: nat)
    requires i + 9 < |b|
    ensures j > i
  {
    if b[i] != 0xFF then i + 1
    else if StandsAlone(b[i + 1]) then i + 2
    else i + 2 + Be16(b, i + 2)
  }

  /** The frame header the scan stops at, if it finds one from `i` on. */
  function FirstFrame(b: Bytes, i: nat): (r: Option<nat>)
    ensures r.Some? ==> r.value >= i && FrameStartsAt(b, r.value)
    decreases |b| - i
  {
    if i + 9 >= |b| then None
    else if FrameStartsAt(b, i) then Some(i)
    else FirstFrame(b, Next(b, i))
  }

  const PNG_SIGNATURE: Bytes := [0x89, 0x50, 0x4E, 0x47, 0x0D, 0x0A, 0x1A, 0x0A]

  predicate IsPng(b: Bytes) { PNG_SIGNATURE <= b }

  function Be32(b: Bytes, i: nat): nat
    requires i + 4 <= |b|
  {
    0x1_0000 * Be16(b, i) + Be16(b, i + 2)
  }

  /** The size the data tells, when it tells one. */
  function Told(b: Bytes): Option<Size> {
    if IsPng(b) then
      if |b| >= 24 then Some(Size(Be32(b, 16), Be32(b, 20))) else None
    else if IsJpeg(b) && FirstFrame(b, 2).Some? then Some(SizeAt(b, FirstFrame(b, 2).value))
    else None
  }

  /** In bounds on every input. */
  method DetectDimensions(bytes: Bytes) returns (size: Option<Size>)
    ensures size == Told(bytes)
    ensures size.Some? && !IsPng(bytes) ==> exists i :: FrameStartsAt(bytes, i) && size.value == SizeAt(bytes, i)
  {
    if PNG_SIGNATURE <= bytes && |bytes| >= 24 {
      return Some(Size(Be32(bytes, 16), Be32(bytes, 20)));
    }
    if |bytes| >= 2 && bytes[0] == 0xFF && bytes[1] == 0xD8 {
      var i := 2;
      while i + 9 < |bytes|
        invariant FirstFrame(bytes, 2) == FirstFrame(bytes, i)
        decreases |bytes| - i
      {
        if bytes[i] != 0xFF { i := i + 1; continue; }
        var m := bytes[i + 1];
        if m == 0xD8 || m == 0xD9 || 0xD0 <= m <= 0xD7 { i := i + 2; continue; }
        if i + 3 >= |bytes| { break; }
        var seg := Be16(bytes, i + 2);
        if m in START_OF_FRAME {
          assert FrameStartsAt(bytes, i);
          return Some(Size(Be16(bytes, i + 7), Be16(bytes, i + 5)));
        }
        i := i + 2 + seg;
      }
    }
    return None;
  }

  /** None is an index out of range: a PNG signature with less than a header behind it, and nothing else.
      Otherwise the answer is the size that is told, or 0 x 0. */
  method ImageSize(data: Bytes) returns (size: Option<Size>)
    ensures size == None <==> IsPng(data) && |data| < 24
    ensures size.Some? ==> size.value == Told(data).GetOr(Size(0, 0))
  {
    if PNG_SIGNATURE <= data {
      return if |data| < 24 then None else Some(Size(Be32(data, 16), Be32(data, 20)));
    }
    if |data| >= 2 && data[0] == 0xFF && data[1] == 0xD8 {
      var i := 2;
      while i + 9 < |data|
        invariant FirstFrame(data, 2) == FirstFrame(data, i)
        decreases |data| - i
      {
        if data[i] != 0xFF { i := i + 1; continue; }
        var m := data[i + 1];
        if m == 0xD8 || m == 0xD9 || 0xD0 <= m <= 0xD7 { i := i + 2; continue; }
        var seg := Be16(data, i + 2);
        if m in START_OF_FRAME {
          var h, w := Be16(data, i + 5), Be16(data, i + 7);
          assert FrameStartsAt(data, i);
          return Some(Size(w, h));
        }
        i := i + 2 + seg;
      }
    }
    return Some(Size(0, 0));
  }

  /** The markers that start a frame are 0xC0 to 0xCF but for three; those without a length are 0xD0 to 0xD9. */
  lemma MarkersInPlainTerms(m: Byte)
    ensures m in START_OF_FRAME <==> 0xC0 <= m <= 0xCF && m != 0xC4 && m != 0xC8 && m != 0xCC
    ensures StandsAlone(m) <==> 0xD0 <= m < 0xDA
  {
  }

  // -- what may stand before the frame header ------------------------------------------

  /** A marker segment carries its length, which counts its own two bytes. Between segments the scan also
      tolerates bytes that start no marker and markers without a length. */
  datatype Piece = Segment(marker: Byte, payload: Bytes) | Alone(marker: Byte) | Stray(byte: Byte)

  predicate WellFormed(p: Piece) {
    match p
    case Segment(m, payload) => m !in START_OF_FRAME && !StandsAlone(m) && |payload| + 2 < 0x1_0000
    case Alone(m) => StandsAlone(m)
    case Stray(b) => b != 0xFF
  }

  function Half(n: nat): Bytes
    requires n < 0x1_0000
  {
    [n / 0x100, n % 0x100]
  }

  function BytesOf(p: Piece): Bytes
    requires WellFormed(p)
  {
    match p
    case Segment(m, payload) => [0xFF, m] + Half(|payload| + 2) + payload
    case Alone(m) => [0xFF, m]
    case Stray(b) => [b]
  }

  function BytesOfAll(ps: seq<Piece>): Bytes
    requires forall p | p in ps :: WellFormed(p)
  {
    if ps == [] then [] else BytesOf(ps[0]) + BytesOfAll(ps[1..])
  }

  /** The frame header: length, precision, height, width and the component count; `components` is the rest. */
  datatype FrameHeader = FrameHeader(
    marker: Byte, length: nat, precision: Byte, height: nat, width: nat, count: Byte, components: Bytes)

  predicate IsFrameHeader(f: FrameHeader) {
    f.marker in START_OF_FRAME && f.length < 0x1_0000 && f.height < 0x1_0000 && f.width < 0x1_0000
  }

  function BytesOfFrame(f: FrameHeader): Bytes
    requires IsFrameHeader(f)
  {
    [0xFF, f.marker] + Half(f.length) + [f.precision] + Half(f.height) + Half(f.width) + [f.count] + f.components
  }

  lemma HalfReadsBack(n: nat)
    requires n < 0x1_0000
    ensures Be16(Half(n), 0) == n
  {
  }

  lemma OnePieceIsSkipped(before: Bytes, p: Piece, after: Bytes)
    requires WellFormed(p) && |after| >= 10
    ensures var b, i := before + BytesOf(p) + after, |before|;
      i + 9 < |b| && !FrameStartsAt(b, i) && Next(b, i) == |before + BytesOf(p)|
  {
    var b, i := before + BytesOf(p) + after, |before|;
    assert b[i] == BytesOf(p)[0];
    if !p.Stray? { assert b[i + 1] == BytesOf(p)[1]; }
    if p.Segment? {
      assert b[i + 2] == BytesOf(p)[2] && b[i + 3] == BytesOf(p)[3];
      HalfReadsBack(|p.payload| + 2);
    }
  }

  lemma FrameIsRecognised(before: Bytes, f: FrameHeader, after: Bytes)
    requires IsFrameHeader(f)
    ensures var b, i := before + BytesOfFrame(f) + after, |before|;
      FrameStartsAt(b, i) && SizeAt(b, i) == Size(f.width, f.height)
  {
    var b, i, s := before + BytesOfFrame(f) + after, |before|, BytesOfFrame(f);
    assert forall k | 0 <= k < 10 :: b[i + k] == s[k];
    assert b[i] == s[0] && b[i + 1] == s[1] && b[i + 5] == s[5] && b[i + 6] == s[6] && b[i + 7] == s[7]
        && b[i + 8] == s[8];
    HalfReadsBack(f.height);
    HalfReadsBack(f.width);
  }

  lemma JoinIsAssociative(a: Bytes, b: Bytes, c: Bytes)
    ensures a + b + c == a + (b + c)
  {
  }

  lemma {:induction false} PiecesAreSkipped(before: Bytes, ps: seq<Piece>, tail: Bytes)
    requires |tail| >= 10 && forall p | p in ps :: WellFormed(p)
    ensures var b := before + BytesOfAll(ps) + tail; FirstFrame(b, |before|) == FirstFrame(b, |before + BytesOfAll(ps)|)
    decreases |ps|
  {
    if ps != [] {
      var head, rest := BytesOf(ps[0]), BytesOfAll(ps[1..]);
      OnePieceIsSkipped(before, ps[0], rest + tail);
      PiecesAreSkipped(before + head, ps[1..], tail);
      JoinIsAssociative(before, head, rest);
      JoinIsAssociative(before + head, rest, tail);
    }
  }

  /** Start of image, any pieces that are not a frame header, then a frame header: the size found is the one in
      that header. */
  lemma SizeOfTheFirstFrame(ps: seq<Piece>, f: FrameHeader, after: Bytes)
    requires IsFrameHeader(f) && forall p | p in ps :: WellFormed(p)
    ensures var data := [0xFF, 0xD8] + BytesOfAll(ps) + BytesOfFrame(f) + after;
      Told(data) == Some(Size(f.width, f.height))
  {
    var data := [0xFF, 0xD8] + BytesOfAll(ps) + BytesOfFrame(f) + after;
    assert data[0] == 0xFF && data[1] == 0xD8 && PNG_SIGNATURE[0] == 0x89;
    PiecesAreSkipped([0xFF, 0xD8], ps, BytesOfFrame(f) + after);
    JoinIsAssociative([0xFF, 0xD8] + BytesOfAll(ps), BytesOfFrame(f), after);
    FrameIsRecognised([0xFF, 0xD8] + BytesOfAll(ps), f, after);
  }

  // -- the header of a PNG --------------------------------------------------------------

  function Word(n: nat): Bytes
    requires n < 0x1_0000_0000
  {
    Half(n / 0x1_0000) + Half(n % 0x1_0000)
  }

  lemma WordReadsBack(before: Bytes, n: nat, after: Bytes)
    requires n < 0x1_0000_0000
    ensures Be32(before + Word(n) + after, |before|) == n
  {
    var b, i := before + Word(n) + after, |before|;
    assert b[i..i + 4] == Word(n);
    assert b[i] == Word(n)[0] && b[i + 1] == Word(n)[1] && b[i + 2] == Word(n)[2] && b[i + 3] == Word(n)[3];
    HalfReadsBack(n / 0x1_0000);
    HalfReadsBack(n % 0x1_0000);
  }

  /** The signature, the length and type of the header chunk, the width, the height: that size is told. */
  lemma SizeOfThePngHeader(chunk: Bytes, width: nat, height: nat, after: Bytes)
    requires |chunk| == 8 && width < 0x1_0000_0000 && height < 0x1_0000_0000
    ensures Told(PNG_SIGNATURE + chunk + Word(width) + Word(height) + after) == Some(Size(width, height))
  {
    var start := PNG_SIGNATURE + chunk;
    var data := start + Word(width) + Word(height) + after;
    WordReadsBack(start, width, Word(height) + after);
    JoinIsAssociative(start + Word(width), Word(height), after);
    WordReadsBack(start + Word(width), height, after);
    assert data[..8] == PNG_SIGNATURE;
  }
}
