/** The string operations the browser runtime relies on. */
module Text {
  import opened Wrappers

  // -- matching -------------------------------------------------------------

  function LowerChar(c: char): char {
    if 'A' <= c <= 'Z' then c + 32 as char else c
  }

  function Lower(s: string): string {
    seq(|s|, i requires 0 <= i < |s| => LowerChar(s[i]))
  }

  predicate OccursAt(hay: string, needle: string, i: int) {
    0 <= i <= |hay| - |needle| && hay[i..i + |needle|] == needle
  }

  predicate Contains(hay: string, needle: string) {
    exists i | 0 <= i <= |hay| :: OccursAt(hay, needle, i)
  }

  /** The characters with the White_Space property. */
  predicate IsWhitespace(c: char) {
    var n := c as int;
    9 <= n <= 13 || n in {0x20, 0x85, 0xA0, 0x1680, 0x2028, 0x2029, 0x202F, 0x205F, 0x3000} || 0x2000 <= n <= 0x200A
  }

  predicate HasWhitespace(s: string) {
    exists i :: 0 <= i < |s| && IsWhitespace(s[i])
  }

  /** True when trimming leaves nothing. */
  predicate IsBlank(s: string) {
    forall i | 0 <= i < |s| :: IsWhitespace(s[i])
  }

  function TakeWord(s: string): (w: string)
    ensures |w| <= |s|
  {
    if s == "" || IsWhitespace(s[0]) then "" else [s[0]] + TakeWord(s[1..])
  }

  /** The first whitespace-separated word, if there is one. */
  function FirstWord(s: string): Option<string> {
    if s == "" then None
    else if IsWhitespace(s[0]) then FirstWord(s[1..])
    else Some(TakeWord(s))
  }

  /** All whitespace-separated words, in order. */
  function Words(s: string): seq<string> {
    if s == "" then []
    else if IsWhitespace(s[0]) then Words(s[1..])
    else var w := TakeWord(s); [w] + Words(s[|w|..])
  }

  lemma {:induction false} TakeWordStops(word: string, rest: string)
    requires !HasWhitespace(word) && (rest == "" || IsWhitespace(rest[0]))
    ensures TakeWord(word + rest) == word
  {
    if word == "" {
      assert word + rest == rest;
    } else {
      assert !IsWhitespace(word[0]);
      assert (word + rest)[1..] == word[1..] + rest;
      forall i | 0 <= i < |word[1..]| ensures !IsWhitespace(word[1..][i]) { assert word[1..][i] == word[i + 1]; }
      TakeWordStops(word[1..], rest);
    }
  }

  /** Reading back a word that has no whitespace, whatever note follows it after a space. */
  lemma FirstWordReadsBack(word: string, rest: string)
    requires word != "" && !HasWhitespace(word) && (rest == "" || IsWhitespace(rest[0]))
    ensures FirstWord(word + rest) == Some(word)
  {
    assert !IsWhitespace(word[0]);
    TakeWordStops(word, rest);
  }

  lemma {:induction false} FirstWordHasNoWhitespace(s: string)
    ensures FirstWord(s).Some? ==> FirstWord(s).value != "" && !HasWhitespace(FirstWord(s).value)
  {
    if s != "" {
      if IsWhitespace(s[0]) { FirstWordHasNoWhitespace(s[1..]); } else { TakeWordHasNoWhitespace(s); }
    }
  }

  lemma {:induction false} TakeWordHasNoWhitespace(s: string)
    ensures !HasWhitespace(TakeWord(s))
  {
    if s != "" && !IsWhitespace(s[0]) { TakeWordHasNoWhitespace(s[1..]); }
  }

  // -- cutting a text after so many bytes ---------------------------------------

  /** How many bytes a character takes in UTF-8. */
  function Utf8Len(c: char): (n: nat)
    ensures 1 <= n <= 4
  {
    var u := c as int;
    if u < 0x80 then 1 else if u < 0x800 then 2 else if u < 0x1_0000 then 3 else 4
  }

  function ByteLen(s: string): nat { if s == "" then 0 else Utf8Len(s[0]) + ByteLen(s[1..]) }

  /** The first `n` bytes of a text; None when they end inside a character or there are not as many. */
  function TakeBytes(s: string, n: nat): Option<string> {
    if n == 0 then Some("")
    else if s == "" || n < Utf8Len(s[0]) then None
    else match TakeBytes(s[1..], n - Utf8Len(s[0])) case Some(t) => Some([s[0]] + t) case None => None
  }

  /** A long text is cut after `n` bytes and marked as cut. None is a panic: the cut is inside a character. */
  function Truncate(s: string, n: nat): Option<string> {
    if ByteLen(s) <= n then Some(s)
    else match TakeBytes(s, n) case Some(t) => Some(t + "\U{2026}") case None => None
  }

  /** The text has at most `n` bytes, or one of its characters starts right after the first `n`. */
  ghost predicate CutsCleanly(s: string, n: nat) {
    ByteLen(s) <= n || exists k | 0 <= k <= |s| :: ByteLen(s[..k]) == n
  }

  lemma {:induction false} TakeBytesFinds(s: string, n: nat, k: nat)
    requires k <= |s| && ByteLen(s[..k]) == n
    ensures TakeBytes(s, n) == Some(s[..k])
  {
    if k > 0 {
      assert s[..k][1..] == s[1..][..k - 1] && s[..k] == [s[0]] + s[1..][..k - 1];
      TakeBytesFinds(s[1..], n - Utf8Len(s[0]), k - 1);
    }
  }

  lemma {:induction false} TakeBytesIsAPrefix(s: string, n: nat)
    requires TakeBytes(s, n).Some?
    ensures var t := TakeBytes(s, n).value; t <= s && ByteLen(t) == n && s[..|t|] == t
  {
    if n > 0 {
      TakeBytesIsAPrefix(s[1..], n - Utf8Len(s[0]));
      var t := TakeBytes(s, n).value;
      assert t[1..] == TakeBytes(s[1..], n - Utf8Len(s[0])).value;
      assert s[..|t|] == [s[0]] + s[1..][..|t| - 1];
    }
  }

  /** Cutting succeeds exactly when the text cuts cleanly; it then keeps exactly the first `n` bytes. */
  lemma TruncateSucceedsExactlyWhen(s: string, n: nat)
    ensures Truncate(s, n).Some? <==> CutsCleanly(s, n)
    ensures Truncate(s, n).Some? && ByteLen(s) > n ==>
      exists k | 0 <= k <= |s| :: ByteLen(s[..k]) == n && Truncate(s, n).value == s[..k] + "\U{2026}"
  {
    if ByteLen(s) > n {
      if CutsCleanly(s, n) {
        var k :| 0 <= k <= |s| && ByteLen(s[..k]) == n;
        TakeBytesFinds(s, n, k);
      }
      if TakeBytes(s, n).Some? {
        TakeBytesIsAPrefix(s, n);
        var k := |TakeBytes(s, n).value|;
        assert ByteLen(s[..k]) == n && Truncate(s, n).value == s[..k] + "\U{2026}";
      }
    }
  }

  predicate IsAscii(s: string) { forall c | c in s :: c as int < 0x80 }

  lemma {:induction false} AsciiBytes(s: string)
    requires IsAscii(s)
    ensures ByteLen(s) == |s|
  {
    if s != "" {
      assert forall c | c in s[1..] :: c in s;
      assert IsAscii(s[1..]) && s[0] in s;
      AsciiBytes(s[1..]);
    }
  }

  /** An ASCII text can be cut anywhere. */
  lemma AsciiCutsCleanly(s: string, n: nat)
    requires IsAscii(s)
    ensures CutsCleanly(s, n)
  {
    AsciiBytes(s);
    if n < |s| {
      assert forall c | c in s[..n] :: c in s;
      AsciiBytes(s[..n]);
    }
  }

  function Repeated(c: char, k: nat): string { if k == 0 then "" else [c] + Repeated(c, k - 1) }

  lemma {:induction false} RepeatedBytes(c: char, k: nat)
    ensures |Repeated(c, k)| == k && ByteLen(Repeated(c, k)) == k * Utf8Len(c)
  {
    if k > 0 {
      RepeatedBytes(c, k - 1);
      assert Repeated(c, k)[1..] == Repeated(c, k - 1);
    }
  }

  lemma {:induction false} RepeatedPrefix(c: char, k: nat, j: nat)
    requires j <= k
    ensures |Repeated(c, k)| == k && Repeated(c, k)[..j] == Repeated(c, j)
  {
    RepeatedBytes(c, k);
    if j > 0 {
      RepeatedPrefix(c, k - 1, j - 1);
      assert Repeated(c, k)[..j] == [c] + Repeated(c, k - 1)[..j - 1];
    }
  }

  /** A text of three-byte characters cuts cleanly only after a multiple of three bytes. */
  lemma ThreeByteTextCutsExactlyWhen(c: char, k: nat, n: nat)
    requires Utf8Len(c) == 3
    ensures CutsCleanly(Repeated(c, k), n) <==> 3 * k <= n || n % 3 == 0
  {
    RepeatedBytes(c, k);
    forall j: nat | j <= k ensures ByteLen(Repeated(c, k)[..j]) == 3 * j {
      RepeatedPrefix(c, k, j);
      RepeatedBytes(c, j);
    }
    if n < 3 * k && n % 3 == 0 {
      assert ByteLen(Repeated(c, k)[..n / 3]) == n;
    }
  }

  lemma {:induction false} BytesJoin(a: string, b: string)
    ensures ByteLen(a + b) == ByteLen(a) + ByteLen(b)
    decreases |a|
  {
    if a == "" {
      assert a + b == b;
    } else {
      assert (a + b)[1..] == a[1..] + b;
      BytesJoin(a[1..], b);
    }
  }

  /** Behind `k` one-byte characters, the middle of a two-byte one is no place to cut. */
  lemma TwoByteTailCannotBeCut(c: char, k: nat, d: char)
    requires Utf8Len(c) == 1 && Utf8Len(d) == 2
    ensures ByteLen(Repeated(c, k) + [d]) == k + 2 && !CutsCleanly(Repeated(c, k) + [d], k + 1)
  {
    var head, text := Repeated(c, k), Repeated(c, k) + [d];
    RepeatedBytes(c, k);
    BytesJoin(head, [d]);
    assert [d][1..] == "" && ByteLen([d]) == 2;
    forall j | 0 <= j <= |text| ensures ByteLen(text[..j]) != k + 1 {
      if j <= k {
        assert text[..j] == head[..j];
        RepeatedPrefix(c, k, j);
        RepeatedBytes(c, j);
      } else {
        assert text[..j] == text;
      }
    }
  }

  /** The tokens with `mark` between them. */
  function Joined(tokens: seq<string>, mark: string): string {
    if tokens == [] then ""
    else if |tokens| == 1 then tokens[0]
    else tokens[0] + mark + Joined(tokens[1..], mark)
  }

  lemma {:induction false} BlankHasNoWords(blank: string, rest: string)
    requires IsBlank(blank)
    ensures Words(blank + rest) == Words(rest)
  {
    if blank == "" {
      assert blank + rest == rest;
    } else {
      assert IsWhitespace(blank[0]) && (blank + rest)[1..] == blank[1..] + rest;
      forall i | 0 <= i < |blank[1..]| ensures IsWhitespace(blank[1..][i]) { assert blank[1..][i] == blank[i + 1]; }
      BlankHasNoWords(blank[1..], rest);
    }
  }

  lemma OneWordMore(word: string, rest: string)
    requires word != "" && !HasWhitespace(word) && (rest == "" || IsWhitespace(rest[0]))
    ensures Words(word + rest) == [word] + Words(rest)
  {
    assert !IsWhitespace(word[0]);
    TakeWordStops(word, rest);
    assert (word + rest)[|word|..] == rest;
  }

  /** Words put together with white space between them are taken apart again. */
  lemma {:induction false} WordsReadBack(words: seq<string>, mark: string)
    requires mark != "" && IsBlank(mark) && forall w | w in words :: w != "" && !HasWhitespace(w)
    ensures Words(Joined(words, mark)) == words
  {
    if words != [] {
      assert words[0] in words && forall w | w in words[1..] :: w in words;
      assert IsWhitespace(mark[0]);
      WordsReadBack(words[1..], mark);
      if |words| == 1 {
        assert words[0] + "" == words[0];
        OneWordMore(words[0], "");
      } else {
        var rest := Joined(words[1..], mark);
        assert Joined(words, mark) == words[0] + (mark + rest);
        OneWordMore(words[0], mark + rest);
        BlankHasNoWords(mark, rest);
      }
    }
  }

  /** Folding changes the letters A to Z into a to z, and nothing else. */
  lemma LowerFolds(s: string, i: nat)
    requires i < |s|
    ensures |Lower(s)| == |s|
    ensures Lower(s)[i] as int == s[i] as int + if 'A' <= s[i] <= 'Z' then 'a' as int - 'A' as int else 0
  {
  }

  // -- element ids ----------------------------------------------------------

  function DigitChar(d: nat): char
    requires d < 10
  {
    '0' + d as char
  }

  function Decimal(n: nat): string {
    if n < 10 then [DigitChar(n)] else Decimal(n / 10) + [DigitChar(n % 10)]
  }

  /** At least three digits, padded with zeros. */
  function Padded(n: nat): string {
    var d := Decimal(n);
    if |d| == 1 then "00" + d else if |d| == 2 then "0" + d else d
  }

  function IdOf(n: nat): string { "e_" + Padded(n) }

  function NumberOf(s: string): int {
    if s == "" then 0 else 10 * NumberOf(s[..|s| - 1]) + (s[|s| - 1] as int - '0' as int)
  }

  lemma {:induction false} DecimalReadsBack(n: nat)
    ensures NumberOf(Decimal(n)) == n && Decimal(n) != ""
  {
    if n >= 10 {
      DecimalReadsBack(n / 10);
      assert Decimal(n)[..|Decimal(n)| - 1] == Decimal(n / 10);
    }
  }

  lemma {:induction false} LeadingZero(s: string)
    ensures NumberOf("0" + s) == NumberOf(s)
    decreases |s|
  {
    if s == "" {
      assert "0" + s == "0";
      assert NumberOf("0") == 10 * NumberOf("0"[..0]) + 0;
    } else {
      assert ("0" + s)[..|s|] == "0" + s[..|s| - 1];
      LeadingZero(s[..|s| - 1]);
    }
  }

  lemma IdReadsBack(n: nat)
    ensures NumberOf(IdOf(n)[2..]) == n
  {
    var d := Decimal(n);
    DecimalReadsBack(n);
    assert IdOf(n)[2..] == Padded(n);
    LeadingZero(d);
    LeadingZero("0" + d);
    assert "00" + d == "0" + ("0" + d);
  }

  /** An id is `e_` and its number, in three digits or more. */
  lemma IdsAreNumbered(n: nat)
    ensures |IdOf(n)| >= 5 && IdOf(n)[..2] == "e_" && NumberOf(IdOf(n)[2..]) == n
    ensures |IdOf(n)| == 5 <==> n < 1000
  {
    IdReadsBack(n);
    DigitsGrow(n);
    if n >= 10 {
      DigitsGrow(n / 10);
      if n >= 100 { DigitsGrow(n / 100); }
    }
  }

  lemma DigitsGrow(n: nat)
    ensures |Decimal(n)| == if n < 10 then 1 else |Decimal(n / 10)| + 1
    ensures n >= 10 ==> |Decimal(n / 10)| >= 1
  {
  }

  /** Distinct numbers give distinct element ids, past 999 as well. */
  lemma IdsAreDistinct(m: nat, n: nat)
    requires IdOf(m) == IdOf(n)
    ensures m == n
  {
    IdReadsBack(m);
    IdReadsBack(n);
  }

  lemma {:induction false} DecimalHasNoWhitespace(n: nat)
    ensures !HasWhitespace(Decimal(n))
  {
    if n >= 10 { DecimalHasNoWhitespace(n / 10); }
  }

  lemma IdsAreWords(n: nat)
    ensures IdOf(n) != "" && !HasWhitespace(IdOf(n))
  {
    DecimalHasNoWhitespace(n);
    var d := Decimal(n);
    var i := IdOf(n);
    assert forall k | 0 <= k < |i| :: i[k] in "e_0" || i[k] in d;
  }
}
