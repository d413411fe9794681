/** The letter labels put on clickable elements: one letter, then two, three and four letters. */
module HintLabels {
  import opened Division

  /** What the labels are spelled with. */
  type Charset = s: string | |s| >= 1 witness "A"

  const HOME_ROW_FIRST: Charset := "ASDFGHJKLQWERTYUIOPZXCVBNM"

  /** How many words of that many letters there are, of `n` different letters. */
  function Words(n: nat, letters: nat): (count: nat)
    requires n > 0
    ensures count > 0
  {
    if letters == 0 then 1
    else
      Multiples(n, Words(n, letters - 1));
      n * Words(n, letters - 1)
  }

  /** How many labels have fewer letters. */
  function Shorter(n: nat, letters: nat): nat
    requires n > 0
  {
    if letters <= 1 then 0 else Shorter(n, letters - 1) + Words(n, letters - 1)
  }

  /** How many labels of one to four letters there are. */
  function Capacity(n: nat): nat
    requires n > 0
  {
    Shorter(n, 5)
  }

  lemma WordsArePowers(n: nat)
    requires n > 0
    ensures Words(n, 1) == n && Words(n, 2) == n * n && Words(n, 3) == n * n * n
  {
    assert Words(n, 1) == n * Words(n, 0);
    assert Words(n, 2) == n * Words(n, 1);
    assert Words(n, 3) == n * Words(n, 2);
    Associates(n, n, n);
  }

  lemma CapacityIs(n: nat)
    requires n > 0
    ensures Capacity(n) == n + n * n + n * n * n + n * n * n * n
  {
    WordsArePowers(n);
    Bands(n);
    assert Words(n, 4) == n * Words(n, 3);
    Associates(n, n * n, n);
    Associates(n, n, n);
  }

  /** Where the labels of each length begin. */
  lemma Bands(n: nat)
    requires n > 0
    ensures Shorter(n, 1) == 0 && Shorter(n, 2) == Words(n, 1)
    ensures Shorter(n, 3) == Shorter(n, 2) + Words(n, 2)
    ensures Shorter(n, 4) == Shorter(n, 3) + Words(n, 3)
    ensures Capacity(n) == Shorter(n, 4) + Words(n, 4)
  {
  }

  function Letters(n: nat, i: nat): (letters: nat)
    requires n > 0
    ensures 1 <= letters <= 4
  {
    if i < Shorter(n, 2) then 1
    else if i < Shorter(n, 3) then 2
    else if i < Shorter(n, 4) then 3
    else 4
  }

  /** Which of the labels with as many letters label `i` is. */
  function Rank(n: nat, i: nat): (r: nat)
    requires n > 0
    ensures i < Capacity(n) ==> r < Words(n, Letters(n, i))
  {
    Bands(n);
    i - Shorter(n, Letters(n, i))
  }

  /** The letter for the last digit of `r`. */
  function Letter(cs: Charset, r: nat): string {
    [cs[r % |cs|]]
  }

  /** The digits of `r` before the last. */
  function Upper(cs: Charset, r: nat): nat {
    Divides(r, |cs|);
    r / |cs|
  }

  /** The last `letters` digits of `r` to the base |cs|, as letters. */
  function Word(cs: Charset, r: nat, letters: nat): (w: string)
    ensures |w| == letters
    decreases letters
  {
    if letters == 0 then "" else Word(cs, Upper(cs, r), letters - 1) + Letter(cs, r)
  }

  /** The i-th label: all words of one letter in order, then all of two, of three, and of four letters. */
  function Label(cs: Charset, i: nat): string {
    Word(cs, Rank(|cs|, i), Letters(|cs|, i))
  }

  // -- the generator --------------------------------------------------------------

  method GenLabels(cs: Charset, count: nat) returns (out: seq<string>)
    ensures |out| == count && forall i | 0 <= i < count :: out[i] == Label(cs, i)
  {
    out := [];
    for i := 0 to count
      invariant |out| == i && forall k | 0 <= k < i :: out[k] == Label(cs, k)
    {
      var text;
      if i < |cs| {
        text := OneLetterLabel(cs, i);
      } else {
        text := LongLabel(cs, i - |cs|);
      }
      out := out + [text];
    }
  }

  /** The label after `rem` others of more than one letter. */
  method LongLabel(cs: Charset, rem: nat) returns (text: string)
    ensures text == Label(cs, |cs| + rem)
  {
    var n := |cs|;
    WordsArePowers(n);
    Bands(n);
    if rem < n * n {
      text := TwoLetterLabel(cs, rem);
    } else if rem - n * n < n * n * n {
      text := ThreeLetterLabel(cs, rem - n * n);
    } else {
      text := FourLetterLabel(cs, rem - n * n - n * n * n);
    }
  }

  method OneLetterLabel(cs: Charset, i: nat) returns (text: string)
    requires i < |cs|
    ensures text == Label(cs, i)
  {
    WordsArePowers(|cs|);
    Bands(|cs|);
    SmallerThan(i, |cs|);
    assert Word(cs, Upper(cs, i), 0) == "";
    text := [cs[i]];
  }

  method TwoLetterLabel(cs: Charset, rem: nat) returns (text: string)
    requires rem < |cs| * |cs|
    ensures text == Word(cs, rem, 2)
  {
    var n := |cs|;
    TwoLetters(cs, rem);
    QuotientBound(rem, n, n);
    Divides(rem, n);
    var a, b := rem / n, rem % n;
    SmallerThan(a, n);
    text := [cs[a]] + [cs[b]];
  }

  method ThreeLetterLabel(cs: Charset, rem: nat) returns (text: string)
    requires rem < |cs| * |cs| * |cs|
    ensures text == Word(cs, rem, 3)
  {
    var n := |cs|;
    ThreeLetters(cs, rem);
    DivDiv(rem, n, n);
    QuotientBound(rem, n * n, n);
    Divides(rem, n * n);
    var a, bc := rem / (n * n), rem % (n * n);
    SmallerThan(a, n);
    Divides(rem / n, n);
    Divides(rem, n);
    var b, c := bc / n, bc % n;
    text := [cs[a]] + [cs[b]] + [cs[c]];
  }

  method FourLetterLabel(cs: Charset, rem: nat) returns (text: string)
    ensures text == Word(cs, rem, 4)
  {
    var n := |cs|;
    DivDiv(rem, n, n);
    DivDiv(rem, n * n, n);
    FourLetters(cs, rem);
    text := [cs[rem / (n * n * n) % n]] + [cs[rem / (n * n) % n]] + [cs[rem / n % n]] + [cs[rem % n]];
  }

  lemma TwoLetters(cs: Charset, r: nat)
    ensures r / |cs| >= 0
    ensures Word(cs, r, 2) == Letter(cs, r / |cs|) + Letter(cs, r)
  {
    var q := Upper(cs, r);
    assert Word(cs, q, 1) == Word(cs, Upper(cs, q), 0) + Letter(cs, q);
  }

  lemma ThreeLetters(cs: Charset, r: nat)
    ensures |cs| * |cs| > 0 && r / |cs| >= 0 && r / (|cs| * |cs|) >= 0
    ensures Word(cs, r, 3) == Letter(cs, r / (|cs| * |cs|)) + Letter(cs, r / |cs|) + Letter(cs, r)
  {
    TwoLetters(cs, Upper(cs, r));
    DivDiv(r, |cs|, |cs|);
  }

  lemma FourLetters(cs: Charset, r: nat)
    requires |cs| * |cs| > 0 && |cs| * |cs| * |cs| > 0
    ensures r / |cs| >= 0 && r / (|cs| * |cs|) >= 0 && r / (|cs| * |cs| * |cs|) >= 0
    ensures Word(cs, r, 4)
         == Letter(cs, r / (|cs| * |cs| * |cs|)) + Letter(cs, r / (|cs| * |cs|)) + Letter(cs, r / |cs|) + Letter(cs, r)
  {
    var n, q := |cs|, Upper(cs, r);
    ThreeLetters(cs, q);
    DivDiv(r, n, n);
    DivDiv(q, n, n);
    DivDiv(r, n * n, n);
  }

  // -- reading a label back ---------------------------------------------------------

  /** The position of a letter in the charset, from `i` on. */
  function DigitFrom(cs: Charset, c: char, i: nat): (d: nat)
    requires i <= |cs|
    ensures i <= d <= |cs|
    decreases |cs| - i
  {
    if i == |cs| || cs[i] == c then i else DigitFrom(cs, c, i + 1)
  }

  predicate Distinct<T(==)>(s: seq<T>) {
    forall i, j | 0 <= i < j < |s| :: s[i] != s[j]
  }

  lemma {:induction false} DigitFinds(cs: Charset, k: nat, i: nat)
    requires Distinct(cs) && i <= k < |cs|
    ensures DigitFrom(cs, cs[k], i) == k
    decreases k - i
  {
    if i < k { DigitFinds(cs, k, i + 1); }
  }

  function Value(cs: Charset, w: string): int {
    if w == "" then 0 else |cs| * Value(cs, w[..|w| - 1]) + DigitFrom(cs, w[|w| - 1], 0)
  }

  lemma UpperFits(cs: Charset, r: nat, letters: nat)
    requires letters > 0 && r < Words(|cs|, letters)
    ensures Upper(cs, r) < Words(|cs|, letters - 1)
  {
    assert Words(|cs|, letters) == |cs| * Words(|cs|, letters - 1);
    QuotientBound(r, |cs|, Words(|cs|, letters - 1));
  }

  lemma LastLetterCounts(cs: Charset, w: string, c: char)
    ensures Value(cs, w + [c]) == |cs| * Value(cs, w) + DigitFrom(cs, c, 0)
  {
    assert (w + [c])[..|w|] == w;
  }

  lemma LastLetterReadsBack(cs: Charset, w: string, r: nat)
    requires Distinct(cs) && Value(cs, w) == Upper(cs, r)
    ensures Value(cs, w + Letter(cs, r)) == r
  {
    var n := |cs|;
    Divides(r, n);
    DigitFinds(cs, r % n, 0);
    LastLetterCounts(cs, w, cs[r % n]);
  }

  lemma {:induction false} WordReadsBack(cs: Charset, r: nat, letters: nat)
    requires Distinct(cs) && r < Words(|cs|, letters)
    ensures Value(cs, Word(cs, r, letters)) == r
    decreases letters
  {
    if letters > 0 {
      UpperFits(cs, r, letters);
      WordReadsBack(cs, Upper(cs, r), letters - 1);
      LastLetterReadsBack(cs, Word(cs, Upper(cs, r), letters - 1), r);
    }
  }

  lemma {:induction false} WordsRepeat(cs: Charset, r: nat, letters: nat)
    ensures Word(cs, r + Words(|cs|, letters), letters) == Word(cs, r, letters)
    decreases letters
  {
    if letters > 0 {
      WordsRepeat(cs, Upper(cs, r), letters - 1);
      assert Words(|cs|, letters) == |cs| * Words(|cs|, letters - 1);
          Shifted(r, |cs|, Words(|cs|, letters - 1));
    }
  }

  /** The number a label stands for. */
  function Number(cs: Charset, w: string): int { Shorter(|cs|, |w|) + Value(cs, w) }

  lemma LabelReadsBack(cs: Charset, i: nat)
    requires Distinct(cs) && i < Capacity(|cs|)
    ensures Number(cs, Label(cs, i)) == i
  {
    WordReadsBack(cs, Rank(|cs|, i), Letters(|cs|, i));
  }

  /** Past all labels of up to three letters, every label has four. */
  lemma LongOnes(n: nat, i: nat, w: nat)
    requires n > 0 && i >= Shorter(n, 4)
    ensures Letters(n, i) == Letters(n, i + w) == 4 && Rank(n, i + w) == Rank(n, i) + w
  {
    Bands(n);
  }

  /** The four-letter labels start over after all of them: the fourth power of the number of letters. */
  lemma LabelsRepeat(cs: Charset, i: nat, n: nat, all: nat)
    requires n == |cs| && all == Words(n, 4) && i >= Shorter(n, 4)
    ensures Label(cs, i + all) == Label(cs, i)
  {
    LongOnes(n, i, all);
    WordsRepeat(cs, Rank(n, i), Letters(n, i));
    LabelIs(cs, i, Rank(n, i), Letters(n, i));
    LabelIs(cs, i + all, Rank(n, i) + all, Letters(n, i));
  }

  lemma LabelIs(cs: Charset, i: nat, r: nat, letters: nat)
    requires Letters(|cs|, i) == letters && Rank(|cs|, i) == r
    ensures Label(cs, i) == Word(cs, r, letters)
  {
  }

  lemma LabelsDiffer(cs: Charset, i: nat, j: nat, capacity: nat)
    requires Distinct(cs) && i < j < capacity && capacity == Capacity(|cs|)
    ensures Label(cs, i) != Label(cs, j)
  {
    LabelReadsBack(cs, i);
    LabelReadsBack(cs, j);
  }

  lemma DistinctBelow(cs: Charset, labels: seq<string>)
    requires Distinct(cs) && forall i | 0 <= i < |labels| :: labels[i] == Label(cs, i)
    requires |labels| <= Capacity(|cs|)
    ensures Distinct(labels)
  {
    forall i, j | 0 <= i < j < |labels| ensures labels[i] != labels[j] {
      LabelsDiffer(cs, i, j, Capacity(|cs|));
    }
  }

  lemma RepeatedBeyond(cs: Charset, labels: seq<string>, n: nat, shorter: nat, all: nat)
    requires n == |cs| && shorter == Shorter(n, 4) && all == Words(n, 4)
    requires forall i | 0 <= i < |labels| :: labels[i] == Label(cs, i)
    requires |labels| > shorter + all
    ensures !Distinct(labels)
  {
    LabelsRepeat(cs, shorter, n, all);
    assert labels[shorter] == labels[shorter + all];
  }

  /** The labels handed out are pairwise distinct exactly up to the capacity. */
  lemma DistinctExactlyUpToCapacity(cs: Charset, n: nat, labels: seq<string>)
    requires Distinct(cs) && |cs| == n && forall i | 0 <= i < |labels| :: labels[i] == Label(cs, i)
    ensures Distinct(labels) <==> |labels| <= n + n * n + n * n * n + n * n * n * n
  {
    CapacityIs(n);
    if |labels| <= Capacity(n) {
      DistinctBelow(cs, labels);
    } else {
      Bands(n);
      RepeatedBeyond(cs, labels, n, Shorter(n, 4), Words(n, 4));
    }
  }

  /** The labels of the shipped charset. */
  lemma HomeRowLabelsAreDistinctExactlyUpTo475254(labels: seq<string>)
    requires forall i | 0 <= i < |labels| :: labels[i] == Label(HOME_ROW_FIRST, i)
    ensures Distinct(labels) <==> |labels| <= 475254
  {
    TheLettersAreDistinct();
    DistinctExactlyUpToCapacity(HOME_ROW_FIRST, 26, labels);
  }

  lemma TheLettersAreDistinct()
    ensures Distinct(HOME_ROW_FIRST)
  {
    forall i, j | 0 <= i < j < |HOME_ROW_FIRST| ensures HOME_ROW_FIRST[i] != HOME_ROW_FIRST[j] {
      PlaceOf(i);
      PlaceOf(j);
    }
  }

  /** Where each letter from A to Z stands in the charset. */
  const PLACES: seq<nat> :=
    [0, 23, 21, 2, 11, 3, 4, 5, 16, 6, 7, 8, 25, 24, 17, 18, 9, 12, 1, 13, 15, 22, 10, 20, 14, 19]

  lemma PlaceOf(i: nat)
    requires i < |HOME_ROW_FIRST|
    ensures 'A' <= HOME_ROW_FIRST[i] <= 'Z' && PLACES[(HOME_ROW_FIRST[i] - 'A') as int] == i
  {
  }
}
