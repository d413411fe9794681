/** Whether the selectors the index derives are ones it accepts back. */
module Selectors {
  import opened Text
  import opened ElementIndex
  import opened Resolution

  const BANNED: string := ":contains"

  lemma OccursWithin(whole: string, part: string, at: int, needle: string, i: int)
    requires 0 <= at <= |whole| - |part| && whole[at..at + |part|] == part && OccursAt(part, needle, i)
    ensures OccursAt(whole, needle, at + i)
  {
    assert forall k | 0 <= k < |part| :: part[k] == whole[at..at + |part|][k] == whole[at + k];
    assert whole[at + i..at + i + |needle|] == part[i..i + |needle|];
  }

  /** A text is put in front of, or after, one that starts with a character the needle does not have: nothing
      new can be found across the seam. */
  lemma ContainsJoins(a: string, b: string, needle: string)
    requires needle != "" && (b == "" || b[0] !in needle)
    ensures Contains(a + b, needle) <==> Contains(a, needle) || Contains(b, needle)
  {
    var ab := a + b;
    if Contains(a, needle) {
      var i :| 0 <= i <= |a| && OccursAt(a, needle, i);
      OccursWithin(ab, a, 0, needle, i);
    }
    if Contains(b, needle) {
      var i :| 0 <= i <= |b| && OccursAt(b, needle, i);
      OccursWithin(ab, b, |a|, needle, i);
    }
    if Contains(ab, needle) {
      var i :| 0 <= i <= |ab| && OccursAt(ab, needle, i);
      NotAcross(a, b, needle, i);
    }
  }

  lemma SeamIsInTheNeedle(a: string, b: string, needle: string, i: int)
    requires OccursAt(a + b, needle, i) && i < |a| < i + |needle|
    ensures b != "" && b[0] in needle
  {
    assert (a + b)[i..i + |needle|][|a| - i] == b[0];
  }

  lemma NotAcross(a: string, b: string, needle: string, i: int)
    requires needle != "" && (b == "" || b[0] !in needle) && OccursAt(a + b, needle, i)
    ensures Contains(a, needle) || Contains(b, needle)
  {
    var ab := a + b;
    if i + |needle| <= |a| {
      assert a[i..i + |needle|] == ab[i..i + |needle|];
      assert OccursAt(a, needle, i);
    } else if i >= |a| {
      assert b[i - |a|..i - |a| + |needle|] == ab[i..i + |needle|];
      assert OccursAt(b, needle, i - |a|);
    } else {
      SeamIsInTheNeedle(a, b, needle, i);
    }
  }

  // -- a derived selector read back -----------------------------------------------

  /** The text up to the first bare dot with its backslashes taken off, and what follows. */
  function TakeName(s: string): (string, string)
    decreases |s|
  {
    if s == "" || s[0] == '.' then ("", s)
    else if s[0] == '\\' && |s| > 1 then
      var (name, rest) := TakeName(s[2..]);
      ([s[1]] + name, rest)
    else
      var (name, rest) := TakeName(s[1..]);
      ([s[0]] + name, rest)
  }

  lemma PlainCharFirst(c: char, more: string, name: string, rest: string)
    requires c != '.' && c != '\\' && TakeName(more) == (name, rest)
    ensures TakeName([c] + more) == ([c] + name, rest)
  {
    assert ([c] + more)[1..] == more;
  }

  lemma EscapedCharFirst(c: char, more: string, name: string, rest: string)
    requires TakeName(more) == (name, rest)
    ensures TakeName(['\\', c] + more) == ([c] + name, rest)
  {
    var s := ['\\', c] + more;
    assert s[0] == '\\' && s[1] == c && s[2..] == more;
  }

  lemma {:induction false} NameReadsBack(name: string, rest: string)
    requires rest == "" || rest[0] == '.'
    ensures TakeName(Escape(name) + rest) == (name, rest)
  {
    if name == "" {
      assert Escape(name) + rest == rest;
    } else {
      var c, escaped := name[0], Escape(name[1..]);
      NameReadsBack(name[1..], rest);
      assert name == [c] + name[1..];
      if NeedsEscape(c) {
        assert Escape(name) + rest == ['\\', c] + (escaped + rest);
        EscapedCharFirst(c, escaped + rest, name[1..], rest);
      } else {
        assert Escape(name) + rest == [c] + (escaped + rest);
        PlainCharFirst(c, escaped + rest, name[1..], rest);
      }
    }
  }

  /** The names after the dots. */
  function NamesIn(s: string): seq<string>
    decreases |s|
  {
    if s == "" || s[0] != '.' then []
    else
      var (name, rest) := TakeName(s[1..]);
      if |rest| < |s| then [name] + NamesIn(rest) else [name]
  }

  lemma {:induction false} TakeNameTakes(s: string)
    ensures |TakeName(s).1| <= |s|
    decreases |s|
  {
    if s != "" && s[0] != '.' {
      if s[0] == '\\' && |s| > 1 { TakeNameTakes(s[2..]); } else { TakeNameTakes(s[1..]); }
    }
  }

  lemma {:induction false} ClassesReadBack(classes: seq<string>)
    ensures NamesIn(ClassSelector(classes)) == classes
  {
    if classes != [] {
      var rest := ClassSelector(classes[1..]);
      ClassesReadBack(classes[1..]);
      assert ClassSelector(classes) == "." + Escape(classes[0]) + rest;
      OneNameMore(classes[0], rest);
      assert classes == [classes[0]] + classes[1..];
    }
  }

  lemma OneNameMore(name: string, rest: string)
    requires rest == "" || rest[0] == '.'
    ensures NamesIn("." + Escape(name) + rest) == [name] + NamesIn(rest)
  {
    NameReadsBack(name, rest);
    DottedNameIs(Escape(name), name, rest);
  }

  lemma DottedNameIs(escaped: string, name: string, rest: string)
    requires TakeName(escaped + rest) == (name, rest)
    ensures NamesIn("." + escaped + rest) == [name] + NamesIn(rest)
  {
    var s := "." + escaped + rest;
    assert s[1..] == escaped + rest && s[0] == '.';
    FirstNameIs(s, name, rest);
  }

  lemma FirstNameIs(s: string, name: string, rest: string)
    requires s != "" && s[0] == '.' && TakeName(s[1..]) == (name, rest) && |rest| < |s|
    ensures NamesIn(s) == [name] + NamesIn(rest)
  {
  }

  /** A derived selector tells what it was derived from: the id if there is one, otherwise the tag and the classes;
      everything, if there is neither tag nor id. */
  lemma DerivedSelectorsReadBack(tag: string, domId: string, classes: seq<string>)
    ensures var sel := BuildSelector(tag, domId, classes);
      && (domId != "" ==> sel[..1] == "#" && TakeName(sel[1..]) == (domId, ""))
      && (domId == "" && tag == "" ==> sel == "*")
      && (domId == "" && tag != "" ==>
          |sel| >= |tag| && sel[..|tag|] == Lower(tag) && NamesIn(sel[|tag|..]) == classes)
  {
    if domId != "" {
      NameReadsBack(domId, "");
      assert Escape(domId) + "" == Escape(domId);
    } else if tag != "" {
      ClassesReadBack(classes);
      assert (Lower(tag) + ClassSelector(classes))[|tag|..] == ClassSelector(classes);
      assert classes == [] ==> Lower(tag)[|tag|..] == "";
    }
  }

  // -- escaping -----------------------------------------------------------------

  predicate Plain(w: string) { forall c | c in w :: !NeedsEscape(c) }

  /** Escaping neither makes nor breaks a beginning that has nothing to escape. */
  lemma {:induction false} EscapeKeepsPrefix(s: string, w: string)
    requires Plain(w)
    ensures w <= Escape(s) <==> w <= s
  {
    if w != "" && s != "" {
      assert w[0] in w && forall c | c in w[1..] :: c in w;
      EscapeKeepsPrefix(s[1..], w[1..]);
      if !NeedsEscape(s[0]) {
        assert Escape(s) == [s[0]] + Escape(s[1..]);
        PrefixSplits(w, Escape(s));
        PrefixSplits(w, s);
        assert Escape(s)[1..] == Escape(s[1..]);
      } else {
        assert Escape(s)[0] == '\\';
      }
    }
  }

  lemma PrefixSplits(w: string, s: string)
    requires w != "" && s != ""
    ensures w <= s <==> w[0] == s[0] && w[1..] <= s[1..]
  {
    if w[0] == s[0] && w[1..] <= s[1..] {
      assert w == [w[0]] + w[1..] && s == [s[0]] + s[1..];
      assert s[..|w|] == w;
    }
  }

  /** Looking for a needle: here, or further on. */
  lemma ContainsHereOrLater(s: string, needle: string)
    requires needle != ""
    ensures Contains(s, needle) <==> needle <= s || (s != "" && Contains(s[1..], needle))
  {
    if needle <= s {
      assert OccursAt(s, needle, 0);
    }
    if s != "" && Contains(s[1..], needle) {
      var i :| 0 <= i <= |s[1..]| && OccursAt(s[1..], needle, i);
      OccursWithin(s, s[1..], 1, needle, i);
    }
    if Contains(s, needle) && !(needle <= s) {
      var i :| 0 <= i <= |s| && OccursAt(s, needle, i);
      assert i > 0;
      assert s[1..][i - 1..i - 1 + |needle|] == s[i..i + |needle|];
      assert OccursAt(s[1..], needle, i - 1);
    }
  }

  /** In front of a text, any character but a colon changes nothing. */
  lemma OtherFirst(c: char, x: string)
    requires c != ':'
    ensures Contains([c] + x, BANNED) <==> Contains(x, BANNED)
  {
    ContainsHereOrLater([c] + x, BANNED);
    assert BANNED[0] == ':' && ([c] + x)[0] == c && ([c] + x)[1..] == x;
  }

  lemma ColonFirst(x: string)
    ensures Contains([':'] + x, BANNED) <==> BANNED[1..] <= x || Contains(x, BANNED)
  {
    var cx := [':'] + x;
    ContainsHereOrLater(cx, BANNED);
    assert cx[1..] == x && BANNED[0] == ':';
    PrefixSplits(BANNED, cx);
  }

  /** The backslash before the colon does not keep the banned text out. */
  lemma {:induction false} EscapeKeepsBanned(s: string)
    ensures Contains(Escape(s), BANNED) <==> Contains(s, BANNED)
  {
    if s != "" {
      var c, rest, escaped := s[0], s[1..], Escape(s[1..]);
      assert s == [c] + rest;
      EscapeKeepsBanned(rest);
      if NeedsEscape(c) {
        assert Escape(s) == ['\\'] + ([c] + escaped);
        OtherFirst('\\', [c] + escaped);
      }
      if c == ':' {
        assert Plain(BANNED[1..]);
        EscapeKeepsPrefix(rest, BANNED[1..]);
        ColonFirst(rest);
        ColonFirst(escaped);
      } else {
        OtherFirst(c, rest);
        OtherFirst(c, escaped);
      }
    }
  }

  lemma {:induction false} ClassesKeepBanned(classes: seq<string>)
    ensures Contains(ClassSelector(classes), BANNED) <==> exists c | c in classes :: Contains(c, BANNED)
  {
    if classes != [] {
      var first, rest := Escape(classes[0]), ClassSelector(classes[1..]);
      assert ClassSelector(classes) == "." + first + rest == ['.'] + (first + rest);
      ClassesKeepBanned(classes[1..]);
      EscapeKeepsBanned(classes[0]);
      ContainsJoins(first, rest, BANNED);
      OtherFirst('.', first + rest);
      assert classes == [classes[0]] + classes[1..];
    }
  }

  /** The attributes a selector is derived from are free of the banned text. */
  predicate AttributesAreFree(tag: string, domId: string, classes: seq<string>) {
    if domId != "" then !Contains(domId, BANNED)
    else !Contains(Lower(tag), BANNED) && (tag != "" ==> forall c | c in classes :: !Contains(c, BANNED))
  }

  /** The selector derived for an element passes the index's own validation exactly when the attributes it is
      derived from are free of the banned text: escaping is no protection. */
  lemma DerivedSelectorIsAcceptedExactlyWhen(tag: string, domId: string, classes: seq<string>)
    ensures ValidSelector(BuildSelector(tag, domId, classes)) <==> AttributesAreFree(tag, domId, classes)
  {
    if domId != "" {
      EscapeKeepsBanned(domId);
      assert BuildSelector(tag, domId, classes) == ['#'] + Escape(domId);
      OtherFirst('#', Escape(domId));
    } else if tag == "" {
      assert !Contains("*", BANNED) && !Contains(Lower(tag), BANNED);
    } else if classes != [] {
      ClassesKeepBanned(classes);
      ContainsJoins(Lower(tag), ClassSelector(classes), BANNED);
    }
  }

  /** So the index can derive a selector it then refuses: for the dom id `:contains`, for one. */
  lemma DerivedSelectorCanBeRefused()
    ensures !ValidSelector(BuildSelector("a", BANNED, []))
  {
    DerivedSelectorIsAcceptedExactlyWhen("a", BANNED, []);
    assert OccursAt(BANNED, BANNED, 0);
  }
}
