/**
 * The free-text normaliser `clean_text` of main.py. It drops every character
 * whose Unicode general category starts with 'S' (symbols: emoji, dingbats,
 * currency and math signs), replaces every run of whitespace by one space and
 * trims both ends. An absent (`None`) or empty text gives the empty string.
 */
module TextNormalizer {
  import opened Wrappers

  /** Python's `unicodedata.category`: the general category ("Lu", "Sm", "Zs", ...) of a character. */
  type CategoryOf = char -> string

  /** The filter of the first step: the category's first letter is 'S'. */
  predicate IsSymbol(cat: CategoryOf, c: char) {
    |cat(c)| > 0 && cat(c)[0] == 'S'
  }

  /** The one fact about the Unicode table the model needs: the space (category Zs) is no symbol. */
  predicate SpaceIsNotSymbol(cat: CategoryOf) {
    !IsSymbol(cat, ' ')
  }

  /**
   * The characters of Python's `str.isspace`, which is the class that `\s` matches in a
   * `str` pattern and the set that `str.strip()` removes.
   */
  predicate IsSpace(c: char) {
    var n := c as int;
    || 9 <= n <= 13 || 28 <= n <= 32 || n == 0x85 || n == 0xA0 || n == 0x1680
    || 0x2000 <= n <= 0x200A || n == 0x2028 || n == 0x2029 || n == 0x202F
    || n == 0x205F || n == 0x3000
  }

  // ---------------------------------------------------------------------------
  // Step 1: the loop that keeps only the non-symbol characters
  // ---------------------------------------------------------------------------

  /** The characters of `s` that are not symbols, in their original order. */
  function RemoveSymbols(cat: CategoryOf, s: string): (r: string)
    ensures |r| <= |s|
  {
    if s == [] then []
    else
      var last := s[|s| - 1];
      RemoveSymbols(cat, s[..|s| - 1]) + (if IsSymbol(cat, last) then [] else [last])
  }

  /** The filtered text holds no symbol, and a character occurs in it exactly when it is a non-symbol of the input. */
  lemma {:induction false} RemoveSymbolsShape(cat: CategoryOf, s: string)
    ensures var r := RemoveSymbols(cat, s);
      && (forall i :: 0 <= i < |r| ==> !IsSymbol(cat, r[i]))
      && (forall c :: c in r <==> c in s && !IsSymbol(cat, c))
  {
    if s != [] {
      var init, last := s[..|s| - 1], s[|s| - 1];
      assert s == init + [last];
      RemoveSymbolsShape(cat, init);
    }
  }

  /** One character: a symbol is dropped, anything else is kept. */
  lemma RemoveSymbolsOfChar(cat: CategoryOf, c: char)
    ensures RemoveSymbols(cat, [c]) == if IsSymbol(cat, c) then [] else [c]
  {
    assert [c][..0] == [];
  }

  /**
   * The filter works character by character: filtering two texts in a row is filtering
   * each. With `RemoveSymbolsOfChar` this fixes the result as every non-symbol of the
   * input, once per occurrence and in order.
   */
  lemma {:induction false} RemoveSymbolsAppend(cat: CategoryOf, a: string, b: string)
    ensures RemoveSymbols(cat, a + b) == RemoveSymbols(cat, a) + RemoveSymbols(cat, b)
    decreases |b|
  {
    if b == [] {
      assert a + b == a;
    } else {
      var init, last := b[..|b| - 1], b[|b| - 1];
      assert (a + b)[..|a + b| - 1] == a + init;
      assert (a + b)[|a + b| - 1] == last;
      RemoveSymbolsAppend(cat, a, init);
    }
  }

  /** The `for ch in text` loop of `clean_text` that appends every non-symbol to `filtered`. */
  method FilterSymbols(cat: CategoryOf, text: string) returns (filtered: string)
    ensures filtered == RemoveSymbols(cat, text)
  {
    filtered := [];
    var i := 0;
    while i < |text|
      invariant 0 <= i <= |text|
      invariant filtered == RemoveSymbols(cat, text[..i])
    {
      var ch := text[i];
      assert text[..i + 1][..i] == text[..i];
      i := i + 1;
      if IsSymbol(cat, ch) {
        continue;
      }
      filtered := filtered + [ch];
    }
    assert text[..i] == text;
  }

  // ---------------------------------------------------------------------------
  // Step 2: re.sub(r"\s+", " ", text)
  // ---------------------------------------------------------------------------

  /** What is left of `s` after its leading run of whitespace. */
  function SkipSpaces(s: string): (r: string)
    ensures |r| <= |s|
  {
    if s != [] && IsSpace(s[0]) then SkipSpaces(s[1..]) else s
  }

  /** `SkipSpaces` leaves a suffix that does not start with whitespace, and skips only whitespace. */
  lemma {:induction false} SkipSpacesShape(s: string)
    ensures var r := SkipSpaces(s);
      && r == s[|s| - |r|..]
      && (r == [] || !IsSpace(r[0]))
      && (forall i :: 0 <= i < |s| - |r| ==> IsSpace(s[i]))
  {
    if s != [] && IsSpace(s[0]) {
      var tail := s[1..];
      SkipSpacesShape(tail);
      var r := SkipSpaces(tail);
      assert tail[|tail| - |r|..] == s[|s| - |r|..];
      forall i | 0 < i < |s| - |r| ensures IsSpace(s[i]) {
        assert s[i] == tail[i - 1];
      }
    }
  }

  /** Every maximal run of whitespace in `s` replaced by one space, the rest kept in order. */
  function Collapse(s: string): (r: string)
    decreases |s|
    ensures |r| <= |s|
  {
    if s == [] then []
    else if IsSpace(s[0]) then [' '] + Collapse(SkipSpaces(s[1..]))
    else [s[0]] + Collapse(s[1..])
  }

  /**
   * The shape of `Collapse(s)`: empty only for an empty input, the first character
   * kept when it is no whitespace, every character a plain space or a non-space of
   * the input, and never two whitespace characters in a row.
   */
  lemma {:induction false} CollapseShape(s: string)
    decreases |s|
    ensures var r := Collapse(s);
      && (r == [] <==> s == [])
      && (s != [] && !IsSpace(s[0]) ==> r[0] == s[0])
      && (forall i :: 0 <= i < |r| ==> r[i] == ' ' || (r[i] in s && !IsSpace(r[i])))
      && SingleSpaced(r)
  {
    if s != [] {
      var t := if IsSpace(s[0]) then SkipSpaces(s[1..]) else s[1..];
      var head := if IsSpace(s[0]) then ' ' else s[0];
      assert Collapse(s) == [head] + Collapse(t);
      SkipSpacesShape(s[1..]);
      assert forall c :: c in t ==> c in s by {
        if IsSpace(s[0]) {
          assert t == s[1..][|s[1..]| - |t|..];
        }
      }
      CollapseShape(t);
      var rt := Collapse(t);
      var r := [head] + rt;
      forall i | 0 <= i < |r| ensures r[i] == ' ' || (r[i] in s && !IsSpace(r[i])) {
        if i > 0 {
          assert r[i] == rt[i - 1];
        }
      }
      assert rt != [] ==> !IsSpace(head) || !IsSpace(rt[0]);
      forall i | 0 < i < |r| && IsSpace(r[i]) ensures !IsSpace(r[i - 1]) {
        assert r[i] == rt[i - 1];
        if i > 1 {
          assert r[i - 1] == rt[i - 2];
        }
      }
    }
  }

  /** Leading whitespace that stops inside `a` stops there whatever follows. */
  lemma {:induction false} SkipSpacesAppend(a: string, c: string)
    requires SkipSpaces(a) != []
    ensures SkipSpaces(a + c) == SkipSpaces(a) + c
  {
    if IsSpace(a[0]) {
      assert (a + c)[1..] == a[1..] + c;
      SkipSpacesAppend(a[1..], c);
    }
  }

  /** A run of whitespace followed by a text that does not start with whitespace is skipped whole. */
  lemma {:induction false} SkipSpacesOfRun(w: string, b: string)
    requires forall i :: 0 <= i < |w| ==> IsSpace(w[i])
    requires b == [] || !IsSpace(b[0])
    ensures SkipSpaces(w + b) == b
  {
    if w == [] {
      assert w + b == b;
    } else {
      assert (w + b)[0] == w[0];
      assert (w + b)[1..] == w[1..] + b;
      SkipSpacesOfRun(w[1..], b);
    }
  }

  /** Skipping leading whitespace never removes a last character that is not whitespace. */
  lemma {:induction false} SkipSpacesKeepsLast(s: string)
    requires s != [] && !IsSpace(s[|s| - 1])
    ensures SkipSpaces(s) != [] && SkipSpaces(s)[|SkipSpaces(s)| - 1] == s[|s| - 1]
  {
    if IsSpace(s[0]) {
      assert s[1..][|s| - 2] == s[|s| - 1];
      SkipSpacesKeepsLast(s[1..]);
    }
  }

  /** Runs never cross the end of a text that ends in a non-space, so `Collapse` distributes there. */
  lemma {:induction false} CollapseAppend(a: string, c: string)
    requires a == [] || !IsSpace(a[|a| - 1])
    ensures Collapse(a + c) == Collapse(a) + Collapse(c)
    decreases |a|, 1
  {
    if a == [] {
      assert a + c == c;
    } else if IsSpace(a[0]) {
      CollapseAppendAtRun(a, c);
    } else {
      assert (a + c)[0] == a[0];
      assert (a + c)[1..] == a[1..] + c;
      assert a[1..] == [] || a[1..][|a[1..]| - 1] == a[|a| - 1];
      CollapseAppend(a[1..], c);
      assert Collapse(a + c) == [a[0]] + Collapse(a[1..] + c);
    }
  }

  /** The case of `CollapseAppend` where `a` starts with whitespace. */
  lemma {:induction false} CollapseAppendAtRun(a: string, c: string)
    requires a != [] && IsSpace(a[0]) && !IsSpace(a[|a| - 1])
    ensures Collapse(a + c) == Collapse(a) + Collapse(c)
    decreases |a|, 0
  {
    var t := SkipSpaces(a[1..]);
    assert a[1..][|a| - 2] == a[|a| - 1];
    SkipSpacesKeepsLast(a[1..]);
    calc {
      Collapse(a + c);
    == { assert (a + c)[0] == a[0]; assert (a + c)[1..] == a[1..] + c; }
      [' '] + Collapse(SkipSpaces(a[1..] + c));
    == { SkipSpacesAppend(a[1..], c); }
      [' '] + Collapse(t + c);
    == { CollapseAppend(t, c); }
      [' '] + (Collapse(t) + Collapse(c));
    ==
      Collapse(a) + Collapse(c);
    }
  }

  /** A run of whitespace at the front becomes one space. */
  lemma CollapseOfRun(w: string, b: string)
    requires w != [] && forall i :: 0 <= i < |w| ==> IsSpace(w[i])
    requires b == [] || !IsSpace(b[0])
    ensures Collapse(w + b) == [' '] + Collapse(b)
  {
    SkipSpacesOfRun(w, b);
    assert (w + b)[0] == w[0];
    assert SkipSpaces((w + b)[1..]) == b;
  }

  lemma ConcatAssoc(x: string, y: string, z: string)
    ensures x + y + z == x + (y + z)
  {
  }

  /**
   * `re.sub(r"\s+", " ", ..)` replaces a maximal run of whitespace, of any length and
   * made of any whitespace characters, by exactly one space between what precedes
   * and what follows it.
   */
  lemma CollapseRun(a: string, w: string, b: string)
    requires a == [] || !IsSpace(a[|a| - 1])
    requires w != [] && forall i :: 0 <= i < |w| ==> IsSpace(w[i])
    requires b == [] || !IsSpace(b[0])
    ensures Collapse(a + w + b) == Collapse(a) + " " + Collapse(b)
  {
    ConcatAssoc(a, w, b);
    CollapseAppend(a, w + b);
    CollapseOfRun(w, b);
    ConcatAssoc(Collapse(a), " ", Collapse(b));
  }

  // ---------------------------------------------------------------------------
  // Step 3: str.strip()
  // ---------------------------------------------------------------------------

  /** `s` without its trailing run of whitespace. */
  function TrimEnd(s: string): (r: string)
    ensures |r| <= |s|
  {
    if s != [] && IsSpace(s[|s| - 1]) then TrimEnd(s[..|s| - 1]) else s
  }

  /** `TrimEnd` leaves a prefix that does not end with whitespace, and cuts only whitespace. */
  lemma {:induction false} TrimEndShape(s: string)
    ensures var r := TrimEnd(s);
      && r == s[..|r|]
      && (r == [] || !IsSpace(r[|r| - 1]))
      && (forall i :: |r| <= i < |s| ==> IsSpace(s[i]))
  {
    if s != [] && IsSpace(s[|s| - 1]) {
      var init := s[..|s| - 1];
      TrimEndShape(init);
      var r := TrimEnd(init);
      assert init[..|r|] == s[..|r|];
      forall i | |r| <= i < |s| - 1 ensures IsSpace(s[i]) {
        assert s[i] == init[i];
      }
    }
  }

  /** `s` without leading and trailing whitespace. */
  function Strip(s: string): (r: string)
    ensures |r| <= |s|
  {
    TrimEnd(SkipSpaces(s))
  }

  /**
   * `strip()`: the result is the slice of `s` that starts where the leading whitespace
   * ends, and it has no whitespace at either end.
   */
  lemma StripShape(s: string)
    ensures var r := Strip(s);
      var a := |s| - |SkipSpaces(s)|;
      && a + |r| <= |s| && r == s[a..a + |r|]
      && (r == [] || (!IsSpace(r[0]) && !IsSpace(r[|r| - 1])))
  {
    var t := SkipSpaces(s);
    var r := TrimEnd(t);
    SkipSpacesShape(s);
    TrimEndShape(t);
    PrefixOfSuffix(s, t, r);
  }

  /** A prefix `r` of a suffix `t` of `s` is the slice of `s` where `t` begins. */
  lemma PrefixOfSuffix(s: string, t: string, r: string)
    requires |t| <= |s| && t == s[|s| - |t|..]
    requires |r| <= |t| && r == t[..|r|]
    ensures r == s[|s| - |t|..|s| - |t| + |r|]
    ensures r != [] ==> r[0] == t[0]
  {
  }

  // ---------------------------------------------------------------------------
  // clean_text
  // ---------------------------------------------------------------------------

  /** The value of `clean_text(text)`; `None` is Python's `None`. */
  function Cleaned(cat: CategoryOf, text: Option<string>): (r: string)
    ensures text.None? || text == Some("") ==> r == ""
    ensures text.Some? ==> |r| <= |text.value|
  {
    match text
    case None => ""
    case Some(s) => if s == "" then "" else Strip(Collapse(RemoveSymbols(cat, s)))
  }

  /** `clean_text` as the source writes it: a loop that filters, then the regex and the strip. */
  method CleanText(cat: CategoryOf, text: Option<string>) returns (r: string)
    ensures r == Cleaned(cat, text)
  {
    if text.None? || text.value == "" {
      return "";
    }
    var filtered := FilterSymbols(cat, text.value);
    r := Strip(Collapse(filtered));
  }

  // ---------------------------------------------------------------------------
  // What clean_text promises
  // ---------------------------------------------------------------------------

  /** No whitespace character directly follows another. */
  predicate SingleSpaced(r: string) {
    forall i :: 0 < i < |r| && IsSpace(r[i]) ==> !IsSpace(r[i - 1])
  }

  /**
   * The shape of every output of `clean_text`: no symbol, the only whitespace is
   * the plain space, never two in a row, none at either end.
   */
  predicate Normalized(cat: CategoryOf, r: string) {
    && Inner(cat, r)
    && (r != [] ==> !IsSpace(r[0]) && !IsSpace(r[|r| - 1]))
  }

  /** The part of `Normalized` that every slice of a text inherits. */
  predicate Inner(cat: CategoryOf, r: string) {
    && (forall i :: 0 <= i < |r| ==> !IsSymbol(cat, r[i]))
    && (forall i :: 0 <= i < |r| && IsSpace(r[i]) ==> r[i] == ' ')
    && SingleSpaced(r)
  }

  lemma InnerOfSlice(cat: CategoryOf, s: string, a: nat, b: nat)
    requires Inner(cat, s) && a <= b <= |s|
    ensures Inner(cat, s[a..b])
  {
    var r := s[a..b];
    assert forall i :: 0 <= i < |r| ==> r[i] == s[a + i];
  }

  lemma InnerOfCollapse(cat: CategoryOf, f: string)
    requires SpaceIsNotSymbol(cat)
    requires forall i :: 0 <= i < |f| ==> !IsSymbol(cat, f[i])
    ensures Inner(cat, Collapse(f))
  {
    var c := Collapse(f);
    CollapseShape(f);
    forall i | 0 <= i < |c|
      ensures !IsSymbol(cat, c[i]) && (IsSpace(c[i]) ==> c[i] == ' ')
    {
      if c[i] != ' ' {
        assert c[i] in f;
      }
    }
  }

  /** The characters of `s` that are neither whitespace nor symbols, in their original order. */
  function Visible(cat: CategoryOf, s: string): string {
    if s == [] then []
    else
      var last := s[|s| - 1];
      Visible(cat, s[..|s| - 1]) + (if IsSymbol(cat, last) || IsSpace(last) then [] else [last])
  }

  /** The characters of `s` that are not whitespace, in order. */
  function NonSpace(s: string): string {
    if s == [] then [] else (if IsSpace(s[0]) then [] else [s[0]]) + NonSpace(s[1..])
  }

  lemma {:induction false} NonSpaceAppend(a: string, b: string)
    ensures NonSpace(a + b) == NonSpace(a) + NonSpace(b)
  {
    if a == [] {
      assert a + b == b;
    } else {
      assert (a + b)[1..] == a[1..] + b;
      NonSpaceAppend(a[1..], b);
    }
  }

  lemma {:induction false} NonSpaceOfSpaces(s: string)
    requires forall i :: 0 <= i < |s| ==> IsSpace(s[i])
    ensures NonSpace(s) == []
  {
    if s != [] {
      NonSpaceOfSpaces(s[1..]);
    }
  }

  lemma {:induction false} NonSpaceOfSkipSpaces(s: string)
    ensures NonSpace(SkipSpaces(s)) == NonSpace(s)
  {
    if s != [] && IsSpace(s[0]) {
      NonSpaceOfSkipSpaces(s[1..]);
    }
  }

  lemma {:induction false} NonSpaceOfCollapse(s: string)
    decreases |s|
    ensures NonSpace(Collapse(s)) == NonSpace(s)
  {
    if s == [] {
    } else if IsSpace(s[0]) {
      var rest := SkipSpaces(s[1..]);
      assert ([' '] + Collapse(rest))[1..] == Collapse(rest);
      NonSpaceOfCollapse(rest);
      NonSpaceOfSkipSpaces(s[1..]);
    } else {
      assert ([s[0]] + Collapse(s[1..]))[1..] == Collapse(s[1..]);
      NonSpaceOfCollapse(s[1..]);
    }
  }

  lemma {:induction false} NonSpaceOfTrimEnd(s: string)
    ensures NonSpace(TrimEnd(s)) == NonSpace(s)
  {
    if s != [] && IsSpace(s[|s| - 1]) {
      var init, last := s[..|s| - 1], s[|s| - 1];
      NonSpaceOfTrimEnd(init);
      assert s == init + [last];
      NonSpaceAppend(init, [last]);
    }
  }

  lemma NonSpaceOfStrip(s: string)
    ensures NonSpace(Strip(s)) == NonSpace(s)
  {
    NonSpaceOfSkipSpaces(s);
    NonSpaceOfTrimEnd(SkipSpaces(s));
  }

  lemma {:induction false} NonSpaceOfRemoveSymbols(cat: CategoryOf, s: string)
    ensures NonSpace(RemoveSymbols(cat, s)) == Visible(cat, s)
  {
    if s != [] {
      var init, last := s[..|s| - 1], s[|s| - 1];
      NonSpaceOfRemoveSymbols(cat, init);
      NonSpaceAppend(RemoveSymbols(cat, init), if IsSymbol(cat, last) then [] else [last]);
    }
  }

  /**
   * Order: the characters of the output that are not whitespace are exactly the
   * characters of the input that are neither whitespace nor symbols, in the same order.
   */
  lemma CleanedKeepsVisible(cat: CategoryOf, s: string)
    ensures NonSpace(Cleaned(cat, Some(s))) == Visible(cat, s)
  {
    if s != "" {
      var f := RemoveSymbols(cat, s);
      NonSpaceOfStrip(Collapse(f));
      NonSpaceOfCollapse(f);
      NonSpaceOfRemoveSymbols(cat, s);
    }
  }

  /** Every output of `clean_text` has the normalised shape. */
  lemma CleanedIsNormalized(cat: CategoryOf, text: Option<string>)
    requires SpaceIsNotSymbol(cat)
    ensures Normalized(cat, Cleaned(cat, text))
  {
    if text.Some? && text.value != "" {
      var f := RemoveSymbols(cat, text.value);
      RemoveSymbolsShape(cat, text.value);
      InnerOfCollapse(cat, f);
      NormalizedOfStrip(cat, Collapse(f));
    }
  }

  lemma NormalizedOfStrip(cat: CategoryOf, c: string)
    requires Inner(cat, c)
    ensures Normalized(cat, Strip(c))
  {
    var t := SkipSpaces(c);
    StripShape(c);
    InnerOfSlice(cat, c, |c| - |t|, |c| - |t| + |Strip(c)|);
  }

  lemma {:induction false} RemoveSymbolsOfClean(cat: CategoryOf, s: string)
    requires forall i :: 0 <= i < |s| ==> !IsSymbol(cat, s[i])
    ensures RemoveSymbols(cat, s) == s
  {
    if s != [] {
      RemoveSymbolsOfClean(cat, s[..|s| - 1]);
      assert s == s[..|s| - 1] + [s[|s| - 1]];
    }
  }

  lemma {:induction false} CollapseOfSingleSpaced(s: string)
    requires forall i :: 0 <= i < |s| && IsSpace(s[i]) ==> s[i] == ' '
    requires SingleSpaced(s)
    ensures Collapse(s) == s
  {
    if s != [] {
      var tail := s[1..];
      SingleSpacedTail(s);
      CollapseOfSingleSpaced(tail);
      if IsSpace(s[0]) {
        assert SkipSpaces(tail) == tail;
      }
      assert s == [s[0]] + tail;
    }
  }

  /** What the two requirements of `CollapseOfSingleSpaced` say about the tail of a text. */
  lemma SingleSpacedTail(s: string)
    requires s != []
    requires forall i :: 0 <= i < |s| && IsSpace(s[i]) ==> s[i] == ' '
    requires SingleSpaced(s)
    ensures forall i :: 0 <= i < |s[1..]| && IsSpace(s[1..][i]) ==> s[1..][i] == ' '
    ensures SingleSpaced(s[1..])
    ensures IsSpace(s[0]) ==> s[0] == ' ' && (s[1..] == [] || !IsSpace(s[1..][0]))
  {
    var tail := s[1..];
    assert forall i :: 0 <= i < |tail| ==> tail[i] == s[i + 1];
  }

  /** A normalised text is left as it is: `clean_text` changes nothing in it. */
  lemma CleanedOfNormalized(cat: CategoryOf, r: string)
    requires Normalized(cat, r)
    ensures Cleaned(cat, Some(r)) == r
  {
    if r != "" {
      RemoveSymbolsOfClean(cat, r);
      CollapseOfSingleSpaced(r);
      assert SkipSpaces(r) == r;
      assert TrimEnd(r) == r;
    }
  }

  /** `clean_text(clean_text(x)) == clean_text(x)`. */
  lemma CleanedIdempotent(cat: CategoryOf, text: Option<string>)
    requires SpaceIsNotSymbol(cat)
    ensures Cleaned(cat, Some(Cleaned(cat, text))) == Cleaned(cat, text)
  {
    CleanedIsNormalized(cat, text);
    CleanedOfNormalized(cat, Cleaned(cat, text));
  }
}
