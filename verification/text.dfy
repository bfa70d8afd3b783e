/**
 * The whitespace handling the backend relies on: Python's `str.isspace`
 * character class (which `re`'s `\s`, `str.strip()` and `str.split()` all
 * use for `str` values), the regular-expression substitution that squeezes
 * every whitespace run to one space, `strip()`, and `split()` with no
 * argument. The browser's `String.prototype.trim` uses a different class,
 * also written out here.
 */
module Text {
  import opened Strings

  /** Python's `str.isspace()` for one character. */
  predicate IsSpace(c: char)
  {
    ('\U{0009}' <= c <= '\U{000D}') || ('\U{001C}' <= c <= '\U{001F}') || c == ' ' ||
    c == '\U{0085}' || c == '\U{00A0}' || c == '\U{1680}' ||
    ('\U{2000}' <= c <= '\U{200A}') || c == '\U{2028}' || c == '\U{2029}' ||
    c == '\U{202F}' || c == '\U{205F}' || c == '\U{3000}'
  }

  /** Every character is whitespace (true of ""). */
  predicate Blank(s: string)
  {
    forall i :: 0 <= i < |s| ==> IsSpace(s[i])
  }

  /** No character is whitespace. */
  predicate Solid(s: string)
  {
    forall i :: 0 <= i < |s| ==> !IsSpace(s[i])
  }

  /** A word as `split()` yields it: non-empty, no whitespace. */
  predicate IsWord(w: string)
  {
    |w| > 0 && Solid(w)
  }

  predicate AllWords(ws: seq<string>)
  {
    forall i :: 0 <= i < |ws| ==> IsWord(ws[i])
  }

  /**
   * Every whitespace character is a plain ' ' with a non-whitespace
   * character on each side: no leading or trailing whitespace, no run of
   * two, no tab or newline.
   */
  predicate SingleSpaced(s: string)
  {
    forall i :: 0 <= i < |s| && IsSpace(s[i]) ==>
      s[i] == ' ' && 0 < i < |s| - 1 && !IsSpace(s[i - 1]) && !IsSpace(s[i + 1])
  }

  /** `s` without its leading whitespace (Python's `lstrip()`). */
  function SkipSpaces(s: string): (r: string)
    ensures |r| <= |s|
    ensures r == [] || !IsSpace(r[0])
  {
    if s != [] && IsSpace(s[0]) then SkipSpaces(s[1..]) else s
  }

  /** `s` without its trailing whitespace (Python's `rstrip()`). */
  function StripRight(s: string): (r: string)
    ensures |r| <= |s|
    ensures r == [] || !IsSpace(r[|r| - 1])
  {
    if s != [] && IsSpace(s[|s| - 1]) then StripRight(s[..|s| - 1]) else s
  }

  /** Python's `s.strip()`. */
  function Strip(s: string): string
  {
    StripRight(SkipSpaces(s))
  }

  /** The leading run of non-whitespace characters of `s`. */
  function WordPrefix(s: string): (w: string)
    ensures |w| <= |s|
    ensures s != [] && !IsSpace(s[0]) ==> |w| > 0
  {
    if s != [] && !IsSpace(s[0]) then [s[0]] + WordPrefix(s[1..]) else []
  }

  /** Python's `s.split()`: the maximal runs of non-whitespace characters, in order. */
  function Split(s: string): seq<string>
    decreases |s|
  {
    var t := SkipSpaces(s);
    if t == [] then []
    else
      var w := WordPrefix(t);
      [w] + Split(t[|w|..])
  }

  /** Every piece `split()` yields is a word. */
  lemma {:induction false} SplitAllWords(s: string)
    ensures AllWords(Split(s))
    decreases |s|
  {
    var t := SkipSpaces(s);
    if t != [] {
      var w := WordPrefix(t);
      WordPrefixShape(t);
      var rest := Split(t[|w|..]);
      SplitAllWords(t[|w|..]);
      assert Split(s) == [w] + rest;
      assert forall i :: 0 <= i < |rest| ==> ([w] + rest)[i + 1] == rest[i];
    }
  }

  /** `re.sub(r'\s+', ' ', s)`: every maximal whitespace run becomes one ' '. */
  function Collapse(s: string): string
    decreases |s|
  {
    if s == [] then []
    else if IsSpace(s[0]) then
      " " + Collapse(SkipSpaces(s[1..]))
    else [s[0]] + Collapse(s[1..])
  }

  /** `re.sub(r'\s+', ' ', s).strip()`, the first step of `chunk_text`. */
  function Normalize(s: string): string
  {
    Strip(Collapse(s))
  }

  /** Two texts together are blank exactly when each is. */
  lemma BlankAppend(a: string, b: string)
    ensures Blank(a + b) <==> Blank(a) && Blank(b)
  {
    assert forall i :: 0 <= i < |a| ==> (a + b)[i] == a[i];
    assert forall i :: 0 <= i < |b| ==> (a + b)[|a| + i] == b[i];
  }

  // ---------------------------------------------------------------------
  // Lemmas about stripping

  /** `lstrip()` removes a whitespace-only prefix and keeps the rest. */
  lemma {:induction false} SkipSpacesShape(s: string)
    ensures var r := SkipSpaces(s); r == s[|s| - |r|..] && Blank(s[..|s| - |r|])
  {
    if s != [] && IsSpace(s[0]) {
      SkipSpacesShape(s[1..]);
      var r := SkipSpaces(s);
      assert s[|s| - |r|..] == s[1..][|s| - 1 - |r|..];
      assert s[..|s| - |r|] == [s[0]] + s[1..][..|s| - 1 - |r|];
    }
  }

  /** `rstrip()` removes a whitespace-only suffix and keeps the rest. */
  lemma {:induction false} StripRightShape(s: string)
    ensures var r := StripRight(s); r == s[..|r|] && Blank(s[|r|..])
  {
    if s != [] && IsSpace(s[|s| - 1]) {
      StripRightShape(s[..|s| - 1]);
      var r := StripRight(s);
      assert s[..|r|] == s[..|s| - 1][..|r|];
      assert s[|r|..] == s[..|s| - 1][|r|..] + [s[|s| - 1]];
    }
  }

  /** The word prefix is a prefix, has no whitespace, and stops at whitespace or the end. */
  lemma {:induction false} WordPrefixShape(s: string)
    ensures var w := WordPrefix(s);
      w == s[..|w|] && Solid(w) && (|w| == |s| || IsSpace(s[|w|]))
  {
    if s != [] && !IsSpace(s[0]) {
      WordPrefixShape(s[1..]);
      var w := WordPrefix(s);
      assert w == [s[0]] + WordPrefix(s[1..]);
      assert forall i :: 1 <= i < |w| ==> w[i] == WordPrefix(s[1..])[i - 1];
    }
  }

  lemma {:induction false} SkipBlankPrefix(p: string, y: string)
    requires Blank(p)
    requires y == [] || !IsSpace(y[0])
    ensures SkipSpaces(p + y) == y
  {
    if p != [] {
      assert (p + y)[1..] == p[1..] + y;
      SkipBlankPrefix(p[1..], y);
    }
  }

  lemma {:induction false} StripBlankSuffix(y: string, q: string)
    requires Blank(q)
    requires y == [] || !IsSpace(y[|y| - 1])
    ensures StripRight(y + q) == y
  {
    if q != [] {
      assert (y + q)[..|y + q| - 1] == y + q[..|q| - 1];
      StripBlankSuffix(y, q[..|q| - 1]);
    }
  }

  /** `strip()` removes whitespace padding and nothing else. */
  lemma StripPadded(p: string, x: string, q: string)
    requires Blank(p) && Blank(q)
    requires x == [] || (!IsSpace(x[0]) && !IsSpace(x[|x| - 1]))
    ensures Strip(p + x + q) == x
  {
    if x == [] {
      assert p + x + q == p + q;
      assert Blank(p + q);
      SkipSpacesEmptyIffBlank(p + q);
    } else {
      assert p + x + q == p + (x + q);
      SkipBlankPrefix(p, x + q);
      StripBlankSuffix(x, q);
    }
  }

  /** `not s.strip()` holds exactly of whitespace-only strings. */
  lemma StripEmptyIffBlank(s: string)
    ensures Strip(s) == [] <==> Blank(s)
  {
    var t := SkipSpaces(s);
    SkipSpacesEmptyIffBlank(s);
    StripRightShape(t);
    if Strip(s) == [] {
      assert t[0..] == t;
      assert Blank(t);
      assert t == [];
    }
  }

  lemma {:induction false} SkipSpacesEmptyIffBlank(s: string)
    ensures SkipSpaces(s) == [] <==> Blank(s)
  {
    if s != [] && IsSpace(s[0]) {
      SkipSpacesEmptyIffBlank(s[1..]);
      assert forall i :: 1 <= i < |s| ==> s[i] == s[1..][i - 1];
    }
  }

  // ---------------------------------------------------------------------
  // Lemmas about joining words with single spaces

  /** Words joined with single spaces are single-spaced. */
  lemma {:induction false} JoinedWordsSingleSpaced(ws: seq<string>)
    requires AllWords(ws)
    ensures SingleSpaced(JoinWith(" ", ws))
  {
    var n := |ws|;
    if n > 1 {
      var init := ws[..n - 1];
      var w := ws[n - 1];
      var left := JoinWith(" ", init);
      JoinedWordsSingleSpaced(init);
      var s := JoinWith(" ", ws);
      assert s == left + " " + w;
      assert IsWord(w);
      assert |left| > 0 by { JoinLongerThanPart(" ", init, 0); }
      SingleSpacedEnds(left);
      assert forall k :: 0 <= k < |left| ==> s[k] == left[k];
      assert s[|left|] == ' ';
      assert forall k :: |left| < k < |s| ==> s[k] == w[k - |left| - 1];
    }
  }

  /** A non-empty single-spaced string neither starts nor ends with whitespace. */
  lemma SingleSpacedEnds(s: string)
    requires SingleSpaced(s) && s != []
    ensures !IsSpace(s[0]) && !IsSpace(s[|s| - 1])
  {
  }

  lemma {:induction false} WordPrefixOfWord(w: string, t: string)
    requires Solid(w)
    requires t == [] || IsSpace(t[0])
    ensures WordPrefix(w + t) == w
  {
    if w != [] {
      assert (w + t)[0] == w[0];
      assert (w + t)[1..] == w[1..] + t;
      WordPrefixOfWord(w[1..], t);
    }
  }

  /** `split()` ignores leading whitespace. */
  lemma SplitSkipSpaces(s: string)
    ensures Split(SkipSpaces(s)) == Split(s)
  {
    var t := SkipSpaces(s);
    assert SkipSpaces(t) == t;
  }

  /** `split()` of a text that starts with a word: that word, then the words of the rest. */
  lemma SplitAtWord(s: string)
    requires s != [] && !IsSpace(s[0])
    ensures Split(s) == [WordPrefix(s)] + Split(s[|WordPrefix(s)|..])
  {
    assert SkipSpaces(s) == s;
  }

  /** `split()` undoes joining words with single spaces. */
  lemma {:induction false} SplitJoin(ws: seq<string>)
    requires AllWords(ws)
    ensures Split(JoinWith(" ", ws)) == ws
  {
    if |ws| == 1 {
      var w := ws[0];
      assert IsWord(w);
      WordPrefixOfWord(w, []);
      assert w + [] == w;
      SplitAtWord(w);
      assert w[|w|..] == [];
    } else if |ws| > 1 {
      var w := ws[0];
      var rest := ws[1..];
      assert ws == [w] + rest;
      assert IsWord(w);
      JoinPrepend(" ", w, rest);
      var x := JoinWith(" ", rest);
      JoinedWordsSingleSpaced(rest);
      assert x != [] by { JoinLongerThanPart(" ", rest, 0); }
      SingleSpacedEnds(x);
      var s := w + " " + x;
      assert s == w + (" " + x);
      WordPrefixOfWord(w, " " + x);
      SplitAtWord(s);
      assert s[|w|..] == " " + x;
      assert SkipSpaces(" " + x) == x by { SkipBlankPrefix(" ", x); }
      SplitSkipSpaces(" " + x);
      SplitJoin(rest);
    }
  }

  // ---------------------------------------------------------------------
  // Normalisation is joining the words

  lemma {:induction false} CollapseWord(w: string, t: string)
    requires Solid(w)
    ensures Collapse(w + t) == w + Collapse(t)
  {
    if w != [] {
      var s := w + t;
      assert s[0] == w[0] && !IsSpace(s[0]);
      assert s[1..] == w[1..] + t;
      CollapseWord(w[1..], t);
      assert Collapse(s) == [w[0]] + (w[1..] + Collapse(t));
      AppendAssoc(w[..1], w[1..], Collapse(t));
      assert w[..1] + w[1..] == w;
    } else {
      assert w + t == t;
    }
  }

  /**
   * After the substitution, a text that does not start with whitespace is
   * its words joined by single spaces, followed by at most some whitespace.
   */
  lemma {:induction false} CollapseShape(s: string) returns (q: string)
    requires s == [] || !IsSpace(s[0])
    ensures Blank(q)
    ensures Collapse(s) == JoinWith(" ", Split(s)) + q
    decreases |s|
  {
    if s == [] {
      q := [];
    } else {
      var w := WordPrefix(s);
      WordPrefixShape(s);
      var rest := s[|w|..];
      assert s == w + rest;
      SplitAtWord(s);
      CollapseWord(w, rest);
      if rest == [] {
        assert Split(s) == [w];
        q := [];
        assert Collapse(s) == w + [];
      } else {
        var q2 := CollapseShape(SkipSpaces(rest[1..]));
        q := CollapseAfterWord(w, rest, q2);
      }
    }
  }

  /** The step of `CollapseShape` past a word that whitespace follows. */
  lemma CollapseAfterWord(w: string, rest: string, q2: string) returns (q: string)
    requires rest != [] && IsSpace(rest[0]) && Blank(q2)
    requires Collapse(SkipSpaces(rest[1..])) == JoinWith(" ", Split(SkipSpaces(rest[1..]))) + q2
    ensures Blank(q)
    ensures w + Collapse(rest) == JoinWith(" ", [w] + Split(rest)) + q
  {
    var r2 := SkipSpaces(rest[1..]);
    assert SkipSpaces(rest) == r2;
    SplitSkipSpaces(rest);
    var ws := Split(rest);
    assert Collapse(rest) == " " + Collapse(r2);
    assert Collapse(r2) == JoinWith(" ", ws) + q2;
    if ws == [] {
      assert [w] + ws == [w];
      assert q2 == [] + q2;
      q := " " + q2;
      BlankAppend(" ", q2);
      AppendAssoc(w, " ", q2);
    } else {
      var j := JoinWith(" ", ws);
      JoinPrepend(" ", w, ws);
      q := q2;
      AppendAssoc(" ", j, q2);
      AppendAssoc(w, " " + j, q2);
      AppendAssoc(w, " ", j);
    }
  }

  /** `re.sub(r'\s+', ' ', s).strip()` is the words of `s` joined by single spaces. */
  lemma NormalizeIsJoinedWords(s: string)
    ensures Normalize(s) == JoinWith(" ", Split(s))
  {
    if s != [] && IsSpace(s[0]) {
      var t := SkipSpaces(s[1..]);
      assert SkipSpaces(s) == t;
      SplitSkipSpaces(s);
      assert Collapse(s) == " " + Collapse(t);
      StripLeadingSpace(Collapse(t));
      NormalizeWordFirst(t);
    } else {
      NormalizeWordFirst(s);
    }
  }

  /** `NormalizeIsJoinedWords` for a text that does not start with whitespace. */
  lemma NormalizeWordFirst(s: string)
    requires s == [] || !IsSpace(s[0])
    ensures Normalize(s) == JoinWith(" ", Split(s))
  {
    var x := JoinWith(" ", Split(s));
    SplitAllWords(s);
    JoinedWordsSingleSpaced(Split(s));
    if x != [] { SingleSpacedEnds(x); }
    var q := CollapseShape(s);
    assert [] + x == x;
    assert [] + x + q == Collapse(s);
    StripPadded([], x, q);
  }

  lemma StripLeadingSpace(y: string)
    ensures Strip(" " + y) == Strip(y)
  {
    assert (" " + y)[1..] == y;
  }

  /** Normalising keeps exactly the words: none lost, duplicated or reordered. */
  lemma NormalizeKeepsWords(s: string)
    ensures Split(Normalize(s)) == Split(s)
    ensures SingleSpaced(Normalize(s))
  {
    NormalizeIsJoinedWords(s);
    SplitAllWords(s);
    SplitJoin(Split(s));
    JoinedWordsSingleSpaced(Split(s));
  }

  /** A text has no words exactly when it is whitespace only. */
  lemma NoWordsIffBlank(s: string)
    ensures Split(s) == [] <==> Blank(s)
  {
    SkipSpacesEmptyIffBlank(s);
  }

  /** Normalisation yields "" exactly for whitespace-only text. */
  lemma NormalizeEmptyIffBlank(s: string)
    ensures Normalize(s) == [] <==> Blank(s)
  {
    NormalizeIsJoinedWords(s);
    NoWordsIffBlank(s);
    var ws := Split(s);
    if ws != [] {
      JoinLongerThanPart(" ", ws, 0);
    }
  }

  lemma {:induction false} CollapseSingleSpaced(c: string)
    requires forall i :: 0 <= i < |c| && IsSpace(c[i]) ==> c[i] == ' ' && (i + 1 < |c| ==> !IsSpace(c[i + 1]))
    ensures Collapse(c) == c
  {
    if c != [] {
      var rest := c[1..];
      assert forall i :: 0 <= i < |rest| ==> rest[i] == c[i + 1];
      if IsSpace(c[0]) {
        assert SkipSpaces(rest) == rest;
      }
      CollapseSingleSpaced(rest);
      assert c == [c[0]] + rest;
    }
  }

  /** A single-spaced string is its own normal form: the words it splits into rejoin to it. */
  lemma SingleSpacedIsJoinedWords(c: string)
    requires SingleSpaced(c)
    ensures JoinWith(" ", Split(c)) == c
  {
    CollapseSingleSpaced(c);
    if c != [] {
      SingleSpacedEnds(c);
    }
    StripPadded([], c, []);
    assert [] + c + [] == c;
    assert Collapse(c) == c;
    assert Normalize(c) == Strip(c);
    NormalizeIsJoinedWords(c);
  }

  // ---------------------------------------------------------------------
  // The browser's whitespace

  /** The characters JavaScript's `String.prototype.trim` removes. */
  predicate IsJsSpace(c: char)
  {
    ('\U{0009}' <= c <= '\U{000D}') || c == ' ' || c == '\U{00A0}' || c == '\U{1680}' ||
    ('\U{2000}' <= c <= '\U{200A}') || c == '\U{2028}' || c == '\U{2029}' ||
    c == '\U{202F}' || c == '\U{205F}' || c == '\U{3000}' || c == '\U{FEFF}'
  }

  predicate JsBlank(s: string)
  {
    forall i :: 0 <= i < |s| ==> IsJsSpace(s[i])
  }

  /** `s` without its leading JavaScript whitespace. */
  function JsTrimStart(s: string): (r: string)
    ensures |r| <= |s|
    ensures r == [] || !IsJsSpace(r[0])
  {
    if s != [] && IsJsSpace(s[0]) then JsTrimStart(s[1..]) else s
  }

  /** `trimStart()` removes a prefix of JavaScript whitespace and keeps the rest. */
  lemma {:induction false} JsTrimStartShape(s: string)
    ensures var r := JsTrimStart(s); r == s[|s| - |r|..] && JsBlank(s[..|s| - |r|])
  {
    if s != [] && IsJsSpace(s[0]) {
      JsTrimStartShape(s[1..]);
      var r := JsTrimStart(s);
      assert s[|s| - |r|..] == s[1..][|s| - 1 - |r|..];
      assert s[..|s| - |r|] == [s[0]] + s[1..][..|s| - 1 - |r|];
    }
  }

  /** `s` without its trailing JavaScript whitespace. */
  function JsTrimEnd(s: string): (r: string)
    ensures |r| <= |s|
    ensures r == [] || !IsJsSpace(r[|r| - 1])
  {
    if s != [] && IsJsSpace(s[|s| - 1]) then JsTrimEnd(s[..|s| - 1]) else s
  }

  /** `trimEnd()` removes a suffix of JavaScript whitespace and keeps the rest. */
  lemma {:induction false} JsTrimEndShape(s: string)
    ensures var r := JsTrimEnd(s); r == s[..|r|] && JsBlank(s[|r|..])
  {
    if s != [] && IsJsSpace(s[|s| - 1]) {
      JsTrimEndShape(s[..|s| - 1]);
      var r := JsTrimEnd(s);
      assert s[..|r|] == s[..|s| - 1][..|r|];
      assert s[|r|..] == s[..|s| - 1][|r|..] + [s[|s| - 1]];
    }
  }

  /** JavaScript's `s.trim()`: both ends stripped of JavaScript whitespace. */
  function JsTrim(s: string): (r: string)
    ensures |r| <= |s|
    ensures r == [] || (!IsJsSpace(r[0]) && !IsJsSpace(r[|r| - 1]))
  {
    var t := JsTrimStart(s);
    JsTrimEndShape(t);
    JsTrimEnd(t)
  }

  lemma {:induction false} JsTrimStartEmptyIffBlank(s: string)
    ensures JsTrimStart(s) == [] <==> JsBlank(s)
  {
    if s != [] && IsJsSpace(s[0]) {
      JsTrimStartEmptyIffBlank(s[1..]);
      assert forall i :: 1 <= i < |s| ==> s[i] == s[1..][i - 1];
    }
  }

  /** `!s.trim()` holds exactly of text made only of JavaScript whitespace. */
  lemma JsTrimEmptyIffBlank(s: string)
    ensures JsTrim(s) == [] <==> JsBlank(s)
  {
    var t := JsTrimStart(s);
    JsTrimStartEmptyIffBlank(s);
    JsTrimEndShape(t);
    if JsTrim(s) == [] {
      assert t[0..] == t;
      assert JsBlank(t);
      assert t == [];
    }
  }
}
