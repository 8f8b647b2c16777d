/** Python's `str` operations that the conversation memory and the reply cleaner rely on:
    whitespace splitting, joining, stripping a set of characters, ASCII lower-casing,
    substring search and `split(sep)[0]`. */
module Text {

  /** The characters for which Python's `str.isspace()` holds. `str.split()` and
      `str.strip()` with no argument treat exactly these as whitespace. */
  const Whitespace: set<char> := {
    '\t', '\n', '\U{B}', '\U{C}', '\r', '\U{1C}', '\U{1D}', '\U{1E}', '\U{1F}', ' ',
    '\U{85}', '\U{A0}', '\U{1680}',
    '\U{2000}', '\U{2001}', '\U{2002}', '\U{2003}', '\U{2004}', '\U{2005}',
    '\U{2006}', '\U{2007}', '\U{2008}', '\U{2009}', '\U{200A}',
    '\U{2028}', '\U{2029}', '\U{202F}', '\U{205F}', '\U{3000}'
  }

  predicate HasNoSpace(w: string)
  {
    forall i :: 0 <= i < |w| ==> w[i] !in Whitespace
  }

  /** A word in the sense of `str.split()`: a non-empty run of non-whitespace. */
  predicate IsWord(w: string)
  {
    w != [] && HasNoSpace(w)
  }

  /** Every character of `r` occurs in `s`. */
  predicate CharsWithin(r: string, s: string)
  {
    forall j :: 0 <= j < |r| ==> r[j] in s
  }

  // ---------------------------------------------------------------------------
  // Splitting on whitespace and joining

  /** The longest whitespace-free prefix of `s`. */
  function LeadingWord(s: string): (w: string)
    ensures w <= s
    ensures HasNoSpace(w)
    ensures |w| == |s| || s[|w|] in Whitespace
  {
    if s == [] || s[0] in Whitespace then [] else [s[0]] + LeadingWord(s[1..])
  }

  /** Python's `s.split()`: the maximal runs of non-whitespace characters, left to right. */
  function Split(s: string): (ws: seq<string>)
    ensures forall i :: 0 <= i < |ws| ==> IsWord(ws[i])
    decreases |s|
  {
    if s == [] then []
    else if s[0] in Whitespace then Split(s[1..])
    else
      var w := LeadingWord(s);
      [w] + Split(s[|w|..])
  }

  /** Every word of `s` is made of characters of `s`. */
  lemma {:induction false} SplitCharsWithin(s: string)
    ensures forall i :: 0 <= i < |Split(s)| ==> CharsWithin(Split(s)[i], s)
    decreases |s|
  {
    if s == [] {
    } else if s[0] in Whitespace {
      SplitCharsWithin(s[1..]);
      forall i, j | 0 <= i < |Split(s)| && 0 <= j < |Split(s)[i]| ensures Split(s)[i][j] in s {
        assert Split(s)[i][j] in s[1..];
      }
    } else {
      var w := LeadingWord(s);
      var rest := s[|w|..];
      SplitCharsWithin(rest);
      assert Split(s) == [w] + Split(rest);
      forall i, j | 0 <= i < |Split(s)| && 0 <= j < |Split(s)[i]| ensures Split(s)[i][j] in s {
        if i == 0 {
          assert Split(s)[i][j] == s[j];
        } else {
          assert Split(s)[i] == Split(rest)[i - 1];
          var k :| 0 <= k < |rest| && rest[k] == Split(s)[i][j];
          assert rest[k] == s[|w| + k];
        }
      }
    }
  }

  /** Python's `sep.join(ws)`. */
  function Join(ws: seq<string>, sep: string): string
  {
    if ws == [] then []
    else if |ws| == 1 then ws[0]
    else ws[0] + sep + Join(ws[1..], sep)
  }

  /** The only whitespace in `p` is single spaces, each between two non-whitespace
      characters: no tab or newline, no run of spaces, no space at either end. */
  predicate SingleSpaced(p: string)
  {
    forall i :: 0 <= i < |p| && p[i] in Whitespace ==>
      p[i] == ' ' && 0 < i < |p| - 1 && p[i - 1] !in Whitespace && p[i + 1] !in Whitespace
  }

  /** Words joined by single spaces are single-spaced and start and end with a word. */
  lemma {:induction false} JoinSingleSpaced(ws: seq<string>)
    requires forall i :: 0 <= i < |ws| ==> IsWord(ws[i])
    ensures SingleSpaced(Join(ws, " "))
    ensures ws != [] ==> Join(ws, " ") != [] && Join(ws, " ")[0] !in Whitespace
    ensures ws != [] ==> Join(ws, " ") != [] && Join(ws, " ")[|Join(ws, " ")| - 1] !in Whitespace
  {
    if |ws| > 1 {
      JoinSingleSpaced(ws[1..]);
      SingleSpacedCons(ws[0], Join(ws[1..], " "));
    }
  }

  /** A word, a space and a non-empty single-spaced text that starts and ends with
      non-whitespace make a single-spaced text. */
  lemma SingleSpacedCons(w: string, j: string)
    requires IsWord(w) && SingleSpaced(j)
    requires j != [] && j[0] !in Whitespace && j[|j| - 1] !in Whitespace
    ensures SingleSpaced(w + " " + j)
    ensures (w + " " + j)[0] !in Whitespace && (w + " " + j)[|w + " " + j| - 1] !in Whitespace
  {
    var s := w + " " + j;
    assert forall k :: 0 <= k < |w| ==> s[k] == w[k];
    forall i | 0 <= i < |s| && s[i] in Whitespace
      ensures s[i] == ' ' && 0 < i < |s| - 1 && s[i - 1] !in Whitespace && s[i + 1] !in Whitespace
    {
      if i < |w| {
        assert false;
      } else if i == |w| {
        assert s[i - 1] == w[|w| - 1] && s[i + 1] == j[0];
      } else {
        var k := i - |w| - 1;
        assert s[i] == j[k];
        assert s[i - 1] == j[k - 1] && s[i + 1] == j[k + 1];
      }
    }
    assert s[0] == w[0] && s[|s| - 1] == j[|j| - 1];
  }

  /** A suffix of a single-spaced text that starts with non-whitespace is single-spaced. */
  lemma SingleSpacedSuffix(p: string, k: nat)
    requires SingleSpaced(p) && k < |p| && p[k] !in Whitespace
    ensures SingleSpaced(p[k..])
  {
    var t := p[k..];
    forall i | 0 <= i < |t| && t[i] in Whitespace
      ensures t[i] == ' ' && 0 < i < |t| - 1 && t[i - 1] !in Whitespace && t[i + 1] !in Whitespace
    {
      assert t[i] == p[k + i];
      assert i > 0;
      assert t[i - 1] == p[k + i - 1] && t[i + 1] == p[k + i + 1];
    }
  }

  /** A single-spaced text is determined by its words: it is its words joined by single
      spaces. */
  lemma {:induction false} SingleSpacedJoinSplit(p: string)
    requires SingleSpaced(p)
    ensures Join(Split(p), " ") == p
    decreases |p|
  {
    if p != [] {
      assert p[0] !in Whitespace;
      if |LeadingWord(p)| == |p| {
        assert p[|LeadingWord(p)|..] == [];
        assert LeadingWord(p) == p;
      } else {
        SingleSpacedStep(p);
        SingleSpacedJoinSplit(p[|LeadingWord(p)| + 1..]);
        JoinCons(LeadingWord(p), Split(p[|LeadingWord(p)| + 1..]), " ");
      }
    }
  }

  /** A single-spaced text with more than one word is its first word, one space, and a
      single-spaced rest whose words are the remaining ones. */
  lemma SingleSpacedStep(p: string)
    requires SingleSpaced(p) && p != [] && |LeadingWord(p)| < |p|
    ensures |LeadingWord(p)| + 1 < |p|
    ensures p == LeadingWord(p) + " " + p[|LeadingWord(p)| + 1..]
    ensures SingleSpaced(p[|LeadingWord(p)| + 1..])
    ensures Split(p) == [LeadingWord(p)] + Split(p[|LeadingWord(p)| + 1..])
    ensures Split(p[|LeadingWord(p)| + 1..]) != []
  {
    var w := LeadingWord(p);
    var t := p[|w| + 1..];
    assert p[0] !in Whitespace;
    assert p[|w|] in Whitespace;
    assert p == w + " " + t;
    SingleSpacedSuffix(p, |w| + 1);
    assert Split(p) == [w] + Split(p[|w|..]);
    assert p[|w|..][1..] == t;
    assert Split(t) == [LeadingWord(t)] + Split(t[|LeadingWord(t)|..]);
  }

  /** Joining puts the separator between the first string and the join of the rest. */
  lemma JoinCons(w: string, ws: seq<string>, sep: string)
    requires ws != []
    ensures Join([w] + ws, sep) == w + sep + Join(ws, sep)
  {
    assert ([w] + ws)[1..] == ws;
  }

  /** The leading word stops at the first whitespace character. */
  lemma {:induction false} LeadingWordBeforeSpace(w: string, c: string)
    requires HasNoSpace(w)
    requires c == [] || c[0] in Whitespace
    ensures LeadingWord(w + c) == w
  {
    if w != [] {
      assert (w + c)[1..] == w[1..] + c;
      LeadingWordBeforeSpace(w[1..], c);
    } else {
      assert w + c == c;
    }
  }

  /** Joining words with single spaces and splitting again gives the words back. */
  lemma {:induction false} SplitJoin(ws: seq<string>)
    requires forall i :: 0 <= i < |ws| ==> IsWord(ws[i])
    ensures Split(Join(ws, " ")) == ws
  {
    if ws != [] {
      var rest: string := if |ws| == 1 then [] else " " + Join(ws[1..], " ");
      var s := Join(ws, " ");
      assert s == ws[0] + rest;
      LeadingWordBeforeSpace(ws[0], rest);
      assert s[|ws[0]|..] == rest;
      assert Split(s) == [ws[0]] + Split(rest);
      if |ws| > 1 {
        assert rest[1..] == Join(ws[1..], " ");
        SplitJoin(ws[1..]);
      }
    }
  }

  /** A single word splits into itself. */
  lemma SplitWord(w: string)
    requires IsWord(w)
    ensures Split(w) == [w]
  {
    SplitJoin([w]);
  }

  /** The words of `a + [c] + b`, for a whitespace character `c`, are the words of `a`
      followed by the words of `b`. With `Split([]) == []` and `SplitWord`, this fixes
      `Split` on every string. */
  lemma {:induction false} SplitAroundWhitespace(a: string, c: char, b: string)
    requires c in Whitespace
    ensures Split(a + [c] + b) == Split(a) + Split(b)
    decreases |a|
  {
    if a == [] {
      assert (a + [c] + b)[1..] == b;
    } else if a[0] in Whitespace {
      assert (a + [c] + b)[1..] == a[1..] + [c] + b;
      SplitAroundWhitespace(a[1..], c, b);
    } else {
      SplitAfterWord(a, [c] + b);
      assert a + [c] + b == a + ([c] + b);
      SplitAroundWhitespace(a[|LeadingWord(a)|..], c, b);
      assert a[|LeadingWord(a)|..] + ([c] + b) == a[|LeadingWord(a)|..] + [c] + b;
    }
  }

  /** The words of `a + " " + b` are the words of `a` followed by the words of `b`. */
  lemma SplitAroundSpace(a: string, b: string)
    ensures Split(a + " " + b) == Split(a) + Split(b)
  {
    SplitAroundWhitespace(a, ' ', b);
  }

  /** Text appended after a space does not change the first word of `a`. */
  lemma SplitAfterWord(a: string, c: string)
    requires a != [] && a[0] !in Whitespace
    requires c != [] && c[0] in Whitespace
    ensures Split(a + c) == [LeadingWord(a)] + Split(a[|LeadingWord(a)|..] + c)
  {
    var w := LeadingWord(a);
    var rest := a[|w|..];
    assert a + c == w + (rest + c);
    LeadingWordBeforeSpace(w, rest + c);
    assert (a + c)[|w|..] == rest + c;
    SplitFromWord(a + c);
  }

  /** A text that starts with non-whitespace splits into its leading word and the words
      of the rest. */
  lemma SplitFromWord(s: string)
    requires s != [] && s[0] !in Whitespace
    ensures Split(s) == [LeadingWord(s)] + Split(s[|LeadingWord(s)|..])
  {
  }

  /** Appending text to the last of several joined words. */
  lemma {:induction false} JoinExtendLast(ws: seq<string>, sep: string, x: string)
    requires ws != []
    ensures Join(ws, sep) + x == Join(ws[..|ws| - 1] + [ws[|ws| - 1] + x], sep)
  {
    var ws' := ws[..|ws| - 1] + [ws[|ws| - 1] + x];
    if |ws| > 1 {
      assert ws'[1..] == ws[1..][..|ws| - 2] + [ws[|ws| - 1] + x];
      JoinExtendLast(ws[1..], sep, x);
    }
  }

  // ---------------------------------------------------------------------------
  // Stripping

  /** `r` is empty or neither starts nor ends with a character of `cs`. */
  predicate IsStripped(r: string, cs: set<char>)
  {
    r == [] || (r[0] !in cs && r[|r| - 1] !in cs)
  }

  /** How many leading characters of `s` belong to `cs`. */
  function LeadCount(s: string, cs: set<char>): (k: nat)
    ensures k <= |s|
    ensures forall i :: 0 <= i < k ==> s[i] in cs
    ensures k == |s| || s[k] !in cs
  {
    if s != [] && s[0] in cs then
      var k := LeadCount(s[1..], cs);
      assert forall i :: 1 <= i < k + 1 ==> s[i] == s[1..][i - 1];
      k + 1
    else 0
  }

  /** How many trailing characters of `s` belong to `cs`. */
  function TrailCount(s: string, cs: set<char>): (k: nat)
    ensures k <= |s|
    ensures forall i :: |s| - k <= i < |s| ==> s[i] in cs
    ensures k == |s| || s[|s| - k - 1] !in cs
  {
    if s != [] && s[|s| - 1] in cs then
      var k := TrailCount(s[..|s| - 1], cs);
      assert forall i :: |s| - 1 - k <= i < |s| - 1 ==> s[i] == s[..|s| - 1][i];
      k + 1
    else 0
  }

  /** Python's `s.lstrip(cs)`. */
  function TrimLeft(s: string, cs: set<char>): (r: string)
    ensures |r| <= |s|
    ensures r == s[|s| - |r|..]
    ensures forall i :: 0 <= i < |s| - |r| ==> s[i] in cs
    ensures r == [] || r[0] !in cs
  {
    s[LeadCount(s, cs)..]
  }

  /** Python's `s.rstrip(cs)`. */
  function TrimRight(s: string, cs: set<char>): (r: string)
    ensures |r| <= |s|
    ensures r == s[..|r|]
    ensures forall i :: |r| <= i < |s| ==> s[i] in cs
    ensures r == [] || r[|r| - 1] !in cs
  {
    s[..|s| - TrailCount(s, cs)]
  }

  /** Python's `s.strip(cs)`: removes the longest runs of characters of `cs` at both ends. */
  function StripChars(s: string, cs: set<char>): (r: string)
    ensures IsStripped(r, cs)
    ensures IsStripped(s, cs) ==> r == s
    ensures r == [] <==> forall i :: 0 <= i < |s| ==> s[i] in cs
    ensures CharsWithin(r, s)
    ensures LeadCount(s, cs) + |r| <= |s|
    ensures r == s[LeadCount(s, cs)..LeadCount(s, cs) + |r|]
    ensures forall k :: LeadCount(s, cs) + |r| <= k < |s| ==> s[k] in cs
  {
    StripMiddle(s, cs);
    StripEnds(s, cs);
    TrimRight(TrimLeft(s, cs), cs)
  }

  /** Stripping keeps a contiguous middle part, after the leading run and before a
      trailing run of characters of the set. */
  lemma StripMiddle(s: string, cs: set<char>)
    ensures TrimLeft(s, cs) == s[LeadCount(s, cs)..]
    ensures LeadCount(s, cs) + |TrimRight(TrimLeft(s, cs), cs)| <= |s|
    ensures TrimRight(TrimLeft(s, cs), cs) ==
      s[LeadCount(s, cs)..LeadCount(s, cs) + |TrimRight(TrimLeft(s, cs), cs)|]
    ensures forall k :: LeadCount(s, cs) + |TrimRight(TrimLeft(s, cs), cs)| <= k < |s| ==> s[k] in cs
    ensures CharsWithin(TrimRight(TrimLeft(s, cs), cs), s)
  {
    var n := LeadCount(s, cs);
    var l := TrimLeft(s, cs);
    var r := TrimRight(l, cs);
    assert l == s[n..];
    forall k | n + |r| <= k < |s| ensures s[k] in cs {
      assert s[k] == l[k - n];
    }
    forall j | 0 <= j < |r| ensures r[j] in s {
      assert r[j] == s[n + j];
    }
  }

  /** The stripped text is empty exactly when every character is in the set, and is
      the text itself when that was already stripped. */
  lemma StripEnds(s: string, cs: set<char>)
    ensures (TrimRight(TrimLeft(s, cs), cs) == []) <==> forall i :: 0 <= i < |s| ==> s[i] in cs
    ensures IsStripped(s, cs) ==> TrimRight(TrimLeft(s, cs), cs) == s
  {
    var l := TrimLeft(s, cs);
    if TrimRight(l, cs) == [] {
      assert l == [];
    }
    if IsStripped(s, cs) && s != [] {
      assert l == s;
    }
  }

  lemma {:induction false} StripKeepsStrippedStart(s: string, cs: set<char>)
    requires s != [] && s[0] !in cs
    ensures StripChars(s, cs) == TrimRight(s, cs)
  {
    assert TrimLeft(s, cs) == s;
  }

  lemma TrimRightDropsLast(w: string, c: char, cs: set<char>)
    requires w != [] && w[|w| - 1] !in cs
    requires c in cs
    ensures TrimRight(w + [c], cs) == w
  {
    assert (w + [c])[..|w|] == w;
  }

  /** A stripped word followed by one stripped character strips back to the word. */
  lemma StripTrailingChar(w: string, c: char, cs: set<char>)
    requires w != [] && w[0] !in cs && w[|w| - 1] !in cs
    requires c in cs
    ensures StripChars(w + [c], cs) == w
  {
    StripKeepsStrippedStart(w + [c], cs);
    TrimRightDropsLast(w, c, cs);
  }

  /** Stripping a text that starts with non-whitespace keeps everything up to any
      non-whitespace character. */
  lemma StripKeepsUpTo(x: string, i: nat)
    requires i < |x| && x[0] !in Whitespace && x[i] !in Whitespace
    ensures x[..i + 1] <= Strip(x)
  {
    StripKeepsStrippedStart(x, Whitespace);
  }

  /** Stripping a text that starts with non-whitespace ends it at its last
      non-whitespace character. */
  lemma StripToLast(x: string, i: nat)
    requires 0 < i <= |x| && x[0] !in Whitespace && x[i - 1] !in Whitespace
    requires forall k :: i <= k < |x| ==> x[k] in Whitespace
    ensures Strip(x) == x[..i]
  {
    StripKeepsStrippedStart(x, Whitespace);
  }

  /** Leading whitespace is counted past a blank prefix. */
  lemma {:induction false} LeadCountAfterBlank(l: string, y: string, cs: set<char>)
    requires forall k :: 0 <= k < |l| ==> l[k] in cs
    ensures LeadCount(l + y, cs) == |l| + LeadCount(y, cs)
  {
    if l != [] {
      assert (l + y)[1..] == l[1..] + y;
      LeadCountAfterBlank(l[1..], y, cs);
    } else {
      assert l + y == y;
    }
  }

  /** A blank prefix makes no difference to stripping. */
  lemma StripAfterBlank(l: string, y: string)
    requires forall k :: 0 <= k < |l| ==> l[k] in Whitespace
    ensures Strip(l + y) == Strip(y)
  {
    LeadCountAfterBlank(l, y, Whitespace);
    assert TrimLeft(l + y, Whitespace) == TrimLeft(y, Whitespace);
  }

  /** Python's `s.strip()` with no argument. */
  function Strip(s: string): string
  {
    StripChars(s, Whitespace)
  }

  // ---------------------------------------------------------------------------
  // Lower-casing

  predicate IsUpper(c: char)
  {
    'A' <= c <= 'Z'
  }

  function LowerChar(c: char): (d: char)
    ensures !IsUpper(d)
  {
    if IsUpper(c) then (c as int + 32) as char else c
  }

  /** Python's `s.lower()` restricted to ASCII letters. */
  function Lower(s: string): (r: string)
    ensures |r| == |s|
    ensures forall i :: 0 <= i < |s| ==> r[i] == LowerChar(s[i])
  {
    seq(|s|, i requires 0 <= i < |s| => LowerChar(s[i]))
  }

  lemma LowerConcat(a: string, b: string)
    ensures Lower(a + b) == Lower(a) + Lower(b)
  {
  }

  // ---------------------------------------------------------------------------
  // Substrings

  /** Python's `t in s` for strings. */
  predicate Contains(s: string, t: string)
    decreases |s|
  {
    t <= s || (s != [] && Contains(s[1..], t))
  }

  lemma {:induction false} ContainsInSuffix(s: string, k: nat, t: string)
    requires k <= |s|
    requires Contains(s[k..], t)
    ensures Contains(s, t)
  {
    if k > 0 {
      assert s[1..][k - 1..] == s[k..];
      ContainsInSuffix(s[1..], k - 1, t);
    }
  }

  lemma {:induction false} ContainsInPrefix(s: string, p: string, t: string)
    requires p <= s
    requires Contains(p, t)
    ensures Contains(s, t)
    decreases |p|
  {
    if !(t <= p) {
      assert p[1..] <= s[1..];
      ContainsInPrefix(s[1..], p[1..], t);
    }
  }

  /** A non-empty string that occurs in `s` starts with a character of `s`. */
  lemma {:induction false} ContainsHead(s: string, t: string)
    requires t != []
    requires Contains(s, t)
    ensures t[0] in s
    decreases |s|
  {
    if !(t <= s) {
      ContainsHead(s[1..], t);
    }
  }

  /** Stripping never creates an occurrence of a substring. */
  lemma StripKeepsOnlyOccurrences(s: string, cs: set<char>, t: string)
    requires Contains(StripChars(s, cs), t)
    ensures Contains(s, t)
  {
    var l := TrimLeft(s, cs);
    ContainsInPrefix(l, StripChars(s, cs), t);
    ContainsInSuffix(s, |s| - |l|, t);
  }

  /** Python's `s.split(t)[0]`: the part of `s` before the first occurrence of `t`,
      or all of `s` when `t` does not occur. */
  function BeforeFirst(s: string, t: string): (r: string)
    requires t != []
    ensures r <= s
    ensures forall k :: 0 <= k < |r| ==> !(t <= s[k..])
    ensures Contains(s, t) ==> r + t <= s
    ensures !Contains(s, t) ==> r == s
    decreases |s|
  {
    if s == [] || t <= s then []
    else
      var r := [s[0]] + BeforeFirst(s[1..], t);
      assert forall k :: 1 <= k < |r| ==> s[k..] == s[1..][k - 1..];
      r
  }

  /** The part before the first occurrence does not contain the searched string. */
  lemma {:induction false} BeforeFirstExcludes(s: string, t: string)
    requires t != []
    ensures !Contains(BeforeFirst(s, t), t)
  {
    var r := BeforeFirst(s, t);
    forall k | 0 <= k <= |r| ensures !(t <= r[k..]) {
      if k < |r| {
        assert r[k..] <= s[k..];
      }
    }
    if Contains(r, t) {
      OccurrenceExists(r, t);
    }
  }

  /** A position at which `t` occurs in `s`, when it does. */
  lemma {:induction false} OccurrenceExists(s: string, t: string)
    requires Contains(s, t)
    ensures exists k :: 0 <= k <= |s| && t <= s[k..]
    decreases |s|
  {
    if t <= s {
      assert s[0..] == s;
    } else {
      OccurrenceExists(s[1..], t);
      var k :| 0 <= k <= |s[1..]| && t <= s[1..][k..];
      assert s[1..][k..] == s[k + 1..];
    }
  }
}
