/** The post-processing of a generated reply: the reply is stripped, cut before the
    first occurrence of each end marker in turn, stripped again after every cut, and
    replaced by a fixed fallback sentence when nothing is left. */
module ModelLoader {
  import opened Text

  /** The end markers, in the order in which they are tried. */
  const Separators: seq<string> := ["\n", "<|endoftext|>", "</s>", "<|im_end|>"]

  /** The reply used when cleaning leaves nothing. */
  const DefaultReply := "I'm not sure how to answer that."

  /** `r` contains none of the strings of `seps`. */
  predicate FreeOf(r: string, seps: seq<string>)
  {
    forall i :: 0 <= i < |seps| ==> !Contains(r, seps[i])
  }

  /** One round of the cleaning loop: when `sep` occurs, keep the stripped part before it. */
  function CutAt(r: string, sep: string): string
    requires sep != []
  {
    if Contains(r, sep) then Strip(BeforeFirst(r, sep)) else r
  }

  /** Stripping a prefix of a stripped string gives a prefix of it. */
  lemma StripPrefixOfStripped(r: string, p: string)
    requires IsStripped(r, Whitespace)
    requires p <= r
    ensures Strip(p) <= r
  {
    var l := TrimLeft(p, Whitespace);
    if p != [] {
      assert p[0] == r[0];
      assert l == p;
    }
    assert Strip(p) == TrimRight(l, Whitespace);
  }

  /** What one round guarantees: the marker is gone, the text stays stripped and is a
      prefix of what it was, and no other string starts occurring. */
  lemma CutAtFacts(r: string, sep: string)
    requires sep != []
    requires IsStripped(r, Whitespace)
    ensures !Contains(CutAt(r, sep), sep)
    ensures IsStripped(CutAt(r, sep), Whitespace)
    ensures CutAt(r, sep) <= r
    ensures forall t :: !Contains(r, t) ==> !Contains(CutAt(r, sep), t)
    ensures Contains(r, sep) ==>
      exists k :: 0 <= k <= |r| && sep <= r[k..] && (forall j :: 0 <= j < k ==> !(sep <= r[j..])) &&
        CutAt(r, sep) == Strip(r[..k])
  {
    if Contains(r, sep) {
      var b := BeforeFirst(r, sep);
      assert b == r[..|b|] && sep <= r[|b|..];
      var c := Strip(b);
      StripPrefixOfStripped(r, b);
      BeforeFirstExcludes(r, sep);
      if Contains(c, sep) {
        StripKeepsOnlyOccurrences(b, Whitespace, sep);
      }
      forall t | Contains(c, t) ensures Contains(r, t) {
        ContainsInPrefix(r, c, t);
      }
    }
  }

  /** The cleaning loop over a list of markers. */
  function CutAll(r: string, seps: seq<string>): (c: string)
    requires forall i :: 0 <= i < |seps| ==> seps[i] != []
    decreases |seps|
  {
    if seps == [] then r else CutAll(CutAt(r, seps[0]), seps[1..])
  }

  /** The loop leaves a stripped prefix of its input that contains none of the markers,
      and leaves a text with none of the markers unchanged. */
  lemma {:induction false} CutAllFacts(r: string, seps: seq<string>)
    requires forall i :: 0 <= i < |seps| ==> seps[i] != []
    requires IsStripped(r, Whitespace)
    ensures FreeOf(CutAll(r, seps), seps)
    ensures IsStripped(CutAll(r, seps), Whitespace)
    ensures CutAll(r, seps) <= r
    ensures forall t :: !Contains(r, t) ==> !Contains(CutAll(r, seps), t)
    ensures FreeOf(r, seps) ==> CutAll(r, seps) == r
    decreases |seps|
  {
    if seps != [] {
      CutAtFacts(r, seps[0]);
      CutAllFacts(CutAt(r, seps[0]), seps[1..]);
      FreeOfCons(CutAll(r, seps), seps);
      if FreeOf(r, seps) {
        FreeOfTail(r, seps);
      }
    }
  }

  /** Free of the first marker and of the rest is free of all of them. */
  lemma FreeOfCons(d: string, seps: seq<string>)
    requires seps != [] && !Contains(d, seps[0]) && FreeOf(d, seps[1..])
    ensures FreeOf(d, seps)
  {
    forall i | 0 <= i < |seps| ensures !Contains(d, seps[i]) {
      if i > 0 {
        assert seps[i] == seps[1..][i - 1];
      }
    }
  }

  /** Free of all markers is free of the rest and of the first. */
  lemma FreeOfTail(r: string, seps: seq<string>)
    requires seps != [] && FreeOf(r, seps)
    ensures FreeOf(r, seps[1..]) && !Contains(r, seps[0])
  {
    forall i | 0 <= i < |seps| - 1 ensures !Contains(r, seps[1..][i]) {
      assert seps[1..][i] == seps[i + 1];
    }
  }

  /** No marker occurs in the fallback reply, because none of their first characters does. */
  lemma DefaultReplyClean()
    ensures FreeOf(DefaultReply, Separators)
    ensures IsStripped(DefaultReply, Whitespace)
    ensures DefaultReply != []
  {
    forall i | 0 <= i < |Separators| ensures !Contains(DefaultReply, Separators[i]) {
      var sep := Separators[i];
      assert sep[0] == '\n' || sep[0] == '<';
      assert sep[0] !in DefaultReply;
      if Contains(DefaultReply, sep) {
        ContainsHead(DefaultReply, sep);
      }
    }
  }

  /** The cleaned reply: never empty, without leading or trailing whitespace, free of
      every end marker, and either the fallback sentence or a prefix of the stripped
      input, which it equals exactly when that input was already clean. */
  function CleanResponse(response: string): (r: string)
    ensures r != []
    ensures IsStripped(r, Whitespace)
    ensures FreeOf(r, Separators)
    ensures r == DefaultReply || r <= Strip(response)
    ensures r == Strip(response) <==> Strip(response) != [] && FreeOf(Strip(response), Separators)
  {
    var s := Strip(response);
    CutAllFacts(s, Separators);
    DefaultReplyClean();
    var c := CutAll(s, Separators);
    if c == [] then DefaultReply else c
  }

  // ---------------------------------------------------------------------------
  // Where the cut falls

  /** Every marker starts with a newline or `<`, and neither character occurs later in
      any marker. */
  lemma MarkerHeads(k: string)
    requires k in Separators
    ensures k != [] && (k[0] == '\n' || k[0] == '<')
    ensures forall i :: 0 < i < |k| ==> k[i] != '\n' && k[i] != '<'
  {
    if k == Separators[1] {
      assert k == "<|endoftext|>";
    }
  }

  /** No marker is a prefix of another one. */
  lemma MarkersNotNested(k: string, m: string)
    requires k in Separators && m in Separators && k != m
    ensures !(k <= m)
  {
    assert k[0] != m[0] || k[1] != m[1] || k[2] != m[2];
  }

  /** Every marker but the newline starts and ends with non-whitespace. */
  lemma MarkerEnds(m: string)
    requires m in Separators && m != "\n"
    ensures m != [] && m[0] !in Whitespace && m[|m| - 1] !in Whitespace
  {
  }

  /** Two strings that both start a text are prefixes of one another. */
  lemma PrefixesNested(k: string, m: string, x: string)
    requires k <= x && m <= x && |k| <= |m|
    ensures k <= m
  {
  }

  /** The text `d` that precedes the marker `m`: it has no leading whitespace and no
      marker, and when it is empty the marker is not a newline (a newline would be
      stripped away with the leading whitespace). */
  predicate LeadContext(d: string, m: string)
  {
    m in Separators && FreeOf(d, Separators) && (d == [] || d[0] !in Whitespace) &&
    (d == [] ==> m != "\n")
  }

  /** A stripped reply that is either the stripped `d`, or still starts with `d + m`. */
  predicate KeepsLead(r: string, d: string, m: string)
  {
    IsStripped(r, Whitespace) && (r == TrimRight(d, Whitespace) || d + m <= r)
  }

  /** The character at position `p` of a text belongs to an occurrence of `k` at `j`. */
  lemma CharOfOccurrence(r: string, k: string, j: nat, p: nat)
    requires j <= |r| && k <= r[j..] && j <= p < j + |k|
    ensures k[p - j] == r[p]
  {
    assert r[j..][p - j] == r[p];
  }

  /** No marker has the first character of a marker after its own first position. */
  lemma StraddleImpossible(k: string, m: string, i: nat)
    requires k in Separators && m in Separators && 0 < i < |k|
    ensures m != [] && k[i] != m[0]
  {
    MarkerHeads(k);
    MarkerHeads(m);
  }

  /** In a text that starts with `d + m`, no marker starts inside `d`, and no marker other
      than `m` starts inside `m`. */
  lemma NoMarkerBefore(r: string, d: string, m: string, k: string, j: nat)
    requires LeadContext(d, m) && d + m <= r && k in Separators
    requires j < |d| || (k != m && j < |d| + |m|)
    ensures !(k <= r[j..])
  {
    if k <= r[j..] {
      if j < |d| {
        if j + |k| <= |d| {
          assert k <= d[j..];
          ContainsInSuffix(d, j, k);
          assert false;
        } else {
          CharOfOccurrence(r, k, j, |d|);
          StraddleImpossible(k, m, |d| - j);
          assert false;
        }
      } else if j == |d| {
        assert m <= r[|d|..];
        if |k| <= |m| {
          PrefixesNested(k, m, r[|d|..]);
          MarkersNotNested(k, m);
        } else {
          PrefixesNested(m, k, r[|d|..]);
          MarkersNotNested(m, k);
        }
        assert false;
      } else {
        assert m <= r[|d|..];
        CharOfOccurrence(r, m, |d|, j);
        StraddleImpossible(m, k, j - |d|);
        assert false;
      }
    }
  }

  /** A prefix of a text without markers has none either. */
  lemma FreeOfPrefix(d: string, a: string, seps: seq<string>)
    requires a <= d && FreeOf(d, seps)
    ensures FreeOf(a, seps)
  {
    forall i | 0 <= i < |seps| ensures !Contains(a, seps[i]) {
      if Contains(a, seps[i]) {
        ContainsInPrefix(d, a, seps[i]);
      }
    }
  }

  /** In a text that starts with `d + m`, the part before the first `m` is `d`. */
  lemma FirstMarkerAfterLead(r: string, d: string, m: string)
    requires LeadContext(d, m) && d + m <= r
    ensures Contains(r, m) && BeforeFirst(r, m) == d
  {
    MarkerHeads(m);
    assert m <= r[|d|..];
    ContainsInSuffix(r, |d|, m);
    var b := BeforeFirst(r, m);
    if |b| < |d| {
      NoMarkerBefore(r, d, m, m, |b|);
      assert false;
    }
    assert !(|b| > |d|);
    assert b == r[..|d|];
  }

  /** In a text that starts with `d + m`, the part before the first other marker `k`
      still starts with `d + m`. */
  lemma OtherMarkerAfterLead(r: string, d: string, m: string, k: string)
    requires LeadContext(d, m) && d + m <= r && k in Separators && k != m
    ensures d + m <= BeforeFirst(r, k)
  {
    MarkerHeads(k);
    var b := BeforeFirst(r, k);
    if Contains(r, k) {
      if |b| < |d| + |m| {
        NoMarkerBefore(r, d, m, k, |b|);
        assert false;
      }
      assert b == r[..|b|];
    }
  }

  /** Stripping a text that starts with `d + m` keeps `d + m`, or leaves the stripped `d`. */
  lemma StripAfterLead(x: string, d: string, m: string)
    requires LeadContext(d, m) && d + m <= x
    ensures KeepsLead(Strip(x), d, m)
  {
    if d == [] {
      StripKeepsMarker(x, d, m);
    } else if m != "\n" {
      StripKeepsMarker(x, d, m);
    } else if exists i :: |d| < i < |x| && x[i] !in Whitespace {
      var i :| |d| < i < |x| && x[i] !in Whitespace;
      StripKeepsLine(x, d, m, i);
    } else {
      StripBlankAfterLead(x, d);
    }
  }

  /** A marker that ends in non-whitespace survives stripping together with what
      precedes it. */
  lemma StripKeepsMarker(x: string, d: string, m: string)
    requires LeadContext(d, m) && d + m <= x && (d == [] || m != "\n")
    ensures d + m <= Strip(x)
  {
    MarkerEnds(m);
    assert x[|d| + |m| - 1] == m[|m| - 1];
    assert x[0] !in Whitespace by {
      if d == [] {
        assert x[0] == m[0];
      } else {
        assert x[0] == d[0];
      }
    }
    StripKeepsUpTo(x, |d| + |m| - 1);
  }

  /** A newline followed by more text survives stripping together with what precedes it. */
  lemma StripKeepsLine(x: string, d: string, m: string, i: nat)
    requires d != [] && d[0] !in Whitespace && d + m <= x
    requires |d| + |m| <= i < |x| && x[i] !in Whitespace
    ensures d + m <= Strip(x)
  {
    assert x[0] == d[0];
    StripKeepsUpTo(x, i);
    assert x[..|d| + |m|] <= x[..i + 1];
  }

  /** A newline with only whitespace after it is stripped away with the whitespace that
      ends `d`. */
  lemma StripBlankAfterLead(x: string, d: string)
    requires d != [] && d[0] !in Whitespace && d + "\n" <= x
    requires forall i :: |d| < i < |x| ==> x[i] in Whitespace
    ensures Strip(x) == TrimRight(d, Whitespace)
  {
    var a := TrimRight(d, Whitespace);
    assert x[|d|] == '\n';
    assert forall i :: |a| <= i < |d| ==> x[i] == d[i];
    assert x[|a| - 1] == a[|a| - 1];
    assert x[0] == d[0];
    StripToLast(x, |a|);
  }

  /** A reply that still starts with `d + m` keeps that shape through one cut. */
  lemma CutAtKeepsLead(r: string, d: string, m: string, k: string)
    requires LeadContext(d, m) && KeepsLead(r, d, m) && k in Separators
    ensures k != [] && KeepsLead(CutAt(r, k), d, m)
  {
    MarkerHeads(k);
    if r == TrimRight(d, Whitespace) {
      CutHeadOnly(d, m, k);
    } else if k == m {
      CutAtLeadMarker(r, d, m);
    } else if Contains(r, k) {
      OtherMarkerAfterLead(r, d, m, k);
      StripAfterLead(BeforeFirst(r, k), d, m);
    }
  }

  /** A reply cut down to the stripped `d` holds no marker, so no cut changes it. */
  lemma CutHeadOnly(d: string, m: string, k: string)
    requires LeadContext(d, m) && k in Separators
    ensures k != [] && CutAt(TrimRight(d, Whitespace), k) == TrimRight(d, Whitespace)
  {
    MarkerHeads(k);
    FreeOfPrefix(d, TrimRight(d, Whitespace), Separators);
  }

  /** Cutting at `m` a reply that starts with `d + m` leaves the stripped `d`. */
  lemma CutAtLeadMarker(r: string, d: string, m: string)
    requires LeadContext(d, m) && d + m <= r
    ensures m != [] && CutAt(r, m) == TrimRight(d, Whitespace)
  {
    MarkerHeads(m);
    FirstMarkerAfterLead(r, d, m);
    if d != [] {
      StripToLast(d, |TrimRight(d, Whitespace)|);
    }
  }

  /** The whole cleaning loop keeps a reply that starts with `d + m` in that shape. */
  lemma {:induction false} CutAllKeepsLead(r: string, d: string, m: string, seps: seq<string>)
    requires LeadContext(d, m) && KeepsLead(r, d, m)
    requires forall i :: 0 <= i < |seps| ==> seps[i] in Separators
    requires forall i :: 0 <= i < |seps| ==> seps[i] != []
    ensures KeepsLead(CutAll(r, seps), d, m)
    decreases |seps|
  {
    if seps != [] {
      CutAtKeepsLead(r, d, m, seps[0]);
      CutAllKeepsLead(CutAt(r, seps[0]), d, m, seps[1..]);
    }
  }

  /** The cleaner keeps exactly the stripped text before the first marker: for a reply
      `a + m + b` whose head `a` holds no marker, the result is `a` stripped, or the
      fallback when `a` is blank. A blank head before a newline is stripped away with
      the rest of the leading whitespace, and cleaning continues with `b`. */
  lemma CleanCutsAtMarker(a: string, m: string, b: string)
    requires m in Separators && FreeOf(a, Separators)
    ensures Strip(a) != [] ==> CleanResponse(a + m + b) == Strip(a)
    ensures Strip(a) == [] && m != "\n" ==> CleanResponse(a + m + b) == DefaultReply
    ensures Strip(a) == [] && m == "\n" ==> CleanResponse(a + m + b) == CleanResponse(b)
  {
    BlankHead(a);
    if TrimLeft(a, Whitespace) == [] && m == "\n" {
      CleanAfterBlankLine(a, b);
    } else {
      CleanAfterHead(a, m, b);
    }
  }

  /** A blank head and a newline are stripped away before any cut. */
  lemma CleanAfterBlankLine(a: string, b: string)
    requires TrimLeft(a, Whitespace) == []
    ensures CleanResponse(a + "\n" + b) == CleanResponse(b)
  {
    assert a + "\n" + b == (a + "\n") + b;
    StripAfterBlank(a + "\n", b);
  }

  /** A head that survives stripping is what the cleaner keeps. */
  lemma CleanAfterHead(a: string, m: string, b: string)
    requires m in Separators && FreeOf(a, Separators)
    requires TrimLeft(a, Whitespace) != [] || m != "\n"
    ensures CleanResponse(a + m + b) == if Strip(a) == [] then DefaultReply else Strip(a)
  {
    BlankHead(a);
    HeadContext(a, m);
    StripReplyWithHead(a[..LeadCount(a, Whitespace)], TrimLeft(a, Whitespace), m, b);
    CleanOfLead(a + m + b, TrimLeft(a, Whitespace), m);
  }

  /** The cleaner turns a reply whose stripped form starts with `d + m` into the
      stripped `d`, or into the fallback when that is empty. */
  lemma CleanOfLead(x: string, d: string, m: string)
    requires LeadContext(d, m) && KeepsLead(Strip(x), d, m)
    ensures CleanResponse(x) ==
      if TrimRight(d, Whitespace) == [] then DefaultReply else TrimRight(d, Whitespace)
  {
    CutAllFromLead(Strip(x), d, m, Separators);
  }

  /** A text strips to nothing exactly when nothing is left after its leading whitespace. */
  lemma BlankHead(a: string)
    ensures Strip(a) == [] <==> TrimLeft(a, Whitespace) == []
    ensures Strip(a) == TrimRight(TrimLeft(a, Whitespace), Whitespace)
  {
  }

  /** The head of a reply without its leading whitespace is the text before the marker. */
  lemma HeadContext(a: string, m: string)
    requires m in Separators && FreeOf(a, Separators)
    requires TrimLeft(a, Whitespace) != [] || m != "\n"
    ensures LeadContext(TrimLeft(a, Whitespace), m)
    ensures a == a[..LeadCount(a, Whitespace)] + TrimLeft(a, Whitespace)
    ensures forall i :: 0 <= i < LeadCount(a, Whitespace) ==> a[..LeadCount(a, Whitespace)][i] in Whitespace
  {
    var n := LeadCount(a, Whitespace);
    assert a == a[..n] + a[n..];
    forall i | 0 <= i < |Separators| ensures !Contains(a[n..], Separators[i]) {
      if Contains(a[n..], Separators[i]) {
        ContainsInSuffix(a, n, Separators[i]);
      }
    }
  }

  /** The stripped reply starts with the head and the marker, or is the stripped head. */
  lemma StripReplyWithHead(l: string, d: string, m: string, b: string)
    requires forall i :: 0 <= i < |l| ==> l[i] in Whitespace
    requires LeadContext(d, m)
    ensures KeepsLead(Strip(l + d + m + b), d, m)
  {
    assert l + d + m + b == l + (d + m + b);
    StripAfterBlank(l, d + m + b);
    StripAfterLead(d + m + b, d, m);
  }

  /** From a reply that starts with `d + m`, a cleaning loop over markers that include
      `m` leaves the stripped `d`. */
  lemma CutAllFromLead(s: string, d: string, m: string, seps: seq<string>)
    requires LeadContext(d, m) && KeepsLead(s, d, m) && m in seps
    requires forall i :: 0 <= i < |seps| ==> seps[i] in Separators
    requires forall i :: 0 <= i < |seps| ==> seps[i] != []
    ensures CutAll(s, seps) == TrimRight(d, Whitespace)
  {
    CutAllKeepsLead(s, d, m, seps);
    CutAllFacts(s, seps);
    FreeOfMember(CutAll(s, seps), seps, m);
    LeadGone(CutAll(s, seps), d, m);
  }

  /** A text free of a list of strings contains none of them. */
  lemma FreeOfMember(c: string, seps: seq<string>, m: string)
    requires FreeOf(c, seps) && m in seps
    ensures !Contains(c, m)
  {
  }

  /** Once the marker is gone, only the stripped `d` can be left. */
  lemma LeadGone(c: string, d: string, m: string)
    requires KeepsLead(c, d, m) && !Contains(c, m)
    ensures c == TrimRight(d, Whitespace)
  {
    if d + m <= c {
      assert m <= c[|d|..];
      ContainsInSuffix(c, |d|, m);
    }
  }

  /** Cleaning a cleaned reply changes nothing. */
  lemma CleanIdempotent(response: string)
    ensures CleanResponse(CleanResponse(response)) == CleanResponse(response)
  {
    var r := CleanResponse(response);
    assert Strip(r) == r;
  }
}
