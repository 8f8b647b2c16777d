/** The topic tracker: up to five keywords are taken from each exchange and merged into
    a running keyword set, which is cut back to fifteen keywords when it grows past
    twenty. The tracker only reads its inputs; it holds no conversation buffer of its own.

    Python iterates a set in an order fixed by hashing. Wherever the source lists the
    keyword set, the model takes that iteration order as a parameter `order`, required
    only to list every keyword exactly once; no result depends on any particular order
    beyond which and how many keywords survive. */
module ContextManager {
  import opened Sequences
  import opened Text

  /** Words never taken as keywords. They are compared with the token before punctuation is stripped. */
  const StopWords: set<string> := {
    "the", "a", "an", "and", "or", "but", "in", "on", "at", "to", "for", "of", "with", "by",
    "is", "are", "was", "were", "be", "been", "being", "have", "has", "had",
    "do", "does", "did", "will", "would", "could", "should"
  }

  /** Every stop word is made of lower-case letters only. */
  lemma StopWordsAreLetters()
    ensures forall w, j :: w in StopWords && 0 <= j < |w| ==> 'a' <= w[j] <= 'z'
  {
  }

  /** Characters stripped from both ends of a keyword. */
  const Punctuation: set<char> := {'.', ',', '!', '?', ';', ':', '"', '(', ')', '[', ']'}

  const MaxKeywordsPerExchange: nat := 5
  const MaxTopicKeywords: nat := 20
  const TrimmedTopicKeywords: nat := 15
  const ShownTopicKeywords: nat := 5

  const TopicsPrefix := "Current conversation topics: "
  const NoTopicMessage := "No specific topic context available."

  datatype Tracker = Tracker(topicKeywords: set<string>)

  function Init(): (t: Tracker)
    ensures t.topicKeywords == {}
  {
    Tracker({})
  }

  /** `order` lists every element of `s` exactly once: one iteration order of the set. */
  predicate IsListing(order: seq<string>, s: set<string>)
  {
    Distinct(order) && Elems(order) == s
  }

  // ---------------------------------------------------------------------------
  // Keyword extraction

  /** The token filter, applied to the lower-cased token before stripping. */
  predicate Qualifies(w: string)
  {
    |w| > 3 && w !in StopWords
  }

  /** The tokens that pass the filter, in their original order. */
  function QualifyingTokens(ws: seq<string>): (qs: seq<string>)
    ensures |qs| <= |ws|
    ensures forall i :: 0 <= i < |qs| ==> Qualifies(qs[i]) && qs[i] in ws
  {
    if ws == [] then []
    else if Qualifies(ws[0]) then [ws[0]] + QualifyingTokens(ws[1..])
    else QualifyingTokens(ws[1..])
  }

  /** The filter works token by token and keeps the left-to-right order: the qualifying
      tokens of a concatenation are those of its parts, one after the other. */
  lemma {:induction false} QualifyingTokensAppend(a: seq<string>, b: seq<string>)
    ensures QualifyingTokens(a + b) == QualifyingTokens(a) + QualifyingTokens(b)
  {
    if a == [] {
      assert a + b == b;
    } else {
      assert (a + b)[0] == a[0];
      assert (a + b)[1..] == a[1..] + b;
      QualifyingTokensAppend(a[1..], b);
    }
  }

  /** A single token is kept exactly when it qualifies. */
  lemma QualifyingTokensOfToken(w: string)
    ensures QualifyingTokens([w]) == if Qualifies(w) then [w] else []
  {
    assert [w][1..] == [];
  }

  /** Every token stripped of punctuation at both ends. */
  function StripPunctuation(ws: seq<string>): (ks: seq<string>)
    ensures |ks| == |ws|
    ensures forall i :: 0 <= i < |ws| ==> ks[i] == StripChars(ws[i], Punctuation)
  {
    seq(|ws|, i requires 0 <= i < |ws| => StripChars(ws[i], Punctuation))
  }

  /** Python's `_extract_keywords`: the lower-cased text is split into tokens; the tokens
      that pass the filter are stripped of punctuation, and the first five are kept. */
  function ExtractKeywords(text: string): (ks: seq<string>)
    ensures |ks| <= MaxKeywordsPerExchange
    ensures |ks| == Min(|QualifyingTokens(Split(Lower(text)))|, MaxKeywordsPerExchange)
    ensures forall i :: 0 <= i < |ks| ==>
              ks[i] == StripChars(QualifyingTokens(Split(Lower(text)))[i], Punctuation)
  {
    Take(StripPunctuation(QualifyingTokens(Split(Lower(text)))), MaxKeywordsPerExchange)
  }

  /** Each keyword comes from one token of the lower-cased text: it has no upper-case
      letter, no punctuation of the fixed set at either end, and all its characters
      occur in that token. */
  lemma KeywordsFromTokens(text: string)
    ensures forall i :: 0 <= i < |ExtractKeywords(text)| ==>
              && IsStripped(ExtractKeywords(text)[i], Punctuation)
              && exists t :: t in Split(Lower(text)) && Qualifies(t) && CharsWithin(ExtractKeywords(text)[i], t)
    ensures forall i, j :: 0 <= i < |ExtractKeywords(text)| && 0 <= j < |ExtractKeywords(text)[i]| ==>
              !IsUpper(ExtractKeywords(text)[i][j])
  {
    var lower := Lower(text);
    var ws := Split(lower);
    var qs := QualifyingTokens(ws);
    var ks := ExtractKeywords(text);
    SplitCharsWithin(lower);
    forall i | 0 <= i < |ks|
      ensures exists t :: t in ws && Qualifies(t) && CharsWithin(ks[i], t)
      ensures forall j :: 0 <= j < |ks[i]| ==> !IsUpper(ks[i][j])
    {
      var t := qs[i];
      assert ks[i] == StripChars(t, Punctuation);
      var k :| 0 <= k < |ws| && ws[k] == t;
      forall j | 0 <= j < |ks[i]| ensures !IsUpper(ks[i][j]) {
        assert ks[i][j] in t;
        assert CharsWithin(ws[k], lower);
        var p :| 0 <= p < |t| && t[p] == ks[i][j];
        assert t[p] in lower;
      }
    }
  }

  /** A text of one token yields that token stripped, when it passes the filter. */
  lemma ExtractFromOneToken(text: string, w: string)
    requires Split(Lower(text)) == [w]
    ensures ExtractKeywords(text) == if Qualifies(w) then [StripChars(w, Punctuation)] else []
  {
    QualifyingTokensOfToken(w);
  }

  /** "The," is one token, "the,", once lower-cased. */
  lemma TheCommaToken()
    ensures Split(Lower("The,")) == ["the,"]
  {
    assert Lower("The,") == "the,";
    SplitWord("the,");
  }

  /** Stripping "the," of punctuation leaves "the". */
  lemma TheCommaStripped()
    ensures StripChars("the,", Punctuation) == "the"
  {
    assert "the," == "the" + [','];
    StripTrailingChar("the", ',', Punctuation);
  }

  /** The filter looks at the token before stripping: "the," is not a stop word, so it
      yields the stop word "the". */
  lemma StopWordWithComma()
    ensures ExtractKeywords("The,") == ["the"]
  {
    TheCommaToken();
    TheCommaStripped();
    StopWordsAreLetters();
    assert "the,"[3] == ',';
    ExtractFromOneToken("The,", "the,");
  }

  /** "...." is one token and is unchanged by lower-casing. */
  lemma DotsToken()
    ensures Split(Lower("....")) == ["...."]
  {
    assert Lower("....") == "....";
    SplitWord("....");
  }

  /** A token made only of punctuation passes the length filter and is stripped to nothing. */
  lemma PunctuationOnlyToken()
    ensures ExtractKeywords("....") == [""]
  {
    DotsToken();
    StopWordsAreLetters();
    assert "...."[0] == '.';
    assert StripChars("....", Punctuation) == "";
    ExtractFromOneToken("....", "....");
  }

  // ---------------------------------------------------------------------------
  // Accumulating and reporting

  /** The keyword-set update of `update_topic_context` given the exchange's keywords:
      a union, cut to the last fifteen keywords of the set's iteration order `order`
      when it has more than twenty. */
  function Merge(keywords: set<string>, found: seq<string>, order: seq<string>): (r: set<string>)
    requires IsListing(order, keywords + Elems(found))
    ensures |keywords + Elems(found)| <= MaxTopicKeywords ==> r == keywords + Elems(found)
    ensures |keywords + Elems(found)| > MaxTopicKeywords ==>
              r <= keywords + Elems(found) && |r| == TrimmedTopicKeywords
    ensures |r| <= MaxTopicKeywords
  {
    var all := keywords + Elems(found);
    DistinctCard(order);
    if |all| > MaxTopicKeywords then
      var kept := Last(order, TrimmedTopicKeywords);
      SuffixOfDistinct(order, |order| - |kept|);
      DistinctCard(kept);
      Elems(kept)
    else all
  }

  /** Python's `update_topic_context`: the keywords of `user + " " + bot` merged into the set. */
  function UpdateTopicContext(t: Tracker, user: string, bot: string, order: seq<string>): (r: Tracker)
    requires IsListing(order, t.topicKeywords + Elems(ExtractKeywords(user + " " + bot)))
    ensures |r.topicKeywords| <= MaxTopicKeywords
    ensures r.topicKeywords <= t.topicKeywords + Elems(ExtractKeywords(user + " " + bot))
  {
    Tracker(Merge(t.topicKeywords, ExtractKeywords(user + " " + bot), order))
  }

  /** One exchange adds at most five keywords, so a set of at most fifteen is never cut:
      it keeps all its keywords and gains every new one. */
  lemma SmallSetNotTrimmed(keywords: set<string>, found: seq<string>, order: seq<string>)
    requires |found| <= MaxKeywordsPerExchange
    requires |keywords| <= TrimmedTopicKeywords
    requires IsListing(order, keywords + Elems(found))
    ensures Merge(keywords, found, order) == keywords + Elems(found)
  {
    ElemsCard(found);
  }

  /** The keywords of the user text and of the reply are both taken from one joined text. */
  lemma ExtractFromJoinedText(user: string, bot: string)
    ensures Split(Lower(user + " " + bot)) == Split(Lower(user)) + Split(Lower(bot))
    ensures QualifyingTokens(Split(Lower(user + " " + bot))) ==
              QualifyingTokens(Split(Lower(user))) + QualifyingTokens(Split(Lower(bot)))
  {
    LowerConcat(user + " ", bot);
    LowerConcat(user, " ");
    assert Lower(" ") == " ";
    SplitAroundSpace(Lower(user), Lower(bot));
    QualifyingTokensAppend(Split(Lower(user)), Split(Lower(bot)));
  }

  /** The keywords listed by `get_topic_context`: the last five of the iteration order. */
  function ShownKeywords(keywords: set<string>, order: seq<string>): (shown: seq<string>)
    requires IsListing(order, keywords)
    ensures |shown| == Min(|keywords|, ShownTopicKeywords)
    ensures Distinct(shown)
    ensures Elems(shown) <= keywords
  {
    DistinctCard(order);
    var shown := Last(order, ShownTopicKeywords);
    SuffixOfDistinct(order, |order| - |shown|);
    shown
  }

  /** Python's `get_topic_context`: the fixed message for an empty set, otherwise the
      fixed label followed by the shown keywords separated by ", ". */
  function GetTopicContext(t: Tracker, order: seq<string>): (r: string)
    requires IsListing(order, t.topicKeywords)
    ensures r == NoTopicMessage <==> t.topicKeywords == {}
    ensures t.topicKeywords != {} ==>
              TopicsPrefix <= r && r[|TopicsPrefix|..] == Join(ShownKeywords(t.topicKeywords, order), ", ")
  {
    if t.topicKeywords != {} then
      var r := TopicsPrefix + Join(ShownKeywords(t.topicKeywords, order), ", ");
      assert r[0] == 'C' && NoTopicMessage[0] == 'N';
      r
    else NoTopicMessage
  }
}
