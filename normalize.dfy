/**
 * Text normalisation (`normalize` in model.py): lowercase, blank out every
 * character other than `a`-`z`, `0`-`9` and whitespace, split into tokens,
 * drop stopwords and tokens of at most two characters, lemmatise the rest
 * and join them with single spaces.
 *
 * The stopword set and the lemmatiser come from NLTK; here they are
 * parameters, the lemmatiser an arbitrary function on strings. The tokeniser
 * is a whitespace split (see README).
 */
module Normalization {
  import opened Sequences
  import opened Strings

  /** A character that the pattern `[^a-z0-9\s]` does not match. */
  predicate IsKept(c: char)
  {
    'a' <= c <= 'z' || '0' <= c <= '9' || IsWhitespace(c)
  }

  /** A non-empty token made only of lowercase ASCII letters and digits. */
  predicate IsCleanWord(w: string)
  {
    |w| > 0 && forall i :: 0 <= i < |w| ==> 'a' <= w[i] <= 'z' || '0' <= w[i] <= '9'
  }

  /** `re.sub(r"[^a-z0-9\s]", " ", s)`: every character not kept becomes one space. */
  function ReplaceOthers(s: string): (r: string)
    ensures |r| == |s|
    ensures forall i :: 0 <= i < |s| ==> r[i] == (if IsKept(s[i]) then s[i] else ' ')
  {
    if s == [] then "" else [if IsKept(s[0]) then s[0] else ' '] + ReplaceOthers(s[1..])
  }

  /** The lowercase and substitution steps of `normalize`. */
  function Scrub(text: string): (r: string)
    ensures |text| <= |r|
    ensures forall i :: 0 <= i < |r| ==> IsKept(r[i])
  {
    ReplaceOthers(Lower(text))
  }

  /** Scrubbing leaves a text unchanged exactly when it already consists of kept characters. */
  lemma ScrubFixedPoint(s: string)
    ensures Scrub(s) == s <==> forall i :: 0 <= i < |s| ==> IsKept(s[i])
  {
    if forall i :: 0 <= i < |s| ==> IsKept(s[i]) {
      LowerOfLowered(s);
    }
  }

  /** The filter of `normalize`: not a stopword and longer than two characters. */
  predicate IsContentToken(t: string, stopwords: set<string>)
  {
    t !in stopwords && |t| > 2
  }

  function IsContent(stopwords: set<string>): string -> bool
  {
    t => IsContentToken(t, stopwords)
  }

  /** `[t for t in tokens if t not in STOPWORDS and len(t) > 2]`. */
  function KeepContent(tokens: seq<string>, stopwords: set<string>): (r: seq<string>)
    ensures forall i :: 0 <= i < |r| ==> r[i] !in stopwords && |r[i]| > 2
    ensures forall t :: t in tokens && IsContentToken(t, stopwords) ==> t in r
    ensures IsSubsequence(r, tokens)
    ensures |r| == Count(tokens, IsContent(stopwords))
  {
    Filter(tokens, IsContent(stopwords))
  }

  /** `[LEMMA.lemmatize(t) for t in tokens]`, for a lemmatiser `lemmatize`. */
  function LemmatizeAll(tokens: seq<string>, lemmatize: string -> string): (r: seq<string>)
    ensures |r| == |tokens|
    ensures forall i :: 0 <= i < |r| ==> r[i] == lemmatize(tokens[i])
  {
    if tokens == [] then [] else [lemmatize(tokens[0])] + LemmatizeAll(tokens[1..], lemmatize)
  }

  /** The tokens `normalize` keeps, before lemmatisation: clean words that pass the filter. */
  function ContentTokens(text: string, stopwords: set<string>): (r: seq<string>)
    ensures forall i :: 0 <= i < |r| ==> IsCleanWord(r[i]) && IsContentToken(r[i], stopwords)
  {
    var s := Scrub(text);
    SplitOfKeptIsClean(s);
    var r := KeepContent(Split(s), stopwords);
    assert forall i :: 0 <= i < |r| ==> r[i] in Split(s);
    r
  }

  /** The tokens of a text made of kept characters are clean words. */
  lemma SplitOfKeptIsClean(s: string)
    requires forall i :: 0 <= i < |s| ==> IsKept(s[i])
    ensures forall k :: 0 <= k < |Split(s)| ==> IsCleanWord(Split(s)[k])
  {
    var ts := Split(s);
    forall k, i | 0 <= k < |ts| && 0 <= i < |ts[k]|
      ensures 'a' <= ts[k][i] <= 'z' || '0' <= ts[k][i] <= '9'
    {
      assert ts[k][i] in ts[k];
      assert !IsWhitespace(ts[k][i]);
    }
  }

  /** `normalize(text)`. */
  function Normalize(text: string, stopwords: set<string>, lemmatize: string -> string): (r: string)
    ensures ContentTokens(text, stopwords) == [] ==> r == ""
  {
    Join(LemmatizeAll(ContentTokens(text, stopwords), lemmatize))
  }

  /** The lemmatiser maps every clean word to a word (non-empty, no whitespace), as WordNet's does. */
  ghost predicate KeepsWords(lemmatize: string -> string)
  {
    forall t :: IsCleanWord(t) ==> IsWord(lemmatize(t))
  }

  /**
   * With a lemmatiser that yields words, the normalised text splits back into
   * the lemmatised tokens; it is empty exactly when no token survives the
   * filter, and otherwise neither starts nor ends with whitespace.
   */
  lemma NormalizeTokens(text: string, stopwords: set<string>, lemmatize: string -> string)
    requires KeepsWords(lemmatize)
    ensures Split(Normalize(text, stopwords, lemmatize)) ==
            LemmatizeAll(ContentTokens(text, stopwords), lemmatize)
    ensures Normalize(text, stopwords, lemmatize) == "" <==> ContentTokens(text, stopwords) == []
    ensures var r := Normalize(text, stopwords, lemmatize);
            r != "" ==> !IsWhitespace(r[0]) && !IsWhitespace(r[|r| - 1])
  {
    var ls := LemmatizeAll(ContentTokens(text, stopwords), lemmatize);
    assert forall k :: 0 <= k < |ls| ==> IsWord(ls[k]);
    SplitJoin(ls);
    JoinShape(ls);
  }

  /**
   * The lemmatiser is stable on the filter: it maps each clean content word
   * to a clean content word that it leaves unchanged.
   */
  ghost predicate StableOn(lemmatize: string -> string, stopwords: set<string>)
  {
    forall t :: IsCleanWord(t) && IsContentToken(t, stopwords) ==>
      IsCleanWord(lemmatize(t)) && IsContentToken(lemmatize(t), stopwords) &&
      lemmatize(lemmatize(t)) == lemmatize(t)
  }

  /** Clean words joined with spaces consist of kept characters only. */
  lemma JoinOfCleanIsKept(ws: seq<string>)
    requires forall k :: 0 <= k < |ws| ==> IsCleanWord(ws[k])
    ensures forall i :: 0 <= i < |Join(ws)| ==> IsKept(Join(ws)[i])
  {
    var n := Join(ws);
    forall i | 0 <= i < |n|
      ensures IsKept(n[i])
    {
      JoinChars(ws, n[i]);
      if n[i] != ' ' {
        var k :| 0 <= k < |ws| && n[i] in ws[k];
        var j :| 0 <= j < |ws[k]| && ws[k][j] == n[i];
      }
    }
  }

  /** Clean content words, joined with spaces, are exactly the tokens `normalize` keeps from that text. */
  lemma ContentTokensOfJoin(ws: seq<string>, stopwords: set<string>)
    requires forall k :: 0 <= k < |ws| ==> IsCleanWord(ws[k]) && IsContentToken(ws[k], stopwords)
    ensures ContentTokens(Join(ws), stopwords) == ws
  {
    var n := Join(ws);
    JoinOfCleanIsKept(ws);
    ScrubFixedPoint(n);
    SplitJoin(ws);
    FilterKeepsAll(ws, IsContent(stopwords));
  }

  /**
   * Normalising a normalised text changes nothing, provided the lemmatiser is
   * stable on the filter. `NormalizeNotIdempotent` shows the proviso is needed.
   */
  lemma NormalizeIdempotent(text: string, stopwords: set<string>, lemmatize: string -> string)
    requires StableOn(lemmatize, stopwords)
    ensures Normalize(Normalize(text, stopwords, lemmatize), stopwords, lemmatize) ==
            Normalize(text, stopwords, lemmatize)
  {
    var ls := LemmatizeAll(ContentTokens(text, stopwords), lemmatize);
    assert forall k :: 0 <= k < |ls| ==> IsCleanWord(ls[k]) && IsContentToken(ls[k], stopwords);
    ContentTokensOfJoin(ls, stopwords);
    assert LemmatizeAll(ls, lemmatize) == ls;
  }

  /** WordNet lemmatises "oxen" to "ox", which the length filter then drops. */
  function OxenLemma(t: string): string
  {
    if t == "oxen" then "ox" else t
  }

  /** Without the proviso, normalisation is not idempotent: "oxen" gives "ox", and "ox" gives "". */
  lemma NormalizeNotIdempotent()
    ensures Normalize("oxen", {}, OxenLemma) == "ox"
    ensures Normalize("ox", {}, OxenLemma) == ""
  {
    assert Join(["oxen"]) == "oxen";
    ContentTokensOfWord("oxen", {});
    assert Join(["ox"]) == "ox";
    ContentTokensOfWord("ox", {});
  }

  /** A single clean word is kept by `normalize` exactly when it passes the filter. */
  lemma ContentTokensOfWord(w: string, stopwords: set<string>)
    requires IsCleanWord(w)
    ensures ContentTokens(w, stopwords) == if IsContentToken(w, stopwords) then [w] else []
  {
    assert Join([w]) == w;
    JoinOfCleanIsKept([w]);
    ScrubFixedPoint(w);
    SplitJoin([w]);
  }
}
