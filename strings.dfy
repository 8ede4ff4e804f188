/**
 * The Python string operations the chatbot relies on: `str.isspace`,
 * `str.lower`, `str.split()`, `" ".join`, `str.strip()` and the substring
 * test `needle in haystack`. Strings are sequences of Unicode scalar values,
 * as Python's `str` is a sequence of code points.
 */
module Strings {
  import opened Sequences

  /** The characters for which Python's `str.isspace()` holds; the regular-expression class `\s` matches exactly these. */
  predicate IsWhitespace(c: char)
  {
    ('\t' <= c <= '\r') || ('\U{1C}' <= c <= ' ') || c == '\U{85}' || c == '\U{A0}' ||
    c == '\U{1680}' || ('\U{2000}' <= c <= '\U{200A}') || c == '\U{2028}' || c == '\U{2029}' ||
    c == '\U{202F}' || c == '\U{205F}' || c == '\U{3000}'
  }

  /** A token as `str.split()` produces it: non-empty and free of whitespace. */
  predicate IsWord(w: string)
  {
    |w| > 0 && forall i :: 0 <= i < |w| ==> !IsWhitespace(w[i])
  }

  predicate IsAsciiUpper(c: char)
  {
    'A' <= c <= 'Z'
  }

  /**
   * Python's lowercase of one character. ASCII capitals map to ASCII small
   * letters; U+0130 and U+212A are the only other characters whose lowercase
   * contains an ASCII character. Every other character is kept as it is.
   */
  function LowerChar(c: char): (r: string)
  {
    if IsAsciiUpper(c) then [(c as int + 32) as char]
    else if c == '\U{212A}' then "k"
    else if c == '\U{130}' then "i\U{307}"
    else [c]
  }

  /** `s.lower()`. */
  function Lower(s: string): (r: string)
    ensures |s| <= |r| <= 2 * |s|
    ensures forall i :: 0 <= i < |r| ==> !IsAsciiUpper(r[i]) && r[i] != '\U{212A}' && r[i] != '\U{130}'
  {
    if s == [] then "" else LowerChar(s[0]) + Lower(s[1..])
  }

  /**
   * Without U+0130 in the text, lowercasing maps character to character:
   * an ASCII capital to its small letter, U+212A to `k`, anything else to itself.
   */
  lemma {:induction false} LowerPerChar(s: string)
    requires '\U{130}' !in s
    ensures |Lower(s)| == |s|
    ensures forall i :: 0 <= i < |s| ==>
              Lower(s)[i] == if IsAsciiUpper(s[i]) then (s[i] as int + 32) as char
                             else if s[i] == '\U{212A}' then 'k'
                             else s[i]
  {
    if s != [] {
      assert s[0] in s;
      assert forall c :: c in s[1..] ==> c in s;
      LowerPerChar(s[1..]);
    }
  }

  lemma {:induction false} LowerConcat(a: string, b: string)
    ensures Lower(a + b) == Lower(a) + Lower(b)
  {
    if a == [] {
      assert a + b == b;
    } else {
      assert (a + b)[0] == a[0];
      assert (a + b)[1..] == a[1..] + b;
      LowerConcat(a[1..], b);
    }
  }

  /** A string holding no character that lowercasing changes is its own lowercase. */
  lemma {:induction false} LowerOfLowered(s: string)
    requires forall i :: 0 <= i < |s| ==> !IsAsciiUpper(s[i]) && s[i] != '\U{212A}' && s[i] != '\U{130}'
    ensures Lower(s) == s
  {
    if s != [] {
      LowerOfLowered(s[1..]);
    }
  }

  /** Lowercasing twice is lowercasing once. */
  lemma LowerIdempotent(s: string)
    ensures Lower(Lower(s)) == Lower(s)
  {
    LowerOfLowered(Lower(s));
  }

  /** The longest prefix of `s` that holds no whitespace. */
  function WordPrefix(s: string): (w: string)
    ensures |w| <= |s| && w == s[..|w|]
    ensures forall i :: 0 <= i < |w| ==> !IsWhitespace(w[i])
    ensures |w| < |s| ==> IsWhitespace(s[|w|])
  {
    if s == [] || IsWhitespace(s[0]) then "" else [s[0]] + WordPrefix(s[1..])
  }

  /** `s.split()`: the maximal runs of non-whitespace characters, in order. */
  function Split(s: string): (r: seq<string>)
    ensures forall k :: 0 <= k < |r| ==> IsWord(r[k])
    ensures forall k, c :: 0 <= k < |r| && c in r[k] ==> c in s
    decreases |s|
  {
    if s == [] then []
    else if IsWhitespace(s[0]) then
      assert forall c :: c in s[1..] ==> c in s;
      Split(s[1..])
    else
      var w := WordPrefix(s);
      assert forall c :: c in w || c in s[|w|..] ==> c in s;
      [w] + Split(s[|w|..])
  }

  /**
   * A whitespace character separates tokens: the text on either side of it
   * splits independently. With `SplitJoin` on a single word this fixes
   * `Split` on every text, runs of whitespace included.
   */
  lemma {:induction false} SplitAtWhitespace(a: string, c: char, b: string)
    requires IsWhitespace(c)
    ensures Split(a + [c] + b) == Split(a) + Split(b)
    decreases |a|
  {
    var s := a + [c] + b;
    if a == [] {
      assert s == [c] + b;
      assert s[1..] == b;
    } else if IsWhitespace(a[0]) {
      assert s[0] == a[0];
      assert s[1..] == a[1..] + [c] + b;
      SplitAtWhitespace(a[1..], c, b);
    } else {
      var w := WordPrefix(a);
      var rest := a[|w|..];
      assert a == w + rest;
      assert s == w + (rest + [c] + b);
      WordPrefixOf(w, rest + [c] + b);
      assert s[|w|..] == rest + [c] + b;
      if rest == [] {
        assert rest + [c] + b == [c] + b;
        assert ([c] + b)[1..] == b;
        assert Split(a) == [w] + Split(rest);
      } else {
        SplitAtWhitespace(rest, c, b);
      }
    }
  }

  /** `" ".join(ts)`. */
  function Join(ts: seq<string>): (r: string)
  {
    if ts == [] then "" else if |ts| == 1 then ts[0] else ts[0] + " " + Join(ts[1..])
  }

  /** Splitting loses only the whitespace: the tokens, put together, are the other characters of `s` in order. */
  lemma {:induction false} SplitKeepsNonWhitespace(s: string)
    ensures Concat(Split(s)) == Filter(s, c => !IsWhitespace(c))
    decreases |s|
  {
    var p := c => !IsWhitespace(c);
    if s == [] {
    } else if IsWhitespace(s[0]) {
      SplitKeepsNonWhitespace(s[1..]);
    } else {
      var w := WordPrefix(s);
      var rest := s[|w|..];
      assert s == w + rest;
      SplitKeepsNonWhitespace(rest);
      FilterConcat(w, rest, p);
      FilterKeepsAll(w, p);
      assert Split(s) == [w] + Split(rest);
      assert Concat(Split(s)) == w + Concat(Split(rest));
    }
  }

  lemma {:induction false} WordPrefixOf(w: string, rest: string)
    requires forall i :: 0 <= i < |w| ==> !IsWhitespace(w[i])
    requires rest == [] || IsWhitespace(rest[0])
    ensures WordPrefix(w + rest) == w
  {
    if w == [] {
      assert w + rest == rest;
    } else {
      assert (w + rest)[1..] == w[1..] + rest;
      WordPrefixOf(w[1..], rest);
    }
  }

  /** Splitting undoes joining with single spaces, for tokens as `str.split()` produces them. */
  lemma {:induction false} SplitJoin(ts: seq<string>)
    requires forall k :: 0 <= k < |ts| ==> IsWord(ts[k])
    ensures Split(Join(ts)) == ts
  {
    if ts == [] {
    } else if |ts| == 1 {
      var w := ts[0];
      WordPrefixOf(w, "");
      assert w + "" == w;
      assert w[|w|..] == "";
    } else {
      var w := ts[0];
      var tail := " " + Join(ts[1..]);
      assert Join(ts) == w + tail;
      WordPrefixOf(w, tail);
      assert (w + tail)[|w|..] == tail;
      assert tail[1..] == Join(ts[1..]);
      SplitJoin(ts[1..]);
    }
  }

  /** Joining words gives "" exactly for no words; otherwise the text starts and ends with a non-space. */
  lemma {:induction false} JoinShape(ts: seq<string>)
    requires forall k :: 0 <= k < |ts| ==> IsWord(ts[k])
    ensures Join(ts) == "" <==> ts == []
    ensures Join(ts) != "" ==> !IsWhitespace(Join(ts)[0]) && !IsWhitespace(Join(ts)[|Join(ts)| - 1])
  {
    if |ts| > 1 {
      JoinShape(ts[1..]);
      var r := Join(ts);
      assert r == ts[0] + " " + Join(ts[1..]);
      assert r[0] == ts[0][0];
      assert r[|r| - 1] == Join(ts[1..])[|Join(ts[1..])| - 1];
    }
  }

  /** Every character of the joined text is a character of a token or the separating space. */
  lemma {:induction false} JoinChars(ts: seq<string>, c: char)
    requires c in Join(ts)
    ensures c == ' ' || exists k :: 0 <= k < |ts| && c in ts[k]
  {
    if |ts| > 1 {
      var r := Join(ts);
      assert r == ts[0] + " " + Join(ts[1..]);
      if c !in ts[0] && c != ' ' {
        assert c in Join(ts[1..]);
        JoinChars(ts[1..], c);
        var k :| 0 <= k < |ts[1..]| && c in ts[1..][k];
        assert c in ts[k + 1];
      }
    } else if |ts| == 1 {
      assert c in ts[0];
    }
  }

  /** `s.lstrip()`. */
  function StripStart(s: string): (r: string)
    ensures |r| <= |s| && r == s[|s| - |r|..]
    ensures forall i :: 0 <= i < |s| - |r| ==> IsWhitespace(s[i])
    ensures r == [] || !IsWhitespace(r[0])
  {
    if s == [] || !IsWhitespace(s[0]) then s else StripStart(s[1..])
  }

  /** `s.rstrip()`. */
  function StripEnd(s: string): (r: string)
    ensures |r| <= |s| && r == s[..|r|]
    ensures forall i :: |r| <= i < |s| ==> IsWhitespace(s[i])
    ensures r == [] || !IsWhitespace(r[|r| - 1])
  {
    if s == [] || !IsWhitespace(s[|s| - 1]) then s else StripEnd(s[..|s| - 1])
  }

  /** `r` is `s` with the whitespace before index `i` and after `r` cut off. */
  ghost predicate TrimmedAt(r: string, s: string, i: nat)
  {
    i + |r| <= |s| && r == s[i..i + |r|] &&
    (forall k :: 0 <= k < i ==> IsWhitespace(s[k])) &&
    (forall k :: i + |r| <= k < |s| ==> IsWhitespace(s[k]))
  }

  /**
   * `s.strip()`: the slice of `s` left once the leading and trailing
   * whitespace is cut off; it neither starts nor ends with whitespace.
   */
  function Strip(s: string): (r: string)
    ensures r == [] || (!IsWhitespace(r[0]) && !IsWhitespace(r[|r| - 1]))
    ensures exists i :: TrimmedAt(r, s, i)
  {
    var t := StripStart(s);
    var r := StripEnd(t);
    TrimBothEnds(s, t, r);
    r
  }

  /** Cutting whitespace off the front of `s` and then off the back of the rest leaves a trimmed slice of `s`. */
  lemma TrimBothEnds(s: string, t: string, r: string)
    requires |t| <= |s| && t == s[|s| - |t|..]
    requires forall i :: 0 <= i < |s| - |t| ==> IsWhitespace(s[i])
    requires |r| <= |t| && r == t[..|r|]
    requires forall j :: |r| <= j < |t| ==> IsWhitespace(t[j])
    ensures TrimmedAt(r, s, |s| - |t|)
  {
    var i := |s| - |t|;
    forall k | i + |r| <= k < |s|
      ensures IsWhitespace(s[k])
    {
      assert s[k] == t[k - i];
    }
  }

  /** Stripping leaves nothing exactly when the text is all whitespace. */
  lemma StripEmpty(s: string)
    ensures Strip(s) == "" <==> forall i :: 0 <= i < |s| ==> IsWhitespace(s[i])
  {
    if Strip(s) != "" {
      var r := Strip(s);
      var i: nat :| TrimmedAt(r, s, i);
      assert r[0] == s[i];
    }
  }

  /** Stripping twice is stripping once. */
  lemma StripIdempotent(s: string)
    ensures Strip(Strip(s)) == Strip(s)
  {
  }

  /** `needle` occurs in `s` starting at index 0. */
  predicate StartsWith(s: string, needle: string)
  {
    |needle| <= |s| && s[..|needle|] == needle
  }

  /** `needle in s`, searched from the left. */
  function Contains(s: string, needle: string): (b: bool)
  {
    StartsWith(s, needle) || (s != [] && Contains(s[1..], needle))
  }

  /** `needle` occurs in `s` at index `i`. */
  ghost predicate OccursAt(s: string, needle: string, i: int)
  {
    0 <= i <= |s| - |needle| && s[i..i + |needle|] == needle
  }

  /** The search finds `needle` exactly when it is a slice of `s` at some position. */
  lemma {:induction false} ContainsIsSlice(s: string, needle: string)
    ensures Contains(s, needle) <==> exists i :: OccursAt(s, needle, i)
  {
    if StartsWith(s, needle) {
      assert OccursAt(s, needle, 0);
    } else if s != [] {
      ContainsIsSlice(s[1..], needle);
      if Contains(s, needle) {
        var i :| OccursAt(s[1..], needle, i);
        assert s[i + 1..i + 1 + |needle|] == s[1..][i..i + |needle|];
        assert OccursAt(s, needle, i + 1);
      }
      if exists i :: OccursAt(s, needle, i) {
        var i :| OccursAt(s, needle, i);
        assert i != 0;
        assert s[1..][i - 1..i - 1 + |needle|] == s[i..i + |needle|];
        assert OccursAt(s[1..], needle, i - 1);
      }
    }
  }
}
