/**
 * The tokenizer of the search index: lower-case the text, turn every
 * character that is not an ASCII word character, whitespace or a CJK
 * ideograph into a space, then cut the result into maximal runs of word
 * characters and single CJK characters.
 *
 * `Segment` is the reference definition of the cut, written from the
 * front of the text; `Tokenize` is the scan the index runs, left to right
 * with a pending word buffer, and is proved to produce `Segment`'s answer.
 */
module Tokenizer {

  /** JavaScript's `\s`, and the set `trim` removes: WhiteSpace and LineTerminator. */
  predicate IsWhitespace(c: char) {
    || c == '\t' || c == '\n' || c == '\U{000B}' || c == '\U{000C}' || c == '\r' || c == ' '
    || c == '\U{00A0}' || c == '\U{1680}' || ('\U{2000}' <= c <= '\U{200A}')
    || c == '\U{2028}' || c == '\U{2029}' || c == '\U{202F}' || c == '\U{205F}'
    || c == '\U{3000}' || c == '\U{FEFF}'
  }

  /** JavaScript's `\w` in a regular expression without the `u` flag. */
  predicate IsWordChar(c: char) {
    ('a' <= c <= 'z') || ('A' <= c <= 'Z') || ('0' <= c <= '9') || c == '_'
  }

  /** The CJK Unified Ideographs range the tokenizer splits per character. */
  predicate IsCjk(c: char) {
    '\U{4E00}' <= c <= '\U{9FA5}'
  }

  /** The characters a word token is made of once the text is normalised. */
  predicate IsLowerWordChar(c: char) {
    ('a' <= c <= 'z') || ('0' <= c <= '9') || c == '_'
  }

  function ToLower(c: char): char {
    if 'A' <= c <= 'Z' then (c as int + 32) as char else c
  }

  /** Lower-case one character, then replace it by a space unless the pattern keeps it. */
  function NormalizeChar(c: char): char {
    var l := ToLower(c);
    if IsWordChar(l) || IsWhitespace(l) || IsCjk(l) then l else ' '
  }

  /** The text after lower-casing and replacement, before trimming. */
  function Scrub(text: string): string {
    seq(|text|, i requires 0 <= i < |text| => NormalizeChar(text[i]))
  }

  function TrimStart(s: string): string {
    if |s| > 0 && IsWhitespace(s[0]) then TrimStart(s[1..]) else s
  }

  function TrimEnd(s: string): string {
    if |s| > 0 && IsWhitespace(s[|s| - 1]) then TrimEnd(s[..|s| - 1]) else s
  }

  /** The text the scan runs over: scrubbed, then trimmed at both ends. */
  function Normalize(text: string): string {
    TrimEnd(TrimStart(Scrub(text)))
  }

  /** A string of characters that are neither CJK nor whitespace. */
  predicate IsWordRun(w: string) {
    forall i :: 0 <= i < |w| ==> !IsCjk(w[i]) && !IsWhitespace(w[i])
  }

  /** The length of the longest word run that starts `s`. */
  function WordLen(s: string): (n: nat)
    ensures n <= |s|
    ensures IsWordRun(s[..n])
    ensures n < |s| ==> IsCjk(s[n]) || IsWhitespace(s[n])
  {
    if |s| == 0 || IsCjk(s[0]) || IsWhitespace(s[0]) then 0
    else
      var m := WordLen(s[1..]);
      assert s[..1 + m] == [s[0]] + s[1..][..m];
      1 + m
  }

  /**
   * Reference segmentation: whitespace separates, every CJK character is a
   * token of its own, and every maximal word run is one token.
   */
  function Segment(s: string): seq<string>
    decreases |s|
  {
    if |s| == 0 then []
    else if IsCjk(s[0]) then [[s[0]]] + Segment(s[1..])
    else if IsWhitespace(s[0]) then Segment(s[1..])
    else
      var n := WordLen(s);
      [s[..n]] + Segment(s[n..])
  }

  /** What `tokenize` returns for `text`. */
  function Tokens(text: string): seq<string> {
    if |text| == 0 then [] else Segment(Normalize(text))
  }

  /** The scan of the index's tokenizer: a pending word, flushed at CJK and whitespace. */
  method Tokenize(text: string) returns (tokens: seq<string>)
    ensures tokens == Tokens(text)
  {
    if |text| == 0 {
      return [];
    }
    var normalized := Normalize(text);
    if |normalized| == 0 {
      return [];
    }
    tokens := Scan(normalized);
    // The source's final filter on `length > 0` removes nothing: see TokensAreTokens.
  }

  /** The loop of `tokenize` over the normalised text. */
  method Scan(normalized: string) returns (tokens: seq<string>)
    ensures tokens == Segment(normalized)
  {
    ghost var whole := Segment(normalized);
    tokens := [];
    var currentWord := "";
    var i := 0;
    assert currentWord + normalized[i..] == normalized;
    while i < |normalized|
      invariant 0 <= i <= |normalized|
      invariant IsWordRun(currentWord)
      invariant tokens + Segment(currentWord + normalized[i..]) == whole
    {
      assert normalized[i..] == [normalized[i]] + normalized[i + 1..];
      tokens, currentWord := ScanChar(tokens, currentWord, normalized[i], normalized[i + 1..], whole);
      i := i + 1;
    }
    assert currentWord + normalized[i..] == currentWord;
    if |currentWord| > 0 {
      SegmentWordThenBreak(currentWord, []);
      assert currentWord + [] == currentWord;
      tokens := tokens + [currentWord];
    }
  }

  /**
   * One iteration of the scan: a CJK character flushes the pending word and
   * is emitted, whitespace flushes the pending word, anything else extends it.
   */
  method ScanChar(tokens: seq<string>, currentWord: string, c: char, ghost rest: string, ghost whole: seq<string>)
    returns (tokens': seq<string>, currentWord': string)
    requires IsWordRun(currentWord)
    requires tokens + Segment(currentWord + ([c] + rest)) == whole
    ensures IsWordRun(currentWord')
    ensures tokens' + Segment(currentWord' + rest) == whole
  {
    tokens', currentWord' := tokens, currentWord;
    if IsCjk(c) {
      if |currentWord'| > 0 {
        SegmentWordThenBreak(currentWord', [c] + rest);
        tokens' := tokens' + [currentWord'];
        currentWord' := "";
      } else {
        assert currentWord' + ([c] + rest) == [c] + rest;
      }
      assert ([c] + rest)[1..] == rest;
      tokens' := tokens' + [[c]];
      assert currentWord' + rest == rest;
    } else if IsWhitespace(c) {
      if |currentWord'| > 0 {
        SegmentWordThenBreak(currentWord', [c] + rest);
        tokens' := tokens' + [currentWord'];
        currentWord' := "";
      } else {
        assert currentWord' + ([c] + rest) == [c] + rest;
      }
      assert ([c] + rest)[1..] == rest;
      assert currentWord' + rest == rest;
    } else {
      assert currentWord' + ([c] + rest) == (currentWord' + [c]) + rest;
      currentWord' := currentWord' + [c];
    }
  }

  // ----- Properties of the segmentation -----

  /** A token: one CJK character, or a non-empty run of lower-case ASCII word characters. */
  predicate IsToken(t: string) {
    || (|t| == 1 && IsCjk(t[0]))
    || (|t| > 0 && forall i :: 0 <= i < |t| ==> IsLowerWordChar(t[i]))
  }

  /** Every character is one the normalisation can leave behind. */
  predicate IsNormalText(s: string) {
    forall i :: 0 <= i < |s| ==> IsLowerWordChar(s[i]) || IsWhitespace(s[i]) || IsCjk(s[i])
  }

  function RemoveWhitespace(s: string): string {
    if |s| == 0 then []
    else (if IsWhitespace(s[0]) then [] else [s[0]]) + RemoveWhitespace(s[1..])
  }

  function Concat(ts: seq<string>): string {
    if |ts| == 0 then [] else ts[0] + Concat(ts[1..])
  }

  lemma {:induction false} WordLenConcat(s: string, t: string)
    ensures WordLen(s + t) == if WordLen(s) < |s| then WordLen(s) else |s| + WordLen(t)
  {
    if |s| == 0 {
      assert s + t == t;
    } else {
      assert (s + t)[0] == s[0];
      if !IsCjk(s[0]) && !IsWhitespace(s[0]) {
        assert (s + t)[1..] == s[1..] + t;
        WordLenConcat(s[1..], t);
      }
    }
  }

  /** A word run followed by a break (or nothing) is cut off as one token. */
  lemma SegmentWordThenBreak(w: string, rest: string)
    requires |w| > 0 && IsWordRun(w)
    requires rest == [] || IsCjk(rest[0]) || IsWhitespace(rest[0])
    ensures Segment(w + rest) == [w] + Segment(rest)
  {
    assert WordLen(w) == |w|;
    WordLenConcat(w, rest);
    var s := w + rest;
    assert s[0] == w[0];
    assert s[..|w|] == w;
    assert s[|w|..] == rest;
  }

  lemma {:induction false} SegmentTrimStart(s: string)
    ensures Segment(TrimStart(s)) == Segment(s)
  {
    if |s| > 0 && IsWhitespace(s[0]) {
      SegmentTrimStart(s[1..]);
    }
  }

  /** A trailing separator adds no token. */
  lemma {:induction false} SegmentAppendSeparator(s: string, c: char)
    requires IsWhitespace(c)
    ensures Segment(s + [c]) == Segment(s)
    decreases |s|
  {
    var sc := s + [c];
    if |s| == 0 {
      assert sc[1..] == [];
    } else {
      assert sc[0] == s[0];
      if IsCjk(s[0]) || IsWhitespace(s[0]) {
        assert sc[1..] == s[1..] + [c];
        SegmentAppendSeparator(s[1..], c);
      } else {
        var n := WordLen(s);
        WordLenConcat(s, [c]);
        assert WordLen([c]) == 0;
        assert WordLen(sc) == n;
        assert sc[..n] == s[..n];
        assert sc[n..] == s[n..] + [c];
        SegmentAppendSeparator(s[n..], c);
      }
    }
  }

  lemma {:induction false} SegmentTrimEnd(s: string)
    ensures Segment(TrimEnd(s)) == Segment(s)
    decreases |s|
  {
    if |s| > 0 && IsWhitespace(s[|s| - 1]) {
      var p := s[..|s| - 1];
      assert s == p + [s[|s| - 1]];
      SegmentAppendSeparator(p, s[|s| - 1]);
      SegmentTrimEnd(p);
    }
  }

  /** Trimming is invisible to the segmentation. */
  lemma TokensOfScrub(text: string)
    ensures Tokens(text) == Segment(Scrub(text))
  {
    if |text| > 0 {
      SegmentTrimStart(Scrub(text));
      SegmentTrimEnd(TrimStart(Scrub(text)));
    }
  }

  lemma {:induction false} RemoveWhitespaceAppend(a: string, b: string)
    ensures RemoveWhitespace(a + b) == RemoveWhitespace(a) + RemoveWhitespace(b)
  {
    if |a| > 0 {
      assert (a + b)[0] == a[0];
      assert (a + b)[1..] == a[1..] + b;
      RemoveWhitespaceAppend(a[1..], b);
    } else {
      assert a + b == b;
    }
  }

  lemma {:induction false} RemoveWhitespaceOfRun(w: string)
    requires IsWordRun(w)
    ensures RemoveWhitespace(w) == w
  {
    if |w| > 0 {
      RemoveWhitespaceOfRun(w[1..]);
    }
  }

  /** Concatenating the tokens in order gives the text with its whitespace removed. */
  lemma {:induction false} SegmentConcat(s: string)
    ensures Concat(Segment(s)) == RemoveWhitespace(s)
    decreases |s|
  {
    if |s| > 0 {
      if IsCjk(s[0]) {
        SegmentConcat(s[1..]);
        assert ([[s[0]]] + Segment(s[1..]))[1..] == Segment(s[1..]);
      } else if IsWhitespace(s[0]) {
        SegmentConcat(s[1..]);
      } else {
        var n := WordLen(s);
        SegmentConcat(s[n..]);
        assert ([s[..n]] + Segment(s[n..]))[1..] == Segment(s[n..]);
        assert s == s[..n] + s[n..];
        RemoveWhitespaceAppend(s[..n], s[n..]);
        RemoveWhitespaceOfRun(s[..n]);
      }
    }
  }

  /** The segmentation is empty exactly when the text is all whitespace. */
  lemma {:induction false} SegmentEmpty(s: string)
    ensures Segment(s) == [] <==> forall i :: 0 <= i < |s| ==> IsWhitespace(s[i])
    decreases |s|
  {
    if |s| > 0 && IsWhitespace(s[0]) {
      SegmentEmpty(s[1..]);
      assert forall i :: 1 <= i < |s| ==> s[i] == s[1..][i - 1];
    }
  }

  /** On normalised text every segment is a token. */
  lemma {:induction false} SegmentTokens(s: string)
    requires IsNormalText(s)
    ensures forall t :: t in Segment(s) ==> IsToken(t)
    decreases |s|
  {
    if |s| > 0 {
      if IsCjk(s[0]) || IsWhitespace(s[0]) {
        SegmentTokens(s[1..]);
      } else {
        var n := WordLen(s);
        assert forall i :: 0 <= i < n ==> s[..n][i] == s[i];
        SegmentTokens(s[n..]);
      }
    }
  }

  lemma ScrubIsNormal(text: string)
    ensures IsNormalText(Scrub(text))
  {
  }

  // ----- Properties of `tokenize` -----

  /** Every token is non-empty: one CJK character or a run of `[a-z0-9_]`. */
  lemma TokensAreTokens(text: string)
    ensures forall t :: t in Tokens(text) ==> IsToken(t)
  {
    TokensOfScrub(text);
    ScrubIsNormal(text);
    SegmentTokens(Scrub(text));
  }

  /** The tokens, concatenated in order, are the normalised text without its whitespace. */
  lemma TokensConcat(text: string)
    ensures Concat(Tokens(text)) == RemoveWhitespace(Normalize(text))
  {
    if |text| > 0 {
      SegmentConcat(Normalize(text));
    }
  }

  /** `tokenize` returns nothing exactly when the text holds no word character and no CJK character. */
  lemma TokensEmpty(text: string)
    ensures Tokens(text) == [] <==> forall i :: 0 <= i < |text| ==> !IsWordChar(text[i]) && !IsCjk(text[i])
  {
    TokensOfScrub(text);
    SegmentEmpty(Scrub(text));
    var s := Scrub(text);
    assert forall i :: 0 <= i < |text| ==> s[i] == NormalizeChar(text[i]);
  }

  /** A run of lower-case ASCII word characters is one word run. */
  lemma LowerWordRun(w: string)
    requires forall i :: 0 <= i < |w| ==> IsLowerWordChar(w[i])
    ensures IsWordRun(w)
  {
  }

  /** "Hello World": lower-cased and split at the space. */
  lemma TokensHelloWorld(text: string)
    requires text == "Hello World"
    ensures Tokens(text) == ["hello", "world"]
  {
    assert Tokens(text) == Segment("hello" + " " + "world") by {
      ScrubHelloWorld();
      TokensOfScrub(text);
    }
    assert Segment("hello" + " " + "world") == ["hello", "world"] by {
      SegmentTwoWords("hello", "world");
    }
  }

  lemma ScrubHelloWorld()
    ensures Scrub("Hello World") == "hello" + " " + "world"
  {
    assert ToLower('H') == 'h' && ToLower('W') == 'w';
    var s := Scrub("Hello World");
    assert |s| == 11;
    forall i | 0 <= i < 11
      ensures s[i] == ("hello" + " " + "world")[i]
    {
    }
  }

  lemma SegmentTwoWords(a: string, b: string)
    requires |a| > 0 && |b| > 0
    requires forall i :: 0 <= i < |a| ==> IsLowerWordChar(a[i])
    requires forall i :: 0 <= i < |b| ==> IsLowerWordChar(b[i])
    ensures Segment(a + " " + b) == [a, b]
  {
    LowerWordRun(a);
    LowerWordRun(b);
    assert a + " " + b == a + (" " + b);
    SegmentWordThenBreak(a, " " + b);
    assert (" " + b)[1..] == b;
    assert b == b + [];
    SegmentWordThenBreak(b, []);
  }

  /** An accented letter is not a word character: it separates like punctuation. */
  lemma TokensAccented(text: string)
    requires text == "caf\U{00E9}!"
    ensures Tokens(text) == ["caf"]
  {
    assert Scrub(text) == "caf  ";
    TokensOfScrub(text);
    LowerWordRun("caf");
    assert "caf  " == "caf" + "  ";
    SegmentWordThenBreak("caf", "  ");
    assert "  "[1..] == " ";
    assert " "[1..] == [];
  }

  /** Each CJK character is a token of its own; a following Latin word is one token. */
  lemma TokensCjkThenWord(a: char, b: char, w: string)
    requires IsCjk(a) && IsCjk(b) && |w| > 0
    requires forall i :: 0 <= i < |w| ==> IsLowerWordChar(w[i])
    ensures Tokens([a, b] + w) == [[a], [b], w]
  {
    var text := [a, b] + w;
    assert text == [a] + ([b] + w);
    assert forall i :: 0 <= i < |text| ==> IsLowerWordChar(text[i]) || IsCjk(text[i]) by {
      assert forall i :: 2 <= i < |text| ==> text[i] == w[i - 2];
    }
    ScrubKeeps(text);
    TokensOfScrub(text);
    SegmentCjk(a, [b] + w);
    SegmentCjk(b, w);
    LowerWordRun(w);
    assert w == w + [];
    SegmentWordThenBreak(w, []);
  }

  lemma TokensMixedScripts(text: string)
    requires text == "\U{4F60}\U{597D}world"
    ensures Tokens(text) == ["\U{4F60}", "\U{597D}", "world"]
  {
    var w := "world";
    assert text == ['\U{4F60}', '\U{597D}'] + w;
    TokensCjkThenWord('\U{4F60}', '\U{597D}', w);
  }

  /** Text made of lower-case word characters and CJK characters is left as it is. */
  lemma ScrubKeeps(text: string)
    requires forall i :: 0 <= i < |text| ==> IsLowerWordChar(text[i]) || IsCjk(text[i])
    ensures Scrub(text) == text
  {
    var s := Scrub(text);
    assert forall i :: 0 <= i < |text| ==> s[i] == NormalizeChar(text[i]) == text[i];
  }

  /** A CJK character in front of the text is a token of its own. */
  lemma SegmentCjk(c: char, rest: string)
    requires IsCjk(c)
    ensures Segment([c] + rest) == [[c]] + Segment(rest)
  {
    assert ([c] + rest)[1..] == rest;
  }
}
