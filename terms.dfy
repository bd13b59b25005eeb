/**
 * Term extraction: the terms a bookmark contributes to the index are the
 * tokens of its title, description, notes, URL (host and path when the URL
 * parses, the raw string otherwise) and of each tag, in that order.
 */
module TermExtraction {
  import opened Types
  import opened Tokenizer

  /** The tokens of an optional field; an absent field gives none. */
  function OptionalTokens(field: Option<string>): seq<string> {
    match field
    case None => []
    case Some(text) => Tokens(text)
  }

  /** Host and path tokens of a URL that parses; the raw string's tokens otherwise. */
  function UrlTerms(url: string, parseUrl: UrlParser): seq<string> {
    if |url| == 0 then []
    else
      match parseUrl(url)
      case Some(parts) => Tokens(parts.hostname) + Tokens(parts.pathname)
      case None => Tokens(url)
  }

  /** The tokens of each tag, tag by tag. */
  function TagTerms(tags: seq<string>): seq<string> {
    if |tags| == 0 then [] else TagTerms(tags[..|tags| - 1]) + Tokens(tags[|tags| - 1])
  }

  /** The terms of a bookmark, in the order `extractTerms` pushes them. */
  function Terms(b: Bookmark, parseUrl: UrlParser): seq<string> {
    Tokens(b.title) + OptionalTokens(b.description) + OptionalTokens(b.notes)
    + UrlTerms(b.url, parseUrl) + TagTerms(b.tags)
  }

  /** `extractTerms`: push the tokens of each field in turn, then of each tag. */
  method ExtractTerms(b: Bookmark, parseUrl: UrlParser) returns (terms: seq<string>)
    ensures terms == Terms(b, parseUrl)
  {
    terms := PushFieldTerms([], Some(b.title));
    assert terms == Tokens(b.title);
    terms := PushFieldTerms(terms, b.description);
    terms := PushFieldTerms(terms, b.notes);
    terms := PushUrlTerms(terms, b.url, parseUrl);
    terms := PushTagTerms(terms, b.tags);
  }

  /** One field step of `extractTerms`: a present, non-empty field pushes its tokens. */
  method PushFieldTerms(terms: seq<string>, field: Option<string>) returns (terms': seq<string>)
    ensures terms' == terms + OptionalTokens(field)
  {
    terms' := terms;
    if field.Some? && |field.value| > 0 {
      var ts := Tokenize(field.value);
      terms' := terms' + ts;
    }
  }

  /** The URL step of `extractTerms`: host and path when the URL parses, else the raw string. */
  method PushUrlTerms(terms: seq<string>, url: string, parseUrl: UrlParser) returns (terms': seq<string>)
    ensures terms' == terms + UrlTerms(url, parseUrl)
  {
    terms' := terms;
    if |url| > 0 {
      var parsed := parseUrl(url);
      if parsed.Some? {
        var host := Tokenize(parsed.value.hostname);
        var path := Tokenize(parsed.value.pathname);
        terms' := terms' + host + path;
      } else {
        var raw := Tokenize(url);
        terms' := terms' + raw;
      }
    }
  }

  /** The tag step of `extractTerms`: each tag's tokens, tag by tag. */
  method PushTagTerms(terms: seq<string>, tags: seq<string>) returns (terms': seq<string>)
    ensures terms' == terms + TagTerms(tags)
  {
    terms' := terms;
    var k := 0;
    assert tags[..k] == [];
    while k < |tags|
      invariant 0 <= k <= |tags|
      invariant terms' == terms + TagTerms(tags[..k])
    {
      var ts := Tokenize(tags[k]);
      TagTermsStep(terms, tags, k);
      terms' := terms' + ts;
      k := k + 1;
    }
    assert tags[..k] == tags;
  }

  lemma TagTermsStep(terms: seq<string>, tags: seq<string>, k: nat)
    requires k < |tags|
    ensures terms + TagTerms(tags[..k]) + Tokens(tags[k]) == terms + TagTerms(tags[..k + 1])
  {
    assert tags[..k + 1][..k] == tags[..k];
  }

  lemma {:induction false} TagTermsAreTokens(tags: seq<string>)
    ensures forall t :: t in TagTerms(tags) ==> IsToken(t)
  {
    if |tags| > 0 {
      TagTermsAreTokens(tags[..|tags| - 1]);
      TokensAreTokens(tags[|tags| - 1]);
    }
  }

  /** Every term of a bookmark is a token: one CJK character or a run of `[a-z0-9_]`. */
  lemma TermsAreTokens(b: Bookmark, parseUrl: UrlParser)
    ensures forall t :: t in Terms(b, parseUrl) ==> IsToken(t)
  {
    TokensAreTokens(b.title);
    if b.description.Some? {
      TokensAreTokens(b.description.value);
    }
    if b.notes.Some? {
      TokensAreTokens(b.notes.value);
    }
    if |b.url| > 0 {
      match parseUrl(b.url)
      case Some(parts) =>
        TokensAreTokens(parts.hostname);
        TokensAreTokens(parts.pathname);
      case None =>
        TokensAreTokens(b.url);
    }
    TagTermsAreTokens(b.tags);
  }
}
