/** `tokenize_japanese`: the morphological analyzer's base forms, filtered.
    The analyzer itself is a parameter: a function from text to the sequence
    of base forms of its morphemes, in text order. */
module Tokens {
  import opened Text

  /** The filter of subtitle_parser.py:33: not a stopword (the raw base form
      is looked up) and longer than one character once stripped. */
  predicate Keeps(base: string, stopwords: set<string>) {
    base !in stopwords && |Strip(base)| > 1
  }

  /** The base forms that pass the filter, in their original order. */
  function FilterTokens(bases: seq<string>, stopwords: set<string>): (r: seq<string>)
    ensures IsSubseq(r, bases)
    ensures forall i | 0 <= i < |r| :: Keeps(r[i], stopwords)
    ensures forall b | Keeps(b, stopwords) :: multiset(r)[b] == multiset(bases)[b]
  {
    if bases == [] then []
    else
      assert bases == [bases[0]] + bases[1..];
      var rest := FilterTokens(bases[1..], stopwords);
      if Keeps(bases[0], stopwords) then [bases[0]] + rest else rest
  }

  /** `tokenize_japanese(text)` with the analyzer `analyze`. */
  function Tokenize(text: string, stopwords: set<string>, analyze: string -> seq<string>): (r: seq<string>)
    ensures forall i | 0 <= i < |r| :: Keeps(r[i], stopwords)
  {
    FilterTokens(analyze(text), stopwords)
  }

  /** The filter is the identity on tokens that already pass it, so filtering
      twice is filtering once. */
  lemma {:induction false} FilterTokensIdempotent(bases: seq<string>, stopwords: set<string>)
    ensures FilterTokens(FilterTokens(bases, stopwords), stopwords) == FilterTokens(bases, stopwords)
  {
    if bases != [] {
      FilterTokensIdempotent(bases[1..], stopwords);
    }
  }

  /** A single-character base form is never counted, whatever the stopwords. */
  lemma SingleCharacterDropped(c: char, bases: seq<string>, stopwords: set<string>)
    ensures [c] !in FilterTokens(bases, stopwords)
  {
    assert |Strip([c])| <= 1;
    var r := FilterTokens(bases, stopwords);
    assert forall i | 0 <= i < |r| :: r[i] != [c];
  }
}
