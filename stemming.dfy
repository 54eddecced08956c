/**
 * The `stem` wrapper of app.py: split a text on whitespace, stem each word in
 * order and join the results with single blanks. The stemmer itself (nltk's
 * Porter stemmer, `ps.stem`) is not modelled; it is the parameter `stem`.
 */
module Stemming {
  import opened Text

  /** The list `stemmed_words` the loop builds: the stemmer applied to each word. */
  function StemAll(stem: string -> string, words: seq<string>): (r: seq<string>)
    ensures |r| == |words|
    ensures (forall w :: IsToken(w) ==> IsToken(stem(w))) && AllTokens(words) ==> AllTokens(r)
  {
    seq(|words|, k requires 0 <= k < |words| => stem(words[k]))
  }

  /** The value `stem(text)` returns: empty for a text without words,
      otherwise the stems with one blank between neighbours. */
  function StemmedText(stem: string -> string, text: string): (r: string)
    ensures Split(text) == [] ==> r == ""
    ensures Split(text) != [] ==>
              |r| == |Concat(StemAll(stem, Split(text)))| + |Split(text)| - 1
  {
    Join(StemAll(stem, Split(text)))
  }

  /** `stem(text)`: builds `stemmed_words` by appending one stemmed word per
      word of `text.split()`, then joins them with blanks. */
  method StemText(stem: string -> string, text: string) returns (r: string)
    ensures r == StemmedText(stem, text)
  {
    var words := Split(text);
    var stemmedWords: seq<string> := [];
    var i := 0;
    while i < |words|
      invariant 0 <= i <= |words|
      invariant |stemmedWords| == i
      invariant forall k :: 0 <= k < i ==> stemmedWords[k] == stem(words[k])
    {
      stemmedWords := stemmedWords + [stem(words[i])];
      i := i + 1;
    }
    assert stemmedWords == StemAll(stem, words);
    r := Join(stemmedWords);
  }

  /** As long as the stemmer turns each word into a word, the stemmed text has
      as many words as the input, in the same order, and its k-th word is the
      stem of the k-th input word. */
  lemma StemKeepsWords(stem: string -> string, text: string)
    requires forall w :: IsToken(w) ==> IsToken(stem(w))
    ensures |Split(StemmedText(stem, text))| == |Split(text)|
    ensures forall k :: 0 <= k < |Split(text)| ==>
              Split(StemmedText(stem, text))[k] == stem(Split(text)[k])
  {
    var words := Split(text);
    assert AllTokens(StemAll(stem, words));
    SplitJoin(StemAll(stem, words));
  }
}
