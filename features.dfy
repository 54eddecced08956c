/**
 * The per-row construction of the `features` column in app.py: the Genres and
 * sypnopsis strings are split into word lists, each word has its blanks
 * removed, the two lists are concatenated and joined with blanks, the text is
 * stemmed word by word and finally lower-cased.
 */
module Features {
  import opened Text
  import opened Stemming

  /** `[i.replace(" ", "") for i in x]`, applied to a split column. */
  function DropBlanksAll(ws: seq<string>): (r: seq<string>)
    ensures |r| == |ws|
    ensures forall k, i :: 0 <= k < |r| && 0 <= i < |r[k]| ==> r[k][i] != ' '
  {
    seq(|ws|, k requires 0 <= k < |ws| => DropBlanks(ws[k]))
  }

  /** `" ".join(Genres + sypnopsis)` after both columns went through `split`
      and the blank removal. Its words are the Genres words followed by the
      synopsis words, each unchanged. */
  function FeatureText(genres: string, synopsis: string): (r: string)
    ensures Split(r) == Split(genres) + Split(synopsis)
  {
    DropBlanksNoOp(Split(genres));
    DropBlanksNoOp(Split(synopsis));
    SplitJoin(Split(genres) + Split(synopsis));
    Join(DropBlanksAll(Split(genres)) + DropBlanksAll(Split(synopsis)))
  }

  /** The final value of the `features` column: the feature text stemmed,
      then lower-cased. */
  function FeatureColumn(stem: string -> string, genres: string, synopsis: string): (r: string)
    ensures forall i :: 0 <= i < |r| ==> !('A' <= r[i] <= 'Z')
    ensures Split(genres) + Split(synopsis) == [] ==> r == ""
  {
    Lower(StemmedText(stem, FeatureText(genres, synopsis)))
  }

  /** Removing blanks from the words of a split changes none of them. */
  lemma DropBlanksNoOp(ws: seq<string>)
    requires AllTokens(ws)
    ensures DropBlanksAll(ws) == ws
  {
    forall k | 0 <= k < |ws|
      ensures DropBlanksAll(ws)[k] == ws[k]
    {
      assert IsSpace(' ');
    }
  }

  /** When the stemmer turns words into words, the words of the final
      `features` value are, in order, the lower-cased stems of the Genres words
      followed by those of the synopsis words. */
  lemma FeatureColumnTokens(stem: string -> string, genres: string, synopsis: string)
    requires forall w :: IsToken(w) ==> IsToken(stem(w))
    ensures Split(FeatureColumn(stem, genres, synopsis))
         == LowerAll(StemAll(stem, Split(genres) + Split(synopsis)))
  {
    var text := FeatureText(genres, synopsis);
    SplitLower(StemmedText(stem, text));
    StemKeepsWords(stem, text);
    assert Split(StemmedText(stem, text)) == StemAll(stem, Split(text));
  }
}
