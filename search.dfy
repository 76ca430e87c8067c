/** `find_lyrics_by_stemmed_word`: select the corpus lines whose
    preprocessed text the pattern for the stemmed word finds, render each
    line's original text, and group the selection by song. */
module Search {
  import opened Text
  import opened Corpus
  import opened Matcher
  import opened Renderer
  import opened Grouper
  import opened Tables

  /** The line is selected for the stem: `str.contains` with the pattern. */
  predicate Selected(env: Env, l: LyricLine, stem: string) {
    Contains(env, l.preprocessedText, stem)
  }

  /** `matches` with its `HighlightedText` column: the selected lines, in
      corpus order. */
  function MatchedRows(env: Env, corpus: seq<LyricLine>, stem: string): (r: seq<MatchRow>)
    ensures |r| <= |corpus|
    ensures forall m | m in r ::
      m.line in corpus && Selected(env, m.line, stem) && m.highlighted == Highlight(env, m.line.text, stem)
    ensures forall l | l in corpus && Selected(env, l, stem) :: MatchRow(l, Highlight(env, l.text, stem)) in r
  {
    if corpus == [] then []
    else
      var init, last := corpus[..|corpus| - 1], corpus[|corpus| - 1];
      assert corpus == init + [last];
      MatchedRows(env, init, stem)
        + (if Selected(env, last, stem) then [MatchRow(last, Highlight(env, last.text, stem))] else [])
  }

  /** The selection is a filter: it distributes over concatenation, so it
      keeps the corpus order... */
  lemma {:induction false} MatchedRowsConcat(env: Env, xs: seq<LyricLine>, ys: seq<LyricLine>, stem: string)
    ensures MatchedRows(env, xs + ys, stem) == MatchedRows(env, xs, stem) + MatchedRows(env, ys, stem)
    decreases |ys|
  {
    if ys == [] {
      assert xs + ys == xs;
    } else {
      var init := ys[..|ys| - 1];
      MatchedRowsConcat(env, xs, init, stem);
      assert (xs + ys)[..|xs + ys| - 1] == xs + init;
    }
  }

  /** ...and on one line it keeps exactly a selected line, with its
      rendering. */
  lemma MatchedRowsSingle(env: Env, l: LyricLine, stem: string)
    ensures MatchedRows(env, [l], stem) == if Selected(env, l, stem) then [MatchRow(l, Highlight(env, l.text, stem))] else []
  {
    assert [l][..0] == [];
  }

  /** For a stem as the stemmer returns it, a line is selected exactly when
      some word of its preprocessed text starts with the stem, ignoring
      case. */
  lemma SelectedIsPrefixSearch(env: Env, l: LyricLine, stem: string)
    requires Valid(env) && ProperStem(env, stem)
    ensures Selected(env, l, stem) <==>
      exists i: nat | i <= |l.preprocessedText| :: PrefixAt(env, l.preprocessedText, stem, i)
  {
    ContainsIsPrefixSearch(env, l.preprocessedText, stem);
  }

  /** The grouped frame for a search word. */
  function FindLyrics(env: Env, corpus: seq<LyricLine>, word: string): seq<GroupRow> {
    GroupRows(MatchedRows(env, corpus, env.stem(word)))
  }

  /** Rows of the frame come from selected lines, every selected line is in
      the row of its song, and the rows are in ascending key order, each
      holding its song's selected lines in corpus order with its album's
      display class and the joined lyrics. */
  lemma FindLyricsSpec(env: Env, corpus: seq<LyricLine>, word: string)
    ensures var stem, g := env.stem(word), FindLyrics(env, corpus, word);
      var ms := MatchedRows(env, corpus, stem);
      && (forall i, j | 0 <= i < j < |g| :: KeyLess(RowKey(g[i]), RowKey(g[j])))
      && (forall i | 0 <= i < |g| ::
            && g[i].texts == Texts(RowsWithKey(ms, RowKey(g[i])))
            && g[i].highlighted == Highlights(RowsWithKey(ms, RowKey(g[i])))
            && g[i].albumClass == CssClass(g[i].albumTitle)
            && g[i].lyrics == JoinSpace(g[i].texts)
            && exists l | l in corpus :: Selected(env, l, stem) && LineKey(l) == RowKey(g[i]))
      && (forall l | l in corpus && Selected(env, l, stem) ::
            exists i | 0 <= i < |g| :: RowKey(g[i]) == LineKey(l))
  {
    var stem, g := env.stem(word), FindLyrics(env, corpus, word);
    var ms := MatchedRows(env, corpus, stem);
    GroupRowsSpec(ms);
    forall i | 0 <= i < |g|
      ensures exists l | l in corpus :: Selected(env, l, stem) && LineKey(l) == RowKey(g[i])
    {
      var rows := RowsWithKey(ms, RowKey(g[i]));
      assert rows[0] in rows;
    }
    forall l | l in corpus && Selected(env, l, stem)
      ensures exists i | 0 <= i < |g| :: RowKey(g[i]) == LineKey(l)
    {
      var m := MatchRow(l, Highlight(env, l.text, stem));
      assert m in ms;
    }
  }

  /** The frame is empty exactly when no line is selected. */
  lemma FindLyricsEmpty(env: Env, corpus: seq<LyricLine>, word: string)
    ensures FindLyrics(env, corpus, word) == [] <==>
      forall l | l in corpus :: !Selected(env, l, env.stem(word))
  {
    FindLyricsSpec(env, corpus, word);
  }
}
