/** `highlight_and_make_clickable` and `make_word_clickable`: every
    whitespace token of a lyric line becomes an anchor that re-runs the
    search, or an inert span for the hard-coded stopwords, wrapped in a
    highlight span when its stem matches the query stem. */
module Renderer {
  import opened Text
  import opened Markup
  import opened Matcher

  /** The stopword set written out in `highlight_and_make_clickable`; it is
      not the index stopword set. */
  const ClickStopwords: set<string> := {
    "i", "me", "my", "myself", "we", "our", "ours", "ourselves", "you", "your", "yours", "yourself", "yourselves",
    "he", "him", "his", "himself", "she", "her", "hers", "herself", "it", "its", "itself", "they", "them",
    "their", "theirs", "themselves", "what", "which", "who", "whom", "this", "that", "these", "those", "am",
    "is", "are", "was", "were", "be", "been", "being", "have", "has", "had", "having", "do", "does", "did",
    "doing", "a", "an", "the", "and", "but", "if", "or", "because", "as", "until", "while", "of", "at", "by",
    "for", "with", "about", "against", "between", "into", "through", "during", "before", "after", "above",
    "below", "to", "from", "up", "down", "in", "out", "on", "off", "over", "under", "again", "further", "then",
    "once", "here", "there", "when", "where", "why", "how", "all", "any", "both", "each", "few", "more", "most",
    "other", "some", "such", "no", "nor", "not", "only", "own", "same", "so", "than", "too", "very", "s", "t",
    "can", "will", "just", "don", "should", "now"
  }

  const HighlightOpen: string := "<span class=\"highlight\">"
  const NonClickableOpen: string := "<span class=\"non-clickable-word\">"
  const AnchorOpen: string := "<a href=\""

  /** The word should render as a link: its lowercase form, punctuation and
      all, is not a hard-coded stopword. */
  predicate IsClickable(word: string) {
    Lower(word) !in ClickStopwords
  }

  /** `make_word_clickable(word)`. The href carries the raw word; the onclick
      argument and the visible text carry the escaped word. */
  function Clickable(env: Env, word: string): string {
    if IsClickable(word) then Anchor(env, word) else Span(word)
  }

  /** The search link for a word. */
  function Anchor(env: Env, word: string): string {
    AnchorOpen + env.clientUrl + "/lyricmatcher?query=" + word
      + "\" class=\"clickable-word\" onclick=\"searchWord('" + Escape(word) + "')\">"
      + Escape(word) + "</a>"
  }

  /** The inert span for a hard-coded stopword. */
  function Span(word: string): string {
    NonClickableOpen + Escape(word) + "</span>"
  }

  /** The token-level regex test: the stem of the token without its
      punctuation matches the query stem at its start. */
  predicate IsHighlighted(env: Env, word: string, stem: string) {
    TokenMatches(env, env.stem(StripPunct(env, word)), stem)
  }

  function RenderToken(env: Env, word: string, stem: string): string {
    if IsHighlighted(env, word, stem) then HighlightOpen + Clickable(env, word) + "</span>"
    else Clickable(env, word)
  }

  function Renderings(env: Env, words: seq<string>, stem: string): seq<string> {
    seq(|words|, i requires 0 <= i < |words| => RenderToken(env, words[i], stem))
  }

  /** `highlight_and_make_clickable(text, query, stemmed_word)`; the query
      argument is unused by the source and left out. */
  function Highlight(env: Env, text: string, stem: string): string {
    JoinSpace(Renderings(env, Split(env, text), stem))
  }

  /** A token renders as an inert span exactly when its lowercase form, with
      its punctuation still attached, is a hard-coded stopword, and as a
      clickable anchor otherwise. */
  lemma ClickableKind(env: Env, word: string)
    ensures StartsWith(Clickable(env, word), NonClickableOpen) <==> !IsClickable(word)
    ensures StartsWith(Clickable(env, word), AnchorOpen) <==> IsClickable(word)
  {
    if IsClickable(word) {
      AnchorStart(env, word);
    } else {
      SpanStart(word);
    }
  }

  /** An anchor opens with `<a`, so with neither span. */
  lemma AnchorStart(env: Env, word: string)
    ensures StartsWith(Anchor(env, word), AnchorOpen)
    ensures !StartsWith(Anchor(env, word), NonClickableOpen)
    ensures !StartsWith(Anchor(env, word), HighlightOpen)
  {
    var r := Anchor(env, word);
    assert r[..|AnchorOpen|] == AnchorOpen;
    assert r[1] == 'a';
    DiffersAt(r, NonClickableOpen, 1);
    DiffersAt(r, HighlightOpen, 1);
  }

  /** An inert span opens with its own class, not the anchor's or the
      highlight's. */
  lemma SpanStart(word: string)
    ensures StartsWith(Span(word), NonClickableOpen)
    ensures !StartsWith(Span(word), AnchorOpen)
    ensures !StartsWith(Span(word), HighlightOpen)
  {
    var r := Span(word);
    assert r[..|NonClickableOpen|] == NonClickableOpen;
    assert r[1] == 's' && r[13] == 'n';
    DiffersAt(r, AnchorOpen, 1);
    DiffersAt(r, HighlightOpen, 13);
  }

  /** A token's rendering carries the highlight wrapper exactly when the
      token-level regex test succeeds. */
  lemma RenderTokenWrapped(env: Env, word: string, stem: string)
    ensures StartsWith(RenderToken(env, word, stem), HighlightOpen) <==> IsHighlighted(env, word, stem)
  {
    var r := RenderToken(env, word, stem);
    if IsHighlighted(env, word, stem) {
      assert r[..|HighlightOpen|] == HighlightOpen;
    } else if IsClickable(word) {
      AnchorStart(env, word);
    } else {
      SpanStart(word);
    }
  }

  /** For a proper query stem, a token is highlighted exactly when the stem
      of the token without its punctuation starts with the query stem,
      ignoring case. */
  lemma HighlightedIff(env: Env, word: string, stem: string)
    requires Valid(env) && ProperStem(env, stem)
    ensures StartsWith(RenderToken(env, word, stem), HighlightOpen)
        <==> StartsWithIgnoringCase(env.stem(StripPunct(env, word)), stem)
  {
    RenderTokenWrapped(env, word, stem);
    TokenMatchesIsStartsWith(env, env.stem(StripPunct(env, word)), stem);
  }

  predicate IsMarkupChar(c: char) {
    c == '<' || c == '>' || c == '"' || c == '\''
  }

  /** How many times a markup character occurs in an anchor: a fixed number
      for the anchor's own text and CLIENT_URL, plus its occurrences in the
      raw word inside the href. The escaped copies of the word add none. */
  lemma AnchorCount(env: Env, word: string, c: char)
    requires IsMarkupChar(c)
    ensures Count(c, Anchor(env, word))
      == Count(c, AnchorOpen + env.clientUrl + "/lyricmatcher?query=") + Count(c, word)
         + Count(c, "\" class=\"clickable-word\" onclick=\"searchWord('") + Count(c, "')\">") + Count(c, "</a>")
  {
    var e := Escape(word);
    CountAbsent(c, e);
    CountAround(c, AnchorOpen + env.clientUrl + "/lyricmatcher?query=", word,
                "\" class=\"clickable-word\" onclick=\"searchWord('", e, "')\">", "</a>");
  }

  /** Counting in the anchor's shape, with a piece `e` that has none of `c`
      appearing twice. */
  lemma CountAround(c: char, p: string, w: string, a: string, e: string, b: string, z: string)
    requires Count(c, e) == 0
    ensures Count(c, p + w + a + e + b + e + z) == Count(c, p) + Count(c, w) + Count(c, a) + Count(c, b) + Count(c, z)
  {
    CountConcat3(p, w, a);
    CountConcat3(p + w + a, e, b);
    CountConcat3(p + w + a + e + b, e, z);
  }

  /** An inert span holds no markup character from the word at all. */
  lemma SpanCount(word: string, c: char)
    requires IsMarkupChar(c)
    ensures Count(c, Span(word)) == Count(c, NonClickableOpen) + Count(c, "</span>")
  {
    CountAbsent(c, Escape(word));
    CountConcat3(NonClickableOpen, Escape(word), "</span>");
  }

  /** Markup injection: two words rendered the same way (both links or both
      spans) hold the same number of each of `< > " '` once the raw word in
      an anchor's href is discounted, so the word cannot add a tag or an
      attribute anywhere except through that href. */
  lemma ClickableMarkupInvariant(env: Env, w: string, v: string, c: char)
    requires IsMarkupChar(c)
    requires IsClickable(w) == IsClickable(v)
    ensures Count(c, Clickable(env, w)) + (if IsClickable(v) then Count(c, v) else 0)
         == Count(c, Clickable(env, v)) + (if IsClickable(w) then Count(c, w) else 0)
  {
    if IsClickable(w) {
      AnchorCount(env, w, c);
      AnchorCount(env, v, c);
    } else {
      SpanCount(w, c);
      SpanCount(v, c);
    }
  }

  /** The element's visible text is the escaped word, right after the end of
      the opening tag and right before the closing tag; decoding it gives
      the word back. */
  lemma ClickableVisibleText(env: Env, word: string)
    ensures IsClickable(word) ==> EndsWith(Clickable(env, word), ">" + Escape(word) + "</a>")
    ensures !IsClickable(word) ==> EndsWith(Clickable(env, word), ">" + Escape(word) + "</span>")
    ensures Unescape(Escape(word)) == word
  {
    UnescapeEscape(word);
    if IsClickable(word) {
      AnchorText(env, word);
    } else {
      SpanText(word);
    }
  }

  lemma AnchorText(env: Env, word: string)
    ensures EndsWith(Anchor(env, word), ">" + Escape(word) + "</a>")
  {
    var r := Anchor(env, word);
    var e := Escape(word);
    var q := ">" + e + "</a>";
    var pre := AnchorOpen + env.clientUrl + "/lyricmatcher?query=" + word
      + "\" class=\"clickable-word\" onclick=\"searchWord('" + e + "')\"";
    assert r == pre + q;
    assert r[|r| - |q|..] == q;
  }

  lemma SpanText(word: string)
    ensures EndsWith(Span(word), ">" + Escape(word) + "</span>")
  {
    var r := Span(word);
    var e := Escape(word);
    var q := ">" + e + "</span>";
    var pre := "<span class=\"non-clickable-word\"";
    assert r == pre + q;
    assert r[|r| - |q|..] == q;
  }

  /** A line of one token renders as that token. */
  lemma HighlightSingle(env: Env, word: string, stem: string)
    requires word != [] && NoSpace(env, word)
    ensures Highlight(env, word, stem) == RenderToken(env, word, stem)
  {
    SplitWordThen(env, word, "");
    assert word + "" == word;
  }

  /** Rendering works token by token: the rendering of two texts joined by a
      space is their renderings joined by one space. */
  lemma HighlightConcat(env: Env, a: string, b: string, stem: string)
    requires env.isSpace(' ')
    requires Split(env, a) != [] && Split(env, b) != []
    ensures Highlight(env, a + " " + b, stem) == Highlight(env, a, stem) + " " + Highlight(env, b, stem)
  {
    SplitAroundSpace(env, a, b);
    var xs, ys := Split(env, a), Split(env, b);
    RenderingsConcat(env, xs, ys, stem);
    JoinSpaceConcat(Renderings(env, xs, stem), Renderings(env, ys, stem));
  }

  lemma RenderingsConcat(env: Env, xs: seq<string>, ys: seq<string>, stem: string)
    ensures Renderings(env, xs + ys, stem) == Renderings(env, xs, stem) + Renderings(env, ys, stem)
  {
    var r, p, q := Renderings(env, xs + ys, stem), Renderings(env, xs, stem), Renderings(env, ys, stem);
    assert |r| == |p + q|;
    forall i | 0 <= i < |r| ensures r[i] == (p + q)[i] {
      if i < |xs| {
        assert (xs + ys)[i] == xs[i];
      } else {
        assert (xs + ys)[i] == ys[i - |xs|];
      }
    }
  }

  /** Runs of whitespace in the original text do not show in the rendering:
      it is the rendering of the text re-joined with single spaces. */
  lemma HighlightCollapsesSpaces(env: Env, text: string, stem: string)
    requires env.isSpace(' ')
    ensures Highlight(env, JoinSpace(Split(env, text)), stem) == Highlight(env, text, stem)
  {
    SplitJoin(env, Split(env, text));
  }

  /** A hard-coded stopword renders as an inert span whatever its case. */
  lemma StopwordExample()
    ensures !IsClickable("The") && !IsClickable("the")
  {
    assert Lower("The") == "the";
    assert Lower("the") == "the";
    assert "the" in ClickStopwords;
  }
}
