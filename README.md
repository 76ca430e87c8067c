# Lyric search core of `app.py`, modelled in Dafny

The Flask service in `app.py` searches a fixed corpus of song lyrics for a
word. At start-up it flattens the nested album → song → lyric document into
one record per lyric line and stores a normalised copy of each line's text:
punctuation removed, index stopwords dropped, each token stemmed. For a
query it:

1. strips the punctuation from the query;
2. stems it;
3. selects every line whose normalised text matches `\b<stem>\w*\b`,
   ignoring case;
4. renders each selected line's original text token by token (a search link
   or an inert span per token, plus a highlight wrapper for tokens whose stem
   matches);
5. groups the selected lines by (album, track, year);
6. buckets the groups by album;
7. sorts the buckets by a fixed album order.

The model has one module per stage:

- `Text` (text.dfy): character classes, punctuation stripping,
  `str.split`, `' '.join`.
- `Normalizer` (normalizer.dfy): `preprocess_lyrics`.
- `Corpus` (corpus.dfy): the records, and the loader as a method with nested
  loops. The record builder takes the normaliser as a function value, and the
  loader instantiates it with `preprocess_lyrics`.
- `Matcher` (matcher.dfy): the pattern.
- `Markup` (markup.dfy): `escape`.
- `Renderer` (renderer.dfy): `highlight_and_make_clickable`.
- `Ordering` (ordering.dfy): Python's order on `str`.
- `Tables` (tables.dfy): the two album tables.
- `Grouper` (grouper.dfy): the pandas `groupby`.
- `Search` (search.dfy): `find_lyrics_by_stemmed_word`.
- `Ranking` (ranking.dfy): the stable `sorted`.
- `Service` (service.dfy): the `similiar_lyrics` handler. The bucketing loop
  is a method.

The parts the code takes from libraries are fields of an `Env` value:

- the Porter stemmer;
- Python's `\w` class;
- Python's whitespace class. `\s` and `str.split()` use the same one, so `Env.isSpace` stands for both;
- the NLTK stopword set;
- `CLIENT_URL`.

Lemmas that need one of these to behave a certain way say so in their
`requires` (for example `Valid`, `StemKeepsTokens` or `StemSettles`).

Behaviour the model keeps as `app.py` has it:

- `\w` is Python's Unicode word class. The model takes it as the parameter
  `isWord`.
- `preprocess_lyrics` lowercases only for the stopword test. The text it
  returns is as the stemmer leaves it.
- A whitespace-only query is truthy, so the search runs on it.
- Clickability tests the raw token, punctuation included, in lowercase,
  against the set written out in `highlight_and_make_clickable`. That set is
  separate from the NLTK set used by `preprocess_lyrics`.
- The href carries the raw word. Only the onclick argument and the visible
  text are escaped.
- Albums missing from `album_order` all get the same key and keep their
  order from the dictionary. That order is ascending by title because the
  groups come out of `groupby` sorted by key. The model proves it as
  ascending title order among albums of equal rank.
- The two album tables spell "The Tortured Poets Department" differently.
  So that album gets its display class but ranks after every listed album
  (`Tables.TorturedPoetsClassed`).

## Model

| member | source | states |
|---|---|---|
| Text.JoinSpace | app.py:37 | `' '.join`: the tokens with one space between each pair; see SplitJoin, JoinSpaceConcat, JoinSpaceEmpty |
| Text.StripPunct | app.py:35 | the result has only word and whitespace characters, and keeps every one of them from the input, as many times as they occur |
| Text.StripPunctConcat | app.py:35 | stripping distributes over concatenation (characters are deleted, not replaced) |
| Text.StripPunctIdempotent | app.py:35 | stripping twice is stripping once |
| Text.StripPunctKeepsKept | app.py:123 | a string of word and whitespace characters is left unchanged |
| Text.StripPunctNoSpace | app.py:99 | stripping a whitespace-free token leaves it whitespace-free |
| Text.Lower | app.py:37 | lowercasing keeps the length |
| Text.TokenLen | app.py:36 | the leading token is a maximal run of non-whitespace characters |
| Text.Split | app.py:36 | every token of `str.split` is non-empty and has no whitespace |
| Text.SplitWordThen | app.py:36 | a whitespace-free word followed by whitespace (or nothing) splits into that word and then the rest's tokens |
| Text.SplitJoin | app.py:37 | splitting the single-space join of non-empty whitespace-free tokens gives back exactly those tokens |
| Text.SplitAroundSpace | app.py:100 | splitting `a + " " + b` gives the tokens of `a` followed by those of `b` |
| Text.TokenNoSpace | app.py:36 | the leading token has no whitespace |
| Text.StripPunctLeadingSpace | app.py:35-36 | stripping keeps a leading whitespace character in front |
| Text.SplitStripPunctCount | app.py:35-36 | removing punctuation never adds tokens |
| Text.JoinSpaceConcat | app.py:97 | the join of two non-empty lists is their joins separated by one space |
| Normalizer.Preprocess | app.py:34-37 | `preprocess_lyrics`: the stems of the non-stopword tokens of the stripped text, joined by single spaces; see PreprocessSplits, PreprocessTokenBound, PreprocessAllStopwords, PreprocessEmptyIff, PreprocessIdempotent |
| Normalizer.Tokens | app.py:35-36 | `re.sub(r'[^\w\s]', '', text).split()`: the tokens of the stripped text; see TokensAreWords, SplitStripPunctCount, PreprocessTokenBound |
| Normalizer.KeptTokens | app.py:37 | the kept tokens are exactly the non-stopword tokens, with no more of them than the input |
| Normalizer.Stems | app.py:37 | one stem per kept token |
| Normalizer.TokensAreWords | app.py:35-36 | every token of the stripped text is a non-empty run of word characters |
| Normalizer.SplitSubstring | app.py:36 | every character of a token occurs in the split string |
| Normalizer.PreprocessSplits | app.py:34-37 | the normalised text splits back into one stem per kept token, in order |
| Normalizer.PreprocessTokenBound | app.py:34-37 | the normalised text has no more tokens than the original |
| Normalizer.KeptTokensEmpty | app.py:37 | nothing is kept exactly when every token is a stopword |
| Normalizer.JoinSpaceEmpty | app.py:37 | a join of non-empty strings is empty exactly when there are none |
| Normalizer.PreprocessAllStopwords | app.py:34-37 | empty or all-stopword input normalises to "" |
| Normalizer.PreprocessEmptyIff | app.py:34-37 | with a stemmer that keeps words non-empty, all-stopword input is the only way to get "" |
| Normalizer.JoinSpaceKept | app.py:37 | a space-join of word-character tokens holds only word characters and spaces |
| Normalizer.KeptTokensAll | app.py:37 | tokens none of which is a stopword are all kept, in order |
| Normalizer.PreprocessIdempotent | app.py:34-37 | normalising normalised text changes nothing, for a stemmer whose stems are their own stems and not stopwords |
| Corpus.LyricLine | app.py:48-58 | the record dict with its nine keys; see FlattenAt, FlattenSound |
| Corpus.Normalised | app.py:57 | `preprocess_lyrics` as the function applied to each text; see BuildCorpus, FlattenSound |
| Corpus.SongLines | app.py:44-58 | the records of one song, in entry order; see SongLinesSnoc, AppendSong |
| Corpus.AlbumLines | app.py:42-58 | the records of one album, song after song; see AlbumLinesSnoc, AlbumLinesLength, AlbumLinesConcat, AlbumLinesAt, AlbumLinesSound, AppendAlbum |
| Corpus.Line | app.py:48-57 | the record appended for one lyric entry: album code, title and year, track number and title, order, song part, text, and the normalised text; see AlbumLinesAt, FlattenAt |
| Corpus.Flatten | app.py:39-58 | the records of all albums, album after album, song after song, lyric after lyric; see FlattenLength, FlattenAt, FlattenSound, FlattenConcat |
| Corpus.BuildCorpus | app.py:39-58 | the nested loops append exactly the flattened records, one per lyric entry, each with `PreprocessedText` the `preprocess_lyrics` of its `Text` |
| Corpus.AppendAlbum | app.py:44-58 | the loop over an album's songs appends exactly that album's records |
| Corpus.AppendSong | app.py:47-58 | the loop over a song's lyric entries appends exactly that song's records, in entry order |
| Corpus.SongLinesSnoc | app.py:47-58 | one more lyric entry adds exactly its record at the end of the song's records |
| Corpus.AlbumLinesSnoc | app.py:44-58 | one more song adds exactly its records at the end of the album's records |
| Corpus.FlattenSnoc | app.py:40-58 | one more album adds exactly its records at the end of the corpus |
| Corpus.AlbumLinesLength | app.py:44-58 | an album gives one record per lyric entry of its songs |
| Corpus.FlattenLength | app.py:39-58 | the corpus has one record per lyric entry |
| Corpus.AlbumLinesConcat | app.py:44-58 | an album's records for two song lists are their records in sequence |
| Corpus.FlattenConcat | app.py:40-58 | the records of two album lists are their records in sequence |
| Corpus.AlbumLinesAt | app.py:44-58 | the record of song s, entry l sits after all records of the earlier songs and carries that album, song and entry |
| Corpus.FlattenAt | app.py:39-58 | the record of album a, song s, entry l is at its album→song→lyric nesting position and carries their fields |
| Corpus.AlbumLinesSound | app.py:44-58 | every record of an album comes from one of its songs' entries |
| Corpus.FlattenSound | app.py:39-58 | every record comes from some album, song and entry, with `PreprocessedText` the normalised `Text` |
| Matcher.Boundary | app.py:96 | `\b`: a word character on exactly one side, outside the string counting as non-word; see MatchAtIsRegex, MatchAtIsPrefix, ContainsIsPrefixSearch |
| Matcher.RegexMatchAt | app.py:96 | the backtracking reading of `\b<stem>\w*\b`: some run of word characters after the stem ends at a boundary; see MatchAtIsRegex |
| Matcher.MatchAt | app.py:96 | `\b<stem>\w*\b` matches at a position, ignoring case; see MatchAtIsRegex, MatchAtIsPrefix |
| Matcher.Contains | app.py:108-109 | `str.contains` with the pattern: it matches at some position; see ContainsIsPrefixSearch |
| Matcher.TokenMatches | app.py:96-99 | `word_regex.match`: the pattern matches at position 0; see TokenMatchesIsStartsWith |
| Matcher.RunEnd | app.py:96 | greedy `\w*` stops at the end of the run of word characters |
| Matcher.MatchAtIsRegex | app.py:96 | trying only the empty and the whole run for `\w*` finds every match the backtracking reading allows |
| Matcher.SameCaseWord | app.py:96 | characters equal up to case are both word characters or neither |
| Matcher.MatchAtIsPrefix | app.py:108-109 | for a proper stem the pattern matches at a position exactly when a word boundary there starts the stem, ignoring case |
| Matcher.TokenMatchesIsStartsWith | app.py:96-99 | anchored at a token's start, the pattern asks that the token start with the stem, ignoring case |
| Matcher.ContainsIsPrefixSearch | app.py:108-109 | a line matches exactly when some word boundary of it starts the stem, ignoring case |
| Markup.Escape | app.py:93-94 | escaping never shortens, and leaves no `< > " '` |
| Markup.UnescapeAfterChar | app.py:93-94 | decoding an escaped character followed by anything gives the character first |
| Markup.UnescapeEscape | app.py:93-94 | decoding the escaped word gives back the word |
| Markup.EscapePlain | app.py:93-94 | a word with none of the five characters is left as is |
| Renderer.ClickStopwords | app.py:78-89 | the hard-coded stopword set of `highlight_and_make_clickable`; see ClickableKind, StopwordExample |
| Renderer.IsClickable | app.py:92 | the token's lowercase, punctuation attached, is not in the hard-coded set; see ClickableKind, StopwordExample |
| Renderer.Clickable | app.py:91-94 | `make_word_clickable`: the anchor for a clickable token, the inert span otherwise; see ClickableKind, ClickableVisibleText, ClickableMarkupInvariant |
| Renderer.Anchor | app.py:93 | the search link: raw word in the href, escaped word in the onclick argument and the text; see AnchorStart, AnchorCount, AnchorText |
| Renderer.Span | app.py:94 | the inert span around the escaped word; see SpanStart, SpanCount, SpanText |
| Renderer.IsHighlighted | app.py:99 | the pattern matches the stem of the stripped token; see HighlightedIff |
| Renderer.RenderToken | app.py:97-99 | the token's rendering, in the highlight span when highlighted; see RenderTokenWrapped, HighlightedIff |
| Renderer.Renderings | app.py:97-100 | the list comprehension: one rendering per token, in order; see HighlightSingle, RenderingsConcat, HighlightConcat |
| Renderer.Highlight | app.py:96-101 | `highlight_and_make_clickable`: the renderings of the tokens of `text.split()`, joined by single spaces; see HighlightSingle, HighlightConcat, HighlightCollapsesSpaces |
| Renderer.ClickableKind | app.py:91-94 | a token renders as the inert span exactly when its lowercase, punctuation attached, is a hard-coded stopword; otherwise as the anchor |
| Renderer.RenderTokenWrapped | app.py:97-99 | a rendering starts with the highlight span exactly when the token-level pattern matches the stem of the stripped token |
| Renderer.HighlightedIff | app.py:96-99 | for a proper stem: highlighted exactly when the stripped token's stem starts with the query stem, ignoring case |
| Renderer.AnchorStart | app.py:93 | an anchor opens with `<a href="`, so with neither span |
| Renderer.SpanStart | app.py:94 | an inert span opens with its own class, not with the anchor or the highlight |
| Renderer.AnchorCount | app.py:93 | in an anchor, `< > " '` come only from the fixed text, `CLIENT_URL` and the raw word in the href |
| Renderer.CountAround | app.py:93 | two copies of a piece with no `c` add no `c` to the anchor's shape |
| Renderer.SpanCount | app.py:94 | in an inert span, `< > " '` come only from the fixed tags |
| Renderer.ClickableMarkupInvariant | app.py:91-94 | two words rendered the same way hold equally many markup characters, once the raw href word is discounted |
| Renderer.ClickableVisibleText | app.py:93-94 | the visible text is the escaped word, just before the closing tag, and decodes to the word |
| Renderer.AnchorText | app.py:93 | an anchor ends with the escaped word and `</a>` |
| Renderer.SpanText | app.py:94 | an inert span ends with the escaped word and `</span>` |
| Renderer.HighlightSingle | app.py:97-101 | a one-token line renders as that token's rendering |
| Renderer.RenderingsConcat | app.py:100 | rendering the tokens of two lists is rendering each list |
| Renderer.HighlightConcat | app.py:97-101 | rendering goes token by token: the rendering of `a + " " + b` is the renderings joined by one space |
| Renderer.HighlightCollapsesSpaces | app.py:97-101 | whitespace runs do not show: the rendering equals that of the single-space re-join |
| Renderer.StopwordExample | app.py:78-92 | helper: one sample of the set, "The" and "the" are not clickable; ClickableKind states the general rule |
| Ordering.StrLess | app.py:112 | Python's `<` on `str`: code-point lexicographic order; see StrLessIrreflexive, StrLessTransitive, StrLessTotal, StrLessAsymmetric |
| Ordering.StrLessIrreflexive | app.py:112 | no string sorts before itself |
| Ordering.StrLessTransitive | app.py:112 | `str` order is transitive |
| Ordering.StrLessTotal | app.py:112 | any two different strings are ordered one way |
| Ordering.StrLessAsymmetric | app.py:112 | never both `a < b` and `b < a` |
| Tables.AlbumCssClasses | app.py:62-74 | the album-to-class table; see TorturedPoetsClassed, TorturedPoetsListed, GroupRowsClassed |
| Tables.AlbumOrder | app.py:136-148 | the canonical album order; see RankIsPosition, TorturedPoetsClassed, TorturedPoetsListed |
| Tables.CssClass | app.py:116 | `album_css_classes.get(title, '')` over the table at app.py:62-74; see TorturedPoetsClassed, TorturedPoetsListed |
| Tables.Rank | app.py:150 | the sort key: the position in `album_order`, or its length when absent; see RankIsPosition, TorturedPoetsClassed |
| Tables.IndexOf | app.py:150 | the rank is the first position of the title, or the length when absent |
| Tables.RankIsPosition | app.py:150 | a listed album ranks by its position, and every unlisted album at the length of the list |
| Tables.AlbumOrderLengths | app.py:136-148 | helper for TorturedPoetsClassed and TorturedPoetsListed: the lengths of the titles in `album_order` |
| Tables.TorturedPoetsClassed | app.py:73 | the class table's spelling has its class and ranks after every listed album |
| Tables.TorturedPoetsListed | app.py:147 | the order's spelling ranks 10 and has no display class |
| Grouper.KeyLess | app.py:112 | the tuple order on (album, track, year) that `groupby` sorts by; see KeyLessIrreflexive, KeyLessTransitive, KeyLessTotal, KeyLessAsymmetric |
| Grouper.KeyLessIrreflexive | app.py:112 | no key sorts before itself |
| Grouper.KeyLessTransitive | app.py:112 | key order is transitive |
| Grouper.KeyLessTotal | app.py:112 | any two different keys are ordered |
| Grouper.KeyLessAsymmetric | app.py:112 | key order is asymmetric |
| Grouper.RowsWithKey | app.py:112-115 | a group's rows are exactly the matched rows with its key |
| Grouper.Texts | app.py:113 | one text per row |
| Grouper.Highlights | app.py:114 | one highlighted text per row, as many as texts |
| Grouper.LookupAbsent | app.py:112 | a key with no group has no rows |
| Grouper.LookupAt | app.py:112 | with distinct keys, looking up a group's key gives its rows |
| Grouper.KeysCons | app.py:112 | the keys of a group list with one more group at the front |
| Grouper.OrderedSplit | app.py:112 | the tail of ascending groups is ascending, and all above the head |
| Grouper.AddRow | app.py:112-115 | one row added to key-sorted groups: appended to its key's group, or a new group in key order; see AddRowKeys, AddRowOrdered, AddRowLookup |
| Grouper.AddRowKeys | app.py:112-115 | adding a row adds its key and no other |
| Grouper.OrderedCons | app.py:112 | a non-empty group below every key can head an ascending list |
| Grouper.OrderedExtendHead | app.py:112-115 | appending a row to the first group keeps the keys ascending |
| Grouper.OrderedNewHead | app.py:112-115 | a new group below the first key keeps the keys ascending |
| Grouper.AddRowOrdered | app.py:112-115 | adding a row keeps keys strictly ascending and no group empty |
| Grouper.AddRowLookup | app.py:112-115 | adding a row appends it to its key's group and changes no other group |
| Grouper.KeySetSnoc | app.py:112 | the keys of the rows with one more row |
| Grouper.Collect | app.py:112-115 | the groups of all matched rows, added in corpus order; see CollectSpec |
| Grouper.CollectOrdered | app.py:112-115 | the groups come in strictly ascending key order |
| Grouper.CollectKeys | app.py:112-115 | there is one group per distinct key of the rows |
| Grouper.CollectLookup | app.py:112-115 | each group holds exactly the rows with its key, in corpus order |
| Grouper.CollectSpec | app.py:112-115 | the three facts together |
| Grouper.GroupRow | app.py:112-117 | one row of the grouped frame: key, texts, highlighted texts, class and lyrics; see GroupRowsSpec |
| Grouper.Finish | app.py:116-117 | completes a group with its `AlbumClass` and `Lyrics` columns; see GroupRowsSpec, GroupRowsClassed |
| Grouper.GroupRows | app.py:112-117 | the grouped frame: one row per group with its texts, highlighted texts, class and joined lyrics; see GroupRowsSpec, GroupRowsClassed |
| Grouper.GroupRowsClassed | app.py:116 | every row carries its album's display class |
| Grouper.GroupRowsSpec | app.py:112-117 | ascending keys; each row holds its key's texts and highlighted texts in corpus order, non-empty; `AlbumClass` is the class lookup; `Lyrics` the space join; every matched row has its group |
| Search.Selected | app.py:109 | the line's normalised text contains a match of the stem; see SelectedIsPrefixSearch |
| Search.MatchedRows | app.py:109-110 | selected rows come from the corpus, match, and carry their rendering; every matching line is selected |
| Search.MatchedRowsConcat | app.py:109 | selection distributes over concatenation, so corpus order is kept |
| Search.MatchedRowsSingle | app.py:109-110 | one line is kept, with its rendering, exactly when it matches |
| Search.SelectedIsPrefixSearch | app.py:107-109 | for a proper stem a line is selected exactly when a word boundary of its normalised text starts the stem, ignoring case |
| Search.FindLyrics | app.py:106-118 | `find_lyrics_by_stemmed_word`: the grouped frame of the lines selected for the stemmed word; see FindLyricsSpec, FindLyricsEmpty |
| Search.FindLyricsSpec | app.py:106-118 | rows in ascending key order, each from selected lines with its songs' texts and renderings in corpus order, class and lyrics; every selected line in its song's row |
| Search.FindLyricsEmpty | app.py:106-118 | the frame is empty exactly when no line is selected |
| Ranking.Insert | app.py:149-151 | puts a pair after every pair of rank not above its own; see InsertSorted, InsertMultiset, InsertWithRank, InsertTies |
| Ranking.SortByRank | app.py:149-151 | `sorted` by the key, as a stable insertion sort; see SortByRankSorted, SortByRankStable, SortByRankTies |
| Ranking.WithRankConcat | app.py:149-151 | taking one rank's pairs distributes over concatenation |
| Ranking.WithRankAbove | app.py:149-151 | a list whose ranks are all above `v` has no pair of rank `v` |
| Ranking.InsertMultiset | app.py:149-151 | inserting adds exactly the one pair |
| Ranking.SortedTail | app.py:149-151 | the tail of a sorted list is sorted and not below its head |
| Ranking.SortedCons | app.py:149-151 | a head not above any pair keeps a sorted list sorted |
| Ranking.InsertSorted | app.py:149-151 | inserting into a sorted list keeps it sorted, one longer, with nothing new but the pair |
| Ranking.InsertWithRank | app.py:149-151 | the inserted pair goes after every pair of its rank |
| Ranking.SortByRankSorted | app.py:149-151 | the result is sorted by rank and a permutation of the input |
| Ranking.SortByRankStable | app.py:149-151 | stability: for every rank, its pairs keep their input order |
| Ranking.InsertTiesFront | app.py:149-151 | a pair ranked below the first of a list keeps equal-rank pairs in album order |
| Ranking.InsertTiesCons | app.py:149-151 | a head smaller than the inserted pair keeps equal-rank pairs in album order |
| Ranking.TiesTail | app.py:149-151 | the tail keeps ties in album order, and the head is below every later pair of its rank |
| Ranking.InsertTies | app.py:149-151 | inserting an album greater than all keeps equal-rank pairs in album order |
| Ranking.SortByRankTies | app.py:149-151 | for input with ascending albums, equal-rank pairs come out in ascending album order |
| Service.Cleaned | app.py:123 | the query with punctuation removed, or "" when missing or empty; see CleanedEmpty, CleanedKeepsQuery, WhitespaceQuerySearched |
| Service.Bucket | app.py:133 | the dict value `{'class': ..., 'tracks': [...]}`; see BucketByAlbum, BucketedClassed, ResponseBuckets |
| Service.FirstSeen | app.py:129-134 | the albums in the order the dictionary first gets them; see FirstSeenSpec, FirstSeenAscending |
| Service.BucketOf | app.py:130-134 | an album's bucket: the class of its first record and all its records; see BucketByAlbum, BucketedClassed |
| Service.RowsOfAlbum | app.py:129-134 | an album's tracks are exactly the records with its title |
| Service.AlbumsSnoc | app.py:129-134 | the albums of the records with one more record |
| Service.FirstSeenSnoc | app.py:129-134 | one more record adds its album if unseen and appends it to its album's tracks |
| Service.BucketingStart | app.py:128 | the empty dict and key list describe no records |
| Service.BucketStepValue | app.py:132-134 | a record creates its bucket with its class, or appends to the existing one, giving the bucket of the longer prefix |
| Service.KeysStep | app.py:132-133 | the dict keys stay the first-seen albums |
| Service.BucketsStep | app.py:132-134 | every bucket stays its album's bucket |
| Service.AbsentStep | app.py:132-134 | an album without a bucket still has no records |
| Service.BucketStep | app.py:129-134 | one turn of the loop keeps the keys first-seen, every bucket its album's, and no record without a bucket |
| Service.BucketByAlbum | app.py:128-134 | the dict's keys are the albums in first-seen order; each bucket holds all its album's records in order, with its first record's class |
| Service.SimilarLyrics | app.py:122-155 | a missing or empty cleaned query gives []; otherwise the sorted buckets of the search for the cleaned query |
| Service.CleanedEmpty | app.py:123-125 | cleaning gives "" exactly for a missing query or one with no word or whitespace character |
| Service.CleanedKeepsQuery | app.py:123 | a query of word and whitespace characters is searched as given |
| Service.WhitespaceQuerySearched | app.py:123-126 | a whitespace-only query is not short-circuited |
| Service.FirstSeenSpec | app.py:129-134 | first-seen albums are distinct and exactly the albums of the records |
| Service.SeenBelowLast | app.py:129-134 | when every earlier record's album is at most the last record's album, so is every album seen before it |
| Service.FirstSeenAscending | app.py:129-134 | records whose albums never go down give strictly ascending first-seen albums |
| Service.Bucketed | app.py:128-134 | `grouped_results.items()` before sorting: one pair per first-seen album with its bucket; see BucketedSpec, BucketedClassed |
| Service.Response | app.py:126-151 | the buckets of the search sorted by `album_order` rank; see ResponseOrder, ResponseAlbums, ResponseBuckets, ResponseEmpty |
| Service.BucketedSpec | app.py:128-149 | one pair per album, distinct, each with its album's non-empty bucket |
| Service.BucketedClassed | app.py:129-134 | each pair's bucket holds its album's records, is non-empty, and has the class its records carry |
| Service.ResponseMembers | app.py:149-151 | sorting loses and adds no pair |
| Service.RecordsAlbumsAscend | app.py:112-115 | the grouped rows' albums never go down |
| Service.ResponseOrder | app.py:136-151 | sorted by `album_order` rank; unlisted albums after every listed one; equal rank in ascending title order |
| Service.ResponseAlbums | app.py:128-151 | each album of the search result appears exactly once |
| Service.ResponseBuckets | app.py:116-134 | each bucket holds exactly its album's records, is non-empty, and has the album's class |
| Service.ResponseEmpty | app.py:106-151 | the response is empty exactly when no line is selected |

## Left out

- The Flask route, `request.args`, `jsonify` and the `print` logging: HTTP plumbing and output. The handler takes the query as an optional string and returns the pairs.
- `load_dotenv`, `os.getenv`, `matplotlib.use`, `nltk.download` and `waitress.serve`: configuration and process start-up. `CLIENT_URL` is a field of `Env`.
- Reading `data/album-song-lyrics.json`: file I/O. The loader takes the parsed albums as a value. A JSON key error, which would stop start-up, is not modelled.
- The Porter stemmer and the NLTK stopword list are parameters. Their contents and algorithm are not modelled.
- Unicode case mapping: `str.lower` and `re.IGNORECASE` are modelled by ASCII-only lowercasing.
- `SameIgnoringCase`: compares lowercase forms, which is narrower than Python's Unicode `IGNORECASE` folding.
- pandas DataFrame mechanics and the `Markup` wrapper: replaced by sequences, datatypes and plain strings.
- The `query` argument of `highlight_and_make_clickable`: the source never uses it.
- `Matcher.MatchAt`: a stem that is not a literal is not modelled. The cleaned query cannot hold regex metacharacters, and the stemmer is assumed not to add any.
- `Normalizer.PreprocessIdempotent`: holds only under `StemSettles`, a stated assumption about the stemmer (a stem is its own stem and is not a stopword). The real Porter stemmer does not satisfy this for every word.
- `Renderer.ClickableMarkupInvariant`: counts `< > " '` but not `&`. Escaping introduces `&`, so the statement is about tag and attribute characters only.
- `Service.BucketByAlbum`: builds each bucket and stores it with one dictionary update. The source stores an empty bucket and then appends to it, which gives the same dictionary.
