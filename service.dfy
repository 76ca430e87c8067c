/** The `/similar_lyrics` handler: clean the query, search, bucket the
    grouped rows by album in first-seen order, and sort the buckets by the
    canonical album order. */
module Service {
  import opened Text
  import opened Corpus
  import opened Grouper
  import opened Search
  import opened Tables
  import opened Ordering
  import opened Ranking

  datatype Option<T> = None | Some(value: T)

  /** `{'class': ..., 'tracks': [...]}`. */
  datatype Bucket = Bucket(cls: string, tracks: seq<GroupRow>)

  /** The query argument with punctuation removed; a missing or empty
      argument becomes the empty string. */
  function Cleaned(env: Env, query: Option<string>): string {
    if query.None? || query.value == "" then "" else StripPunct(env, query.value)
  }

  /** The albums of `records` in the order they first occur. */
  function FirstSeen(records: seq<GroupRow>): seq<string> {
    if records == [] then []
    else
      var ks := FirstSeen(records[..|records| - 1]);
      var album := records[|records| - 1].albumTitle;
      ks + (if album in ks then [] else [album])
  }

  /** The records of album `k`, in order. */
  function RowsOfAlbum(records: seq<GroupRow>, k: string): (r: seq<GroupRow>)
    ensures forall g | g in r :: g in records && g.albumTitle == k
    ensures forall g | g in records && g.albumTitle == k :: g in r
  {
    if records == [] then []
    else
      var init, last := records[..|records| - 1], records[|records| - 1];
      assert records == init + [last];
      RowsOfAlbum(init, k) + (if last.albumTitle == k then [last] else [])
  }

  /** The bucket the loop builds for `k`: the class of its first record and
      all its records. */
  function BucketOf(records: seq<GroupRow>, k: string): Bucket {
    var ts := RowsOfAlbum(records, k);
    Bucket(if ts == [] then "" else ts[0].albumClass, ts)
  }

  /** `grouped_results.items()` before sorting. */
  function Bucketed(records: seq<GroupRow>): seq<(string, Bucket)> {
    var ks := FirstSeen(records);
    seq(|ks|, i requires 0 <= i < |ks| => (ks[i], BucketOf(records, ks[i])))
  }

  /** The response for a non-empty cleaned query. */
  function Response(env: Env, corpus: seq<LyricLine>, query: string): seq<(string, Bucket)> {
    SortByRank(Rank, Bucketed(FindLyrics(env, corpus, query)))
  }

  /** The albums of `records`. */
  function Albums(records: seq<GroupRow>): set<string> {
    set g | g in records :: g.albumTitle
  }

  /** The albums a list of pairs names. */
  function Listed(items: seq<(string, Bucket)>): set<string> {
    set x | x in items :: x.0
  }

  lemma AlbumsSnoc(seen: seq<GroupRow>, r: GroupRow)
    ensures Albums(seen + [r]) == Albums(seen) + {r.albumTitle}
  {
    assert forall g | g in seen + [r] :: g in seen || g == r;
  }

  lemma FirstSeenSnoc(seen: seq<GroupRow>, r: GroupRow)
    ensures FirstSeen(seen + [r]) == FirstSeen(seen)
      + (if r.albumTitle in FirstSeen(seen) then [] else [r.albumTitle])
    ensures forall k :: (RowsOfAlbum(seen + [r], k) == RowsOfAlbum(seen, k)
      + (if r.albumTitle == k then [r] else []))
  {
    assert (seen + [r])[..|seen|] == seen;
  }

  /** What the bucketing loop has built from the records `seen` so far:
      the first-seen albums are the dictionary's keys... */
  ghost predicate KeysMatch(seen: seq<GroupRow>, keys: seq<string>, buckets: map<string, Bucket>) {
    keys == FirstSeen(seen) && forall k :: k in buckets <==> k in keys
  }

  /** ...each key holds its album's bucket... */
  ghost predicate BucketsMatch(seen: seq<GroupRow>, buckets: map<string, Bucket>) {
    forall k | k in buckets :: buckets[k] == BucketOf(seen, k) && buckets[k].tracks != []
  }

  /** ...and no album without a key has a record. */
  ghost predicate AbsentEmpty(seen: seq<GroupRow>, buckets: map<string, Bucket>) {
    forall k | k !in buckets :: RowsOfAlbum(seen, k) == []
  }

  lemma BucketingStart(records: seq<GroupRow>)
    ensures KeysMatch(records[..0], [], map[])
    ensures BucketsMatch(records[..0], map[])
    ensures AbsentEmpty(records[..0], map[])
  {
    assert records[..0] == [];
  }

  /** The bucket for the album of `r` after `r`. */
  lemma BucketStepValue(seen: seq<GroupRow>, r: GroupRow, buckets: map<string, Bucket>)
    requires BucketsMatch(seen, buckets) && AbsentEmpty(seen, buckets)
    ensures r.albumTitle in buckets ==>
      BucketOf(seen + [r], r.albumTitle) == buckets[r.albumTitle].(tracks := buckets[r.albumTitle].tracks + [r])
    ensures r.albumTitle !in buckets ==>
      BucketOf(seen + [r], r.albumTitle) == Bucket(r.albumClass, [r])
  {
    FirstSeenSnoc(seen, r);
    assert RowsOfAlbum(seen + [r], r.albumTitle) == RowsOfAlbum(seen, r.albumTitle) + [r];
  }

  lemma KeysStep(seen: seq<GroupRow>, r: GroupRow, keys: seq<string>, buckets: map<string, Bucket>, b: Bucket)
    requires KeysMatch(seen, keys, buckets)
    ensures KeysMatch(seen + [r], keys + (if r.albumTitle in buckets then [] else [r.albumTitle]), buckets[r.albumTitle := b])
  {
    FirstSeenSnoc(seen, r);
  }

  lemma BucketsStep(seen: seq<GroupRow>, r: GroupRow, buckets: map<string, Bucket>)
    requires BucketsMatch(seen, buckets)
    ensures BucketsMatch(seen + [r], buckets[r.albumTitle := BucketOf(seen + [r], r.albumTitle)])
  {
    var album, next := r.albumTitle, seen + [r];
    var buckets2 := buckets[album := BucketOf(next, album)];
    FirstSeenSnoc(seen, r);
    assert RowsOfAlbum(next, album) != [] by {
      assert RowsOfAlbum(next, album) == RowsOfAlbum(seen, album) + [r];
    }
    forall k | k in buckets2 ensures buckets2[k] == BucketOf(next, k) && buckets2[k].tracks != [] {
      if k != album {
        assert RowsOfAlbum(next, k) == RowsOfAlbum(seen, k);
      }
    }
  }

  lemma AbsentStep(seen: seq<GroupRow>, r: GroupRow, buckets: map<string, Bucket>, b: Bucket)
    requires AbsentEmpty(seen, buckets)
    ensures AbsentEmpty(seen + [r], buckets[r.albumTitle := b])
  {
    FirstSeenSnoc(seen, r);
  }

  /** One turn of the bucketing loop: `b` is the album's bucket fetched or
      created with the record's class, `keys'` the keys after a created one. */
  lemma BucketStep(seen: seq<GroupRow>, r: GroupRow, keys: seq<string>, keys': seq<string>,
                   buckets: map<string, Bucket>, b: Bucket)
    requires KeysMatch(seen, keys, buckets) && BucketsMatch(seen, buckets) && AbsentEmpty(seen, buckets)
    requires b == if r.albumTitle in buckets then buckets[r.albumTitle] else Bucket(r.albumClass, [])
    requires keys' == if r.albumTitle in buckets then keys else keys + [r.albumTitle]
    ensures KeysMatch(seen + [r], keys', buckets[r.albumTitle := b.(tracks := b.tracks + [r])])
    ensures BucketsMatch(seen + [r], buckets[r.albumTitle := b.(tracks := b.tracks + [r])])
    ensures AbsentEmpty(seen + [r], buckets[r.albumTitle := b.(tracks := b.tracks + [r])])
  {
    BucketStepValue(seen, r, buckets);
    assert b.(tracks := b.tracks + [r]) == BucketOf(seen + [r], r.albumTitle);
    KeysStep(seen, r, keys, buckets, BucketOf(seen + [r], r.albumTitle));
    assert keys + [] == keys;
    BucketsStep(seen, r, buckets);
    AbsentStep(seen, r, buckets, BucketOf(seen + [r], r.albumTitle));
  }

  /** The bucketing loop of `similiar_lyrics`: a bucket per album, created
      with the class of the album's first record, then every record
      appended to its album's bucket. */
  method BucketByAlbum(records: seq<GroupRow>) returns (keys: seq<string>, buckets: map<string, Bucket>)
    ensures keys == FirstSeen(records)
    ensures forall k :: k in buckets <==> k in keys
    ensures forall k | k in buckets :: buckets[k] == BucketOf(records, k) && buckets[k].tracks != []
  {
    keys, buckets := [], map[];
    var i := 0;
    ghost var seen: seq<GroupRow> := [];
    BucketingStart(records);
    while i < |records|
      invariant i <= |records| && seen == records[..i]
      invariant KeysMatch(seen, keys, buckets)
      invariant BucketsMatch(seen, buckets)
      invariant AbsentEmpty(seen, buckets)
    {
      var record := records[i];
      var album := record.albumTitle;
      var bucket := if album in buckets then buckets[album] else Bucket(record.albumClass, []);
      ghost var keys0 := keys;
      if album !in buckets {
        keys := keys + [album];
      }
      BucketStep(seen, record, keys0, keys, buckets, bucket);
      buckets := buckets[album := bucket.(tracks := bucket.tracks + [record])];
      assert records[..i + 1] == seen + [record];
      seen := seen + [record];
      i := i + 1;
    }
    assert seen == records;
  }

  /** The handler: no search for a missing or empty query, otherwise the
      buckets of the search for the cleaned query, sorted by album rank. */
  method SimilarLyrics(env: Env, corpus: seq<LyricLine>, query: Option<string>) returns (result: seq<(string, Bucket)>)
    ensures Cleaned(env, query) == "" ==> result == []
    ensures Cleaned(env, query) != "" ==> result == Response(env, corpus, Cleaned(env, query))
  {
    var q := Cleaned(env, query);
    result := [];
    if q != "" {
      var records := FindLyrics(env, corpus, q);
      var keys, buckets := BucketByAlbum(records);
      var items := seq(|keys|, i requires 0 <= i < |keys| => (keys[i], buckets[keys[i]]));
      assert items == Bucketed(records);
      result := SortByRank(Rank, items);
    }
  }

  /** Only a missing argument, or one with no word or whitespace character,
      skips the search. */
  lemma CleanedEmpty(env: Env, query: Option<string>)
    ensures Cleaned(env, query) == "" <==> query.None? || forall c | c in query.value :: !Kept(env, c)
  {
    if query.Some? && query.value != "" {
      var r := StripPunct(env, query.value);
      if r != "" {
        assert r[0] in r;
        assert multiset(r)[r[0]] > 0;
      }
      forall c | c in query.value && Kept(env, c) ensures r != "" {
        assert multiset(query.value)[c] > 0;
      }
    }
  }

  /** A query of word characters and whitespace is searched as given. */
  lemma CleanedKeepsQuery(env: Env, v: string)
    requires forall c | c in v :: Kept(env, c)
    ensures Cleaned(env, Some(v)) == v
  {
    StripPunctKeepsKept(env, v);
  }

  /** A whitespace-only query is not treated as missing: the search runs,
      for the query itself. */
  lemma WhitespaceQuerySearched(env: Env, v: string)
    requires v != [] && forall c | c in v :: env.isSpace(c)
    ensures Cleaned(env, Some(v)) == v != ""
  {
    CleanedKeepsQuery(env, v);
  }

  /** The albums in first-seen order are distinct and are exactly the
      albums of the records. */
  lemma {:induction false} FirstSeenSpec(records: seq<GroupRow>)
    ensures forall i, j | 0 <= i < j < |FirstSeen(records)| :: FirstSeen(records)[i] != FirstSeen(records)[j]
    ensures forall k :: k in FirstSeen(records) <==> k in Albums(records)
  {
    if records != [] {
      var n := |records| - 1;
      assert records[..n] + [records[n]] == records;
      FirstSeenSpec(records[..n]);
      FirstSeenSnoc(records[..n], records[n]);
      AlbumsSnoc(records[..n], records[n]);
    }
  }

  /** Records whose albums never go down give albums in strictly ascending
      order. */
  lemma {:induction false} FirstSeenAscending(records: seq<GroupRow>)
    requires forall i, j | 0 <= i < j < |records| ::
      records[i].albumTitle == records[j].albumTitle || StrLess(records[i].albumTitle, records[j].albumTitle)
    ensures forall i, j | 0 <= i < j < |FirstSeen(records)| :: StrLess(FirstSeen(records)[i], FirstSeen(records)[j])
  {
    if records != [] {
      var n := |records| - 1;
      var init, album := records[..n], records[n].albumTitle;
      FirstSeenAscending(init);
      assert init + [records[n]] == records;
      FirstSeenSnoc(init, records[n]);
      assert forall p | 0 <= p < |init| :: init[p] == records[p];
      SeenBelowLast(init, records[n]);
    }
  }

  /** Every album seen in `init` is the album of `last` or below it, when
      every record of `init` is. */
  lemma SeenBelowLast(init: seq<GroupRow>, last: GroupRow)
    requires forall p | 0 <= p < |init| ::
      init[p].albumTitle == last.albumTitle || StrLess(init[p].albumTitle, last.albumTitle)
    ensures forall k | k in FirstSeen(init) :: k == last.albumTitle || StrLess(k, last.albumTitle)
  {
    FirstSeenSpec(init);
    forall k | k in FirstSeen(init) ensures k == last.albumTitle || StrLess(k, last.albumTitle) {
      assert k in Albums(init);
      var g :| g in init && g.albumTitle == k;
      var p :| 0 <= p < |init| && init[p] == g;
    }
  }

  /** One pair per first-seen album, holding the bucket the loop builds. */
  lemma BucketedSpec(records: seq<GroupRow>)
    ensures var b := Bucketed(records);
      && (forall i, j | 0 <= i < j < |b| :: b[i].0 != b[j].0)
      && (forall i | 0 <= i < |b| :: b[i].1 == BucketOf(records, b[i].0) && b[i].1.tracks != [])
      && Listed(b) == Albums(records)
  {
    var b := Bucketed(records);
    var ks := FirstSeen(records);
    FirstSeenSpec(records);
    assert forall i | 0 <= i < |b| :: b[i].0 == ks[i];
    forall i, j | 0 <= i < j < |b| ensures b[i].0 != b[j].0 {
      assert b[i].0 == ks[i] && b[j].0 == ks[j];
      assert ks[i] != ks[j];
    }
    forall i | 0 <= i < |b| ensures b[i].1.tracks != [] {
      assert ks[i] in ks;
      assert ks[i] in Albums(records);
      var g :| g in records && g.albumTitle == ks[i];
      assert g in RowsOfAlbum(records, ks[i]);
    }
    forall k | k in Albums(records) ensures k in Listed(b) {
      var i :| 0 <= i < |ks| && ks[i] == k;
      assert b[i] in b;
    }
  }

  /** Each bucket holds its album's records, none empty, with the class
      its records carry. */
  lemma BucketedClassed(records: seq<GroupRow>)
    requires forall g | g in records :: g.albumClass == CssClass(g.albumTitle)
    ensures forall x | x in Bucketed(records) ::
      && x.1.tracks == RowsOfAlbum(records, x.0)
      && x.1.tracks != []
      && x.1.cls == CssClass(x.0)
  {
    var b := Bucketed(records);
    BucketedSpec(records);
    forall x | x in b ensures x.1.tracks == RowsOfAlbum(records, x.0) && x.1.tracks != [] && x.1.cls == CssClass(x.0) {
      var p :| 0 <= p < |b| && b[p] == x;
      var ts := RowsOfAlbum(records, x.0);
      assert ts[0] in ts;
    }
  }

  lemma ResponseMembers(env: Env, corpus: seq<LyricLine>, query: string)
    ensures var b := Bucketed(FindLyrics(env, corpus, query));
      forall x :: x in Response(env, corpus, query) <==> x in b
  {
    var b := Bucketed(FindLyrics(env, corpus, query));
    var r := Response(env, corpus, query);
    SortByRankSorted(Rank, b);
    forall x ensures x in r <==> x in b {
      assert x in r <==> x in multiset(r);
      assert x in b <==> x in multiset(b);
    }
  }

  /** The frame's rows come in ascending key order, so their albums never
      go down. */
  lemma RecordsAlbumsAscend(env: Env, corpus: seq<LyricLine>, query: string)
    ensures forall i, j | 0 <= i < j < |FindLyrics(env, corpus, query)| ::
      || FindLyrics(env, corpus, query)[i].albumTitle == FindLyrics(env, corpus, query)[j].albumTitle
      || StrLess(FindLyrics(env, corpus, query)[i].albumTitle, FindLyrics(env, corpus, query)[j].albumTitle)
  {
    var g := FindLyrics(env, corpus, query);
    FindLyricsSpec(env, corpus, query);
    forall i, j | 0 <= i < j < |g| ensures g[i].albumTitle == g[j].albumTitle || StrLess(g[i].albumTitle, g[j].albumTitle) {
      assert KeyLess(RowKey(g[i]), RowKey(g[j]));
    }
  }

  /** The response is sorted by canonical album order, unlisted albums after
      every listed one, and albums of equal rank (the unlisted ones) in
      ascending title order. */
  lemma ResponseOrder(env: Env, corpus: seq<LyricLine>, query: string)
    ensures var r := Response(env, corpus, query);
      && (forall i, j | 0 <= i < j < |r| :: Rank(r[i].0) <= Rank(r[j].0))
      && (forall i, j | 0 <= i < j < |r| && r[i].0 !in AlbumOrder :: r[j].0 !in AlbumOrder)
      && (forall i, j | 0 <= i < j < |r| && Rank(r[i].0) == Rank(r[j].0) :: StrLess(r[i].0, r[j].0))
  {
    var records := FindLyrics(env, corpus, query);
    var b := Bucketed(records);
    var r := Response(env, corpus, query);
    RecordsAlbumsAscend(env, corpus, query);
    FirstSeenAscending(records);
    assert AlbumsAscending(b) by {
      var ks := FirstSeen(records);
      forall i, j | 0 <= i < j < |b| ensures StrLess(b[i].0, b[j].0) {
        assert b[i].0 == ks[i] && b[j].0 == ks[j];
      }
    }
    SortByRankSorted(Rank, b);
    SortByRankTies(Rank, b);
    forall i, j | 0 <= i < j < |r| && r[i].0 !in AlbumOrder ensures r[j].0 !in AlbumOrder {
      RankIsPosition(r[i].0);
      RankIsPosition(r[j].0);
    }
  }

  /** The response names each album of the search result exactly once. */
  lemma ResponseAlbums(env: Env, corpus: seq<LyricLine>, query: string)
    ensures var r := Response(env, corpus, query);
      && (forall i, j | 0 <= i < j < |r| :: r[i].0 != r[j].0)
      && Listed(r) == Albums(FindLyrics(env, corpus, query))
  {
    var records := FindLyrics(env, corpus, query);
    var b := Bucketed(records);
    var r := Response(env, corpus, query);
    ResponseOrder(env, corpus, query);
    forall i, j | 0 <= i < j < |r| ensures r[i].0 != r[j].0 {
      StrLessIrreflexive(r[i].0);
    }
    ResponseMembers(env, corpus, query);
    BucketedSpec(records);
    assert Listed(r) == Listed(b);
  }

  /** Each album's bucket holds exactly its records, in order, none empty,
      with the album's display class. */
  lemma ResponseBuckets(env: Env, corpus: seq<LyricLine>, query: string)
    ensures forall x | x in Response(env, corpus, query) ::
      && x.1.tracks == RowsOfAlbum(FindLyrics(env, corpus, query), x.0)
      && x.1.tracks != []
      && x.1.cls == CssClass(x.0)
  {
    var records := FindLyrics(env, corpus, query);
    GroupRowsClassed(MatchedRows(env, corpus, env.stem(query)));
    BucketedClassed(records);
    ResponseMembers(env, corpus, query);
  }

  /** The response is empty exactly when no line of the corpus is
      selected. */
  lemma ResponseEmpty(env: Env, corpus: seq<LyricLine>, query: string)
    ensures Response(env, corpus, query) == [] <==>
      forall l | l in corpus :: !Selected(env, l, env.stem(query))
  {
    var records := FindLyrics(env, corpus, query);
    var b := Bucketed(records);
    SortByRankSorted(Rank, b);
    assert |Response(env, corpus, query)| == |b| by {
      assert |multiset(Response(env, corpus, query))| == |multiset(b)|;
    }
    FirstSeenSpec(records);
    if records != [] {
      assert records[0] in records;
      assert records[0].albumTitle in Albums(records);
    }
    FindLyricsEmpty(env, corpus, query);
  }
}
