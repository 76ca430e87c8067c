/** The corpus loader: nested albums, songs and lyric entries flattened into
    one searchable line record per lyric entry. */
module Corpus {
  import opened Text
  import opened Normalizer

  datatype Lyric = Lyric(order: int, songPart: string, text: string)
  datatype Song = Song(trackNumber: int, title: string, lyrics: seq<Lyric>)
  datatype Album = Album(code: string, title: string, year: int, songs: seq<Song>)

  /** One row of `lyrics_df`. */
  datatype LyricLine = LyricLine(
    albumCode: string,
    albumTitle: string,
    trackNumber: int,
    trackTitle: string,
    albumYear: int,
    order: int,
    songPart: string,
    text: string,
    preprocessedText: string)

  /** The record appended for lyric `l` of song `s` of album `a`, its text
      normalised by `norm`. */
  function Line(norm: string -> string, a: Album, s: Song, l: Lyric): LyricLine {
    LyricLine(a.code, a.title, s.trackNumber, s.title, a.year,
              l.order, l.songPart, l.text, norm(l.text))
  }

  function SongLines(norm: string -> string, a: Album, s: Song): seq<LyricLine> {
    seq(|s.lyrics|, k requires 0 <= k < |s.lyrics| => Line(norm, a, s, s.lyrics[k]))
  }

  /** The records of album `a` coming from `songs`, song after song. */
  function AlbumLines(norm: string -> string, a: Album, songs: seq<Song>): seq<LyricLine> {
    if songs == [] then []
    else AlbumLines(norm, a, songs[..|songs| - 1]) + SongLines(norm, a, songs[|songs| - 1])
  }

  /** The flat corpus, album after album. */
  function Flatten(norm: string -> string, albums: seq<Album>): seq<LyricLine> {
    if albums == [] then []
    else Flatten(norm, albums[..|albums| - 1]) + AlbumLines(norm, albums[|albums| - 1], albums[|albums| - 1].songs)
  }

  function SongsLyricCount(songs: seq<Song>): nat {
    if songs == [] then 0
    else SongsLyricCount(songs[..|songs| - 1]) + |songs[|songs| - 1].lyrics|
  }

  /** Number of lyric entries in the nested document. */
  function LyricCount(albums: seq<Album>): nat {
    if albums == [] then 0
    else LyricCount(albums[..|albums| - 1]) + SongsLyricCount(albums[|albums| - 1].songs)
  }

  /** `preprocess_lyrics`, the normaliser the loader applies to each
      lyric's text. */
  function Normalised(env: Env): string -> string {
    t => Preprocess(env, t)
  }

  /** The loader loop: three nested loops appending one record per lyric;
      the inner two are `AppendAlbum` and `AppendSong`. */
  method BuildCorpus(env: Env, albums: seq<Album>) returns (data: seq<LyricLine>)
    ensures data == Flatten(Normalised(env), albums)
    ensures |data| == LyricCount(albums)
    ensures forall r | r in data :: r.preprocessedText == Preprocess(env, r.text)
  {
    data := [];
    var i := 0;
    while i < |albums|
      invariant 0 <= i <= |albums|
      invariant data == Flatten(Normalised(env), albums[..i])
    {
      data := AppendAlbum(env, albums[i], data);
      FlattenSnoc(Normalised(env), albums, i);
      i := i + 1;
    }
    assert albums[..i] == albums;
    FlattenLength(Normalised(env), albums);
    forall r | r in data ensures r.preprocessedText == Preprocess(env, r.text) {
      var p :| 0 <= p < |data| && data[p] == r;
      FlattenSound(Normalised(env), albums, p);
    }
  }

  /** The loop over the songs of one album. */
  method AppendAlbum(env: Env, album: Album, before: seq<LyricLine>) returns (data: seq<LyricLine>)
    ensures data == before + AlbumLines(Normalised(env), album, album.songs)
  {
    data := before;
    var j := 0;
    while j < |album.songs|
      invariant 0 <= j <= |album.songs|
      invariant data == before + AlbumLines(Normalised(env), album, album.songs[..j])
    {
      ghost var prev := data;
      data := AppendSong(env, album, album.songs[j], data);
      AlbumLinesSnoc(Normalised(env), album, album.songs, j);
      assert data == before + (AlbumLines(Normalised(env), album, album.songs[..j]) + SongLines(Normalised(env), album, album.songs[j]));
      j := j + 1;
    }
    assert album.songs[..j] == album.songs;
  }

  /** The loop over the lyric entries of one song. */
  method AppendSong(env: Env, album: Album, song: Song, before: seq<LyricLine>) returns (data: seq<LyricLine>)
    ensures data == before + SongLines(Normalised(env), album, song)
  {
    data := before;
    var k := 0;
    while k < |song.lyrics|
      invariant 0 <= k <= |song.lyrics|
      invariant data == before + SongLines(Normalised(env), album, song)[..k]
    {
      data := data + [Line(Normalised(env), album, song, song.lyrics[k])];
      SongLinesSnoc(Normalised(env), album, song, k);
      k := k + 1;
    }
    assert SongLines(Normalised(env), album, song)[..k] == SongLines(Normalised(env), album, song);
  }

  lemma SongLinesSnoc(norm: string -> string, a: Album, s: Song, k: nat)
    requires k < |s.lyrics|
    ensures SongLines(norm, a, s)[..k + 1] == SongLines(norm, a, s)[..k] + [Line(norm, a, s, s.lyrics[k])]
  {
  }

  lemma AlbumLinesSnoc(norm: string -> string, a: Album, songs: seq<Song>, j: nat)
    requires j < |songs|
    ensures AlbumLines(norm, a, songs[..j + 1]) == AlbumLines(norm, a, songs[..j]) + SongLines(norm, a, songs[j])
  {
    assert songs[..j + 1][..j] == songs[..j];
  }

  lemma FlattenSnoc(norm: string -> string, albums: seq<Album>, i: nat)
    requires i < |albums|
    ensures Flatten(norm, albums[..i + 1]) == Flatten(norm, albums[..i]) + AlbumLines(norm, albums[i], albums[i].songs)
  {
    assert albums[..i + 1][..i] == albums[..i];
  }

  lemma {:induction false} AlbumLinesLength(norm: string -> string, a: Album, songs: seq<Song>)
    ensures |AlbumLines(norm, a, songs)| == SongsLyricCount(songs)
  {
    if songs != [] {
      AlbumLinesLength(norm, a, songs[..|songs| - 1]);
    }
  }

  /** Exactly one record per lyric entry. */
  lemma {:induction false} FlattenLength(norm: string -> string, albums: seq<Album>)
    ensures |Flatten(norm, albums)| == LyricCount(albums)
  {
    if albums != [] {
      FlattenLength(norm, albums[..|albums| - 1]);
      AlbumLinesLength(norm, albums[|albums| - 1], albums[|albums| - 1].songs);
    }
  }

  lemma {:induction false} AlbumLinesConcat(norm: string -> string, a: Album, xs: seq<Song>, ys: seq<Song>)
    ensures AlbumLines(norm, a, xs + ys) == AlbumLines(norm, a, xs) + AlbumLines(norm, a, ys)
    decreases |ys|
  {
    if ys == [] {
      assert xs + ys == xs;
    } else {
      var ys', last := ys[..|ys| - 1], ys[|ys| - 1];
      var zs := xs + ys;
      assert zs[..|zs| - 1] == xs + ys' && zs[|zs| - 1] == last;
      AlbumLinesConcat(norm, a, xs, ys');
      assert AlbumLines(norm, a, zs) == AlbumLines(norm, a, xs + ys') + SongLines(norm, a, last);
      assert AlbumLines(norm, a, ys) == AlbumLines(norm, a, ys') + SongLines(norm, a, last);
    }
  }

  lemma {:induction false} FlattenConcat(norm: string -> string, xs: seq<Album>, ys: seq<Album>)
    ensures Flatten(norm, xs + ys) == Flatten(norm, xs) + Flatten(norm, ys)
    decreases |ys|
  {
    if ys == [] {
      assert xs + ys == xs;
    } else {
      var ys', last := ys[..|ys| - 1], ys[|ys| - 1];
      var zs := xs + ys;
      assert zs[..|zs| - 1] == xs + ys' && zs[|zs| - 1] == last;
      FlattenConcat(norm, xs, ys');
      assert Flatten(norm, zs) == Flatten(norm, xs + ys') + AlbumLines(norm, last, last.songs);
      assert Flatten(norm, ys) == Flatten(norm, ys') + AlbumLines(norm, last, last.songs);
    }
  }

  /** Lyric `l` of song `s` of an album sits right after the lyrics of the
      songs before `s`. */
  lemma {:induction false} AlbumLinesAt(norm: string -> string, a: Album, songs: seq<Song>, s: nat, l: nat)
    requires s < |songs| && l < |songs[s].lyrics|
    ensures SongsLyricCount(songs[..s]) + l < |AlbumLines(norm, a, songs)|
    ensures AlbumLines(norm, a, songs)[SongsLyricCount(songs[..s]) + l] == Line(norm, a, songs[s], songs[s].lyrics[l])
  {
    assert songs == songs[..s] + [songs[s]] + songs[s + 1..];
    AlbumLinesConcat(norm, a, songs[..s] + [songs[s]], songs[s + 1..]);
    AlbumLinesConcat(norm, a, songs[..s], [songs[s]]);
    AlbumLinesLength(norm, a, songs[..s]);
    assert AlbumLines(norm, a, [songs[s]]) == SongLines(norm, a, songs[s]) by {
      assert [songs[s]][..0] == [];
    }
  }

  /** Records appear in album, song, lyric nesting order: lyric `l` of song
      `s` of album `a` is at the position that counts every lyric before it,
      and carries its album's and song's fields and its normalised text. */
  lemma {:induction false} FlattenAt(norm: string -> string, albums: seq<Album>, a: nat, s: nat, l: nat)
    requires a < |albums| && s < |albums[a].songs| && l < |albums[a].songs[s].lyrics|
    ensures var i := LyricCount(albums[..a]) + SongsLyricCount(albums[a].songs[..s]) + l;
      && i < |Flatten(norm, albums)|
      && Flatten(norm, albums)[i] == Line(norm, albums[a], albums[a].songs[s], albums[a].songs[s].lyrics[l])
  {
    assert albums == albums[..a] + [albums[a]] + albums[a + 1..];
    FlattenConcat(norm, albums[..a] + [albums[a]], albums[a + 1..]);
    FlattenConcat(norm, albums[..a], [albums[a]]);
    FlattenLength(norm, albums[..a]);
    assert Flatten(norm, [albums[a]]) == AlbumLines(norm, albums[a], albums[a].songs) by {
      assert [albums[a]][..0] == [];
    }
    AlbumLinesAt(norm, albums[a], albums[a].songs, s, l);
  }

  /** Every record of an album's lines comes from one of its lyric entries. */
  lemma {:induction false} AlbumLinesSound(norm: string -> string, a: Album, songs: seq<Song>, i: nat)
    requires i < |AlbumLines(norm, a, songs)|
    ensures exists s, l :: (0 <= s < |songs| && 0 <= l < |songs[s].lyrics|
      && AlbumLines(norm, a, songs)[i] == Line(norm, a, songs[s], songs[s].lyrics[l]))
  {
    var init := songs[..|songs| - 1];
    var last := songs[|songs| - 1];
    if i < |AlbumLines(norm, a, init)| {
      AlbumLinesSound(norm, a, init, i);
      var s, l :| 0 <= s < |init| && 0 <= l < |init[s].lyrics|
        && AlbumLines(norm, a, init)[i] == Line(norm, a, init[s], init[s].lyrics[l]);
      assert init[s] == songs[s];
    } else {
      var l := i - |AlbumLines(norm, a, init)|;
      assert AlbumLines(norm, a, songs)[i] == SongLines(norm, a, last)[l];
    }
  }

  /** Every record comes from one lyric entry and carries that entry's album
      and song fields; in particular its normalised text is that of its own text. */
  lemma {:induction false} FlattenSound(norm: string -> string, albums: seq<Album>, i: nat)
    requires i < |Flatten(norm, albums)|
    ensures exists a, s, l :: (0 <= a < |albums| && 0 <= s < |albums[a].songs| && 0 <= l < |albums[a].songs[s].lyrics|
      && Flatten(norm, albums)[i] == Line(norm, albums[a], albums[a].songs[s], albums[a].songs[s].lyrics[l]))
    ensures Flatten(norm, albums)[i].preprocessedText == norm(Flatten(norm, albums)[i].text)
  {
    var init := albums[..|albums| - 1];
    var last := albums[|albums| - 1];
    if i < |Flatten(norm, init)| {
      FlattenSound(norm, init, i);
      var a, s, l :| 0 <= a < |init| && 0 <= s < |init[a].songs| && 0 <= l < |init[a].songs[s].lyrics|
        && Flatten(norm, init)[i] == Line(norm, init[a], init[a].songs[s], init[a].songs[s].lyrics[l]);
      assert init[a] == albums[a];
    } else {
      var j := i - |Flatten(norm, init)|;
      AlbumLinesSound(norm, last, last.songs, j);
      var s, l :| 0 <= s < |last.songs| && 0 <= l < |last.songs[s].lyrics|
        && AlbumLines(norm, last, last.songs)[j] == Line(norm, last, last.songs[s], last.songs[s].lyrics[l]);
      assert Flatten(norm, albums)[i] == AlbumLines(norm, last, last.songs)[j];
      assert albums[|albums| - 1] == last;
    }
  }
}
