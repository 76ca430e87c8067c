/** `matches.groupby(['AlbumTitle', 'TrackTitle', 'AlbumYear']).agg(...)`
    followed by the AlbumClass and Lyrics columns: one row per distinct key,
    keys in ascending order (pandas sorts group keys by default), each row
    holding its lines' texts and highlighted texts in corpus order. */
module Grouper {
  import opened Text
  import opened Corpus
  import opened Ordering
  import opened Tables

  /** A selected line with its `HighlightedText` column. */
  datatype MatchRow = MatchRow(line: LyricLine, highlighted: string)

  datatype GroupKey = GroupKey(albumTitle: string, trackTitle: string, albumYear: int)

  /** One row of the grouped frame. */
  datatype GroupRow = GroupRow(
    albumTitle: string,
    trackTitle: string,
    albumYear: int,
    texts: seq<string>,
    highlighted: seq<string>,
    albumClass: string,
    lyrics: string)

  /** A group under construction: its key and its rows so far. */
  datatype Group = Group(key: GroupKey, rows: seq<MatchRow>)

  function LineKey(l: LyricLine): GroupKey {
    GroupKey(l.albumTitle, l.trackTitle, l.albumYear)
  }

  function KeyOf(m: MatchRow): GroupKey {
    LineKey(m.line)
  }

  function RowKey(g: GroupRow): GroupKey {
    GroupKey(g.albumTitle, g.trackTitle, g.albumYear)
  }

  /** Python's tuple order on (AlbumTitle, TrackTitle, AlbumYear). */
  predicate KeyLess(x: GroupKey, y: GroupKey) {
    || StrLess(x.albumTitle, y.albumTitle)
    || (x.albumTitle == y.albumTitle && StrLess(x.trackTitle, y.trackTitle))
    || (x.albumTitle == y.albumTitle && x.trackTitle == y.trackTitle && x.albumYear < y.albumYear)
  }

  lemma KeyLessIrreflexive(x: GroupKey)
    ensures !KeyLess(x, x)
  {
    StrLessIrreflexive(x.albumTitle);
    StrLessIrreflexive(x.trackTitle);
  }

  lemma KeyLessTransitive(x: GroupKey, y: GroupKey, z: GroupKey)
    requires KeyLess(x, y) && KeyLess(y, z)
    ensures KeyLess(x, z)
  {
    if StrLess(x.albumTitle, y.albumTitle) && StrLess(y.albumTitle, z.albumTitle) {
      StrLessTransitive(x.albumTitle, y.albumTitle, z.albumTitle);
    }
    if StrLess(x.trackTitle, y.trackTitle) && StrLess(y.trackTitle, z.trackTitle) {
      StrLessTransitive(x.trackTitle, y.trackTitle, z.trackTitle);
    }
  }

  lemma KeyLessTotal(x: GroupKey, y: GroupKey)
    ensures x == y || KeyLess(x, y) || KeyLess(y, x)
  {
    StrLessTotal(x.albumTitle, y.albumTitle);
    StrLessTotal(x.trackTitle, y.trackTitle);
  }

  lemma KeyLessAsymmetric(x: GroupKey, y: GroupKey)
    requires KeyLess(x, y)
    ensures !KeyLess(y, x)
  {
    if StrLess(x.albumTitle, y.albumTitle) {
      StrLessAsymmetric(x.albumTitle, y.albumTitle);
    } else if x.albumTitle == y.albumTitle {
      StrLessIrreflexive(x.albumTitle);
      if StrLess(x.trackTitle, y.trackTitle) {
        StrLessAsymmetric(x.trackTitle, y.trackTitle);
      } else {
        StrLessIrreflexive(x.trackTitle);
      }
    }
  }

  /** The rows with key `k`, in their order. */
  function RowsWithKey(ms: seq<MatchRow>, k: GroupKey): (r: seq<MatchRow>)
    ensures forall m | m in r :: m in ms && KeyOf(m) == k
    ensures forall m | m in ms && KeyOf(m) == k :: m in r
  {
    if ms == [] then []
    else
      var init, last := ms[..|ms| - 1], ms[|ms| - 1];
      assert ms == init + [last];
      RowsWithKey(init, k) + (if KeyOf(last) == k then [last] else [])
  }

  function Keys(gs: seq<Group>): set<GroupKey> {
    set g | g in gs :: g.key
  }

  /** Keys strictly ascending (hence distinct), no empty group. */
  predicate Ordered(gs: seq<Group>) {
    && (forall i, j | 0 <= i < j < |gs| :: KeyLess(gs[i].key, gs[j].key))
    && (forall g | g in gs :: g.rows != [])
  }

  /** The rows of the group with key `k`, or none. */
  function Lookup(gs: seq<Group>, k: GroupKey): seq<MatchRow> {
    if gs == [] then []
    else if gs[0].key == k then gs[0].rows
    else Lookup(gs[1..], k)
  }

  /** Adds one row: appended to its key's group, or a new group at the place
      that keeps the keys ascending. */
  function AddRow(gs: seq<Group>, m: MatchRow): seq<Group> {
    if gs == [] then [Group(KeyOf(m), [m])]
    else if gs[0].key == KeyOf(m) then [gs[0].(rows := gs[0].rows + [m])] + gs[1..]
    else if KeyLess(KeyOf(m), gs[0].key) then [Group(KeyOf(m), [m])] + gs
    else [gs[0]] + AddRow(gs[1..], m)
  }

  /** The groups of `ms`, rows added in corpus order. */
  function Collect(ms: seq<MatchRow>): seq<Group> {
    if ms == [] then [] else AddRow(Collect(ms[..|ms| - 1]), ms[|ms| - 1])
  }

  function Texts(rows: seq<MatchRow>): (r: seq<string>)
    ensures |r| == |rows|
  {
    seq(|rows|, i requires 0 <= i < |rows| => rows[i].line.text)
  }

  function Highlights(rows: seq<MatchRow>): (r: seq<string>)
    ensures |r| == |rows|
  {
    seq(|rows|, i requires 0 <= i < |rows| => rows[i].highlighted)
  }

  function Finish(g: Group): GroupRow {
    GroupRow(g.key.albumTitle, g.key.trackTitle, g.key.albumYear,
             Texts(g.rows), Highlights(g.rows),
             CssClass(g.key.albumTitle), JoinSpace(Texts(g.rows)))
  }

  /** The grouped frame of `find_lyrics_by_stemmed_word`. */
  function GroupRows(ms: seq<MatchRow>): seq<GroupRow> {
    var gs := Collect(ms);
    seq(|gs|, i requires 0 <= i < |gs| => Finish(gs[i]))
  }

  lemma {:induction false} LookupAbsent(gs: seq<Group>, k: GroupKey)
    requires k !in Keys(gs)
    ensures Lookup(gs, k) == []
  {
    if gs != [] {
      assert gs[0] in gs;
      assert Keys(gs[1..]) <= Keys(gs) by {
        forall g | g in gs[1..] ensures g in gs { }
      }
      LookupAbsent(gs[1..], k);
    }
  }

  lemma {:induction false} LookupAt(gs: seq<Group>, i: nat)
    requires Ordered(gs) && i < |gs|
    ensures Lookup(gs, gs[i].key) == gs[i].rows
  {
    if i > 0 {
      KeyLessIrreflexive(gs[0].key);
      assert KeyLess(gs[0].key, gs[i].key);
      assert Ordered(gs[1..]) by {
        forall g | g in gs[1..] ensures g in gs { }
      }
      LookupAt(gs[1..], i - 1);
    }
  }

  lemma KeysCons(g: Group, gs: seq<Group>)
    ensures Keys([g] + gs) == {g.key} + Keys(gs)
  {
    var s := [g] + gs;
    assert s[0] in s;
    forall h | h in s ensures h == g || h in gs {
      var j :| 0 <= j < |s| && s[j] == h;
      if j > 0 { assert gs[j - 1] == h; }
    }
    forall h | h in gs ensures h in s {
      var j :| 0 <= j < |gs| && gs[j] == h;
      assert s[j + 1] == h;
    }
  }

  lemma OrderedSplit(gs: seq<Group>)
    requires Ordered(gs) && gs != []
    ensures gs == [gs[0]] + gs[1..]
    ensures Ordered(gs[1..])
    ensures forall j | 0 <= j < |gs| - 1 :: KeyLess(gs[0].key, gs[1..][j].key)
    ensures forall k | k in Keys(gs[1..]) :: KeyLess(gs[0].key, k)
  {
    var tail := gs[1..];
    assert forall g | g in tail :: g in gs;
    forall k | k in Keys(tail) ensures KeyLess(gs[0].key, k) {
      var g :| g in tail && g.key == k;
      var j :| 0 <= j < |tail| && tail[j] == g;
      assert gs[j + 1] == g;
    }
  }

  /** Adding a row adds its key and no other. */
  lemma {:induction false} AddRowKeys(gs: seq<Group>, m: MatchRow)
    ensures Keys(AddRow(gs, m)) == Keys(gs) + {KeyOf(m)}
  {
    var km := KeyOf(m);
    if gs == [] {
      KeysCons(Group(km, [m]), []);
      assert [Group(km, [m])] + [] == AddRow(gs, m);
    } else {
      var tail := gs[1..];
      assert gs == [gs[0]] + tail;
      KeysCons(gs[0], tail);
      if gs[0].key == km {
        KeysCons(gs[0].(rows := gs[0].rows + [m]), tail);
      } else if KeyLess(km, gs[0].key) {
        KeysCons(Group(km, [m]), gs);
      } else {
        AddRowKeys(tail, m);
        KeysCons(gs[0], AddRow(tail, m));
      }
    }
  }

  /** A group below every key of an ordered list can head it. */
  lemma OrderedCons(g: Group, gs: seq<Group>)
    requires Ordered(gs) && g.rows != []
    requires forall k | k in Keys(gs) :: KeyLess(g.key, k)
    ensures Ordered([g] + gs)
  {
    var r := [g] + gs;
    forall i, j | 0 <= i < j < |r| ensures KeyLess(r[i].key, r[j].key) {
      assert r[j] == gs[j - 1];
      if i == 0 {
        assert gs[j - 1] in gs;
      } else {
        assert r[i] == gs[i - 1];
      }
    }
    assert forall h | h in r :: h == g || h in gs;
  }

  /** Appending a row to the first group keeps the keys. */
  lemma OrderedExtendHead(gs: seq<Group>, m: MatchRow)
    requires Ordered(gs) && gs != []
    ensures Ordered([gs[0].(rows := gs[0].rows + [m])] + gs[1..])
  {
    var r := [gs[0].(rows := gs[0].rows + [m])] + gs[1..];
    assert forall i | 0 <= i < |r| :: r[i].key == gs[i].key;
    assert forall g | g in r :: g == r[0] || g in gs;
  }

  /** A group below the first key can head an ordered list. */
  lemma OrderedNewHead(gs: seq<Group>, g: Group)
    requires Ordered(gs) && gs != [] && g.rows != []
    requires KeyLess(g.key, gs[0].key)
    ensures Ordered([g] + gs)
  {
    OrderedSplit(gs);
    KeysCons(gs[0], gs[1..]);
    forall k | k in Keys(gs) ensures KeyLess(g.key, k) {
      if k != gs[0].key {
        KeyLessTransitive(g.key, gs[0].key, k);
      }
    }
    OrderedCons(g, gs);
  }

  /** Adding a row keeps the keys strictly ascending and no group empty. */
  lemma {:induction false} AddRowOrdered(gs: seq<Group>, m: MatchRow)
    requires Ordered(gs)
    ensures Ordered(AddRow(gs, m))
  {
    var km := KeyOf(m);
    var r := AddRow(gs, m);
    if gs != [] {
      var tail := gs[1..];
      OrderedSplit(gs);
      if gs[0].key == km {
        OrderedExtendHead(gs, m);
      } else if KeyLess(km, gs[0].key) {
        OrderedNewHead(gs, Group(km, [m]));
      } else {
        KeyLessTotal(km, gs[0].key);
        AddRowOrdered(tail, m);
        AddRowKeys(tail, m);
        OrderedCons(gs[0], AddRow(tail, m));
      }
    }
  }

  /** Adding a row puts it at the end of its key's group and nowhere else. */
  lemma {:induction false} AddRowLookup(gs: seq<Group>, m: MatchRow)
    requires Ordered(gs)
    ensures forall k :: Lookup(AddRow(gs, m), k) == Lookup(gs, k) + (if k == KeyOf(m) then [m] else [])
  {
    var km := KeyOf(m);
    var r := AddRow(gs, m);
    if gs == [] {
      assert r[1..] == [];
    } else {
      var tail := gs[1..];
      OrderedSplit(gs);
      if gs[0].key == km {
        assert r[1..] == tail;
      } else if KeyLess(km, gs[0].key) {
        assert r[1..] == gs;
        forall g | g in gs ensures g.key != km {
          var j :| 0 <= j < |gs| && gs[j] == g;
          if j > 0 {
            KeyLessTransitive(km, gs[0].key, g.key);
          }
          KeyLessIrreflexive(km);
        }
        LookupAbsent(gs, km);
      } else {
        AddRowLookup(tail, m);
        assert r[1..] == AddRow(tail, m);
      }
    }
  }

  function KeySet(ms: seq<MatchRow>): set<GroupKey> {
    set m | m in ms :: KeyOf(m)
  }

  lemma KeySetSnoc(ms: seq<MatchRow>)
    requires ms != []
    ensures KeySet(ms) == KeySet(ms[..|ms| - 1]) + {KeyOf(ms[|ms| - 1])}
  {
    var init := ms[..|ms| - 1];
    assert ms == init + [ms[|ms| - 1]];
    assert forall m | m in ms :: m in init || m == ms[|ms| - 1];
  }

  lemma {:induction false} CollectOrdered(ms: seq<MatchRow>)
    ensures Ordered(Collect(ms))
  {
    if ms != [] {
      CollectOrdered(ms[..|ms| - 1]);
      AddRowOrdered(Collect(ms[..|ms| - 1]), ms[|ms| - 1]);
    }
  }

  lemma {:induction false} CollectKeys(ms: seq<MatchRow>)
    ensures Keys(Collect(ms)) == KeySet(ms)
  {
    if ms != [] {
      CollectKeys(ms[..|ms| - 1]);
      AddRowKeys(Collect(ms[..|ms| - 1]), ms[|ms| - 1]);
      KeySetSnoc(ms);
    }
  }

  lemma {:induction false} CollectLookup(ms: seq<MatchRow>)
    ensures forall k :: Lookup(Collect(ms), k) == RowsWithKey(ms, k)
  {
    if ms != [] {
      var init := ms[..|ms| - 1];
      CollectLookup(init);
      CollectOrdered(init);
      AddRowLookup(Collect(init), ms[|ms| - 1]);
    }
  }

  /** The groups of `ms`: ordered, one per distinct key, and the group with
      key `k` holds exactly the rows with key `k`, in corpus order. */
  lemma CollectSpec(ms: seq<MatchRow>)
    ensures Ordered(Collect(ms))
    ensures Keys(Collect(ms)) == KeySet(ms)
    ensures forall k :: Lookup(Collect(ms), k) == RowsWithKey(ms, k)
  {
    CollectOrdered(ms);
    CollectKeys(ms);
    CollectLookup(ms);
  }

  /** Every row carries its album's display class. */
  lemma GroupRowsClassed(ms: seq<MatchRow>)
    ensures forall g | g in GroupRows(ms) :: g.albumClass == CssClass(g.albumTitle)
  {
    var gs := Collect(ms);
    forall g | g in GroupRows(ms) ensures g.albumClass == CssClass(g.albumTitle) {
      var i :| 0 <= i < |gs| && GroupRows(ms)[i] == g;
      assert g == Finish(gs[i]);
    }
  }

  /** The grouped frame: one row per distinct key, keys strictly ascending;
      each row holds the texts and highlighted texts of exactly the lines
      with its key, in corpus order, its album's display class and the
      single-space join of its texts. */
  lemma GroupRowsSpec(ms: seq<MatchRow>)
    ensures var g := GroupRows(ms);
      && (forall i, j | 0 <= i < j < |g| :: KeyLess(RowKey(g[i]), RowKey(g[j])))
      && (forall i | 0 <= i < |g| ::
            && g[i].texts == Texts(RowsWithKey(ms, RowKey(g[i])))
            && g[i].highlighted == Highlights(RowsWithKey(ms, RowKey(g[i])))
            && g[i].texts != []
            && g[i].albumClass == CssClass(g[i].albumTitle)
            && g[i].lyrics == JoinSpace(g[i].texts))
      && (forall m | m in ms :: exists i | 0 <= i < |g| :: RowKey(g[i]) == KeyOf(m))
  {
    var gs := Collect(ms);
    var g := GroupRows(ms);
    CollectSpec(ms);
    forall i | 0 <= i < |g|
      ensures g[i].texts == Texts(RowsWithKey(ms, RowKey(g[i])))
      ensures g[i].highlighted == Highlights(RowsWithKey(ms, RowKey(g[i])))
      ensures g[i].texts != []
    {
      assert RowKey(g[i]) == gs[i].key;
      LookupAt(gs, i);
      assert gs[i] in gs;
    }
    forall m | m in ms ensures exists i | 0 <= i < |g| :: RowKey(g[i]) == KeyOf(m) {
      assert KeyOf(m) in Keys(gs);
      var h :| h in gs && h.key == KeyOf(m);
      var i :| 0 <= i < |gs| && gs[i] == h;
      assert RowKey(g[i]) == KeyOf(m);
    }
  }
}
