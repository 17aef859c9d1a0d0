/**
 * What the two CSV generators share: the dropna step, the ascending list of
 * distinct seasons, the season page, and the (season, week, game_id) groups.
 * Their game pages differ and live in `TeamPages` and `TemplatePages`.
 */
module Tabular {
  import opened Wrappers
  import opened Decimal
  import opened FrontMatter
  import opened Filesystem

  /** A CSV row as read: any of the three identifying cells may be empty (NaN). */
  datatype CsvRow = CsvRow(gameId: Option<string>, season: Option<int>, week: Option<int>,
                           awayTeam: string, homeTeam: string)

  /** A row that survived dropna. */
  datatype Row = Row(gameId: string, season: int, week: int, awayTeam: string, homeTeam: string)

  predicate Complete(r: CsvRow) {
    r.gameId.Some? && r.season.Some? && r.week.Some?
  }

  function ToRow(r: CsvRow): Row
    requires Complete(r)
  {
    Row(r.gameId.value, r.season.value, r.week.value, r.awayTeam, r.homeTeam)
  }

  /** `df.dropna(subset=["game_id", "season", "week"])`, keeping row order. */
  function DropIncomplete(rows: seq<CsvRow>): (table: seq<Row>)
    ensures |table| <= |rows|
    ensures forall x :: x in table ==> exists i :: 0 <= i < |rows| && Complete(rows[i]) && ToRow(rows[i]) == x
    ensures forall i :: 0 <= i < |rows| && Complete(rows[i]) ==> ToRow(rows[i]) in table
  {
    if rows == [] then []
    else
      var rest := DropIncomplete(rows[1..]);
      assert forall x :: x in rest ==> exists i :: 0 <= i < |rows| && Complete(rows[i]) && ToRow(rows[i]) == x by {
        forall x | x in rest
          ensures exists i :: 0 <= i < |rows| && Complete(rows[i]) && ToRow(rows[i]) == x
        {
          var i :| 0 <= i < |rows[1..]| && Complete(rows[1..][i]) && ToRow(rows[1..][i]) == x;
          assert rows[i + 1] == rows[1..][i];
        }
      }
      assert forall i :: 1 <= i < |rows| && Complete(rows[i]) ==> ToRow(rows[i]) in rest by {
        forall i | 1 <= i < |rows| && Complete(rows[i])
          ensures ToRow(rows[i]) in rest
        {
          assert rows[1..][i - 1] == rows[i];
        }
      }
      if Complete(rows[0]) then [ToRow(rows[0])] + rest else rest
  }

  lemma {:induction false} DropIncompleteAppend(a: seq<CsvRow>, b: seq<CsvRow>)
    ensures DropIncomplete(a + b) == DropIncomplete(a) + DropIncomplete(b)
    decreases |a|
  {
    if a == [] {
      assert a + b == b;
    } else {
      assert (a + b)[0] == a[0];
      assert (a + b)[1..] == a[1..] + b;
      DropIncompleteAppend(a[1..], b);
    }
  }

  /**
   * A row missing its game id, season or week is dropped before anything is
   * derived: the cleaned table, and so every page, is the same without it.
   */
  lemma IncompleteRowContributesNothing(rows: seq<CsvRow>, i: nat)
    requires i < |rows| && !Complete(rows[i])
    ensures DropIncomplete(rows[..i] + rows[i + 1..]) == DropIncomplete(rows)
  {
    assert rows == rows[..i] + ([rows[i]] + rows[i + 1..]);
    DropIncompleteAppend(rows[..i], [rows[i]] + rows[i + 1..]);
    DropIncompleteAppend([rows[i]], rows[i + 1..]);
    DropIncompleteAppend(rows[..i], rows[i + 1..]);
    assert DropIncomplete([rows[i]]) == [];
  }

  function Seasons(table: seq<Row>): set<int> {
    set r | r in table :: r.season
  }

  predicate StrictlyIncreasing(s: seq<int>) {
    forall i, j :: 0 <= i < j < |s| ==> s[i] < s[j]
  }

  function Insert(x: int, s: seq<int>): (r: seq<int>)
    requires StrictlyIncreasing(s)
    ensures StrictlyIncreasing(r)
    ensures forall y :: y in r <==> y == x || y in s
  {
    if s == [] then [x]
    else if x < s[0] then [x] + s
    else if x == s[0] then s
    else
      var rest := Insert(x, s[1..]);
      assert forall y :: y in s <==> y == s[0] || y in s[1..];
      assert forall i :: 0 <= i < |rest| ==> s[0] < rest[i] by {
        forall i | 0 <= i < |rest|
          ensures s[0] < rest[i]
        {
          assert rest[i] in rest;
          if rest[i] != x {
            var m :| 0 <= m < |s[1..]| && s[1..][m] == rest[i];
            assert s[m + 1] == rest[i];
          }
        }
      }
      [s[0]] + rest
  }

  /** `sorted(df["season"].unique())`. */
  function SortedSeasons(table: seq<Row>): (seasons: seq<int>)
    ensures StrictlyIncreasing(seasons)
    ensures forall s :: s in seasons <==> s in Seasons(table)
  {
    if table == [] then []
    else
      var rest := SortedSeasons(table[1..]);
      assert forall s :: s in Seasons(table) <==> s == table[0].season || s in Seasons(table[1..]) by {
        assert forall r :: r in table <==> r == table[0] || r in table[1..];
      }
      Insert(table[0].season, rest)
  }

  function SeasonFileName(season: int): string {
    IntToString(season) + ".md"
  }

  function SeasonPage(season: int): seq<Field> {
    [Field("layout", "season"),
     Field("title", IntToString(season) + " Eagles 4th Downs"),
     Field("season", IntToString(season))]
  }

  function SeasonWrites(seasons: seq<int>): (writes: seq<FileWrite>)
  {
    seq(|seasons|, i requires 0 <= i < |seasons| =>
      FileWrite(SeasonFileName(seasons[i]), Render(SeasonPage(seasons[i]))))
  }

  /** The season loop: one `write_text` per distinct season, in ascending order. */
  method WriteSeasonPages(dir: Directory, table: seq<Row>)
    requires dir.Valid() && dir.present
    modifies dir
    ensures dir.Valid() && dir.present
    ensures dir.files == Apply(old(dir.files), SeasonRunWrites(table))
  {
    var seasons := SortedSeasons(table);
    ghost var writes := SeasonRunWrites(table);
    for i := 0 to |seasons|
      invariant dir.Valid() && dir.present
      invariant dir.files == Apply(old(dir.files), writes[..i])
    {
      var season := seasons[i];
      dir.Write(SeasonFileName(season), Render(SeasonPage(season)));
      assert writes[..i + 1][..i] == writes[..i];
    }
    assert writes[..|seasons|] == writes;
  }

  /** Season file names differ exactly when seasons do. */
  lemma SeasonFileNameInjective(a: int, b: int)
    requires a != b
    ensures SeasonFileName(a) != SeasonFileName(b)
  {
    IntToStringInjective(a, b);
    var x, y := IntToString(a), IntToString(b);
    if |x| == |y| {
      assert (x + ".md")[..|x|] == x && (y + ".md")[..|y|] == y;
    }
  }

  function SeasonRunWrites(table: seq<Row>): seq<FileWrite> {
    SeasonWrites(SortedSeasons(table))
  }

  lemma SeasonWritesAreMd(table: seq<Row>)
    ensures AllMd(SeasonRunWrites(table))
  {
    var seasons := SortedSeasons(table);
    var writes := SeasonRunWrites(table);
    forall w | w in writes
      ensures IsMd(w.name)
    {
      var i :| 0 <= i < |writes| && writes[i] == w;
      MdSuffix(IntToString(seasons[i]));
    }
  }

  /** No two season writes go to the same file: each season is written once. */
  lemma SeasonWritesDistinct(table: seq<Row>)
    ensures var writes := SeasonRunWrites(table);
      forall i, j :: 0 <= i < j < |writes| ==> writes[i].name != writes[j].name
  {
    var seasons := SortedSeasons(table);
    var writes := SeasonRunWrites(table);
    forall i, j | 0 <= i < j < |writes|
      ensures writes[i].name != writes[j].name
    {
      SeasonFileNameInjective(seasons[i], seasons[j]);
    }
  }

  /** The files the season loop writes are named `{season}.md` for exactly the distinct seasons. */
  lemma SeasonWriteNames(table: seq<Row>)
    ensures forall name :: name in Names(SeasonRunWrites(table)) <==>
      exists s :: s in Seasons(table) && name == SeasonFileName(s)
  {
    var seasons := SortedSeasons(table);
    var writes := SeasonRunWrites(table);
    forall name
      ensures name in Names(writes) <==> exists s :: s in Seasons(table) && name == SeasonFileName(s)
    {
      if name in Names(writes) {
        var w :| w in writes && w.name == name;
        var i :| 0 <= i < |writes| && writes[i] == w;
        assert seasons[i] in Seasons(table);
      }
      if exists s :: s in Seasons(table) && name == SeasonFileName(s) {
        var s :| s in Seasons(table) && name == SeasonFileName(s);
        var i :| 0 <= i < |seasons| && seasons[i] == s;
        assert writes[i] in writes;
      }
    }
  }

  /**
   * After a run, the `*.md` files of the seasons directory are named exactly
   * `{season}.md` for the distinct seasons left after dropna (nothing stale
   * survives), each holds that season's page, and every other file is untouched.
   */
  lemma SeasonDirectoryAfterRun(before: map<string, string>, table: seq<Row>)
    ensures var after := Apply(KeepNonMd(before), SeasonRunWrites(table));
      && (forall name :: IsMd(name) ==> (name in after <==> exists s :: s in Seasons(table) && name == SeasonFileName(s)))
      && (forall s :: s in Seasons(table) ==> SeasonFileName(s) in after && after[SeasonFileName(s)] == Render(SeasonPage(s)))
      && KeepNonMd(after) == KeepNonMd(before)
  {
    var seasons := SortedSeasons(table);
    var writes := SeasonRunWrites(table);
    SeasonWritesAreMd(table);
    SeasonWritesDistinct(table);
    SeasonWriteNames(table);
    Rebuild(before, writes);
    var after := Apply(KeepNonMd(before), writes);
    forall s | s in Seasons(table)
      ensures SeasonFileName(s) in after && after[SeasonFileName(s)] == Render(SeasonPage(s))
    {
      var i :| 0 <= i < |seasons| && seasons[i] == s;
      assert writes[i].name == SeasonFileName(s);
      ApplyLastWrite(KeepNonMd(before), writes, i);
    }
  }

  /** Every game page's season has a season page: each group's season is among the files written. */
  lemma EveryGameHasSeasonPage(before: map<string, string>, table: seq<Row>, keys: seq<GroupKey>)
    requires IsGroupOrder(keys, table)
    ensures forall k :: k in keys ==> SeasonFileName(k.season) in Apply(KeepNonMd(before), SeasonRunWrites(table))
  {
    SeasonDirectoryAfterRun(before, table);
    forall k | k in keys
      ensures SeasonFileName(k.season) in Apply(KeepNonMd(before), SeasonRunWrites(table))
    {
      var r :| r in table && KeyOf(r) == k;
      assert k.season in Seasons(table);
    }
  }

  /** A season page reads back as layout, title `{season} Eagles 4th Downs` and season. */
  lemma SeasonPageLayout(season: int)
    ensures Parse(Render(SeasonPage(season))) == Some([
      Field("layout", "season"),
      Field("title", IntToString(season) + " Eagles 4th Downs"),
      Field("season", IntToString(season))])
  {
    var shown := IntToString(season);
    var fields := SeasonPage(season);
    assert NoChar(shown, '\n');
    assert NoChar(shown + " Eagles 4th Downs", '\n');
    assert IsPlain(fields[0]) && IsPlain(fields[1]) && IsPlain(fields[2]);
    RenderParseRoundTrip(fields);
  }

  /** A (season, week, game_id) group of `df.groupby`. */
  datatype GroupKey = GroupKey(season: int, week: int, gameId: string)

  function KeyOf(r: Row): GroupKey {
    GroupKey(r.season, r.week, r.gameId)
  }

  function GroupKeys(table: seq<Row>): set<GroupKey> {
    set r | r in table :: KeyOf(r)
  }

  /**
   * The order in which `groupby` visits the groups: every distinct key once.
   * pandas visits them sorted by key; the model accepts any such order.
   */
  ghost predicate IsGroupOrder(keys: seq<GroupKey>, table: seq<Row>) {
    && (forall i, j :: 0 <= i < j < |keys| ==> keys[i] != keys[j])
    && (forall k :: k in keys <==> k in GroupKeys(table))
  }

  /** The distinct keys in order of first appearance. */
  function FirstAppearance(table: seq<Row>, seen: set<GroupKey>): (keys: seq<GroupKey>)
    ensures forall i, j :: 0 <= i < j < |keys| ==> keys[i] != keys[j]
    ensures forall k :: k in keys <==> k in GroupKeys(table) && k !in seen
  {
    if table == [] then []
    else
      var k := KeyOf(table[0]);
      assert forall x :: x in GroupKeys(table) <==> x == k || x in GroupKeys(table[1..]) by {
        assert forall r :: r in table <==> r == table[0] || r in table[1..];
      }
      if k in seen then FirstAppearance(table[1..], seen)
      else [k] + FirstAppearance(table[1..], seen + {k})
  }

  /** Every table has a group order, so the generators can always be run. */
  lemma GroupOrderExists(table: seq<Row>)
    ensures IsGroupOrder(FirstAppearance(table, {}), table)
  {
  }

  /** `game_df.iloc[0]`: the index of the first row of a group. */
  function FirstOfGroup(table: seq<Row>, key: GroupKey): (i: nat)
    requires key in GroupKeys(table)
    ensures i < |table| && KeyOf(table[i]) == key
    ensures forall j :: 0 <= j < i ==> KeyOf(table[j]) != key
  {
    if KeyOf(table[0]) == key then 0
    else
      assert key in GroupKeys(table[1..]) by {
        var r :| r in table && KeyOf(r) == key;
        assert r != table[0];
        var m :| 0 <= m < |table| && table[m] == r;
        assert table[1..][m - 1] == r;
      }
      1 + FirstOfGroup(table[1..], key)
  }

  /** The game ids of the groups, in loop order. */
  function GameIds(keys: seq<GroupKey>): (ids: seq<string>)
  {
    seq(|keys|, i requires 0 <= i < |keys| => keys[i].gameId)
  }

  /** The groups' game ids are exactly the game ids of the rows. */
  lemma GroupIdsAreRowIds(keys: seq<GroupKey>, table: seq<Row>)
    requires IsGroupOrder(keys, table)
    ensures forall id :: id in GameIds(keys) <==> exists r :: r in table && r.gameId == id
  {
    var ids := GameIds(keys);
    forall id
      ensures id in ids <==> exists r :: r in table && r.gameId == id
    {
      if id in ids {
        var i :| 0 <= i < |ids| && ids[i] == id;
        assert keys[i] in GroupKeys(table);
        var r :| r in table && KeyOf(r) == keys[i];
        assert r.gameId == id;
      }
      if exists r :: r in table && r.gameId == id {
        var r :| r in table && r.gameId == id;
        assert KeyOf(r) in keys;
        var i :| 0 <= i < |keys| && keys[i] == KeyOf(r);
        assert ids[i] == id;
      }
    }
  }
}
