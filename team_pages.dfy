/**
 * generate_pages.py: season pages, then one game page per
 * (season, week, game_id) group whose title and team fields come from the
 * group's first row.
 */
module TeamPages {
  import opened Wrappers
  import opened Decimal
  import opened Slug
  import opened FrontMatter
  import opened Filesystem
  import opened Tabular
  import opened GameFiles

  /** The front matter of a game page, in the order the script writes it. */
  function GamePage(key: GroupKey, first: Row): seq<Field> {
    [Field("layout", "game"),
     Field("title", "Week " + IntToString(key.week) + " \U{2013} " + first.awayTeam + " at " + first.homeTeam),
     Field("season", IntToString(key.season)),
     Field("game_id", key.gameId),
     Field("away_team", first.awayTeam),
     Field("home_team", first.homeTeam)]
  }

  /** The write for one group: its page, built from the group's first row. */
  function GameWrite(table: seq<Row>, key: GroupKey): FileWrite
    requires key in GroupKeys(table)
  {
    FileWrite(GameFileName(key.gameId), Render(GamePage(key, table[FirstOfGroup(table, key)])))
  }

  function GameWrites(table: seq<Row>, keys: seq<GroupKey>): (writes: seq<FileWrite>)
    requires forall k :: k in keys ==> k in GroupKeys(table)
  {
    seq(|keys|, i requires 0 <= i < |keys| => GameWrite(table, keys[i]))
  }

  /**
   * `generate_pages()`, from the parsed CSV rows on. `keys` is the order in
   * which `groupby` visits the groups. Both directories must exist (the
   * script's entry point creates them).
   */
  method GeneratePages(rows: seq<CsvRow>, keys: seq<GroupKey>, seasonsDir: Directory, gamesDir: Directory)
    requires seasonsDir != gamesDir
    requires seasonsDir.Valid() && seasonsDir.present
    requires gamesDir.Valid() && gamesDir.present
    requires IsGroupOrder(keys, DropIncomplete(rows))
    modifies seasonsDir, gamesDir
    ensures seasonsDir.Valid() && seasonsDir.present
    ensures gamesDir.Valid() && gamesDir.present
    ensures seasonsDir.files == Apply(KeepNonMd(old(seasonsDir.files)), SeasonRunWrites(DropIncomplete(rows)))
    ensures gamesDir.files == Apply(KeepNonMd(old(gamesDir.files)), GameWrites(DropIncomplete(rows), keys))
  {
    var table := DropIncomplete(rows);
    seasonsDir.Clear();
    gamesDir.Clear();
    WriteSeasonPages(seasonsDir, table);
    ghost var cleared := gamesDir.files;
    ghost var writes := GameWrites(table, keys);
    for i := 0 to |keys|
      invariant gamesDir.Valid() && gamesDir.present
      invariant gamesDir.files == Apply(cleared, writes[..i])
      modifies gamesDir
    {
      var key := keys[i];
      var first := table[FirstOfGroup(table, key)];
      var slug := Slugify(key.gameId);
      gamesDir.Write(slug + ".md", Render(GamePage(key, first)));
      assert writes[..i + 1][..i] == writes[..i];
    }
    assert writes[..|keys|] == writes;
  }

  /**
   * After a run, the games directory holds one `*.md` file per distinct slug
   * of the groups left after dropna; a file shared by groups holds the page of
   * the last group written to it; every other file is untouched.
   */
  lemma GameDirectoryAfterRun(before: map<string, string>, table: seq<Row>, keys: seq<GroupKey>)
    requires IsGroupOrder(keys, table)
    ensures var after := Apply(KeepNonMd(before), GameWrites(table, keys));
      && (forall name :: IsMd(name) ==> (name in after <==> exists r :: r in table && name == GameFileName(r.gameId)))
      && (forall i :: 0 <= i < |keys| && LastWithSlug(GameIds(keys), i) ==>
            GameFileName(keys[i].gameId) in after &&
            after[GameFileName(keys[i].gameId)] == Render(GamePage(keys[i], table[FirstOfGroup(table, keys[i])])))
      && KeepNonMd(after) == KeepNonMd(before)
  {
    var ids, writes := GameIds(keys), GameWrites(table, keys);
    assert forall i :: 0 <= i < |keys| ==> writes[i] == GameWrite(table, keys[i]) && ids[i] == keys[i].gameId;
    GameDirectoryShape(before, ids, writes);
    GroupIdsAreRowIds(keys, table);
  }

  /**
   * A game page reads back as exactly six fields: layout, title
   * `Week {week} – {away_team} at {home_team}`, season, game_id, away_team and
   * home_team, with the teams of the group's first row.
   */
  lemma GamePageLayout(key: GroupKey, first: Row)
    requires NoChar(key.gameId, '\n') && NoChar(first.awayTeam, '\n') && NoChar(first.homeTeam, '\n')
    ensures Parse(Render(GamePage(key, first))) == Some([
      Field("layout", "game"),
      Field("title", "Week " + IntToString(key.week) + " \U{2013} " + first.awayTeam + " at " + first.homeTeam),
      Field("season", IntToString(key.season)),
      Field("game_id", key.gameId),
      Field("away_team", first.awayTeam),
      Field("home_team", first.homeTeam)])
  {
    var page := GamePage(key, first);
    assert NoChar("Week " + IntToString(key.week) + " \U{2013} " + first.awayTeam + " at " + first.homeTeam, '\n');
    RenderParseRoundTrip(page);
  }
}
