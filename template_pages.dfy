/**
 * eagles_jekyll_template/generate_pages.py: the same season pages as
 * generate_pages.py, and one game page per (season, week, game_id) group that
 * names the game by its id instead of by its teams.
 */
module TemplatePages {
  import opened Wrappers
  import opened Decimal
  import opened Slug
  import opened FrontMatter
  import opened Filesystem
  import opened Tabular
  import opened GameFiles

  /** The front matter of a game page, in the order the script writes it. */
  function GamePage(key: GroupKey): seq<Field> {
    [Field("layout", "game"),
     Field("title", "Week " + IntToString(key.week) + " \U{2013} Game " + key.gameId),
     Field("season", IntToString(key.season)),
     Field("game_id", key.gameId)]
  }

  function GameWrite(key: GroupKey): FileWrite {
    FileWrite(GameFileName(key.gameId), Render(GamePage(key)))
  }

  function GameWrites(keys: seq<GroupKey>): (writes: seq<FileWrite>)
  {
    seq(|keys|, i requires 0 <= i < |keys| => GameWrite(keys[i]))
  }

  /**
   * `generate_pages()`, from the parsed CSV rows on. `keys` is the order in
   * which `groupby` visits the groups. `clear_directory` here does not create
   * the directory, so both must exist (the script's entry point creates them).
   */
  method GeneratePages(rows: seq<CsvRow>, keys: seq<GroupKey>, seasonsDir: Directory, gamesDir: Directory)
    requires seasonsDir != gamesDir
    requires seasonsDir.Valid() && seasonsDir.present
    requires gamesDir.Valid() && gamesDir.present
    requires IsGroupOrder(keys, DropIncomplete(rows))
    modifies seasonsDir, gamesDir
    ensures seasonsDir.Valid() && seasonsDir.present
    ensures gamesDir.Valid() && gamesDir.present
    ensures seasonsDir.files == Apply(KeepNonMd(old(seasonsDir.files)), SeasonRunWrites(DropIncomplete(rows)))
    ensures gamesDir.files == Apply(KeepNonMd(old(gamesDir.files)), GameWrites(keys))
  {
    var table := DropIncomplete(rows);
    seasonsDir.Clear();
    gamesDir.Clear();
    WriteSeasonPages(seasonsDir, table);
    ghost var cleared := gamesDir.files;
    ghost var writes := GameWrites(keys);
    for i := 0 to |keys|
      invariant gamesDir.Valid() && gamesDir.present
      invariant gamesDir.files == Apply(cleared, writes[..i])
      modifies gamesDir
    {
      var key := keys[i];
      var slug := Slugify(key.gameId);
      gamesDir.Write(slug + ".md", Render(GamePage(key)));
      assert writes[..i + 1][..i] == writes[..i];
    }
    assert writes[..|keys|] == writes;
  }

  /**
   * After a run, the games directory holds one `*.md` file per distinct slug
   * of the groups left after dropna; a file shared by groups holds the page of
   * the last group written to it; every other file is untouched.
   */
  lemma GameDirectoryAfterRun(before: map<string, string>, table: seq<Row>, keys: seq<GroupKey>)
    requires IsGroupOrder(keys, table)
    ensures var after := Apply(KeepNonMd(before), GameWrites(keys));
      && (forall name :: IsMd(name) ==> (name in after <==> exists r :: r in table && name == GameFileName(r.gameId)))
      && (forall i :: 0 <= i < |keys| && LastWithSlug(GameIds(keys), i) ==>
            GameFileName(keys[i].gameId) in after &&
            after[GameFileName(keys[i].gameId)] == Render(GamePage(keys[i])))
      && KeepNonMd(after) == KeepNonMd(before)
  {
    GameDirectoryShape(before, GameIds(keys), GameWrites(keys));
    GroupIdsAreRowIds(keys, table);
  }

  /**
   * A game page reads back as exactly four fields: layout, title
   * `Week {week} – Game {game_id}`, season and game_id.
   */
  lemma GamePageLayout(key: GroupKey)
    requires NoChar(key.gameId, '\n')
    ensures Parse(Render(GamePage(key))) == Some([
      Field("layout", "game"),
      Field("title", "Week " + IntToString(key.week) + " \U{2013} Game " + key.gameId),
      Field("season", IntToString(key.season)),
      Field("game_id", key.gameId)])
  {
    assert NoChar("Week " + IntToString(key.week) + " \U{2013} Game " + key.gameId, '\n');
    RenderParseRoundTrip(GamePage(key));
  }
}
