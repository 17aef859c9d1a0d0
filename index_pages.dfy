/**
 * scripts/generate_pages_game_season.py: pages from the games index, a JSON
 * list of season blocks, each with its games. Every JSON scalar the script
 * puts into a page is modelled by the text its f-string produces (`str()` of
 * the value), or `None` when the key is absent or null.
 */
module IndexPages {
  import opened Wrappers
  import opened Slug
  import opened FrontMatter
  import opened Filesystem
  import opened GameFiles

  /** The `final` value of a game, as far as `parse_final` tells shapes apart. */
  datatype Final =
    | Dict(home: Option<string>, away: Option<string>)  // an object; its "home"/"away" entries
    | List(items: seq<Final>)                           // an array
    | Scalar                                            // a number, string, boolean, null, or no "final" key

  /** A game object of the index. `game_id` must be a string: `slugify` needs `.lower()`. */
  datatype Game = Game(gameId: string, week: Option<string>, date: Option<string>,
                       home: Option<string>, away: Option<string>, final: Final,
                       pbpUrl: Option<string>)

  /** A season block; an absent "games" key is the empty list. */
  datatype SeasonBlock = SeasonBlock(season: Option<string>, games: seq<Game>)

  /** How an f-string shows an optional value: an absent or null value prints as `None`. */
  function Show(o: Option<string>): string {
    o.GetOr("None")
  }

  /** `'' if x is None else x`, for the final scores. */
  function Blank(o: Option<string>): string {
    o.GetOr("")
  }

  /** `parse_final`: the home and away scores of a final, if it has that shape. */
  function ParseFinal(v: Final): (scores: (Option<string>, Option<string>))
    ensures v.Scalar? ==> scores == (None, None)
  {
    match v
    case Dict(home, away) => (home, away)
    case List(items) => if items != [] && items[0].Dict? then (items[0].home, items[0].away) else (None, None)
    case Scalar => (None, None)
  }

  /** A list whose first element is a dict reads that dict; the later elements are never looked at. */
  lemma ParseFinalUnwrapsList(first: Final, rest: seq<Final>)
    requires first.Dict?
    ensures ParseFinal(List([first] + rest)) == ParseFinal(first) == (first.home, first.away)
  {
  }

  /** Scores come only from a dict or a list headed by a dict: no deeper nesting is unwrapped. */
  lemma ParseFinalNeedsDict(v: Final)
    requires !v.Dict? && !(v.List? && v.items != [] && v.items[0].Dict?)
    ensures ParseFinal(v) == (None, None)
  {
  }

  /** `clear_directory`: create the directory if needed, then delete its `*.md` files. */
  method ClearDirectory(dir: Directory)
    requires dir.Valid()
    modifies dir
    ensures dir.Valid() && dir.present
    ensures dir.files == KeepNonMd(old(dir.files))
  {
    dir.Mkdir();
    dir.Clear();
  }

  /** The season page; unlike the CSV generators, the title is the season alone. */
  function SeasonPage(season: string): seq<Field> {
    [Field("layout", "season"), Field("title", season), Field("season", season)]
  }

  /**
   * The seasons of `data` name files directly inside the seasons directory:
   * a `/` in `{season}.md` would make the path join name another place.
   */
  predicate FlatSeasons(data: seq<SeasonBlock>) {
    forall b :: b in data ==> NoChar(Show(b.season), '/')
  }

  function SeasonFileName(season: Option<string>): string {
    Show(season) + ".md"
  }

  function SeasonWrite(block: SeasonBlock): FileWrite {
    FileWrite(SeasonFileName(block.season), Render(SeasonPage(Show(block.season))))
  }

  /** One season page per block, in the order of the blocks. */
  function SeasonWrites(data: seq<SeasonBlock>): (writes: seq<FileWrite>)
  {
    seq(|data|, i requires 0 <= i < |data| => SeasonWrite(data[i]))
  }

  /** A game as the inner loop sees it: with the season of its block. */
  datatype Visit = Visit(season: Option<string>, game: Game)

  function BlockVisits(block: SeasonBlock): (visits: seq<Visit>)
  {
    seq(|block.games|, j requires 0 <= j < |block.games| => Visit(block.season, block.games[j]))
  }

  /** Every game of every block, in the order the nested loops visit them. */
  function Visits(data: seq<SeasonBlock>): seq<Visit> {
    if data == [] then [] else Visits(data[..|data| - 1]) + BlockVisits(data[|data| - 1])
  }

  /** The game writes after `i + 1` blocks: those after `i`, then block `i`'s. */
  lemma VisitsStep(files: map<string, string>, data: seq<SeasonBlock>, i: nat)
    requires i < |data|
    ensures Apply(files, GameWrites(Visits(data[..i + 1])))
         == Apply(Apply(files, GameWrites(Visits(data[..i]))), GameWrites(BlockVisits(data[i])))
  {
    var done, visits := Visits(data[..i]), BlockVisits(data[i]);
    assert data[..i + 1][..i] == data[..i];
    assert GameWrites(Visits(data[..i + 1])) == GameWrites(done) + GameWrites(visits);
    ApplyConcat(files, GameWrites(done), GameWrites(visits));
  }

  /** The front matter of a game page, in the order the script writes it. */
  function GamePage(v: Visit): seq<Field> {
    var g := v.game;
    var (finalHome, finalAway) := ParseFinal(g.final);
    [Field("layout", "game"),
     Field("title", "Week " + Show(g.week) + " \U{2014} " + Show(g.away) + " at " + Show(g.home)),
     Field("season", Show(v.season)),
     Field("game_id", g.gameId),
     Field("week", Show(g.week)),
     Field("date", Show(g.date)),
     Field("home_team", Show(g.home)),
     Field("away_team", Show(g.away)),
     Field("final_home", Blank(finalHome)),
     Field("final_away", Blank(finalAway)),
     Field("pbp_url", Show(g.pbpUrl))]
  }

  function GameWrite(v: Visit): FileWrite {
    FileWrite(GameFileName(v.game.gameId), Render(GamePage(v)))
  }

  function GameWrites(visits: seq<Visit>): (writes: seq<FileWrite>)
  {
    seq(|visits|, k requires 0 <= k < |visits| => GameWrite(visits[k]))
  }

  /**
   * `generate_pages()`, from the parsed index on: clear both directories, then
   * for each block write its season page and the pages of its games.
   */
  method GeneratePages(data: seq<SeasonBlock>, seasonsDir: Directory, gamesDir: Directory)
    requires seasonsDir != gamesDir
    requires seasonsDir.Valid() && gamesDir.Valid()
    modifies seasonsDir, gamesDir
    ensures seasonsDir.Valid() && seasonsDir.present
    ensures gamesDir.Valid() && gamesDir.present
    ensures seasonsDir.files == Apply(KeepNonMd(old(seasonsDir.files)), SeasonWrites(data))
    ensures gamesDir.files == Apply(KeepNonMd(old(gamesDir.files)), GameWrites(Visits(data)))
  {
    ClearDirectory(seasonsDir);
    ClearDirectory(gamesDir);
    ghost var seasonsCleared := seasonsDir.files;
    ghost var gamesCleared := gamesDir.files;
    ghost var seasonWrites := SeasonWrites(data);
    for i := 0 to |data|
      invariant seasonsDir.Valid() && seasonsDir.present
      invariant gamesDir.Valid() && gamesDir.present
      invariant seasonsDir.files == Apply(seasonsCleared, seasonWrites[..i])
      invariant gamesDir.files == Apply(gamesCleared, GameWrites(Visits(data[..i])))
    {
      var block := data[i];
      var season := block.season;
      seasonsDir.Write(Show(season) + ".md", Render(SeasonPage(Show(season))));
      assert seasonWrites[..i + 1][..i] == seasonWrites[..i];
      WriteGames(gamesDir, block);
      VisitsStep(gamesCleared, data, i);
    }
    assert data[..|data|] == data;
    assert seasonWrites[..|data|] == seasonWrites;
  }

  /** The inner loop of `generate_pages()`: one page per game of a block, in order. */
  method WriteGames(gamesDir: Directory, block: SeasonBlock)
    requires gamesDir.Valid() && gamesDir.present
    modifies gamesDir
    ensures gamesDir.Valid() && gamesDir.present
    ensures gamesDir.files == Apply(old(gamesDir.files), GameWrites(BlockVisits(block)))
  {
    ghost var visits := BlockVisits(block);
    for j := 0 to |block.games|
      invariant gamesDir.Valid() && gamesDir.present
      invariant gamesDir.files == Apply(old(gamesDir.files), GameWrites(visits[..j]))
    {
      var g := block.games[j];
      var slug := Slugify(g.gameId);
      gamesDir.Write(slug + ".md", Render(GamePage(Visit(block.season, g))));
      assert GameWrites(visits[..j + 1])[..j] == GameWrites(visits[..j]);
    }
    assert visits[..|block.games|] == visits;
  }

  /** The season directory after a run: one `*.md` page per distinct season, whatever the repeats. */
  lemma SeasonDirectoryAfterRun(before: map<string, string>, data: seq<SeasonBlock>)
    requires FlatSeasons(data)
    ensures var after := Apply(KeepNonMd(before), SeasonWrites(data));
      && (forall name :: IsMd(name) ==> (name in after <==> exists b :: b in data && name == SeasonFileName(b.season)))
      && (forall b :: b in data ==>
            SeasonFileName(b.season) in after && after[SeasonFileName(b.season)] == Render(SeasonPage(Show(b.season))))
      && KeepNonMd(after) == KeepNonMd(before)
  {
    var writes := SeasonWrites(data);
    SeasonWritesAreMd(data);
    SeasonWriteNames(data);
    Rebuild(before, writes);
    forall b | b in data
      ensures SeasonFileName(b.season) in Apply(KeepNonMd(before), writes)
      ensures Apply(KeepNonMd(before), writes)[SeasonFileName(b.season)] == Render(SeasonPage(Show(b.season)))
    {
      SeasonPageOfName(before, data, b);
    }
  }

  /** Every game page's season has a season page: each visited game's block wrote its season's file. */
  lemma EveryGameHasSeasonPage(before: map<string, string>, data: seq<SeasonBlock>)
    requires FlatSeasons(data)
    ensures forall v :: v in Visits(data) ==> SeasonFileName(v.season) in Apply(KeepNonMd(before), SeasonWrites(data))
  {
    SeasonDirectoryAfterRun(before, data);
    VisitsSound(data);
    forall v | v in Visits(data)
      ensures SeasonFileName(v.season) in Apply(KeepNonMd(before), SeasonWrites(data))
    {
      var i, j :| 0 <= i < |data| && 0 <= j < |data[i].games| && v == Visit(data[i].season, data[i].games[j]);
      assert data[i] in data;
    }
  }

  lemma SeasonWritesAreMd(data: seq<SeasonBlock>)
    ensures AllMd(SeasonWrites(data))
  {
    forall w | w in SeasonWrites(data)
      ensures IsMd(w.name)
    {
      var i :| 0 <= i < |data| && SeasonWrites(data)[i] == w;
      MdSuffix(Show(data[i].season));
    }
  }

  lemma SeasonWriteNames(data: seq<SeasonBlock>)
    ensures forall name :: name in Names(SeasonWrites(data)) <==> exists b :: b in data && name == SeasonFileName(b.season)
  {
    var writes := SeasonWrites(data);
    forall name
      ensures name in Names(writes) <==> exists b :: b in data && name == SeasonFileName(b.season)
    {
      if name in Names(writes) {
        var w :| w in writes && w.name == name;
        var i :| 0 <= i < |writes| && writes[i] == w;
        assert data[i] in data;
      }
      if exists b :: b in data && name == SeasonFileName(b.season) {
        var b :| b in data && name == SeasonFileName(b.season);
        var i :| 0 <= i < |data| && data[i] == b;
        assert writes[i] in writes;
      }
    }
  }

  /** Whichever block wrote a season's file last, it wrote that season's page. */
  lemma SeasonPageOfName(before: map<string, string>, data: seq<SeasonBlock>, b: SeasonBlock)
    requires b in data
    ensures SeasonFileName(b.season) in Apply(KeepNonMd(before), SeasonWrites(data))
    ensures Apply(KeepNonMd(before), SeasonWrites(data))[SeasonFileName(b.season)] == Render(SeasonPage(Show(b.season)))
  {
    var writes := SeasonWrites(data);
    var name := SeasonFileName(b.season);
    var k :| 0 <= k < |data| && data[k] == b;
    assert writes[k] in writes;
    ApplyWrittenBySome(KeepNonMd(before), writes, name);
    var i :| 0 <= i < |writes| && writes[i].name == name && Apply(KeepNonMd(before), writes)[name] == writes[i].content;
    MdStems(Show(data[i].season), Show(b.season));
  }

  /** A season page reads back as layout, a title that is the season alone, and the season. */
  lemma SeasonPageLayout(season: Option<string>)
    requires OneLine(Show(season))
    ensures Parse(Render(SeasonPage(Show(season)))) == Some([
      Field("layout", "season"),
      Field("title", Show(season)),
      Field("season", Show(season))])
  {
    var fields := SeasonPage(Show(season));
    KeyIsPlain("layout");
    KeyIsPlain("title");
    KeyIsPlain("season");
    assert IsPlain(fields[0]) && IsPlain(fields[1]) && IsPlain(fields[2]);
    RenderParseRoundTrip(fields);
  }

  /** The game ids of the visited games, in loop order. */
  function GameIds(visits: seq<Visit>): (ids: seq<string>)
  {
    seq(|visits|, k requires 0 <= k < |visits| => visits[k].game.gameId)
  }

  /** The nested loops visit every game of every block, with its block's season, and nothing else. */
  lemma VisitsCover(data: seq<SeasonBlock>)
    ensures forall v :: v in Visits(data) <==>
      exists i, j :: 0 <= i < |data| && 0 <= j < |data[i].games| && v == Visit(data[i].season, data[i].games[j])
  {
    VisitsSound(data);
    VisitsComplete(data);
  }

  lemma {:induction false} VisitsSound(data: seq<SeasonBlock>)
    ensures forall v :: v in Visits(data) ==>
      exists i, j :: 0 <= i < |data| && 0 <= j < |data[i].games| && v == Visit(data[i].season, data[i].games[j])
    decreases |data|
  {
    if data != [] {
      var n := |data| - 1;
      var init := data[..n];
      VisitsSound(init);
      forall v | v in Visits(data)
        ensures exists i, j :: 0 <= i < |data| && 0 <= j < |data[i].games| && v == Visit(data[i].season, data[i].games[j])
      {
        if v in Visits(init) {
          var i, j :| 0 <= i < |init| && 0 <= j < |init[i].games| && v == Visit(init[i].season, init[i].games[j]);
          assert data[i] == init[i];
        } else {
          var j :| 0 <= j < |BlockVisits(data[n])| && BlockVisits(data[n])[j] == v;
          assert v == Visit(data[n].season, data[n].games[j]);
        }
      }
    }
  }

  lemma {:induction false} VisitsComplete(data: seq<SeasonBlock>)
    ensures forall i, j :: 0 <= i < |data| && 0 <= j < |data[i].games| ==>
      Visit(data[i].season, data[i].games[j]) in Visits(data)
    decreases |data|
  {
    if data != [] {
      var n := |data| - 1;
      var init := data[..n];
      VisitsComplete(init);
      forall i, j | 0 <= i < |data| && 0 <= j < |data[i].games|
        ensures Visit(data[i].season, data[i].games[j]) in Visits(data)
      {
        if i < n {
          assert init[i] == data[i];
          assert Visit(init[i].season, init[i].games[j]) in Visits(init);
        } else {
          assert BlockVisits(data[n])[j] == Visit(data[i].season, data[i].games[j]);
        }
      }
    }
  }

  /**
   * The games directory after a run: one `*.md` page per distinct slug of the
   * games of all blocks; a page shared by several games holds the last one's
   * page; every other file is untouched.
   */
  lemma GameDirectoryAfterRun(before: map<string, string>, data: seq<SeasonBlock>)
    ensures var visits := Visits(data);
      var after := Apply(KeepNonMd(before), GameWrites(visits));
      && (forall name :: IsMd(name) ==> (name in after <==>
            exists i, j :: 0 <= i < |data| && 0 <= j < |data[i].games| && name == GameFileName(data[i].games[j].gameId)))
      && (forall k :: 0 <= k < |visits| && LastWithSlug(GameIds(visits), k) ==>
            GameFileName(visits[k].game.gameId) in after &&
            after[GameFileName(visits[k].game.gameId)] == Render(GamePage(visits[k])))
      && KeepNonMd(after) == KeepNonMd(before)
  {
    GameDirectoryShape(before, GameIds(Visits(data)), GameWrites(Visits(data)));
    GameIdsCover(data);
  }

  /** The visited game ids are the ids of the games of the blocks. */
  lemma GameIdsCover(data: seq<SeasonBlock>)
    ensures forall id :: id in GameIds(Visits(data)) <==>
      exists i, j :: 0 <= i < |data| && 0 <= j < |data[i].games| && id == data[i].games[j].gameId
  {
    var visits := Visits(data);
    var ids := GameIds(visits);
    VisitsCover(data);
    forall id
      ensures id in ids <==> exists i, j :: 0 <= i < |data| && 0 <= j < |data[i].games| && id == data[i].games[j].gameId
    {
      if id in ids {
        var k :| 0 <= k < |ids| && ids[k] == id;
        assert visits[k] in visits;
      }
      if exists i, j :: 0 <= i < |data| && 0 <= j < |data[i].games| && id == data[i].games[j].gameId {
        var i, j :| 0 <= i < |data| && 0 <= j < |data[i].games| && id == data[i].games[j].gameId;
        var v := Visit(data[i].season, data[i].games[j]);
        assert v in visits;
        var k :| 0 <= k < |visits| && visits[k] == v;
        assert ids[k] == id;
      }
    }
  }

  /** No text of the page spans lines, so the page reads back field by field. */
  predicate OneLine(s: string) {
    NoChar(s, '\n')
  }

  predicate PlainVisit(v: Visit) {
    var g := v.game;
    var (finalHome, finalAway) := ParseFinal(g.final);
    && OneLine(Show(v.season)) && OneLine(g.gameId) && OneLine(Show(g.week)) && OneLine(Show(g.date))
    && OneLine(Show(g.home)) && OneLine(Show(g.away)) && OneLine(Show(g.pbpUrl))
    && OneLine(Blank(finalHome)) && OneLine(Blank(finalAway))
  }

  /** Every line of a game page is a plain `key: value` line. */
  lemma GamePageIsPlain(v: Visit)
    requires PlainVisit(v)
    ensures forall i :: 0 <= i < |GamePage(v)| ==> IsPlain(GamePage(v)[i])
  {
    var g := v.game;
    var fields := GamePage(v);
    assert OneLine(fields[1].value) by {
      assert fields[1].value == "Week " + Show(g.week) + " \U{2014} " + Show(g.away) + " at " + Show(g.home);
    }
    forall i | 0 <= i < |fields|
      ensures IsPlain(fields[i])
    {
      KeyIsPlain(fields[i].key);
    }
  }

  /** The keys of a game page contain neither a colon nor a newline. */
  lemma KeyIsPlain(key: string)
    requires key in {"layout", "title", "season", "game_id", "week", "date", "home_team", "away_team",
                     "final_home", "final_away", "pbp_url"}
    ensures NoChar(key, ':') && NoChar(key, '\n')
  {
  }

  /**
   * A game page reads back as its eleven fields, in the script's order; the
   * final scores are those `parse_final` found, blank when it found none.
   */
  lemma GamePageLayout(v: Visit)
    requires PlainVisit(v)
    ensures var g := v.game;
      Parse(Render(GamePage(v))) == Some([
        Field("layout", "game"),
        Field("title", "Week " + Show(g.week) + " \U{2014} " + Show(g.away) + " at " + Show(g.home)),
        Field("season", Show(v.season)),
        Field("game_id", g.gameId),
        Field("week", Show(g.week)),
        Field("date", Show(g.date)),
        Field("home_team", Show(g.home)),
        Field("away_team", Show(g.away)),
        Field("final_home", Blank(ParseFinal(g.final).0)),
        Field("final_away", Blank(ParseFinal(g.final).1)),
        Field("pbp_url", Show(g.pbpUrl))])
  {
    GamePageIsPlain(v);
    RenderParseRoundTrip(GamePage(v));
  }

  /** A game without a usable final gets empty `final_home` and `final_away` lines. */
  lemma NoFinalIsBlank(v: Visit)
    requires PlainVisit(v)
    requires ParseFinal(v.game.final) == (None, None)
    ensures Parse(Render(GamePage(v))).Some?
    ensures Lookup(Parse(Render(GamePage(v))).value, "final_home") == Some("")
    ensures Lookup(Parse(Render(GamePage(v))).value, "final_away") == Some("")
  {
    var fields := GamePage(v);
    GamePageLayout(v);
    assert fields[8] == Field("final_home", "") && fields[9] == Field("final_away", "");
    assert forall j :: 0 <= j < 8 ==> fields[j].key != "final_home" && fields[j].key != "final_away";
    LookupFirst(fields, 8);
    LookupFirst(fields, 9);
  }
}
