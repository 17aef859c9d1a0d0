# GoForItBirds page generators, modelled in Dafny

The repository publishes a Jekyll site about the Philadelphia Eagles' fourth
downs. Three small Python scripts turn the data into Markdown pages that hold
only front matter. There is one page per season under `seasons/` and one page
per game under `games/`:

- `generate_pages.py` reads a CSV file. It drops the rows that lack `game_id`,
  `season` or `week`. It writes one page per distinct season, in ascending
  order. It then writes one page per `(season, week, game_id)` group, and that
  page takes its teams from the group's first row.
- `eagles_jekyll_template/generate_pages.py` does the same, but its game page
  names the game by its id (`Week {week} – Game {game_id}`) and has no team
  fields.
- `scripts/generate_pages_game_season.py` reads a JSON index: a list of season
  blocks, each holding its games. For each block it writes the season page and
  then the block's game pages. `parse_final` normalises each game's final score.

All three name a game's page `{slugify(game_id)}.md`. All three delete the
old `*.md` pages before writing.

The model has these modules:

| module | file | what it models |
|---|---|---|
| `Wrappers` | `wrappers.dfy` | `Option`, for absent or null JSON values and empty CSV cells |
| `Decimal` | `decimal.dfy` | `str()` of an integer, and its inverse |
| `Slug` | `slug.dfy` | `slugify` |
| `FrontMatter` | `front_matter.dfy` | the `---`/`key: value`/`---` page text, and a parser that reads it back |
| `Filesystem` | `filesystem.dfy` | an output directory as a class with `Clear` (the `glob`/`unlink` loop), `Write` (`write_text`) and `Mkdir`; `Apply` replays a sequence of writes |
| `GameFiles` | `game_files.dfy` | the game pages' file names and what a game loop leaves in `games/` |
| `Tabular` | `tabular.dfy` | what the two CSV scripts share: dropna, sorted distinct seasons, season pages, the groups |
| `TeamPages` | `team_pages.dfy` | `generate_pages.py` |
| `TemplatePages` | `template_pages.dfy` | `eagles_jekyll_template/generate_pages.py` |
| `IndexPages` | `index_pages.dfy` | `scripts/generate_pages_game_season.py` |

Each script's `generate_pages` is a method. It works on two `Directory`
objects and follows the script's loops. Its postcondition gives each
directory's new contents as `Apply(KeepNonMd(old files), writes)`, where
`writes` is a function of the input. Lemmas about that expression then show
the following:

- The `*.md` files after a run are exactly the expected pages, so no stale page
  survives.
- Every other file is untouched.
- Each page holds the expected text.

Page text is checked through `Parse(Render(fields))`. It reads back as the
fields in the script's order.

## Model

| member | source | states |
|---|---|---|
| Slug.Slugify | scripts/generate_pages_game_season.py:9-10 | `slugify`: lower-case the game id, then replace each maximal run outside `[a-z0-9]` by one `-`; its properties are the lemmas below |
| Slug.Lower | scripts/generate_pages_game_season.py:10 | `game_id.lower()`, ASCII only: same length, each character lower-cased on its own |
| Slug.SlugAlphabet | scripts/generate_pages_game_season.py:9-10 | a slug holds only `a`-`z`, `0`-`9` and `-`; it never has two hyphens in a row; it is empty exactly when the game id is |
| Slug.SlugKeepsEdges | scripts/generate_pages_game_season.py:10 | nothing is trimmed: the slug starts (ends) with `-` exactly when the id starts (ends) with a character that is not an ASCII letter or digit |
| Slug.SlugKeepsAlnums | scripts/generate_pages_game_season.py:10 | deleting the slug's hyphens leaves the id's lower-cased ASCII letters and digits, all of them, in order |
| Slug.SlugifyIdempotent | scripts/generate_pages_game_season.py:10 | slugifying a slug changes nothing |
| Slug.SeparatorRunIsOneHyphen | generate_pages.py:12-13 | a run of separators of any length, between an alphanumeric and an alphanumeric, becomes exactly one `-`, and the parts on either side are slugified independently |
| Slug.Collapse | eagles_jekyll_template/generate_pages.py:12-13 | the replacement `re.sub(r"[^a-z0-9]+", "-", ...)` yields only slug characters, is empty only for empty input, and starts with `-` exactly when the input starts with a separator |
| Slug.LowerChar | eagles_jekyll_template/generate_pages.py:13 | lower-casing maps a character into `[a-z0-9]` exactly when it is an ASCII letter or digit, and leaves no upper-case letter |
| Decimal.IntToString | generate_pages.py:30-34 | `str(n)` of an integer, as every CSV `{season}` and `{week}` is shown: a non-empty text of an optional `-` and decimal digits, with no leading zero, a `-` only for negative numbers and never `-0` |
| Decimal.IntRoundTrip | generate_pages.py:30 | the text of `f"{season}"` for an integer reads back as that integer |
| Decimal.IntToStringInjective | generate_pages.py:30 | distinct integers render as distinct texts |
| FrontMatter.Render | generate_pages.py:47-54 | the page text the f-strings build: `---\n`, one `key: value\n` line per field in order, and a closing `---` with no newline |
| FrontMatter.RenderParseRoundTrip | generate_pages.py:47-54 | a page with one `key: value` line per field reads back as exactly those fields, in order, when no key holds `:` or a newline and no value holds a newline |
| Filesystem.IsMd | generate_pages.py:16 | a name `glob("*.md")` matches: it ends in `.md` |
| Filesystem.Apply | generate_pages.py:29-55 | the directory after a sequence of `write_text` calls, made in order |
| Filesystem.KeepNonMd | generate_pages.py:16 | the files left by a clear are exactly the ones whose names do not match `*.md`, with their contents |
| Filesystem.Directory.Clear | generate_pages.py:15-17 | `clear_directory` deletes every `*.md` file, keeps every other file as it was, and does not create the directory |
| Filesystem.Directory.Write | generate_pages.py:36 | `write_text` creates or overwrites one file and changes nothing else; the directory must exist |
| Filesystem.Directory.Mkdir | scripts/generate_pages_game_season.py:13 | `mkdir(parents=True, exist_ok=True)` makes the directory exist and keeps its files |
| Filesystem.ApplyLastWrite | generate_pages.py:55 | the last write to a file name decides the file's content |
| Filesystem.Rebuild | generate_pages.py:25-36 | a clear followed by `*.md` writes leaves exactly the written `*.md` names, leaves the other files untouched, and lets the last write to a name decide its content |
| Filesystem.RebuildIdempotent | generate_pages.py:24-26 | running a generator a second time on the same data leaves the directory as the first run did |
| Tabular.DropIncomplete | generate_pages.py:22 | after dropna, every row is a complete input row, and every complete input row is kept |
| Tabular.DropIncompleteAppend | eagles_jekyll_template/generate_pages.py:22 | dropna decides row by row: the cleaned table of two parts is the two cleaned parts |
| Tabular.IncompleteRowContributesNothing | generate_pages.py:22 | removing a row that lacks `game_id`, `season` or `week` from the input changes nothing that is derived from it |
| Tabular.SortedSeasons | generate_pages.py:29 | the season loop visits the distinct seasons of the cleaned table, strictly ascending, each once |
| Tabular.WriteSeasonPages | eagles_jekyll_template/generate_pages.py:29-36 | the season loop writes `{season}.md` with that season's page, for each sorted distinct season in turn |
| Tabular.SeasonFileName | generate_pages.py:30 | a season page is named `{season}.md` |
| Tabular.SeasonPage | generate_pages.py:31-35 | the season page's fields: `layout: season`, `title: {season} Eagles 4th Downs`, `season: {season}` |
| Tabular.SeasonFileNameInjective | generate_pages.py:30 | distinct seasons get distinct file names |
| Tabular.SeasonWritesDistinct | eagles_jekyll_template/generate_pages.py:29-30 | no season file is written twice in a run |
| Tabular.SeasonWriteNames | generate_pages.py:29-30 | the season files written are named `{season}.md` for exactly the distinct remaining seasons |
| Tabular.SeasonDirectoryAfterRun | generate_pages.py:25-36 | after a run, the `*.md` files in `seasons/` are exactly `{season}.md` for the distinct remaining seasons; each holds its season's page; other files are untouched |
| Tabular.EveryGameHasSeasonPage | generate_pages.py:29-40 | every group the game loop visits has its season's page among the files the season loop wrote |
| Tabular.SeasonPageLayout | generate_pages.py:31-35 | a season page reads back as `layout: season`, `title: {season} Eagles 4th Downs`, `season: {season}` |
| Tabular.FirstOfGroup | generate_pages.py:41-43 | `iloc[0]` of a group is the earliest row with that (season, week, game_id) |
| Tabular.IsGroupOrder | generate_pages.py:39-40 | the order in which the `groupby` loop visits the groups: each distinct (season, week, game_id) of the cleaned table exactly once, and nothing else |
| Tabular.FirstAppearance | generate_pages.py:39 | listing the groups in order of first appearance gives each distinct triple exactly once; this is not the sorted order line 39 uses, and it serves only to show that Tabular.IsGroupOrder can be met |
| Tabular.GroupOrderExists | eagles_jekyll_template/generate_pages.py:39-40 | every cleaned table has an order in which `groupby` can visit its groups |
| Tabular.GroupIdsAreRowIds | generate_pages.py:39-40 | the groups' game ids are exactly the game ids of the remaining rows |
| GameFiles.GameFileName | generate_pages.py:44-45 | a game page is named `{slugify(game_id)}.md` |
| GameFiles.GameFileNameMatchesSlug | generate_pages.py:44-45 | two games share a page file exactly when their slugs are equal |
| GameFiles.GameWriteNames | eagles_jekyll_template/generate_pages.py:41-42 | the game loop writes to `{slugify(game_id)}.md` for exactly the games it visits |
| GameFiles.GameDirectoryShape | eagles_jekyll_template/generate_pages.py:26-50 | clearing and then writing each game to its slug's file leaves exactly one `*.md` file per slug, holding the page of the last game with that slug |
| TeamPages.GamePage | generate_pages.py:46-54 | the game page's six fields, in order, with the teams of the given row |
| TeamPages.GameWrite | generate_pages.py:41-55 | a group's page goes to `{slugify(game_id)}.md` and takes its teams from the group's first row |
| TeamPages.GeneratePages | generate_pages.py:19-55 | `seasons/` ends as the cleared directory plus the sorted season pages; `games/` ends as the cleared directory plus one page per group, in group order |
| TeamPages.GameDirectoryAfterRun | generate_pages.py:39-55 | after a run, the `*.md` files in `games/` are exactly the slugs of the remaining rows' game ids; a file shared by groups holds the page of the last of them, with the teams of that group's first row; other files are untouched |
| TeamPages.GamePageLayout | generate_pages.py:46-54 | a game page reads back as `layout`, `title: Week {week} – {away_team} at {home_team}`, `season`, `game_id`, `away_team`, `home_team`, in that order |
| TemplatePages.GamePage | eagles_jekyll_template/generate_pages.py:43-49 | the game page's four fields, in order |
| TemplatePages.GeneratePages | eagles_jekyll_template/generate_pages.py:19-50 | as for `generate_pages.py`, with this script's game page; both directories must already exist |
| TemplatePages.GameDirectoryAfterRun | eagles_jekyll_template/generate_pages.py:39-50 | after a run, `games/` holds one `*.md` file per slug of the remaining game ids, holding the last group's page; other files are untouched |
| TemplatePages.GamePageLayout | eagles_jekyll_template/generate_pages.py:43-49 | a game page reads back as `layout`, `title: Week {week} – Game {game_id}`, `season`, `game_id` and nothing else |
| IndexPages.ParseFinal | scripts/generate_pages_game_season.py:17-29 | a scalar, null or absent final yields no scores |
| IndexPages.ParseFinalUnwrapsList | scripts/generate_pages_game_season.py:24-28 | a list whose first element is a dict reads as that dict, whatever follows it; a dict yields its `home` and `away` entries, each absent independently |
| IndexPages.ParseFinalNeedsDict | scripts/generate_pages_game_season.py:26-29 | an empty list, a list headed by anything but a dict (a nested list included), and a scalar or null all yield `(None, None)` |
| IndexPages.SeasonFileName | scripts/generate_pages_game_season.py:44 | a season page is named `{season}.md`, with an absent season shown as `None` |
| IndexPages.Show | scripts/generate_pages_game_season.py:59-73 | an f-string shows a present value as its text and an absent or null value as `None` |
| IndexPages.Blank | scripts/generate_pages_game_season.py:71-72 | `'' if x is None else x`: an absent final score shows as the empty text |
| IndexPages.SeasonWrites | scripts/generate_pages_game_season.py:39-46 | one season write per block, in block order, with no deduplication of repeated seasons |
| IndexPages.SeasonPage | scripts/generate_pages_game_season.py:45 | the season page's fields: `layout: season`, `title: {season}`, `season: {season}` |
| IndexPages.Visits | scripts/generate_pages_game_season.py:39-49 | the games in the order the nested loops reach them, each with its block's season |
| IndexPages.GamePage | scripts/generate_pages_game_season.py:57-75 | the game page's eleven fields, in order |
| IndexPages.ClearDirectory | scripts/generate_pages_game_season.py:12-15 | this script's `clear_directory` creates the directory, then deletes its `*.md` files and keeps the rest |
| IndexPages.GeneratePages | scripts/generate_pages_game_season.py:31-75 | in a flat directory model (a season text holding `/` is not a path here), `seasons/` ends as the cleared directory plus one season write per block, in block order; `games/` ends as the cleared directory plus one game write per game of each block, in loop order |
| IndexPages.WriteGames | scripts/generate_pages_game_season.py:49-75 | the inner loop writes each game of a block to `{slugify(game_id)}.md`, with that block's season, in order |
| IndexPages.SeasonDirectoryAfterRun | scripts/generate_pages_game_season.py:39-46 | when no season text holds `/`, after a run the `*.md` files in `seasons/` are exactly `{season}.md` for the blocks' seasons; a season repeated in several blocks has one file holding its page; other files are untouched |
| IndexPages.EveryGameHasSeasonPage | scripts/generate_pages_game_season.py:39-49 | when no season text holds `/`, every game the loops visit has its block's season page among the files written |
| IndexPages.SeasonPageLayout | scripts/generate_pages_game_season.py:44-46 | a season page reads back as `layout: season`, `title: {season}`, `season: {season}` |
| IndexPages.VisitsCover | scripts/generate_pages_game_season.py:39-49 | the nested loops visit every game of every block, with its block's season, and nothing else |
| IndexPages.GameIdsCover | scripts/generate_pages_game_season.py:49-50 | the visited game ids are exactly the ids of the blocks' games |
| IndexPages.GameDirectoryAfterRun | scripts/generate_pages_game_season.py:48-75 | after a run, the `*.md` files in `games/` are exactly the slugs of all games' ids; a file shared by games holds the page of the last of them; other files are untouched |
| IndexPages.GamePageLayout | scripts/generate_pages_game_season.py:57-75 | a game page reads back as its eleven fields in order: title `Week {week} — {away} at {home}`, a missing value shown as `None`, the final scores from `parse_final` shown blank when absent |
| IndexPages.NoFinalIsBlank | scripts/generate_pages_game_season.py:71-72 | a game whose final yields no scores has empty `final_home` and `final_away` values |

## Left out

- Reading the inputs (`pd.read_csv`, `json.loads`) is not modelled. The generators take already-parsed records: CSV rows with optional `game_id`, `season` and `week`, and JSON season blocks whose values are optional texts.
- Real filesystem calls are not modelled. A directory is a class holding an existence flag and a map from file name to content. The order in which `glob` lists files, I/O errors and subdirectories whose names end in `.md` are not modelled.
- The `__main__` blocks, the success `print`, and the path constants are not modelled. The CSV generators are given both directories already existing, as their entry points create them.
- Slug.Slugify: lower-cases ASCII `A`-`Z` only and keeps every other character, which then falls in a separator run. Python's `str.lower` is Unicode-aware: it can turn a non-ASCII character into ASCII letters (U+212A KELVIN SIGN becomes `k`) and can change the length (U+0130 becomes `i` followed by U+0307). For such ids the program's slug can hold letters where the model has `-`. Slug.SlugKeepsEdges and Slug.SlugKeepsAlnums are statements about the ASCII-only lowering.
- Tabular.SortedSeasons: seasons and weeks are integers rendered in decimal. pandas reads a column with a missing cell as floating point, which renders as `2023.0`, and this is not modelled.
- Tabular.IncompleteRowContributesNothing: holds only under the integer-column assumption above. In the program, a row with an empty `season` or `week` cell makes pandas read that whole column as floating point, so removing the row changes every page built from the column (`2023.0` becomes `2023`).
- Tabular.IsGroupOrder: `groupby` visits the groups sorted by key. The model accepts any order that visits each distinct triple once, so its results hold for the sorted order too.
- A `game_id` that is missing or not a string makes `slugify` raise. In the model a game id is a string by type, and the crash is not modelled. The same holds for a JSON block that is not an object, and for a `games` entry that is null.
- IndexPages: JSON numbers, booleans and other non-string values are modelled by the text that `str()` gives them. An absent or null value is `None` and shows as `None`, except in the final scores.
- TeamPages.GamePageLayout: requires that the game id and team names contain no newline. A value with a newline would add lines to the front matter.
- TemplatePages.GamePageLayout: requires that the game id contains no newline, for the same reason.
- IndexPages.GamePageLayout: requires that no shown value contains a newline, for the same reason.
- IndexPages.GeneratePages: a directory is a flat map of file names, so a season text holding `/` is taken as a file name inside `seasons/`. The program joins `{season}.md` as a path: `"2023/24"` raises or writes `seasons/2023/24.md`, which the next run's non-recursive `glob` never deletes; `"/tmp/x"` writes `/tmp/x.md`; `"../x"` writes outside `seasons/`. For such seasons the postcondition about `seasons/` does not describe the program.
- IndexPages.SeasonDirectoryAfterRun: requires that no block's shown season contains `/`, for the reason given on the line above.
- IndexPages.EveryGameHasSeasonPage: requires that no block's shown season contains `/`, for the same reason.
- Tabular.CsvRow: a team cell is modelled by its rendered text. An empty `away_team` or `home_team` cell is NaN in pandas and is shown as `nan` in the title and team fields, so in the model it is the text `nan`.
- IndexPages.SeasonPageLayout: requires that the shown season contains no newline, for the same reason.
