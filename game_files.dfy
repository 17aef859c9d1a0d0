/**
 * The game loops of all three generators write each game to
 * `{slugify(game_id)}.md`. Distinct game ids can share a slug, so a later
 * game overwrites an earlier one's page.
 */
module GameFiles {
  import opened Slug
  import opened Filesystem

  /** The page of a game: `{slugify(game_id)}.md`. */
  function GameFileName(gameId: string): string {
    Slugify(gameId) + ".md"
  }

  /** Game file names coincide exactly when the slugs do. */
  lemma GameFileNameMatchesSlug(a: string, b: string)
    ensures GameFileName(a) == GameFileName(b) <==> Slugify(a) == Slugify(b)
  {
    var x, y := Slugify(a), Slugify(b);
    if |x| == |y| {
      assert (x + ".md")[..|x|] == x && (y + ".md")[..|y|] == y;
    }
  }

  /** No later game of the loop has the same slug as game `i`. */
  ghost predicate LastWithSlug(ids: seq<string>, i: nat)
    requires i < |ids|
  {
    forall j :: i < j < |ids| ==> Slugify(ids[j]) != Slugify(ids[i])
  }

  /** The writes of a game loop: game `i` goes to `slugify(game_id).md`. */
  ghost predicate WritesBySlug(ids: seq<string>, writes: seq<FileWrite>) {
    && |writes| == |ids|
    && forall i :: 0 <= i < |ids| ==> writes[i].name == GameFileName(ids[i])
  }

  lemma GameWritesAreMd(ids: seq<string>, writes: seq<FileWrite>)
    requires WritesBySlug(ids, writes)
    ensures AllMd(writes)
  {
    forall w | w in writes
      ensures IsMd(w.name)
    {
      var i :| 0 <= i < |writes| && writes[i] == w;
      MdSuffix(Slugify(ids[i]));
    }
  }

  lemma GameWriteNames(ids: seq<string>, writes: seq<FileWrite>)
    requires WritesBySlug(ids, writes)
    ensures forall name :: name in Names(writes) <==> exists id :: id in ids && name == GameFileName(id)
  {
    forall name
      ensures name in Names(writes) <==> exists id :: id in ids && name == GameFileName(id)
    {
      if name in Names(writes) {
        var w :| w in writes && w.name == name;
        var i :| 0 <= i < |writes| && writes[i] == w;
        assert ids[i] in ids;
      }
      if exists id :: id in ids && name == GameFileName(id) {
        var id :| id in ids && name == GameFileName(id);
        var i :| 0 <= i < |ids| && ids[i] == id;
        assert writes[i] in writes;
      }
    }
  }

  /** When no later game has the same slug, no later write goes to the same file. */
  lemma LastWithSlugIsLastWrite(ids: seq<string>, writes: seq<FileWrite>, i: nat)
    requires WritesBySlug(ids, writes)
    requires i < |ids| && LastWithSlug(ids, i)
    ensures forall j :: i < j < |writes| ==> writes[j].name != writes[i].name
  {
    forall j | i < j < |writes|
      ensures writes[j].name != writes[i].name
    {
      GameFileNameMatchesSlug(ids[j], ids[i]);
    }
  }

  /**
   * The games directory after clearing and one write per game, to
   * `slugify(game_id).md`: the `*.md` files are exactly the games' slugs, a
   * file shared by several games holds the last one's page, and every other
   * file is untouched.
   */
  lemma GameDirectoryShape(before: map<string, string>, ids: seq<string>, writes: seq<FileWrite>)
    requires WritesBySlug(ids, writes)
    ensures var after := Apply(KeepNonMd(before), writes);
      && (forall name :: IsMd(name) ==> (name in after <==> exists id :: id in ids && name == GameFileName(id)))
      && (forall i :: 0 <= i < |ids| && LastWithSlug(ids, i) ==>
            writes[i].name in after && after[writes[i].name] == writes[i].content)
      && KeepNonMd(after) == KeepNonMd(before)
  {
    GameWritesAreMd(ids, writes);
    GameWriteNames(ids, writes);
    Rebuild(before, writes);
    forall i | 0 <= i < |ids| && LastWithSlug(ids, i)
      ensures writes[i].name in Apply(KeepNonMd(before), writes)
      ensures Apply(KeepNonMd(before), writes)[writes[i].name] == writes[i].content
    {
      LastWithSlugIsLastWrite(ids, writes, i);
      ApplyLastWrite(KeepNonMd(before), writes, i);
    }
  }
}
