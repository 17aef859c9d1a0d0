/**
 * An output directory as the generators see it: whether it exists, and the
 * files directly inside it, by name. `Clear` is the `glob("*.md")`/`unlink`
 * loop of `clear_directory`, `Write` is `Path.write_text`, `Mkdir` is
 * `mkdir(parents=True, exist_ok=True)`.
 */
module Filesystem {

  /** A name the pattern `*.md` matches. */
  predicate IsMd(name: string) {
    |name| >= 3 && name[|name| - 3..] == ".md"
  }

  lemma MdSuffix(stem: string)
    ensures IsMd(stem + ".md")
  {
    assert (stem + ".md")[|stem|..] == ".md";
  }

  /** The files that survive a clear: everything not matching `*.md`. */
  function KeepNonMd(files: map<string, string>): (kept: map<string, string>)
    ensures forall name :: name in kept <==> name in files && !IsMd(name)
    ensures forall name :: name in kept ==> kept[name] == files[name]
  {
    map name | name in files && !IsMd(name) :: files[name]
  }

  datatype FileWrite = FileWrite(name: string, content: string)

  /** The directory after the given `write_text` calls, in order. */
  function Apply(files: map<string, string>, writes: seq<FileWrite>): map<string, string>
  {
    if writes == [] then files
    else
      var last := writes[|writes| - 1];
      Apply(files, writes[..|writes| - 1])[last.name := last.content]
  }

  function Names(writes: seq<FileWrite>): set<string> {
    set w | w in writes :: w.name
  }

  predicate AllMd(writes: seq<FileWrite>) {
    forall w :: w in writes ==> IsMd(w.name)
  }

  /** Writing `a` and then `b` is writing `a + b`. */
  lemma {:induction false} ApplyConcat(files: map<string, string>, a: seq<FileWrite>, b: seq<FileWrite>)
    ensures Apply(files, a + b) == Apply(Apply(files, a), b)
    decreases |b|
  {
    if b == [] {
      assert a + b == a;
    } else {
      assert (a + b)[..|a + b| - 1] == a + b[..|b| - 1];
      ApplyConcat(files, a, b[..|b| - 1]);
    }
  }

  /** A name is present after the writes iff it was before or some write created it. */
  lemma {:induction false} ApplyNames(files: map<string, string>, writes: seq<FileWrite>)
    ensures Apply(files, writes).Keys == files.Keys + Names(writes)
    decreases |writes|
  {
    if writes != [] {
      var init := writes[..|writes| - 1];
      ApplyNames(files, init);
      assert writes == init + [writes[|writes| - 1]];
      assert Names(writes) == Names(init) + {writes[|writes| - 1].name};
    }
  }

  /** A written name holds what one of the writes to it put there. */
  lemma {:induction false} ApplyWrittenBySome(files: map<string, string>, writes: seq<FileWrite>, name: string)
    requires name in Names(writes)
    ensures name in Apply(files, writes)
    ensures exists i :: 0 <= i < |writes| && writes[i].name == name && Apply(files, writes)[name] == writes[i].content
    decreases |writes|
  {
    var n := |writes| - 1;
    if writes[n].name != name {
      var init := writes[..n];
      assert name in Names(init) by {
        var w :| w in writes && w.name == name;
        var k :| 0 <= k < |writes| && writes[k] == w;
        assert init[k] == w;
      }
      ApplyWrittenBySome(files, init, name);
      var i :| 0 <= i < |init| && init[i].name == name && Apply(files, init)[name] == init[i].content;
      assert writes[i] == init[i];
    }
  }

  /** File names with the `.md` extension coincide exactly when their stems do. */
  lemma MdStems(a: string, b: string)
    ensures a + ".md" == b + ".md" <==> a == b
  {
    if |a| == |b| {
      assert (a + ".md")[..|a|] == a && (b + ".md")[..|b|] == b;
    }
  }

  /** The last write to a name decides its content. */
  lemma {:induction false} ApplyLastWrite(files: map<string, string>, writes: seq<FileWrite>, i: nat)
    requires i < |writes|
    requires forall j :: i < j < |writes| ==> writes[j].name != writes[i].name
    ensures writes[i].name in Apply(files, writes)
    ensures Apply(files, writes)[writes[i].name] == writes[i].content
    decreases |writes|
  {
    if i < |writes| - 1 {
      ApplyLastWrite(files, writes[..|writes| - 1], i);
    }
  }

  /** Writing only `*.md` files leaves every other file as it was. */
  lemma {:induction false} ApplyKeepsNonMd(files: map<string, string>, writes: seq<FileWrite>)
    requires AllMd(writes)
    ensures KeepNonMd(Apply(files, writes)) == KeepNonMd(files)
    decreases |writes|
  {
    if writes != [] {
      var init := writes[..|writes| - 1];
      assert AllMd(init);
      ApplyKeepsNonMd(files, init);
    }
  }

  /**
   * A clear followed by `*.md` writes: the `*.md` files are exactly the ones
   * written (nothing stale survives), every other file is untouched, and the
   * last write to a name decides its content.
   */
  lemma Rebuild(before: map<string, string>, writes: seq<FileWrite>)
    requires AllMd(writes)
    ensures var after := Apply(KeepNonMd(before), writes);
      && (forall name :: IsMd(name) ==> (name in after <==> name in Names(writes)))
      && KeepNonMd(after) == KeepNonMd(before)
      && (forall i :: 0 <= i < |writes| && (forall j :: i < j < |writes| ==> writes[j].name != writes[i].name) ==>
            after[writes[i].name] == writes[i].content)
  {
    var after := Apply(KeepNonMd(before), writes);
    ApplyNames(KeepNonMd(before), writes);
    ApplyKeepsNonMd(KeepNonMd(before), writes);
    forall i | 0 <= i < |writes| && (forall j :: i < j < |writes| ==> writes[j].name != writes[i].name)
      ensures after[writes[i].name] == writes[i].content
    {
      ApplyLastWrite(KeepNonMd(before), writes, i);
    }
  }

  /** Running a generator twice on the same data leaves the same directory as running it once. */
  lemma RebuildIdempotent(before: map<string, string>, writes: seq<FileWrite>)
    requires AllMd(writes)
    ensures Apply(KeepNonMd(Apply(KeepNonMd(before), writes)), writes) == Apply(KeepNonMd(before), writes)
  {
    ApplyKeepsNonMd(KeepNonMd(before), writes);
    assert KeepNonMd(KeepNonMd(before)) == KeepNonMd(before);
  }

  class Directory {
    var present: bool
    var files: map<string, string>

    /** A directory that does not exist holds no files. */
    ghost predicate Valid()
      reads this
    {
      !present ==> files == map[]
    }

    constructor (present: bool, files: map<string, string>)
      requires present || files == map[]
      ensures Valid()
      ensures this.present == present && this.files == files
    {
      this.present := present;
      this.files := files;
    }

    /** `mkdir(parents=True, exist_ok=True)`: creates the directory if needed, keeps its files. */
    method Mkdir()
      requires Valid()
      modifies this
      ensures Valid()
      ensures present && files == old(files)
    {
      present := true;
    }

    /** `for f in directory.glob("*.md"): f.unlink()` */
    method Clear()
      requires Valid()
      modifies this
      ensures Valid()
      ensures present == old(present)
      ensures files == KeepNonMd(old(files))
    {
      var stale := set name | name in files && IsMd(name);
      ghost var removed: set<string> := {};
      while stale != {}
        invariant stale !! removed
        invariant stale + removed == set name | name in old(files) && IsMd(name)
        invariant files == old(files) - removed
        invariant present == old(present)
        decreases stale
      {
        var name :| name in stale;
        files := files - {name};
        stale := stale - {name};
        removed := removed + {name};
      }
    }

    /** `write_text`: creates or overwrites one file; the directory must exist. */
    method Write(name: string, content: string)
      requires Valid() && present
      modifies this
      ensures Valid() && present
      ensures files == old(files)[name := content]
    {
      files := files[name := content];
    }
  }
}
