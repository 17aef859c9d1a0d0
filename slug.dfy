/**
 * `slugify` (the same one-liner in all three generator scripts): lower-case
 * the game id, then replace every maximal run of characters outside
 * `[a-z0-9]` with a single `-`, as `re.sub(r"[^a-z0-9]+", "-", ...)` does.
 * Leading and trailing runs are replaced too, never trimmed.
 * Lower-casing is ASCII only (`A`-`Z`); every other character is kept as it
 * is and, being outside `[a-z0-9]`, ends up in a run.
 */
module Slug {

  /** A character the pattern `[^a-z0-9]` does NOT match. */
  predicate IsSlugChar(c: char) {
    'a' <= c <= 'z' || '0' <= c <= '9'
  }

  /** No `-` is immediately followed by another `-`. */
  ghost predicate NoDoubleHyphen(s: string) {
    forall i, j :: 0 <= i < j < |s| && j == i + 1 ==> s[i] != '-' || s[j] != '-'
  }

  /** An ASCII letter or digit. */
  predicate IsAsciiAlnum(c: char) {
    'a' <= c <= 'z' || 'A' <= c <= 'Z' || '0' <= c <= '9'
  }

  function LowerChar(c: char): (r: char)
    ensures IsSlugChar(r) <==> IsAsciiAlnum(c)
    ensures !('A' <= r <= 'Z')
  {
    if 'A' <= c <= 'Z' then (c as int - 'A' as int + 'a' as int) as char else c
  }

  /** `str.lower`, restricted to ASCII. */
  function Lower(s: string): (r: string)
    ensures |r| == |s|
    ensures forall i :: 0 <= i < |s| ==> r[i] == LowerChar(s[i])
  {
    seq(|s|, i requires 0 <= i < |s| => LowerChar(s[i]))
  }

  /** `s` without its leading run of characters outside `[a-z0-9]`. */
  function SkipRun(s: string): (r: string)
    ensures |r| <= |s|
    ensures r == [] || IsSlugChar(r[0])
    ensures forall i :: 0 <= i < |s| - |r| ==> !IsSlugChar(s[i])
  {
    if s == [] || IsSlugChar(s[0]) then s else SkipRun(s[1..])
  }

  /** Every character is a lower-case ASCII letter, a digit or `-`. */
  predicate InSlugAlphabet(s: string) {
    forall i :: 0 <= i < |s| ==> IsSlugChar(s[i]) || s[i] == '-'
  }

  lemma {:induction false} SkipRunIsSuffix(s: string)
    ensures SkipRun(s) == s[|s| - |SkipRun(s)|..]
    decreases |s|
  {
    if s != [] && !IsSlugChar(s[0]) {
      SkipRunIsSuffix(s[1..]);
    }
  }

  /** `re.sub(r"[^a-z0-9]+", "-", s)`. */
  function Collapse(s: string): (r: string)
    ensures InSlugAlphabet(r)
    ensures r == [] <==> s == []
    ensures s != [] ==> (r[0] == '-' <==> !IsSlugChar(s[0]))
    decreases |s|
  {
    if s == [] then []
    else if IsSlugChar(s[0]) then [s[0]] + Collapse(s[1..])
    else "-" + Collapse(SkipRun(s))
  }

  /** No two hyphens in a row. */
  lemma {:induction false} CollapseNoDoubleHyphen(s: string)
    ensures NoDoubleHyphen(Collapse(s))
    decreases |s|
  {
    if s == [] {
    } else {
      var tail := if IsSlugChar(s[0]) then Collapse(s[1..]) else Collapse(SkipRun(s));
      if IsSlugChar(s[0]) {
        CollapseNoDoubleHyphen(s[1..]);
      } else {
        CollapseNoDoubleHyphen(SkipRun(s));
      }
      var r := Collapse(s);
      assert r == [r[0]] + tail;
      forall i, j | 0 <= i < j < |r| && j == i + 1
        ensures r[i] != '-' || r[j] != '-'
      {
        if i > 0 {
          assert r[i] == tail[i - 1] && r[j] == tail[j - 1];
        }
      }
    }
  }

  /** The output ends with `-` exactly when the input ends with a separator. */
  lemma {:induction false} CollapseLastChar(s: string)
    requires s != []
    ensures var r := Collapse(s); r[|r| - 1] == '-' <==> !IsSlugChar(s[|s| - 1])
    decreases |s|
  {
    var r := Collapse(s);
    if IsSlugChar(s[0]) {
      if |s| > 1 {
        var tail := Collapse(s[1..]);
        CollapseLastChar(s[1..]);
        assert r == [s[0]] + tail;
        assert r[|r| - 1] == tail[|tail| - 1];
        assert s[1..][|s| - 2] == s[|s| - 1];
      } else {
        assert r == [s[0]] + Collapse([]);
      }
    } else {
      var rest := SkipRun(s);
      var tail := Collapse(rest);
      assert r == "-" + tail;
      if rest != [] {
        CollapseLastChar(rest);
        SkipRunIsSuffix(s);
        assert rest[|rest| - 1] == s[|s| - 1];
        assert r[|r| - 1] == tail[|tail| - 1];
      } else {
        assert !IsSlugChar(s[|s| - 1]);
      }
    }
  }

  lemma CollapseShape(s: string)
    ensures NoDoubleHyphen(Collapse(s))
    ensures s != [] ==> var r := Collapse(s); r[|r| - 1] == '-' <==> !IsSlugChar(s[|s| - 1])
  {
    CollapseNoDoubleHyphen(s);
    if s != [] {
      CollapseLastChar(s);
    }
  }

  function Slugify(gameId: string): (slug: string)
  {
    Collapse(Lower(gameId))
  }

  /** The characters of `s` that are in `[a-z0-9]`, in order. */
  function SlugChars(s: string): (r: string)
  {
    if s == [] then [] else (if IsSlugChar(s[0]) then [s[0]] else []) + SlugChars(s[1..])
  }

  /** `s` with every `-` deleted. */
  function DropHyphens(s: string): (r: string)
  {
    if s == [] then [] else (if s[0] == '-' then [] else [s[0]]) + DropHyphens(s[1..])
  }

  /**
   * A slug holds only lower-case ASCII letters, digits and `-`, never two
   * hyphens in a row, and is empty exactly when the game id is.
   */
  lemma SlugAlphabet(gameId: string)
    ensures var slug := Slugify(gameId);
      && (forall i :: 0 <= i < |slug| ==> 'a' <= slug[i] <= 'z' || '0' <= slug[i] <= '9' || slug[i] == '-')
      && NoDoubleHyphen(slug)
      && (slug == [] <==> gameId == [])
  {
    CollapseShape(Lower(gameId));
  }

  /**
   * Nothing is trimmed: the slug starts (ends) with `-` exactly when the
   * game id starts (ends) with a character that is not an ASCII letter or digit.
   */
  lemma SlugKeepsEdges(gameId: string)
    requires gameId != []
    ensures var slug := Slugify(gameId);
      && slug != []
      && (slug[0] == '-' <==> !IsAsciiAlnum(gameId[0]))
      && (slug[|slug| - 1] == '-' <==> !IsAsciiAlnum(gameId[|gameId| - 1]))
  {
    var lower := Lower(gameId);
    CollapseShape(lower);
    assert lower[0] == LowerChar(gameId[0]);
    assert lower[|lower| - 1] == LowerChar(gameId[|gameId| - 1]);
  }

  lemma {:induction false} SlugCharsSkipRun(s: string)
    ensures SlugChars(SkipRun(s)) == SlugChars(s)
    decreases |s|
  {
    if s != [] && !IsSlugChar(s[0]) {
      SlugCharsSkipRun(s[1..]);
    }
  }

  lemma {:induction false} CollapseKeepsSlugChars(s: string)
    ensures DropHyphens(Collapse(s)) == SlugChars(s)
    decreases |s|
  {
    if s == [] {
    } else if IsSlugChar(s[0]) {
      var r := Collapse(s[1..]);
      assert ([s[0]] + r)[1..] == r;
      CollapseKeepsSlugChars(s[1..]);
    } else {
      var r := Collapse(SkipRun(s));
      assert ("-" + r)[1..] == r;
      CollapseKeepsSlugChars(SkipRun(s));
      SlugCharsSkipRun(s);
      assert SlugChars(SkipRun(s)) == SlugChars(s[1..]) by { SlugCharsSkipRun(s[1..]); }
    }
  }

  /**
   * Deleting the hyphens of a slug leaves exactly the ASCII letters and
   * digits of the game id, lower-cased, in their original order.
   */
  lemma SlugKeepsAlnums(gameId: string)
    ensures DropHyphens(Slugify(gameId)) == SlugChars(Lower(gameId))
  {
    CollapseKeepsSlugChars(Lower(gameId));
  }

  /** A string already in slug form is left as it is. */
  lemma {:induction false} CollapseFixesSlugs(s: string)
    requires InSlugAlphabet(s)
    requires NoDoubleHyphen(s)
    ensures Collapse(s) == s
    decreases |s|
  {
    if s == [] {
    } else if IsSlugChar(s[0]) {
      CollapseFixesSlugs(s[1..]);
    } else {
      var rest := s[1..];
      assert rest == [] || IsSlugChar(rest[0]) by {
        if rest != [] {
          assert s[1] == rest[0];
        }
      }
      assert SkipRun(s) == rest;
      CollapseFixesSlugs(rest);
      assert s == "-" + rest;
    }
  }

  /** `slugify` is idempotent. */
  lemma SlugifyIdempotent(gameId: string)
    ensures Slugify(Slugify(gameId)) == Slugify(gameId)
  {
    var slug := Slugify(gameId);
    assert Lower(slug) == slug;
    CollapseShape(Lower(gameId));
    CollapseFixesSlugs(slug);
  }

  /** Some character of `s` is in `[a-z0-9]`. */
  predicate HasSlugChar(s: string) {
    exists i :: 0 <= i < |s| && IsSlugChar(s[i])
  }

  lemma {:induction false} SkipRunLast(s: string)
    requires HasSlugChar(s)
    ensures SkipRun(s) != [] && SkipRun(s)[|SkipRun(s)| - 1] == s[|s| - 1]
    decreases |s|
  {
    if !IsSlugChar(s[0]) {
      var i :| 0 <= i < |s| && IsSlugChar(s[i]);
      assert IsSlugChar(s[1..][i - 1]);
      SkipRunLast(s[1..]);
    }
  }

  lemma {:induction false} SkipRunAppend(a: string, b: string)
    requires HasSlugChar(a)
    ensures SkipRun(a + b) == SkipRun(a) + b
    decreases |a|
  {
    if !IsSlugChar(a[0]) {
      var i :| 0 <= i < |a| && IsSlugChar(a[i]);
      assert IsSlugChar(a[1..][i - 1]);
      assert (a + b)[1..] == a[1..] + b;
      SkipRunAppend(a[1..], b);
    }
  }

  lemma {:induction false} SkipRunAllSeparators(a: string, b: string)
    requires forall i :: 0 <= i < |a| ==> !IsSlugChar(a[i])
    requires b == [] || IsSlugChar(b[0])
    ensures SkipRun(a + b) == b
    decreases |a|
  {
    if a != [] {
      assert (a + b)[1..] == a[1..] + b;
      SkipRunAllSeparators(a[1..], b);
    } else {
      assert a + b == b;
    }
  }

  lemma ConcatAssoc(x: string, y: string, z: string)
    ensures x + (y + z) == (x + y) + z
  {
  }

  /**
   * Replacement works run by run: cutting the input where the cut does not
   * fall inside a run of separators cuts the output at the same place.
   */
  lemma {:induction false} CollapseAppend(a: string, b: string)
    requires a == [] || b == [] || IsSlugChar(a[|a| - 1]) || IsSlugChar(b[0])
    ensures Collapse(a + b) == Collapse(a) + Collapse(b)
    decreases |a|, 1
  {
    if a == [] {
      assert a + b == b;
    } else if b == [] {
      assert a + b == a;
    } else if IsSlugChar(a[0]) {
      CollapseAppendSlugHead(a, b);
    } else if HasSlugChar(a) {
      CollapseAppendRunHead(a, b);
    } else {
      var ab := a + b;
      assert ab[0] == a[0];
      SkipRunAllSeparators(a, b);
      SkipRunAllSeparators(a, []);
      assert a + [] == a;
      assert Collapse(a) == "-";
    }
  }

  lemma {:induction false} CollapseAppendSlugHead(a: string, b: string)
    requires a != [] && IsSlugChar(a[0])
    requires b == [] || IsSlugChar(a[|a| - 1]) || IsSlugChar(b[0])
    ensures Collapse(a + b) == Collapse(a) + Collapse(b)
    decreases |a|, 0
  {
    var ab := a + b;
    assert ab[0] == a[0] && ab[1..] == a[1..] + b;
    CollapseAppend(a[1..], b);
    var x, y := Collapse(a[1..]), Collapse(b);
    assert Collapse(ab) == [a[0]] + (x + y);
    ConcatAssoc([a[0]], x, y);
  }

  lemma {:induction false} CollapseAppendRunHead(a: string, b: string)
    requires a != [] && !IsSlugChar(a[0]) && HasSlugChar(a)
    requires b == [] || IsSlugChar(a[|a| - 1]) || IsSlugChar(b[0])
    ensures Collapse(a + b) == Collapse(a) + Collapse(b)
    decreases |a|, 0
  {
    var ab := a + b;
    assert ab[0] == a[0];
    SkipRunAppend(a, b);
    var rest := SkipRun(a);
    SkipRunLast(a);
    CollapseAppend(rest, b);
    assert Collapse(a) == "-" + Collapse(rest);
    var x, y := Collapse(rest), Collapse(b);
    assert Collapse(ab) == "-" + (x + y);
    ConcatAssoc("-", x, y);
  }

  /** A non-empty run of separators alone becomes a single `-`. */
  lemma RunBecomesOneHyphen(run: string)
    requires run != []
    requires forall i :: 0 <= i < |run| ==> !IsSlugChar(run[i])
    ensures Collapse(run) == "-"
  {
    SkipRunAllSeparators(run, []);
    assert run + [] == run;
  }

  /**
   * Each maximal run of characters other than ASCII letters and digits
   * between two parts of a game id becomes exactly one `-`, however long it is.
   */
  lemma SeparatorRunIsOneHyphen(before: string, run: string, after: string)
    requires before != [] && IsAsciiAlnum(before[|before| - 1])
    requires after != [] && IsAsciiAlnum(after[0])
    requires run != [] && forall i :: 0 <= i < |run| ==> !IsAsciiAlnum(run[i])
    ensures Slugify(before + run + after) == Slugify(before) + "-" + Slugify(after)
  {
    var lb, lr, la := Lower(before), Lower(run), Lower(after);
    LowerAppend(before, run);
    LowerAppend(before + run, after);
    ConcatAssoc(lb, lr, la);
    assert IsSlugChar(lb[|lb| - 1]) && IsSlugChar(la[0]);
    assert forall i :: 0 <= i < |lr| ==> !IsSlugChar(lr[i]);
    CollapseAppend(lb, lr + la);
    CollapseAppend(lr, la);
    RunBecomesOneHyphen(lr);
    ConcatAssoc(Collapse(lb), "-", Collapse(la));
  }

  lemma LowerAppend(x: string, y: string)
    ensures Lower(x + y) == Lower(x) + Lower(y)
  {
  }
}
