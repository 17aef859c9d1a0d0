/**
 * The pages the generators write are front matter only: a `---` line, one
 * `key: value` line per field, and a closing `---` with no newline after it.
 * `Render` builds that text; `Parse` reads it back, and the round-trip lemma
 * shows that the text determines the fields and their order.
 */
module FrontMatter {
  import opened Wrappers

  datatype Field = Field(key: string, value: string)

  function FieldLine(f: Field): string {
    f.key + ": " + f.value + "\n"
  }

  function FieldLines(fields: seq<Field>): string {
    if fields == [] then "" else FieldLine(fields[0]) + FieldLines(fields[1..])
  }

  /** The whole file: front matter and nothing else. */
  function Render(fields: seq<Field>): string {
    "---\n" + FieldLines(fields) + "---"
  }

  /** The value of the first field named `key`. */
  function Lookup(fields: seq<Field>, key: string): Option<string> {
    if fields == [] then None
    else if fields[0].key == key then Some(fields[0].value)
    else Lookup(fields[1..], key)
  }

  /** A field whose key no earlier field has is what `Lookup` finds. */
  lemma {:induction false} LookupFirst(fields: seq<Field>, i: nat)
    requires i < |fields|
    requires forall j :: 0 <= j < i ==> fields[j].key != fields[i].key
    ensures Lookup(fields, fields[i].key) == Some(fields[i].value)
  {
    if i > 0 {
      LookupFirst(fields[1..], i - 1);
    }
  }

  predicate NoChar(s: string, c: char) {
    forall i :: 0 <= i < |s| ==> s[i] != c
  }

  /** A field whose line reads back unambiguously. */
  predicate IsPlain(f: Field) {
    NoChar(f.key, ':') && NoChar(f.key, '\n') && NoChar(f.value, '\n')
  }

  /** Index of the first `c` in `s`, or `|s|` when there is none. */
  function IndexOf(s: string, c: char): (i: nat)
    ensures i <= |s|
    ensures i < |s| ==> s[i] == c
    ensures forall j :: 0 <= j < i ==> s[j] != c
  {
    if s == [] then 0 else if s[0] == c then 0 else 1 + IndexOf(s[1..], c)
  }

  /** Splits `key: value` at the first colon, which must be followed by a space. */
  function ParseLine(line: string): Option<Field> {
    var i := IndexOf(line, ':');
    if i + 1 < |line| && line[i + 1] == ' ' then Some(Field(line[..i], line[i + 2..])) else None
  }

  /** Reads newline-terminated field lines. */
  function ParseLines(body: string): Option<seq<Field>>
    decreases |body|
  {
    if body == [] then Some([])
    else
      var i := IndexOf(body, '\n');
      if i == |body| then None
      else match ParseLine(body[..i])
        case None => None
        case Some(f) =>
          match ParseLines(body[i + 1..])
          case None => None
          case Some(rest) => Some([f] + rest)
  }

  function Parse(text: string): Option<seq<Field>> {
    if |text| >= 7 && text[..4] == "---\n" && text[|text| - 3..] == "---"
    then ParseLines(text[4..|text| - 3])
    else None
  }

  lemma {:induction false} IndexOfAppend(a: string, b: string, c: char)
    requires NoChar(a, c)
    requires b != [] && b[0] == c
    ensures IndexOf(a + b, c) == |a|
    decreases |a|
  {
    if a != [] {
      assert (a + b)[1..] == a[1..] + b;
      IndexOfAppend(a[1..], b, c);
    } else {
      assert a + b == b;
    }
  }

  lemma ParseFieldLine(f: Field, rest: string)
    requires IsPlain(f)
    ensures var body := FieldLine(f) + rest;
      var i := IndexOf(body, '\n');
      i < |body| && ParseLine(body[..i]) == Some(f) && body[i + 1..] == rest
  {
    var line := f.key + ": " + f.value;
    var body := FieldLine(f) + rest;
    assert body == line + ("\n" + rest);
    assert NoChar(line, '\n');
    IndexOfAppend(line, "\n" + rest, '\n');
    var i := IndexOf(body, '\n');
    assert body[..i] == line;
    assert line == f.key + (": " + f.value);
    IndexOfAppend(f.key, ": " + f.value, ':');
    assert line[..|f.key|] == f.key;
    assert line[|f.key| + 2..] == f.value;
  }

  lemma {:induction false} ParseFieldLines(fields: seq<Field>)
    requires forall i :: 0 <= i < |fields| ==> IsPlain(fields[i])
    ensures ParseLines(FieldLines(fields)) == Some(fields)
    decreases |fields|
  {
    if fields != [] {
      var f, tail := fields[0], fields[1..];
      var rest := FieldLines(tail);
      var body := FieldLines(fields);
      assert body == FieldLine(f) + rest;
      ParseFieldLine(f, rest);
      var i := IndexOf(body, '\n');
      assert ParseLine(body[..i]) == Some(f) && body[i + 1..] == rest;
      ParseFieldLines(tail);
      assert ParseLines(body) == Some([f] + tail);
      assert [f] + tail == fields;
    }
  }

  /** Reading a rendered page back gives exactly the fields it was made from, in order. */
  lemma RenderParseRoundTrip(fields: seq<Field>)
    requires forall i :: 0 <= i < |fields| ==> IsPlain(fields[i])
    ensures Parse(Render(fields)) == Some(fields)
  {
    var text := Render(fields);
    var body := FieldLines(fields);
    assert text[..4] == "---\n";
    assert text[|text| - 3..] == "---";
    assert text[4..|text| - 3] == body;
    ParseFieldLines(fields);
  }
}
