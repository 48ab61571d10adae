/**
 Reading the governance records: keyed fields of a text file, as the lifecycle's regular
 expressions find them. White space after the colon may cross line ends.
 */
module Records {
  import opened Wrappers
  import opened Text

  /** The working tree's record files; a missing file reads as empty. */
  type Store = map<string, string>

  function FileAt(store: Store, path: string): string {
    if path in store then store[path] else ""
  }

  /** The parts of a path that mean something: empty ones and `.` do not. */
  function Segments(parts: seq<string>): seq<string> {
    if parts == [] then []
    else (if parts[0] == "" || parts[0] == "." then [] else [parts[0]]) + Segments(parts[1..])
  }

  /** The one spelling of a path under which its file is kept. */
  function Canonical(path: string): string {
    (if path != "" && path[0] == '/' then "/" else "") + Join(Segments(Split(path, '/')), "/")
  }

  /** `_read`: a record may be named by any spelling of its path. */
  function ReadRecord(store: Store, path: string): string { FileAt(store, Canonical(path)) }

  /** Skip white space and line ends: the line and the rest of it where the next text starts. */
  function Content(lines: seq<string>, i: nat, rest: string): (r: Option<(nat, string)>)
    requires i < |lines|
    ensures r.Some? ==> i <= r.value.0 < |lines| && r.value.1 != "" && !IsSpace(r.value.1[0])
    decreases |lines| - i
  {
    var s := LStrip(rest);
    if s != "" then Some((i, s))
    else if i + 1 < |lines| then Content(lines, i + 1, lines[i + 1])
    else None
  }

  /** The value of the first line keyed `name`, or "". */
  function FieldFrom(lines: seq<string>, i: nat, name: string): string
    requires i <= |lines|
    decreases |lines| - i
  {
    if i == |lines| then ""
    else if name + ":" <= lines[i] then
      match Content(lines, i, lines[i][|name| + 1..])
      case Some((_, s)) => RStrip(s)
      case None => FieldFrom(lines, i + 1, name)
    else FieldFrom(lines, i + 1, name)
  }

  function Field(text: string, name: string): string { FieldFrom(Lines(text), 0, name) }

  lemma FieldOfNothing(name: string)
    ensures Field("", name) == ""
  {
    assert Lines("") == [""];
  }

  /** `s` starts with `phrase` as whole words. */
  predicate StartsPhrase(s: string, phrase: string) {
    phrase <= s && (|s| == |phrase| || !IsWordChar(s[|phrase|]))
  }

  predicate MarkedAt(lines: seq<string>, i: nat, at: nat, key: string, phrase: string) {
    i < |lines| && OccursAt(lines[i], key + ":", at)
    && var r := Content(lines, i, lines[i][at + |key| + 1..]);
       r.Some? && StartsPhrase(r.value.1, phrase)
  }

  /** Some line starts `key:` and its content starts with `phrase`. */
  predicate Marked(text: string, key: string, phrase: string) {
    exists i :: 0 <= i < |Lines(text)| && MarkedAt(Lines(text), i, 0, key, phrase)
  }

  /** The same, with the key anywhere in the line. */
  predicate MarkedAnywhere(text: string, key: string, phrase: string) {
    exists i :: 0 <= i < |Lines(text)| &&
      exists at :: 0 <= at <= |Lines(text)[i]| && MarkedAt(Lines(text), i, at, key, phrase)
  }

  /** A field with nothing after its colon takes the next non-blank line as its value. */
  lemma EmptyFieldTakesNextLine(name: string, next: string, rest: seq<string>)
    requires !Blank(next)
    ensures FieldFrom([name + ":", next] + rest, 0, name) == Strip(next)
  {
    var lines := [name + ":", next] + rest;
    assert lines[0] == name + ":" && lines[1] == next;
    assert lines[0][|name| + 1..] == "";
    BlankIffStripEmpty(next);
    NextLineContent(lines, 0);
  }

  lemma NextLineContent(lines: seq<string>, i: nat)
    requires i + 1 < |lines| && LStrip(lines[i + 1]) != ""
    ensures Content(lines, i, "") == Some((i + 1, LStrip(lines[i + 1])))
  {
    assert LStrip("") == "";
    assert Content(lines, i, "") == Content(lines, i + 1, lines[i + 1]);
  }

  /** A path written without redundancy is its own canonical spelling. */
  lemma {:induction false} CanonicalOf(parts: seq<string>)
    requires parts != [] && parts[0] != ""
    requires forall i :: 0 <= i < |parts| ==> '/' !in parts[i] && parts[i] != "" && parts[i] != "."
    ensures Canonical(Join(parts, "/")) == Join(parts, "/")
  {
    SplitJoin(parts, '/');
    AllSegments(parts);
    assert Join(parts, "/")[0] == parts[0][0];
  }

  lemma {:induction false} AllSegments(parts: seq<string>)
    requires forall i :: 0 <= i < |parts| ==> parts[i] != "" && parts[i] != "."
    ensures Segments(parts) == parts
  {
    if parts != [] {
      AllSegments(parts[1..]);
      assert parts == [parts[0]] + parts[1..];
    }
  }

  /** A leading `./` changes nothing about a relative path. */
  lemma DotSlash(path: string)
    requires path != "" && path[0] != '/'
    ensures Canonical("./" + path) == Canonical(path)
  {
    var s := "./" + path;
    assert s[0] == '.' && s[1] == '/' && s[2..] == path && s[..1] == ".";
    assert s[1..][0] == '/';
    assert IndexOf(s[1..], '/') == 0;
    assert IndexOf(s, '/') == 1;
    var parts := ["."] + Split(path, '/');
    assert Split(s, '/') == [s[..1]] + Split(s[2..], '/') == parts;
    assert parts[0] == "." && parts[1..] == Split(path, '/');
    assert Segments(parts) == [] + Segments(parts[1..]) == Segments(parts[1..]);
  }

  /** Empty and `.` segments are dropped wherever they stand, and all others stay in order. */
  lemma {:induction false} SegmentsRead(a: seq<string>, x: string, b: seq<string>)
    ensures Segments(a + [x] + b) == Segments(a) + (if x == "" || x == "." then [] else [x]) + Segments(b)
  {
    var parts := a + [x] + b;
    if a == [] {
      assert parts[0] == x && parts[1..] == b;
    } else {
      assert parts[0] == a[0] && parts[1..] == a[1..] + [x] + b;
      SegmentsRead(a[1..], x, b);
    }
  }

  /** A relative path is kept under its segments. */
  lemma CanonicalReads(parts: seq<string>)
    requires parts != [] && NoneHas(parts, '/') && parts[0] != ""
    ensures Canonical(Join(parts, "/")) == Join(Segments(parts), "/")
  {
    SplitJoin(parts, '/');
    FirstChar(parts);
  }

  lemma FirstChar(parts: seq<string>)
    requires parts != [] && parts[0] != "" && NoneHas(parts, '/')
    ensures Join(parts, "/") != "" && Join(parts, "/")[0] != '/'
  {
    assert parts[0][0] in parts[0];
    if |parts| > 1 { JoinStep(parts, "/"); }
  }
}
