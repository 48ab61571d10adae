/**
 What the fields and marks of a record are, in terms of its lines: the text that follows a key, on
 the same line or on the first line below that is not blank.
 */
module RecordText {
  import opened Wrappers
  import opened Text
  import opened Records

  /** `t`, on line `m`, is the next text after column `at` of line `i`. */
  predicate TextAfter(lines: seq<string>, i: nat, at: nat, m: nat, t: string)
    requires i < |lines| && at <= |lines[i]|
  {
    && i <= m < |lines| && t != "" && !IsSpace(t[0])
    && if m == i then t == LStrip(lines[i][at..])
       else Blank(lines[i][at..]) && (forall k :: i < k < m ==> Blank(lines[k])) && t == LStrip(lines[m])
  }

  lemma BlankIs(s: string)
    ensures Blank(s) <==> LStrip(s) == ""
  {
    BlankIffStripEmpty(s);
  }

  /** The first text of the lines from `j` on. */
  predicate FirstAt(lines: seq<string>, j: nat, m: nat, t: string) {
    j <= m < |lines| && (forall k :: j <= k < m ==> LStrip(lines[k]) == "") && t == LStrip(lines[m]) != ""
  }

  lemma {:induction false} ContentBelow(lines: seq<string>, j: nat, m: nat, t: string)
    requires j < |lines|
    ensures Content(lines, j, lines[j]) == Some((m, t)) <==> FirstAt(lines, j, m, t)
    decreases |lines| - j
  {
    if LStrip(lines[j]) == "" {
      if j + 1 < |lines| {
        ContentBelow(lines, j + 1, m, t);
        assert Content(lines, j, lines[j]) == Content(lines, j + 1, lines[j + 1]);
      }
    }
  }

  lemma ContentIs(lines: seq<string>, i: nat, at: nat, m: nat, t: string)
    requires i < |lines| && at <= |lines[i]|
    ensures Content(lines, i, lines[i][at..]) == Some((m, t)) <==> TextAfter(lines, i, at, m, t)
  {
    var rest := lines[i][at..];
    BlankIs(rest);
    forall k | 0 <= k < |lines| ensures Blank(lines[k]) <==> LStrip(lines[k]) == "" { BlankIs(lines[k]); }
    if LStrip(rest) == "" && i + 1 < |lines| {
      ContentBelow(lines, i + 1, m, t);
    }
  }

  /** `t` starts with the phrase, and no letter, digit or underscore goes on from it. */
  predicate StartsWords(t: string, phrase: string) {
    phrase <= t && (|t| > |phrase| ==> var c := t[|phrase|];
      !('0' <= c <= '9') && !('a' <= c <= 'z') && !('A' <= c <= 'Z') && c != '_')
  }

  lemma StartsWordsIs(t: string, phrase: string)
    ensures StartsWords(t, phrase) <==> StartsPhrase(t, phrase)
  {
  }

  /** The next text after column `at` of line `i` starts with the phrase as whole words. */
  ghost predicate SaysAfter(lines: seq<string>, i: nat, at: nat, phrase: string)
    requires i < |lines| && at <= |lines[i]|
  {
    exists m: nat, t :: TextAfter(lines, i, at, m, t) && StartsWords(t, phrase)
  }

  lemma SaysAfterIs(lines: seq<string>, i: nat, at: nat, phrase: string)
    requires i < |lines| && at <= |lines[i]|
    ensures SaysAfter(lines, i, at, phrase) <==>
            var r := Content(lines, i, lines[i][at..]); r.Some? && StartsPhrase(r.value.1, phrase)
  {
    var r := Content(lines, i, lines[i][at..]);
    if r.Some? {
      ContentIs(lines, i, at, r.value.0, r.value.1);
      StartsWordsIs(r.value.1, phrase);
    }
    if m: nat, t :| TextAfter(lines, i, at, m, t) && StartsWords(t, phrase) {
      ContentIs(lines, i, at, m, t);
    }
  }

  /** Some line starts `key:` and is followed by the phrase. */
  ghost predicate LineSays(text: string, key: string, phrase: string) {
    exists i: nat :: KeySaysOn(Lines(text), i, key, phrase)
  }

  lemma MarkedAfterKey(lines: seq<string>, i: nat, at: nat, key: string, phrase: string, r: Option<(nat, string)>)
    requires i < |lines| && OccursAt(lines[i], key + ":", at)
    requires r == Content(lines, i, lines[i][at + |key| + 1..])
    ensures MarkedAt(lines, i, at, key, phrase) <==> r.Some? && StartsPhrase(r.value.1, phrase)
  {
  }

  /** A key at column `at` is marked when the text after its colon says so. */
  lemma MarkedAtIs(lines: seq<string>, i: nat, at: nat, key: string, phrase: string)
    requires i < |lines| && OccursAt(lines[i], key + ":", at)
    ensures MarkedAt(lines, i, at, key, phrase) <==> SaysAfter(lines, i, at + |key| + 1, phrase)
  {
    var after := at + |key| + 1;
    var r := Content(lines, i, lines[i][after..]);
    MarkedAfterKey(lines, i, at, key, phrase, r);
    SaysAfterIs(lines, i, after, phrase);
  }

  /** Line `i` starts `key:` and is followed by the phrase. */
  ghost predicate KeySaysOn(lines: seq<string>, i: nat, key: string, phrase: string) {
    i < |lines| && key + ":" <= lines[i] && SaysAfter(lines, i, |key| + 1, phrase)
  }

  lemma MarkedFirst(lines: seq<string>, i: nat, key: string, phrase: string)
    ensures MarkedAt(lines, i, 0, key, phrase) <==> KeySaysOn(lines, i, key, phrase)
  {
    if i < |lines| && key + ":" <= lines[i] {
      KeyFirst(lines[i], key + ":");
      MarkedAtIs(lines, i, 0, key, phrase);
    } else {
      NoKeyNoMark(lines, i, key, phrase);
    }
  }

  lemma NoKeyNoMark(lines: seq<string>, i: nat, key: string, phrase: string)
    requires i < |lines| ==> !(key + ":" <= lines[i])
    ensures !MarkedAt(lines, i, 0, key, phrase)
  {
    if i < |lines| { KeyFirst(lines[i], key + ":"); }
  }

  lemma MarkedWrittenOut(text: string, key: string, phrase: string)
    ensures Marked(text, key, phrase) <==> LineSays(text, key, phrase)
  {
    var lines := Lines(text);
    if i :| 0 <= i < |lines| && MarkedAt(lines, i, 0, key, phrase) { MarkedFirst(lines, i, key, phrase); }
    if i: nat :| KeySaysOn(lines, i, key, phrase) { MarkedFirst(lines, i, key, phrase); }
  }

  lemma KeyFirst(line: string, key: string)
    ensures OccursAt(line, key, 0) <==> key <= line
  {
  }

  /** Somewhere in a line stands `key:`, followed by the phrase. */
  ghost predicate TextSays(text: string, key: string, phrase: string) {
    exists i: nat, at: nat :: i < |Lines(text)| && OccursAt(Lines(text)[i], key + ":", at)
      && SaysAfter(Lines(text), i, at + |key| + 1, phrase)
  }

  lemma MarkedAnywhereWrittenOut(text: string, key: string, phrase: string)
    ensures MarkedAnywhere(text, key, phrase) <==> TextSays(text, key, phrase)
  {
    var lines := Lines(text);
    if MarkedAnywhere(text, key, phrase) {
      var i :| 0 <= i < |lines| && exists at :: 0 <= at <= |lines[i]| && MarkedAt(lines, i, at, key, phrase);
      var at :| 0 <= at <= |lines[i]| && MarkedAt(lines, i, at, key, phrase);
      MarkedAtIs(lines, i, at, key, phrase);
    }
    if TextSays(text, key, phrase) {
      var i: nat, at: nat :| i < |lines| && OccursAt(lines[i], key + ":", at)
        && SaysAfter(lines, i, at + |key| + 1, phrase);
      MarkedAtIs(lines, i, at, key, phrase);
      assert MarkedAt(lines, i, at, key, phrase);
    }
  }

  // ---------------------------------------------------------------------------------------------
  // Fields
  // ---------------------------------------------------------------------------------------------

  /** The first line keyed `name` is line `i`, and the next text after its colon is `t`. */
  predicate FieldAt(lines: seq<string>, name: string, i: nat, m: nat, t: string) {
    && i < |lines| && name + ":" <= lines[i] && (forall k :: 0 <= k < i ==> !(name + ":" <= lines[k]))
    && TextAfter(lines, i, |name| + 1, m, t)
  }

  lemma KeyedIsNotBlank(line: string, name: string)
    requires name + ":" <= line
    ensures !Blank(line)
  {
    assert line[|name|] == (name + ":")[|name|] == ':';
  }

  lemma {:induction false} SkipsToKey(lines: seq<string>, j: nat, i: nat, name: string)
    requires j <= i <= |lines| && forall k :: j <= k < i ==> !(name + ":" <= lines[k])
    ensures FieldFrom(lines, j, name) == FieldFrom(lines, i, name)
    decreases i - j
  {
    if j < i {
      SkipsLine(lines, j, name);
      SkipsToKey(lines, j + 1, i, name);
    }
  }

  lemma SkipsLine(lines: seq<string>, j: nat, name: string)
    requires j < |lines| && !(name + ":" <= lines[j])
    ensures FieldFrom(lines, j, name) == FieldFrom(lines, j + 1, name)
  {
  }

  lemma {:induction false} NoFieldBelow(lines: seq<string>, j: nat, name: string)
    requires j <= |lines| && forall k :: j <= k < |lines| ==> Blank(lines[k])
    ensures FieldFrom(lines, j, name) == ""
    decreases |lines| - j
  {
    if j < |lines| {
      if name + ":" <= lines[j] { KeyedIsNotBlank(lines[j], name); }
      NoFieldBelow(lines, j + 1, name);
    }
  }

  /** Nothing after a colon means only blank lines below it. */
  lemma {:induction false} NoContent(lines: seq<string>, i: nat, rest: string)
    requires i < |lines| && Content(lines, i, rest) == None
    ensures forall k :: i < k < |lines| ==> Blank(lines[k])
    decreases |lines| - i
  {
    if i + 1 < |lines| {
      NoContent(lines, i + 1, lines[i + 1]);
      BlankIs(lines[i + 1]);
    }
  }

  lemma FieldOnKeyLine(lines: seq<string>, i: nat, name: string)
    requires i < |lines| && name + ":" <= lines[i]
    ensures var r := Content(lines, i, lines[i][|name| + 1..]);
            FieldFrom(lines, i, name) == if r.Some? then RStrip(r.value.1) else ""
  {
    var rest := lines[i][|name| + 1..];
    if Content(lines, i, rest) == None {
      NoContent(lines, i, rest);
      NoFieldBelow(lines, i + 1, name);
    }
  }

  /** A field reads as the first text after the colon of its first key line, stripped. */
  lemma FieldWrittenOut(text: string, name: string, i: nat, m: nat, t: string)
    requires FieldAt(Lines(text), name, i, m, t)
    ensures Field(text, name) == RStrip(t) != ""
  {
    var lines := Lines(text);
    SkipsToKey(lines, 0, i, name);
    FieldOnKeyLine(lines, i, name);
    ContentIs(lines, i, |name| + 1, m, t);
    assert !IsSpace(t[0]);
  }

  lemma FirstKey(lines: seq<string>, name: string, k: nat) returns (i: nat)
    requires k < |lines| && name + ":" <= lines[k]
    ensures i <= k && name + ":" <= lines[i] && forall x :: 0 <= x < i ==> !(name + ":" <= lines[x])
  {
    i := 0;
    while !(name + ":" <= lines[i])
      invariant i <= k && forall x :: 0 <= x < i ==> !(name + ":" <= lines[x])
      decreases k - i
    {
      i := i + 1;
    }
  }

  /** And otherwise it is empty. */
  lemma NoFieldWrittenOut(text: string, name: string)
    requires !exists i: nat, m: nat, t :: FieldAt(Lines(text), name, i, m, t)
    ensures Field(text, name) == ""
  {
    var lines := Lines(text);
    if k: nat :| k < |lines| && name + ":" <= lines[k] {
      var i := FirstKey(lines, name, k);
      SkipsToKey(lines, 0, i, name);
      FieldOnKeyLine(lines, i, name);
      var r := Content(lines, i, lines[i][|name| + 1..]);
      if r.Some? {
        ContentIs(lines, i, |name| + 1, r.value.0, r.value.1);
        assert FieldAt(lines, name, i, r.value.0, r.value.1);
      }
    } else {
      SkipsToKey(lines, 0, |lines|, name);
    }
  }
}
