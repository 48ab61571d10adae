/**
 Deleting a line of a governance record: exactly when a field or a mark survives, disappears or is
 taken over by another line, and when a deletion can only withdraw evidence.
 */
module LineDeletion {
  import opened Text
  import opened CommitGraph
  import opened Records
  import opened SuccessorLifecycle
  import opened RecordEdits

  // ---------------------------------------------------------------------------------------------
  // Fields and marks of a list of lines
  // ---------------------------------------------------------------------------------------------

  predicate IsKey(line: string, name: string) { name + ":" <= line }

  function Rest(line: string, name: string): string
    requires IsKey(line, name)
  {
    line[|name| + 1..]
  }

  /** The first text at or after the start, stripped on the left. */
  function FirstText(ls: seq<string>): (s: string)
    ensures s == "" || !IsSpace(s[0])
  {
    if ls == [] then "" else if LStrip(ls[0]) != "" then LStrip(ls[0]) else FirstText(ls[1..])
  }

  /** What is read after a colon: the rest of the line or the next text below it. */
  function ValueAfter(rest: string, below: seq<string>): string {
    if LStrip(rest) != "" then LStrip(rest) else FirstText(below)
  }

  function FieldOf(ls: seq<string>, name: string): string {
    if ls == [] then ""
    else if IsKey(ls[0], name) && ValueAfter(Rest(ls[0], name), ls[1..]) != ""
    then RStrip(ValueAfter(Rest(ls[0], name), ls[1..]))
    else FieldOf(ls[1..], name)
  }

  predicate MarkedIn(ls: seq<string>, key: string, phrase: string) {
    ls != [] && (MarksFirst(ls, key, phrase) || MarkedIn(ls[1..], key, phrase))
  }

  predicate MarksFirst(ls: seq<string>, key: string, phrase: string)
    requires ls != []
  {
    IsKey(ls[0], key) && ValueAfter(Rest(ls[0], key), ls[1..]) != ""
    && StartsPhrase(ValueAfter(Rest(ls[0], key), ls[1..]), phrase)
  }

  lemma {:induction false} ContentIsValue(lines: seq<string>, i: nat, rest: string)
    requires i < |lines|
    ensures Content(lines, i, rest).Some? <==> ValueAfter(rest, lines[i + 1..]) != ""
    ensures Content(lines, i, rest).Some? ==> Content(lines, i, rest).value.1 == ValueAfter(rest, lines[i + 1..])
    decreases |lines| - i
  {
    if LStrip(rest) == "" && i + 1 < |lines| {
      ContentIsValue(lines, i + 1, lines[i + 1]);
      assert lines[i + 1..][1..] == lines[i + 2..];
    }
  }

  lemma {:induction false} FieldIsFieldOf(lines: seq<string>, i: nat, name: string)
    requires i <= |lines|
    ensures FieldFrom(lines, i, name) == FieldOf(lines[i..], name)
    decreases |lines| - i
  {
    if i < |lines| {
      assert lines[i..][1..] == lines[i + 1..];
      FieldIsFieldOf(lines, i + 1, name);
      if IsKey(lines[i], name) { ContentIsValue(lines, i, lines[i][|name| + 1..]); }
    }
  }

  lemma MarkedAtIs(lines: seq<string>, i: nat, key: string, phrase: string)
    requires i < |lines|
    ensures MarkedAt(lines, i, 0, key, phrase) <==> MarksFirst(lines[i..], key, phrase)
  {
    var ls := lines[i..];
    assert ls[0] == lines[i] && ls[1..] == lines[i + 1..];
    assert OccursAt(lines[i], key + ":", 0) <==> IsKey(lines[i], key);
    if IsKey(lines[i], key) { ContentIsValue(lines, i, lines[i][|key| + 1..]); }
  }

  lemma {:induction false} MarkedInExactly(lines: seq<string>, i: nat, key: string, phrase: string)
    requires i <= |lines|
    ensures MarkedIn(lines[i..], key, phrase) <==> exists k :: i <= k < |lines| && MarkedAt(lines, k, 0, key, phrase)
    decreases |lines| - i
  {
    if i < |lines| {
      assert lines[i..][1..] == lines[i + 1..];
      MarkedInExactly(lines, i + 1, key, phrase);
      MarkedAtIs(lines, i, key, phrase);
      MarkedInStep(lines[i..], key, phrase);
    }
  }

  lemma MarkedInStep(ls: seq<string>, key: string, phrase: string)
    requires ls != []
    ensures MarkedIn(ls, key, phrase) <==> MarksFirst(ls, key, phrase) || MarkedIn(ls[1..], key, phrase)
  {
  }

  lemma MarkedIs(text: string, key: string, phrase: string)
    ensures Marked(text, key, phrase) <==> MarkedIn(Lines(text), key, phrase)
  {
    var lines := Lines(text);
    assert lines[0..] == lines;
    MarkedInExactly(lines, 0, key, phrase);
  }

  lemma FieldIs(text: string, name: string)
    ensures Field(text, name) == FieldOf(Lines(text), name)
  {
    var lines := Lines(text);
    assert lines[0..] == lines;
    FieldIsFieldOf(lines, 0, name);
  }

  // ---------------------------------------------------------------------------------------------
  // What a field reads once a line is gone
  // ---------------------------------------------------------------------------------------------

  predicate HasKey(ls: seq<string>, name: string) { exists i :: 0 <= i < |ls| && IsKey(ls[i], name) }

  predicate AllBlank(ls: seq<string>) { forall i :: 0 <= i < |ls| ==> Blank(ls[i]) }

  /** The first key line has nothing after its colon, nor below it so far. */
  predicate Awaiting(ls: seq<string>, name: string) {
    ls != [] && if IsKey(ls[0], name) then Blank(Rest(ls[0], name)) && AllBlank(ls[1..]) else Awaiting(ls[1..], name)
  }

  /** The field `name` is read off the line `d` that follows `pre`: `d` is its key line or the text
      its empty key line is waiting for. */
  predicate Carries(pre: seq<string>, d: string, name: string) {
    if HasKey(pre, name) then Awaiting(pre, name) && !Blank(d) else IsKey(d, name)
  }

  lemma BlankText(s: string)
    ensures Blank(s) <==> LStrip(s) == ""
  {
    BlankIffStripEmpty(s);
  }

  lemma {:induction false} FirstTextSkips(pre: seq<string>, rest: seq<string>)
    ensures FirstText(pre + rest) == if AllBlank(pre) then FirstText(rest) else FirstText(pre)
    ensures AllBlank(pre) <==> FirstText(pre) == ""
  {
    if pre == [] {
      assert pre + rest == rest;
    } else {
      assert (pre + rest)[0] == pre[0] && (pre + rest)[1..] == pre[1..] + rest;
      BlankText(pre[0]);
      AllBlankCons(pre);
      FirstTextSkips(pre[1..], rest);
      FirstTextStep(pre);
      FirstTextStep(pre + rest);
    }
  }

  lemma AllBlankCons(ls: seq<string>)
    requires ls != []
    ensures AllBlank(ls) <==> Blank(ls[0]) && AllBlank(ls[1..])
  {
    if Blank(ls[0]) && AllBlank(ls[1..]) {
      forall i | 0 <= i < |ls| ensures Blank(ls[i]) { if i > 0 { assert ls[i] == ls[1..][i - 1]; } }
    }
  }

  lemma FirstTextStep(ls: seq<string>)
    requires ls != []
    ensures FirstText(ls) == if LStrip(ls[0]) != "" then LStrip(ls[0]) else FirstText(ls[1..])
  {
  }

  lemma KeyIsNotBlank(line: string, name: string)
    requires IsKey(line, name)
    ensures !Blank(line)
  {
    assert line[|name|] == (name + ":")[|name|] == ':';
  }

  lemma {:induction false} NoFieldInBlank(ls: seq<string>, name: string)
    requires AllBlank(ls)
    ensures FieldOf(ls, name) == ""
  {
    if ls != [] {
      if IsKey(ls[0], name) { KeyIsNotBlank(ls[0], name); }
      NoFieldInBlank(ls[1..], name);
    }
  }

  /** What takes the place of a deleted line the field was read off. */
  function TakesOver(pre: seq<string>, post: seq<string>, name: string): string {
    if HasKey(pre, name) then RStrip(FirstText(post)) else FieldOf(post, name)
  }

  lemma DeleteBelowKey(key: string, pre: seq<string>, d: string, post: seq<string>, name: string)
    requires IsKey(key, name)
    ensures var v, v' := ValueAfter(Rest(key, name), pre + [d] + post), ValueAfter(Rest(key, name), pre + post);
            if Blank(Rest(key, name)) && AllBlank(pre) && !Blank(d) then v == LStrip(d) != "" && v' == FirstText(post)
            else v == v'
  {
    BlankText(Rest(key, name));
    BlankText(d);
    FirstTextSkips(pre, post);
    assert pre + [d] + post == pre + ([d] + post);
    FirstTextSkips(pre, [d] + post);
    assert ([d] + post)[0] == d && ([d] + post)[1..] == post;
  }

  /** Deleting a line the field is not read off leaves the field alone; deleting the one it is read
      off hands it to the next key line, or to the next text when the key line stays. */
  lemma {:induction false} DeletedField(pre: seq<string>, d: string, post: seq<string>, name: string)
    ensures FieldOf(pre + post, name) ==
            if Carries(pre, d, name) then TakesOver(pre, post, name) else FieldOf(pre + [d] + post, name)
    decreases |pre|
  {
    var ls, ls' := pre + [d] + post, pre + post;
    if pre == [] {
      assert ls[0] == d && ls[1..] == post && ls' == post;
    } else {
      var x, rest := pre[0], pre[1..];
      assert ls[0] == x && ls[1..] == rest + [d] + post && ls'[0] == x && ls'[1..] == rest + post;
      assert HasKey(pre, name) <==> IsKey(x, name) || HasKey(rest, name) by { HasKeyCons(pre, name); }
      if IsKey(x, name) {
        DeleteBelowKey(x, rest, d, post, name);
        AfterFirstKey(pre, d, post, name);
      } else {
        DeletedField(rest, d, post, name);
      }
    }
  }

  lemma HasKeyCons(ls: seq<string>, name: string)
    requires ls != []
    ensures HasKey(ls, name) <==> IsKey(ls[0], name) || HasKey(ls[1..], name)
  {
    if i :| 0 <= i < |ls| && IsKey(ls[i], name) && i > 0 { assert IsKey(ls[1..][i - 1], name); }
    if i :| 0 <= i < |ls[1..]| && IsKey(ls[1..][i], name) { assert IsKey(ls[i + 1], name); }
  }

  /** When the first line is the key line and nothing is read after it, nothing is left to read. */
  lemma AfterFirstKey(pre: seq<string>, d: string, post: seq<string>, name: string)
    requires pre != [] && IsKey(pre[0], name)
    ensures ValueAfter(Rest(pre[0], name), pre[1..] + [d] + post) == "" ==> FieldOf(pre[1..] + [d] + post, name) == ""
    ensures ValueAfter(Rest(pre[0], name), pre[1..] + post) == "" ==> FieldOf(pre[1..] + post, name) == ""
  {
    FirstTextSkips(pre[1..] + [d] + post, []);
    FirstTextSkips(pre[1..] + post, []);
    if ValueAfter(Rest(pre[0], name), pre[1..] + [d] + post) == "" { NoFieldInBlank(pre[1..] + [d] + post, name); }
    if ValueAfter(Rest(pre[0], name), pre[1..] + post) == "" { NoFieldInBlank(pre[1..] + post, name); }
  }

  /** A deletion leaves a field as it was or withdraws it exactly when the field is not read off the
      line, or nothing takes over, or the same value does. */
  lemma DeletionWithdrawsExactlyWhen(pre: seq<string>, d: string, post: seq<string>, name: string)
    ensures SameOrGone(FieldOf(pre + [d] + post, name), FieldOf(pre + post, name)) <==>
            !Carries(pre, d, name) || SameOrGone(FieldOf(pre + [d] + post, name), TakesOver(pre, post, name))
  {
    DeletedField(pre, d, post, name);
  }

  // ---------------------------------------------------------------------------------------------
  // What a mark says once a line is gone
  // ---------------------------------------------------------------------------------------------

  /** The last text of `ls` is a key line with nothing after its colon. */
  predicate Dangling(ls: seq<string>, key: string) {
    ls != [] && ((IsKey(ls[0], key) && Blank(Rest(ls[0], key)) && AllBlank(ls[1..])) || Dangling(ls[1..], key))
  }

  /** The next text below the deleted line completes a mark above it. */
  predicate Completes(pre: seq<string>, d: string, post: seq<string>, key: string, phrase: string) {
    Dangling(pre, key) && !Blank(d) && FirstText(post) != "" && StartsPhrase(FirstText(post), phrase)
  }

  lemma {:induction false} DeletedMark(pre: seq<string>, d: string, post: seq<string>, key: string, phrase: string)
    ensures MarkedIn(pre + post, key, phrase) ==>
            MarkedIn(pre + [d] + post, key, phrase) || Completes(pre, d, post, key, phrase)
    ensures Completes(pre, d, post, key, phrase) ==> MarkedIn(pre + post, key, phrase)
    decreases |pre|
  {
    var ls, ls' := pre + [d] + post, pre + post;
    if pre == [] {
      assert ls[0] == d && ls[1..] == post && ls' == post;
    } else {
      var x, rest := pre[0], pre[1..];
      assert ls[0] == x && ls[1..] == rest + [d] + post && ls'[0] == x && ls'[1..] == rest + post;
      DeletedMark(rest, d, post, key, phrase);
      if IsKey(x, key) { DeleteBelowKey(x, rest, d, post, key); }
    }
  }

  /** A deletion makes a mark appear exactly when the text below completes a dangling key line. */
  lemma MarkAppearsExactlyWhen(pre: seq<string>, d: string, post: seq<string>, key: string, phrase: string)
    ensures MarkedIn(pre + post, key, phrase) && !MarkedIn(pre + [d] + post, key, phrase) <==>
            !MarkedIn(pre + [d] + post, key, phrase) && Completes(pre, d, post, key, phrase)
  {
    DeletedMark(pre, d, post, key, phrase);
  }

  // ---------------------------------------------------------------------------------------------
  // Records in which every deletion is a withdrawal
  // ---------------------------------------------------------------------------------------------

  /** Every key line has its text on the same line. */
  predicate Inline(ls: seq<string>, name: string) {
    forall i :: 0 <= i < |ls| && IsKey(ls[i], name) ==> !Blank(Rest(ls[i], name))
  }

  /** And there is at most one. */
  predicate Settled(ls: seq<string>, name: string) {
    Inline(ls, name) && forall i, j :: 0 <= i < j < |ls| ==> !(IsKey(ls[i], name) && IsKey(ls[j], name))
  }

  lemma {:induction false} NoKeyNoField(ls: seq<string>, name: string)
    requires !HasKey(ls, name)
    ensures FieldOf(ls, name) == ""
  {
    if ls != [] {
      HasKeyCons(ls, name);
      NoKeyNoField(ls[1..], name);
    }
  }

  lemma {:induction false} InlineNeverAwaits(ls: seq<string>, name: string)
    requires Inline(ls, name)
    ensures !Awaiting(ls, name) && !Dangling(ls, name)
  {
    if ls != [] {
      assert forall i :: 0 <= i < |ls[1..]| ==> ls[1..][i] == ls[i + 1];
      InlineNeverAwaits(ls[1..], name);
    }
  }

  lemma SettledParts(pre: seq<string>, d: string, post: seq<string>, name: string)
    requires Settled(pre + [d] + post, name)
    ensures Inline(pre, name) && (IsKey(d, name) ==> !HasKey(post, name))
  {
    var ls := pre + [d] + post;
    assert forall i :: 0 <= i < |pre| ==> ls[i] == pre[i];
    assert ls[|pre|] == d && forall i :: 0 <= i < |post| ==> ls[|pre| + 1 + i] == post[i];
  }

  /** In a settled record, deleting any line leaves the field or withdraws it. */
  lemma SettledDeletion(pre: seq<string>, d: string, post: seq<string>, name: string)
    requires Settled(pre + [d] + post, name)
    ensures SameOrGone(FieldOf(pre + [d] + post, name), FieldOf(pre + post, name))
  {
    SettledParts(pre, d, post, name);
    InlineNeverAwaits(pre, name);
    DeletedField(pre, d, post, name);
    if Carries(pre, d, name) { NoKeyNoField(post, name); }
  }

  /** Where every key line has its text, deleting any line adds no mark. */
  lemma InlineDeletion(pre: seq<string>, d: string, post: seq<string>, key: string, phrase: string)
    requires Inline(pre + [d] + post, key)
    ensures MarkedIn(pre + post, key, phrase) ==> MarkedIn(pre + [d] + post, key, phrase)
  {
    var ls := pre + [d] + post;
    assert forall i :: 0 <= i < |pre| ==> ls[i] == pre[i];
    InlineNeverAwaits(pre, key);
    DeletedMark(pre, d, post, key, phrase);
  }

  // ---------------------------------------------------------------------------------------------
  // Deletion in a text
  // ---------------------------------------------------------------------------------------------

  function DeleteLine(text: string, i: nat): string
    requires i < |Lines(text)|
  {
    Join(Lines(text)[..i] + Lines(text)[i + 1..], "\n")
  }

  lemma {:induction false} SplitParts(s: string, c: char)
    ensures forall p :: p in Split(s, c) ==> c !in p
    ensures Join(Split(s, c), [c]) == s
    decreases |s|
  {
    var n := IndexOf(s, c);
    if n < |s| {
      SplitParts(s[n + 1..], c);
      var rest := Split(s[n + 1..], c);
      assert ([s[..n]] + rest)[1..] == rest;
      assert s == s[..n] + [c] + s[n + 1..];
    }
  }

  /** The lines left: those of the text without the deleted one; an emptied text still has one. */
  lemma LinesLeft(text: string, i: nat)
    requires i < |Lines(text)|
    ensures var left := Lines(text)[..i] + Lines(text)[i + 1..];
            Lines(DeleteLine(text, i)) == if left == [] then [""] else left
  {
    SplitParts(text, '\n');
    var left := Lines(text)[..i] + Lines(text)[i + 1..];
    forall k | 0 <= k < |left| ensures '\n' !in left[k] { assert left[k] in Lines(text); }
    if left != [] { SplitJoin(left, '\n'); }
  }

  lemma AroundLine(text: string, i: nat)
    requires i < |Lines(text)|
    ensures Lines(text) == Lines(text)[..i] + [Lines(text)[i]] + Lines(text)[i + 1..]
  {
  }

  lemma EmptyLineSaysNothing(name: string, phrase: string)
    ensures FieldOf([""], name) == "" == FieldOf([], name) && !MarkedIn([""], name, phrase)
  {
    assert [""][1..] == [];
    assert FieldOf([""], name) == FieldOf([], name);
  }

  lemma FieldAfterDeletion(text: string, i: nat, name: string)
    requires i < |Lines(text)| && Settled(Lines(text), name)
    ensures SameOrGone(Field(text, name), Field(DeleteLine(text, i), name))
  {
    var lines := Lines(text);
    FieldIs(text, name);
    FieldIs(DeleteLine(text, i), name);
    LinesLeft(text, i);
    AroundLine(text, i);
    EmptyLineSaysNothing(name, "");
    SettledDeletion(lines[..i], lines[i], lines[i + 1..], name);
  }

  lemma MarkAfterDeletion(text: string, i: nat, key: string, phrase: string)
    requires i < |Lines(text)| && Inline(Lines(text), key)
    ensures Marked(DeleteLine(text, i), key, phrase) ==> Marked(text, key, phrase)
  {
    var lines := Lines(text);
    MarkedIs(text, key, phrase);
    MarkedIs(DeleteLine(text, i), key, phrase);
    LinesLeft(text, i);
    AroundLine(text, i);
    EmptyLineSaysNothing(key, phrase);
    InlineDeletion(lines[..i], lines[i], lines[i + 1..], key, phrase);
  }

  // ---------------------------------------------------------------------------------------------
  // The boundary in the decision text
  // ---------------------------------------------------------------------------------------------

  /** Text without a line end occurs in joined lines exactly when it occurs in one of them. */
  lemma {:induction false} OccursInLine(ls: seq<string>, sub: string)
    requires sub != "" && '\n' !in sub
    ensures Contains(Join(ls, "\n"), sub) <==> exists k :: 0 <= k < |ls| && Contains(ls[k], sub)
  {
    if |ls| > 1 {
      OccursInLine(ls[1..], sub);
      OccursAround(ls[0], Join(ls[1..], "\n"), sub);
      if k :| 0 <= k < |ls| && Contains(ls[k], sub) && k > 0 { assert Contains(ls[1..][k - 1], sub); }
      if k :| 0 <= k < |ls[1..]| && Contains(ls[1..][k], sub) { assert Contains(ls[k + 1], sub); }
    }
  }

  lemma OccursAround(a: string, b: string, sub: string)
    requires sub != "" && '\n' !in sub
    ensures Contains(a + "\n" + b, sub) <==> Contains(a, sub) || Contains(b, sub)
  {
    var s := a + "\n" + b;
    assert s[0..0 + |a|] == a && s[|a| + 1..|a| + 1 + |b|] == b;
    if Contains(a, sub) { ContainsWithin(a, s, sub, 0); }
    if Contains(b, sub) { ContainsWithin(b, s, sub, |a| + 1); }
    if Contains(s, sub) {
      var i :| 0 <= i <= |s| && OccursAt(s, sub, i);
      OccursOnOneSide(a, b, sub, i);
    }
  }

  lemma NoLineEndInside(s: string, sub: string, i: nat, n: nat)
    requires '\n' !in sub && OccursAt(s, sub, i) && n < |s| && s[n] == '\n'
    ensures n < i || i + |sub| <= n
  {
    forall k | i <= k < i + |sub| ensures s[k] in sub { assert s[i..i + |sub|][k - i] == s[k]; }
  }

  lemma OccursOnOneSide(a: string, b: string, sub: string, i: nat)
    requires sub != "" && '\n' !in sub && OccursAt(a + "\n" + b, sub, i)
    ensures OccursAt(a, sub, i) || OccursAt(b, sub, i - |a| - 1)
  {
    var s := a + "\n" + b;
    assert s[|a|] == '\n';
    NoLineEndInside(s, sub, i, |a|);
    if i + |sub| <= |a| {
      assert a[i..i + |sub|] == s[i..i + |sub|];
    } else {
      var j := i - |a| - 1;
      assert b[j..j + |sub|] == s[i..i + |sub|];
    }
  }

  lemma TextAfterDeletion(text: string, i: nat, sub: string)
    requires i < |Lines(text)| && '\n' !in sub
    ensures Contains(DeleteLine(text, i), sub) ==> Contains(text, sub)
  {
    var lines := Lines(text);
    var left := lines[..i] + lines[i + 1..];
    if sub == "" {
      assert OccursAt(text, sub, 0);
    } else {
      SplitParts(text, '\n');
      OccursInLine(left, sub);
      OccursInLine(lines, sub);
      if k :| 0 <= k < |left| && Contains(left[k], sub) {
        assert Contains(lines[if k < i then k else k + 1], sub);
      }
    }
  }

  lemma StrippedHasNoMore(s: string, c: char)
    requires c !in s
    ensures c !in LStrip(s) && c !in RStrip(s)
  {
    var before := LTrimParts(s, IsSpace);
    var behind := RTrimParts(s, IsSpace);
    assert c in LStrip(s) ==> c in before + LStrip(s);
    assert c in RStrip(s) ==> c in RStrip(s) + behind;
  }

  lemma {:induction false} FirstTextIsOnOneLine(ls: seq<string>)
    requires forall i :: 0 <= i < |ls| ==> '\n' !in ls[i]
    ensures '\n' !in FirstText(ls)
  {
    if ls != [] {
      StrippedHasNoMore(ls[0], '\n');
      FirstTextIsOnOneLine(ls[1..]);
    }
  }

  lemma ValueIsOnOneLine(line: string, name: string, below: seq<string>)
    requires IsKey(line, name) && '\n' !in line && forall i :: 0 <= i < |below| ==> '\n' !in below[i]
    ensures '\n' !in RStrip(ValueAfter(Rest(line, name), below))
  {
    assert '\n' !in Rest(line, name);
    StrippedHasNoMore(Rest(line, name), '\n');
    FirstTextIsOnOneLine(below);
    StrippedHasNoMore(ValueAfter(Rest(line, name), below), '\n');
  }

  lemma {:induction false} FieldIsOnOneLine(ls: seq<string>, name: string)
    requires forall i :: 0 <= i < |ls| ==> '\n' !in ls[i]
    ensures '\n' !in FieldOf(ls, name)
  {
    if ls != [] {
      FieldIsOnOneLine(ls[1..], name);
      if IsKey(ls[0], name) { ValueIsOnOneLine(ls[0], name, ls[1..]); }
    }
  }

  lemma FieldHasNoLineEnd(text: string, name: string)
    ensures '\n' !in Field(text, name)
  {
    SplitParts(text, '\n');
    FieldIs(text, name);
    FieldIsOnOneLine(Lines(text), name);
  }

  // ---------------------------------------------------------------------------------------------
  // Deleting a line of a record
  // ---------------------------------------------------------------------------------------------

  /** The snapshot writes each field it rests on once and on one line. */
  predicate PlainSnapshot(snapshot: string) {
    var ls, key := Lines(snapshot), MilestoneKey(Field(snapshot, MILESTONE_FIELD));
    Settled(ls, MILESTONE_FIELD) && Settled(ls, BOUNDARY_FIELD) && Settled(ls, AUTHORIZATION_RECORD_FIELD)
    && Settled(ls, CHANGESET_END_FIELD) && Settled(ls, key + "_AUTHORIZED_BY") && Inline(ls, key)
  }

  /** And the decision record writes its mark on one line. */
  predicate PlainRecords(records: Store) {
    var snapshot := FileAt(records, SUPERSESSION_RECORD);
    var decision := ReadRecord(records, Field(snapshot, AUTHORIZATION_RECORD_FIELD));
    PlainSnapshot(snapshot) && Inline(Lines(decision), DecisionId(snapshot, Field(snapshot, MILESTONE_FIELD)))
  }

  predicate LineGone(text: string, text': string) {
    exists i :: 0 <= i < |Lines(text)| && text' == DeleteLine(text, i)
  }

  predicate SameOrShorter(text: string, text': string) { text' == text || LineGone(text, text') }

  lemma ShorterField(text: string, text': string, name: string)
    requires SameOrShorter(text, text') && Settled(Lines(text), name)
    ensures SameOrGone(Field(text, name), Field(text', name))
  {
    if text' != text {
      var i :| 0 <= i < |Lines(text)| && text' == DeleteLine(text, i);
      FieldAfterDeletion(text, i, name);
    }
  }

  lemma ShorterMark(text: string, text': string, key: string, phrase: string)
    requires SameOrShorter(text, text') && Inline(Lines(text), key) && Marked(text', key, phrase)
    ensures Marked(text, key, phrase)
  {
    if text' != text {
      var i :| 0 <= i < |Lines(text)| && text' == DeleteLine(text, i);
      MarkAfterDeletion(text, i, key, phrase);
    }
  }

  lemma ShorterText(text: string, text': string, sub: string)
    requires SameOrShorter(text, text') && '\n' !in sub && Contains(text', sub)
    ensures Contains(text, sub)
  {
    if text' != text {
      var i :| 0 <= i < |Lines(text)| && text' == DeleteLine(text, i);
      TextAfterDeletion(text, i, sub);
    }
  }

  lemma ShorterBinds(decision: string, decision': string, id: string, boundary: string)
    requires SameOrShorter(decision, decision') && Inline(Lines(decision), id) && '\n' !in boundary
    requires Binds(decision', id, boundary)
    ensures Binds(decision, id, boundary)
  {
    ShorterMark(decision, decision', id, "RESOLVED / BINDING");
    ShorterText(decision, decision', boundary);
    if decision == "" {
      MarkedIs("", id, "RESOLVED / BINDING");
      assert Lines("") == [""];
      EmptyLineSaysNothing(id, "RESOLVED / BINDING");
    }
  }

  lemma ShorterDecisionId(snapshot: string, snapshot': string, milestone: string)
    requires SameOrShorter(snapshot, snapshot') && Settled(Lines(snapshot), MilestoneKey(milestone) + "_AUTHORIZED_BY")
    ensures SameOrGone(DecisionId(snapshot, milestone), DecisionId(snapshot', milestone))
  {
    ShorterField(snapshot, snapshot', MilestoneKey(milestone) + "_AUTHORIZED_BY");
    assert Split("", '/')[0] == "";
  }

  lemma ShorterEvidence(snapshot: string, decision: string, snapshot': string, decision': string)
    requires SameOrShorter(snapshot, snapshot') && PlainSnapshot(snapshot)
    requires Field(snapshot', AUTHORIZATION_RECORD_FIELD) == Field(snapshot, AUTHORIZATION_RECORD_FIELD) ==>
               SameOrShorter(decision, decision')
    requires Inline(Lines(decision), DecisionId(snapshot, Field(snapshot, MILESTONE_FIELD)))
    ensures Withdrawn(EvidenceIn(snapshot, decision), EvidenceIn(snapshot', decision'))
  {
    var e, e' := EvidenceIn(snapshot, decision), EvidenceIn(snapshot', decision');
    ShorterField(snapshot, snapshot', MILESTONE_FIELD);
    if e'.milestone != "" {
      ShorterField(snapshot, snapshot', BOUNDARY_FIELD);
      ShorterField(snapshot, snapshot', AUTHORIZATION_RECORD_FIELD);
      ShorterField(snapshot, snapshot', CHANGESET_END_FIELD);
      ShorterDecisionId(snapshot, snapshot', e.milestone);
      if e'.marked { ShorterMark(snapshot, snapshot', MilestoneKey(e.milestone), "AUTHORIZED"); }
      if e'.boundary == e.boundary && e'.record == e.record && e'.decision == e.decision && e'.bound {
        FieldHasNoLineEnd(snapshot, BOUNDARY_FIELD);
        ShorterBinds(decision, decision', e.decision, e.boundary);
      }
    }
  }

  lemma ShorterFile(records: Store, path: string, i: nat, key: string)
    requires path in records && i < |Lines(records[path])|
    ensures SameOrShorter(FileAt(records, key), FileAt(records[path := DeleteLine(records[path], i)], key))
  {
    if key == path { assert LineGone(records[path], DeleteLine(records[path], i)); }
  }

  /** Deleting any one line of any record of a plain set of records withdraws evidence or changes
      none, so it can only add reported paths and reopen windows. */
  lemma LineDeletionOnlyAdds(r: Repo, records: Store, path: string, i: nat, baseline: string)
    requires ValidRepo(r) && PlainRecords(records) && path in records && i < |Lines(records[path])|
    ensures var records' := records[path := DeleteLine(records[path], i)];
            LiveGuardPaths(World(r, records), baseline) <= LiveGuardPaths(World(r, records'), baseline)
            && KeptOrOpen(r, records, records', baseline)
  {
    var records' := records[path := DeleteLine(records[path], i)];
    var snapshot, snapshot' := FileAt(records, SUPERSESSION_RECORD), FileAt(records', SUPERSESSION_RECORD);
    var record, record' := Field(snapshot, AUTHORIZATION_RECORD_FIELD), Field(snapshot', AUTHORIZATION_RECORD_FIELD);
    ShorterFile(records, path, i, SUPERSESSION_RECORD);
    ShorterFile(records, path, i, Canonical(record));
    ShorterEvidence(snapshot, ReadRecord(records, record), snapshot', ReadRecord(records', record'));
    WithdrawalOnlyAdds(r, records, records', baseline);
  }
}
