/**
 Concrete records and histories: an authorized successor exists, an edit of line ends and
 undecodable bytes slips past the live guard, a snapshot may serve as its own decision record, and
 blanking a field may move an exemption instead of withdrawing it.
 */
module LifecycleExamples {
  import opened Wrappers
  import opened Text
  import opened CommitGraph
  import opened Records
  import opened SuccessorLifecycle
  import opened RecordEdits

  lemma FieldSkips(lines: seq<string>, i: nat, name: string)
    requires i < |lines| && !(name + ":" <= lines[i])
    ensures FieldFrom(lines, i, name) == FieldFrom(lines, i + 1, name)
  {
  }

  /** A line `name: value` gives the field its value. */
  lemma FieldHere(lines: seq<string>, k: nat, name: string, value: string)
    requires k < |lines| && lines[k] == name + ": " + value
    requires value != "" && !IsSpace(value[0]) && !IsSpace(value[|value| - 1])
    ensures FieldFrom(lines, k, name) == value
  {
    assert lines[k] == name + ":" + (" " + value);
    FieldAfterSpace(lines, k, name, value);
  }

  lemma FieldAfterSpace(lines: seq<string>, k: nat, name: string, value: string)
    requires k < |lines| && lines[k] == name + ":" + (" " + value)
    requires value != "" && !IsSpace(value[0]) && !IsSpace(value[|value| - 1])
    ensures FieldFrom(lines, k, name) == value
  {
    assert name + ":" <= lines[k];
    assert lines[k][|name| + 1..] == " " + value;
    ContentAfterSpace(lines, k, value);
    TrimmedStays(value);
  }

  lemma ContentAfterSpace(lines: seq<string>, k: nat, value: string)
    requires k < |lines| && value != "" && !IsSpace(value[0])
    ensures Content(lines, k, " " + value) == Some((k, value))
  {
    LTrimPrefix(" ", value, IsSpace);
    assert LStrip(" " + value) == LStrip(value) == value;
  }

  lemma TrimmedStays(value: string)
    requires value != "" && !IsSpace(value[|value| - 1])
    ensures RStrip(value) == value
  {
  }

  /** A line `key: phrase...` marks the key. */
  lemma MarkOnLine(text: string, lines: seq<string>, k: nat, key: string, phrase: string, rest: string)
    requires Lines(text) == lines && k < |lines| && lines[k] == key + ": " + (phrase + rest)
    requires phrase != "" && !IsSpace(phrase[0]) && (rest == "" || !IsWordChar(rest[0]))
    ensures Marked(text, key, phrase)
  {
    var value := phrase + rest;
    assert lines[k] == (key + ":") + (" " + value);
    assert lines[k][0 + |key| + 1..] == " " + value;
    ContentAfterSpace(lines, k, value);
    assert OccursAt(lines[k], key + ":", 0);
    assert MarkedAt(lines, k, 0, key, phrase);
  }

  const DECISION: string := "D: RESOLVED / BINDING c0"

  /** A snapshot that authorizes milestone M at boundary c0, with `end` after the colon of the
      changeset end and a bare commit id on the line below. */
  function SnapshotLines(record: string, end: string): seq<string> {
    [ "SUCCESSOR_IMPLEMENTATION_MILESTONE: M",
      "SUCCESSOR_LIFECYCLE_BOUNDARY: c0",
      "SUCCESSOR_AUTHORIZATION_RECORD: " + record,
      CHANGESET_END_FIELD + ":" + end,
      "c2",
      "M: AUTHORIZED",
      "M_AUTHORIZED_BY: D",
      DECISION ]
  }

  function Snapshot(record: string, end: string): string { Join(SnapshotLines(record, end), "\n") }

  const END_C1: string := " c1"

  predicate PlainName(s: string) {
    s != "" && '\n' !in s && !IsSpace(s[0]) && !IsSpace(s[|s| - 1])
  }

  lemma SnapshotLinesAre(record: string, end: string)
    requires PlainName(record) && '\n' !in end
    ensures Lines(Snapshot(record, end)) == SnapshotLines(record, end)
  {
    var lines := SnapshotLines(record, end);
    assert '\n' !in lines[2] && '\n' !in lines[3];
    FieldLinesAreLines(record, end);
    OtherLinesAreLines(record, end);
    SplitJoin(lines, '\n');
  }

  lemma FieldLinesAreLines(record: string, end: string)
    ensures '\n' !in SnapshotLines(record, end)[0] && '\n' !in SnapshotLines(record, end)[1]
  {
  }

  lemma OtherLinesAreLines(record: string, end: string)
    ensures '\n' !in SnapshotLines(record, end)[4] && '\n' !in SnapshotLines(record, end)[5]
    ensures '\n' !in SnapshotLines(record, end)[6] && '\n' !in SnapshotLines(record, end)[7]
  {
  }

  lemma DiffersAt(a: string, b: string, i: nat)
    requires i < |a| && (i >= |b| || a[i] != b[i])
    ensures !(a <= b)
  {
  }

  lemma MilestoneIsM(record: string, end: string)
    requires PlainName(record) && '\n' !in end
    ensures Field(Snapshot(record, end), MILESTONE_FIELD) == "M"
  {
    var lines := SnapshotLines(record, end);
    SnapshotLinesAre(record, end);
    assert lines[0] == MILESTONE_FIELD + ": " + "M";
    FieldHere(lines, 0, MILESTONE_FIELD, "M");
  }

  lemma BoundaryIsC0(record: string, end: string)
    requires PlainName(record) && '\n' !in end
    ensures Field(Snapshot(record, end), BOUNDARY_FIELD) == "c0"
  {
    var lines := SnapshotLines(record, end);
    SnapshotLinesAre(record, end);
    DiffersAt(BOUNDARY_FIELD + ":", lines[0], 10);
    assert lines[1] == BOUNDARY_FIELD + ": " + "c0";
    FieldSkips(lines, 0, BOUNDARY_FIELD);
    FieldHere(lines, 1, BOUNDARY_FIELD, "c0");
  }

  lemma RecordIsNamed(record: string, end: string)
    requires PlainName(record) && '\n' !in end
    ensures Field(Snapshot(record, end), AUTHORIZATION_RECORD_FIELD) == record
  {
    var lines := SnapshotLines(record, end);
    SnapshotLinesAre(record, end);
    DiffersAt(AUTHORIZATION_RECORD_FIELD + ":", lines[0], 10);
    DiffersAt(AUTHORIZATION_RECORD_FIELD + ":", lines[1], 10);
    assert lines[2] == AUTHORIZATION_RECORD_FIELD + ": " + record;
    FieldSkips(lines, 0, AUTHORIZATION_RECORD_FIELD);
    FieldSkips(lines, 1, AUTHORIZATION_RECORD_FIELD);
    FieldHere(lines, 2, AUTHORIZATION_RECORD_FIELD, record);
  }

  lemma EndKeyIsFourth(record: string, end: string)
    requires PlainName(record) && '\n' !in end
    ensures Lines(Snapshot(record, end)) == SnapshotLines(record, end)
    ensures Field(Snapshot(record, end), CHANGESET_END_FIELD) == FieldFrom(SnapshotLines(record, end), 3, CHANGESET_END_FIELD)
  {
    var lines := SnapshotLines(record, end);
    SnapshotLinesAre(record, end);
    DiffersAt(CHANGESET_END_FIELD + ":", lines[0], 10);
    DiffersAt(CHANGESET_END_FIELD + ":", lines[1], 10);
    DiffersAt(CHANGESET_END_FIELD + ":", lines[2], 18);
    FieldSkips(lines, 0, CHANGESET_END_FIELD);
    FieldSkips(lines, 1, CHANGESET_END_FIELD);
    FieldSkips(lines, 2, CHANGESET_END_FIELD);
  }

  lemma EndIsC1(record: string)
    requires PlainName(record)
    ensures Field(Snapshot(record, END_C1), CHANGESET_END_FIELD) == "c1"
  {
    var lines := SnapshotLines(record, END_C1);
    EndKeyIsFourth(record, END_C1);
    assert END_C1 == " " + "c1";
    FieldAfterSpace(lines, 3, CHANGESET_END_FIELD, "c1");
  }

  /** With nothing after its colon the field reads the line below. */
  lemma BlankedEndIsC2(record: string)
    requires PlainName(record)
    ensures Field(Snapshot(record, ""), CHANGESET_END_FIELD) == "c2"
  {
    var lines := SnapshotLines(record, "");
    EndKeyIsFourth(record, "");
    assert lines[3] == CHANGESET_END_FIELD + ":" && lines[4] == "c2";
    FieldBelow(lines, 3, CHANGESET_END_FIELD, "c2");
  }

  lemma FieldBelow(lines: seq<string>, k: nat, name: string, value: string)
    requires k + 1 < |lines| && lines[k] == name + ":" && lines[k + 1] == value
    requires value != "" && !IsSpace(value[0]) && !IsSpace(value[|value| - 1])
    ensures FieldFrom(lines, k, name) == value
  {
    assert name + ":" <= lines[k] && lines[k][|name| + 1..] == "";
    NextLineContent(lines, k);
    TrimmedStays(value);
  }

  lemma KeyOfM()
    ensures MilestoneKey("M") == "M"
  {
    assert "M"[1..] == "";
    assert ReplaceChar("M", '-', "_") == "M";
  }

  lemma AuthorizedByD(record: string, end: string)
    requires PlainName(record) && '\n' !in end
    ensures Field(Snapshot(record, end), "M" + "_AUTHORIZED_BY") == "D"
  {
    var lines := SnapshotLines(record, end);
    SnapshotLinesAre(record, end);
    var name := "M" + "_AUTHORIZED_BY";
    DiffersAt(name + ":", lines[0], 0);
    DiffersAt(name + ":", lines[1], 0);
    DiffersAt(name + ":", lines[2], 0);
    DiffersAt(name + ":", lines[3], 0);
    DiffersAt(name + ":", lines[4], 0);
    DiffersAt(name + ":", lines[5], 1);
    assert lines[6] == name + ": " + "D";
    FieldSkips(lines, 0, name);
    FieldSkips(lines, 1, name);
    FieldSkips(lines, 2, name);
    FieldSkips(lines, 3, name);
    FieldSkips(lines, 4, name);
    FieldSkips(lines, 5, name);
    FieldHere(lines, 6, name, "D");
  }

  lemma DecisionIsD(record: string, end: string)
    requires PlainName(record) && '\n' !in end
    ensures DecisionId(Snapshot(record, end), "M") == "D"
  {
    KeyOfM();
    AuthorizedByD(record, end);
    assert IndexOf("D", '/') == 1;
    assert Split("D", '/')[0] == "D";
    assert LStrip("D") == "D" && RStrip("D") == "D";
  }

  lemma MilestoneIsMarked(record: string, end: string)
    requires PlainName(record) && '\n' !in end
    ensures Marked(Snapshot(record, end), "M", "AUTHORIZED")
  {
    var lines := SnapshotLines(record, end);
    SnapshotLinesAre(record, end);
    assert lines[5] == "M" + ": " + ("AUTHORIZED" + "");
    MarkOnLine(Snapshot(record, end), lines, 5, "M", "AUTHORIZED", "");
  }

  /** The one-line decision text binds D and names c0. */
  lemma DecisionBinds()
    ensures Binds(DECISION, "D", "c0")
  {
    DecisionText();
    OneLineMark(DECISION, "D", "RESOLVED / BINDING", " c0");
    DecisionNamesBoundary();
    BindsFrom(DECISION, "D", "c0");
  }

  lemma DecisionText()
    ensures DECISION == "D" + ": " + ("RESOLVED / BINDING" + " c0") && '\n' !in DECISION
  {
  }

  lemma OneLineMark(text: string, key: string, phrase: string, rest: string)
    requires text == key + ": " + (phrase + rest) && '\n' !in text
    requires phrase != "" && !IsSpace(phrase[0]) && (rest == "" || !IsWordChar(rest[0]))
    ensures Marked(text, key, phrase)
  {
    OneLine(text);
    MarkOnLine(text, [text], 0, key, phrase, rest);
  }

  lemma BindsFrom(decision: string, id: string, boundary: string)
    requires decision != "" && Marked(decision, id, "RESOLVED / BINDING") && Contains(decision, boundary)
    ensures Binds(decision, id, boundary)
  {
  }

  lemma OneLine(s: string)
    requires '\n' !in s
    ensures Lines(s) == [s]
  {
    SplitJoin([s], '\n');
  }

  lemma DecisionNamesBoundary()
    ensures DECISION != "" && Contains(DECISION, "c0")
  {
    assert OccursAt(DECISION, "c0", 22);
  }

  /** So does the snapshot itself, whose last line is the decision. */
  lemma SnapshotBinds(record: string, end: string)
    requires PlainName(record) && '\n' !in end
    ensures Binds(Snapshot(record, end), "D", "c0")
  {
    var lines := SnapshotLines(record, end);
    SnapshotLinesAre(record, end);
    assert lines[7] == "D" + ": " + ("RESOLVED / BINDING" + " c0");
    MarkOnLine(Snapshot(record, end), lines, 7, "D", "RESOLVED / BINDING", " c0");
    SnapshotHasBoundary(record, end);
  }

  lemma SnapshotHasBoundary(record: string, end: string)
    ensures Snapshot(record, end) != "" && Contains(Snapshot(record, end), "c0")
  {
    var lines := SnapshotLines(record, end);
    var tail := Join(lines[2..], "\n");
    var second := lines[1] + "\n" + tail;
    assert lines[1..][1..] == lines[2..];
    assert Join(lines[1..], "\n") == second;
    assert Snapshot(record, end) == lines[0] + "\n" + second;
    assert OccursAt(lines[1], "c0", 30);
    var at := |lines[0]| + 1;
    assert Snapshot(record, end)[at..at + |lines[1]|] == lines[1];
    ContainsWithin(lines[1], Snapshot(record, end), "c0", at);
  }

  lemma SnapshotNames(record: string, end: string, decision: string)
    requires PlainName(record) && '\n' !in end && Binds(decision, "D", "c0")
    ensures SuccessorIn(Snapshot(record, end), decision) == Some(Successor("M", "c0"))
  {
    MilestoneIsM(record, end);
    BoundaryIsC0(record, end);
    RecordIsNamed(record, end);
    KeyOfM();
    MilestoneIsMarked(record, end);
    DecisionIsD(record, end);
    SnapshotHasBoundary(record, end);
  }

  /** A snapshot that names itself as the decision record, in any spelling of its path, authorizes a
      successor with no other file present. */
  lemma SnapshotCanStandAlone(record: string)
    requires PlainName(record) && Canonical(record) == SUPERSESSION_RECORD
    ensures NamedSuccessor(map[SUPERSESSION_RECORD := Snapshot(record, END_C1)]) == Some(Successor("M", "c0"))
  {
    var records := map[SUPERSESSION_RECORD := Snapshot(record, END_C1)];
    RecordIsNamed(record, END_C1);
    SnapshotBinds(record, END_C1);
    SnapshotNames(record, END_C1, Snapshot(record, END_C1));
    NamedFrom(records, Snapshot(record, END_C1), record, Some(Successor("M", "c0")));
  }

  /** Two spellings that do. */
  lemma SelfNamingSpellings()
    ensures PlainName(SUPERSESSION_RECORD) && Canonical(SUPERSESSION_RECORD) == SUPERSESSION_RECORD
    ensures PlainName("./" + SUPERSESSION_RECORD) && Canonical("./" + SUPERSESSION_RECORD) == SUPERSESSION_RECORD
  {
    SnapshotPathIsCanonical();
    SnapshotPathIsPlain();
    DotSlash(SUPERSESSION_RECORD);
  }

  lemma SnapshotPathIsPlain()
    ensures PlainName(SUPERSESSION_RECORD) && SUPERSESSION_RECORD[0] == 'd'
  {
  }

  // ---------------------------------------------------------------------------------------------
  // A history in which line ends change after the review
  // ---------------------------------------------------------------------------------------------

  const REVIEWED: Bytes := [Char('x'), Char('\n'), Bad(0xff)]
  const EDITED: Bytes := [Char('x'), Char('\r'), Char('\n'), Bad(0xfe)]

  const COMMITS: seq<Commit> := [
    Commit("c0", {}, map["p" := [Char('o')]]),
    Commit("c1", {0}, map["p" := REVIEWED]),
    Commit("c2", {1}, map["p" := EDITED])
  ]

  /** The repository at c2, with the decision in a file of its own. */
  function ReviewedWorld(record: string): World {
    World(Repo(COMMITS, 2), map[SUPERSESSION_RECORD := Snapshot(record, END_C1), Canonical(record) := DECISION])
  }

  lemma IdsResolve()
    ensures var r := Repo(COMMITS, 2);
            ValidRepo(r) && Resolve(r, "c0") == Some(0) && Resolve(r, "c1") == Some(1)
  {
    var r := Repo(COMMITS, 2);
    assert COMMITS[0].id == "c0" && COMMITS[1].id == "c1" && COMMITS[2].id == "c2";
    assert "c0"[1] != "c1"[1] && "c1"[1] != "c2"[1] && "c0"[1] != "c2"[1];
    var a, b := FindId(COMMITS, "c0"), FindId(COMMITS, "c1");
  }

  lemma ChainOfThree()
    ensures Ancestor(COMMITS, 0, 1) && Ancestor(COMMITS, 1, 2) && Ancestor(COMMITS, 0, 2)
  {
    assert Ancestor(COMMITS, 0, 0) && Ancestor(COMMITS, 1, 1);
    assert 0 in COMMITS[1].parents && 1 in COMMITS[2].parents;
    AncestorTransitive(COMMITS, 0, 1, 2);
  }

  lemma NamedFrom(records: Store, snapshot: string, record: string, s: Option<Successor>)
    requires FileAt(records, SUPERSESSION_RECORD) == snapshot
    requires Field(snapshot, AUTHORIZATION_RECORD_FIELD) == record
    requires SuccessorIn(snapshot, ReadRecord(records, record)) == s
    ensures NamedSuccessor(records) == s
  {
  }

  lemma AuthorizedFrom(w: World, s: Successor)
    requires NamedSuccessor(w.records) == Some(s) && IsAncestor(w.repo, s.boundary, "HEAD")
    ensures AuthorizedSuccessor(w) == Some(s)
  {
  }

  lemma EndFrom(w: World, s: Successor, end: string)
    requires AuthorizedSuccessor(w) == Some(s)
    requires IsAncestor(w.repo, s.boundary, end) && IsAncestor(w.repo, end, "HEAD")
    requires Field(FileAt(w.records, SUPERSESSION_RECORD), CHANGESET_END_FIELD) == end
    ensures ChangesetEnd(w) == end
  {
  }

  lemma ReviewedRecords(records: Store, record: string)
    requires PlainName(record) && Canonical(record) != SUPERSESSION_RECORD
    requires records == map[SUPERSESSION_RECORD := Snapshot(record, END_C1), Canonical(record) := DECISION]
    ensures NamedSuccessor(records) == Some(Successor("M", "c0"))
    ensures Field(FileAt(records, SUPERSESSION_RECORD), CHANGESET_END_FIELD) == "c1"
  {
    AuthorizingRecords(records, record, END_C1);
    EndIsC1(record);
  }

  lemma AuthorizingRecords(records: Store, record: string, end: string)
    requires PlainName(record) && '\n' !in end && Canonical(record) != SUPERSESSION_RECORD
    requires records == map[SUPERSESSION_RECORD := Snapshot(record, end), Canonical(record) := DECISION]
    ensures NamedSuccessor(records) == Some(Successor("M", "c0"))
    ensures FileAt(records, SUPERSESSION_RECORD) == Snapshot(record, end)
  {
    assert FileAt(records, SUPERSESSION_RECORD) == Snapshot(record, end);
    assert ReadRecord(records, record) == DECISION;
    RecordIsNamed(record, end);
    DecisionBinds();
    SnapshotNames(record, end, DECISION);
    NamedFrom(records, Snapshot(record, end), record, Some(Successor("M", "c0")));
  }

  lemma ReviewedAncestry(r: Repo)
    requires r == Repo(COMMITS, 2)
    ensures IsAncestor(r, "c0", "HEAD") && IsAncestor(r, "c0", "c1") && IsAncestor(r, "c1", "HEAD")
  {
    IdsResolve();
    ChainOfThree();
  }

  lemma ReviewedEndFrom(w: World, s: Successor, end: string)
    requires NamedSuccessor(w.records) == Some(s)
    requires IsAncestor(w.repo, s.boundary, "HEAD") && IsAncestor(w.repo, s.boundary, end) && IsAncestor(w.repo, end, "HEAD")
    requires Field(FileAt(w.records, SUPERSESSION_RECORD), CHANGESET_END_FIELD) == end
    ensures ChangesetEnd(w) == end
  {
    AuthorizedFrom(w, s);
    EndFrom(w, s, end);
  }

  lemma ReviewedEnd(w: World, record: string)
    requires PlainName(record) && Canonical(record) != SUPERSESSION_RECORD && w == ReviewedWorld(record)
    ensures ChangesetEnd(w) == "c1"
  {
    ReviewedRecords(w.records, record);
    ReviewedAncestry(w.repo);
    ReviewedEndFrom(w, Successor("M", "c0"), "c1");
  }

  /** In this history the window of baseline c0 is closed, short of HEAD. */
  lemma ReviewedWindowIsClosed(record: string)
    requires PlainName(record) && Canonical(record) != SUPERSESSION_RECORD
    ensures ValidRepo(ReviewedWorld(record).repo) && WindowEnd(ReviewedWorld(record), "c0") == "c0"
  {
    var w := ReviewedWorld(record);
    ReviewedRecords(w.records, record);
    ReviewedAncestry(w.repo);
    IdsResolve();
    AuthorizedFrom(w, Successor("M", "c0"));
    assert Ancestor(COMMITS, 0, 0);
    ClosedAt(w, Successor("M", "c0"), "c0");
  }

  lemma EditLooksReviewed()
    ensures EDITED != REVIEWED && EDITED != [Char('o')] && LooksAlike(EDITED, REVIEWED)
  {
    var a, b := EDITED, REVIEWED;
    assert |a| == 4 && |b| == 3;
    assert a[1..] == [Char('\r'), Char('\n'), Bad(0xfe)] && b[1..] == [Char('\n'), Bad(0xff)];
    assert a[1..][2..] == [Bad(0xfe)] && b[1..][1..] == [Bad(0xff)];
    assert LooksAlike([Bad(0xfe)], [Bad(0xff)]);
    assert LooksAlike(a[1..], b[1..]);
  }

  /** The content at HEAD is neither the baseline's nor the reviewed one, byte for byte: a line end
      and an undecodable byte have changed. The live guard does not report it. */
  lemma LineEndEditIsNotReported(record: string)
    requires PlainName(record) && Canonical(record) != SUPERSESSION_RECORD
    ensures var w := ReviewedWorld(record);
            ValidRepo(w.repo) && ChangesetEnd(w) == "c1"
            && w.repo.commits[2].tree["p"] != w.repo.commits[0].tree["p"]
            && w.repo.commits[2].tree["p"] != w.repo.commits[1].tree["p"]
            && "p" !in LiveGuardPaths(w, "c0")
  {
    var w := ReviewedWorld(record);
    ReviewedEnd(w, record);
    IdsResolve();
    EditLooksReviewed();
    LiveGuardExact(w, "c0", "p");
    DecodesAlike(EDITED, REVIEWED);
    assert TreeOf(w.repo, "HEAD") == Some(COMMITS[2].tree) && TreeOf(w.repo, "c1") == Some(COMMITS[1].tree);
  }

  // ---------------------------------------------------------------------------------------------
  // An edit that looks like a withdrawal and is not
  // ---------------------------------------------------------------------------------------------

  function RecordsWithEnd(record: string, end: string): Store {
    map[SUPERSESSION_RECORD := Snapshot(record, end), Canonical(record) := DECISION]
  }

  lemma ExemptionIs(records: Store, s: Successor, end: string)
    requires NamedSuccessor(records) == Some(s) && RecordedEnd(records) == end && end != ""
    ensures Exempt(records) == Some(Exemption(s.boundary, end))
  {
  }

  lemma CommitNamesDiffer()
    ensures NamesCommits(Exemption("c0", "c1")) && NamesCommits(Exemption("c0", "c2"))
    ensures !Narrows(Some(Exemption("c0", "c1")), Some(Exemption("c0", "c2")))
  {
    assert |"c0"| == 2 && |"c1"| == 2 && |"c2"| == 2 && |"HEAD"| == 4;
    assert "c1"[1] != "c2"[1];
  }

  /** Blanking the changeset end above a bare commit id moves the exemption to that commit instead of
      withdrawing it, and in some repository a reported path disappears. */
  lemma BlankingMovesExemption(record: string) returns (r: Repo, baseline: string)
    requires PlainName(record) && Canonical(record) != SUPERSESSION_RECORD
    ensures Exempt(RecordsWithEnd(record, END_C1)) == Some(Exemption("c0", "c1"))
    ensures Exempt(RecordsWithEnd(record, "")) == Some(Exemption("c0", "c2"))
    ensures ValidRepo(r)
    ensures !(LiveGuardPaths(World(r, RecordsWithEnd(record, END_C1)), baseline)
              <= LiveGuardPaths(World(r, RecordsWithEnd(record, "")), baseline))
  {
    var before, blanked := RecordsWithEnd(record, END_C1), RecordsWithEnd(record, "");
    AuthorizingRecords(before, record, END_C1);
    AuthorizingRecords(blanked, record, "");
    EndIsC1(record);
    BlankedEndIsC2(record);
    ExemptionIs(before, Successor("M", "c0"), "c1");
    ExemptionIs(blanked, Successor("M", "c0"), "c2");
    CommitNamesDiffer();
    r, baseline := HidingRepo(before, blanked);
  }
}
