/**
 Where a stage's rejection window ends, and what a live guard must still report, over every
 history and every state of the governance records.
 */
module SuccessorLifecycle {
  import opened Wrappers
  import opened Text
  import opened CommitGraph
  import opened Records

  const SUPERSESSION_RECORD: string := "docs" + "/" + ("governance" + "/" + "AI_AGENTS_PM_STATE.md")
  const AUTHORIZATION_RECORD_FIELD: string := "SUCCESSOR_AUTHORIZATION_RECORD"
  const MILESTONE_FIELD: string := "SUCCESSOR_IMPLEMENTATION_MILESTONE"
  const BOUNDARY_FIELD: string := "SUCCESSOR_LIFECYCLE_BOUNDARY"
  const CHANGESET_END_FIELD: string := "SUCCESSOR_AUTHORIZED_CHANGESET_END"

  /** The repository and, separately, the records in the working tree. */
  datatype World = World(repo: Repo, records: Store)

  datatype Successor = Successor(milestone: string, boundary: string)

  // ---------------------------------------------------------------------------------------------
  // Who is authorized
  // ---------------------------------------------------------------------------------------------

  function MilestoneKey(milestone: string): string { Upper(ReplaceChar(milestone, '-', "_")) }

  function DecisionId(snapshot: string, milestone: string): string {
    Strip(Split(Field(snapshot, MilestoneKey(milestone) + "_AUTHORIZED_BY"), '/')[0])
  }

  /** The decision text is binding and names the same boundary. */
  predicate Binds(decision: string, id: string, boundary: string) {
    decision != "" && Marked(decision, id, "RESOLVED / BINDING") && Contains(decision, boundary)
  }

  /** The successor a snapshot names, given the text of the decision record it points to. */
  function SuccessorIn(snapshot: string, decision: string): Option<Successor> {
    var milestone := Field(snapshot, MILESTONE_FIELD);
    var boundary := Field(snapshot, BOUNDARY_FIELD);
    if snapshot == "" || milestone == "" || boundary == "" || Field(snapshot, AUTHORIZATION_RECORD_FIELD) == ""
    then None
    else if !Marked(snapshot, MilestoneKey(milestone), "AUTHORIZED") then None
    else
      var id := DecisionId(snapshot, milestone);
      if id != "" && Binds(decision, id, boundary) then Some(Successor(milestone, boundary)) else None
  }

  /** The successor the records name, as far as the records alone decide it. */
  function NamedSuccessor(records: Store): Option<Successor> {
    var snapshot := FileAt(records, SUPERSESSION_RECORD);
    SuccessorIn(snapshot, ReadRecord(records, Field(snapshot, AUTHORIZATION_RECORD_FIELD)))
  }

  /** A named successor counts when its boundary is a commit in the history of HEAD. */
  function Authorize(r: Repo, named: Option<Successor>): Option<Successor> {
    if named.Some? && IsCommit(r, named.value.boundary) && IsAncestor(r, named.value.boundary, "HEAD")
    then named else None
  }

  function AuthorizedSuccessor(w: World): Option<Successor> { Authorize(w.repo, NamedSuccessor(w.records)) }

  function WindowFor(r: Repo, authorized: Option<Successor>, baseline: string): string {
    match authorized
    case None => "HEAD"
    case Some(s) => if baseline != "" && !IsAncestor(r, baseline, s.boundary) then "HEAD" else s.boundary
  }

  /** `window_end`: a commit id, or "HEAD" while the window is open. */
  function WindowEnd(w: World, baseline: string): string {
    WindowFor(w.repo, AuthorizedSuccessor(w), baseline)
  }

  function TreeOf(r: Repo, rev: string): Option<Tree> {
    match Resolve(r, rev)
    case Some(i) => if i < |r.commits| then Some(r.commits[i].tree) else None
    case None => None
  }

  /** `git diff --name-only a b`; nothing when a name does not resolve. */
  function DiffBetween(r: Repo, a: string, b: string): set<string> {
    match (TreeOf(r, a), TreeOf(r, b))
    case (Some(t), Some(u)) => Diff(t, u)
    case _ => {}
  }

  function ChangedPaths(w: World, baseline: string): set<string> {
    DiffBetween(w.repo, baseline, WindowEnd(w, baseline))
  }

  /** `git diff --name-only a...b`: from a merge base of the two to `b`. */
  ghost predicate ThreeDotDiff(r: Repo, a: string, b: string, paths: set<string>) {
    Resolve(r, a).Some? && Resolve(r, b).Some? &&
    exists m: nat :: m < |r.commits| && MergeBase(r.commits, Resolve(r, a).value, Resolve(r, b).value, m)
      && TreeOf(r, b).Some? && paths == Diff(r.commits[m].tree, TreeOf(r, b).value)
  }

  /** Every window of a stage whose baseline is in the history ends between baseline and HEAD. */
  lemma WindowEndIsBetween(w: World, baseline: string)
    requires ValidRepo(w.repo) && IsAncestor(w.repo, baseline, "HEAD")
    ensures IsAncestor(w.repo, baseline, WindowEnd(w, baseline))
    ensures IsAncestor(w.repo, WindowEnd(w, baseline), "HEAD")
  {
    AncestorIsEarlier(w.repo.commits, Resolve(w.repo, baseline).value, w.repo.head);
  }

  /** The three-dot range of a guard and the two-endpoint diff report the same paths. */
  lemma RejectionRangeIsChangedPaths(w: World, baseline: string, paths: set<string>)
    requires ValidRepo(w.repo) && IsAncestor(w.repo, baseline, "HEAD")
    ensures ThreeDotDiff(w.repo, baseline, WindowEnd(w, baseline), paths) <==> paths == ChangedPaths(w, baseline)
  {
    WindowEndIsBetween(w, baseline);
    var end := WindowEnd(w, baseline);
    var a, b := Resolve(w.repo, baseline).value, Resolve(w.repo, end).value;
    AncestorIsEarlier(w.repo.commits, a, b);
    assert b < |w.repo.commits| by { AncestorIsEarlier(w.repo.commits, b, w.repo.head); }
    forall m: nat ensures MergeBase(w.repo.commits, a, b, m) <==> m == a {
      MergeBaseOfAncestor(w.repo.commits, a, b, m);
    }
  }

  // ---------------------------------------------------------------------------------------------
  // Histories
  // ---------------------------------------------------------------------------------------------

  datatype Change =
    | AddCommit(commit: Commit)
    | Advance(to: nat)
    | EditRecord(path: string, text: string)
    | RemoveRecord(path: string)

  predicate TouchesRecords(c: Change) { c.EditRecord? || c.RemoveRecord? }

  /** Commits are only added, under new ids; HEAD only moves to a descendant. */
  function Apply(w: World, c: Change): Option<World> {
    match c
    case AddCommit(commit) =>
      if commit.id != "" && commit.id != "HEAD" && FindId(w.repo.commits, commit.id).None?
      then Some(w.(repo := w.repo.(commits := w.repo.commits + [commit]))) else None
    case Advance(to) =>
      if Ancestor(w.repo.commits, w.repo.head, to) then Some(w.(repo := w.repo.(head := to))) else None
    case EditRecord(path, text) => Some(w.(records := w.records[path := text]))
    case RemoveRecord(path) => Some(w.(records := w.records - {path}))
  }

  function History(w: World, changes: seq<Change>): Option<World>
    decreases |changes|
  {
    if changes == [] then Some(w)
    else match Apply(w, changes[0])
      case None => None
      case Some(w') => History(w', changes[1..])
  }

  lemma ApplyGrows(w: World, c: Change)
    requires ValidRepo(w.repo) && Apply(w, c).Some?
    ensures ValidRepo(Apply(w, c).value.repo) && Grows(w.repo, Apply(w, c).value.repo)
    ensures !TouchesRecords(c) ==> Apply(w, c).value.records == w.records
  {
    var w' := Apply(w, c).value;
    if c.Advance? { AncestorIsEarlier(w.repo.commits, w.repo.head, c.to); }
    assert Ancestor(w'.repo.commits, w.repo.head, w.repo.head);
  }

  lemma GrowsTransitive(a: Repo, b: Repo, c: Repo)
    requires ValidRepo(a) && Grows(a, b) && Grows(b, c) && ValidRepo(b)
    ensures Grows(a, c)
  {
    AncestorStable(b.commits, c.commits, a.head, b.head);
    AncestorTransitive(c.commits, a.head, b.head, c.head);
  }

  lemma {:induction false} HistoryGrows(w: World, changes: seq<Change>)
    requires ValidRepo(w.repo) && History(w, changes).Some?
    ensures var w' := History(w, changes).value;
            ValidRepo(w'.repo) && Grows(w.repo, w'.repo)
            && ((forall c :: c in changes ==> !TouchesRecords(c)) ==> w'.records == w.records)
    decreases |changes|
  {
    if changes != [] {
      ApplyGrows(w, changes[0]);
      var next := Apply(w, changes[0]).value;
      HistoryGrows(next, changes[1..]);
      GrowsTransitive(w.repo, next.repo, History(w, changes).value.repo);
      assert changes[0] in changes && forall c :: c in changes[1..] ==> c in changes;
    }
  }

  // ---------------------------------------------------------------------------------------------
  // Closed windows
  // ---------------------------------------------------------------------------------------------

  lemma TreeStable(r: Repo, r': Repo, rev: string)
    requires ValidRepo(r) && ValidRepo(r') && Grows(r, r') && rev != "HEAD" && Resolve(r, rev).Some?
    ensures TreeOf(r', rev) == TreeOf(r, rev) && TreeOf(r, rev).Some?
  {
    ResolveStable(r, r', rev);
    var i := Resolve(r, rev).value;
    assert r'.commits[i] == r.commits[i];
  }

  lemma SuccessorStable(w: World, w': World)
    requires ValidRepo(w.repo) && ValidRepo(w'.repo) && Grows(w.repo, w'.repo) && w'.records == w.records
    requires AuthorizedSuccessor(w).Some? && AuthorizedSuccessor(w).value.boundary != "HEAD"
    ensures AuthorizedSuccessor(w') == AuthorizedSuccessor(w)
  {
    var b := AuthorizedSuccessor(w).value.boundary;
    ResolveStable(w.repo, w'.repo, b);
    IsAncestorStable(w.repo, w'.repo, b, "HEAD");
  }

  /** Once a window is closed it stays closed at the same commit, and its changed paths stay the
      same, for every later history that leaves the records alone. */
  lemma ClosedWindowIsFinal(w: World, changes: seq<Change>, baseline: string)
    requires ValidRepo(w.repo) && History(w, changes).Some?
    requires forall c :: c in changes ==> !TouchesRecords(c)
    requires baseline != "HEAD" && WindowEnd(w, baseline) != "HEAD"
    ensures WindowEnd(History(w, changes).value, baseline) == WindowEnd(w, baseline)
    ensures ChangedPaths(History(w, changes).value, baseline) == ChangedPaths(w, baseline)
  {
    HistoryGrows(w, changes);
    ClosedWindowStable(w, History(w, changes).value, baseline);
  }

  lemma ClosedWindowStable(w: World, w': World, baseline: string)
    requires ValidRepo(w.repo) && ValidRepo(w'.repo) && Grows(w.repo, w'.repo) && w'.records == w.records
    requires baseline != "HEAD" && WindowEnd(w, baseline) != "HEAD"
    ensures WindowEnd(w', baseline) == WindowEnd(w, baseline)
    ensures ChangedPaths(w', baseline) == ChangedPaths(w, baseline)
  {
    var end := WindowEnd(w, baseline);
    SuccessorStable(w, w');
    ClosedEndIs(w, baseline);
    if baseline != "" { IsAncestorStable(w.repo, w'.repo, baseline, end); }
    ClosedAt(w', AuthorizedSuccessor(w).value, baseline);
    if baseline != "" {
      DiffStable(w.repo, w'.repo, baseline, end);
    } else {
      NoDiffFromNothing(w.repo, end);
      NoDiffFromNothing(w'.repo, end);
    }
  }

  lemma ClosedEndIs(w: World, baseline: string)
    requires WindowEnd(w, baseline) != "HEAD"
    ensures AuthorizedSuccessor(w).Some? && WindowEnd(w, baseline) == AuthorizedSuccessor(w).value.boundary
    ensures baseline != "" ==> IsAncestor(w.repo, baseline, WindowEnd(w, baseline))
    ensures Resolve(w.repo, WindowEnd(w, baseline)).Some?
  {
  }

  lemma ClosedAt(w: World, s: Successor, baseline: string)
    requires AuthorizedSuccessor(w) == Some(s) && (baseline == "" || IsAncestor(w.repo, baseline, s.boundary))
    ensures WindowEnd(w, baseline) == s.boundary
  {
  }

  lemma NoDiffFromNothing(r: Repo, b: string)
    requires ValidRepo(r)
    ensures DiffBetween(r, "", b) == {}
  {
    assert FindId(r.commits, "").None?;
  }

  /** An open window follows HEAD: a path that differs from the baseline at HEAD is reported. */
  lemma OpenWindowSeesHead(w: World, baseline: string, p: string)
    requires ValidRepo(w.repo) && WindowEnd(w, baseline) == "HEAD" && TreeOf(w.repo, baseline).Some?
    ensures p in ChangedPaths(w, baseline) <==>
            Blob(TreeOf(w.repo, baseline).value, p) != Blob(w.repo.commits[w.repo.head].tree, p)
  {
  }

  /** The records open no window by themselves: a snapshot whose authorization record is another
      file is powerless without that file, and one that names itself, however the path is spelled,
      needs no other. */
  lemma SnapshotAloneExactlyWhen(records: Store)
    requires NamedSuccessor(records).Some?
    ensures var snapshot := FileAt(records, SUPERSESSION_RECORD);
            NamedSuccessor(map[SUPERSESSION_RECORD := snapshot]).Some?
            <==> Canonical(Field(snapshot, AUTHORIZATION_RECORD_FIELD)) == SUPERSESSION_RECORD
  {
    var snapshot := FileAt(records, SUPERSESSION_RECORD);
    EmptyDecisionBindsNothing(snapshot);
    OneRecordAlone(SuccessorIn, records, SUPERSESSION_RECORD, Canonical(Field(snapshot, AUTHORIZATION_RECORD_FIELD)));
    assert FileAt(map[SUPERSESSION_RECORD := snapshot], SUPERSESSION_RECORD) == snapshot;
  }

  lemma OneRecordAlone(named: (string, string) -> Option<Successor>, records: Store, key: string, record: string)
    requires named(FileAt(records, key), "").None?
    requires named(FileAt(records, key), FileAt(records, record)).Some?
    ensures var snapshot := FileAt(records, key);
            named(snapshot, FileAt(map[key := snapshot], record)).Some? <==> record == key
  {
  }

  /** The snapshot's own path is spelled canonically. */
  lemma SnapshotPathIsCanonical()
    ensures Canonical(SUPERSESSION_RECORD) == SUPERSESSION_RECORD
  {
    SnapshotDirectory();
    SnapshotFile();
    ThreeParts("docs", "governance", "AI_AGENTS_PM_STATE.md");
  }

  predicate PathPart(s: string) { '/' !in s && s != "" && s != "." }

  lemma SnapshotDirectory()
    ensures PathPart("docs") && PathPart("governance")
  {
  }

  lemma SnapshotFile()
    ensures PathPart("AI_AGENTS_PM_STATE.md")
  {
  }

  lemma ThreeParts(a: string, b: string, c: string)
    requires PathPart(a) && PathPart(b) && PathPart(c)
    ensures var path := a + "/" + (b + "/" + c); Canonical(path) == path
  {
    var parts := [a, b, c];
    assert parts[1..] == [b, c] && [b, c][1..] == [c];
    assert Join([b, c], "/") == b + "/" + Join([c], "/");
    CanonicalOf(parts);
  }

  lemma EmptyDecisionBindsNothing(snapshot: string)
    ensures SuccessorIn(snapshot, "").None?
  {
  }

  // ---------------------------------------------------------------------------------------------
  // AT-M1's own window
  // ---------------------------------------------------------------------------------------------

  const AT_M1_BASELINE: string := "fa5e5c4e6712fbbc59bf18d2ee33421c28f9b009"
  const AT_M1_STAGE_HEAD: string := "c80350ecc19e28212d9a95cddeb80a24aabe6eae"
  const AT_M1_SUPERSESSION_COMMIT: string := "192ebb74ba600f7a53ddf5967a7254a1f7a72fb8"

  /** The snapshot records the supersession, the boundary and the successor's authorization. */
  predicate SupersessionRecorded(snapshot: string, supersession: string) {
    snapshot != ""
    && MarkedAnywhere(snapshot, "AT_M1_LIFECYCLE", "SUPERSEDED BY AT-M2")
    && MarkedAnywhere(snapshot, "AT_M1_SUPERSESSION_COMMIT", supersession)
    && MarkedAnywhere(snapshot, "AT_M2", "AUTHORIZED")
  }

  /** Where the window ends, for any stage head and supersession commit. */
  function AtM1WindowEnd(w: World, stageHead: string, supersession: string): string {
    if SupersessionRecorded(FileAt(w.records, SUPERSESSION_RECORD), supersession)
       && IsCommit(w.repo, supersession)
       && IsAncestor(w.repo, supersession, "HEAD")
       && IsAncestor(w.repo, stageHead, supersession)
    then supersession else "HEAD"
  }

  /** The (from, to) of `at_m1_rejection_window`. */
  function AtM1RejectionWindow(w: World): (string, string) {
    (AT_M1_BASELINE, AtM1WindowEnd(w, AT_M1_STAGE_HEAD, AT_M1_SUPERSESSION_COMMIT))
  }

  /** The pinned window ends between the pinned baseline and HEAD. */
  lemma AtM1PinnedWindowIsBetween(w: World)
    requires ValidRepo(w.repo) && IsAncestor(w.repo, AT_M1_BASELINE, AT_M1_STAGE_HEAD)
    requires IsAncestor(w.repo, AT_M1_STAGE_HEAD, "HEAD")
    ensures var (from, to) := AtM1RejectionWindow(w);
            IsAncestor(w.repo, from, to) && IsAncestor(w.repo, to, "HEAD")
  {
    AtM1WindowIsBetween(w, AT_M1_BASELINE, AT_M1_STAGE_HEAD, AT_M1_SUPERSESSION_COMMIT);
  }

  lemma PinnedNamesAreCommits()
    ensures AT_M1_BASELINE != "HEAD" && AT_M1_STAGE_HEAD != "HEAD"
  {
    assert |AT_M1_BASELINE| == 40 && |AT_M1_STAGE_HEAD| == 40;
  }

  /** Once closed, the pinned window and its diff are the same after every later history. */
  lemma AtM1PinnedWindowIsFinal(w: World, changes: seq<Change>)
    requires ValidRepo(w.repo) && History(w, changes).Some?
    requires forall c :: c in changes ==> !TouchesRecords(c)
    requires Resolve(w.repo, AT_M1_BASELINE).Some? && AtM1RejectionWindow(w).1 != "HEAD"
    ensures var w' := History(w, changes).value;
            var (from, to) := AtM1RejectionWindow(w);
            AtM1RejectionWindow(w') == (from, to) && DiffBetween(w'.repo, from, to) == DiffBetween(w.repo, from, to)
  {
    PinnedNamesAreCommits();
    AtM1ClosedWindowIsFinal(w, changes, AT_M1_BASELINE, AT_M1_STAGE_HEAD, AT_M1_SUPERSESSION_COMMIT);
  }

  lemma AtM1WindowIsBetween(w: World, baseline: string, stageHead: string, supersession: string)
    requires ValidRepo(w.repo) && IsAncestor(w.repo, baseline, stageHead)
    requires IsAncestor(w.repo, stageHead, "HEAD")
    ensures IsAncestor(w.repo, baseline, AtM1WindowEnd(w, stageHead, supersession))
    ensures IsAncestor(w.repo, AtM1WindowEnd(w, stageHead, supersession), "HEAD")
  {
    var r := w.repo;
    var a, b := Resolve(r, baseline).value, Resolve(r, stageHead).value;
    AncestorIsEarlier(r.commits, b, r.head);
    AncestorTransitive(r.commits, a, b, r.head);
    if AtM1WindowEnd(w, stageHead, supersession) == supersession && supersession != "HEAD" {
      AncestorTransitive(r.commits, a, b, Resolve(r, supersession).value);
    }
  }

  lemma AtM1ClosedWindowIsFinal(w: World, changes: seq<Change>, baseline: string, stageHead: string, supersession: string)
    requires ValidRepo(w.repo) && History(w, changes).Some?
    requires forall c :: c in changes ==> !TouchesRecords(c)
    requires stageHead != "HEAD" && baseline != "HEAD" && Resolve(w.repo, baseline).Some?
    requires AtM1WindowEnd(w, stageHead, supersession) != "HEAD"
    ensures var w' := History(w, changes).value;
            AtM1WindowEnd(w', stageHead, supersession) == supersession
            && DiffBetween(w'.repo, baseline, supersession) == DiffBetween(w.repo, baseline, supersession)
  {
    HistoryGrows(w, changes);
    var w' := History(w, changes).value;
    AtM1WindowStable(w, w', stageHead, supersession);
    DiffStable(w.repo, w'.repo, baseline, supersession);
  }

  lemma AtM1WindowStable(w: World, w': World, stageHead: string, supersession: string)
    requires ValidRepo(w.repo) && ValidRepo(w'.repo) && Grows(w.repo, w'.repo) && w'.records == w.records
    requires stageHead != "HEAD" && AtM1WindowEnd(w, stageHead, supersession) != "HEAD"
    ensures AtM1WindowEnd(w', stageHead, supersession) == supersession
    ensures supersession != "HEAD" && Resolve(w.repo, supersession).Some?
  {
    ResolveStable(w.repo, w'.repo, supersession);
    IsAncestorStable(w.repo, w'.repo, supersession, "HEAD");
    IsAncestorStable(w.repo, w'.repo, stageHead, supersession);
  }

  lemma DiffStable(r: Repo, r': Repo, a: string, b: string)
    requires ValidRepo(r) && ValidRepo(r') && Grows(r, r')
    requires a != "HEAD" && b != "HEAD" && Resolve(r, a).Some? && Resolve(r, b).Some?
    ensures DiffBetween(r', a, b) == DiffBetween(r, a, b)
  {
    TreeStable(r, r', a);
    TreeStable(r, r', b);
  }

  // ---------------------------------------------------------------------------------------------
  // Live guards
  // ---------------------------------------------------------------------------------------------

  function EndFor(r: Repo, authorized: Option<Successor>, end: string): string {
    match authorized
    case None => ""
    case Some(s) =>
      if end != "" && IsCommit(r, end) && IsAncestor(r, s.boundary, end) && IsAncestor(r, end, "HEAD")
      then end else ""
  }

  /** `authorized_changeset_end`, "" when nothing is exempt. */
  function ChangesetEnd(w: World): string {
    EndFor(w.repo, AuthorizedSuccessor(w), Field(FileAt(w.records, SUPERSESSION_RECORD), CHANGESET_END_FIELD))
  }

  const REPLACEMENT: char := '\U{FFFD}'

  /** The length of the line end a blob starts with: CRLF, a lone CR or LF; 0 without one. */
  function LineEnd(b: Bytes): (n: nat)
    ensures n <= |b|
  {
    if |b| > 1 && b[0] == Char('\r') && b[1] == Char('\n') then 2
    else if b != [] && (b[0] == Char('\r') || b[0] == Char('\n')) then 1
    else 0
  }

  function Shows(u: Unit): char { match u case Char(c) => c case Bad(_) => REPLACEMENT }

  /** Text-mode decoding of a blob: every line end reads as LF, and what is not UTF-8 as the
      replacement character. */
  function Decode(b: Bytes): string
    decreases |b|
  {
    if b == [] then ""
    else if LineEnd(b) > 0 then "\n" + Decode(b[LineEnd(b)..])
    else [Shows(b[0])] + Decode(b[1..])
  }

  /** `_blob`: what `git show` prints, decoded, or nothing when the path is absent. */
  function Shown(t: Tree, p: string): Option<string> {
    match Blob(t, p) case None => None case Some(s) => Some(Decode(s))
  }

  function GuardPaths(r: Repo, baseline: string, end: string): set<string> {
    var changed := DiffBetween(r, baseline, "HEAD");
    if end == "" then changed
    else match (TreeOf(r, "HEAD"), TreeOf(r, end))
      case (Some(h), Some(e)) => set p | p in changed && Shown(h, p) != Shown(e, p)
      case _ => changed
  }

  function LiveGuardPaths(w: World, baseline: string): set<string> { GuardPaths(w.repo, baseline, ChangesetEnd(w)) }

  lemma EndForResolves(r: Repo, authorized: Option<Successor>, end: string)
    ensures EndFor(r, authorized, end) != "" ==> Resolve(r, EndFor(r, authorized, end)).Some?
  {
  }

  lemma EndResolves(w: World)
    ensures ChangesetEnd(w) != "" ==> Resolve(w.repo, ChangesetEnd(w)).Some?
  {
    EndForResolves(w.repo, AuthorizedSuccessor(w), Field(FileAt(w.records, SUPERSESSION_RECORD), CHANGESET_END_FIELD));
  }

  lemma TreeExists(r: Repo, rev: string)
    requires ValidRepo(r) && Resolve(r, rev).Some?
    ensures TreeOf(r, rev).Some?
  {
  }

  lemma GuardExact(r: Repo, baseline: string, end: string, p: string)
    requires TreeOf(r, baseline).Some? && TreeOf(r, "HEAD").Some? && (end != "" ==> TreeOf(r, end).Some?)
    ensures p in GuardPaths(r, baseline, end) <==>
            Blob(TreeOf(r, baseline).value, p) != Blob(TreeOf(r, "HEAD").value, p)
            && (end != "" ==> Shown(TreeOf(r, "HEAD").value, p) != Shown(TreeOf(r, end).value, p))
  {
  }

  /** A path is reported exactly when its content at HEAD differs from the baseline and, if a valid
      changeset end exists, its text at HEAD also differs from its text there. */
  lemma LiveGuardExact(w: World, baseline: string, p: string)
    requires ValidRepo(w.repo) && Resolve(w.repo, baseline).Some?
    ensures TreeOf(w.repo, baseline).Some? && TreeOf(w.repo, "HEAD").Some?
    ensures ChangesetEnd(w) != "" ==> TreeOf(w.repo, ChangesetEnd(w)).Some?
    ensures p in LiveGuardPaths(w, baseline) <==>
            Blob(TreeOf(w.repo, baseline).value, p) != Blob(TreeOf(w.repo, "HEAD").value, p)
            && (ChangesetEnd(w) != "" ==>
                  Shown(TreeOf(w.repo, "HEAD").value, p) != Shown(TreeOf(w.repo, ChangesetEnd(w)).value, p))
  {
    var end := ChangesetEnd(w);
    TreeExists(w.repo, baseline);
    TreeExists(w.repo, "HEAD");
    EndResolves(w);
    if end != "" { TreeExists(w.repo, end); }
    GuardExact(w.repo, baseline, end, p);
  }

  /** Without a changeset end the guard reports at least what it reports with one. */
  lemma NoEndReportsMost(w: World, w': World, baseline: string)
    requires w'.repo == w.repo && ChangesetEnd(w') == ""
    ensures LiveGuardPaths(w, baseline) <= LiveGuardPaths(w', baseline)
  {
  }

  lemma SameEndSamePaths(w: World, w': World, baseline: string)
    requires w'.repo == w.repo && ChangesetEnd(w') == ChangesetEnd(w)
    ensures LiveGuardPaths(w', baseline) == LiveGuardPaths(w, baseline)
  {
  }

  /** With the records left alone, the exempt content is frozen: after any later history the guard
      reports exactly what differs from the baseline and from the same changeset end. */
  lemma LiveGuardOverHistory(w: World, changes: seq<Change>, baseline: string, p: string)
    requires ValidRepo(w.repo) && History(w, changes).Some? && ChangesetEnd(w) != ""
    requires forall c :: c in changes ==> !TouchesRecords(c)
    requires ChangesetEnd(w) != "HEAD" && AuthorizedSuccessor(w).value.boundary != "HEAD"
    requires baseline != "HEAD" && Resolve(w.repo, baseline).Some?
    ensures var w' := History(w, changes).value;
            TreeOf(w'.repo, "HEAD").Some? && TreeOf(w.repo, baseline).Some? && TreeOf(w.repo, ChangesetEnd(w)).Some?
            && (p in LiveGuardPaths(w', baseline) <==>
                 Blob(TreeOf(w.repo, baseline).value, p) != Blob(TreeOf(w'.repo, "HEAD").value, p)
                 && Shown(TreeOf(w'.repo, "HEAD").value, p) != Shown(TreeOf(w.repo, ChangesetEnd(w)).value, p))
  {
    var w' := History(w, changes).value;
    var end, b := ChangesetEnd(w), AuthorizedSuccessor(w).value.boundary;
    HistoryGrows(w, changes);
    SuccessorStable(w, w');
    ResolveStable(w.repo, w'.repo, end);
    ResolveStable(w.repo, w'.repo, baseline);
    IsAncestorStable(w.repo, w'.repo, b, end);
    IsAncestorStable(w.repo, w'.repo, end, "HEAD");
    TreeStable(w.repo, w'.repo, baseline);
    TreeStable(w.repo, w'.repo, end);
    LiveGuardExact(w', baseline, p);
  }

  // ---------------------------------------------------------------------------------------------
  // Byte-identical or only text-identical
  // ---------------------------------------------------------------------------------------------

  /** Not told apart once decoded. */
  predicate Alike(u: Unit, v: Unit) { Shows(u) == Shows(v) }

  /** The same up to line ends and undecodable bytes. */
  predicate LooksAlike(a: Bytes, b: Bytes)
    decreases |a|
  {
    if a == [] || b == [] then a == b
    else if LineEnd(a) > 0 && LineEnd(b) > 0 then LooksAlike(a[LineEnd(a)..], b[LineEnd(b)..])
    else LineEnd(a) == LineEnd(b) && Alike(a[0], b[0]) && LooksAlike(a[1..], b[1..])
  }

  /** Two blobs decode to the same text exactly when they look alike. */
  lemma {:induction false} DecodesAlike(a: Bytes, b: Bytes)
    ensures Decode(a) == Decode(b) <==> LooksAlike(a, b)
    decreases |a|
  {
    if a != [] && b != [] {
      var m, n := if LineEnd(a) > 0 then LineEnd(a) else 1, if LineEnd(b) > 0 then LineEnd(b) else 1;
      DecodeStep(a);
      DecodeStep(b);
      assert Decode(a)[1..] == Decode(a[m..]) && Decode(b)[1..] == Decode(b[n..]);
      DecodesAlike(a[m..], b[n..]);
    } else if a != [] {
      DecodeStep(a);
    } else if b != [] {
      DecodeStep(b);
    }
  }

  lemma DecodeStep(b: Bytes)
    requires b != []
    ensures var first := if LineEnd(b) > 0 then '\n' else Shows(b[0]);
            Decode(b) == [first] + Decode(b[if LineEnd(b) > 0 then LineEnd(b) else 1..])
    ensures LineEnd(b) == 0 ==> Shows(b[0]) != '\n'
  {
  }

  /** Every unit is a character other than CR and the replacement character. */
  predicate Plain(b: Bytes) {
    forall i :: 0 <= i < |b| ==> b[i].Char? && b[i].c != '\r' && b[i].c != REPLACEMENT
  }

  lemma {:induction false} PlainLooksLikeItself(a: Bytes, b: Bytes)
    requires Plain(a) && Plain(b) && LooksAlike(a, b)
    ensures a == b
    decreases |a|
  {
    if a != [] && b != [] {
      assert a == [a[0]] + a[1..] && b == [b[0]] + b[1..];
      PlainLooksLikeItself(a[1..], b[1..]);
    }
  }

  /** The guard compares decoded text, so of the paths whose bytes match neither the baseline nor
      the changeset end it misses exactly those that differ from the end in line ends and
      undecodable bytes only. */
  lemma BytewiseNewContentReportedExactlyWhen(w: World, baseline: string, p: string)
    requires ValidRepo(w.repo) && Resolve(w.repo, baseline).Some? && ChangesetEnd(w) != ""
    requires TreeOf(w.repo, "HEAD").Some? && TreeOf(w.repo, ChangesetEnd(w)).Some? && TreeOf(w.repo, baseline).Some?
    requires var h, e, b := TreeOf(w.repo, "HEAD").value, TreeOf(w.repo, ChangesetEnd(w)).value,
                            TreeOf(w.repo, baseline).value;
             Blob(h, p) != Blob(b, p) && Blob(h, p) != Blob(e, p)
    ensures var h, e := TreeOf(w.repo, "HEAD").value, TreeOf(w.repo, ChangesetEnd(w)).value;
            p !in LiveGuardPaths(w, baseline) <==> p in h && p in e && LooksAlike(h[p], e[p])
  {
    LiveGuardExact(w, baseline, p);
    var h, e := TreeOf(w.repo, "HEAD").value, TreeOf(w.repo, ChangesetEnd(w)).value;
    if p in h && p in e { DecodesAlike(h[p], e[p]); }
  }

  /** Without carriage returns and undecodable bytes in either blob the promise holds byte for
      byte. */
  lemma PlainContentIsAlwaysReported(w: World, baseline: string, p: string)
    requires ValidRepo(w.repo) && Resolve(w.repo, baseline).Some? && ChangesetEnd(w) != ""
    requires TreeOf(w.repo, "HEAD").Some? && TreeOf(w.repo, ChangesetEnd(w)).Some? && TreeOf(w.repo, baseline).Some?
    requires var h, e, b := TreeOf(w.repo, "HEAD").value, TreeOf(w.repo, ChangesetEnd(w)).value,
                            TreeOf(w.repo, baseline).value;
             Blob(h, p) != Blob(b, p) && Blob(h, p) != Blob(e, p)
             && (p in h ==> Plain(h[p])) && (p in e ==> Plain(e[p]))
    ensures p in LiveGuardPaths(w, baseline)
  {
    var h, e := TreeOf(w.repo, "HEAD").value, TreeOf(w.repo, ChangesetEnd(w)).value;
    BytewiseNewContentReportedExactlyWhen(w, baseline, p);
    if p in h && p in e && LooksAlike(h[p], e[p]) { PlainLooksLikeItself(h[p], e[p]); }
  }
}
