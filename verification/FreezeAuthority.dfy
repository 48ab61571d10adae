/**
 Who may amend a frozen artifact: the declarations of a binding AT-D12 record, and the verdict on
 one artifact.
 */
module FreezeAuthority {
  import opened Wrappers
  import opened Text
  import opened Records
  import opened RecordText
  import opened SuccessorLifecycle
  import opened FreezeAmendment

  // ---------------------------------------------------------------------------------------------
  // The declarations of a record
  // ---------------------------------------------------------------------------------------------

  datatype Declaration = Declaration(mode: string, path: string)

  predicate NotSpace(c: char) { !IsSpace(c) }

  /** The text up to the first white space, and the rest. */
  function FirstWord(s: string): (string, string) {
    var rest := LTrim(s, NotSpace);
    (s[..|s| - |rest|], rest)
  }

  /** A declaration in the text after its key: two words, which may stand on later lines, and nothing
      but white space after the second on its line; with the line it ends on. */
  function DeclarationWords(lines: seq<string>, i: nat, rest: string): (r: Option<(Declaration, nat)>)
    requires i < |lines|
    ensures r.Some? ==> i <= r.value.1 < |lines|
  {
    match Content(lines, i, rest)
    case None => None
    case Some((j, s)) => PathWord(lines, j, FirstWord(s).0, FirstWord(s).1)
  }

  function PathWord(lines: seq<string>, j: nat, mode: string, after: string): (r: Option<(Declaration, nat)>)
    requires j < |lines|
    ensures r.Some? ==> j <= r.value.1 < |lines|
  {
    match Content(lines, j, after)
    case None => None
    case Some((k, t)) => if Blank(FirstWord(t).1) then Some((Declaration(mode, FirstWord(t).0), k)) else None
  }

  /** The declaration starting on line `i`, and the line it ends on. */
  function DeclarationAt(lines: seq<string>, i: nat): (r: Option<(Declaration, nat)>)
    requires i < |lines|
    ensures r.Some? ==> i <= r.value.1 < |lines|
  {
    if !(ARTIFACT_KEY <= lines[i]) then None
    else
      var rest := lines[i][|ARTIFACT_KEY|..];
      if rest != "" && !IsSpace(rest[0]) then None else DeclarationWords(lines, i, rest)
  }

  predicate Wordlike(s: string) { s != "" && forall i :: 0 <= i < |s| ==> !IsSpace(s[i]) }

  /** The line declares `mode` for `path`: the key, the mode and the path with white space between. */
  ghost predicate DeclaresOn(line: string, mode: string, path: string) {
    exists w, x, y :: line == "AMENDABLE_FROZEN_ARTIFACT:" + (w + (mode + (x + (path + y))))
      && Blank(w) && w != "" && Blank(x) && x != "" && Blank(y) && Wordlike(mode) && Wordlike(path)
  }

  lemma FirstWordIs(word: string, after: string)
    requires Wordlike(word) && (after == "" || IsSpace(after[0]))
    ensures FirstWord(word + after) == (word, after)
  {
    assert forall i :: 0 <= i < |word| ==> NotSpace(word[i]);
    LTrimPrefix(word, after, NotSpace);
    assert LTrim(after, NotSpace) == after;
    assert (word + after)[..|word|] == word;
  }

  lemma TextHere(lines: seq<string>, i: nat, gap: string, text: string)
    requires i < |lines| && Blank(gap) && text != "" && !IsSpace(text[0])
    ensures Content(lines, i, gap + text) == Some((i, text))
  {
    LTrimPrefix(gap, text, IsSpace);
    assert LStrip(text) == text;
  }

  lemma WordsAre(lines: seq<string>, i: nat, w: string, mode: string, x: string, path: string, y: string)
    requires i < |lines| && Blank(w) && Blank(x) && x != "" && Blank(y) && Wordlike(mode) && Wordlike(path)
    ensures DeclarationWords(lines, i, w + (mode + (x + (path + y)))) == Some((Declaration(mode, path), i))
  {
    var after := x + (path + y);
    assert (mode + after)[0] == mode[0] && after[0] == x[0];
    TextHere(lines, i, w, mode + after);
    FirstWordIs(mode, after);
    PathIs(lines, i, mode, x, path, y);
  }

  lemma PathIs(lines: seq<string>, i: nat, mode: string, x: string, path: string, y: string)
    requires i < |lines| && Blank(x) && Blank(y) && Wordlike(path)
    ensures PathWord(lines, i, mode, x + (path + y)) == Some((Declaration(mode, path), i))
  {
    assert (path + y)[0] == path[0];
    TextHere(lines, i, x, path + y);
    FirstWordIs(path, y);
  }

  lemma AfterKey(lines: seq<string>, i: nat, rest: string)
    requires i < |lines| && lines[i] == ARTIFACT_KEY + rest && rest != "" && IsSpace(rest[0])
    ensures DeclarationAt(lines, i) == DeclarationWords(lines, i, rest)
  {
    assert lines[i][|ARTIFACT_KEY|..] == rest && ARTIFACT_KEY <= lines[i];
  }

  /** Such a line is a declaration, wherever it stands. */
  lemma DeclarationLine(lines: seq<string>, i: nat, mode: string, path: string)
    requires i < |lines| && DeclaresOn(lines[i], mode, path)
    ensures DeclarationAt(lines, i) == Some((Declaration(mode, path), i))
  {
    var w, x, y :| lines[i] == "AMENDABLE_FROZEN_ARTIFACT:" + (w + (mode + (x + (path + y))))
      && Blank(w) && w != "" && Blank(x) && x != "" && Blank(y) && Wordlike(mode) && Wordlike(path);
    var rest := w + (mode + (x + (path + y)));
    assert rest[0] == w[0];
    AfterKey(lines, i, rest);
    WordsAre(lines, i, w, mode, x, path, y);
  }

  lemma NoDeclaration(lines: seq<string>, i: nat)
    requires i < |lines| && !("AMENDABLE_FROZEN_ARTIFACT:" <= lines[i])
    ensures DeclarationAt(lines, i) == None
  {
  }

  /** Where declarations start, and where they end; the collection below works for any finder. */
  type Finder = nat -> Option<(Declaration, nat)>

  function Collected(find: Finder, n: nat, i: nat): seq<Declaration>
    decreases n - i
  {
    if i >= n then []
    else match find(i)
      case Some((d, k)) => [d] + Collected(find, n, if i <= k then k + 1 else i + 1)
      case None => Collected(find, n, i + 1)
  }

  function FinderIn(lines: seq<string>): Finder { (i: nat) => if i < |lines| then DeclarationAt(lines, i) else None }

  lemma CollectedStep(find: Finder, n: nat, i: nat, d: Declaration)
    requires i < n
    ensures find(i) == Some((d, i)) ==> Collected(find, n, i) == [d] + Collected(find, n, i + 1)
    ensures find(i) == None ==> Collected(find, n, i) == Collected(find, n, i + 1)
  {
  }

  /** In a record whose declarations stand on single lines, they are read off line by line. */
  lemma DeclarationsLineByLine(lines: seq<string>, i: nat, mode: string, path: string)
    requires i < |lines|
    ensures DeclaresOn(lines[i], mode, path) ==>
            DeclarationsFrom(lines, i) == [Declaration(mode, path)] + DeclarationsFrom(lines, i + 1)
    ensures !("AMENDABLE_FROZEN_ARTIFACT:" <= lines[i]) ==> DeclarationsFrom(lines, i) == DeclarationsFrom(lines, i + 1)
  {
    CollectedStep(FinderIn(lines), |lines|, i, Declaration(mode, path));
    if DeclaresOn(lines[i], mode, path) { DeclarationLine(lines, i, mode, path); }
    if !("AMENDABLE_FROZEN_ARTIFACT:" <= lines[i]) { NoDeclaration(lines, i); }
  }

  /** All non-overlapping declarations, in order. */
  function DeclarationsFrom(lines: seq<string>, i: nat): seq<Declaration> { Collected(FinderIn(lines), |lines|, i) }

  function Declarations(text: string): seq<Declaration> { DeclarationsFrom(Lines(text), 0) }

  function ModeNamed(name: string): Option<Mode> {
    if name == "declared-line" then Some(DeclaredLine)
    else if name == "appended-note" then Some(AppendedNote)
    else None
  }

  /** `d[i]` is the last declaration of its path with a legal mode. */
  predicate LastLegal(ds: seq<Declaration>, i: int) {
    0 <= i < |ds| && ModeNamed(ds[i].mode).Some?
    && forall j :: i < j < |ds| && ds[j].path == ds[i].path ==> ModeNamed(ds[j].mode).None?
  }

  predicate Legal(ds: seq<Declaration>, i: int, path: string) {
    0 <= i < |ds| && ds[i].path == path && ModeNamed(ds[i].mode).Some?
  }

  function Amendable(ds: seq<Declaration>): map<string, Mode> {
    if ds == [] then map[]
    else
      var front, d := Amendable(ds[..|ds| - 1]), ds[|ds| - 1];
      match ModeNamed(d.mode)
      case Some(mode) => front[d.path := mode]
      case None => front
  }

  /** The loop that fills `amendable`. */
  method FillAmendable(ds: seq<Declaration>) returns (m: map<string, Mode>)
    ensures m == Amendable(ds)
  {
    m := map[];
    for i := 0 to |ds|
      invariant m == Amendable(ds[..i])
    {
      assert ds[..i + 1][..i] == ds[..i];
      var mode := ModeNamed(ds[i].mode);
      if mode.Some? {
        m := m[ds[i].path := mode.value];
      }
    }
    assert ds[..|ds|] == ds;
  }

  /** A path is amendable exactly when some declaration of it has a legal mode. */
  lemma {:induction false} AmendableExactlyWhen(ds: seq<Declaration>, path: string)
    ensures path in Amendable(ds) <==> exists i :: Legal(ds, i, path)
  {
    if ds != [] {
      var n := |ds| - 1;
      var front := ds[..n];
      AmendableExactlyWhen(front, path);
      if i :| Legal(front, i, path) { assert Legal(ds, i, path); }
      if i :| Legal(ds, i, path) && i < n { assert Legal(front, i, path); }
      if ds[n].path == path && ModeNamed(ds[n].mode).Some? { assert Legal(ds, n, path); }
    }
  }

  /** And then the last such declaration decides the mode. */
  lemma {:induction false} LastLegalWins(ds: seq<Declaration>, i: nat)
    requires LastLegal(ds, i)
    ensures ds[i].path in Amendable(ds) && Some(Amendable(ds)[ds[i].path]) == ModeNamed(ds[i].mode)
  {
    var n := |ds| - 1;
    if i < n {
      var front := ds[..n];
      assert front[i] == ds[i];
      assert LastLegal(front, i);
      LastLegalWins(front, i);
    }
  }

  // ---------------------------------------------------------------------------------------------
  // The authority and the verdict
  // ---------------------------------------------------------------------------------------------

  function AmendmentRecord(w: World): string {
    ReadRecord(w.records, Field(FileAt(w.records, SUPERSESSION_RECORD), RECORD_FIELD))
  }

  /** The record is named by the snapshot, binding under the named decision, and about the milestone
      that is actually authorized. */
  predicate AmendmentBinding(w: World) {
    var snapshot := FileAt(w.records, SUPERSESSION_RECORD);
    var decision := Field(snapshot, DECISION_FIELD);
    var text := AmendmentRecord(w);
    AuthorizedSuccessor(w).Some? && AuthorizedSuccessor(w).value.milestone != ""
    && decision != "" && Field(snapshot, RECORD_FIELD) != "" && text != ""
    && Marked(text, decision, "RESOLVED / BINDING")
    && Field(text, MILESTONE_KEY) == AuthorizedSuccessor(w).value.milestone
  }

  function AmendmentAuthority(w: World): map<string, Mode> {
    if AmendmentBinding(w) then Amendable(Declarations(AmendmentRecord(w))) else map[]
  }

  function Slashed(path: string): string { ReplaceChar(path, '\\', "/") }

  /** The verdict on a frozen artifact, for the edit script the differ produced. */
  predicate FrozenArtifactIsAuthorized(
    w: World, path: string, historical: string, current: string, ops: seq<Op>)
  {
    Lf(historical) == Lf(current)
    || (Slashed(path) in AmendmentAuthority(w) &&
        match AmendmentAuthority(w)[Slashed(path)]
        case DeclaredLine => forall op :: op in ops ==> LegalOp(Lines(Lf(current)), op)
        case AppendedNote => AppendedNoteAmendment(historical, current))
  }

  /** An accepted artifact never has fewer lines than history, and keeps all of history except lines
      that were replaced by at least as many declared ones. */
  lemma AcceptedNeverShrinks(w: World, path: string, historical: string, current: string, ops: seq<Op>)
    requires Tiles(ops, Lines(Lf(historical)), Lines(Lf(current)), 0, 0)
    requires FrozenArtifactIsAuthorized(w, path, historical, current, ops)
    ensures |Lines(Lf(current))| >= |Lines(Lf(historical))|
  {
    if Lf(historical) != Lf(current) {
      match AmendmentAuthority(w)[Slashed(path)] {
        case DeclaredLine =>
          DeclaredAmendmentPreservesHistory(ops, Lines(Lf(historical)), Lines(Lf(current)));
        case AppendedNote =>
          PrefixHasFewerLines(Lf(historical), Lf(current));
      }
    }
  }

  // ---------------------------------------------------------------------------------------------
  // The contract, written out
  // ---------------------------------------------------------------------------------------------

  /** The snapshot names a decision and a record, the record marks the decision as resolved and
      binding, and it is about the milestone that is authorized. */
  ghost predicate AmendmentAuthorized(w: World) {
    var snapshot := FileAt(w.records, SUPERSESSION_RECORD);
    var decision := Field(snapshot, "SUCCESSOR_FREEZE_AMENDMENT_DECISION");
    var record := Field(snapshot, "SUCCESSOR_FREEZE_AMENDMENT_RECORD");
    && AuthorizedSuccessor(w).Some? && decision != "" && record != ""
    && LineSays(ReadRecord(w.records, record), decision, "RESOLVED / BINDING")
    && Field(ReadRecord(w.records, record), "AT_D12_SUCCESSOR_MILESTONE") == AuthorizedSuccessor(w).value.milestone
  }

  lemma AuthorizedHasMilestone(w: World)
    requires AuthorizedSuccessor(w).Some?
    ensures AuthorizedSuccessor(w).value.milestone != ""
  {
  }

  lemma NoMarkInNothing(key: string)
    ensures !Marked("", key, "RESOLVED / BINDING")
  {
    assert Lines("") == [""];
  }

  lemma BindingExactlyWhen(w: World)
    ensures AmendmentBinding(w) <==> AmendmentAuthorized(w)
  {
    var decision := Field(FileAt(w.records, SUPERSESSION_RECORD), DECISION_FIELD);
    MarkedWrittenOut(AmendmentRecord(w), decision, "RESOLVED / BINDING");
    if AuthorizedSuccessor(w).Some? { AuthorizedHasMilestone(w); }
    if AmendmentRecord(w) == "" { NoMarkInNothing(decision); }
  }

  predicate LegalMode(mode: string) { mode == "declared-line" || mode == "appended-note" }

  /** `ds[i]` is the last declaration of its path whose mode is one of the two. */
  predicate Decides(ds: seq<Declaration>, i: int) {
    0 <= i < |ds| && LegalMode(ds[i].mode)
    && forall j :: i < j < |ds| && ds[j].path == ds[i].path ==> !LegalMode(ds[j].mode)
  }

  lemma DecidesIs(ds: seq<Declaration>, i: int)
    ensures Decides(ds, i) <==> LastLegal(ds, i)
  {
  }

  /** The path with every backslash a slash. */
  predicate SlashedAs(path: string, p: string) {
    |p| == |path| && forall i :: 0 <= i < |p| ==> p[i] == if path[i] == '\\' then '/' else path[i]
  }

  lemma {:induction false} SlashedIs(path: string)
    ensures SlashedAs(path, Slashed(path))
  {
    if path != "" { SlashedIs(path[1..]); }
  }

  lemma SlashedExactly(path: string, p: string)
    ensures p == Slashed(path) <==> SlashedAs(path, p)
  {
    SlashedIs(path);
    if SlashedAs(path, p) { assert p == Slashed(path); }
  }

  /** The opcode leaves lines as they are, or brings in at least one line and no fewer than it takes
      out, each holding the amendment mark. */
  predicate DeclaresItself(now: seq<string>, op: Op) {
    && op.i1 <= op.i2 && op.j1 <= op.j2 <= |now|
    && (op.equal || (op.j1 < op.j2 && op.i2 - op.i1 <= op.j2 - op.j1
                     && forall k :: op.j1 <= k < op.j2 ==> Contains(now[k], "# AT-D12-AMENDED")))
  }

  /** The text is the historical one with a successor note somewhere behind it. */
  ghost predicate NoteFollows(historical: string, current: string) {
    exists between, tail ::
      Lf(current) == Lf(historical) + between + "<!-- SUCCESSOR-NOTE-BEGIN: AT-D12 -->" + tail
  }

  lemma OpWrittenOut(now: seq<string>, op: Op)
    ensures LegalOp(now, op) <==> DeclaresItself(now, op)
  {
  }

  lemma NoteWrittenOut(historical: string, current: string)
    ensures AppendedNoteAmendment(historical, current) <==> NoteFollows(historical, current)
  {
    AppendedExactlyWhen(historical, current);
  }

  /** The divergence has the shape its declaration names. */
  ghost predicate HasShape(d: Declaration, historical: string, current: string, ops: seq<Op>) {
    (d.mode == "declared-line" && forall op :: op in ops ==> DeclaresItself(Lines(Lf(current)), op))
    || (d.mode == "appended-note" && NoteFollows(historical, current))
  }

  lemma ModesDiffer()
    ensures "declared-line" != "appended-note"
  {
    assert "declared-line"[0] != "appended-note"[0];
  }

  lemma ShapeIs(d: Declaration, mode: Mode, historical: string, current: string, ops: seq<Op>)
    requires ModeNamed(d.mode) == Some(mode)
    ensures HasShape(d, historical, current, ops) <==>
            match mode
            case DeclaredLine => forall op :: op in ops ==> LegalOp(Lines(Lf(current)), op)
            case AppendedNote => AppendedNoteAmendment(historical, current)
  {
    ModesDiffer();
    NoteWrittenOut(historical, current);
    forall op | op in ops ensures LegalOp(Lines(Lf(current)), op) <==> DeclaresItself(Lines(Lf(current)), op) {
      OpWrittenOut(Lines(Lf(current)), op);
    }
  }

  /** The declarations of the record name the path, and the last one with a legal mode has the shape
      of the divergence. */
  ghost predicate DeclaredAmendment(
    ds: seq<Declaration>, path: string, historical: string, current: string, ops: seq<Op>)
  {
    exists i :: Decides(ds, i) && SlashedAs(path, ds[i].path) && HasShape(ds[i], historical, current, ops)
  }

  lemma DeclaredIs(ds: seq<Declaration>, path: string, historical: string, current: string, ops: seq<Op>)
    ensures DeclaredAmendment(ds, path, historical, current, ops) <==>
            Slashed(path) in Amendable(ds) &&
            match Amendable(ds)[Slashed(path)]
            case DeclaredLine => forall op :: op in ops ==> LegalOp(Lines(Lf(current)), op)
            case AppendedNote => AppendedNoteAmendment(historical, current)
  {
    SlashedIs(path);
    if Slashed(path) in Amendable(ds) {
      AmendableExactlyWhen(ds, Slashed(path));
      var k :| Legal(ds, k, Slashed(path));
      var i := FindLastLegal(ds, k);
      LastLegalWins(ds, i);
      DecidesIs(ds, i);
      ShapeIs(ds[i], Amendable(ds)[Slashed(path)], historical, current, ops);
    }
    if i :| Decides(ds, i) && SlashedAs(path, ds[i].path) && HasShape(ds[i], historical, current, ops) {
      SlashedExactly(path, ds[i].path);
      DecidesIs(ds, i);
      LastLegalWins(ds, i);
      ShapeIs(ds[i], Amendable(ds)[Slashed(path)], historical, current, ops);
    }
  }

  /** A frozen artifact is accepted exactly when it is the historical content, or the amendment is
      authorized and a declaration of the record covers it. */
  lemma FreezeContract(w: World, path: string, historical: string, current: string, ops: seq<Op>)
    ensures FrozenArtifactIsAuthorized(w, path, historical, current, ops) <==>
            Lf(historical) == Lf(current)
            || (AmendmentAuthorized(w) &&
                var record := Field(FileAt(w.records, SUPERSESSION_RECORD), "SUCCESSOR_FREEZE_AMENDMENT_RECORD");
                DeclaredAmendment(Declarations(ReadRecord(w.records, record)), path, historical, current, ops))
  {
    BindingExactlyWhen(w);
    DeclaredIs(Declarations(AmendmentRecord(w)), path, historical, current, ops);
  }

  lemma {:induction false} FindLastLegal(ds: seq<Declaration>, i: nat) returns (last: nat)
    requires i < |ds| && ModeNamed(ds[i].mode).Some?
    ensures LastLegal(ds, last) && ds[last].path == ds[i].path
    decreases |ds| - i
  {
    if j :| i < j < |ds| && ds[j].path == ds[i].path && ModeNamed(ds[j].mode).Some? {
      last := FindLastLegal(ds, j);
    } else {
      last := i;
    }
  }

  /** Fail closed: while no amendment is authorized nothing but the historical content is accepted. */
  lemma NoAuthorityMeansFrozen(w: World, path: string, historical: string, current: string, ops: seq<Op>)
    requires !AmendmentAuthorized(w)
    ensures FrozenArtifactIsAuthorized(w, path, historical, current, ops) <==> Lf(historical) == Lf(current)
  {
    FreezeContract(w, path, historical, current, ops);
  }
}
