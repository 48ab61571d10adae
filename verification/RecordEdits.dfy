/**
 What an edit of the governance records can do to the windows and to the live guards: exactly which
 edits only ever reopen windows and add reported paths, and which lines may be deleted safely.
 */
module RecordEdits {
  import opened Wrappers
  import opened CommitGraph
  import opened Records
  import opened SuccessorLifecycle

  // ---------------------------------------------------------------------------------------------
  // The exemption a set of records grants
  // ---------------------------------------------------------------------------------------------

  /** What live guards exempt: content of `end`, if `end` descends from `boundary`. */
  datatype Exemption = Exemption(boundary: string, end: string)

  function ExemptFor(named: Option<Successor>, end: string): Option<Exemption> {
    match named
    case None => None
    case Some(s) => if end == "" then None else Some(Exemption(s.boundary, end))
  }

  function RecordedEnd(records: Store): string { Field(FileAt(records, SUPERSESSION_RECORD), CHANGESET_END_FIELD) }

  function Exempt(records: Store): Option<Exemption> { ExemptFor(NamedSuccessor(records), RecordedEnd(records)) }

  /** The repository bears the exemption out. */
  predicate Honoured(r: Repo, x: Exemption) {
    IsAncestor(r, x.boundary, "HEAD") && IsAncestor(r, x.boundary, x.end) && IsAncestor(r, x.end, "HEAD")
  }

  function HonouredEnd(r: Repo, x: Option<Exemption>): string {
    match x
    case Some(x) => if Honoured(r, x) then x.end else ""
    case None => ""
  }

  lemma EndForExemption(r: Repo, named: Option<Successor>, end: string)
    ensures EndFor(r, Authorize(r, named), end) == HonouredEnd(r, ExemptFor(named, end))
  {
  }

  lemma EndIsExemption(w: World)
    ensures ChangesetEnd(w) == HonouredEnd(w.repo, Exempt(w.records))
  {
    EndForExemption(w.repo, NamedSuccessor(w.records), RecordedEnd(w.records));
  }

  /** The new exemption, if there still is one, was granted before on no stronger condition. */
  predicate Narrows(x: Option<Exemption>, x': Option<Exemption>) {
    x'.None? ||
    (x.Some? && x.value.end == x'.value.end
     && (x.value.boundary == x'.value.boundary || x.value.boundary == x.value.end))
  }

  lemma NarrowEnds(r: Repo, x: Exemption, x': Exemption)
    requires ValidRepo(r) && Narrows(Some(x), Some(x')) && Honoured(r, x')
    ensures Honoured(r, x)
  {
    var i := Resolve(r, x'.end).value;
    AncestorIsEarlier(r.commits, i, r.head);
  }

  /** Records that exempt no more than before report every path they reported. */
  lemma NarrowingOnlyAdds(r: Repo, records: Store, records': Store, baseline: string)
    requires ValidRepo(r) && Narrows(Exempt(records), Exempt(records'))
    ensures LiveGuardPaths(World(r, records), baseline) <= LiveGuardPaths(World(r, records'), baseline)
  {
    var w, w' := World(r, records), World(r, records');
    EndIsExemption(w);
    EndIsExemption(w');
    if ChangesetEnd(w') == "" {
      NoEndReportsMost(w, w', baseline);
    } else {
      NarrowEnds(r, Exempt(records).value, Exempt(records').value);
      SameEndSamePaths(w, w', baseline);
    }
  }

  // ---------------------------------------------------------------------------------------------
  // A wider exemption hides a path somewhere
  // ---------------------------------------------------------------------------------------------

  /** Names of commits, not of HEAD. */
  predicate NamesCommits(x: Exemption) {
    x.boundary != "" && x.boundary != "HEAD" && x.end != "" && x.end != "HEAD"
  }

  const OLD: Tree := map["p" := [Char('o')]]
  const NEW: Tree := map["p" := [Char('n')]]

  /** A history in which `x` is honoured and its end is HEAD: the only commit with the new content. */
  function Showcase(base: string, x: Exemption): Repo {
    if x.boundary == x.end then
      Repo([Commit(base, {}, OLD), Commit(x.end, {0}, NEW)], 1)
    else
      Repo([Commit(base, {}, OLD), Commit(x.boundary, {0}, OLD), Commit(x.end, {1}, NEW)], 2)
  }

  lemma ShowcaseIds(base: string, x: Exemption)
    requires NamesCommits(x) && base != "" && base != "HEAD" && base != x.boundary && base != x.end
    ensures var r := Showcase(base, x);
            ValidRepo(r) && Resolve(r, base) == Some(0) && Resolve(r, x.end) == Some(r.head)
            && Resolve(r, x.boundary) == Some(1)
    ensures forall id :: id != "HEAD" && Resolve(Showcase(base, x), id).Some? ==>
              id == base || id == x.boundary || id == x.end
  {
    var r := Showcase(base, x);
    var a, b, c := FindId(r.commits, base), FindId(r.commits, x.boundary), FindId(r.commits, x.end);
    assert r.commits[0].id == base && r.commits[1].id == x.boundary && r.commits[r.head].id == x.end;
  }

  lemma ShowcaseHonours(base: string, x: Exemption)
    requires NamesCommits(x) && base != "" && base != "HEAD" && base != x.boundary && base != x.end
    ensures Honoured(Showcase(base, x), x)
  {
    var cs := Showcase(base, x).commits;
    ShowcaseIds(base, x);
    assert Ancestor(cs, 1, 1) && Ancestor(cs, |cs| - 1, |cs| - 1);
    if x.boundary != x.end { assert 1 in cs[2].parents; }
  }

  lemma NewIsNotOld()
    ensures Blob(OLD, "p") != Blob(NEW, "p") && Shown(OLD, "p") != Shown(NEW, "p")
  {
    assert Decode([Char('o')])[0] == 'o' && Decode([Char('n')])[0] == 'n';
  }

  /** In the showcase of `x'`, records that do not grant it report the path and records that grant
      it do not. */
  lemma ShowcaseHides(base: string, records: Store, records': Store, x': Exemption)
    requires Exempt(records') == Some(x') && NamesCommits(x')
    requires base != "" && base != "HEAD" && base != x'.boundary && base != x'.end
    requires Exempt(records).Some? ==> NamesCommits(Exempt(records).value)
                                       && base != Exempt(records).value.boundary && base != Exempt(records).value.end
    requires !Narrows(Exempt(records), Exempt(records'))
    ensures var r := Showcase(base, x');
            "p" in LiveGuardPaths(World(r, records), base) && "p" !in LiveGuardPaths(World(r, records'), base)
  {
    var r := Showcase(base, x');
    var w, w' := World(r, records), World(r, records');
    ShowcaseIds(base, x');
    ShowcaseHonours(base, x');
    NewIsNotOld();
    EndIsExemption(w);
    EndIsExemption(w');
    LiveGuardExact(w, base, "p");
    LiveGuardExact(w', base, "p");
    assert TreeOf(r, "HEAD") == Some(NEW) && TreeOf(r, base) == Some(OLD) && TreeOf(r, x'.end) == Some(NEW);
    if ChangesetEnd(w) != "" {
      var x := Exempt(records).value;
      assert x.end == x'.boundary && x'.boundary != x'.end;
      assert TreeOf(r, x.end) == Some(OLD);
    }
  }

  lemma FreshName(a: string, b: string, c: string, d: string) returns (base: string)
    ensures base != "" && base != "HEAD" && base != a && base != b && base != c && base != d
  {
    base := "z" + a + b + c + d;
    assert base[0] == 'z' && |base| == 1 + |a| + |b| + |c| + |d|;
  }

  /** An edit of the records, whatever it is, can only add reported paths — in every repository and
      for every baseline — exactly when it grants no exemption or one it does not widen. */
  lemma EditOnlyAddsExactlyWhen(records: Store, records': Store)
    requires Exempt(records).Some? ==> NamesCommits(Exempt(records).value)
    requires Exempt(records').Some? ==> NamesCommits(Exempt(records').value)
    ensures (forall r, baseline :: ValidRepo(r) && Resolve(r, baseline).Some? ==>
               LiveGuardPaths(World(r, records), baseline) <= LiveGuardPaths(World(r, records'), baseline))
            <==> Narrows(Exempt(records), Exempt(records'))
  {
    if Narrows(Exempt(records), Exempt(records')) {
      forall r, baseline | ValidRepo(r)
        ensures LiveGuardPaths(World(r, records), baseline) <= LiveGuardPaths(World(r, records'), baseline)
      {
        NarrowingOnlyAdds(r, records, records', baseline);
      }
    } else {
      var r, base := HidingRepo(records, records');
      assert "p" in LiveGuardPaths(World(r, records), base);
    }
  }

  /** The repository that shows it. */
  lemma HidingRepo(records: Store, records': Store) returns (r: Repo, base: string)
    requires Exempt(records).Some? ==> NamesCommits(Exempt(records).value)
    requires Exempt(records').Some? ==> NamesCommits(Exempt(records').value)
    requires !Narrows(Exempt(records), Exempt(records'))
    ensures ValidRepo(r) && Resolve(r, base).Some?
    ensures "p" in LiveGuardPaths(World(r, records), base) && "p" !in LiveGuardPaths(World(r, records'), base)
  {
    var x' := Exempt(records').value;
    var x := if Exempt(records).Some? then Exempt(records).value else x';
    base := FreshName(x.boundary, x.end, x'.boundary, x'.end);
    r := Showcase(base, x');
    ShowcaseIds(base, x');
    ShowcaseHides(base, records, records', x');
  }

  // ---------------------------------------------------------------------------------------------
  // Windows
  // ---------------------------------------------------------------------------------------------

  /** The new boundary, if there still is one, is the old one. */
  predicate KeepsBoundary(records: Store, records': Store) {
    NamedSuccessor(records').None? ||
    (NamedSuccessor(records).Some? && NamedSuccessor(records).value.boundary == NamedSuccessor(records').value.boundary)
  }

  predicate KeptOrOpenFor(r: Repo, named: Option<Successor>, named': Option<Successor>, baseline: string) {
    WindowFor(r, Authorize(r, named'), baseline) == WindowFor(r, Authorize(r, named), baseline)
    || WindowFor(r, Authorize(r, named'), baseline) == "HEAD"
  }

  predicate KeptOrOpen(r: Repo, records: Store, records': Store, baseline: string) {
    WindowEnd(World(r, records'), baseline) == WindowEnd(World(r, records), baseline)
    || WindowEnd(World(r, records'), baseline) == "HEAD"
  }

  lemma KeptOrOpenIs(r: Repo, records: Store, records': Store, baseline: string)
    ensures KeptOrOpen(r, records, records', baseline)
            <==> KeptOrOpenFor(r, NamedSuccessor(records), NamedSuccessor(records'), baseline)
  {
  }

  lemma NamedIsNamed(records: Store)
    requires NamedSuccessor(records).Some?
    ensures NamedSuccessor(records).value.boundary != ""
  {
  }

  lemma OneCommit(id: string) returns (r: Repo)
    requires id != "" && id != "HEAD"
    ensures ValidRepo(r) && IsAncestor(r, id, "HEAD")
    ensures forall rev :: rev != "HEAD" && rev != id ==> Resolve(r, rev).None?
  {
    r := Repo([Commit(id, {}, OLD)], 0);
    var found := FindId(r.commits, id);
    assert r.commits[0].id == id;
    assert Ancestor(r.commits, 0, 0);
    forall rev | rev != "HEAD" && rev != id ensures Resolve(r, rev).None? {
      var other := FindId(r.commits, rev);
    }
  }

  lemma SameBoundaryKeeps(r: Repo, named: Option<Successor>, named': Option<Successor>, baseline: string)
    requires named'.None? || (named.Some? && named.value.boundary == named'.value.boundary)
    ensures KeptOrOpenFor(r, named, named', baseline)
  {
  }

  lemma OtherBoundaryMoves(r: Repo, named: Option<Successor>, named': Successor)
    requires named'.boundary != "" && named'.boundary != "HEAD" && IsAncestor(r, named'.boundary, "HEAD")
    requires named.Some? ==> Resolve(r, named.value.boundary).None?
    ensures !KeptOrOpenFor(r, named, Some(named'), "")
  {
  }

  /** An edit of the records leaves every window where it was or reopens it, in every repository and
      for every baseline, exactly when it names no successor or one at the same boundary. */
  lemma EditOnlyReopensExactlyWhen(records: Store, records': Store)
    requires NamedSuccessor(records).Some? ==> NamedSuccessor(records).value.boundary != "HEAD"
    requires NamedSuccessor(records').Some? ==> NamedSuccessor(records').value.boundary != "HEAD"
    ensures (forall r, baseline :: ValidRepo(r) ==> KeptOrOpen(r, records, records', baseline))
            <==> KeepsBoundary(records, records')
  {
    if KeepsBoundary(records, records') {
      forall r, baseline | ValidRepo(r) ensures KeptOrOpen(r, records, records', baseline) {
        SameBoundaryKeeps(r, NamedSuccessor(records), NamedSuccessor(records'), baseline);
        KeptOrOpenIs(r, records, records', baseline);
      }
    } else {
      MovedBoundaryMovesWindow(records, records');
    }
  }

  lemma MovedBoundaryMovesWindow(records: Store, records': Store)
    requires NamedSuccessor(records).Some? ==> NamedSuccessor(records).value.boundary != "HEAD"
    requires NamedSuccessor(records').Some? ==> NamedSuccessor(records').value.boundary != "HEAD"
    requires !KeepsBoundary(records, records')
    ensures exists r, baseline :: ValidRepo(r) && !KeptOrOpen(r, records, records', baseline)
  {
    NamedIsNamed(records');
    var s' := NamedSuccessor(records').value;
    var r := OneCommit(s'.boundary);
    OtherBoundaryMoves(r, NamedSuccessor(records), s');
    KeptOrOpenIs(r, records, records', "");
  }

  // ---------------------------------------------------------------------------------------------
  // Withdrawing evidence, piece by piece
  // ---------------------------------------------------------------------------------------------

  /** Everything an authorization rests on: four fields of the snapshot, its AUTHORIZED mark, the
      decision it cites, and whether the decision record binds that decision to the boundary. */
  datatype Evidence = Evidence(
    milestone: string, boundary: string, record: string, end: string, marked: bool, decision: string, bound: bool)

  function EvidenceIn(snapshot: string, decision: string): Evidence {
    var milestone, boundary := Field(snapshot, MILESTONE_FIELD), Field(snapshot, BOUNDARY_FIELD);
    var id := DecisionId(snapshot, milestone);
    Evidence(milestone, boundary, Field(snapshot, AUTHORIZATION_RECORD_FIELD), Field(snapshot, CHANGESET_END_FIELD),
             Marked(snapshot, MilestoneKey(milestone), "AUTHORIZED"), id, Binds(decision, id, boundary))
  }

  function EvidenceOf(records: Store): Evidence {
    var snapshot := FileAt(records, SUPERSESSION_RECORD);
    EvidenceIn(snapshot, ReadRecord(records, Field(snapshot, AUTHORIZATION_RECORD_FIELD)))
  }

  predicate Complete(e: Evidence) {
    e.milestone != "" && e.boundary != "" && e.record != "" && e.marked && e.decision != "" && e.bound
  }

  function NamedBy(e: Evidence): Option<Successor> {
    if Complete(e) then Some(Successor(e.milestone, e.boundary)) else None
  }

  lemma EvidenceInDecides(snapshot: string, decision: string)
    ensures SuccessorIn(snapshot, decision) == NamedBy(EvidenceIn(snapshot, decision))
  {
    if snapshot == "" { FieldOfNothing(MILESTONE_FIELD); }
  }

  /** The evidence, and nothing else in the records, decides the successor and the exemption. */
  lemma EvidenceDecides(records: Store)
    ensures NamedSuccessor(records) == NamedBy(EvidenceOf(records))
    ensures Exempt(records) == ExemptFor(NamedBy(EvidenceOf(records)), EvidenceOf(records).end)
  {
    var snapshot := FileAt(records, SUPERSESSION_RECORD);
    EvidenceInDecides(snapshot, ReadRecord(records, Field(snapshot, AUTHORIZATION_RECORD_FIELD)));
  }

  predicate SameOrGone(a: string, b: string) { b == "" || b == a }

  /** Some pieces are gone and the others are as they were. */
  predicate Withdrawn(e: Evidence, e': Evidence) {
    e'.milestone == "" ||
    (e'.milestone == e.milestone && SameOrGone(e.boundary, e'.boundary) && SameOrGone(e.record, e'.record)
     && SameOrGone(e.end, e'.end) && SameOrGone(e.decision, e'.decision) && (e'.marked ==> e.marked)
     && (e'.boundary == e.boundary && e'.record == e.record && e'.decision == e.decision && e'.bound ==> e.bound))
  }

  lemma WithdrawnNarrows(e: Evidence, e': Evidence)
    requires Withdrawn(e, e')
    ensures NamedBy(e') == NamedBy(e) || NamedBy(e').None?
    ensures Narrows(ExemptFor(NamedBy(e), e.end), ExemptFor(NamedBy(e'), e'.end))
  {
  }

  /** Withdrawing any pieces of the evidence, in any repository, can only add reported paths and
      leaves every window where it was or reopens it. */
  lemma WithdrawalOnlyAdds(r: Repo, records: Store, records': Store, baseline: string)
    requires ValidRepo(r) && Withdrawn(EvidenceOf(records), EvidenceOf(records'))
    ensures LiveGuardPaths(World(r, records), baseline) <= LiveGuardPaths(World(r, records'), baseline)
    ensures KeptOrOpen(r, records, records', baseline)
  {
    EvidenceDecides(records);
    EvidenceDecides(records');
    WithdrawnNarrows(EvidenceOf(records), EvidenceOf(records'));
    NarrowingOnlyAdds(r, records, records', baseline);
    SameBoundaryKeeps(r, NamedSuccessor(records), NamedSuccessor(records'), baseline);
    KeptOrOpenIs(r, records, records', baseline);
  }

  lemma NothingBinds(snapshot: string)
    ensures !EvidenceIn(snapshot, "").bound
  {
  }

  /** Removing a whole record, whichever it is, is such a withdrawal. */
  lemma RemovalWithdraws(records: Store, path: string)
    ensures Withdrawn(EvidenceOf(records), EvidenceOf(records - {path}))
  {
    var snapshot := FileAt(records, SUPERSESSION_RECORD);
    if path == SUPERSESSION_RECORD {
      assert FileAt(records - {path}, SUPERSESSION_RECORD) == "";
      FieldOfNothing(MILESTONE_FIELD);
    } else {
      assert FileAt(records - {path}, SUPERSESSION_RECORD) == snapshot;
      var record := Field(snapshot, AUTHORIZATION_RECORD_FIELD);
      if Canonical(record) == path {
        assert ReadRecord(records - {path}, record) == "";
        NothingBinds(snapshot);
        DecisionLost(snapshot, ReadRecord(records, record));
      } else {
        assert ReadRecord(records - {path}, record) == ReadRecord(records, record);
      }
    }
  }

  lemma DecisionLost(snapshot: string, decision: string)
    ensures Withdrawn(EvidenceIn(snapshot, decision), EvidenceIn(snapshot, ""))
  {
    NothingBinds(snapshot);
  }
}
