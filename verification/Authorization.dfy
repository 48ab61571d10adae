/**
 Who is authorized, and when AT-M1's window closes, in terms of the lines of the records.
 */
module Authorization {
  import opened Wrappers
  import opened Text
  import opened CommitGraph
  import opened Records
  import opened RecordText
  import opened SuccessorLifecycle

  // ---------------------------------------------------------------------------------------------
  // The key and the decision of a milestone
  // ---------------------------------------------------------------------------------------------

  /** The key of a milestone, character by character: hyphens are underscores, letters upper case. */
  predicate KeyOf(milestone: string, key: string) {
    |key| == |milestone| && forall i :: 0 <= i < |key| ==> key[i] == KeyChar(milestone[i])
  }

  function KeyChar(c: char): char {
    if c == '-' then '_' else if 'a' <= c <= 'z' then (c as int - 'a' as int + 'A' as int) as char else c
  }

  lemma {:induction false} HyphensReplaced(s: string)
    ensures var r := ReplaceChar(s, '-', "_");
            |r| == |s| && forall i :: 0 <= i < |s| ==> r[i] == if s[i] == '-' then '_' else s[i]
  {
    if s != "" { HyphensReplaced(s[1..]); }
  }

  lemma KeyWrittenOut(milestone: string, key: string)
    ensures key == MilestoneKey(milestone) <==> KeyOf(milestone, key)
  {
    HyphensReplaced(milestone);
    var k := MilestoneKey(milestone);
    assert KeyOf(milestone, k);
    if KeyOf(milestone, key) { assert key == k; }
  }

  /** `id` is the text before the first slash of `v`, stripped. */
  ghost predicate IdIn(v: string, id: string) {
    exists n :: 0 <= n <= |v| && '/' !in v[..n] && (n < |v| ==> v[n] == '/') && id == Strip(v[..n])
  }

  lemma FirstPart(v: string, n: nat)
    requires n <= |v| && '/' !in v[..n] && (n < |v| ==> v[n] == '/')
    ensures Split(v, '/')[0] == v[..n]
  {
    assert forall i :: 0 <= i < n ==> v[i] == v[..n][i];
    assert IndexOf(v, '/') == n;
    assert v[..|v|] == v;
  }

  lemma IdWrittenOut(v: string, id: string)
    ensures id == Strip(Split(v, '/')[0]) <==> IdIn(v, id)
  {
    var n := IndexOf(v, '/');
    FirstPart(v, n);
    if m :| 0 <= m <= |v| && '/' !in v[..m] && (m < |v| ==> v[m] == '/') && id == Strip(v[..m]) { FirstPart(v, m); }
  }

  lemma OccursWrittenOut(s: string, sub: string)
    ensures Contains(s, sub) <==> exists pre, post :: s == pre + sub + post
  {
    if Contains(s, sub) {
      var i :| 0 <= i <= |s| && OccursAt(s, sub, i);
      assert s == s[..i] + sub + s[i + |sub|..];
    }
    if pre, post :| s == pre + sub + post {
      assert s[|pre|..|pre| + |sub|] == sub;
      assert OccursAt(s, sub, |pre|);
    }
  }

  // ---------------------------------------------------------------------------------------------
  // The successor
  // ---------------------------------------------------------------------------------------------

  /** The decision text marks `id` as resolved and binding on a line of its own, and names the
      boundary. */
  ghost predicate Resolves(decision: string, id: string, boundary: string) {
    LineSays(decision, id, "RESOLVED / BINDING") && exists pre, post :: decision == pre + boundary + post
  }

  /** The snapshot names the successor in three fields, marks its milestone as authorized under its
      key, and cites a decision that the decision text resolves for the same boundary. */
  ghost predicate AuthorizedBy(snapshot: string, decision: string, s: Successor) {
    && s.milestone == Field(snapshot, "SUCCESSOR_IMPLEMENTATION_MILESTONE") != ""
    && s.boundary == Field(snapshot, "SUCCESSOR_LIFECYCLE_BOUNDARY") != ""
    && Field(snapshot, "SUCCESSOR_AUTHORIZATION_RECORD") != ""
    && exists key, id :: KeyOf(s.milestone, key) && LineSays(snapshot, key, "AUTHORIZED")
         && IdIn(Field(snapshot, key + "_AUTHORIZED_BY"), id) && id != "" && Resolves(decision, id, s.boundary)
  }

  lemma NothingSaysNothing(key: string, phrase: string)
    ensures !LineSays("", key, phrase)
  {
    assert Lines("") == [""];
  }

  lemma BindsWrittenOut(decision: string, id: string, boundary: string)
    ensures Binds(decision, id, boundary) <==> Resolves(decision, id, boundary)
  {
    MarkedWrittenOut(decision, id, "RESOLVED / BINDING");
    OccursWrittenOut(decision, boundary);
    if decision == "" { NothingSaysNothing(id, "RESOLVED / BINDING"); }
  }

  lemma SuccessorWrittenOut(snapshot: string, decision: string, s: Successor)
    ensures SuccessorIn(snapshot, decision) == Some(s) <==> AuthorizedBy(snapshot, decision, s)
  {
    var key := MilestoneKey(s.milestone);
    var id := DecisionId(snapshot, s.milestone);
    KeyWrittenOut(s.milestone, key);
    MarkedWrittenOut(snapshot, key, "AUTHORIZED");
    IdWrittenOut(Field(snapshot, key + "_AUTHORIZED_BY"), id);
    BindsWrittenOut(decision, id, s.boundary);
    if snapshot == "" { FieldOfNothing(MILESTONE_FIELD); }
    if AuthorizedBy(snapshot, decision, s) {
      var k, d :| KeyOf(s.milestone, k) && LineSays(snapshot, k, "AUTHORIZED")
        && IdIn(Field(snapshot, k + "_AUTHORIZED_BY"), d) && d != "" && Resolves(decision, d, s.boundary);
      KeyWrittenOut(s.milestone, k);
      IdWrittenOut(Field(snapshot, key + "_AUTHORIZED_BY"), d);
    }
  }

  /** The records name a successor exactly when the snapshot and the record it points to authorize it. */
  lemma NamedExactlyWhen(records: Store, s: Successor)
    ensures NamedSuccessor(records) == Some(s) <==>
            var snapshot := FileAt(records, "docs" + "/" + ("governance" + "/" + "AI_AGENTS_PM_STATE.md"));
            AuthorizedBy(snapshot, ReadRecord(records, Field(snapshot, "SUCCESSOR_AUTHORIZATION_RECORD")), s)
  {
    var snapshot := FileAt(records, SUPERSESSION_RECORD);
    SuccessorWrittenOut(snapshot, ReadRecord(records, Field(snapshot, AUTHORIZATION_RECORD_FIELD)), s);
  }

  lemma AuthorizeWrittenOut(r: Repo, named: Option<Successor>, s: Successor)
    ensures Authorize(r, named) == Some(s) <==>
            named == Some(s) && Resolve(r, s.boundary).Some? && IsAncestor(r, s.boundary, "HEAD")
  {
  }

  /** A successor is authorized exactly when, besides, its boundary is a commit in the history of
      HEAD. */
  lemma AuthorizedExactlyWhen(w: World, s: Successor)
    ensures AuthorizedSuccessor(w) == Some(s) <==>
            var snapshot := FileAt(w.records, "docs" + "/" + ("governance" + "/" + "AI_AGENTS_PM_STATE.md"));
            AuthorizedBy(snapshot, ReadRecord(w.records, Field(snapshot, "SUCCESSOR_AUTHORIZATION_RECORD")), s)
            && Resolve(w.repo, s.boundary).Some? && IsAncestor(w.repo, s.boundary, "HEAD")
  {
    NamedExactlyWhen(w.records, s);
    AuthorizeWrittenOut(w.repo, NamedSuccessor(w.records), s);
  }

  // ---------------------------------------------------------------------------------------------
  // AT-M1
  // ---------------------------------------------------------------------------------------------

  const SUPERSESSION: string := "192ebb74ba600f7a53ddf5967a7254a1f7a72fb8"
  const STAGE_HEAD: string := "c80350ecc19e28212d9a95cddeb80a24aabe6eae"

  /** The snapshot says, somewhere on its lines, that AT-M1 is superseded, by which commit, and that
      AT-M2 is authorized. */
  ghost predicate SaysSuperseded(snapshot: string, supersession: string) {
    TextSays(snapshot, "AT_M1_LIFECYCLE", "SUPERSEDED BY AT-M2")
    && TextSays(snapshot, "AT_M1_SUPERSESSION_COMMIT", supersession)
    && TextSays(snapshot, "AT_M2", "AUTHORIZED")
  }

  lemma NothingIsTold(key: string, phrase: string)
    ensures !TextSays("", key, phrase)
  {
    assert Lines("") == [""];
  }

  lemma SupersessionWrittenOut(snapshot: string, supersession: string)
    ensures SupersessionRecorded(snapshot, supersession) <==> SaysSuperseded(snapshot, supersession)
  {
    MarkedAnywhereWrittenOut(snapshot, "AT_M1_LIFECYCLE", "SUPERSEDED BY AT-M2");
    MarkedAnywhereWrittenOut(snapshot, "AT_M1_SUPERSESSION_COMMIT", supersession);
    MarkedAnywhereWrittenOut(snapshot, "AT_M2", "AUTHORIZED");
    if snapshot == "" { NothingIsTold("AT_M2", "AUTHORIZED"); }
  }

  lemma EndWrittenOut(r: Repo, recorded: bool, stageHead: string, supersession: string, end: string)
    requires supersession != "HEAD"
    requires end == if recorded && IsCommit(r, supersession) && IsAncestor(r, supersession, "HEAD")
                       && IsAncestor(r, stageHead, supersession) then supersession else "HEAD"
    ensures end != "HEAD" <==>
            recorded && Resolve(r, supersession).Some? && IsAncestor(r, supersession, "HEAD")
            && IsAncestor(r, stageHead, supersession)
    ensures end != "HEAD" ==> end == supersession
  {
  }

  lemma PinnedIsNotHead()
    ensures SUPERSESSION != "HEAD"
  {
    assert |SUPERSESSION| == 40;
  }

  /** AT-M1's window closes, at the pinned commit, exactly when the snapshot says all three and the
      pinned commit is a commit, an ancestor of HEAD and a descendant of the pinned stage head. */
  lemma AtM1ClosesExactlyWhen(w: World)
    ensures AtM1RejectionWindow(w).1 != "HEAD" <==>
            && SaysSuperseded(FileAt(w.records, "docs" + "/" + ("governance" + "/" + "AI_AGENTS_PM_STATE.md")), SUPERSESSION)
            && Resolve(w.repo, SUPERSESSION).Some? && IsAncestor(w.repo, SUPERSESSION, "HEAD")
            && IsAncestor(w.repo, STAGE_HEAD, SUPERSESSION)
    ensures AtM1RejectionWindow(w).1 != "HEAD" ==> AtM1RejectionWindow(w).1 == SUPERSESSION
  {
    var snapshot := FileAt(w.records, SUPERSESSION_RECORD);
    PinnedIsNotHead();
    SupersessionWrittenOut(snapshot, SUPERSESSION);
    EndWrittenOut(w.repo, SupersessionRecorded(snapshot, SUPERSESSION), STAGE_HEAD, SUPERSESSION, AtM1RejectionWindow(w).1);
  }
}
