# Verified model of the AI-Agents-SWD governance and delivery scripts

This project models, in Dafny, five pieces of decision logic of the platform's `scripts/` directory
and proves what they guarantee over every input, every history or every interleaving.

* **Successor lifecycle** (`CommitGraph`, `Records`, `RecordText`, `SuccessorLifecycle`,
  `Authorization`, `RecordEdits`, `LineDeletion`, `LifecycleExamples`). A commit graph with trees, and separately the governance
  records of the working tree. With fixed records, a live guard exempts the content of one and the
  same commit over every later history, a closed window is final, and its three-dot and two-endpoint
  diffs agree. For edits of the records: exactly which edits can only ever add reported paths or
  reopen windows, and what deleting a single line does to the fields and marks that authorize.
* **Freeze amendment** (`FreezeAuthority`, `FreezeAmendment`). Every accepted divergence of a frozen
  artifact is named by a binding record for the authorized milestone and has the declared shape. For
  every valid edit script an accepted declared-line amendment keeps history, and any chain of
  amendments, of either shape, is one amendment of the original.
* **Canonical state carriers** (`StateJudge`, `CarrierVerdict`, `CarrierScan`, `CarrierDiscovery`,
  `CarrierForms`, `CarrierReadings`, `CarrierDomain`). The clause parser, the per-kind judgement, the
  line scanner and the whole-domain checks. Clauses speak independently of each other, the strict and the lenient reading
  agree on atomic values, discovery does not depend on values, an accepted domain is safe as a
  whole, and consistency is the existence of one truth assignment.
* **Migration runner** (`MigrationRunner`, `MigrationEffect`, `MigrationProcess`). Any number of
  runner processes over one advisory lock, with failures, lock timeouts and crashes at every step.
  The reachable logs are exactly the concatenations of prefixes of the ordered list, one per runner.
  The database always equals the prefix up to the furthest point any runner got, each migration
  applied once, exactly when every migration is a no-op from its own application on. The
  single-process code is proved to be a run of this protocol, however its calls to the server end.
* **Runtime config validator and values overlay** (`RuntimeConfig`, `ConfigReport`,
  `ConfigGuarantees`, `ConfigSecrecy`, `EnvFile`; `ValuesOverlay`). Exactly when each mode passes,
  the order of the modes, and that the values of secrets influence no verdict, finding, text or JSON,
  from the lines of an env file on; the recursive merge read at any path, its algebra, and exactly
  when the fail-closed production checks hold for every base.

`Text` holds the string operations all of them share, `NameOrder` the order of names and `Wrappers`
the optional value; a word-boundary search of the scripts is proved to be membership of a token.
`dafny verify dfyconfig.toml` checks the whole project.

## How the source is read

* Text is ASCII, except that a blob in git may hold byte sequences that are not UTF-8. Record files
  are read with line ends already normalised, as `read_text` does.
* A record path may be spelled with empty and `.` segments. `..` segments, absolute paths, links and
  file systems that ignore case are not resolved.
* A commit name is a full commit id or `HEAD`. `git diff --name-only` is the set of paths whose
  content differs; rename detection and path quoting are not modelled.
* A recorded end or a baseline spelled `HEAD` moves with HEAD, so the lemmas about finality and about
  edits speak of names that are not spelled that way. The AT-M1 window lemma takes as given that the stage head
  lies between the baseline and HEAD: the verifier's `main` checks on its own that the stage head is
  reachable from HEAD, and that the pinned baseline precedes the pinned stage head is a fact about
  that repository which no code path checks.
* `difflib` opcodes are an arbitrary valid edit script that tiles both files.
* A migration file applies atomically, and a closed or crashed session gives its lock back.
* A report is specified by a table: for each code, when a mode asks for it, the condition on the
  environment under which it is due, its severity, its field and its message. The checks put their
  questions to the environment as tests of single variables, of the provider and of the Vault
  address; any variable's text may be compared and quoted, a secret's too.
* The carrier scan takes a document, and the env file reader a file, as its list of lines.

Where the code and its comments disagree, the model follows the code:

* The live guard says it compares content byte for byte, but it compares decoded text, so an edit of
  line ends or of undecodable bytes only is taken for reviewed content.
  `BytewiseNewContentReportedExactlyWhen` states exactly which edits are missed,
  `PlainContentIsAlwaysReported` when none is, and `LineEndEditIsNotReported` gives a concrete
  repository and records.
* A comment says a snapshot alone can never open a window. `SnapshotAloneExactlyWhen` shows that it
  can exactly when it names itself as the decision record; `SnapshotCanStandAlone` is such a
  snapshot.
* The appended-note check speaks of a note that opens with the marker, but it accepts text between
  the historical content and the marker (`TextBeforeMarkerIsAccepted`); `AppendedExactlyWhen` states
  the accepted shape and `OpensExactlyWhen` when the note does open with it.
* An empty record field takes the next non-blank line as its value (`EmptyFieldTakesNextLine`), so
  blanking a field need not withdraw it (`BlankingMovesExemption`).
* An `authority` carrier is accepted as soon as AUTHORITATIVE is affirmed and no supersession is, so
  other closure terms are not excluded there (`AllowedExactlyWhen`, `AuthorityToleratesClosure`).

## Model

| member | source | states |
|---|---|---|
| `CommitGraph.AncestorTransitive` | scripts/successor_lifecycle.py:101-113 | ancestry as `merge-base --is-ancestor` reports it is transitive |
| `CommitGraph.IsAncestorStable` | scripts/successor_lifecycle.py:101-113 | ancestry of fixed commits, and being an ancestor of HEAD, survive every growth of the repository |
| `CommitGraph.MergeBaseOfAncestor` | scripts/successor_lifecycle.py:209-212 | the only merge base of a commit and its descendant is the commit itself |
| `Records.EmptyFieldTakesNextLine` | scripts/successor_lifecycle.py:89-91 | a field with nothing after its colon reads the next non-blank line |
| `Records.SegmentsRead` | scripts/successor_lifecycle.py:84-86 | empty and `.` segments of a record path are dropped wherever they stand, all others stay in order |
| `Records.CanonicalReads` | scripts/successor_lifecycle.py:84-86 | a relative record path names the file its remaining segments name |
| `RecordText.FieldWrittenOut` | scripts/successor_lifecycle.py:89-91 | a field reads as the first text after the colon of its first key line, on that line or on the first line below that is not blank, stripped |
| `RecordText.NoFieldWrittenOut` | scripts/successor_lifecycle.py:89-91 | and is empty when there is no such text |
| `RecordText.MarkedWrittenOut` | scripts/successor_lifecycle.py:130-142 | a key is marked iff some line starts with it and the next text after its colon starts with the phrase as whole words |
| `RecordText.MarkedAnywhereWrittenOut` | scripts/verify_at_m1_architecture_reset.py:309-314 | the same with the key anywhere in a line |
| `Authorization.KeyWrittenOut` | scripts/successor_lifecycle.py:129-129 | the key of a milestone, character by character |
| `Authorization.NamedExactlyWhen` | scripts/successor_lifecycle.py:116-145 | the records name a successor iff its three fields are set, a line marks its key AUTHORIZED, a decision is cited, a line of the decision record marks that decision RESOLVED / BINDING, and the boundary occurs in that record |
| `Authorization.AuthorizedExactlyWhen` | scripts/successor_lifecycle.py:116-152 | and it is authorized iff, besides, the boundary is a commit and an ancestor of HEAD |
| `Authorization.AtM1ClosesExactlyWhen` | scripts/verify_at_m1_architecture_reset.py:287-324 | AT-M1's window closes, at the pinned commit, iff the snapshot carries all three marks and the commit is an ancestor of HEAD and a descendant of the stage head |
| `SuccessorLifecycle.WindowEndIsBetween` | scripts/successor_lifecycle.py:155-169 | for a baseline in the history of HEAD, the window end descends from the baseline and is an ancestor of HEAD |
| `SuccessorLifecycle.ClosedWindowIsFinal` | scripts/successor_lifecycle.py:116-222 | a closed window keeps its end and its changed paths over every later history that leaves the records alone |
| `SuccessorLifecycle.RejectionRangeIsChangedPaths` | scripts/successor_lifecycle.py:209-222 | the three-dot diff of `rejection_range` and the two-endpoint `changed_paths` are the same set |
| `SuccessorLifecycle.LiveGuardOverHistory` | scripts/successor_lifecycle.py:244-312 | with fixed records the exempt content stays that of the same commit over every later history |
| `SuccessorLifecycle.BytewiseNewContentReportedExactlyWhen` | scripts/successor_lifecycle.py:282-312 | of the paths whose bytes match neither baseline nor changeset end, exactly those are missed that equal the end up to line ends and undecodable bytes |
| `SuccessorLifecycle.DecodesAlike` | scripts/successor_lifecycle.py:282-292 | two blobs decode to the same text iff they are equal up to line ends and undecodable bytes, a relation defined without decoding |
| `SuccessorLifecycle.PlainContentIsAlwaysReported` | scripts/successor_lifecycle.py:282-312 | without carriage returns and undecodable bytes in either blob, content matching neither is always reported |
| `SuccessorLifecycle.SnapshotAloneExactlyWhen` | scripts/successor_lifecycle.py:84-152 | the snapshot without any other file authorizes a successor iff the decision record it names is itself, in any spelling of its path |
| `SuccessorLifecycle.AtM1WindowIsBetween` | scripts/verify_at_m1_architecture_reset.py:287-324 | with the stage head between the baseline and HEAD, the AT-M1 window ends between them too |
| `SuccessorLifecycle.AtM1ClosedWindowIsFinal` | scripts/verify_at_m1_architecture_reset.py:287-324 | once closed, the AT-M1 window and its diff never change while the records stay |
| `SuccessorLifecycle.AtM1PinnedWindowIsBetween` | scripts/verify_at_m1_architecture_reset.py:287-324 | the window of the pinned commits, with the stage head between baseline and HEAD, ends between them |
| `SuccessorLifecycle.AtM1PinnedWindowIsFinal` | scripts/verify_at_m1_architecture_reset.py:287-324 | once closed, the window of the pinned commits and its diff never change while the records stay |
| `SuccessorLifecycle.LiveGuardExact` | scripts/successor_lifecycle.py:295-312 | a path is reported iff its content at HEAD differs from the baseline and, with a valid changeset end, its text differs from the text there |
| `SuccessorLifecycle.OpenWindowSeesHead` | scripts/successor_lifecycle.py:215-222 | while the window is open a path is reported iff its content at HEAD differs from the baseline |
| `RecordEdits.EditOnlyAddsExactlyWhen` | scripts/successor_lifecycle.py:254-312 | any edit of the records can only add reported paths, in every repository and for every baseline, iff the new records grant no exemption, or the old one with the same end and a boundary that was no harder to meet |
| `RecordEdits.EditOnlyReopensExactlyWhen` | scripts/successor_lifecycle.py:116-169 | any edit of the records leaves every window where it was or reopens it, in every repository, iff it names no successor or one at the same boundary |
| `RecordEdits.EvidenceDecides` | scripts/successor_lifecycle.py:116-152 | four snapshot fields, the AUTHORIZED mark, the cited decision and the binding of the decision record decide the successor and the exemption, and nothing else in the records does |
| `RecordEdits.WithdrawalOnlyAdds` | scripts/successor_lifecycle.py:116-169 | withdrawing any pieces of that evidence can only add reported paths and leaves every window or reopens it |
| `RecordEdits.RemovalWithdraws` | scripts/successor_lifecycle.py:84-86 | removing a whole record, whichever it is, is such a withdrawal |
| `LineDeletion.DeletedField` | scripts/successor_lifecycle.py:89-91 | what a field reads after any one line is deleted: the same, unless it was read off that line, and then the next key line or the next text takes over |
| `LineDeletion.DeletionWithdrawsExactlyWhen` | scripts/successor_lifecycle.py:89-91 | a deletion leaves or withdraws a field iff the field is not read off the line, or nothing or the same value takes over |
| `LineDeletion.MarkAppearsExactlyWhen` | scripts/successor_lifecycle.py:131-149 | a deletion makes a mark appear iff the text below completes a key line that was left dangling |
| `LineDeletion.LineDeletionOnlyAdds` | scripts/successor_lifecycle.py:116-312 | in records that write each field once and each key with its text on one line, deleting any line of any record can only add reported paths and reopen windows |
| `LifecycleExamples.BlankingMovesExemption` | scripts/successor_lifecycle.py:89-91 | blanking the changeset end above a bare commit id moves the exemption to that commit, and in a concrete repository a reported path disappears |
| `LifecycleExamples.LineEndEditIsNotReported` | scripts/successor_lifecycle.py:282-312 | a concrete authorized history whose HEAD content differs from both in a line end and an undecodable byte and is not reported |
| `LifecycleExamples.SnapshotCanStandAlone` | scripts/successor_lifecycle.py:84-152 | a snapshot that names itself, in any spelling, authorizes a successor as the only record present |
| `LifecycleExamples.SelfNamingSpellings` | scripts/successor_lifecycle.py:84-86 | two such spellings, one with a leading `./` |
| `LifecycleExamples.ReviewedWindowIsClosed` | scripts/successor_lifecycle.py:155-169 | a concrete history and records whose window is closed short of HEAD |
| `FreezeAuthority.FreezeContract` | scripts/successor_lifecycle.py:315-412 | an artifact is accepted iff it is the historical content, or a decision and a record are named, the record marks the decision binding and is about the authorized milestone, and its last declaration of the path with a legal mode has the shape of the divergence |
| `FreezeAuthority.BindingExactlyWhen` | scripts/successor_lifecycle.py:315-342 | the clauses under which a freeze-amendment record binds, each written out |
| `FreezeAuthority.DeclarationLine` | scripts/successor_lifecycle.py:345-345 | a line with the key, a mode and a path declares that mode for that path |
| `FreezeAuthority.DeclarationsLineByLine` | scripts/successor_lifecycle.py:344-347 | declarations that stand on single lines are read off line by line, in order |
| `FreezeAuthority.AcceptedNeverShrinks` | scripts/successor_lifecycle.py:357-412 | an accepted artifact has at least as many lines as history |
| `FreezeAuthority.FillAmendable` | scripts/successor_lifecycle.py:344-350 | the loop fills the map of declarations in order |
| `FreezeAuthority.AmendableExactlyWhen` | scripts/successor_lifecycle.py:344-350 | a path is amendable iff some declaration of it has a legal mode |
| `FreezeAuthority.LastLegalWins` | scripts/successor_lifecycle.py:344-350 | the last declaration with a legal mode decides the mode |
| `FreezeAuthority.NoAuthorityMeansFrozen` | scripts/successor_lifecycle.py:315-412 | while any of those clauses about the record fails, only the historical content is accepted |
| `FreezeAmendment.DeclaredLineAmendment` | scripts/successor_lifecycle.py:357-378 | for every valid edit script the opcode loop accepts iff every non-equal opcode adds lines, at least as many as it removes, all of them declared |
| `FreezeAmendment.DeclaredAmendmentPreservesHistory` | scripts/successor_lifecycle.py:357-378 | for every valid edit script, acceptance keeps the equal blocks as a subsequence of both files, undeclared new lines are among them, every added line is declared, and no more lines are lost than added |
| `FreezeAmendment.AmendableExactlyWhenMatched` | scripts/successor_lifecycle.py:357-378 | some valid script from one file to another is accepted iff a matching joins them in which everything unmatched is declared and no gap shrinks |
| `FreezeAmendment.ChainIsOneAmendment` | scripts/successor_lifecycle.py:357-378 | any chain of accepted amendments is itself an accepted amendment of the original |
| `FreezeAmendment.AppendedExactlyWhen` | scripts/successor_lifecycle.py:381-388 | accepted iff the new text is the old text, anything, the marker, anything |
| `FreezeAmendment.OpensExactlyWhen` | scripts/successor_lifecycle.py:381-388 | an accepted note opens with the marker iff the marker stands right after the historical text |
| `FreezeAmendment.TextBeforeMarkerIsAccepted` | scripts/successor_lifecycle.py:381-388 | a concrete note with text before its marker is accepted |
| `FreezeAmendment.AppendedNotesCompose` | scripts/successor_lifecycle.py:381-388 | a chain of accepted appended notes is an accepted amendment of the original |
| `FreezeAmendment.LfReads` | scripts/successor_lifecycle.py:353-354 | every CR LF becomes LF, wherever it stands |
| `FreezeAmendment.LfStays` | scripts/successor_lifecycle.py:353-354 | a text without CR LF stays as it is |
| `FreezeAmendment.LfIsNotIdempotent` | scripts/successor_lifecycle.py:353-354 | normalising twice is not normalising once |
| `Text.WordSearchIsTokenSearch` | scripts/verify_at_m1_architecture_reset.py:502-504 | a word-boundary search finds a word iff the word is one of the tokens |
| `StateJudge.CollectPropositions` | scripts/verify_at_m1_architecture_reset.py:525-540 | the nested loops collect exactly the propositions of the clauses, in order |
| `StateJudge.SingleClauseSays` | scripts/verify_at_m1_architecture_reset.py:525-540 | a value with no slash, comma or AND affirms each state word it contains, or negates each if NO, NOT or NEVER occurs |
| `CarrierVerdict.JoinedClauses` | scripts/verify_at_m1_architecture_reset.py:525-540 | the propositions of two joined clauses are those of the first followed by those of the second |
| `CarrierVerdict.GluedClauses` | scripts/verify_at_m1_architecture_reset.py:525-540 | the same for any number of clauses with any mix of separators between them |
| `CarrierVerdict.ClauseOrderIrrelevant` | scripts/verify_at_m1_architecture_reset.py:591-641 | acceptance does not change when clauses are reordered or duplicated, or the separators between them changed |
| `CarrierVerdict.NoShielding` | scripts/verify_at_m1_architecture_reset.py:591-641 | whatever the separators, no added clause rescues an affirmed closure, an affirmed AUTHORIZED for AT-M2, or an affirmed supersession |
| `CarrierVerdict.AllowedExactlyWhen` | scripts/verify_at_m1_architecture_reset.py:591-641 | for each kind, the propositions that are accepted, in both directions |
| `CarrierVerdict.AuthorityToleratesClosure` | scripts/verify_at_m1_architecture_reset.py:591-641 | `AUTHORITATIVE / CLOSED` is accepted for an authority carrier and rejected for a status carrier |
| `CarrierVerdict.AtomicExactlyWhen` | scripts/verify_at_m1_architecture_reset.py:753-760 | a value passes iff it is not blank and contains none of the clause constructs |
| `CarrierVerdict.StrictIsLenientOnAtomic` | scripts/verify_at_m1_architecture_reset.py:507-522 | on every atomic value the reading through `current_value` and the whole value get the same verdict for every kind |
| `CarrierReadings.AtomicWrittenOut` | scripts/verify_at_m1_architecture_reset.py:705-760 | the six constructs, character by character: a value passes iff it is not blank and holds none of them |
| `CarrierReadings.OneClauseAllowed` | scripts/verify_at_m1_architecture_reset.py:525-774 | a value with no slash, comma or AND is accepted for its kind iff it is atomic and holds the words its kind needs and none it forbids |
| `CarrierReadings.LenientReading` | scripts/verify_at_m1_architecture_reset.py:507-522 | a value with one parenthetical is read, up to its first qualifier, as what stands outside if that names a state, else as what stands inside |
| `CarrierScan.CarrierValue` | scripts/verify_at_m1_architecture_reset.py:806-827 | the value is the stripped inline text, or that block joined by newlines |
| `CarrierScan.ContinuationLines` | scripts/verify_at_m1_architecture_reset.py:814-827 | the loop gathers the block that starts at the first line that is not blank, at most two blank lines down, and goes on with indented lines |
| `CarrierScan.ContinuationIs` | scripts/verify_at_m1_architecture_reset.py:814-827 | what is gathered is that block and nothing else, in both directions |
| `CarrierScan.CanonicalCarriers` | scripts/verify_at_m1_architecture_reset.py:789-900 | the line loop with its two flags returns the scan of the document |
| `CarrierScan.ScanFindsExactly` | scripts/verify_at_m1_architecture_reset.py:829-900 | a carrier is found iff some line declares it in the scanner state before that line, with that line's sources as its value |
| `CarrierForms.ScanWrittenOut` | scripts/verify_at_m1_architecture_reset.py:789-900 | a carrier is found iff some line declares it: heading, table row, subject key or section label, with its form, its kind by the words of its key and its value, each written out |
| `CarrierForms.KindIsByWords` | scripts/verify_at_m1_architecture_reset.py:777-786 | the kind of an AT-D09 carrier by the whole words of its normalised key |
| `CarrierForms.NormalizedKeyReads` | scripts/verify_at_m1_architecture_reset.py:564-566 | a run of underscores and hyphens in a key is one space |
| `CarrierForms.NormalizedKeyStays` | scripts/verify_at_m1_architecture_reset.py:564-566 | a key without them is only upper-cased |
| `CarrierForms.FieldLineReads` | scripts/verify_at_m1_architecture_reset.py:734-750 | quote marks and a list marker before `key:value` change nothing about what is read |
| `CarrierForms.BoldIsDropped` | scripts/verify_at_m1_architecture_reset.py:734-735 | bold marks are dropped wherever they stand |
| `CarrierForms.CodeIsDropped` | scripts/verify_at_m1_architecture_reset.py:734-735 | and so are code marks |
| `CarrierForms.RowReads` | scripts/verify_at_m1_architecture_reset.py:853-854 | the cells of a table row are the stripped texts between its bars |
| `CarrierForms.ParentheticalsRead` | scripts/verify_at_m1_architecture_reset.py:840-840 | the parentheticals of a text, one after the other |
| `CarrierForms.UnclosedReads` | scripts/verify_at_m1_architecture_reset.py:840-840 | an opening parenthesis that is never closed opens none |
| `CarrierScan.ScannerState` | scripts/verify_at_m1_architecture_reset.py:829-851 | a line is fenced iff an odd number of fence lines precede it, and in the section iff the last heading before it, also one inside a fence, mentions the subject |
| `CarrierScan.AcceptedCarrierHasOneSource` | scripts/verify_at_m1_architecture_reset.py:753-774 | every accepted carrier takes its value from exactly one text |
| `CarrierScan.AtM2CarriersAreAuthorizations` | scripts/verify_at_m1_architecture_reset.py:777-786 | every AT-M2 carrier is judged as an authorization |
| `CarrierDiscovery.KeyedFieldAround` | scripts/verify_at_m1_architecture_reset.py:734-750 | the key depends only on the text before the first colon, the inline value only on the text after it |
| `CarrierDiscovery.DiscoveryIgnoresValues` | scripts/verify_at_m1_architecture_reset.py:734-900 | documents that differ only after first colons of lines that are not headings or table rows declare the same (line, form, kind) list |
| `CarrierDomain.UnauthorizedCarriers` | scripts/verify_at_m1_architecture_reset.py:910-917 | the list holds exactly the rejected carriers |
| `CarrierDomain.MissingRequired` | scripts/verify_at_m1_architecture_reset.py:920-930 | the list holds exactly the required carriers that are absent |
| `CarrierDomain.CarriersInExactly` | scripts/verify_at_m1_architecture_reset.py:903-907 | the domain is exactly the scans of its canonical artifacts |
| `CarrierDomain.WholeDomainSafety` | scripts/verify_at_m1_architecture_reset.py:903-930 | with nothing unauthorized and nothing missing, AT-D09 affirms an open state, no deciding carrier affirms closure, and every AT-M2 carrier denies AUTHORIZED |
| `CarrierDomain.ContradictingCarriers` | scripts/verify_at_m1_architecture_reset.py:933-945 | the result holds exactly the (kind, term) pairs asserted both ways |
| `CarrierDomain.ConsistentExactlyWhen` | scripts/verify_at_m1_architecture_reset.py:933-945 | no pair is contradicted iff one truth assignment satisfies every proposition of every carrier |
| `MigrationRunner.RunKeepsInv` | scripts/k8s_apply_migrations.py:46-80 | every step of every interleaving keeps the lock and log invariant |
| `MigrationRunner.MutualExclusion` | scripts/k8s_apply_migrations.py:51-63 | at most one runner is between lock and unlock in every reachable state |
| `MigrationRunner.ExitCodeSays` | scripts/k8s_apply_migrations.py:68-80 | in every reachable state: 2 iff enabled without a database URL, 1 only for an enabled runner with one, 0 only if disabled or the whole list was applied |
| `MigrationRunner.LogIsConcatenationOfPrefixes` | scripts/k8s_apply_migrations.py:54-63 | the applied log is a concatenation of prefixes of the ordered list, one per runner |
| `MigrationRunner.EveryRunSequenceHappens` | scripts/k8s_apply_migrations.py:54-65 | every such concatenation is the log of some interleaving |
| `MigrationEffect.OrderedMigrations` | scripts/k8s_apply_migrations.py:37-39 | the plan is exactly the forward migrations of the directory, in strict name order |
| `MigrationEffect.PlannedExactlyWhen` | scripts/k8s_apply_migrations.py:37-39 | a file is planned iff it is in the directory, its name ends in `.sql` and not in `_down.sql` |
| `NameOrder.BeforeWrittenOut` | scripts/k8s_apply_migrations.py:37-39 | the order of names is that of the first character in which they differ |
| `MigrationEffect.PlanIsDetermined` | scripts/k8s_apply_migrations.py:37-39 | the plan does not depend on the listing order |
| `MigrationEffect.NeverRollsBack` | scripts/k8s_apply_migrations.py:37-63 | no `*_down.sql` is ever applied |
| `MigrationEffect.ConvergesExactlyWhen` | scripts/k8s_apply_migrations.py:46-65 | the database is always the state after the first migrations up to the furthest any runner got, each applied once, iff every migration is a no-op on every state at or after its own application |
| `MigrationEffect.SomePrefixIsWeaker` | scripts/k8s_apply_migrations.py:46-65 | being the state after some prefix is not enough: a toggling migration has that and does not converge |
| `MigrationEffect.HighNeverDecreases` | scripts/k8s_apply_migrations.py:46-65 | the furthest point any runner got never decreases along a run |
| `MigrationEffect.CompletedRunnerMeansComplete` | scripts/k8s_apply_migrations.py:68-80 | after an enabled runner exits with 0 the whole list is applied, for good |
| `MigrationEffect.LockCanBeFreed` | scripts/k8s_apply_migrations.py:51-65 | a lock holder that meets no fault gives the lock back |
| `MigrationEffect.CompletionStaysPossible` | scripts/k8s_apply_migrations.py:46-80 | from every reachable state, without any further fault, one more runner can exit with 0 and bring the list to completion |
| `MigrationEffect.DisabledRunnerAppliesNothing` | scripts/k8s_apply_migrations.py:68-78 | a runner that is not enabled or has no database URL applies nothing |
| `MigrationProcess.Server.Apply` | scripts/k8s_apply_migrations.py:46-65 | whatever call fails, before or after it takes effect, the process is a run of the protocol that exits with the lock given back and a prefix applied; it exits with 0 iff the lock was free and every call succeeded, and then all of it is applied |
| `MigrationProcess.Server.ApplyAll` | scripts/k8s_apply_migrations.py:56-59 | the loop applies a prefix and is clean iff every call succeeds; a call that fails after its effect leaves its migration applied |
| `ConfigReport.Evaluate` | scripts/validate_runtime_config.py:619-673 | the report holds the mode, the observed keys, the provider and, in the order of the mode, exactly the findings that are due, with code, message, severity and field |
| `ConfigReport.Report.CheckPlaceholders` | scripts/validate_runtime_config.py:256-270 | the loop appends one finding per listed field that carries the placeholder, in order |
| `ConfigReport.Report.DecideProvider` | scripts/validate_runtime_config.py:376-458 | the early exits append exactly the findings whose conditions on provider, address, token and mode hold, each stated on its own |
| `ConfigGuarantees.OrderIsAsked` | scripts/validate_runtime_config.py:634-673 | the order of a report covers exactly the findings its mode asks for |
| `ConfigGuarantees.HoldsExactly` | scripts/validate_runtime_config.py:619-673 | a report holds a finding iff its mode asks for a code that is due and that words it |
| `ConfigGuarantees.LocalPassesExactlyWhen` | scripts/validate_runtime_config.py:635-645 | local passes iff switched-on real tests have target and token and the provider is env, mock-vault, or Vault with address and real token |
| `ConfigGuarantees.StagingPassesExactlyWhen` | scripts/validate_runtime_config.py:647-652 | staging passes iff local does, authentication is not trust, the password is real, and the Vault address is no development one or allowed |
| `ConfigGuarantees.ProductionPassesExactlyWhen` | scripts/validate_runtime_config.py:654-660 | production-check passes iff real tests are ready, the provider is Vault at a non-development address, token, password and webhook are real, no other secret is the placeholder, authentication is not trust and nothing was executed |
| `ConfigGuarantees.TestRuntimePassesExactlyWhen` | scripts/validate_runtime_config.py:662-671 | test-runtime passes iff what local demands holds, Vault is named explicitly with the exact test mount and path, no provider key is in the environment, the reasoning provider and model are the pinned ones, the live gate is closed and nothing was executed |
| `ConfigGuarantees.ModesAreOrdered` | scripts/validate_runtime_config.py:619-673 | passing production-check implies staging implies local; passing test-runtime implies local |
| `ConfigGuarantees.ProductionPassMeansReal` | scripts/validate_runtime_config.py:361-458 | passing production-check means provider vault, an address that is neither empty nor one of the two development ones, and real token, password and webhook |
| `ConfigGuarantees.WarnsAndNotesExactlyWhen` | scripts/validate_runtime_config.py:167-458 | a report warns iff staging uses the mock store or a tolerated development Vault, and notes iff a real test is switched on |
| `ConfigGuarantees.QuotesOwnField` | scripts/validate_runtime_config.py:305-611 | a message quotes nothing, or the variable its finding is about |
| `ConfigSecrecy.DueAgrees` | scripts/validate_runtime_config.py:152-611 | whether any finding is due is decided without comparing the text of a secret |
| `ConfigSecrecy.MessageAgrees` | scripts/validate_runtime_config.py:167-611 | the message of every finding is the same for environments that differ only in secret values |
| `ConfigSecrecy.FactsHoldSecretText` | scripts/validate_runtime_config.py:152-611 | the checks do have the text of secrets at hand: comparing or quoting it would tell such environments apart |
| `ConfigSecrecy.SecretsDoNotShow` | scripts/validate_runtime_config.py:619-673 | environments that differ only in secret values of the same blank and placeholder status give identical reports |
| `ConfigSecrecy.SecretsDoNotShowInOutput` | scripts/validate_runtime_config.py:676-689 | and identical text and identical JSON |
| `ConfigSecrecy.ToDict` | scripts/validate_runtime_config.py:108-115 | the JSON holds mode, verdict, provider, every finding with its four fields and the observed names sorted |
| `ConfigSecrecy.DictSays` | scripts/validate_runtime_config.py:85-115 | the JSON, member by member |
| `ConfigSecrecy.TextEndsInVerdict` | scripts/validate_runtime_config.py:676-689 | the text ends in the PASS line iff the mode passes, and in the FAIL line otherwise |
| `ConfigSecrecy.FindingIsShown` | scripts/validate_runtime_config.py:681-684 | every finding has its line in the text, with severity, code, field and message |
| `EnvFile.LoadEnvFile` | scripts/validate_runtime_config.py:123-135 | the loop folds the assignments of the lines |
| `EnvFile.AssignmentReads` | scripts/validate_runtime_config.py:128-134 | a line `k=v` assigns the stripped value to the stripped name |
| `EnvFile.NothingAssigned` | scripts/validate_runtime_config.py:128-132 | a blank line, a comment and a line without an equals sign assign nothing |
| `EnvFile.FileSetsExactly` | scripts/validate_runtime_config.py:123-135 | a file sets a name iff some line `name=value` does |
| `EnvFile.SetExactlyWhenAssigned` | scripts/validate_runtime_config.py:123-135 | a name is set iff some line assigns it |
| `EnvFile.LastAssignmentWins` | scripts/validate_runtime_config.py:123-135 | the last assigning line decides the value |
| `EnvFile.GatherEnv` | scripts/validate_runtime_config.py:138-144 | file values override the process environment and nothing else changes |
| `EnvFile.Validate` | scripts/validate_runtime_config.py:692-721 | from file and process environment to text and exit code: 0 iff the mode passes on the overridden environment |
| `EnvFile.FileDecides` | scripts/validate_runtime_config.py:123-144 | what a check reads of a variable is what the last line `name=value` of the file says, whatever the process environment |
| `EnvFile.FileCanForbidProduction` | scripts/validate_runtime_config.py:123-660 | a file whose last `SECRET_PROVIDER=` line does not say vault cannot pass production-check |
| `EnvFile.FileSecretsDoNotShow` | scripts/validate_runtime_config.py:123-673 | two env files that differ only in values given to secrets lead to the same report in every mode |
| `ValuesOverlay.Merge` | scripts/verify_gitops_production_isolation.py:121-125 | the looped, recursive merge computes the overlay of two dicts |
| `ValuesOverlay.MergedLookup` | scripts/verify_gitops_production_isolation.py:121-127 | what the merged tree reads at any path, from the two layers alone |
| `ValuesOverlay.OverlayLeafWins` | scripts/verify_gitops_environment_mapping.py:100-106 | every leaf the overlay sets wins over any base |
| `ValuesOverlay.OverlayIdempotent` | scripts/verify_gitops_environment_mapping.py:100-106 | applying an overlay twice is applying it once |
| `ValuesOverlay.OverlayAssociativeExactlyWhen` | scripts/verify_gitops_production_isolation.py:121-125 | three layers associate iff, wherever the middle puts a non-dict between two dicts, the top covers the bottom |
| `ValuesOverlay.NoSandwichAssociates` | scripts/verify_gitops_production_isolation.py:121-125 | with no path that is a dict in both outer layers and something else in the middle, layers associate |
| `ValuesOverlay.RunEntry` | scripts/verify_gitops_production_isolation.py:139-140 | one entry of a table, evaluated left to right: raises iff a path is missing behind guards that are all met, passes iff every guard is met |
| `ValuesOverlay.RunChecks` | scripts/verify_gitops_production_isolation.py:128-146 | evaluating the table raises iff some entry does, and otherwise lists exactly the entries with an unmet guard |
| `ValuesOverlay.FailureHidesMissingPath` | scripts/verify_gitops_environment_mapping.py:111-120 | an unmet guard hides a missing path behind it, and not the other way round |
| `ValuesOverlay.FailClosedExactlyWhen` | scripts/verify_gitops_environment_mapping.py:107-121 | the checks hold over every base iff the overlay pins every guard |
| `ValuesOverlay.IsolationFailClosed` | scripts/verify_gitops_production_isolation.py:127-146 | the isolation table passes over every base iff the overlay alone passes it |
| `ValuesOverlay.IsolationImpliesMapping` | scripts/verify_gitops_environment_mapping.py:106-121 | an overlay that passes the isolation table passes the mapping checks over every base |
| `ValuesOverlay.IsolationWrittenOut` | scripts/verify_gitops_production_isolation.py:128-141 | what a tree that passes the isolation table reads at each guarded path, as literal values |
| `ValuesOverlay.MappingWrittenOut` | scripts/verify_gitops_environment_mapping.py:107-121 | the same for the mapping checks |

## Left out

- The services, SDK packages, admin console and the many single-string `verify_*` scripts: their logic is elsewhere or is a list of independent one-branch checks.
- Abbreviated commit ids, branch names and tags as recorded boundaries: a name that moves would need a model of refs.
- Commands of git other than ancestry, diff and show, and failures of git itself.
- The choice of edit script by `difflib`: acceptance is proved sound for every valid script, not complete for the one the matcher picks.
- The explanatory strings returned beside verdicts, the origins listed by `contradicting_carriers`, and the order of its result.
- The advisory scan of non-canonical records and the other checks of the AT-M1 verifier's `main`.
- Splitting a document into lines, and case rules and white space beyond ASCII.
- Printing, argument parsing and the writing of JSON values as text.
- The text of the `AIAGENTS_BATCH_EXECUTE` gate: a runner is enabled or not.
- Other sessions acting between the calls of one `MigrationProcess.Server.Apply`; interleavings are the subject of the protocol in `MigrationRunner`.
- SQL: a migration is an arbitrary function on database states.
- Key order of merged dicts, and a top-level values file that is not a mapping.
