/**
 The whole canonical state domain: the carriers of every AT-M1 artifact, the required coverage, and
 the checks that decide whether the domain as a whole still says what was decided.
 */
module CarrierDomain {
  import opened StateJudge
  import opened CarrierVerdict
  import opened CarrierScan

  const BINDING: string := "docs/contracts/autonomous-team/at-binding-decisions.md"
  const RESET: string := "docs/architecture/autonomous-team/at-m1-architecture-reset.md"
  const EVIDENCE: string := "docs/handoffs/autonomous-team/at-m1-evidence.md"
  const SLICES: string := "docs/handoffs/autonomous-team/at-m1-implementation-slice-handoff.md"
  const PRECEDENCE: string :=
    "docs/alignment/66-project-completion/master/canonical-source-of-truth-precedence.md"
  const MANIFEST: string :=
    "docs/alignment/66-project-completion/master/canonical-milestone-manifest.md"

  const NON_CANONICAL: seq<string> := [EVIDENCE, SLICES]

  datatype Required = Required(artifact: string, subject: Subject, kind: Kind, form: Form)

  const REQUIRED_CARRIERS: seq<Required> := [
    Required(BINDING, AtD09, Status, Register),
    Required(BINDING, AtD09, Status, HeadingStatus),
    Required(BINDING, AtD09, Status, SectionField),
    Required(BINDING, AtD09, Decision, SectionField),
    Required(BINDING, AtD09, Authority, SectionField),
    Required(BINDING, AtM2, AtM2Authorization, Register),
    Required(RESET, AtD09, Status, Register),
    Required(RESET, AtM2, AtM2Authorization, Register),
    Required(MANIFEST, AtD09, Status, Register),
    Required(PRECEDENCE, AtM2, AtM2Authorization, Register)
  ]

  /** The repository's documents as lines; a missing file reads as an empty one. */
  type Docs = map<string, seq<string>>

  datatype Placed = Placed(artifact: string, carrier: Carrier)

  function Read(docs: Docs, artifact: string): seq<string> {
    if artifact in docs then docs[artifact] else []
  }

  function Place(artifact: string, cs: seq<Carrier>): (ps: seq<Placed>)
    ensures |ps| == |cs| && forall i :: 0 <= i < |cs| ==> ps[i] == Placed(artifact, cs[i])
  {
    seq(|cs|, i requires 0 <= i < |cs| => Placed(artifact, cs[i]))
  }

  function CarriersOf(docs: Docs, subject: Subject, artifact: string): seq<Placed> {
    if artifact in NON_CANONICAL then [] else Place(artifact, Scan(subject, Read(docs, artifact)))
  }

  /** `domain_carriers` over any list of artifacts. */
  function CarriersIn(docs: Docs, subject: Subject, artifacts: seq<string>): seq<Placed> {
    if artifacts == [] then []
    else CarriersOf(docs, subject, artifacts[0]) + CarriersIn(docs, subject, artifacts[1..])
  }

  lemma {:induction false} CarriersInExactly(docs: Docs, subject: Subject, artifacts: seq<string>, p: Placed)
    ensures p in CarriersIn(docs, subject, artifacts) <==>
            p.artifact in artifacts && p.artifact !in NON_CANONICAL
            && p.carrier in Scan(subject, Read(docs, p.artifact))
  {
    if artifacts != [] {
      CarriersInExactly(docs, subject, artifacts[1..], p);
      var here := artifacts[0];
      CarriersOfExactly(docs, subject, here, p);
      assert p.artifact in artifacts <==> p.artifact == here || p.artifact in artifacts[1..];
    }
  }

  lemma CarriersOfExactly(docs: Docs, subject: Subject, artifact: string, p: Placed)
    ensures p in CarriersOf(docs, subject, artifact) <==>
            p.artifact == artifact && artifact !in NON_CANONICAL
            && p.carrier in Scan(subject, Read(docs, artifact))
  {
    var cs := Scan(subject, Read(docs, artifact));
    var ps := Place(artifact, cs);
    if p.artifact == artifact && p.carrier in cs {
      var i :| 0 <= i < |cs| && cs[i] == p.carrier;
      assert ps[i] == p;
    }
  }

  // ---------------------------------------------------------------------------------------------
  // The checks
  // ---------------------------------------------------------------------------------------------

  function JudgeOf(p: Placed): Verdict { Judge(p.carrier.kind, p.carrier.value) }

  method UnauthorizedCarriers(carriers: seq<Placed>) returns (failures: seq<Placed>)
    ensures forall p :: p in failures <==> p in carriers && JudgeOf(p).Rejected?
  {
    failures := [];
    for i := 0 to |carriers|
      invariant forall p :: p in failures <==> p in carriers[..i] && JudgeOf(p).Rejected?
    {
      var verdict := JudgeOf(carriers[i]);
      if verdict.Rejected? {
        failures := failures + [carriers[i]];
      }
    }
    assert carriers[..|carriers|] == carriers;
  }

  predicate Present(docs: Docs, artifacts: seq<string>, r: Required) {
    exists p :: p in CarriersIn(docs, r.subject, artifacts) && p.artifact == r.artifact
                && p.carrier.kind == r.kind && p.carrier.form == r.form
  }

  method MissingRequired(docs: Docs, artifacts: seq<string>, required: seq<Required>)
    returns (missing: seq<Required>)
    ensures forall r :: r in missing <==> r in required && !Present(docs, artifacts, r)
  {
    missing := [];
    for i := 0 to |required|
      invariant forall r :: r in missing <==> r in required[..i] && !Present(docs, artifacts, r)
    {
      if !Present(docs, artifacts, required[i]) {
        missing := missing + [required[i]];
      }
    }
    assert required[..|required|] == required;
  }

  predicate NoneUnauthorized(carriers: seq<Placed>) {
    forall p :: p in carriers ==> JudgeOf(p).Allowed?
  }

  predicate NoneMissing(docs: Docs, artifacts: seq<string>) {
    forall r :: r in REQUIRED_CARRIERS ==> Present(docs, artifacts, r)
  }

  predicate Affirms(p: Placed, t: Term) { Prop(true, t) in Propositions(p.carrier.value) }
  predicate Denies(p: Placed, t: Term) { Prop(false, t) in Propositions(p.carrier.value) }

  lemma JudgeAllowed(p: Placed)
    requires JudgeOf(p).Allowed?
    ensures StateVerdict(p.carrier.kind, Propositions(p.carrier.value)).Allowed?
  {
  }

  predicate Deciding(kind: Kind) { kind == Status || kind == Decision || kind == Authorization }

  /** An accepted AT-D09 carrier of a deciding kind affirms no closure. */
  lemma AcceptedAffirmsNoClosure(p: Placed, t: Term)
    requires JudgeOf(p).Allowed? && Closure(t)
    requires Deciding(p.carrier.kind)
    ensures !Affirms(p, t)
  {
    JudgeAllowed(p);
    if Affirms(p, t) {
      FatalIsFatal(p.carrier.kind, Propositions(p.carrier.value), Prop(true, t));
    }
  }

  lemma AcceptedStatusIsOpen(p: Placed)
    requires JudgeOf(p).Allowed? && p.carrier.kind == Status
    ensures exists t :: Openish(t) && Affirms(p, t)
  {
    JudgeAllowed(p);
    AllowedExactlyWhen(Status, Propositions(p.carrier.value));
    var t :| Openish(t) && Prop(true, t) in Propositions(p.carrier.value);
    assert Affirms(p, t);
  }

  lemma AcceptedAtM2IsUnauthorized(p: Placed)
    requires JudgeOf(p).Allowed? && p.carrier.kind == AtM2Authorization
    ensures Denies(p, AUTHORIZED) && !Affirms(p, AUTHORIZED)
  {
    JudgeAllowed(p);
    AllowedExactlyWhen(AtM2Authorization, Propositions(p.carrier.value));
    assert Fatal(AtM2Authorization, Prop(true, AUTHORIZED));
  }

  /** If no carrier of either subject is unauthorized and no required carrier is missing, then the
      binding contract's AT-D09 register affirms an open state, no status, decision or authorization
      carrier of AT-D09 anywhere in the domain affirms a closure, and every AT-M2 carrier, of which
      there is one in the binding contract, denies AUTHORIZED. */
  lemma WholeDomainSafety(docs: Docs, artifacts: seq<string>)
    requires NoneUnauthorized(CarriersIn(docs, AtD09, artifacts))
    requires NoneUnauthorized(CarriersIn(docs, AtM2, artifacts))
    requires NoneMissing(docs, artifacts)
    ensures exists p, t :: p in CarriersIn(docs, AtD09, artifacts) && p.artifact == BINDING
              && p.carrier.kind == Status && p.carrier.form == Register && Openish(t) && Affirms(p, t)
    ensures forall p, t :: p in CarriersIn(docs, AtD09, artifacts) && Deciding(p.carrier.kind) && Closure(t)
              ==> !Affirms(p, t)
    ensures forall p :: p in CarriersIn(docs, AtM2, artifacts) ==>
              Denies(p, AUTHORIZED) && !Affirms(p, AUTHORIZED)
    ensures exists p :: p in CarriersIn(docs, AtM2, artifacts) && p.artifact == BINDING
              && p.carrier.form == Register
  {
    DomainIsOpen(docs, artifacts);
    DomainIsUnauthorized(docs, artifacts);
    forall q, t | q in CarriersIn(docs, AtD09, artifacts) && Deciding(q.carrier.kind) && Closure(t)
      ensures !Affirms(q, t)
    {
      AcceptedAffirmsNoClosure(q, t);
    }
  }

  lemma DomainIsOpen(docs: Docs, artifacts: seq<string>)
    requires NoneUnauthorized(CarriersIn(docs, AtD09, artifacts)) && NoneMissing(docs, artifacts)
    ensures exists p, t :: p in CarriersIn(docs, AtD09, artifacts) && p.artifact == BINDING
              && p.carrier.kind == Status && p.carrier.form == Register && Openish(t) && Affirms(p, t)
  {
    var r := Required(BINDING, AtD09, Status, Register);
    assert REQUIRED_CARRIERS[0] == r;
    var p := PresentCarrier(docs, artifacts, r);
    AcceptedStatusIsOpen(p);
    var t :| Openish(t) && Affirms(p, t);
  }

  lemma DomainIsUnauthorized(docs: Docs, artifacts: seq<string>)
    requires NoneUnauthorized(CarriersIn(docs, AtM2, artifacts)) && NoneMissing(docs, artifacts)
    ensures forall p :: p in CarriersIn(docs, AtM2, artifacts) ==>
              Denies(p, AUTHORIZED) && !Affirms(p, AUTHORIZED)
    ensures exists p :: p in CarriersIn(docs, AtM2, artifacts) && p.artifact == BINDING
              && p.carrier.form == Register
  {
    var r := Required(BINDING, AtM2, AtM2Authorization, Register);
    assert REQUIRED_CARRIERS[5] == r;
    var q := PresentCarrier(docs, artifacts, r);
    forall p | p in CarriersIn(docs, AtM2, artifacts) ensures Denies(p, AUTHORIZED) && !Affirms(p, AUTHORIZED) {
      CarriersInExactly(docs, AtM2, artifacts, p);
      AtM2CarriersAreAuthorizations(Read(docs, p.artifact), p.carrier);
      AcceptedAtM2IsUnauthorized(p);
    }
  }

  lemma PresentCarrier(docs: Docs, artifacts: seq<string>, r: Required) returns (p: Placed)
    requires Present(docs, artifacts, r)
    ensures p in CarriersIn(docs, r.subject, artifacts) && p.artifact == r.artifact
    ensures p.carrier.kind == r.kind && p.carrier.form == r.form
  {
    p :| p in CarriersIn(docs, r.subject, artifacts) && p.artifact == r.artifact
         && p.carrier.kind == r.kind && p.carrier.form == r.form;
  }

  // ---------------------------------------------------------------------------------------------
  // Contradictions
  // ---------------------------------------------------------------------------------------------

  type Key = (Kind, Term)
  type Polarity = map<Key, set<bool>>

  predicate Asserts(p: Placed, key: Key, affirmed: bool) {
    p.carrier.kind == key.0 && Prop(affirmed, key.1) in Propositions(p.carrier.value)
  }

  predicate Asserted(carriers: seq<Placed>, key: Key, affirmed: bool) {
    exists p :: p in carriers && Asserts(p, key, affirmed)
  }

  predicate Contradicted(carriers: seq<Placed>, key: Key) {
    Asserted(carriers, key, true) && Asserted(carriers, key, false)
  }

  predicate Seen(polarity: Polarity, key: Key, affirmed: bool) {
    key in polarity && affirmed in polarity[key]
  }

  /** `setdefault(key, set()).add(affirmed)`. */
  function Add(polarity: Polarity, key: Key, affirmed: bool): (r: Polarity)
    ensures forall k, b :: Seen(r, k, b) <==> Seen(polarity, k, b) || (k == key && b == affirmed)
  {
    polarity[key := (if key in polarity then polarity[key] else {}) + {affirmed}]
  }

  /** The record holds exactly the polarities the carriers assert. */
  ghost predicate Recorded(polarity: Polarity, carriers: seq<Placed>) {
    forall key, b :: Seen(polarity, key, b) <==> Asserted(carriers, key, b)
  }

  lemma AssertedByOneMore(carriers: seq<Placed>, p: Placed, key: Key, b: bool)
    ensures Asserted(carriers + [p], key, b) <==> Asserted(carriers, key, b) || Asserts(p, key, b)
  {
    if Asserted(carriers, key, b) {
      var q :| q in carriers && Asserts(q, key, b);
      assert q in carriers + [p];
    }
    assert p in carriers + [p];
  }

  /** The inner loop: one carrier's propositions added to the record. */
  method RecordProps(polarity: Polarity, kind: Kind, props: seq<Prop>) returns (r: Polarity)
    ensures forall key, b :: Seen(r, key, b)
              <==> Seen(polarity, key, b) || (key.0 == kind && Prop(b, key.1) in props)
  {
    r := polarity;
    for i := 0 to |props|
      invariant forall key, b :: Seen(r, key, b)
                  <==> Seen(polarity, key, b) || (key.0 == kind && Prop(b, key.1) in props[..i])
    {
      assert props[..i + 1] == props[..i] + [props[i]];
      r := Add(r, (kind, props[i].term), props[i].affirmed);
    }
    assert props[..|props|] == props;
  }

  /** The contradictory (kind, term) pairs. */
  method ContradictingCarriers(carriers: seq<Placed>) returns (conflicts: set<Key>)
    ensures forall key :: key in conflicts <==> Contradicted(carriers, key)
  {
    var polarity: Polarity := map[];
    for i := 0 to |carriers|
      invariant Recorded(polarity, carriers[..i])
    {
      var p := carriers[i];
      assert carriers[..i + 1] == carriers[..i] + [p];
      forall key, b { AssertedByOneMore(carriers[..i], p, key, b); }
      var props := CollectPropositions(p.carrier.value);
      polarity := RecordProps(polarity, p.carrier.kind, props);
    }
    assert carriers[..|carriers|] == carriers;
    conflicts := Conflicts(polarity);
  }

  function Conflicts(polarity: Polarity): (keys: set<Key>)
    ensures forall key :: key in keys <==> Seen(polarity, key, true) && Seen(polarity, key, false)
  {
    var keys := set key | key in polarity && |polarity[key]| > 1;
    assert forall key :: key in polarity ==>
      (|polarity[key]| > 1 <==> true in polarity[key] && false in polarity[key])
    by {
      forall key | key in polarity
        ensures |polarity[key]| > 1 <==> true in polarity[key] && false in polarity[key]
      {
        BothPolarities(polarity[key]);
      }
    }
    keys
  }

  lemma BothPolarities(s: set<bool>)
    ensures |s| > 1 <==> true in s && false in s
  {
    if true in s && false in s {
      assert false in s - {true};
      assert |s| == |s - {true}| + 1;
    } else {
      var only := true in s;
      forall x | x in s ensures x == only { assert x == true || x == false; }
      assert s - {only} == {};
      assert |s| <= |s - {only}| + 1;
    }
  }

  /** A reading of the domain: one truth value for every (kind, term). */
  ghost predicate Satisfies(reading: Key -> bool, carriers: seq<Placed>) {
    forall p, prop :: p in carriers && prop in Propositions(p.carrier.value) ==>
      reading((p.carrier.kind, prop.term)) == prop.affirmed
  }

  /** There is no contradiction exactly when one truth assignment satisfies every proposition of
      every carrier. */
  lemma ConsistentExactlyWhen(carriers: seq<Placed>)
    ensures (forall key :: !Contradicted(carriers, key)) <==> exists reading :: Satisfies(reading, carriers)
  {
    if forall key :: !Contradicted(carriers, key) {
      var reading := key => Asserted(carriers, key, true);
      forall p, prop | p in carriers && prop in Propositions(p.carrier.value)
        ensures reading((p.carrier.kind, prop.term)) == prop.affirmed
      {
        var key := (p.carrier.kind, prop.term);
        assert !Contradicted(carriers, key);
        assert Asserts(p, key, prop.affirmed);
        assert Asserted(carriers, key, prop.affirmed);
      }
      assert Satisfies(reading, carriers);
    }
    if exists reading :: Satisfies(reading, carriers) {
      var reading :| Satisfies(reading, carriers);
      forall key ensures !Contradicted(carriers, key) {
        OneReadingNoContradiction(reading, carriers, key);
      }
    }
  }

  lemma OneReadingNoContradiction(reading: Key -> bool, carriers: seq<Placed>, key: Key)
    requires Satisfies(reading, carriers)
    ensures !Contradicted(carriers, key)
  {
    forall b | Asserted(carriers, key, b) ensures reading(key) == b {
      var p :| p in carriers && Asserts(p, key, b);
      assert Prop(b, key.1) in Propositions(p.carrier.value);
    }
  }
}
