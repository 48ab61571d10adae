/**
 What a governance value asserts, and whether that is an allowed state.

 A value is read as clauses; each clause affirms or negates the state terms it mentions. A carrier
 of a given kind is accepted when its value is atomic and its propositions are allowed for it.
 */
module StateJudge {
  import opened Text

  // ---------------------------------------------------------------------------------------------
  // Vocabulary
  // ---------------------------------------------------------------------------------------------

  datatype Term =
    | OPEN | DEFERRED | UNDECIDED | PENDING
    | RESOLVED | CLOSED | BINDING | ACCEPTED | ANSWERED | AUTHORIZED | DECIDED | COMPLETE
    | COMPLETED | SUPERSEDED | SUPERSEDES | SETTLED | FINALIZED | FINALISED | RATIFIED
    | APPROVED | FINAL
    | AUTHORITATIVE

  const STATE_TERMS: seq<Term> := [
    OPEN, DEFERRED, UNDECIDED, PENDING,
    RESOLVED, CLOSED, BINDING, ACCEPTED, ANSWERED, AUTHORIZED, DECIDED, COMPLETE,
    COMPLETED, SUPERSEDED, SUPERSEDES, SETTLED, FINALIZED, FINALISED, RATIFIED,
    APPROVED, FINAL,
    AUTHORITATIVE
  ]

  function Spelling(t: Term): (s: string)
    ensures |s| >= 4
  {
    match t
    case OPEN => "OPEN"
    case DEFERRED => "DEFERRED"
    case UNDECIDED => "UNDECIDED"
    case PENDING => "PENDING"
    case RESOLVED => "RESOLVED"
    case CLOSED => "CLOSED"
    case BINDING => "BINDING"
    case ACCEPTED => "ACCEPTED"
    case ANSWERED => "ANSWERED"
    case AUTHORIZED => "AUTHORIZED"
    case DECIDED => "DECIDED"
    case COMPLETE => "COMPLETE"
    case COMPLETED => "COMPLETED"
    case SUPERSEDED => "SUPERSEDED"
    case SUPERSEDES => "SUPERSEDES"
    case SETTLED => "SETTLED"
    case FINALIZED => "FINALIZED"
    case FINALISED => "FINALISED"
    case RATIFIED => "RATIFIED"
    case APPROVED => "APPROVED"
    case FINAL => "FINAL"
    case AUTHORITATIVE => "AUTHORITATIVE"
  }

  predicate Openish(t: Term) {
    t == OPEN || t == DEFERRED || t == UNDECIDED || t == PENDING
  }

  predicate Closure(t: Term) {
    !Openish(t) && t != AUTHORITATIVE
  }

  datatype Prop = Prop(affirmed: bool, term: Term)

  // ---------------------------------------------------------------------------------------------
  // Propositions of a value
  // ---------------------------------------------------------------------------------------------

  const AND_WORD: Token := Word("AND")

  predicate IsWs(t: Token) { t.Sep? && IsSpace(t.mark) }

  predicate IsClauseMark(t: Token) { t == Sep('/') || t == Sep(',') }

  /** Number of white-space tokens at the start. */
  function WsRun(ts: seq<Token>): (n: nat)
    ensures n <= |ts|
  {
    if ts == [] || !IsWs(ts[0]) then 0 else 1 + WsRun(ts[1..])
  }

  predicate AllWs(ts: seq<Token>) { WsRun(ts) == |ts| }

  function DropWs(ts: seq<Token>): seq<Token> { ts[WsRun(ts)..] }

  lemma {:induction false} AllWsFrom(ts: seq<Token>)
    requires forall i :: 0 <= i < |ts| ==> IsWs(ts[i])
    ensures AllWs(ts)
  {
    if ts != [] { AllWsFrom(ts[1..]); }
  }

  lemma {:induction false} WsRunAppend(a: seq<Token>, tail: seq<Token>)
    ensures WsRun(a + tail) == if WsRun(a) < |a| then WsRun(a) else |a| + WsRun(tail)
  {
    if a == [] {
      assert a + tail == tail;
    } else if IsWs(a[0]) {
      assert (a + tail)[1..] == a[1..] + tail;
      WsRunAppend(a[1..], tail);
    }
  }

  lemma RunIsWs(ts: seq<Token>)
    ensures AllWs(ts[..WsRun(ts)])
  {
    var r := WsRun(ts);
    assert ts == ts[..r] + ts[r..];
    WsRunAppend(ts[..r], ts[r..]);
  }

  lemma DropFromFront<T>(a: seq<T>, b: seq<T>, n: nat)
    requires n <= |a|
    ensures (a + b)[n..] == a[n..] + b
  {
  }

  lemma DropFromBack<T>(a: seq<T>, b: seq<T>, n: nat)
    requires n <= |b|
    ensures (a + b)[|a| + n..] == b[n..]
  {
  }

  lemma DropWsAppend(a: seq<Token>, tail: seq<Token>)
    ensures DropWs(a + tail) == if WsRun(a) < |a| then DropWs(a) + tail else DropWs(tail)
  {
    WsRunAppend(a, tail);
    var n, m := WsRun(a), WsRun(tail);
    if n < |a| {
      DropWsIs(a + tail, n);
      DropWsIs(a, n);
      DropFromFront(a, tail, n);
    } else {
      DropWsIs(a + tail, |a| + m);
      DropWsIs(tail, m);
      DropFromBack(a, tail, m);
    }
  }

  lemma DropWsIs(ts: seq<Token>, n: nat)
    requires WsRun(ts) == n
    ensures n <= |ts| && DropWs(ts) == ts[n..]
  {
  }

  /** After `r` white-space tokens a clause ends: at a slash or comma, or at an AND that has white
      space on both sides. */
  predicate ClauseEnds(ts: seq<Token>, r: nat) {
    r < |ts| && (IsClauseMark(ts[r]) || (r > 0 && ts[r] == AND_WORD && r + 1 < |ts| && IsWs(ts[r + 1])))
  }

  /** The clause split, scanning left to right; the separator takes the white space around it. */
  function Clauses(ts: seq<Token>): (cs: seq<seq<Token>>)
    ensures |cs| >= 1
    decreases |ts|
  {
    var r := WsRun(ts);
    if r == |ts| then [ts]
    else if ClauseEnds(ts, r) then [[]] + Clauses(DropWs(ts[r + 1..]))
    else var cs := Clauses(ts[1..]); [[ts[0]] + cs[0]] + cs[1..]
  }

  predicate Mentions(clause: seq<Token>, t: Term) { Word(Spelling(t)) in clause }

  predicate Negated(clause: seq<Token>) {
    (exists i :: 0 <= i < |clause| - 2
      && clause[i] == Word("NO") && clause[i + 1] == Sep(' ') && clause[i + 2] == Word("LONGER"))
    || Word("NOT") in clause || Word("NEVER") in clause || Word("NO") in clause
  }

  function TermProps(terms: seq<Term>, clause: seq<Token>): seq<Prop> {
    if terms == [] then []
    else (if Mentions(clause, terms[0]) then [Prop(!Negated(clause), terms[0])] else [])
         + TermProps(terms[1..], clause)
  }

  function ClausesProps(terms: seq<Term>, cs: seq<seq<Token>>): seq<Prop> {
    if cs == [] then [] else TermProps(terms, cs[0]) + ClausesProps(terms, cs[1..])
  }

  /** The propositions a value makes in a given vocabulary. */
  function PropositionsIn(terms: seq<Term>, value: string): seq<Prop> {
    ClausesProps(terms, Clauses(Tokenize(Upper(value))))
  }

  function Propositions(value: string): seq<Prop> { PropositionsIn(STATE_TERMS, value) }

  /** The nested loops that collect `found`. */
  method CollectPropositions(value: string) returns (found: seq<Prop>)
    ensures found == Propositions(value)
  {
    found := CollectIn(STATE_TERMS, value);
  }

  method CollectIn(terms: seq<Term>, value: string) returns (found: seq<Prop>)
    ensures found == PropositionsIn(terms, value)
  {
    var clauses := Clauses(Tokenize(Upper(value)));
    found := [];
    for i := 0 to |clauses|
      invariant found + ClausesProps(terms, clauses[i..]) == ClausesProps(terms, clauses)
    {
      assert clauses[i..][1..] == clauses[i + 1..];
      Associative(found, TermProps(terms, clauses[i]), ClausesProps(terms, clauses[i + 1..]));
      found := CollectClause(terms, clauses[i], found);
    }
  }

  method CollectClause(terms: seq<Term>, clause: seq<Token>, before: seq<Prop>)
    returns (found: seq<Prop>)
    ensures found == before + TermProps(terms, clause)
  {
    found := before;
    for j := 0 to |terms|
      invariant found + TermProps(terms[j..], clause) == before + TermProps(terms, clause)
    {
      TermPropsStep(terms, clause, j);
      if Mentions(clause, terms[j]) {
        var p := Prop(!Negated(clause), terms[j]);
        Associative(found, [p], TermProps(terms[j + 1..], clause));
        found := found + [p];
      }
    }
    assert found == found + TermProps(terms[|terms|..], clause);
  }

  lemma TermPropsStep(terms: seq<Term>, clause: seq<Token>, j: nat)
    requires j < |terms|
    ensures TermProps(terms[j..], clause) ==
            if Mentions(clause, terms[j])
            then [Prop(!Negated(clause), terms[j])] + TermProps(terms[j + 1..], clause)
            else TermProps(terms[j + 1..], clause)
  {
    assert terms[j..][1..] == terms[j + 1..];
  }

  lemma Associative<T>(a: seq<T>, b: seq<T>, c: seq<T>)
    ensures a + (b + c) == a + b + c
  {
  }

  lemma HeadAndTail<T>(cs: seq<seq<T>>)
    requires cs != []
    ensures [[] + cs[0]] + cs[1..] == cs
  {
    assert [] + cs[0] == cs[0];
  }

  // ---------------------------------------------------------------------------------------------
  // Only the negators and state terms of a clause matter
  // ---------------------------------------------------------------------------------------------

  predicate Relevant(t: Token) {
    t == Word("NOT") || t == Word("NEVER") || t == Word("NO")
    || exists term: Term :: t == Word(Spelling(term))
  }

  ghost predicate SameRelevant(c: seq<Token>, d: seq<Token>) {
    forall t :: Relevant(t) ==> (t in c <==> t in d)
  }

  predicate Inert(c: seq<Token>) { forall t :: t in c ==> !Relevant(t) }

  lemma SeparatorsAreInert(t: Token)
    requires t.Sep? || t == AND_WORD
    ensures !Relevant(t)
  {
    if t == AND_WORD { assert t.text[0] == 'A'; }
  }

  lemma {:induction false} ClausePropsCongruent(c: seq<Token>, d: seq<Token>, terms: seq<Term>)
    requires SameRelevant(c, d)
    ensures TermProps(terms, c) == TermProps(terms, d)
  {
    if terms != [] {
      ClausePropsCongruent(c, d, terms[1..]);
      assert Relevant(Word(Spelling(terms[0])));
      assert Relevant(Word("NO")) && Relevant(Word("NOT")) && Relevant(Word("NEVER"));
      assert Negated(c) <==> Negated(d);
    }
  }

  lemma {:induction false} InertClauseSaysNothing(c: seq<Token>, terms: seq<Term>)
    requires Inert(c)
    ensures TermProps(terms, c) == []
  {
    if terms != [] {
      InertClauseSaysNothing(c, terms[1..]);
      assert Relevant(Word(Spelling(terms[0])));
    }
  }

  /** Adding inert tokens to a clause changes nothing it says. */
  lemma InertAdds(terms: seq<Term>, c: seq<Token>, x: seq<Token>)
    requires Inert(x)
    ensures SameRelevant(c, c + x) && TermProps(terms, c) == TermProps(terms, c + x)
  {
    ClausePropsCongruent(c, c + x, terms);
  }

  lemma {:induction false} WsIsInert(c: seq<Token>)
    requires AllWs(c)
    ensures Inert(c)
  {
    if c != [] {
      WsIsInert(c[1..]);
      SeparatorsAreInert(c[0]);
      assert c == [c[0]] + c[1..];
    }
  }

  // ---------------------------------------------------------------------------------------------
  // The propositions of a token sequence, with a clause already begun
  // ---------------------------------------------------------------------------------------------

  function Meaning(terms: seq<Term>, acc: seq<Token>, ts: seq<Token>): seq<Prop>
    decreases |ts|
  {
    var r := WsRun(ts);
    if r == |ts| then TermProps(terms, acc + ts)
    else if ClauseEnds(ts, r) then TermProps(terms, acc) + Meaning(terms, [], DropWs(ts[r + 1..]))
    else Meaning(terms, acc + [ts[0]], ts[1..])
  }

  lemma MeaningAtEnd(terms: seq<Term>, acc: seq<Token>, ts: seq<Token>, r: nat)
    requires WsRun(ts) == r && ClauseEnds(ts, r)
    ensures Meaning(terms, acc, ts) == TermProps(terms, acc) + Meaning(terms, [], DropWs(ts[r + 1..]))
  {
    assert r != |ts|;
  }

  lemma MeaningOfWs(terms: seq<Term>, acc: seq<Token>, ts: seq<Token>)
    requires WsRun(ts) == |ts|
    ensures Meaning(terms, acc, ts) == TermProps(terms, acc)
  {
    WsIsInert(ts);
    InertAdds(terms, acc, ts);
  }

  lemma MeaningStep(terms: seq<Term>, acc: seq<Token>, ts: seq<Token>)
    requires WsRun(ts) < |ts| && !ClauseEnds(ts, WsRun(ts))
    ensures Meaning(terms, acc, ts) == Meaning(terms, acc + [ts[0]], ts[1..])
  {
  }

  lemma {:induction false} MeaningIsClauses(terms: seq<Term>, acc: seq<Token>, ts: seq<Token>)
    ensures Meaning(terms, acc, ts) == ClausesProps(terms, [acc + Clauses(ts)[0]] + Clauses(ts)[1..])
    decreases |ts|
  {
    var r := WsRun(ts);
    var cs := Clauses(ts);
    assert ([acc + cs[0]] + cs[1..])[1..] == cs[1..];
    if r == |ts| {
      assert cs[1..] == [];
    } else if ClauseEnds(ts, r) {
      var rest := Clauses(DropWs(ts[r + 1..]));
      MeaningIsClauses(terms, [], DropWs(ts[r + 1..]));
      HeadAndTail(rest);
      assert acc + [] == acc && cs[1..] == rest;
    } else {
      var rest := Clauses(ts[1..]);
      MeaningIsClauses(terms, acc + [ts[0]], ts[1..]);
      Associative(acc, [ts[0]], rest[0]);
      assert cs[1..] == rest[1..];
    }
  }

  lemma PropositionsAreMeaning(terms: seq<Term>, value: string)
    ensures PropositionsIn(terms, value) == Meaning(terms, [], Tokenize(Upper(value)))
  {
    var ts := Tokenize(Upper(value));
    MeaningIsClauses(terms, [], ts);
    HeadAndTail(Clauses(ts));
  }

  lemma {:induction false} MeaningCongruent(terms: seq<Term>, acc: seq<Token>, acc': seq<Token>, ts: seq<Token>)
    requires SameRelevant(acc, acc')
    ensures Meaning(terms, acc, ts) == Meaning(terms, acc', ts)
    decreases |ts|
  {
    var r := WsRun(ts);
    if r == |ts| {
      ClausePropsCongruent(acc + ts, acc' + ts, terms);
    } else if ClauseEnds(ts, r) {
      ClausePropsCongruent(acc, acc', terms);
    } else {
      MeaningCongruent(terms, acc + [ts[0]], acc' + [ts[0]], ts[1..]);
    }
  }

  lemma DropWsOnce(ts: seq<Token>)
    requires ts != [] && IsWs(ts[0])
    ensures DropWs(ts) == DropWs(ts[1..])
  {
  }

  /** A sequence that does not start with white space. */
  lemma NoWsFirst(ts: seq<Token>)
    requires ts != [] && !IsWs(ts[0])
    ensures WsRun(ts) == 0 && DropWs(ts) == ts
  {
  }

  /** White space before a sequence, after a clause that says nothing yet, changes nothing. */
  lemma {:induction false} LeadingWs(terms: seq<Term>, acc: seq<Token>, ts: seq<Token>)
    requires Inert(acc)
    ensures Meaning(terms, acc, ts) == Meaning(terms, [], DropWs(ts))
    decreases |ts|
  {
    var r := WsRun(ts);
    InertClauseSaysNothing(acc, terms);
    if r == |ts| {
      MeaningOfWs(terms, acc, ts);
      assert DropWs(ts) == [];
      MeaningOfNothing(terms);
    } else if r == 0 {
      assert DropWs(ts) == ts;
      MeaningCongruent(terms, acc, [], ts);
    } else if ClauseEnds(ts, r) {
      MeaningAtEnd(terms, acc, ts, r);
      if !IsClauseMark(ts[r]) {
        SeparatorsAreInert(AND_WORD);
        LeadingWs(terms, [AND_WORD], ts[r + 1..]);
      }
      MeaningFromBreak(terms, ts, r);
    } else {
      SeparatorsAreInert(ts[0]);
      MeaningStep(terms, acc, ts);
      LeadingWs(terms, acc + [ts[0]], ts[1..]);
      DropWsOnce(ts);
    }
  }

  /** Starting right at a clause break, without the white space before it, reads the same. */
  lemma MeaningFromBreak(terms: seq<Term>, ts: seq<Token>, r: nat)
    requires WsRun(ts) == r && ClauseEnds(ts, r)
    requires !IsClauseMark(ts[r]) ==>
               Meaning(terms, [AND_WORD], ts[r + 1..]) == Meaning(terms, [], DropWs(ts[r + 1..]))
    ensures Meaning(terms, [], DropWs(ts)) == Meaning(terms, [], DropWs(ts[r + 1..]))
  {
    var core, tail := ts[r], ts[r + 1..];
    assert DropWs(ts) == [core] + tail;
    if IsClauseMark(core) { MarkFirst(terms, core, tail); } else { AndFirst(terms, tail); }
  }

  lemma MarkFirst(terms: seq<Term>, core: Token, tail: seq<Token>)
    requires IsClauseMark(core)
    ensures Meaning(terms, [], [core] + tail) == Meaning(terms, [], DropWs(tail))
  {
    var rest := [core] + tail;
    NoWsFirst(rest);
    assert rest[1..] == tail;
    MeaningAtEnd(terms, [], rest, 0);
    InertClauseSaysNothing([], terms);
  }

  lemma AndFirst(terms: seq<Term>, tail: seq<Token>)
    ensures Meaning(terms, [], [AND_WORD] + tail) == Meaning(terms, [AND_WORD], tail)
  {
    var rest := [AND_WORD] + tail;
    NoWsFirst(rest);
    assert rest[1..] == tail && [] + [AND_WORD] == [AND_WORD];
    MeaningStep(terms, [], rest);
  }

  lemma MeaningOfNothing(terms: seq<Term>)
    ensures Meaning(terms, [], []) == []
  {
    InertClauseSaysNothing([] + [], terms);
  }

  // ---------------------------------------------------------------------------------------------
  // Joining clauses
  // ---------------------------------------------------------------------------------------------

  /** What the source writes between two clauses, as tokens: a slash or comma with any white space
      around it, or AND with white space on both sides. */
  datatype Joiner = Joiner(left: seq<Token>, core: Token, right: seq<Token>) {
    predicate Valid() {
      && AllWs(left) && AllWs(right)
      && (IsClauseMark(core) || (core == AND_WORD && left != [] && right != []))
    }
    function Tokens(): seq<Token> { left + [core] + right }
  }

  lemma DropWsPrefix(ws: seq<Token>, ts: seq<Token>)
    requires AllWs(ws)
    ensures DropWs(ws + ts) == DropWs(ts)
    ensures WsRun(ws + ts) == |ws| + WsRun(ts)
  {
    WsRunAppend(ws, ts);
    DropWsAppend(ws, ts);
  }

  lemma MeaningAfterWs(terms: seq<Term>, ws: seq<Token>, b: seq<Token>)
    requires AllWs(ws)
    ensures Meaning(terms, [], DropWs(ws + b)) == Meaning(terms, [], b)
  {
    DropWsPrefix(ws, b);
    LeadingWs(terms, [], b);
  }

  /** A joiner at the very start, whatever is left of its white space, says nothing. */
  lemma JoinerFront(terms: seq<Term>, j: Joiner, b: seq<Token>)
    requires j.Valid()
    ensures Meaning(terms, [], DropWs(j.Tokens() + b)) == Meaning(terms, [], b)
  {
    var tail := j.right + b;
    var rest := [j.core] + tail;
    assert j.Tokens() + b == j.left + rest;
    DropWsPrefix(j.left, rest);
    NoWsFirst(rest);
    assert DropWs(rest) == rest;
    MeaningAfterWs(terms, j.right, b);
    CoreFront(terms, j.core, tail);
  }

  lemma CoreFront(terms: seq<Term>, core: Token, tail: seq<Token>)
    requires IsClauseMark(core) || core == AND_WORD
    ensures Meaning(terms, [], [core] + tail) == Meaning(terms, [], DropWs(tail))
  {
    if IsClauseMark(core) {
      MarkFirst(terms, core, tail);
    } else {
      AndFirst(terms, tail);
      SeparatorsAreInert(AND_WORD);
      LeadingWs(terms, [AND_WORD], tail);
    }
  }

  /** White space and then AND, with nothing after it, never ends a clause. */
  lemma {:induction false} DanglingAnd(terms: seq<Term>, acc: seq<Token>, a: seq<Token>)
    requires a != [] && a[|a| - 1] == AND_WORD
    requires AllWs(a[..|a| - 1])
    ensures Meaning(terms, acc, a) == TermProps(terms, acc)
    decreases |a|
  {
    var ws := a[..|a| - 1];
    assert a == ws + [AND_WORD];
    WsRunAppend(ws, [AND_WORD]);
    SeparatorsAreInert(a[0]);
    InertAdds(terms, acc, [a[0]]);
    MeaningStep(terms, acc, a);
    if |a| == 1 {
      MeaningOfWs(terms, acc + [a[0]], []);
    } else {
      assert a[1..][..|a| - 2] == ws[1..];
      DanglingAnd(terms, acc + [a[0]], a[1..]);
    }
  }

  /** What `a`, a joiner and `b` say is what `a` says, then what `b` says. */
  predicate Joins(terms: seq<Term>, acc: seq<Token>, a: seq<Token>, j: Joiner, b: seq<Token>) {
    Meaning(terms, acc, a + (j.Tokens() + b)) == Meaning(terms, acc, a) + Meaning(terms, [], b)
  }

  lemma {:induction false} JoinedMeaning(
    terms: seq<Term>, acc: seq<Token>, a: seq<Token>, j: Joiner, b: seq<Token>)
    requires j.Valid()
    ensures Joins(terms, acc, a, j, b)
    decreases |a|
  {
    var r := WsRun(a);
    if r == |a| {
      JoinedAfterWs(terms, acc, a, j, b);
    } else if ClauseEnds(a, r) {
      var rest := a[r + 1..];
      if WsRun(rest) < |rest| {
        assert |DropWs(rest)| < |a|;
        JoinedMeaning(terms, [], DropWs(rest), j, b);
      }
      JoinedOverEnd(terms, acc, a, j, b);
    } else if ClauseEnds(a + (j.Tokens() + b), r) {
      JoinedAfterAnd(terms, acc, a, j, b);
    } else {
      JoinedMeaning(terms, acc + [a[0]], a[1..], j, b);
      JoinedOverToken(terms, acc, a, j, b);
    }
  }

  lemma JoinedOverEnd(terms: seq<Term>, acc: seq<Token>, a: seq<Token>, j: Joiner, b: seq<Token>)
    requires j.Valid() && ClauseEnds(a, WsRun(a))
    requires var rest := a[WsRun(a) + 1..]; WsRun(rest) < |rest| ==> Joins(terms, [], DropWs(rest), j, b)
    ensures Joins(terms, acc, a, j, b)
  {
    JoinedRest(terms, a[WsRun(a) + 1..], j, b);
    JoinedAtEnd(terms, acc, a, j.Tokens() + b, Meaning(terms, [], b));
  }

  lemma JoinedOverToken(terms: seq<Term>, acc: seq<Token>, a: seq<Token>, j: Joiner, b: seq<Token>)
    requires WsRun(a) < |a| && !ClauseEnds(a, WsRun(a)) && !ClauseEnds(a + (j.Tokens() + b), WsRun(a))
    requires Joins(terms, acc + [a[0]], a[1..], j, b)
    ensures Joins(terms, acc, a, j, b)
  {
    JoinedStep(terms, acc, a, j.Tokens() + b);
  }

  lemma JoinedStep(terms: seq<Term>, acc: seq<Token>, a: seq<Token>, tail: seq<Token>)
    requires WsRun(a) < |a| && !ClauseEnds(a, WsRun(a)) && !ClauseEnds(a + tail, WsRun(a))
    ensures Meaning(terms, acc, a + tail) == Meaning(terms, acc + [a[0]], a[1..] + tail)
    ensures Meaning(terms, acc, a) == Meaning(terms, acc + [a[0]], a[1..])
  {
    WsRunAppend(a, tail);
    DropFromFront(a, tail, 1);
    MeaningStep(terms, acc, a + tail);
    MeaningStep(terms, acc, a);
  }

  /** A reading of tokens that says `first` for the clause ending there and reads the rest on its own;
      `Meaning` is one. */
  ghost predicate ReadsOn(m: (seq<Token>, seq<Token>) -> seq<Prop>, acc: seq<Token>, first: seq<Prop>) {
    forall ts: seq<Token>, r: nat :: WsRun(ts) == r && ClauseEnds(ts, r) ==>
      m(acc, ts) == first + m([], DropWs(ts[r + 1..]))
  }

  lemma MeaningReadsOn(terms: seq<Term>, acc: seq<Token>)
    ensures ReadsOn((x, y) => Meaning(terms, x, y), acc, TermProps(terms, acc))
  {
    forall ts: seq<Token>, r: nat | WsRun(ts) == r && ClauseEnds(ts, r)
      ensures Meaning(terms, acc, ts) == TermProps(terms, acc) + Meaning(terms, [], DropWs(ts[r + 1..]))
    {
      MeaningAtEnd(terms, acc, ts, r);
    }
  }

  lemma JoinedAtEndOf(
    m: (seq<Token>, seq<Token>) -> seq<Prop>, first: seq<Prop>, acc: seq<Token>, a: seq<Token>, tail: seq<Token>,
    rest: seq<Prop>)
    requires ReadsOn(m, acc, first) && ClauseEnds(a, WsRun(a))
    requires var u := a[WsRun(a) + 1..]; m([], DropWs(u + tail)) == m([], DropWs(u)) + rest
    ensures m(acc, a + tail) == m(acc, a) + rest
  {
    var r := WsRun(a);
    EndsWithTail(a, tail, r);
    SumAfterEnd(first, m([], DropWs(a[r + 1..])), rest, m(acc, a + tail), m(acc, a), m([], DropWs((a + tail)[r + 1..])));
  }

  /** The step over a clause end inside `a`, given the claim for what follows it. */
  lemma JoinedAtEnd(terms: seq<Term>, acc: seq<Token>, a: seq<Token>, tail: seq<Token>, rest: seq<Prop>)
    requires ClauseEnds(a, WsRun(a))
    requires var u := a[WsRun(a) + 1..];
             Meaning(terms, [], DropWs(u + tail)) == Meaning(terms, [], DropWs(u)) + rest
    ensures Meaning(terms, acc, a + tail) == Meaning(terms, acc, a) + rest
  {
    MeaningReadsOn(terms, acc);
    JoinedAtEndOf((x, y) => Meaning(terms, x, y), TermProps(terms, acc), acc, a, tail, rest);
  }

  lemma SumAfterEnd(
    first: seq<Prop>, more: seq<Prop>, rest: seq<Prop>, whole: seq<Prop>, part: seq<Prop>, after: seq<Prop>)
    requires whole == first + after && part == first + more && after == more + rest
    ensures whole == part + rest
  {
    Associative(first, more, rest);
  }

  /** A clause that ends inside `a` ends at the same place whatever follows. */
  lemma EndsWithTail(a: seq<Token>, tail: seq<Token>, r: nat)
    requires WsRun(a) == r && ClauseEnds(a, r)
    ensures WsRun(a + tail) == r && ClauseEnds(a + tail, r) && (a + tail)[r + 1..] == a[r + 1..] + tail
  {
    WsRunAppend(a, tail);
    DropFromFront(a, tail, r + 1);
  }

  /** The claim for the rest after a clause end, from the claim for its first non-blank token on. */
  lemma JoinedRest(terms: seq<Term>, a: seq<Token>, j: Joiner, b: seq<Token>)
    requires j.Valid()
    requires WsRun(a) < |a| ==> Joins(terms, [], DropWs(a), j, b)
    ensures Meaning(terms, [], DropWs(a + (j.Tokens() + b)))
            == Meaning(terms, [], DropWs(a)) + Meaning(terms, [], b)
  {
    DropWsAppend(a, j.Tokens() + b);
    if WsRun(a) == |a| {
      assert DropWs(a) == [];
      JoinerFront(terms, j, b);
      MeaningOfNothing(terms);
    }
  }

  /** The case where `a` ends in AND and the joiner brings the white space that makes it split. */
  lemma JoinedAfterAnd(terms: seq<Term>, acc: seq<Token>, a: seq<Token>, j: Joiner, b: seq<Token>)
    requires j.Valid() && WsRun(a) < |a| && !ClauseEnds(a, WsRun(a))
    requires ClauseEnds(a + (j.Tokens() + b), WsRun(a))
    ensures Joins(terms, acc, a, j, b)
  {
    var r := WsRun(a);
    var tail := j.Tokens() + b;
    WsRunAppend(a, tail);
    assert r + 1 == |a| && (a + tail)[r + 1..] == tail;
    assert (a + tail)[r] == a[r];
    RunIsWs(a);
    JoinerFront(terms, j, b);
    DanglingAnd(terms, acc, a);
    MeaningAtEnd(terms, acc, a + tail, r);
  }

  lemma JoinedAfterWs(terms: seq<Term>, acc: seq<Token>, a: seq<Token>, j: Joiner, b: seq<Token>)
    requires j.Valid() && AllWs(a)
    ensures Joins(terms, acc, a, j, b)
  {
    JoinerEndsClause(a, j, b);
    MeaningAfterWs(terms, j.right, b);
    EndAfterWs(terms, acc, a, a + (j.Tokens() + b), |a| + |j.left|, j.right + b);
  }

  lemma EndAfterWs(terms: seq<Term>, acc: seq<Token>, a: seq<Token>, t: seq<Token>, n: nat, rest: seq<Token>)
    requires WsRun(a) == |a| && WsRun(t) == n && ClauseEnds(t, n) && t[n + 1..] == rest
    ensures Meaning(terms, acc, t) == Meaning(terms, acc, a) + Meaning(terms, [], DropWs(rest))
  {
    MeaningAtEnd(terms, acc, t, n);
    MeaningOfWs(terms, acc, a);
  }

  lemma JoinerEndsClause(a: seq<Token>, j: Joiner, b: seq<Token>)
    requires j.Valid() && AllWs(a)
    ensures var t, n := a + (j.Tokens() + b), |a| + |j.left|;
            WsRun(t) == n && ClauseEnds(t, n) && t[n + 1..] == j.right + b
  {
    var ws, rest := a + j.left, [j.core] + (j.right + b);
    RegroupJoiner(a, j.left, j.core, j.right, b);
    WsRunAppend(a, j.left);
    DropWsPrefix(ws, rest);
    NoWsFirst(rest);
    DropFromBack(ws, rest, 1);
    CoreEnds(ws, j.core, j.right, b);
  }

  lemma RegroupJoiner(a: seq<Token>, l: seq<Token>, core: Token, r: seq<Token>, b: seq<Token>)
    ensures a + (l + [core] + r + b) == (a + l) + ([core] + (r + b))
  {
  }

  lemma CoreEnds(ws: seq<Token>, core: Token, right: seq<Token>, b: seq<Token>)
    requires IsClauseMark(core) || (core == AND_WORD && ws != [] && right != [] && AllWs(right))
    ensures ClauseEnds(ws + ([core] + (right + b)), |ws|)
  {
    var t := ws + ([core] + (right + b));
    assert t[|ws|] == core;
    if right != [] { assert t[|ws| + 1] == right[0]; }
  }

  // ---------------------------------------------------------------------------------------------
  // Trailing and leading punctuation
  // ---------------------------------------------------------------------------------------------

  /** Characters that `current_value` peels off the ends of a value. */
  predicate Peelable(c: char) { IsSpace(c) || c == '.' || c == ',' || c == ':' }

  lemma {:induction false} TrailingMark(terms: seq<Term>, acc: seq<Token>, ts: seq<Token>, x: Token)
    requires x.Sep? && !IsWs(x) && !IsClauseMark(x)
    ensures Meaning(terms, acc, ts + [x]) == Meaning(terms, acc, ts)
    decreases |ts|
  {
    var r := WsRun(ts);
    if ts == [] {
      TrailingAlone(terms, acc, x);
    } else if r == |ts| {
      TrailingMark(terms, acc + [ts[0]], ts[1..], x);
      TrailingStep(terms, acc, ts, x);
      WsStep(terms, acc, ts);
    } else if ClauseEnds(ts, r) {
      TrailingMark(terms, [], DropWs(ts[r + 1..]), x);
      TrailingAfterEnd(terms, acc, ts, x);
    } else {
      TrailingMark(terms, acc + [ts[0]], ts[1..], x);
      TrailingStep(terms, acc, ts, x);
      MeaningStep(terms, acc, ts);
    }
  }

  lemma WsStep(terms: seq<Term>, acc: seq<Token>, ts: seq<Token>)
    requires AllWs(ts) && ts != []
    ensures Meaning(terms, acc, ts) == Meaning(terms, acc + [ts[0]], ts[1..])
  {
    MeaningOfWs(terms, acc, ts);
    MeaningOfWs(terms, acc + [ts[0]], ts[1..]);
    SeparatorsAreInert(ts[0]);
    InertAdds(terms, acc, [ts[0]]);
  }

  lemma TrailingAlone(terms: seq<Term>, acc: seq<Token>, x: Token)
    requires x.Sep? && !IsWs(x) && !IsClauseMark(x)
    ensures Meaning(terms, acc, [] + [x]) == Meaning(terms, acc, [])
  {
    SeparatorsAreInert(x);
    InertAdds(terms, acc, [x]);
    assert [] + [x] == [x];
    NoWsFirst([x]);
    MeaningStep(terms, acc, [x]);
    assert [x][1..] == [];
    MeaningOfWs(terms, acc + [x], []);
    MeaningOfWs(terms, acc, []);
  }

  lemma TrailingStep(terms: seq<Term>, acc: seq<Token>, ts: seq<Token>, x: Token)
    requires x.Sep? && !IsWs(x) && !IsClauseMark(x) && ts != [] && !ClauseEnds(ts, WsRun(ts))
    ensures Meaning(terms, acc, ts + [x]) == Meaning(terms, acc + [ts[0]], ts[1..] + [x])
  {
    var t := ts + [x];
    WsRunAppend(ts, [x]);
    NoWsFirst([x]);
    assert t[1..] == ts[1..] + [x];
    MeaningStep(terms, acc, t);
  }

  lemma TrailingAfterEndOf(
    m: (seq<Token>, seq<Token>) -> seq<Prop>, first: seq<Prop>, acc: seq<Token>, ts: seq<Token>, x: Token)
    requires ReadsOn(m, acc, first) && !IsWs(x) && ClauseEnds(ts, WsRun(ts))
    requires var rest := DropWs(ts[WsRun(ts) + 1..]); m([], rest + [x]) == m([], rest)
    ensures m(acc, ts + [x]) == m(acc, ts)
  {
    var r := WsRun(ts);
    EndsWithTail(ts, [x], r);
    TrailingDrop(ts[r + 1..], x);
  }

  lemma TrailingAfterEnd(terms: seq<Term>, acc: seq<Token>, ts: seq<Token>, x: Token)
    requires x.Sep? && !IsWs(x) && !IsClauseMark(x) && ClauseEnds(ts, WsRun(ts))
    requires var rest := DropWs(ts[WsRun(ts) + 1..]); Meaning(terms, [], rest + [x]) == Meaning(terms, [], rest)
    ensures Meaning(terms, acc, ts + [x]) == Meaning(terms, acc, ts)
  {
    MeaningReadsOn(terms, acc);
    TrailingAfterEndOf((x, y) => Meaning(terms, x, y), TermProps(terms, acc), acc, ts, x);
  }

  lemma TrailingDrop(u: seq<Token>, x: Token)
    requires !IsWs(x)
    ensures DropWs(u + [x]) == DropWs(u) + [x]
  {
    DropWsAppend(u, [x]);
    NoWsFirst([x]);
    if WsRun(u) == |u| { assert DropWs(u) == []; }
  }

  lemma TrailingPeel(terms: seq<Term>, acc: seq<Token>, ts: seq<Token>, x: Token)
    requires x.Sep? && Peelable(x.mark)
    ensures Meaning(terms, acc, ts + [x]) == Meaning(terms, acc, ts)
  {
    if IsWs(x) || IsClauseMark(x) {
      // Both sides read the same with a comma after them.
      var comma := Joiner([], Sep(','), []);
      var j := if IsWs(x) then Joiner([x], Sep(','), []) else Joiner([], x, []);
      InertClauseSaysNothing([], terms);
      assert Meaning(terms, [], []) == TermProps(terms, [] + []) == [];
      JoinedMeaning(terms, acc, ts, j, []);
      assert Meaning(terms, acc, ts) + [] == Meaning(terms, acc, ts);
      if IsWs(x) {
        JoinedMeaning(terms, acc, ts + [x], comma, []);
        assert ts + (j.Tokens() + []) == (ts + [x]) + (comma.Tokens() + []);
        assert Meaning(terms, acc, ts + [x]) + [] == Meaning(terms, acc, ts + [x]);
      } else {
        assert ts + (j.Tokens() + []) == ts + [x];
      }
    } else {
      TrailingMark(terms, acc, ts, x);
    }
  }

  lemma LeadingPeel(terms: seq<Term>, x: Token, ts: seq<Token>)
    requires x.Sep? && Peelable(x.mark)
    ensures Meaning(terms, [], [x] + ts) == Meaning(terms, [], ts)
  {
    var t := [x] + ts;
    assert t[1..] == ts;
    SeparatorsAreInert(x);
    InertClauseSaysNothing([], terms);
    if IsWs(x) {
      DropWsOnce(t);
      LeadingWs(terms, [], t);
      LeadingWs(terms, [], ts);
    } else {
      NoWsFirst(t);
      if IsClauseMark(x) {
        LeadingWs(terms, [], ts);
      } else {
        assert [] + [x] == [x];
        MeaningCongruent(terms, [x], [], ts);
      }
    }
  }

  lemma UpperKeepsSeparators(c: char)
    requires Peelable(c) || c == '/'
    ensures UpperChar(c) == c && !IsWordChar(c)
  {
  }

  lemma TokensOfFront(c: char, rest: string)
    requires Peelable(c)
    ensures Tokenize(Upper([c] + rest)) == [Sep(c)] + Tokenize(Upper(rest))
  {
    UpperKeepsSeparators(c);
    UpperConcat([c], rest);
    assert Upper([c]) == [c];
    assert "" + [c] + Upper(rest) == [c] + Upper(rest);
    TokenizeAround("", c, Upper(rest));
  }

  lemma TokensOfBack(rest: string, c: char)
    requires Peelable(c)
    ensures Tokenize(Upper(rest + [c])) == Tokenize(Upper(rest)) + [Sep(c)]
  {
    UpperKeepsSeparators(c);
    UpperConcat(rest, [c]);
    assert Upper([c]) == [c];
    assert Upper(rest) + [c] + "" == Upper(rest) + [c];
    TokenizeAround(Upper(rest), c, "");
  }

  lemma PeelFirst(terms: seq<Term>, c: char, rest: string)
    requires Peelable(c)
    ensures PropositionsIn(terms, [c] + rest) == PropositionsIn(terms, rest)
  {
    TokensOfFront(c, rest);
    LeadingPeel(terms, Sep(c), Tokenize(Upper(rest)));
    PropositionsAreMeaning(terms, [c] + rest);
    PropositionsAreMeaning(terms, rest);
  }

  lemma PeelLast(terms: seq<Term>, rest: string, c: char)
    requires Peelable(c)
    ensures PropositionsIn(terms, rest + [c]) == PropositionsIn(terms, rest)
  {
    TokensOfBack(rest, c);
    TrailingPeel(terms, [], Tokenize(Upper(rest)), Sep(c));
    PropositionsAreMeaning(terms, rest + [c]);
    PropositionsAreMeaning(terms, rest);
  }

  lemma FirstAndRest(pre: string, s: string)
    requires pre != ""
    ensures pre + s == [pre[0]] + (pre[1..] + s)
  {
  }

  lemma {:induction false} PeelFront(terms: seq<Term>, pre: string, s: string)
    requires All(pre, Peelable)
    ensures PropositionsIn(terms, pre + s) == PropositionsIn(terms, s)
  {
    if pre == "" {
      assert pre + s == s;
    } else {
      var rest := pre[1..];
      assert All(rest, Peelable) && Peelable(pre[0]);
      PeelFront(terms, rest, s);
      FirstAndRest(pre, s);
      PeelFirst(terms, pre[0], pre[1..] + s);
    }
  }

  lemma {:induction false} PeelBack(terms: seq<Term>, s: string, post: string)
    requires All(post, Peelable)
    ensures PropositionsIn(terms, s + post) == PropositionsIn(terms, s)
  {
    if post == "" {
      assert s + post == s;
    } else {
      var n := |post| - 1;
      PeelBack(terms, s, post[..n]);
      assert s + post == (s + post[..n]) + [post[n]];
      PeelLast(terms, s + post[..n], post[n]);
    }
  }

  /** Trimming punctuation off a value leaves its propositions alone. */
  lemma TrimKeepsPropositions(terms: seq<Term>, s: string, p: char -> bool)
    requires forall c :: p(c) ==> Peelable(c)
    ensures PropositionsIn(terms, Trim(s, p)) == PropositionsIn(terms, s)
  {
    var pre, post := TrimParts(s, p);
    PeelBack(terms, pre + Trim(s, p), post);
    PeelFront(terms, pre, Trim(s, p));
  }

  // ---------------------------------------------------------------------------------------------
  // What a single clause says, in terms of the text
  // ---------------------------------------------------------------------------------------------

  lemma {:induction false} TermPropsExactly(terms: seq<Term>, clause: seq<Token>, p: Prop)
    ensures p in TermProps(terms, clause) <==>
            p.term in terms && Mentions(clause, p.term) && (p.affirmed <==> !Negated(clause))
  {
    if terms != [] {
      TermPropsExactly(terms[1..], clause, p);
      assert p.term in terms <==> p.term == terms[0] || p.term in terms[1..];
    }
  }

  lemma {:induction false} OneClause(ts: seq<Token>)
    requires forall t :: t in ts ==> !IsClauseMark(t) && t != AND_WORD
    ensures Clauses(ts) == [ts]
    decreases |ts|
  {
    var r := WsRun(ts);
    if r < |ts| {
      assert ts[r] in ts;
      OneClause(ts[1..]);
      assert [ts[0]] + ts[1..] == ts;
    }
  }

  lemma EveryTermIsListed(t: Term)
    ensures t in STATE_TERMS
  {
    assert STATE_TERMS[0] == OPEN && STATE_TERMS[1] == DEFERRED && STATE_TERMS[2] == UNDECIDED
      && STATE_TERMS[3] == PENDING && STATE_TERMS[4] == RESOLVED && STATE_TERMS[5] == CLOSED
      && STATE_TERMS[6] == BINDING && STATE_TERMS[7] == ACCEPTED && STATE_TERMS[8] == ANSWERED
      && STATE_TERMS[9] == AUTHORIZED && STATE_TERMS[10] == DECIDED && STATE_TERMS[11] == COMPLETE
      && STATE_TERMS[12] == COMPLETED && STATE_TERMS[13] == SUPERSEDED && STATE_TERMS[14] == SUPERSEDES
      && STATE_TERMS[15] == SETTLED && STATE_TERMS[16] == FINALIZED && STATE_TERMS[17] == FINALISED
      && STATE_TERMS[18] == RATIFIED && STATE_TERMS[19] == APPROVED && STATE_TERMS[20] == FINAL
      && STATE_TERMS[21] == AUTHORITATIVE;
  }

  lemma SpellingIsAWord(t: Term)
    ensures All(Spelling(t), IsWordChar)
  {
  }

  lemma {:induction false} SeparatorComesFromText(s: string, c: char)
    requires Sep(c) in Tokenize(s)
    ensures c in s
    decreases |s|
  {
    if IsWordChar(s[0]) {
      SeparatorComesFromText(s[WordRun(s)..], c);
    } else if s[0] != c {
      SeparatorComesFromText(s[1..], c);
    }
  }

  /** The word occurs in the upper-cased text, bounded on both sides. */
  ghost predicate Says(value: string, word: string) { exists i :: WordAt(Upper(value), word, i) }

  lemma SaysIsToken(value: string, word: string)
    requires word != "" && All(word, IsWordChar)
    ensures Says(value, word) <==> Word(word) in Tokenize(Upper(value))
  {
    WordSearchIsTokenSearch(Upper(value), word);
  }

  /** A value with no slash, comma or AND makes one kind of claim about every state term it
      mentions: affirmed unless NO, NOT or NEVER occurs in it. */
  lemma SingleClauseSays(value: string, p: Prop)
    requires '/' !in value && ',' !in value && !Says(value, "AND")
    ensures p in Propositions(value) <==>
            Says(value, Spelling(p.term))
            && (p.affirmed <==> !Says(value, "NO") && !Says(value, "NOT") && !Says(value, "NEVER"))
  {
    var ts := Tokenize(Upper(value));
    EveryTermIsListed(p.term);
    SpellingIsAWord(p.term);
    SaysIsToken(value, Spelling(p.term));
    SaysIsToken(value, "NO");
    SaysIsToken(value, "NOT");
    SaysIsToken(value, "NEVER");
    NoBreakTokens(value);
    SingleClauseIn(STATE_TERMS, value, ts, p);
  }

  lemma SingleClauseIn(terms: seq<Term>, value: string, ts: seq<Token>, p: Prop)
    requires ts == Tokenize(Upper(value)) && forall t :: t in ts ==> !IsClauseMark(t) && t != AND_WORD
    ensures p in PropositionsIn(terms, value) <==>
            p.term in terms && Mentions(ts, p.term)
            && (p.affirmed <==> Word("NO") !in ts && Word("NOT") !in ts && Word("NEVER") !in ts)
  {
    OneClause(ts);
    TermPropsExactly(terms, ts, p);
    assert ClausesProps(terms, [ts]) == TermProps(terms, ts) + [] by { assert [ts][1..] == []; }
  }

  lemma NoBreakTokens(value: string)
    requires '/' !in value && ',' !in value && !Says(value, "AND")
    ensures forall t :: t in Tokenize(Upper(value)) ==> !IsClauseMark(t) && t != AND_WORD
  {
    var u := Upper(value);
    assert '/' !in u && ',' !in u by {
      forall i | 0 <= i < |u| ensures u[i] != '/' && u[i] != ',' { assert u[i] == UpperChar(value[i]); }
    }
    SaysIsToken(value, "AND");
    forall t | t in Tokenize(u) ensures !IsClauseMark(t) && t != AND_WORD {
      if t.Sep? { SeparatorComesFromText(u, t.mark); }
    }
  }
}
