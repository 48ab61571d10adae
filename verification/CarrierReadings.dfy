/**
 How a value is read, in terms of its text: the constructs that make it more than one clause, the
 part a lenient reading keeps, and the words that decide the verdict on a value of one clause.
 */
module CarrierReadings {
  import opened Text
  import opened StateJudge
  import opened CarrierVerdict
  import opened CarrierForms

  // ---------------------------------------------------------------------------------------------
  // Atomic values
  // ---------------------------------------------------------------------------------------------

  /** Two or more hyphens between white space or the ends of the value. */
  predicate LoneHyphens(value: string, i: int, j: int) {
    0 <= i && i + 2 <= j <= |value| && (forall k :: i <= k < j ==> value[k] == '-')
    && (i > 0 ==> IsSpace(value[i - 1])) && (j < |value| ==> IsSpace(value[j]))
  }

  /** A full stop at the end of the value or before white space. */
  predicate FullStop(value: string, i: int) {
    0 <= i < |value| && value[i] == '.' && (i + 1 < |value| ==> IsSpace(value[i + 1]))
  }

  predicate NoneOf(value: string, chars: string) { forall i :: 0 <= i < |value| ==> value[i] !in chars }

  lemma BracketsWrittenOut(value: string)
    ensures !Has(value, Bracket) <==> NoneOf(value, "()[]{}")
  {
    forall i | 0 <= i < |value| ensures IsBracket(value[i]) <==> value[i] in "()[]{}" { BracketChar(value[i]); }
  }

  lemma BracketChar(c: char)
    ensures IsBracket(c) <==> c in "()[]{}"
  {
  }

  lemma WideDashesWrittenOut(value: string)
    ensures !Has(value, WideDash) <==> NoneOf(value, "\U{2012}\U{2013}\U{2014}\U{2015}")
  {
    forall i | 0 <= i < |value|
      ensures IsWideDash(value[i]) <==> value[i] in "\U{2012}\U{2013}\U{2014}\U{2015}"
    {
      WideDashChar(value[i]);
    }
  }

  lemma WideDashChar(c: char)
    ensures IsWideDash(c) <==> c in "\U{2012}\U{2013}\U{2014}\U{2015}"
  {
  }

  lemma DashesWrittenOut(value: string)
    ensures Has(value, DashComment) <==> exists i, j :: LoneHyphens(value, i, j)
  {
    forall i, j ensures DashClauseAt(value, i, j) <==> LoneHyphens(value, i, j) {}
    if i, j :| LoneHyphens(value, i, j) { assert DashClauseAt(value, i, j); }
    if HasDashClause(value) {
      var i, j :| 0 <= i <= |value| && 0 <= j <= |value| && DashClauseAt(value, i, j);
      assert LoneHyphens(value, i, j);
    }
  }

  lemma StopsWrittenOut(value: string)
    ensures Has(value, SentenceBreak) <==> exists i :: FullStop(value, i)
  {
    if i :| FullStop(value, i) { assert value[i] == '.'; }
    if HasSentenceBreak(value) {
      var i :| 0 <= i < |value| && value[i] == '.' && (i + 1 == |value| || IsSpace(value[i + 1]));
      assert FullStop(value, i);
    }
  }

  lemma SixConstructs(value: string)
    ensures Atomic(value) <==>
            !Blank(value) && !Has(value, Semicolon) && !Has(value, SecondLine) && !Has(value, Bracket)
            && !Has(value, DashComment) && !Has(value, WideDash) && !Has(value, SentenceBreak)
  {
  }

  /** A value is atomic when it is not blank and holds no semicolon, line end, bracket, wide dash,
      run of hyphens standing alone, or full stop at its end or before white space. */
  lemma AtomicWrittenOut(value: string)
    ensures AtomicityVerdict(value).Allowed? <==>
            && !Blank(value) && ';' !in value && '\n' !in value
            && NoneOf(value, "()[]{}") && NoneOf(value, "\U{2012}\U{2013}\U{2014}\U{2015}")
            && !(exists i, j :: LoneHyphens(value, i, j)) && !(exists i :: FullStop(value, i))
  {
    AtomicExactlyWhen(value);
    SixConstructs(value);
    BracketsWrittenOut(value);
    WideDashesWrittenOut(value);
    DashesWrittenOut(value);
    StopsWrittenOut(value);
  }

  // ---------------------------------------------------------------------------------------------
  // The lenient reading
  // ---------------------------------------------------------------------------------------------

  /** A qualifier starts at `i`: white space, two hyphens and white space, or a semicolon after any
      white space. */
  predicate QualifiedAt(s: string, i: int) {
    exists j :: i <= j <= |s| && QualifierWith(s, i, j)
  }

  predicate QualifierWith(s: string, i: int, j: int) {
    0 <= i <= j < |s| && (forall k :: i <= k < j ==> IsSpace(s[k]))
    && (s[j] == ';' || (i < j && j + 2 < |s| && s[j] == '-' && s[j + 1] == '-' && IsSpace(s[j + 2])))
  }

  lemma SpaceRunIs(s: string, n: nat)
    requires n <= |s| && (forall i :: 0 <= i < n ==> IsSpace(s[i])) && (n < |s| ==> !IsSpace(s[n]))
    ensures SpaceRun(s) == n
  {
  }

  lemma QualifierWrittenOut(s: string, i: nat)
    requires i <= |s|
    ensures QualifierStarts(s[i..]) <==> QualifiedAt(s, i)
  {
    var t := s[i..];
    var r := SpaceRun(t);
    if QualifierStarts(t) { assert QualifierWith(s, i, i + r); }
    if j :| i <= j <= |s| && QualifierWith(s, i, j) {
      assert t[j - i] == s[j] && !IsSpace(s[j]);
      assert forall k :: 0 <= k < j - i ==> t[k] == s[i + k];
      SpaceRunIs(t, j - i);
    }
  }

  /** The text up to the first qualifier is what is kept. */
  lemma {:induction false} KeptBeforeQualifier(s: string, n: nat)
    requires n <= |s| && (forall i :: 0 <= i < n ==> !QualifierStarts(s[i..])) && (n < |s| ==> QualifierStarts(s[n..]))
    ensures BeforeQualifier(s) == s[..n]
  {
    if n > 0 {
      assert s[0..] == s;
      forall i | 0 <= i < n - 1 ensures !QualifierStarts(s[1..][i..]) { assert s[1..][i..] == s[i + 1..]; }
      if n < |s| { assert s[1..][n - 1..] == s[n..]; }
      KeptBeforeQualifier(s[1..], n - 1);
      assert s[..n] == [s[0]] + s[1..][..n - 1];
    } else if s != "" {
      assert s[0..] == s;
    }
  }

  lemma SpaceForParenthetical(p: string, b: string)
    requires ')' !in p
    ensures WithoutParentheses("(" + p + ")" + b) == " " + WithoutParentheses(b)
  {
    var s := "(" + p + ")" + b;
    assert s[0] == '(' && s[|p| + 1] == ')' && forall i :: 0 < i <= |p| ==> s[i] == p[i - 1];
    IndexIs(s, ')', |p| + 1);
    assert s[|p| + 2..] == b;
  }

  lemma {:induction false} OutsideStays(a: string, rest: string)
    requires '(' !in a
    ensures WithoutParentheses(a + rest) == a + WithoutParentheses(rest)
    decreases |a|
  {
    if a == "" {
      assert a + rest == rest;
    } else {
      var s := a + rest;
      assert s[0] == a[0] && s[1..] == a[1..] + rest;
      OutsideStays(a[1..], rest);
      assert [a[0]] + (a[1..] + WithoutParentheses(rest)) == a + WithoutParentheses(rest);
    }
  }

  predicate OneParenthetical(s: string, a: string, p: string, b: string) {
    s == a + ("(" + p + ")" + b) && '(' !in a && ')' !in p && '(' !in b
  }

  lemma ReadOneParenthetical(s: string, a: string, p: string, b: string)
    requires OneParenthetical(s, a, p, b)
    ensures WithoutParentheses(s) == a + (" " + b) && Parentheticals(s) == [p]
  {
    OutsideStays(a, "(" + p + ")" + b);
    SpaceForParenthetical(p, b);
    OutsideStays(b, "");
    assert b + "" == b;
    ParentheticalsRead(a, p, b);
    NothingBeforeOpening(b, "");
  }

  /** A state term occurs in the text as a whole word. */
  ghost predicate SaysState(s: string) { exists t: Term :: Says(s, Spelling(t)) }

  lemma SaysStateIs(s: string)
    ensures MentionsState(s) <==> SaysState(s)
  {
    forall t: Term ensures Mentions(Tokenize(Upper(s)), t) <==> Says(s, Spelling(t)) {
      SpellingIsAWord(t);
      SaysIsToken(s, Spelling(t));
    }
  }

  lemma ReadHeadIs(s: string, a: string, p: string, b: string)
    requires OneParenthetical(s, a, p, b)
    ensures var outside, inside := Trim(a + (" " + b), EdgeMark), Strip(p);
            ReadHead(s) == if MentionsState(outside) then outside else if MentionsState(inside) then inside
                           else if outside != "" then outside else inside
  {
    ReadOneParenthetical(s, a, p, b);
    assert Join([p], " ") == p;
  }

  lemma KeptHead(value: string, n: nat)
    requires Strip(value) == value && n <= |value|
    requires (forall i :: 0 <= i < n ==> !QualifiedAt(value, i)) && (n < |value| ==> QualifiedAt(value, n))
    ensures CurrentValue(value) == ReadHead(Strip(value[..n]))
  {
    forall i: nat | i <= |value| ensures QualifierStarts(value[i..]) <==> QualifiedAt(value, i) {
      QualifierWrittenOut(value, i);
    }
    KeptBeforeQualifier(value, n);
  }

  /** A value with one parenthetical, read up to its first qualifier, is read as what stands outside
      the parenthetical if that names a state, else as what stands inside if that does, else as what
      stands outside if anything does. */
  lemma LenientReading(value: string, n: nat, a: string, p: string, b: string)
    requires Strip(value) == value && n <= |value| && OneParenthetical(Strip(value[..n]), a, p, b)
    requires (forall i :: 0 <= i < n ==> !QualifiedAt(value, i)) && (n < |value| ==> QualifiedAt(value, n))
    ensures var outside, inside := Trim(a + (" " + b), EdgeMark), Strip(p);
            && (SaysState(outside) ==> CurrentValue(value) == outside)
            && (!SaysState(outside) && SaysState(inside) ==> CurrentValue(value) == inside)
            && (!SaysState(outside) && !SaysState(inside) ==>
                  CurrentValue(value) == if outside != "" then outside else inside)
  {
    KeptHead(value, n);
    HeadReads(Strip(value[..n]), a, p, b);
  }

  lemma HeadReads(head: string, a: string, p: string, b: string)
    requires OneParenthetical(head, a, p, b)
    ensures var outside, inside := Trim(a + (" " + b), EdgeMark), Strip(p);
            && (SaysState(outside) ==> ReadHead(head) == outside)
            && (!SaysState(outside) && SaysState(inside) ==> ReadHead(head) == inside)
            && (!SaysState(outside) && !SaysState(inside) ==>
                  ReadHead(head) == if outside != "" then outside else inside)
  {
    ReadHeadIs(head, a, p, b);
    SaysStateIs(Trim(a + (" " + b), EdgeMark));
    SaysStateIs(Strip(p));
  }

  // ---------------------------------------------------------------------------------------------
  // Values of one clause
  // ---------------------------------------------------------------------------------------------

  const OPEN_WORDS: seq<string> := ["OPEN", "DEFERRED", "UNDECIDED", "PENDING"]

  const CLOSURE_WORDS: seq<string> := [
    "RESOLVED", "CLOSED", "BINDING", "ACCEPTED", "ANSWERED", "AUTHORIZED", "DECIDED", "COMPLETE",
    "COMPLETED", "SUPERSEDED", "SUPERSEDES", "SETTLED", "FINALIZED", "FINALISED", "RATIFIED", "APPROVED", "FINAL"
  ]

  /** What a clause says, term by term, all of it negated or none. */
  ghost predicate OneClauseSays(props: seq<Prop>, says: Term -> bool, negated: bool) {
    forall p: Prop :: p in props <==> says(p.term) && (p.affirmed <==> !negated)
  }

  /** The verdict on such a clause, given whether it says an open and whether it says a closing term. */
  predicate ClauseAllowed(kind: Kind, says: Term -> bool, negated: bool, open: bool, closed: bool) {
    match kind
    case AtM2Authorization => negated && says(AUTHORIZED)
    case Authority => !negated && says(AUTHORITATIVE) && !says(SUPERSEDED) && !says(SUPERSEDES)
    case NonDecision => negated || !closed
    case Decision => if negated then says(DECIDED) else says(DEFERRED) && !closed
    case Authorization => if negated then says(AUTHORIZED) || says(DECIDED) else open && !closed
    case Status => !negated && open && !closed
  }

  lemma ClauseVerdict(kind: Kind, props: seq<Prop>, says: Term -> bool, negated: bool, open: bool, closed: bool)
    requires OneClauseSays(props, says, negated)
    requires open <==> exists t: Term :: Openish(t) && says(t)
    requires closed <==> exists t: Term :: Closure(t) && says(t)
    ensures StateVerdict(kind, props).Allowed? <==> ClauseAllowed(kind, says, negated, open, closed)
  {
    AllowedExactlyWhen(kind, props);
    forall t: Term ensures Prop(true, t) in props <==> says(t) && !negated {}
    forall t: Term ensures Prop(false, t) in props <==> says(t) && negated {}
    assert (forall p :: p in props ==> !Fatal(kind, p)) <==>
           (negated || forall t: Term :: says(t) ==> !Fatal(kind, Prop(true, t)));
  }

  const OPEN_TERMS: seq<Term> := [OPEN, DEFERRED, UNDECIDED, PENDING]

  const CLOSURE_TERMS: seq<Term> := [
    RESOLVED, CLOSED, BINDING, ACCEPTED, ANSWERED, AUTHORIZED, DECIDED, COMPLETE,
    COMPLETED, SUPERSEDED, SUPERSEDES, SETTLED, FINALIZED, FINALISED, RATIFIED, APPROVED, FINAL
  ]

  predicate SpelledAs(terms: seq<Term>, words: seq<string>) {
    |terms| == |words| && forall i :: 0 <= i < |terms| ==> Spelling(terms[i]) == words[i]
  }

  lemma OpenTermsAreSpelled()
    ensures SpelledAs(OPEN_TERMS, OPEN_WORDS)
  {
  }

  lemma ClosureTermsAreSpelled()
    ensures SpelledAs(CLOSURE_TERMS, CLOSURE_WORDS)
  {
  }

  lemma OpenTermsAre(t: Term)
    ensures Openish(t) <==> t in OPEN_TERMS
  {
    assert OPEN_TERMS[0] == OPEN && OPEN_TERMS[1] == DEFERRED && OPEN_TERMS[2] == UNDECIDED && OPEN_TERMS[3] == PENDING;
  }

  lemma ClosureTermsClose(i: nat)
    requires i < |CLOSURE_TERMS|
    ensures Closure(CLOSURE_TERMS[i])
  {
  }

  function ClosureIndex(t: Term): nat {
    match t case RESOLVED => 0 case CLOSED => 1 case BINDING => 2 case ACCEPTED => 3 case ANSWERED => 4
    case AUTHORIZED => 5 case DECIDED => 6 case COMPLETE => 7 case COMPLETED => 8 case SUPERSEDED => 9
    case SUPERSEDES => 10 case SETTLED => 11 case FINALIZED => 12 case FINALISED => 13 case RATIFIED => 14
    case APPROVED => 15 case _ => 16
  }

  lemma ClosureTermsAreListed(t: Term)
    requires Closure(t)
    ensures ClosureIndex(t) < |CLOSURE_TERMS| && CLOSURE_TERMS[ClosureIndex(t)] == t
  {
  }

  lemma ClosureTermsAre(t: Term)
    ensures Closure(t) <==> t in CLOSURE_TERMS
  {
    if Closure(t) { ClosureTermsAreListed(t); }
    if i :| 0 <= i < |CLOSURE_TERMS| && CLOSURE_TERMS[i] == t { ClosureTermsClose(i); }
  }

  lemma SaysTermOf(say: string -> bool, terms: seq<Term>, words: seq<string>)
    requires SpelledAs(terms, words)
    ensures (exists w :: w in words && say(w)) <==> exists t :: t in terms && say(Spelling(t))
  {
    if w :| w in words && say(w) {
      var i :| 0 <= i < |words| && words[i] == w;
      assert terms[i] in terms && say(Spelling(terms[i]));
    }
    if t :| t in terms && say(Spelling(t)) {
      var i :| 0 <= i < |terms| && terms[i] == t;
      assert words[i] in words && say(words[i]);
    }
  }

  ghost predicate AnyOf(words: seq<string>, say: string -> bool) { exists w :: w in words && say(w) }

  lemma OpenIsSaid(say: string -> bool)
    ensures AnyOf(OPEN_WORDS, say) <==> exists t: Term :: Openish(t) && say(Spelling(t))
  {
    OpenTermsAreSpelled();
    SaysTermOf(say, OPEN_TERMS, OPEN_WORDS);
    forall t: Term ensures Openish(t) <==> t in OPEN_TERMS { OpenTermsAre(t); }
  }

  lemma ClosureIsSaid(say: string -> bool)
    ensures AnyOf(CLOSURE_WORDS, say) <==> exists t: Term :: Closure(t) && say(Spelling(t))
  {
    ClosureTermsAreSpelled();
    SaysTermOf(say, CLOSURE_TERMS, CLOSURE_WORDS);
    forall t: Term ensures Closure(t) <==> t in CLOSURE_TERMS { ClosureTermsAre(t); }
  }

  /** The words a value of one clause must and must not contain for its kind. */
  ghost predicate WordsAllowed(kind: Kind, say: string -> bool) {
    var negates := say("NO") || say("NOT") || say("NEVER");
    match kind
    case AtM2Authorization => negates && say("AUTHORIZED")
    case Authority => !negates && say("AUTHORITATIVE") && !say("SUPERSEDED") && !say("SUPERSEDES")
    case NonDecision => negates || !AnyOf(CLOSURE_WORDS, say)
    case Decision => if negates then say("DECIDED") else say("DEFERRED") && !AnyOf(CLOSURE_WORDS, say)
    case Authorization =>
      if negates then say("AUTHORIZED") || say("DECIDED") else AnyOf(OPEN_WORDS, say) && !AnyOf(CLOSURE_WORDS, say)
    case Status => !negates && AnyOf(OPEN_WORDS, say) && !AnyOf(CLOSURE_WORDS, say)
  }

  /** The terms a verdict asks for by name are told by their spelling. */
  predicate TermsAreTold(say: string -> bool, says: Term -> bool) {
    says(AUTHORIZED) == say("AUTHORIZED") && says(DECIDED) == say("DECIDED")
    && says(AUTHORITATIVE) == say("AUTHORITATIVE") && says(DEFERRED) == say("DEFERRED")
    && says(SUPERSEDED) == say("SUPERSEDED") && says(SUPERSEDES) == say("SUPERSEDES")
  }

  lemma SpelledTermsAreTold(say: string -> bool, says: Term -> bool)
    requires forall t: Term :: says(t) == say(Spelling(t))
    ensures TermsAreTold(say, says)
  {
  }

  lemma WordsAreTerms(kind: Kind, say: string -> bool, says: Term -> bool)
    requires TermsAreTold(say, says)
    ensures ClauseAllowed(kind, says, say("NO") || say("NOT") || say("NEVER"), AnyOf(OPEN_WORDS, say), AnyOf(CLOSURE_WORDS, say))
            <==> WordsAllowed(kind, say)
  {
  }

  /** `say` tells the words that stand in the value. */
  ghost predicate Tells(say: string -> bool, value: string) {
    forall w :: w != "" && All(w, IsWordChar) ==> say(w) == Says(value, w)
  }

  lemma NegatorsAreTold(value: string, say: string -> bool)
    requires Tells(say, value)
    ensures say("NO") == Says(value, "NO") && say("NOT") == Says(value, "NOT") && say("NEVER") == Says(value, "NEVER")
  {
  }

  lemma ClauseIsTold(value: string, say: string -> bool, says: Term -> bool)
    requires '/' !in value && ',' !in value && !Says(value, "AND") && Tells(say, value)
    requires forall t: Term :: says(t) == say(Spelling(t))
    ensures OneClauseSays(Propositions(value), says, say("NO") || say("NOT") || say("NEVER"))
  {
    NegatorsAreTold(value, say);
    forall p: Prop
      ensures p in Propositions(value) <==>
              says(p.term) && (p.affirmed <==> !(say("NO") || say("NOT") || say("NEVER")))
    {
      SpellingIsAWord(p.term);
      SingleClauseSays(value, p);
    }
  }

  lemma JudgeIsBoth(kind: Kind, value: string)
    ensures Judge(kind, value).Allowed? <==>
            AtomicityVerdict(value).Allowed? && StateVerdict(kind, Propositions(value)).Allowed?
  {
  }

  /** A value with no slash, comma or AND is accepted for its kind exactly when it is atomic and its
      words allow it. */
  lemma OneClauseAllowed(kind: Kind, value: string, say: string -> bool)
    requires '/' !in value && ',' !in value && !Says(value, "AND") && Tells(say, value)
    ensures Judge(kind, value).Allowed? <==> AtomicityVerdict(value).Allowed? && WordsAllowed(kind, say)
  {
    var says := (t: Term) => say(Spelling(t));
    JudgeIsBoth(kind, value);
    ClauseIsTold(value, say, says);
    OpenIsSaid(say);
    ClosureIsSaid(say);
    ClauseVerdict(kind, Propositions(value), says, say("NO") || say("NOT") || say("NEVER"),
                  AnyOf(OPEN_WORDS, say), AnyOf(CLOSURE_WORDS, say));
    SpelledTermsAreTold(say, says);
    WordsAreTerms(kind, say, says);
  }
}
