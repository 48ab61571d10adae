/**
 The judgement of one carrier value: AT-D10.1 atomicity, then the allowed states of its kind, and
 the lenient reading used for non-canonical records.
 */
module CarrierVerdict {
  import opened Wrappers
  import opened Text
  import opened StateJudge

  datatype Kind = Status | Decision | Authority | Authorization | NonDecision | AtM2Authorization

  datatype Construct = Semicolon | SecondLine | Bracket | DashComment | WideDash | SentenceBreak

  datatype Reason =
    | EmptyValue
    | NotAtomic(construct: Construct)
    | CurrentlyAuthorized
    | NotAffirmativelyUnauthorized
    | ClaimedSuperseded
    | NotAuthoritative
    | AffirmsClosure(terms: set<Term>)
    | NegatesOpen(terms: set<Term>)
    | NoDecisionState
    | UnknownValue

  datatype Verdict = Allowed | Rejected(why: Reason)

  // ---------------------------------------------------------------------------------------------
  // Allowed states per kind
  // ---------------------------------------------------------------------------------------------

  function Affirmed(props: seq<Prop>): set<Term> { set t: Term | Prop(true, t) in props }
  function Denied(props: seq<Prop>): set<Term> { set t: Term | Prop(false, t) in props }
  function ClosedIn(terms: set<Term>): set<Term> { set t | t in terms && Closure(t) }
  function OpenIn(terms: set<Term>): set<Term> { set t | t in terms && Openish(t) }

  function StateVerdict(kind: Kind, props: seq<Prop>): Verdict {
    var affirmed, denied := Affirmed(props), Denied(props);
    var closed := ClosedIn(affirmed);
    match kind
    case AtM2Authorization =>
      if AUTHORIZED in affirmed then Rejected(CurrentlyAuthorized)
      else if AUTHORIZED in denied then Allowed
      else Rejected(NotAffirmativelyUnauthorized)
    case Authority =>
      if SUPERSEDED in affirmed || SUPERSEDES in affirmed then Rejected(ClaimedSuperseded)
      else if AUTHORITATIVE in affirmed then Allowed
      else if closed != {} then Rejected(AffirmsClosure(closed))
      else Rejected(NotAuthoritative)
    case NonDecision =>
      if closed != {} then Rejected(AffirmsClosure(closed)) else Allowed
    case Decision =>
      if closed != {} then Rejected(AffirmsClosure(closed))
      else if DEFERRED in affirmed || DECIDED in denied then Allowed
      else Rejected(NoDecisionState)
    case Authorization =>
      if closed != {} then Rejected(AffirmsClosure(closed))
      else if AUTHORIZED in denied || DECIDED in denied || OpenIn(affirmed) != {} then Allowed
      else if OpenIn(denied) != {} then Rejected(NegatesOpen(OpenIn(denied)))
      else Rejected(UnknownValue)
    case Status =>
      if closed != {} then Rejected(AffirmsClosure(closed))
      else if OpenIn(denied) != {} then Rejected(NegatesOpen(OpenIn(denied)))
      else if OpenIn(affirmed) != {} then Allowed
      else Rejected(UnknownValue)
  }

  /** The verdict depends on which propositions are made, not on their order or number. */
  lemma VerdictIsOfASet(kind: Kind, props: seq<Prop>, props': seq<Prop>)
    requires forall p :: p in props <==> p in props'
    ensures StateVerdict(kind, props) == StateVerdict(kind, props')
  {
    assert Affirmed(props) == Affirmed(props');
    assert Denied(props) == Denied(props');
  }

  /** A proposition no clause can make up for, for a carrier of this kind. */
  predicate Fatal(kind: Kind, p: Prop) {
    p.affirmed &&
    match kind
    case AtM2Authorization => p.term == AUTHORIZED
    case Authority => p.term == SUPERSEDED || p.term == SUPERSEDES
    case _ => Closure(p.term)
  }

  lemma FatalIsFatal(kind: Kind, props: seq<Prop>, p: Prop)
    requires p in props && Fatal(kind, p)
    ensures StateVerdict(kind, props).Rejected?
  {
    assert p.term in Affirmed(props);
    if Closure(p.term) { assert p.term in ClosedIn(Affirmed(props)); }
  }

  /** What acceptance says about the propositions themselves, kind by kind and in both directions. */
  lemma AllowedExactlyWhen(kind: Kind, props: seq<Prop>)
    ensures StateVerdict(kind, props).Allowed? <==>
            (forall p :: p in props ==> !Fatal(kind, p)) &&
            match kind {
              case AtM2Authorization => Prop(false, AUTHORIZED) in props
              case Authority => Prop(true, AUTHORITATIVE) in props
              case NonDecision => true
              case Decision => Prop(true, DEFERRED) in props || Prop(false, DECIDED) in props
              case Authorization =>
                Prop(false, AUTHORIZED) in props || Prop(false, DECIDED) in props
                || exists t :: Openish(t) && Prop(true, t) in props
              case Status =>
                (exists t :: Openish(t) && Prop(true, t) in props)
                && forall t :: Openish(t) ==> Prop(false, t) !in props
            }
  {
    var affirmed, denied := Affirmed(props), Denied(props);
    assert forall t :: t in ClosedIn(affirmed) ==> Prop(true, t) in props;
    assert forall t :: t in OpenIn(affirmed) ==> Prop(true, t) in props;
    assert forall t :: t in OpenIn(denied) ==> Prop(false, t) in props;
    forall t | Openish(t) && Prop(true, t) in props ensures t in OpenIn(affirmed) {}
    forall t | Openish(t) && Prop(false, t) in props ensures t in OpenIn(denied) {}
    if exists p :: p in props && Fatal(kind, p) {
      var p :| p in props && Fatal(kind, p);
      FatalIsFatal(kind, props, p);
    } else {
      match kind
      case AtM2Authorization =>
        assert AUTHORIZED in affirmed ==> Fatal(kind, Prop(true, AUTHORIZED));
      case Authority =>
        assert SUPERSEDED in affirmed ==> Fatal(kind, Prop(true, SUPERSEDED));
        assert SUPERSEDES in affirmed ==> Fatal(kind, Prop(true, SUPERSEDES));
      case _ =>
        assert forall t :: t in ClosedIn(affirmed) ==> Fatal(kind, Prop(true, t));
    }
  }

  // ---------------------------------------------------------------------------------------------
  // No shielding: clauses speak independently
  // ---------------------------------------------------------------------------------------------

  /** Text that separates two clauses: `left`, then a slash, a comma or the word AND in any case,
      then `right`, where the sides are white space and AND needs some on both. */
  datatype Glue = Glue(left: string, core: string, right: string) {
    predicate Valid() {
      Blank(left) && Blank(right)
      && (core == "/" || core == "," || (Upper(core) == "AND" && left != "" && right != ""))
    }
    function Text(): string { left + core + right }
  }

  function Seps(s: string): (ts: seq<Token>)
    ensures |ts| == |s| && forall i :: 0 <= i < |s| ==> ts[i] == Sep(s[i])
  {
    seq(|s|, i requires 0 <= i < |s| => Sep(s[i]))
  }

  lemma {:induction false} TokenizeSeparators(m: string, b: string)
    requires forall i :: 0 <= i < |m| ==> !IsWordChar(m[i])
    ensures Tokenize(m + b) == Seps(m) + Tokenize(b)
  {
    if m == "" {
      assert m + b == b;
    } else {
      TokenizeSeparators(m[1..], b);
      assert (m + b)[1..] == m[1..] + b;
      assert Seps(m) == [Sep(m[0])] + Seps(m[1..]);
    }
  }

  lemma TokenizeBetween(a: string, m: string, b: string)
    requires m != "" && forall i :: 0 <= i < |m| ==> !IsWordChar(m[i])
    ensures Tokenize(a + m + b) == Tokenize(a) + Seps(m) + Tokenize(b)
  {
    var c, rest := m[0], m[1..] + b;
    assert a + m + b == a + [c] + rest;
    TokenizeAround(a, c, rest);
    TokenizeSeparators(m[1..], b);
    assert Seps(m) == [Sep(c)] + Seps(m[1..]);
    RegroupTokens(Tokenize(a), [Sep(c)], Seps(m[1..]), Tokenize(b));
  }

  lemma RegroupTokens(a: seq<Token>, b: seq<Token>, c: seq<Token>, d: seq<Token>)
    ensures a + b + (c + d) == a + (b + c) + d
  {
  }

  lemma UpperKeepsBlank(s: string)
    requires Blank(s)
    ensures Upper(s) == s && forall i :: 0 <= i < |s| ==> !IsWordChar(s[i])
  {
    forall i | 0 <= i < |s| ensures UpperChar(s[i]) == s[i] && !IsWordChar(s[i]) {
      UpperKeepsSeparators(s[i]);
    }
  }

  lemma AndIsOneWord()
    ensures Tokenize("AND") == [AND_WORD]
  {
    WordRunUniqueFor("AND");
    assert "AND"[3..] == "" && "AND"[..3] == "AND";
  }

  lemma WordRunUniqueFor(s: string)
    requires All(s, IsWordChar)
    ensures WordRun(s) == |s|
  {
  }

  /** The tokens of two upper-cased texts with glue between them. */
  lemma GluedTokens(a: string, g: Glue, b: string) returns (j: Joiner)
    requires g.Valid() && Upper(g.core) == g.core
    ensures j.Valid()
    ensures Tokenize(a + g.Text() + b) == Tokenize(a) + (j.Tokens() + Tokenize(b))
  {
    UpperKeepsBlank(g.left);
    UpperKeepsBlank(g.right);
    AllWsFrom(Seps(g.left));
    AllWsFrom(Seps(g.right));
    if g.core == "AND" {
      j := Joiner(Seps(g.left), AND_WORD, Seps(g.right));
      GluedByAnd(a, g, b);
    } else {
      UpperKeepsSeparators(g.core[0]);
      j := Joiner(Seps(g.left), Sep(g.core[0]), Seps(g.right));
      TokenizeBetween(a, g.Text(), b);
      assert Seps(g.Text()) == j.Tokens();
      Associative(Tokenize(a), j.Tokens(), Tokenize(b));
    }
  }

  lemma GluedByAnd(a: string, g: Glue, b: string)
    requires g.left != "" && g.core == "AND" && g.right != ""
    requires forall i :: 0 <= i < |g.left| ==> !IsWordChar(g.left[i])
    requires forall i :: 0 <= i < |g.right| ==> !IsWordChar(g.right[i])
    ensures Tokenize(a + g.Text() + b)
            == Tokenize(a) + (Seps(g.left) + [AND_WORD] + Seps(g.right) + Tokenize(b))
  {
    var tail := "AND" + g.right + b;
    assert a + g.Text() + b == a + g.left + tail;
    TokenizeBetween(a, g.left, tail);
    TokenizeBetween("AND", g.right, b);
    AndIsOneWord();
    RegroupAnd(Tokenize(a), Seps(g.left), [AND_WORD], Seps(g.right), Tokenize(b));
  }

  lemma RegroupAnd(a: seq<Token>, l: seq<Token>, w: seq<Token>, r: seq<Token>, b: seq<Token>)
    ensures a + l + (w + r + b) == a + (l + w + r + b)
  {
  }

  lemma UpperGlued(a: string, g: Glue, b: string) returns (g': Glue)
    requires g.Valid()
    ensures g'.Valid() && Upper(g'.core) == g'.core
    ensures Upper(a + g.Text() + b) == Upper(a) + g'.Text() + Upper(b)
  {
    g' := g.(core := Upper(g.core));
    UpperKeepsBlank(g.left);
    UpperKeepsBlank(g.right);
    UpperConcat(a + g.Text(), b);
    UpperConcat(a, g.Text());
    UpperConcat(g.left + g.core, g.right);
    UpperConcat(g.left, g.core);
  }

  /** The propositions of two joined clauses are those of the one, then those of the other. */
  lemma JoinedClauses(a: string, g: Glue, b: string)
    requires g.Valid()
    ensures Propositions(a + g.Text() + b) == Propositions(a) + Propositions(b)
  {
    var terms := STATE_TERMS;
    JoinedClausesIn(terms, a, g, b);
  }

  lemma JoinedClausesIn(terms: seq<Term>, a: string, g: Glue, b: string)
    requires g.Valid()
    ensures PropositionsIn(terms, a + g.Text() + b) == PropositionsIn(terms, a) + PropositionsIn(terms, b)
  {
    var g' := UpperGlued(a, g, b);
    var j := GluedTokens(Upper(a), g', Upper(b));
    JoinedMeaning(terms, [], Tokenize(Upper(a)), j, Tokenize(Upper(b)));
    PropositionsAreMeaning(terms, a + g.Text() + b);
    PropositionsAreMeaning(terms, a);
    PropositionsAreMeaning(terms, b);
  }

  /** Clauses with glue between them, a different one at every joint if need be. */
  predicate Jointed(values: seq<string>, glues: seq<Glue>) {
    |values| == |glues| + 1 && forall i :: 0 <= i < |glues| ==> glues[i].Valid()
  }

  function Glued(values: seq<string>, glues: seq<Glue>): string
    requires |values| == |glues| + 1
  {
    if glues == [] then values[0] else values[0] + glues[0].Text() + Glued(values[1..], glues[1..])
  }

  /** The propositions of glued clauses are those of the clauses, one after the other. */
  function AllPropositions(values: seq<string>): seq<Prop> {
    if values == [] then [] else Propositions(values[0]) + AllPropositions(values[1..])
  }

  lemma {:induction false} GluedClauses(values: seq<string>, glues: seq<Glue>)
    requires Jointed(values, glues)
    ensures Propositions(Glued(values, glues)) == AllPropositions(values)
    decreases |glues|
  {
    if glues == [] {
      assert values[1..] == [];
    } else {
      GluedClauses(values[1..], glues[1..]);
      JoinedClauses(values[0], glues[0], Glued(values[1..], glues[1..]));
    }
  }

  /** A proposition is made by glued clauses exactly when one of the clauses makes it. */
  lemma {:induction false} ClausesMake(values: seq<string>, p: Prop)
    ensures p in AllPropositions(values) <==> exists v :: v in values && p in Propositions(v)
  {
    if values != [] {
      ClausesMake(values[1..], p);
      assert forall v :: v in values <==> v == values[0] || v in values[1..];
    }
  }

  /** Acceptance is invariant under reordering and duplicating the clauses of a value and under
      changing what separates them. */
  lemma ClauseOrderIrrelevant(
    kind: Kind, values: seq<string>, glues: seq<Glue>, values': seq<string>, glues': seq<Glue>)
    requires Jointed(values, glues) && Jointed(values', glues')
    requires forall v :: v in values <==> v in values'
    ensures StateVerdict(kind, Propositions(Glued(values, glues)))
            == StateVerdict(kind, Propositions(Glued(values', glues')))
  {
    GluedClauses(values, glues);
    GluedClauses(values', glues');
    forall p ensures p in AllPropositions(values) <==> p in AllPropositions(values') {
      ClausesMake(values, p);
      ClausesMake(values', p);
    }
    VerdictIsOfASet(kind, AllPropositions(values), AllPropositions(values'));
  }

  /** No added clause rescues a value one of whose clauses makes a fatal proposition. */
  lemma NoShielding(kind: Kind, values: seq<string>, glues: seq<Glue>, v: string, p: Prop)
    requires Jointed(values, glues) && v in values && p in Propositions(v) && Fatal(kind, p)
    ensures StateVerdict(kind, Propositions(Glued(values, glues))).Rejected?
  {
    GluedClauses(values, glues);
    ClausesMake(values, p);
    FatalIsFatal(kind, AllPropositions(values), p);
  }

  lemma SpellingIsUpper(t: Term)
    ensures Upper(Spelling(t)) == Spelling(t)
  {
  }

  lemma OneWordTokens(s: string)
    requires s != "" && All(s, IsWordChar)
    ensures Tokenize(s) == [Word(s)]
  {
    WordRunUniqueFor(s);
    assert s[..|s|] == s && s[|s|..] == "";
  }

  /** No other state term is as long, and NEVER is not either. */
  predicate OwnLength(t: Term) { (forall x :: |Spelling(x)| == |Spelling(t)| ==> x == t) && |Spelling(t)| != 5 }

  /** A state term on its own, no other term being as long, is affirmed and nothing else is said. */
  lemma OneTermSays(t: Term, p: Prop)
    requires OwnLength(t)
    ensures p in Propositions(Spelling(t)) <==> p == Prop(true, t)
  {
    var s := Spelling(t);
    SpellingIsUpper(t);
    SpellingIsAWord(t);
    OneWordTokens(s);
    EveryTermIsListed(p.term);
    OneTermSaysIn(STATE_TERMS, t, p);
  }

  lemma OneTermSaysIn(terms: seq<Term>, t: Term, p: Prop)
    requires OwnLength(t)
    requires Tokenize(Upper(Spelling(t))) == [Word(Spelling(t))] && p.term in terms
    ensures p in PropositionsIn(terms, Spelling(t)) <==> p == Prop(true, t)
  {
    var s, ts := Spelling(t), [Word(Spelling(t))];
    assert |"AND"| == 3 && |"NO"| == 2 && |"NOT"| == 3 && |"NEVER"| == 5;
    SingleClauseIn(terms, s, ts, p);
    assert Mentions(ts, p.term) <==> p.term == t;
  }

  lemma TwoTermsSay(t: Term, g: Glue, u: Term, p: Prop)
    requires OwnLength(t) && OwnLength(u) && g.Valid()
    ensures p in Propositions(Spelling(t) + g.Text() + Spelling(u)) <==> p == Prop(true, t) || p == Prop(true, u)
  {
    JoinedClauses(Spelling(t), g, Spelling(u));
    OneTermSays(t, p);
    OneTermSays(u, p);
  }

  lemma LengthsAreTheirOwn()
    ensures OwnLength(AUTHORITATIVE) && OwnLength(CLOSED)
  {
    assert |Spelling(AUTHORITATIVE)| == 13 && |Spelling(CLOSED)| == 6;
  }

  const SPACED_SLASH: Glue := Glue(" ", "/", " ")

  /** `AUTHORITATIVE / CLOSED`: a closure beside AUTHORITATIVE does not keep an `authority` carrier from
      being accepted, although it keeps a status carrier from it. */
  lemma AuthorityToleratesClosure()
    ensures var props := Propositions(Spelling(AUTHORITATIVE) + SPACED_SLASH.Text() + Spelling(CLOSED));
            Prop(true, CLOSED) in props && StateVerdict(Authority, props).Allowed?
            && StateVerdict(Status, props).Rejected?
  {
    LengthsAreTheirOwn();
    TwoTermsVerdict(AUTHORITATIVE, CLOSED);
  }

  lemma TwoTermsVerdict(t: Term, u: Term)
    requires OwnLength(t) && OwnLength(u) && t == AUTHORITATIVE && u == CLOSED
    ensures var props := Propositions(Spelling(t) + SPACED_SLASH.Text() + Spelling(u));
            Prop(true, CLOSED) in props && StateVerdict(Authority, props).Allowed?
            && StateVerdict(Status, props).Rejected?
  {
    var props := Propositions(Spelling(t) + SPACED_SLASH.Text() + Spelling(u));
    forall p ensures p in props <==> p == Prop(true, t) || p == Prop(true, u) { TwoTermsSay(t, SPACED_SLASH, u, p); }
    AuthoritativeAndClosed(props);
  }

  lemma AuthoritativeAndClosed(props: seq<Prop>)
    requires forall p :: p in props <==> p == Prop(true, AUTHORITATIVE) || p == Prop(true, CLOSED)
    ensures StateVerdict(Authority, props).Allowed? && StateVerdict(Status, props).Rejected?
  {
    AllowedExactlyWhen(Authority, props);
    FatalIsFatal(Status, props, Prop(true, CLOSED));
  }

  // ---------------------------------------------------------------------------------------------
  // Atomicity
  // ---------------------------------------------------------------------------------------------

  predicate IsBracket(c: char) {
    c == '(' || c == '[' || c == '{' || c == ')' || c == ']' || c == '}'
  }

  predicate IsWideDash(c: char) { 0x2012 <= c as int <= 0x2015 }

  predicate Somewhere(s: string, p: char -> bool) { exists i :: 0 <= i < |s| && p(s[i]) }

  /** Two or more hyphens standing alone between white space or the ends. */
  predicate DashClauseAt(s: string, i: int, j: int) {
    0 <= i && i + 2 <= j <= |s|
    && (forall k :: i <= k < j ==> s[k] == '-')
    && (i == 0 || IsSpace(s[i - 1])) && (j == |s| || IsSpace(s[j]))
  }

  predicate HasDashClause(s: string) {
    exists i, j :: 0 <= i <= |s| && 0 <= j <= |s| && DashClauseAt(s, i, j)
  }

  predicate HasSentenceBreak(s: string) {
    exists i :: 0 <= i < |s| && s[i] == '.' && (i + 1 == |s| || IsSpace(s[i + 1]))
  }

  predicate Has(s: string, c: Construct) {
    match c
    case Semicolon => ';' in s
    case SecondLine => '\n' in s
    case Bracket => Somewhere(s, IsBracket)
    case DashComment => HasDashClause(s)
    case WideDash => Somewhere(s, IsWideDash)
    case SentenceBreak => HasSentenceBreak(s)
  }

  const CLAUSE_CONSTRUCTS: seq<Construct> :=
    [Semicolon, SecondLine, Bracket, DashComment, WideDash, SentenceBreak]

  function FirstConstruct(s: string, constructs: seq<Construct>): Option<Construct> {
    if constructs == [] then None
    else if Has(s, constructs[0]) then Some(constructs[0])
    else FirstConstruct(s, constructs[1..])
  }

  function AtomicityVerdict(value: string): Verdict {
    if Blank(value) then Rejected(EmptyValue)
    else match FirstConstruct(value, CLAUSE_CONSTRUCTS)
      case Some(c) => Rejected(NotAtomic(c))
      case None => Allowed
  }

  predicate Atomic(value: string) { !Blank(value) && forall c: Construct :: !Has(value, c) }

  lemma {:induction false} FirstConstructFinds(s: string, constructs: seq<Construct>)
    ensures match FirstConstruct(s, constructs)
            case Some(c) => c in constructs && Has(s, c)
            case None => forall c :: c in constructs ==> !Has(s, c)
  {
    if constructs != [] && !Has(s, constructs[0]) {
      FirstConstructFinds(s, constructs[1..]);
    }
  }

  lemma AtomicExactlyWhen(value: string)
    ensures AtomicityVerdict(value).Allowed? <==> Atomic(value)
  {
    FirstConstructFinds(value, CLAUSE_CONSTRUCTS);
    forall c: Construct ensures c in CLAUSE_CONSTRUCTS {
      assert c == CLAUSE_CONSTRUCTS[match c case Semicolon => 0 case SecondLine => 1
        case Bracket => 2 case DashComment => 3 case WideDash => 4 case SentenceBreak => 5];
    }
  }

  function Judge(kind: Kind, value: string): Verdict {
    match AtomicityVerdict(value)
    case Rejected(why) => Rejected(why)
    case Allowed => StateVerdict(kind, Propositions(value))
  }

  lemma AcceptedIsOneLine(kind: Kind, value: string)
    requires Judge(kind, value).Allowed?
    ensures value != "" && '\n' !in value
  {
    AtomicExactlyWhen(value);
    assert !Has(value, SecondLine);
  }

  // ---------------------------------------------------------------------------------------------
  // The lenient reading
  // ---------------------------------------------------------------------------------------------

  function SpaceRun(s: string): (n: nat)
    ensures n <= |s|
    ensures forall i :: 0 <= i < n ==> IsSpace(s[i])
    ensures n < |s| ==> !IsSpace(s[n])
  {
    if s == "" || !IsSpace(s[0]) then 0 else 1 + SpaceRun(s[1..])
  }

  /** A qualifier starts here: white space and ` -- `, or a semicolon with optional white space. */
  predicate QualifierStarts(s: string) {
    var r := SpaceRun(s);
    r < |s| && (s[r] == ';' ||
                (r > 0 && r + 2 < |s| && s[r] == '-' && s[r + 1] == '-' && IsSpace(s[r + 2])))
  }

  function BeforeQualifier(s: string): string {
    if s == "" || QualifierStarts(s) then "" else [s[0]] + BeforeQualifier(s[1..])
  }

  /** Every parenthetical becomes a space. */
  function WithoutParentheses(s: string): string
    decreases |s|
  {
    if s == "" then ""
    else if s[0] == '(' && IndexOf(s, ')') < |s| then " " + WithoutParentheses(s[IndexOf(s, ')') + 1..])
    else [s[0]] + WithoutParentheses(s[1..])
  }

  /** The contents of the parentheticals, in order. */
  function Parentheticals(s: string): (parts: seq<string>)
    decreases |s|
  {
    if s == "" then []
    else if s[0] == '(' && IndexOf(s, ')') < |s| then
      [s[1..IndexOf(s, ')')]] + Parentheticals(s[IndexOf(s, ')') + 1..])
    else Parentheticals(s[1..])
  }

  predicate EdgeMark(c: char) { c == ' ' || c == '\t' || c == '.' || c == ',' || c == ':' }

  predicate MentionsState(s: string) { exists t: Term :: Mentions(Tokenize(Upper(s)), t) }

  function CurrentValue(value: string): string { ReadHead(Strip(BeforeQualifier(Strip(value)))) }

  function ReadHead(head: string): string {
    var outside := Trim(WithoutParentheses(head), EdgeMark);
    var inside := Strip(Join(Parentheticals(head), " "));
    if MentionsState(outside) then outside
    else if MentionsState(inside) then inside
    else if outside != "" then outside else inside
  }

  lemma {:induction false} NoQualifier(s: string)
    requires forall i :: 0 <= i <= |s| ==> !QualifierStarts(s[i..])
    ensures BeforeQualifier(s) == s
  {
    if s != "" {
      assert s[0..] == s;
      forall i | 0 <= i <= |s[1..]| ensures !QualifierStarts(s[1..][i..]) {
        assert s[1..][i..] == s[i + 1..];
      }
      NoQualifier(s[1..]);
    }
  }

  lemma {:induction false} NoParentheses(s: string)
    requires '(' !in s
    ensures WithoutParentheses(s) == s && Parentheticals(s) == []
    decreases |s|
  {
    if s != "" { NoParentheses(s[1..]); }
  }

  /** Nothing that `CurrentValue` would cut off occurs in the middle part of an atomic value. */
  lemma AtomicHasNoQualifier(value: string, pre: string, mid: string, post: string, i: nat)
    requires Atomic(value) && value == pre + mid + post && i <= |mid|
    ensures !QualifierStarts(mid[i..])
  {
    var s := mid[i..];
    var r := SpaceRun(s);
    if r < |s| {
      var at := |pre| + i + r;
      assert s[r] == mid[i + r] == value[at];
      assert value[at] in value;
      assert !Has(value, Semicolon) && !Has(value, DashComment);
      if r > 0 && r + 2 < |s| && s[r] == '-' && s[r + 1] == '-' && IsSpace(s[r + 2]) {
        assert s[r + 1] == value[at + 1] && s[r + 2] == value[at + 2] && s[r - 1] == value[at - 1];
        assert DashClauseAt(value, at, at + 2);
      }
    }
  }

  lemma NothingMentionsNothing()
    ensures !MentionsState("")
  {
    assert Upper("") == "" && Tokenize("") == [];
  }

  lemma CurrentValueUncut(value: string)
    requires BeforeQualifier(Strip(value)) == Strip(value) && '(' !in Strip(Strip(value))
    ensures CurrentValue(value) == Trim(Strip(Strip(value)), EdgeMark)
  {
    var head := Strip(Strip(value));
    NoParentheses(head);
    NothingMentionsNothing();
    assert Join(Parentheticals(head), " ") == "" && Strip("") == "";
  }

  /** On an atomic value the lenient reading is the value itself, without its edge punctuation. */
  lemma CurrentValueOfAtomic(value: string)
    requires Atomic(value)
    ensures CurrentValue(value) == Trim(Strip(Strip(value)), EdgeMark)
  {
    var pre, post := TrimParts(value, IsSpace);
    var mid := Strip(value);
    forall i: nat | i <= |mid| ensures !QualifierStarts(mid[i..]) {
      AtomicHasNoQualifier(value, pre, mid, post, i);
    }
    NoQualifier(mid);
    NoBracketInside(value, pre, mid, post);
    CurrentValueUncut(value);
  }

  lemma NoBracketInside(value: string, pre: string, mid: string, post: string)
    requires Atomic(value) && value == pre + mid + post
    ensures '(' !in Strip(mid)
  {
    var pre', post' := TrimParts(mid, IsSpace);
    var head := Strip(mid);
    assert !Has(value, Bracket);
    forall k | 0 <= k < |head| ensures head[k] != '(' {
      assert head[k] == mid[|pre'| + k] == value[|pre| + |pre'| + k];
    }
  }

  lemma CurrentValueSays(terms: seq<Term>, value: string)
    requires Atomic(value)
    ensures PropositionsIn(terms, CurrentValue(value)) == PropositionsIn(terms, value)
  {
    CurrentValueOfAtomic(value);
    PeeledSays(terms, value, Strip(value), Strip(Strip(value)), Trim(Strip(Strip(value)), EdgeMark));
  }

  lemma PeeledSays(terms: seq<Term>, value: string, a: string, b: string, c: string)
    requires a == Strip(value) && b == Strip(a) && c == Trim(b, EdgeMark)
    ensures PropositionsIn(terms, c) == PropositionsIn(terms, value)
  {
    TrimKeepsPropositions(terms, value, IsSpace);
    TrimKeepsPropositions(terms, a, IsSpace);
    TrimKeepsPropositions(terms, b, EdgeMark);
  }

  lemma JudgeOfAtomic(kind: Kind, value: string)
    requires Atomic(value)
    ensures Judge(kind, value) == StateVerdict(kind, Propositions(value))
  {
    AtomicExactlyWhen(value);
  }

  /** On every atomic value the strict and the lenient reading give the same verdict. */
  lemma StrictIsLenientOnAtomic(kind: Kind, value: string)
    requires Atomic(value)
    ensures StateVerdict(kind, Propositions(CurrentValue(value))) == Judge(kind, value)
  {
    CurrentValueSays(STATE_TERMS, value);
    JudgeOfAtomic(kind, value);
  }
}
