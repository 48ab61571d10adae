/**
 Structural discovery of canonical state carriers in one document: a line scanner that keeps track
 of fenced blocks and of subject-declaring sections.
 */
module CarrierScan {
  import opened Wrappers
  import opened Text
  import opened CarrierVerdict

  datatype Subject = AtD09 | AtM2
  datatype Form = HeadingStatus | TableState | Register | Field | SectionField
  datatype Carrier = Carrier(line: nat, form: Form, kind: Kind, value: string)

  // ---------------------------------------------------------------------------------------------
  // Reading one line
  // ---------------------------------------------------------------------------------------------

  predicate QuoteOrSpace(c: char) { c == '>' || IsSpace(c) }

  function DigitRun(s: string): (n: nat)
    ensures n <= |s|
    ensures forall i :: 0 <= i < n ==> IsDigit(s[i])
    ensures n < |s| ==> !IsDigit(s[n])
  {
    if s == "" || !IsDigit(s[0]) then 0 else 1 + DigitRun(s[1..])
  }

  /** Length of a list marker at the start (`-`, `*`, `+`, `12.` or `12)`), white space required
      after it; 0 when there is none. */
  function ListMarker(s: string): (n: nat)
    ensures n <= |s|
  {
    var d := DigitRun(s);
    if |s| > 1 && (s[0] == '-' || s[0] == '*' || s[0] == '+') && IsSpace(s[1]) then 1
    else if 0 < d && d + 1 < |s| && (s[d] == '.' || s[d] == ')') && IsSpace(s[d + 1]) then d + 1
    else 0
  }

  function WithoutDecoration(line: string): string {
    var s := LTrim(line, QuoteOrSpace);
    LTrim(s[ListMarker(s)..], QuoteOrSpace)
  }

  /** Emphasis and code marks removed. */
  function Unmarked(s: string): string { ReplaceChar(ReplacePair(s, '*', '*', ""), '`', "") }

  function Undecorated(line: string): string { Strip(Unmarked(WithoutDecoration(line))) }

  /** (key, inline value) of an undecorated line, split at the first colon. */
  function SplitField(u: string): Option<(string, string)> {
    var n := IndexOf(u, ':');
    if n == |u| then None else Some((Strip(u[..n]), u[n + 1..]))
  }

  function KeyedField(line: string): Option<(string, string)> { SplitField(Undecorated(line)) }

  predicate IsFence(line: string) { "```" <= Strip(line) }
  predicate IsHeading(line: string) { line != "" && line[0] == '#' }
  predicate HeadingLine(line: string) { !IsFence(line) && IsHeading(line) }
  predicate IsTableRow(line: string) { "|" <= LStrip(line) }

  function Identifiers(subject: Subject): (string, string) {
    match subject case AtD09 => ("AT-D09", "AT_D09") case AtM2 => ("AT-M2", "AT_M2")
  }

  predicate MentionsSubject(s: string, subject: Subject) {
    Contains(Upper(s), Identifiers(subject).0) || Contains(Upper(s), Identifiers(subject).1)
  }

  predicate StartsWithSubject(key: string, subject: Subject) {
    Identifiers(subject).0 <= Upper(key) || Identifiers(subject).1 <= Upper(key)
  }

  predicate Dashy(c: char) { c == '_' || c == '-' }

  /** Every run of underscores and hyphens becomes one space. */
  function SpaceDashes(s: string): string
    decreases |s|
  {
    if s == "" then ""
    else if Dashy(s[0]) then " " + SpaceDashes(LTrim(s[1..], Dashy))
    else [s[0]] + SpaceDashes(s[1..])
  }

  function NormalizedKey(key: string): string { Upper(SpaceDashes(key)) }

  predicate KeySays(key: string, word: string) { Word(word) in Tokenize(NormalizedKey(key)) }

  function CarrierKind(subject: Subject, key: string, declared: Option<Kind>): (kind: Kind)
    ensures subject == AtM2 ==> kind == AtM2Authorization
    ensures subject == AtD09 && declared.Some? ==> kind == declared.value
  {
    if subject == AtM2 then AtM2Authorization
    else if declared.Some? then declared.value
    else if KeySays(key, "DECISION") then Decision
    else if KeySays(key, "AUTHORITY") || KeySays(key, "GOVERNING") || KeySays(key, "IMPLEMENTATION")
            || KeySays(key, "CONTRACT") then Authority
    else if KeySays(key, "AUTHORIZATION") || KeySays(key, "AUTHORIZED") then Authorization
    else Status
  }

  const NARRATIVE_LABEL: string := "UX SUGGESTION UNDER CONSIDERATION"

  function DeclaredKind(name: string): Option<Kind> {
    if name == "STATUS" || name == "STATE" then Some(Status)
    else if name == "DECISION" then Some(Decision)
    else if name == "AUTHORIZATION" then Some(Authorization)
    else if name == "AUTHORITY" || name == "GOVERNING AUTHORITY"
            || name == "CURRENT CANONICAL IMPLEMENTATION" then Some(Authority)
    else None
  }

  function Mapped(f: string -> string, parts: seq<string>): (r: seq<string>)
    ensures |r| == |parts| && forall i :: 0 <= i < |parts| ==> r[i] == f(parts[i])
  {
    seq(|parts|, i requires 0 <= i < |parts| => f(parts[i]))
  }

  function StripAll(parts: seq<string>): seq<string> { Mapped(Strip, parts) }

  function NonEmpty(parts: seq<string>): seq<string> {
    if parts == [] then []
    else (if parts[0] != "" then [parts[0]] else []) + NonEmpty(parts[1..])
  }

  function HeadingMarkers(line: string): seq<string> { NonEmpty(StripAll(Parentheticals(line))) }

  predicate Pipe(c: char) { c == '|' }

  function Cells(line: string): (cells: seq<string>)
    ensures |cells| >= 1
  {
    StripAll(Split(Trim(Strip(line), Pipe), '|'))
  }

  // ---------------------------------------------------------------------------------------------
  // Discovery from the line alone, then the value
  // ---------------------------------------------------------------------------------------------

  /** Where a carrier's value comes from: texts of its own line, or the inline text after the key
      with the following lines as a fallback. */
  datatype Source = Parts(parts: seq<string>) | Keyed(inline: string)
  datatype Found = Found(form: Form, kind: Kind, source: Source)

  /** The scanner's two flags. */
  datatype State = State(fenced: bool, inSection: bool)

  /** The carrier a heading declares. */
  function HeadingCarrier(subject: Subject, line: string): (f: Option<Found>)
    ensures f.Some? && subject == AtM2 ==> f.value.kind == AtM2Authorization
  {
    var markers := HeadingMarkers(line);
    if MentionsSubject(line, subject) && markers != []
    then Some(Found(HeadingStatus, CarrierKind(subject, "", None), Parts(markers)))
    else None
  }

  /** The carrier a table row declares. */
  function RowCarrier(subject: Subject, line: string): (f: Option<Found>)
    ensures f.Some? && subject == AtM2 ==> f.value.kind == AtM2Authorization
  {
    var cells := Cells(line);
    if MentionsSubject(cells[0], subject)
    then Some(Found(TableState, CarrierKind(subject, cells[0], None), Parts(NonEmpty(cells[1..]))))
    else None
  }

  /** The carrier a keyed line declares. */
  function FieldCarrier(subject: Subject, key: string, inline: string, st: State): (f: Option<Found>)
    ensures f.Some? && subject == AtM2 ==> f.value.kind == AtM2Authorization
  {
    if StartsWithSubject(key, subject)
    then Some(Found(if st.fenced then Register else Field, CarrierKind(subject, key, None), Keyed(inline)))
    else
      var name := NormalizedKey(key);
      if st.fenced && st.inSection && subject == AtD09 && name != NARRATIVE_LABEL
      then Some(Found(SectionField, CarrierKind(subject, name, DeclaredKind(name)), Keyed(inline)))
      else None
  }

  /** What one line does: the flags after it and the carrier it declares. */
  function Classify(subject: Subject, line: string, st: State): (r: (State, Option<Found>))
    ensures r.1.Some? && subject == AtM2 ==> r.1.value.kind == AtM2Authorization
    ensures r.0.fenced == (st.fenced != IsFence(line))
    ensures r.0.inSection == if HeadingLine(line) then MentionsSubject(line, subject) else st.inSection
  {
    if IsFence(line) then (st.(fenced := !st.fenced), None)
    else if IsHeading(line) then
      (st.(inSection := MentionsSubject(line, subject)), HeadingCarrier(subject, line))
    else if IsTableRow(line) then (st, RowCarrier(subject, line))
    else match KeyedField(line)
      case None => (st, None)
      case Some((key, inline)) => (st, FieldCarrier(subject, key, inline, st))
  }

  predicate Indented(line: string) { line != "" && (line[0] == ' ' || line[0] == '\t') }

  /** How lines are told apart and read; the gathering below works for any such rules. */
  datatype Rules = Rules(blank: string -> bool, indented: string -> bool, text: string -> string)

  function LineRules(): Rules { Rules(Blank, Indented, Strip) }

  function Gather(r: Rules, lines: seq<string>, j: nat, parts: seq<string>, blanks: nat): seq<string>
    decreases |lines| - j
  {
    if j >= |lines| then parts
    else if r.blank(lines[j]) then
      if parts != [] || blanks + 1 > 2 then parts else Gather(r, lines, j + 1, parts, blanks + 1)
    else if parts != [] && !r.indented(lines[j]) then parts
    else Gather(r, lines, j + 1, parts + [r.text(lines[j])], blanks)
  }

  /** The continuation lines of an empty inline value, from line `start` on. */
  function Continuation(lines: seq<string>, start: nat): seq<string> { Gather(LineRules(), lines, start, [], 0) }

  /** Lines `s..e` are the block of text that continues an empty value at `start`: `s` is the first
      line that is not blank, at most two blank lines down, and the block goes on with indented lines
      up to the first that is blank or not indented. */
  predicate Block(r: Rules, lines: seq<string>, start: nat, s: nat, e: nat) {
    && start <= s <= start + 2 && s < e <= |lines|
    && (forall k :: start <= k < s ==> r.blank(lines[k])) && !r.blank(lines[s])
    && (forall k :: s < k < e ==> !r.blank(lines[k]) && r.indented(lines[k]))
    && (e == |lines| || r.blank(lines[e]) || !r.indented(lines[e]))
  }

  /** There is no text within reach. */
  predicate NoBlock(r: Rules, lines: seq<string>, start: nat) {
    forall k :: start <= k < |lines| && k <= start + 2 ==> r.blank(lines[k])
  }

  /** What continues an empty value, said without gathering it. */
  ghost predicate BlockOf(r: Rules, lines: seq<string>, start: nat, parts: seq<string>) {
    (NoBlock(r, lines, start) && parts == [])
    || exists s: nat, e: nat :: Block(r, lines, start, s, e) && parts == Mapped(r.text, lines[s..e])
  }

  /** The same on text: the block goes on with lines that begin with a space or a tab. */
  predicate TextBlock(lines: seq<string>, start: nat, s: nat, e: nat) {
    && start <= s <= start + 2 && s < e <= |lines|
    && (forall k :: start <= k < s ==> Blank(lines[k])) && !Blank(lines[s])
    && (forall k :: s < k < e ==> !Blank(lines[k]) && (" " <= lines[k] || "\t" <= lines[k]))
    && (e == |lines| || Blank(lines[e]) || !(" " <= lines[e] || "\t" <= lines[e]))
  }

  ghost predicate ContinuationOf(lines: seq<string>, start: nat, parts: seq<string>) {
    ((forall k :: start <= k < |lines| && k <= start + 2 ==> Blank(lines[k])) && parts == [])
    || exists s: nat, e: nat :: TextBlock(lines, start, s, e) && parts == StripAll(lines[s..e])
  }

  lemma IndentedIs(line: string)
    ensures Indented(line) <==> " " <= line || "\t" <= line
  {
    if line != "" { assert line[..1] == [line[0]]; }
  }

  lemma BlockIsText(r: Rules, lines: seq<string>, start: nat, s: nat, e: nat)
    requires forall l :: r.blank(l) == Blank(l) && (r.indented(l) <==> " " <= l || "\t" <= l)
    ensures Block(r, lines, start, s, e) <==> TextBlock(lines, start, s, e)
  {
  }

  lemma {:induction false} BlanksAreSkipped(r: Rules, lines: seq<string>, j: nat, s: nat, blanks: nat)
    requires j <= s <= |lines| && blanks + (s - j) <= 2 && forall k :: j <= k < s ==> r.blank(lines[k])
    ensures Gather(r, lines, j, [], blanks) == Gather(r, lines, s, [], blanks + (s - j))
    decreases s - j
  {
    if j < s { BlanksAreSkipped(r, lines, j + 1, s, blanks + 1); }
  }

  lemma {:induction false} BlockIsGathered(
    r: Rules, lines: seq<string>, j: nat, e: nat, parts: seq<string>, blanks: nat)
    requires parts != [] && j <= e <= |lines|
    requires forall k :: j <= k < e ==> !r.blank(lines[k]) && r.indented(lines[k])
    requires e == |lines| || r.blank(lines[e]) || !r.indented(lines[e])
    ensures Gather(r, lines, j, parts, blanks) == parts + Mapped(r.text, lines[j..e])
    decreases e - j
  {
    if j < e {
      BlockIsGathered(r, lines, j + 1, e, parts + [r.text(lines[j])], blanks);
      MappedBlock(r.text, lines, j, e);
      Reassociate(parts, [r.text(lines[j])], Mapped(r.text, lines[j + 1..e]));
    } else {
      assert Mapped(r.text, lines[j..e]) == [];
    }
  }

  lemma MappedBlock(f: string -> string, lines: seq<string>, s: nat, e: nat)
    requires s < e <= |lines|
    ensures Mapped(f, lines[s..e]) == [f(lines[s])] + Mapped(f, lines[s + 1..e])
  {
  }

  lemma Reassociate(a: seq<string>, b: seq<string>, c: seq<string>)
    ensures a + (b + c) == a + b + c
  {
  }

  lemma BlockContinues(r: Rules, lines: seq<string>, start: nat, s: nat, e: nat)
    requires Block(r, lines, start, s, e)
    ensures Gather(r, lines, start, [], 0) == Mapped(r.text, lines[s..e])
  {
    var first := [r.text(lines[s])];
    BlanksAreSkipped(r, lines, start, s, 0);
    assert [] + first == first;
    BlockIsGathered(r, lines, s + 1, e, first, s - start);
    MappedBlock(r.text, lines, s, e);
  }

  lemma NothingContinues(r: Rules, lines: seq<string>, start: nat)
    requires NoBlock(r, lines, start)
    ensures Gather(r, lines, start, [], 0) == []
  {
    if start + 2 < |lines| {
      BlanksAreSkipped(r, lines, start, start + 2, 0);
    } else if start < |lines| {
      BlanksAreSkipped(r, lines, start, |lines|, 0);
    }
  }

  lemma {:induction false} BlockEnds(r: Rules, lines: seq<string>, s: nat, k: nat) returns (e: nat)
    requires s < k <= |lines| && forall x :: s < x < k ==> !r.blank(lines[x]) && r.indented(lines[x])
    ensures k <= e <= |lines| && (forall x :: s < x < e ==> !r.blank(lines[x]) && r.indented(lines[x]))
    ensures e == |lines| || r.blank(lines[e]) || !r.indented(lines[e])
    decreases |lines| - k
  {
    if k == |lines| || r.blank(lines[k]) || !r.indented(lines[k]) { e := k; } else { e := BlockEnds(r, lines, s, k + 1); }
  }

  lemma FirstText(r: Rules, lines: seq<string>, start: nat) returns (s: nat)
    requires !NoBlock(r, lines, start)
    ensures start <= s <= start + 2 && s < |lines| && !r.blank(lines[s])
    ensures forall k :: start <= k < s ==> r.blank(lines[k])
  {
    s := if !r.blank(lines[start]) then start else if !r.blank(lines[start + 1]) then start + 1 else start + 2;
  }

  lemma GatherIs(r: Rules, lines: seq<string>, start: nat, parts: seq<string>)
    ensures parts == Gather(r, lines, start, [], 0) <==> BlockOf(r, lines, start, parts)
  {
    if NoBlock(r, lines, start) {
      NothingContinues(r, lines, start);
    } else {
      var s := FirstText(r, lines, start);
      var e := BlockEnds(r, lines, s, s + 1);
      assert Block(r, lines, start, s, e);
      BlockContinues(r, lines, start, s, e);
    }
    if s: nat, e: nat :| Block(r, lines, start, s, e) && parts == Mapped(r.text, lines[s..e]) {
      BlockContinues(r, lines, start, s, e);
    }
  }

  /** The texts gathered for an empty value are exactly the block that continues it. */
  lemma ContinuationIs(lines: seq<string>, start: nat, parts: seq<string>)
    ensures parts == Continuation(lines, start) <==> ContinuationOf(lines, start, parts)
  {
    var r := LineRules();
    GatherIs(r, lines, start, parts);
    forall l ensures r.blank(l) == Blank(l) && (r.indented(l) <==> " " <= l || "\t" <= l) { IndentedIs(l); }
    forall s: nat, e: nat ensures Block(r, lines, start, s, e) <==> TextBlock(lines, start, s, e) {
      BlockIsText(r, lines, start, s, e);
    }
  }

  /** The texts a carrier's value is gathered from. */
  function Sources(lines: seq<string>, i: nat, source: Source): seq<string> {
    match source
    case Parts(parts) => parts
    case Keyed(inline) =>
      if !Blank(inline) then [Strip(inline)] else Continuation(lines, i + 1)
  }

  function CarrierAt(lines: seq<string>, i: nat, f: Found): Carrier {
    Carrier(i + 1, f.form, f.kind, Join(Sources(lines, i, f.source), "\n"))
  }

  /** What a line does, as a value: the scan below works for any such classifier. */
  type Classifier = (string, State) -> (State, Option<Found>)

  /** How a discovery on a line becomes a carrier. */
  type Placement = (nat, Found) -> Carrier

  function ScanFrom(classify: Classifier, place: Placement, lines: seq<string>, i: nat, st: State): seq<Carrier>
    requires i <= |lines|
    decreases |lines| - i
  {
    if i == |lines| then []
    else
      var (next, found) := classify(lines[i], st);
      (if found.Some? then [place(i, found.value)] else [])
      + ScanFrom(classify, place, lines, i + 1, next)
  }

  function For(subject: Subject): Classifier { (line, st) => Classify(subject, line, st) }

  function In(lines: seq<string>): Placement { (i: nat, f: Found) => CarrierAt(lines, i, f) }

  const START: State := State(false, false)

  /** Every carrier of `subject` in a document, in line order. */
  function Scan(subject: Subject, lines: seq<string>): seq<Carrier> {
    ScanFrom(For(subject), In(lines), lines, 0, START)
  }

  /** The loop over the continuation lines. */
  method ContinuationLines(lines: seq<string>, start: nat) returns (parts: seq<string>)
    ensures parts == Continuation(lines, start) && ContinuationOf(lines, start, parts)
  {
    parts := GatherLines(LineRules(), lines, start);
    ContinuationIs(lines, start, parts);
  }

  method GatherLines(r: Rules, lines: seq<string>, start: nat) returns (parts: seq<string>)
    ensures parts == Gather(r, lines, start, [], 0)
  {
    parts := [];
    var blanks, j := 0, start;
    while j < |lines|
      invariant Gather(r, lines, j, parts, blanks) == Gather(r, lines, start, [], 0)
      decreases |lines| - j
    {
      var following := lines[j];
      if r.blank(following) {
        if parts != [] {
          return;
        }
        blanks := blanks + 1;
        if blanks > 2 {
          return;
        }
      } else if parts != [] && !r.indented(following) {
        return;
      } else {
        parts := parts + [r.text(following)];
      }
      j := j + 1;
    }
  }

  /** `carrier_value`: the inline text, or every continuation line. */
  method CarrierValue(lines: seq<string>, index: nat, inline: string) returns (value: string)
    ensures value == Join(Sources(lines, index, Keyed(inline)), "\n")
    ensures !Blank(inline) ==> value == Strip(inline)
    ensures Blank(inline) ==> exists parts :: ContinuationOf(lines, index + 1, parts) && value == Join(parts, "\n")
  {
    if !Blank(inline) {
      value := Strip(inline);
    } else {
      var parts := ContinuationLines(lines, index + 1);
      value := Join(parts, "\n");
    }
  }

  /** `canonical_carriers`: the line loop with its two mutable flags. */
  method CanonicalCarriers(subject: Subject, lines: seq<string>) returns (found: seq<Carrier>)
    ensures found == Scan(subject, lines)
  {
    found := ScanLoop(For(subject), lines);
  }

  method ScanLoop(classify: Classifier, lines: seq<string>) returns (found: seq<Carrier>)
    ensures found == ScanFrom(classify, In(lines), lines, 0, START)
  {
    found := [];
    var st := START;
    ghost var place := In(lines);
    for i := 0 to |lines|
      invariant found + ScanFrom(classify, place, lines, i, st) == ScanFrom(classify, place, lines, 0, START)
    {
      var (next, hit) := classify(lines[i], st);
      ScanStep(classify, place, lines, i, st);
      if hit.Some? {
        var c := MakeCarrier(lines, i, hit.value);
        Regroup(found, c, ScanFrom(classify, place, lines, i + 1, next));
        found := found + [c];
      }
      st := next;
    }
    assert ScanFrom(classify, place, lines, |lines|, st) == [];
  }

  lemma ScanStep(classify: Classifier, place: Placement, lines: seq<string>, i: nat, st: State)
    requires i < |lines|
    ensures var (next, hit) := classify(lines[i], st);
            var rest := ScanFrom(classify, place, lines, i + 1, next);
            ScanFrom(classify, place, lines, i, st) == if hit.Some? then [place(i, hit.value)] + rest else rest
  {
  }

  lemma Regroup(found: seq<Carrier>, c: Carrier, rest: seq<Carrier>)
    ensures found + ([c] + rest) == found + [c] + rest
  {
  }

  method MakeCarrier(lines: seq<string>, i: nat, f: Found) returns (c: Carrier)
    ensures c == In(lines)(i, f)
  {
    var value := ValueOf(lines, i, f.source);
    c := Carrier(i + 1, f.form, f.kind, value);
  }

  method ValueOf(lines: seq<string>, i: nat, source: Source) returns (value: string)
    ensures value == Join(Sources(lines, i, source), "\n")
  {
    match source {
      case Parts(parts) => value := Join(parts, "\n");
      case Keyed(inline) => value := CarrierValue(lines, i, inline);
    }
  }

  // ---------------------------------------------------------------------------------------------
  // One value source
  // ---------------------------------------------------------------------------------------------

  lemma JoinOfTwoHasNewline(parts: seq<string>)
    requires |parts| >= 2
    ensures '\n' in Join(parts, "\n")
  {
    var s := Join(parts, "\n");
    assert s == parts[0] + "\n" + Join(parts[1..], "\n");
    assert s[|parts[0]|] == '\n';
  }

  /** A value gathered from two or more texts, or from none, is rejected whatever it says. */
  lemma OneSourceOrRejected(kind: Kind, sources: seq<string>)
    requires Judge(kind, Join(sources, "\n")).Allowed?
    ensures |sources| == 1
  {
    AcceptedIsOneLine(kind, Join(sources, "\n"));
    OneLineIsOneSource(sources);
  }

  lemma OneLineIsOneSource(sources: seq<string>)
    requires Join(sources, "\n") != "" && '\n' !in Join(sources, "\n")
    ensures |sources| == 1
  {
    if |sources| >= 2 { JoinOfTwoHasNewline(sources); }
  }

  /** The scanner's flags before line `i`. */
  function StateBefore(classify: Classifier, lines: seq<string>, i: nat): State
    requires i <= |lines|
  {
    if i == 0 then START else classify(lines[i - 1], StateBefore(classify, lines, i - 1)).0
  }

  function FoundOn(classify: Classifier, lines: seq<string>, i: nat): Option<Found>
    requires i < |lines|
  {
    classify(lines[i], StateBefore(classify, lines, i)).1
  }

  /** The carrier is what the discovery on line `i` places. */
  ghost predicate ComesFrom(classify: Classifier, place: Placement, lines: seq<string>, i: nat, c: Carrier) {
    i < |lines| && FoundOn(classify, lines, i).Some? && c == place(i, FoundOn(classify, lines, i).value)
  }

  lemma {:induction false} ScanComesFrom(
    classify: Classifier, place: Placement, lines: seq<string>, i: nat, c: Carrier) returns (j: nat)
    requires i <= |lines| && c in ScanFrom(classify, place, lines, i, StateBefore(classify, lines, i))
    ensures ComesFrom(classify, place, lines, j, c)
    decreases |lines| - i
  {
    if ComesFrom(classify, place, lines, i, c) {
      j := i;
    } else {
      j := ScanComesFrom(classify, place, lines, i + 1, c);
    }
  }

  lemma {:induction false} ScanReaches(
    classify: Classifier, place: Placement, lines: seq<string>, i: nat, j: nat, c: Carrier)
    requires i <= j && ComesFrom(classify, place, lines, j, c)
    ensures c in ScanFrom(classify, place, lines, i, StateBefore(classify, lines, i))
    decreases j - i
  {
    if i < j {
      ScanReaches(classify, place, lines, i + 1, j, c);
    }
  }

  /** The scan finds exactly the carriers declared on some line, with the value that line's sources
      give. */
  lemma ScanFindsExactly(subject: Subject, lines: seq<string>, c: Carrier)
    ensures c in Scan(subject, lines) <==>
            exists i: nat :: i < |lines| && FoundOn(For(subject), lines, i).Some?
              && c == CarrierAt(lines, i, FoundOn(For(subject), lines, i).value)
  {
    var classify, place := For(subject), In(lines);
    if i: nat :| i < |lines| && FoundOn(classify, lines, i).Some? && c == CarrierAt(lines, i, FoundOn(classify, lines, i).value) {
      ScanReaches(classify, place, lines, 0, i, c);
    }
    if c in Scan(subject, lines) {
      var i := ScanComesFrom(classify, place, lines, 0, c);
      assert FoundOn(classify, lines, i).Some?;
    }
  }

  /** An accepted carrier takes its value from exactly one text: one inline value, one continuation
      line, one heading marker or one non-empty cell. */
  lemma AcceptedCarrierHasOneSource(subject: Subject, lines: seq<string>, c: Carrier)
    requires c in Scan(subject, lines) && Judge(c.kind, c.value).Allowed?
    ensures exists i: nat :: i < |lines| && c.line == i + 1 && FoundOn(For(subject), lines, i).Some?
              && Sources(lines, i, FoundOn(For(subject), lines, i).value.source) == [c.value]
  {
    var classify := For(subject);
    ScanFindsExactly(subject, lines, c);
    var i: nat :| i < |lines| && FoundOn(classify, lines, i).Some? && c == CarrierAt(lines, i, FoundOn(classify, lines, i).value);
    OneSourceOrRejected(c.kind, Sources(lines, i, FoundOn(classify, lines, i).value.source));
  }

  /** Lines among the first `i` that satisfy `p`. */
  function CountLines(p: string -> bool, lines: seq<string>, i: nat): nat
    requires i <= |lines|
  {
    if i == 0 then 0 else CountLines(p, lines, i - 1) + if p(lines[i - 1]) then 1 else 0
  }

  /** Line `j` is the last one before line `i` that satisfies `p`. */
  ghost predicate LastLine(p: string -> bool, lines: seq<string>, i: nat, j: int) {
    0 <= j < i <= |lines| && p(lines[j]) && forall k :: j < k < i ==> !p(lines[k])
  }

  /** The last heading before line `i` satisfies `mentions`. */
  ghost predicate Under(heading: string -> bool, mentions: string -> bool, lines: seq<string>, i: nat) {
    exists j :: LastLine(heading, lines, i, j) && mentions(lines[j])
  }

  /** A classifier whose flags toggle at fences and follow the headings. */
  ghost predicate FollowsLines(
    classify: Classifier, fence: string -> bool, heading: string -> bool, mentions: string -> bool)
  {
    forall l, st :: classify(l, st).0 ==
      State(st.fenced != fence(l), if heading(l) then mentions(l) else st.inSection)
  }

  /** The flags mean what they should: a line is in a fenced block iff an odd number of fence lines
      precede it, and in a subject section iff the last heading before it mentions the subject.
      Headings count inside fenced blocks too. */
  lemma ScannerState(subject: Subject, lines: seq<string>, i: nat)
    requires i <= |lines|
    ensures var st := StateBefore(For(subject), lines, i);
            (st.fenced <==> CountLines(IsFence, lines, i) % 2 == 1)
            && (st.inSection <==> Under(HeadingLine, l => MentionsSubject(l, subject), lines, i))
  {
    var mentions := l => MentionsSubject(l, subject);
    FlagsFollowLines(subject, mentions);
    ScannerStateFrom(For(subject), IsFence, HeadingLine, mentions, lines, i);
  }

  lemma FlagsFollowLines(subject: Subject, mentions: string -> bool)
    requires forall l :: mentions(l) == MentionsSubject(l, subject)
    ensures FollowsLines(For(subject), IsFence, HeadingLine, mentions)
  {
    forall l, st ensures For(subject)(l, st).0 ==
                         State(st.fenced != IsFence(l), if HeadingLine(l) then mentions(l) else st.inSection) {
      ClassifyFlags(subject, l, st);
    }
  }

  lemma ClassifyFlags(subject: Subject, line: string, st: State)
    ensures Classify(subject, line, st).0 ==
            State(st.fenced != IsFence(line), if HeadingLine(line) then MentionsSubject(line, subject) else st.inSection)
  {
  }

  lemma {:induction false} ScannerStateFrom(
    classify: Classifier, fence: string -> bool, heading: string -> bool, mentions: string -> bool,
    lines: seq<string>, i: nat)
    requires i <= |lines| && FollowsLines(classify, fence, heading, mentions)
    ensures var st := StateBefore(classify, lines, i);
            (st.fenced <==> CountLines(fence, lines, i) % 2 == 1) && (st.inSection <==> Under(heading, mentions, lines, i))
  {
    if i > 0 {
      ScannerStateFrom(classify, fence, heading, mentions, lines, i - 1);
      UnderOneMore(heading, mentions, lines, i);
    } else {
      assert !Under(heading, mentions, lines, 0);
    }
  }

  lemma UnderOneMore(heading: string -> bool, mentions: string -> bool, lines: seq<string>, i: nat)
    requires 0 < i <= |lines|
    ensures Under(heading, mentions, lines, i) <==>
            if heading(lines[i - 1]) then mentions(lines[i - 1]) else Under(heading, mentions, lines, i - 1)
  {
    if heading(lines[i - 1]) {
      assert LastLine(heading, lines, i, i - 1);
      assert forall j :: LastLine(heading, lines, i, j) ==> j == i - 1;
    } else {
      if j :| LastLine(heading, lines, i - 1, j) && mentions(lines[j]) { assert LastLine(heading, lines, i, j); }
      if j :| LastLine(heading, lines, i, j) && mentions(lines[j]) { assert LastLine(heading, lines, i - 1, j); }
    }
  }

  lemma AtM2CarriersAreAuthorizations(lines: seq<string>, c: Carrier)
    requires c in Scan(AtM2, lines)
    ensures c.kind == AtM2Authorization
  {
    ScanFindsExactly(AtM2, lines, c);
  }
}
