/**
 What a line has to look like to declare a carrier, form by form, and the whole scan in those
 terms: the grammar of keys, headings, table rows and values, said without the scanner.
 */
module CarrierForms {
  import opened Wrappers
  import opened Text
  import opened CarrierVerdict
  import opened CarrierScan

  // ---------------------------------------------------------------------------------------------
  // Keys
  // ---------------------------------------------------------------------------------------------

  predicate NoDash(s: string) { forall i :: 0 <= i < |s| ==> s[i] != '_' && s[i] != '-' }

  lemma {:induction false} UndashedStays(s: string)
    requires NoDash(s)
    ensures SpaceDashes(s) == s
  {
    if s != "" {
      UndashedStays(s[1..]);
      assert s == [s[0]] + s[1..];
    }
  }

  predicate Dashes(s: string) { forall i :: 0 <= i < |s| ==> s[i] == '_' || s[i] == '-' }

  lemma DashesFirst(dashes: string, b: string)
    requires dashes != "" && Dashes(dashes) && (b == "" || (b[0] != '_' && b[0] != '-'))
    ensures SpaceDashes(dashes + b) == " " + SpaceDashes(b)
  {
    var s := dashes + b;
    assert s[0] == dashes[0] && s[1..] == dashes[1..] + b;
    LTrimPrefix(dashes[1..], b, Dashy);
    LTrimStays(b, Dashy);
  }

  lemma {:induction false} DashesAreOneSpace(a: string, rest: string)
    requires NoDash(a)
    ensures SpaceDashes(a + rest) == a + SpaceDashes(rest)
    decreases |a|
  {
    if a == "" {
      assert a + rest == rest;
    } else {
      var s := a + rest;
      assert s[0] == a[0] && s[1..] == a[1..] + rest;
      DashesAreOneSpace(a[1..], rest);
      assert [a[0]] + (a[1..] + SpaceDashes(rest)) == a + SpaceDashes(rest);
    }
  }

  /** A key without underscores and hyphens is only upper-cased, and any run of them is one space. */
  lemma NormalizedKeyReads(a: string, dashes: string, b: string)
    requires NoDash(a) && Dashes(dashes) && dashes != "" && (b == "" || (b[0] != '_' && b[0] != '-'))
    ensures NormalizedKey(a + (dashes + b)) == Upper(a) + (" " + NormalizedKey(b))
  {
    DashesAreOneSpace(a, dashes + b);
    DashesFirst(dashes, b);
    UpperConcat(a, " " + SpaceDashes(b));
    UpperConcat(" ", SpaceDashes(b));
    assert Upper(" ") == " ";
  }

  lemma NormalizedKeyStays(a: string)
    requires NoDash(a)
    ensures NormalizedKey(a) == Upper(a)
  {
    UndashedStays(a);
  }

  /** The word occurs in the normalised key, bounded on both sides. */
  ghost predicate HasWord(key: string, word: string) { exists i :: WordAt(NormalizedKey(key), word, i) }

  lemma WordIsSaid(key: string, word: string)
    requires word != "" && All(word, IsWordChar)
    ensures KeySays(key, word) <==> HasWord(key, word)
  {
    WordSearchIsTokenSearch(NormalizedKey(key), word);
  }

  /** The kind of an AT-D09 carrier by the words of its key. */
  ghost function KindByWords(key: string): Kind {
    if HasWord(key, "DECISION") then Decision
    else if HasWord(key, "AUTHORITY") || HasWord(key, "GOVERNING") || HasWord(key, "IMPLEMENTATION")
            || HasWord(key, "CONTRACT") then Authority
    else if HasWord(key, "AUTHORIZATION") || HasWord(key, "AUTHORIZED") then Authorization
    else Status
  }

  lemma KeyWordsAreSaid(key: string)
    ensures KeySays(key, "DECISION") <==> HasWord(key, "DECISION")
    ensures KeySays(key, "AUTHORITY") <==> HasWord(key, "AUTHORITY")
    ensures KeySays(key, "GOVERNING") <==> HasWord(key, "GOVERNING")
    ensures KeySays(key, "IMPLEMENTATION") <==> HasWord(key, "IMPLEMENTATION")
    ensures KeySays(key, "CONTRACT") <==> HasWord(key, "CONTRACT")
    ensures KeySays(key, "AUTHORIZATION") <==> HasWord(key, "AUTHORIZATION")
    ensures KeySays(key, "AUTHORIZED") <==> HasWord(key, "AUTHORIZED")
  {
    WordIsSaid(key, "DECISION");
    WordIsSaid(key, "AUTHORITY");
    WordIsSaid(key, "GOVERNING");
    WordIsSaid(key, "IMPLEMENTATION");
    WordIsSaid(key, "CONTRACT");
    WordIsSaid(key, "AUTHORIZATION");
    WordIsSaid(key, "AUTHORIZED");
  }

  lemma KindIsByWords(key: string)
    ensures CarrierKind(AtD09, key, None) == KindByWords(key)
  {
    KeyWordsAreSaid(key);
  }

  // ---------------------------------------------------------------------------------------------
  // Decoration
  // ---------------------------------------------------------------------------------------------

  /** `-`, `*`, `+`, or digits with a full stop or a closing parenthesis. */
  predicate IsMarker(m: string) {
    m == "-" || m == "*" || m == "+"
    || (|m| > 1 && (forall i :: 0 <= i < |m| - 1 ==> '0' <= m[i] <= '9') && (m[|m| - 1] == '.' || m[|m| - 1] == ')'))
  }

  lemma DigitRunIs(s: string, n: nat)
    requires n <= |s| && (forall i :: 0 <= i < n ==> IsDigit(s[i])) && (n < |s| ==> !IsDigit(s[n]))
    ensures DigitRun(s) == n
  {
  }

  lemma MarkerIsFound(m: string, rest: string)
    requires IsMarker(m) && rest != "" && IsSpace(rest[0])
    ensures ListMarker(m + rest) == |m|
  {
    var s := m + rest;
    assert s[|m|] == rest[0] && forall i :: 0 <= i < |m| ==> s[i] == m[i];
    if m == "-" || m == "*" || m == "+" {
      DigitRunIs(s, 0);
    } else {
      DigitRunIs(s, |m| - 1);
    }
  }

  predicate QuotesAndSpaces(s: string) { forall i :: 0 <= i < |s| ==> s[i] == '>' || IsSpace(s[i]) }

  lemma PrefixIsTrimmed(pre: string, text: string)
    requires QuotesAndSpaces(pre) && (text == "" || !QuoteOrSpace(text[0]))
    ensures LTrim(pre + text, QuoteOrSpace) == text
  {
    LTrimPrefix(pre, text, QuoteOrSpace);
    LTrimStays(text, QuoteOrSpace);
  }

  lemma WithoutDecorationIs(line: string, s: string, n: nat, rest: string, text: string)
    requires LTrim(line, QuoteOrSpace) == s && ListMarker(s) == n && s[n..] == rest && LTrim(rest, QuoteOrSpace) == text
    ensures WithoutDecoration(line) == text
  {
  }

  lemma MarkerIsNoQuote(marker: string)
    requires IsMarker(marker)
    ensures marker != "" && !QuoteOrSpace(marker[0])
  {
  }

  /** Quote marks and one list marker before a text are decoration. */
  lemma DecorationIsDropped(pre: string, marker: string, mid: string, text: string)
    requires QuotesAndSpaces(pre) && QuotesAndSpaces(mid) && (text == "" || !QuoteOrSpace(text[0]))
    requires IsMarker(marker) && mid != "" && IsSpace(mid[0])
    ensures WithoutDecoration(pre + (marker + (mid + text))) == text
  {
    var after := mid + text;
    var rest := marker + after;
    MarkerIsNoQuote(marker);
    assert rest[0] == marker[0] && after[0] == mid[0] && rest[|marker|..] == after;
    PrefixIsTrimmed(pre, rest);
    MarkerIsFound(marker, after);
    PrefixIsTrimmed(mid, text);
    WithoutDecorationIs(pre + rest, rest, |marker|, after, text);
  }

  lemma QuoteIsDropped(pre: string, text: string)
    requires QuotesAndSpaces(pre) && (text == "" || !QuoteOrSpace(text[0])) && ListMarker(text) == 0
    ensures WithoutDecoration(pre + text) == text
  {
    PrefixIsTrimmed(pre, text);
    assert text[0..] == text;
    LTrimStays(text, QuoteOrSpace);
    WithoutDecorationIs(pre + text, text, 0, text, text);
  }

  lemma {:induction false} PairsAreDropped(a: string, b: string)
    requires '*' !in a
    ensures ReplacePair(a + ("**" + b), '*', '*', "") == a + ReplacePair(b, '*', '*', "")
    decreases |a|
  {
    var s := a + ("**" + b);
    if a == "" {
      assert s == "**" + b && s[0] == '*' && s[1] == '*' && s[2..] == b;
    } else {
      assert s[0] == a[0] && s[1..] == a[1..] + ("**" + b);
      PairsAreDropped(a[1..], b);
      assert a == [a[0]] + a[1..];
    }
  }

  lemma {:induction false} NoPairs(a: string)
    requires '*' !in a
    ensures ReplacePair(a, '*', '*', "") == a
  {
    if |a| >= 2 {
      NoPairs(a[1..]);
      assert a == [a[0]] + a[1..];
    }
  }

  lemma {:induction false} NoTicks(a: string)
    requires '`' !in a
    ensures ReplaceChar(a, '`', "") == a
  {
    if a != "" {
      NoTicks(a[1..]);
      assert a == [a[0]] + a[1..];
    }
  }

  lemma PlainStays(a: string)
    requires '*' !in a && '`' !in a
    ensures Unmarked(a) == a
  {
    NoPairs(a);
    NoTicks(a);
  }

  /** Bold marks are dropped wherever they stand, and so are code marks. */
  lemma BoldIsDropped(a: string, b: string)
    requires '*' !in a && '`' !in a
    ensures Unmarked(a + ("**" + b)) == a + Unmarked(b)
  {
    PairsAreDropped(a, b);
    TicksOf(a, ReplacePair(b, '*', '*', ""));
  }

  lemma CodeIsDropped(a: string, b: string)
    requires '*' !in a && '`' !in a && '*' !in b
    ensures Unmarked(a + ("`" + b)) == a + Unmarked(b)
  {
    NoPairs(b);
    TickedHasNoPairs(a, b);
    TicksOf(a, "`" + b);
    assert ("`" + b)[0] == '`' && ("`" + b)[1..] == b;
  }

  lemma TickedHasNoPairs(a: string, b: string)
    requires '*' !in a && '*' !in b
    ensures ReplacePair(a + ("`" + b), '*', '*', "") == a + ("`" + b)
  {
    NoPairs(a + ("`" + b));
  }

  lemma {:induction false} TicksOf(a: string, b: string)
    requires '`' !in a
    ensures ReplaceChar(a + b, '`', "") == a + ReplaceChar(b, '`', "")
  {
    if a == "" {
      assert a + b == b;
    } else {
      assert (a + b)[0] == a[0] && (a + b)[1..] == a[1..] + b;
      TicksOf(a[1..], b);
      assert a == [a[0]] + a[1..];
    }
  }

  /** A plain text `key:value` is read as its key and its value. */
  lemma PlainFieldReads(key: string, value: string)
    requires key != "" && !IsSpace(key[0]) && ':' !in key
    ensures SplitField(Strip(key + (":" + value))) == Some((Strip(key), RStrip(value)))
  {
    var s := key + (":" + value);
    LTrimStays(s, IsSpace);
    StripBehind(key + ":", value);
    assert s == (key + ":") + value;
    var u := key + (":" + RStrip(value));
    assert Strip(s) == (key + ":") + RStrip(value) == u;
    assert u[|key|] == ':' && forall i :: 0 <= i < |key| ==> u[i] == key[i];
    assert IndexOf(u, ':') == |key|;
    assert u[..|key|] == key && u[|key| + 1..] == RStrip(value);
  }

  /** What may stand before the text of a line: quote marks and white space, and one list marker. */
  predicate Decoration(pre: string, marker: string, mid: string, text: string) {
    QuotesAndSpaces(pre) && QuotesAndSpaces(mid) &&
    if marker == "" then mid == "" && ListMarker(text) == 0 else IsMarker(marker) && mid != "" && IsSpace(mid[0])
  }

  lemma TextOfLine(pre: string, marker: string, mid: string, text: string)
    requires Decoration(pre, marker, mid, text) && text != "" && !QuoteOrSpace(text[0])
    ensures WithoutDecoration(pre + (marker + (mid + text))) == text
  {
    if marker == "" {
      assert marker + (mid + text) == text;
      QuoteIsDropped(pre, text);
    } else {
      DecorationIsDropped(pre, marker, mid, text);
    }
  }

  lemma PlainUndecorated(line: string, text: string)
    requires WithoutDecoration(line) == text && '*' !in text && '`' !in text
    ensures Undecorated(line) == Strip(text)
  {
    PlainStays(text);
  }

  /** Decorated or not, a line reads as the field its text is. */
  lemma FieldLineReads(pre: string, marker: string, mid: string, key: string, value: string)
    requires Decoration(pre, marker, mid, key + (":" + value))
    requires key != "" && !QuoteOrSpace(key[0]) && ':' !in key && '*' !in key && '`' !in key
    requires '*' !in value && '`' !in value
    ensures KeyedField(pre + (marker + (mid + (key + (":" + value))))) == Some((Strip(key), RStrip(value)))
  {
    var text := key + (":" + value);
    assert text[0] == key[0] && '*' !in text && '`' !in text;
    var line := pre + (marker + (mid + text));
    TextOfLine(pre, marker, mid, text);
    PlainUndecorated(line, text);
    PlainFieldReads(key, value);
    FieldOfUndecorated(line, Strip(text));
  }

  lemma FieldOfUndecorated(line: string, u: string)
    requires Undecorated(line) == u
    ensures KeyedField(line) == SplitField(u)
  {
  }

  // ---------------------------------------------------------------------------------------------
  // Headings and table rows
  // ---------------------------------------------------------------------------------------------

  lemma ParentheticalFirst(p: string, b: string)
    requires ')' !in p
    ensures Parentheticals("(" + p + ")" + b) == [p] + Parentheticals(b)
  {
    var s := "(" + p + ")" + b;
    assert s[0] == '(' && s[|p| + 1] == ')' && forall i :: 0 < i <= |p| ==> s[i] == p[i - 1];
    IndexIs(s, ')', |p| + 1);
    assert s[1..|p| + 1] == p && s[|p| + 2..] == b;
  }

  lemma ParentheticalLater(s: string)
    requires s != "" && s[0] != '('
    ensures Parentheticals(s) == Parentheticals(s[1..])
  {
  }

  lemma {:induction false} NothingBeforeOpening(a: string, rest: string)
    requires '(' !in a
    ensures Parentheticals(a + rest) == Parentheticals(rest)
    decreases |a|
  {
    if a == "" {
      assert a + rest == rest;
    } else {
      assert (a + rest)[0] == a[0] && (a + rest)[1..] == a[1..] + rest;
      ParentheticalLater(a + rest);
      NothingBeforeOpening(a[1..], rest);
    }
  }

  /** The parentheticals of a text: up to each opening parenthesis nothing counts, what follows up to
      the next closing one is a parenthetical, and the rest is read on its own. */
  lemma ParentheticalsRead(a: string, p: string, b: string)
    requires '(' !in a && ')' !in p
    ensures Parentheticals(a) == []
    ensures Parentheticals(a + ("(" + p + ")" + b)) == [p] + Parentheticals(b)
  {
    NothingBeforeOpening(a, "");
    assert a + "" == a;
    NothingBeforeOpening(a, "(" + p + ")" + b);
    ParentheticalFirst(p, b);
  }

  /** An opening parenthesis that is never closed opens nothing. */
  lemma {:induction false} UnclosedReads(s: string)
    requires ')' !in s
    ensures Parentheticals(s) == []
  {
    if s != "" {
      assert IndexOf(s, ')') == |s|;
      UnclosedReads(s[1..]);
    }
  }

  lemma {:induction false} JoinEnds(cells: seq<string>, glue: string)
    requires cells != [] && cells[0] != "" && cells[|cells| - 1] != ""
    ensures var s := Join(cells, glue);
            s != "" && s[0] == cells[0][0] && s[|s| - 1] == cells[|cells| - 1][|cells[|cells| - 1]| - 1]
    decreases |cells|
  {
    if |cells| > 1 {
      JoinTail(cells[1..], glue);
      JoinStep(cells, glue);
    }
  }

  lemma {:induction false} JoinTail(cells: seq<string>, glue: string)
    requires cells != [] && cells[|cells| - 1] != ""
    ensures var s := Join(cells, glue); s != "" && s[|s| - 1] == cells[|cells| - 1][|cells[|cells| - 1]| - 1]
    decreases |cells|
  {
    if |cells| > 1 {
      JoinTail(cells[1..], glue);
      JoinStep(cells, glue);
    }
  }

  /** A table row `|a|b|...|`, however indented, has the stripped texts between the bars as cells. */
  lemma RowReads(pre: string, cells: seq<string>, post: string)
    requires Blank(pre) && Blank(post) && cells != [] && NoneHas(cells, '|')
    requires cells[0] != "" && cells[|cells| - 1] != ""
    ensures Cells(pre + ("|" + Join(cells, "|") + "|" + post)) == StripAll(cells)
  {
    var inner := Join(cells, "|");
    var row := "|" + inner + "|";
    assert "|" + inner + "|" + post == row + post;
    TrimBoth(pre, row, post, IsSpace);
    BarsAreTrimmed(cells);
    CellsOf(pre + (row + post), row, inner);
    SplitJoin(cells, '|');
  }

  lemma BarsAreTrimmed(cells: seq<string>)
    requires cells != [] && NoneHas(cells, '|') && cells[0] != "" && cells[|cells| - 1] != ""
    ensures Trim("|" + Join(cells, "|") + "|", Pipe) == Join(cells, "|")
  {
    var inner := Join(cells, "|");
    JoinEnds(cells, "|");
    EndsAreNoBars(cells);
    assert "|" + inner + "|" == "|" + (inner + "|");
    TrimBoth("|", inner, "|", Pipe);
  }

  lemma CellsOf(line: string, row: string, inner: string)
    requires Strip(line) == row && Trim(row, Pipe) == inner
    ensures Cells(line) == StripAll(Split(inner, '|'))
  {
  }

  lemma EndsAreNoBars(cells: seq<string>)
    requires cells != [] && NoneHas(cells, '|') && cells[0] != "" && cells[|cells| - 1] != ""
    ensures cells[0][0] != '|' && cells[|cells| - 1][|cells[|cells| - 1]| - 1] != '|'
  {
    assert cells[0][0] in cells[0];
    var last := cells[|cells| - 1];
    assert last[|last| - 1] in last;
  }

  // ---------------------------------------------------------------------------------------------
  // The scan, form by form
  // ---------------------------------------------------------------------------------------------

  predicate Names(s: string, subject: Subject) {
    match subject
    case AtD09 => Contains(Upper(s), "AT-D09") || Contains(Upper(s), "AT_D09")
    case AtM2 => Contains(Upper(s), "AT-M2") || Contains(Upper(s), "AT_M2")
  }

  predicate Begins(key: string, subject: Subject) {
    match subject
    case AtD09 => "AT-D09" <= Upper(key) || "AT_D09" <= Upper(key)
    case AtM2 => "AT-M2" <= Upper(key) || "AT_M2" <= Upper(key)
  }

  /** AT-M2 carriers are of one kind; those of AT-D09 have the kind given. */
  function KindFor(subject: Subject, kind: Kind): Kind { if subject == AtM2 then AtM2Authorization else kind }

  /** The value of a keyed line: its inline text, or the block of text below that continues it. */
  ghost predicate HasValue(lines: seq<string>, i: nat, inline: string, value: string) {
    if !Blank(inline) then value == Strip(inline)
    else exists parts :: ContinuationOf(lines, i + 1, parts) && value == Join(parts, "\n")
  }

  /** A heading declares the status of the subject it names in its parentheticals. */
  predicate HeadingDeclares(subject: Subject, line: string, c: Carrier) {
    var markers := NonEmpty(StripAll(Parentheticals(line)));
    Names(line, subject) && markers != []
    && c.form == HeadingStatus && c.kind == KindFor(subject, Status) && c.value == Join(markers, "\n")
  }

  /** A table row declares the state of the subject its first cell names in the other cells. */
  ghost predicate RowDeclares(subject: Subject, line: string, c: Carrier) {
    var cells := Cells(line);
    Names(cells[0], subject)
    && c.form == TableState && c.kind == KindFor(subject, KindByWords(cells[0]))
    && c.value == Join(NonEmpty(cells[1..]), "\n")
  }

  /** The kind a label of a subject section declares, or its words if it is not a known label. */
  ghost function LabelKind(name: string): Kind {
    if name == "STATUS" || name == "STATE" then Status
    else if name == "DECISION" then Decision
    else if name == "AUTHORIZATION" then Authorization
    else if name == "AUTHORITY" || name == "GOVERNING AUTHORITY" || name == "CURRENT CANONICAL IMPLEMENTATION"
    then Authority
    else KindByWords(name)
  }

  /** A keyed line declares a carrier when its key begins with the subject, and in a fenced block of a
      section about AT-D09 also when it does not, unless it is the one narrative label. */
  ghost predicate KeyDeclares(subject: Subject, key: string, fenced: bool, inSection: bool, form: Form, kind: Kind) {
    if Begins(key, subject) then
      form == (if fenced then Register else Field) && kind == KindFor(subject, KindByWords(key))
    else
      var name := NormalizedKey(key);
      fenced && inSection && subject == AtD09 && name != "UX SUGGESTION UNDER CONSIDERATION"
      && form == SectionField && kind == LabelKind(name)
  }

  ghost predicate FieldDeclares(
    subject: Subject, lines: seq<string>, i: nat, fenced: bool, inSection: bool, c: Carrier)
    requires i < |lines|
  {
    exists key, inline :: KeyedField(lines[i]) == Some((key, inline))
      && KeyDeclares(subject, key, fenced, inSection, c.form, c.kind) && HasValue(lines, i, inline, c.value)
  }

  /** Line `i` declares `c`, given whether it stands in a fenced block and in a subject section. */
  ghost predicate Declares(
    subject: Subject, lines: seq<string>, i: nat, fenced: bool, inSection: bool, c: Carrier)
    requires i < |lines|
  {
    var line := lines[i];
    c.line == i + 1 && !("```" <= Strip(line)) &&
    if "#" <= line then HeadingDeclares(subject, line, c)
    else if "|" <= LStrip(line) then RowDeclares(subject, line, c)
    else FieldDeclares(subject, lines, i, fenced, inSection, c)
  }

  lemma NamesIsMentions(s: string, subject: Subject)
    ensures Names(s, subject) <==> MentionsSubject(s, subject)
    ensures Begins(s, subject) <==> StartsWithSubject(s, subject)
  {
  }

  lemma KindOfNothing()
    ensures KindByWords("") == Status
  {
    assert NormalizedKey("") == "";
    forall word, i | word != "" ensures !WordAt("", word, i) {}
  }

  lemma KindIs(subject: Subject, key: string)
    ensures CarrierKind(subject, key, None) == KindFor(subject, KindByWords(key))
  {
    if subject == AtD09 { KindIsByWords(key); }
  }

  lemma LabelKindIs(name: string)
    ensures CarrierKind(AtD09, name, DeclaredKind(name)) == LabelKind(name)
  {
    KindIsByWords(name);
  }

  lemma ValueIs(lines: seq<string>, i: nat, inline: string, value: string)
    ensures value == Join(Sources(lines, i, Keyed(inline)), "\n") <==> HasValue(lines, i, inline, value)
  {
    if Blank(inline) {
      ContinuationIs(lines, i + 1, Continuation(lines, i + 1));
      if parts :| ContinuationOf(lines, i + 1, parts) && value == Join(parts, "\n") {
        ContinuationIs(lines, i + 1, parts);
      }
    }
  }

  lemma HeadingIs(subject: Subject, lines: seq<string>, i: nat, c: Carrier)
    requires i < |lines| && c.line == i + 1
    ensures var f := HeadingCarrier(subject, lines[i]);
            f.Some? && c == CarrierAt(lines, i, f.value) <==> HeadingDeclares(subject, lines[i], c)
  {
    NamesIsMentions(lines[i], subject);
    KindIs(subject, "");
    KindOfNothing();
  }

  lemma RowIs(subject: Subject, lines: seq<string>, i: nat, c: Carrier)
    requires i < |lines| && c.line == i + 1
    ensures var f := RowCarrier(subject, lines[i]);
            f.Some? && c == CarrierAt(lines, i, f.value) <==> RowDeclares(subject, lines[i], c)
  {
    NamesIsMentions(Cells(lines[i])[0], subject);
    KindIs(subject, Cells(lines[i])[0]);
  }

  lemma KeyIs(subject: Subject, key: string, inline: string, st: State, form: Form, kind: Kind)
    ensures var f := FieldCarrier(subject, key, inline, st);
            f.Some? && f.value.form == form && f.value.kind == kind
            <==> KeyDeclares(subject, key, st.fenced, st.inSection, form, kind)
    ensures var f := FieldCarrier(subject, key, inline, st); f.Some? ==> f.value.source == Keyed(inline)
  {
    NamesIsMentions(key, subject);
    KindIs(subject, key);
    LabelKindIs(NormalizedKey(key));
  }

  lemma FieldIs(subject: Subject, lines: seq<string>, i: nat, key: string, inline: string, st: State, c: Carrier)
    requires i < |lines| && c.line == i + 1
    ensures var f := FieldCarrier(subject, key, inline, st);
            f.Some? && c == CarrierAt(lines, i, f.value) <==>
            KeyDeclares(subject, key, st.fenced, st.inSection, c.form, c.kind) && HasValue(lines, i, inline, c.value)
  {
    KeyIs(subject, key, inline, st, c.form, c.kind);
    ValueIs(lines, i, inline, c.value);
    var f := FieldCarrier(subject, key, inline, st);
    if f.Some? { PlacedIs(lines, i, f.value, inline, c); }
  }

  lemma PlacedIs(lines: seq<string>, i: nat, f: Found, inline: string, c: Carrier)
    requires c.line == i + 1 && f.source == Keyed(inline)
    ensures c == CarrierAt(lines, i, f) <==>
            c.form == f.form && c.kind == f.kind && c.value == Join(Sources(lines, i, Keyed(inline)), "\n")
  {
  }

  lemma KeyedFieldIs(subject: Subject, lines: seq<string>, i: nat, st: State, c: Carrier)
    requires i < |lines| && c.line == i + 1
    ensures (exists key, inline :: KeyedField(lines[i]) == Some((key, inline))
               && FieldCarrier(subject, key, inline, st).Some?
               && c == CarrierAt(lines, i, FieldCarrier(subject, key, inline, st).value))
            <==> FieldDeclares(subject, lines, i, st.fenced, st.inSection, c)
  {
    if KeyedField(lines[i]).Some? {
      var (key, inline) := KeyedField(lines[i]).value;
      FieldIs(subject, lines, i, key, inline, st, c);
    }
  }

  lemma HashFirst(line: string)
    ensures IsHeading(line) <==> "#" <= line
  {
    if line != "" { assert line[..1] == [line[0]]; }
  }

  /** What the classifier says of a line, by the form of the line. */
  lemma ClassifyHeading(subject: Subject, line: string, st: State)
    requires !IsFence(line) && IsHeading(line)
    ensures Classify(subject, line, st).1 == HeadingCarrier(subject, line)
  {
  }

  lemma ClassifyRow(subject: Subject, line: string, st: State)
    requires !IsFence(line) && !IsHeading(line) && IsTableRow(line)
    ensures Classify(subject, line, st).1 == RowCarrier(subject, line)
  {
  }

  lemma ClassifyField(subject: Subject, line: string, st: State)
    requires !IsFence(line) && !IsHeading(line) && !IsTableRow(line)
    ensures Classify(subject, line, st).1 ==
            match KeyedField(line)
            case None => None
            case Some((key, inline)) => FieldCarrier(subject, key, inline, st)
  {
  }

  lemma ClassifyFence(subject: Subject, line: string, st: State)
    requires IsFence(line)
    ensures Classify(subject, line, st).1 == None
  {
  }

  predicate Places(lines: seq<string>, i: nat, f: Option<Found>, c: Carrier) {
    f.Some? && c == CarrierAt(lines, i, f.value)
  }

  /** The declaration by a line that is no fence, by its form. */
  ghost predicate FormDeclares(
    subject: Subject, lines: seq<string>, i: nat, fenced: bool, inSection: bool, c: Carrier)
    requires i < |lines|
  {
    if IsHeading(lines[i]) then HeadingDeclares(subject, lines[i], c)
    else if IsTableRow(lines[i]) then RowDeclares(subject, lines[i], c)
    else FieldDeclares(subject, lines, i, fenced, inSection, c)
  }

  lemma DeclaresByForm(subject: Subject, lines: seq<string>, i: nat, fenced: bool, inSection: bool, c: Carrier)
    requires i < |lines|
    ensures Declares(subject, lines, i, fenced, inSection, c) <==>
            c.line == i + 1 && !IsFence(lines[i]) && FormDeclares(subject, lines, i, fenced, inSection, c)
  {
    HashFirst(lines[i]);
  }

  lemma FormIs(subject: Subject, lines: seq<string>, i: nat, st: State, c: Carrier)
    requires i < |lines| && c.line == i + 1 && !IsFence(lines[i])
    ensures Places(lines, i, Classify(subject, lines[i], st).1, c)
            <==> FormDeclares(subject, lines, i, st.fenced, st.inSection, c)
  {
    var line := lines[i];
    if IsHeading(line) {
      ClassifyHeading(subject, line, st);
      HeadingIs(subject, lines, i, c);
    } else if IsTableRow(line) {
      ClassifyRow(subject, line, st);
      RowIs(subject, lines, i, c);
    } else {
      ClassifyField(subject, line, st);
      KeyedFieldIs(subject, lines, i, st, c);
    }
  }

  lemma DeclaresIs(subject: Subject, lines: seq<string>, i: nat, st: State, c: Carrier)
    requires i < |lines|
    ensures Places(lines, i, Classify(subject, lines[i], st).1, c)
            <==> Declares(subject, lines, i, st.fenced, st.inSection, c)
  {
    DeclaresByForm(subject, lines, i, st.fenced, st.inSection, c);
    if IsFence(lines[i]) {
      ClassifyFence(subject, lines[i], st);
    } else if c.line == i + 1 {
      FormIs(subject, lines, i, st, c);
    }
  }

  /** Line `i` stands in a fenced block: an odd number of fence lines come before it. */
  predicate FencedAt(lines: seq<string>, i: nat)
    requires i <= |lines|
  {
    CountLines(line => "```" <= Strip(line), lines, i) % 2 == 1
  }

  /** Line `i` stands in a section about the subject: the last heading before it names it. */
  ghost predicate SectionAt(subject: Subject, lines: seq<string>, i: nat) {
    exists j :: LastLine(line => !("```" <= Strip(line)) && "#" <= line, lines, i, j) && Names(lines[j], subject)
  }

  lemma SameLast(p: string -> bool, q: string -> bool, lines: seq<string>, i: nat, j: int)
    requires forall l :: p(l) == q(l)
    ensures LastLine(p, lines, i, j) <==> LastLine(q, lines, i, j)
  {
  }

  lemma {:induction false} SameCount(p: string -> bool, q: string -> bool, lines: seq<string>, i: nat)
    requires i <= |lines| && forall l :: p(l) == q(l)
    ensures CountLines(p, lines, i) == CountLines(q, lines, i)
  {
    if i > 0 { SameCount(p, q, lines, i - 1); }
  }

  lemma StateIs(subject: Subject, lines: seq<string>, i: nat)
    requires i <= |lines|
    ensures StateBefore(For(subject), lines, i) == State(FencedAt(lines, i), SectionAt(subject, lines, i))
  {
    ScannerState(subject, lines, i);
    SameCount(IsFence, line => "```" <= Strip(line), lines, i);
    var mentions := (l: string) => MentionsSubject(l, subject);
    forall l ensures mentions(l) == Names(l, subject) { NamesIsMentions(l, subject); }
    var heading := (line: string) => !("```" <= Strip(line)) && "#" <= line;
    forall l ensures HeadingLine(l) == heading(l) { HashFirst(l); }
    forall j ensures LastLine(HeadingLine, lines, i, j) <==> LastLine(heading, lines, i, j) {
      SameLast(HeadingLine, heading, lines, i, j);
    }
    SectionIs(heading, mentions, subject, lines, i);
  }

  lemma SectionIs(heading: string -> bool, mentions: string -> bool, subject: Subject, lines: seq<string>, i: nat)
    requires forall l :: mentions(l) == Names(l, subject)
    requires forall j :: LastLine(HeadingLine, lines, i, j) <==> LastLine(heading, lines, i, j)
    ensures Under(HeadingLine, mentions, lines, i)
            <==> exists j :: LastLine(heading, lines, i, j) && Names(lines[j], subject)
  {
  }

  /** A carrier is found in a document exactly when some line declares it. */
  lemma ScanWrittenOut(subject: Subject, lines: seq<string>, c: Carrier)
    ensures c in Scan(subject, lines) <==>
            exists i: nat :: i < |lines| && Declares(subject, lines, i, FencedAt(lines, i), SectionAt(subject, lines, i), c)
  {
    ScanFindsExactly(subject, lines, c);
    forall i: nat | i < |lines|
      ensures Places(lines, i, FoundOn(For(subject), lines, i), c)
              <==> Declares(subject, lines, i, FencedAt(lines, i), SectionAt(subject, lines, i), c)
    {
      StateIs(subject, lines, i);
      FoundIs(subject, lines, i);
      DeclaresIs(subject, lines, i, StateBefore(For(subject), lines, i), c);
    }
  }

  lemma FoundIs(subject: Subject, lines: seq<string>, i: nat)
    requires i < |lines|
    ensures FoundOn(For(subject), lines, i) == Classify(subject, lines[i], StateBefore(For(subject), lines, i)).1
  {
  }
}
