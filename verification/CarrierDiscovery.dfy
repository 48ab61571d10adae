/**
 Discovery is structural: which carriers a document declares does not depend on what they say.
 */
module CarrierDiscovery {
  import opened Wrappers
  import opened Text
  import opened CarrierVerdict
  import opened CarrierScan

  // ---------------------------------------------------------------------------------------------
  // A line `k : v` is read through `k` and `v` separately
  // ---------------------------------------------------------------------------------------------

  predicate NoColon(s: string) { forall i :: 0 <= i < |s| ==> s[i] != ':' }

  lemma {:induction false} LTrimStop(s: string, rest: string, p: char -> bool)
    requires rest != "" && !p(rest[0])
    ensures LTrim(s + rest, p) == LTrim(s, p) + rest
  {
    if s == "" {
      assert s + rest == rest;
    } else {
      assert (s + rest)[1..] == s[1..] + rest;
      LTrimStop(s[1..], rest, p);
    }
  }

  lemma {:induction false} RTrimStop(rest: string, s: string, p: char -> bool)
    requires rest != "" && !p(rest[|rest| - 1])
    ensures RTrim(rest + s, p) == rest + RTrim(s, p)
  {
    if s == "" {
      assert rest + s == rest;
    } else {
      assert (rest + s)[..|rest + s| - 1] == rest + s[..|s| - 1];
      RTrimStop(rest, s[..|s| - 1], p);
    }
  }

  lemma LStripAround(k: string, v: string)
    ensures LStrip(k + ":" + v) == LStrip(k) + ":" + v
  {
    Regroup(k, v);
    LTrimStop(k, ":" + v, IsSpace);
    Regroup(LStrip(k), v);
  }

  lemma Regroup(k: string, v: string)
    ensures k + ":" + v == k + (":" + v)
  {
  }

  lemma StripAround(k: string, v: string)
    ensures Strip(k + ":" + v) == LStrip(k) + ":" + RStrip(v)
  {
    LStripAround(k, v);
    RTrimStop(LStrip(k) + ":", v, IsSpace);
  }

  lemma DigitRunUnique(s: string, n: nat)
    requires n <= |s| && (forall i :: 0 <= i < n ==> IsDigit(s[i])) && (n < |s| ==> !IsDigit(s[n]))
    ensures DigitRun(s) == n
  {
  }

  lemma ListMarkerAround(s: string, v: string)
    ensures ListMarker(s + (":" + v)) == ListMarker(s)
  {
    var t := s + (":" + v);
    DigitRunUnique(t, DigitRun(s));
    assert t[|s|] == ':';
  }

  lemma DecorationAround(k: string, v: string)
    ensures WithoutDecoration(k + (":" + v)) == WithoutDecoration(k) + (":" + v)
  {
    LTrimStop(k, ":" + v, QuoteOrSpace);
    UnlistedAround(LTrim(k, QuoteOrSpace), v);
  }

  /** A line after its leading quote marks, without the list marker and what follows it. */
  function Unlisted(s: string): string { LTrim(s[ListMarker(s)..], QuoteOrSpace) }

  lemma UnlistedAround(s: string, v: string)
    ensures Unlisted(s + (":" + v)) == Unlisted(s) + (":" + v)
  {
    var rest := ":" + v;
    ListMarkerAround(s, v);
    var n := ListMarker(s);
    assert (s + rest)[n..] == s[n..] + rest;
    LTrimStop(s[n..], rest, QuoteOrSpace);
  }

  lemma {:induction false} ReplacePairAround(s: string, v: string)
    ensures ReplacePair(s + (":" + v), '*', '*', "") == ReplacePair(s, '*', '*', "") + (":" + ReplacePair(v, '*', '*', ""))
    decreases |s|
  {
    var rest := ":" + v;
    var t := s + rest;
    if s == "" {
      assert t == rest;
      ReplaceAfterColon(v);
    } else if |s| == 1 {
      assert t[0] == s[0] && t[1] == ':' && t[1..] == rest;
      ReplaceAfterColon(v);
    } else if s[0] == '*' && s[1] == '*' {
      assert t[2..] == s[2..] + rest;
      ReplacePairAround(s[2..], v);
    } else {
      assert t[1..] == s[1..] + rest;
      ReplacePairAround(s[1..], v);
    }
  }

  lemma ReplaceAfterColon(v: string)
    ensures ReplacePair(":" + v, '*', '*', "") == ":" + ReplacePair(v, '*', '*', "")
  {
    assert (":" + v)[0] == ':' && (":" + v)[1..] == v;
    if v == "" { assert ReplacePair(v, '*', '*', "") == ""; }
  }

  lemma {:induction false} ReplaceCharConcat(a: string, b: string, c: char, with: string)
    ensures ReplaceChar(a + b, c, with) == ReplaceChar(a, c, with) + ReplaceChar(b, c, with)
  {
    if a == "" {
      assert a + b == b;
    } else {
      assert (a + b)[1..] == a[1..] + b;
      ReplaceCharConcat(a[1..], b, c, with);
    }
  }

  lemma UnmarkedAround(s: string, v: string)
    ensures Unmarked(s + (":" + v)) == Unmarked(s) + ":" + Unmarked(v)
  {
    ReplacePairAround(s, v);
    var x, y := ReplacePair(s, '*', '*', ""), ReplacePair(v, '*', '*', "");
    ReplaceCharConcat(x, ":" + y, '`', "");
    ReplaceCharConcat(":", y, '`', "");
    ColonStays();
  }

  lemma ColonStays()
    ensures ReplaceChar(":", '`', "") == ":"
  {
    assert ":"[1..] == "";
  }

  lemma {:induction false} ReplaceCharNoColon(s: string)
    requires NoColon(s)
    ensures NoColon(ReplaceChar(s, '`', ""))
  {
    if s != "" { ReplaceCharNoColon(s[1..]); }
  }

  lemma {:induction false} ReplacePairNoColon(s: string)
    requires NoColon(s)
    ensures NoColon(ReplacePair(s, '*', '*', ""))
    decreases |s|
  {
    if |s| >= 2 {
      if s[0] == '*' && s[1] == '*' { ReplacePairNoColon(s[2..]); } else { ReplacePairNoColon(s[1..]); }
    }
  }

  lemma DecorationNoColon(s: string)
    requires NoColon(s)
    ensures NoColon(WithoutDecoration(s))
  {
    var t := LTrim(s, QuoteOrSpace);
    LTrimNoColon(s, QuoteOrSpace);
    LTrimNoColon(t[ListMarker(t)..], QuoteOrSpace);
  }

  lemma SuffixNoColon(s: string, n: nat)
    requires NoColon(s) && n <= |s|
    ensures NoColon(s[n..])
  {
  }

  lemma LTrimNoColon(s: string, p: char -> bool)
    requires NoColon(s)
    ensures NoColon(LTrim(s, p))
  {
    var r := LTrim(s, p);
    SuffixNoColon(s, |s| - |r|);
  }

  lemma RTrimNoColon(s: string, p: char -> bool)
    requires NoColon(s)
    ensures NoColon(RTrim(s, p))
  {
    var r := RTrim(s, p);
    forall i | 0 <= i < |r| ensures r[i] != ':' {
      assert r[i] == s[..|r|][i] == s[i];
    }
  }

  lemma UnmarkedNoColon(s: string)
    requires NoColon(s)
    ensures NoColon(Unmarked(WithoutDecoration(s)))
  {
    DecorationNoColon(s);
    ReplacePairNoColon(WithoutDecoration(s));
    ReplaceCharNoColon(ReplacePair(WithoutDecoration(s), '*', '*', ""));
  }

  /** The key of a line, from the text before its first colon. */
  function KeyText(k: string): string { Strip(LStrip(Unmarked(WithoutDecoration(k)))) }

  lemma IndexOfColon(x: string, y: string)
    requires NoColon(x)
    ensures IndexOf(x + ":" + y, ':') == |x|
  {
    var s := x + ":" + y;
    assert s[|x|] == ':';
    assert forall i :: 0 <= i < |x| ==> s[i] != ':';
  }

  /** A line `k : v` with its decoration and marks removed. */
  lemma UndecoratedAround(k: string, v: string)
    ensures Undecorated(k + ":" + v)
            == LStrip(Unmarked(WithoutDecoration(k))) + ":" + RStrip(Unmarked(v))
  {
    Regroup(k, v);
    DecorationAround(k, v);
    UnmarkedAround(WithoutDecoration(k), v);
    StripAround(Unmarked(WithoutDecoration(k)), Unmarked(v));
  }

  /** Key and inline value are functions of the text before and after the first colon. */
  lemma KeyedFieldAround(k: string, v: string)
    requires NoColon(k)
    ensures KeyedField(k + ":" + v) == Some((KeyText(k), RStrip(Unmarked(v))))
  {
    UndecoratedAround(k, v);
    UnmarkedNoColon(k);
    var x, y := LStrip(Unmarked(WithoutDecoration(k))), RStrip(Unmarked(v));
    LTrimNoColon(Unmarked(WithoutDecoration(k)), IsSpace);
    SplitFieldAround(x, y);
  }

  lemma SplitFieldAround(x: string, y: string)
    requires NoColon(x)
    ensures SplitField(x + ":" + y) == Some((Strip(x), y))
  {
    IndexOfColon(x, y);
    var u := x + ":" + y;
    assert u[..|x|] == x && u[|x| + 1..] == y;
  }

  lemma NoKeyedField(line: string)
    requires NoColon(line)
    ensures KeyedField(line).None?
  {
    UnmarkedNoColon(line);
    var x := Unmarked(WithoutDecoration(line));
    LTrimNoColon(x, IsSpace);
    RTrimNoColon(LStrip(x), IsSpace);
  }

  // ---------------------------------------------------------------------------------------------
  // Lines and documents of the same structure
  // ---------------------------------------------------------------------------------------------

  predicate SameKeyPart(a: string, b: string) {
    var n := IndexOf(a, ':');
    n < |a| && n == IndexOf(b, ':') < |b| && a[..n] == b[..n]
  }

  /** Equal lines; or lines with the same text up to the first colon, neither a heading nor a table
      row; or two plain lines without any colon. */
  predicate SameStructure(a: string, b: string) {
    a == b
    || (SameKeyPart(a, b) && !IsHeading(a) && !IsTableRow(a))
    || (NoColon(a) && NoColon(b) && Plain(a) && Plain(b))
  }

  predicate Plain(line: string) { !IsFence(line) && !IsHeading(line) && !IsTableRow(line) }

  /** Fence, heading and table row are decided before the first colon. */
  lemma LineClassAround(k: string, v: string)
    ensures IsFence(k + ":" + v) <==> "```" <= LStrip(k)
    ensures IsHeading(k + ":" + v) <==> IsHeading(k)
    ensures IsTableRow(k + ":" + v) <==> IsTableRow(k)
  {
    FenceAround(k, v);
    RowAround(k, v);
    assert (k + ":" + v)[0] == if k == "" then ':' else k[0];
  }

  lemma FenceAround(k: string, v: string)
    ensures IsFence(k + ":" + v) <==> "```" <= LStrip(k)
  {
    StripAround(k, v);
    FenceMark(LStrip(k), RStrip(v));
  }

  lemma FenceMark(x: string, y: string)
    ensures "```" <= x + ":" + y <==> "```" <= x
  {
    PrefixBeforeColon("```", x, y);
  }

  lemma RowAround(k: string, v: string)
    ensures IsTableRow(k + ":" + v) <==> IsTableRow(k)
  {
    LStripAround(k, v);
    PrefixBeforeColon("|", LStrip(k), v);
  }

  lemma PrefixBeforeColon(p: string, s: string, v: string)
    requires NoColon(p)
    ensures p <= s + ":" + v <==> p <= s
  {
    var t := s + ":" + v;
    assert t[|s|] == ':';
    if |p| <= |s| { assert t[..|p|] == s[..|p|]; }
  }

  /** What remains of a classification when the value is ignored. */
  function Shape(f: Option<Found>): Option<(Form, Kind)> {
    match f case None => None case Some(f) => Some((f.form, f.kind))
  }

  lemma FieldShape(subject: Subject, key: string, v: string, v': string, st: State)
    ensures Shape(FieldCarrier(subject, key, v, st)) == Shape(FieldCarrier(subject, key, v', st))
  {
  }

  lemma SplitAtColon(s: string) returns (k: string, v: string)
    requires IndexOf(s, ':') < |s|
    ensures s == k + ":" + v && NoColon(k) && k == s[..IndexOf(s, ':')]
  {
    var n := IndexOf(s, ':');
    k, v := s[..n], s[n + 1..];
  }

  lemma ClassifyKeyed(subject: Subject, k: string, v: string, st: State)
    requires NoColon(k) && !IsHeading(k) && !IsTableRow(k)
    ensures var (next, found) := Classify(subject, k + ":" + v, st);
            if "```" <= LStrip(k) then next == st.(fenced := !st.fenced) && found.None?
            else next == st && found == FieldCarrier(subject, KeyText(k), RStrip(Unmarked(v)), st)
  {
    LineClassAround(k, v);
    KeyedFieldAround(k, v);
  }

  lemma ClassifyBySameStructure(subject: Subject, a: string, b: string, st: State)
    requires SameStructure(a, b)
    ensures Classify(subject, a, st).0 == Classify(subject, b, st).0
    ensures Shape(Classify(subject, a, st).1) == Shape(Classify(subject, b, st).1)
  {
    if a != b {
      if NoColon(a) && NoColon(b) && Plain(a) && Plain(b) {
        NoKeyedField(a);
        NoKeyedField(b);
      } else {
        var k, v := SplitAtColon(a);
        var k', v' := SplitAtColon(b);
        LineClassAround(k, v);
        ClassifyKeyed(subject, k, v, st);
        ClassifyKeyed(subject, k, v', st);
        FieldShape(subject, KeyText(k), RStrip(Unmarked(v)), RStrip(Unmarked(v')), st);
      }
    }
  }

  ghost predicate Related(rel: (string, string) -> bool, a: seq<string>, b: seq<string>) {
    |a| == |b| && forall i :: 0 <= i < |a| ==> rel(a[i], b[i])
  }

  /** The classifier gives two lines the same flags and the same form and kind. */
  ghost predicate Agrees(classify: Classifier, x: string, y: string, s: State) {
    classify(x, s).0 == classify(y, s).0 && Shape(classify(x, s).1) == Shape(classify(y, s).1)
  }

  ghost predicate Respects(classify: Classifier, rel: (string, string) -> bool) {
    forall x, y, s :: rel(x, y) ==> Agrees(classify, x, y, s)
  }

  /** The (line, form, kind) list of a scan. */
  function Skeleton(cs: seq<Carrier>): seq<(nat, Form, Kind)> {
    seq(|cs|, i requires 0 <= i < |cs| => (cs[i].line, cs[i].form, cs[i].kind))
  }

  lemma SkeletonCons(c: Carrier, cs: seq<Carrier>)
    ensures Skeleton([c] + cs) == [(c.line, c.form, c.kind)] + Skeleton(cs)
  {
  }

  /** A placement that records the line, form and kind of what it places. */
  ghost predicate Faithful(place: Placement) {
    forall i: nat, f: Found :: place(i, f).line == i + 1 && place(i, f).form == f.form && place(i, f).kind == f.kind
  }

  lemma {:induction false} SameSkeleton(
    classify: Classifier, rel: (string, string) -> bool, p: Placement, q: Placement,
    a: seq<string>, b: seq<string>, i: nat, st: State)
    requires Respects(classify, rel) && Related(rel, a, b) && i <= |a| && Faithful(p) && Faithful(q)
    ensures Skeleton(ScanFrom(classify, p, a, i, st)) == Skeleton(ScanFrom(classify, q, b, i, st))
    decreases |a| - i
  {
    if i < |a| {
      assert rel(a[i], b[i]);
      assert Agrees(classify, a[i], b[i], st);
      var (next, found) := classify(a[i], st);
      var (_, found') := classify(b[i], st);
      SameSkeleton(classify, rel, p, q, a, b, i + 1, next);
      var rest, rest' := ScanFrom(classify, p, a, i + 1, next), ScanFrom(classify, q, b, i + 1, next);
      if found.Some? {
        SkeletonCons(p(i, found.value), rest);
        SkeletonCons(q(i, found'.value), rest');
      } else {
        assert [] + rest == rest && [] + rest' == rest';
      }
    }
  }

  lemma StructureIsRespected(subject: Subject)
    ensures Respects(For(subject), SameStructure)
  {
    var classify := For(subject);
    forall x, y, s | SameStructure(x, y) ensures Agrees(classify, x, y, s) {
      AgreesOnStructure(subject, x, y, s);
    }
  }

  lemma AgreesOnStructure(subject: Subject, x: string, y: string, s: State)
    requires SameStructure(x, y)
    ensures Agrees(For(subject), x, y, s)
  {
    ClassifyBySameStructure(subject, x, y, s);
  }

  /** Two documents of the same structure declare the same carriers, line by line, whatever their
      values are. */
  lemma DiscoveryIgnoresValues(subject: Subject, a: seq<string>, b: seq<string>)
    requires |a| == |b| && forall i :: 0 <= i < |a| ==> SameStructure(a[i], b[i])
    ensures Skeleton(Scan(subject, a)) == Skeleton(Scan(subject, b))
  {
    StructureIsRespected(subject);
    SameSkeleton(For(subject), SameStructure, In(a), In(b), a, b, 0, START);
  }
}
