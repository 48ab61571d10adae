/**
 The string operations the governance scripts are written with, on ASCII text: stripping,
 substring and word search, splitting and joining lines, and tokens of a value.
 */
module Text {
  predicate IsSpace(c: char) {
    c == ' ' || 9 <= c as int <= 13 || 28 <= c as int <= 31
  }

  predicate IsDigit(c: char) {
    '0' <= c <= '9'
  }

  predicate IsWordChar(c: char) {
    IsDigit(c) || 'a' <= c <= 'z' || 'A' <= c <= 'Z' || c == '_'
  }

  // ---------------------------------------------------------------------------------------------
  // Stripping
  // ---------------------------------------------------------------------------------------------

  predicate All(s: string, p: char -> bool) {
    forall i :: 0 <= i < |s| ==> p(s[i])
  }

  /** Drop the leading characters that satisfy `p`. */
  function LTrim(s: string, p: char -> bool): (r: string)
    ensures |r| <= |s| && s[|s| - |r|..] == r
    ensures forall i :: 0 <= i < |s| - |r| ==> p(s[i])
    ensures r == "" || !p(r[0])
  {
    if s == "" || !p(s[0]) then s else LTrim(s[1..], p)
  }

  /** Drop the trailing characters that satisfy `p`. */
  function RTrim(s: string, p: char -> bool): (r: string)
    ensures |r| <= |s| && s[..|r|] == r
    ensures forall i :: |r| <= i < |s| ==> p(s[i])
    ensures r == "" || !p(r[|r| - 1])
  {
    if s == "" || !p(s[|s| - 1]) then s else RTrim(s[..|s| - 1], p)
  }

  function Trim(s: string, p: char -> bool): string {
    RTrim(LTrim(s, p), p)
  }

  function LStrip(s: string): string { LTrim(s, IsSpace) }
  function RStrip(s: string): string { RTrim(s, IsSpace) }
  function Strip(s: string): string { Trim(s, IsSpace) }

  predicate Blank(s: string) { All(s, IsSpace) }

  lemma LTrimParts(s: string, p: char -> bool) returns (pre: string)
    ensures s == pre + LTrim(s, p) && All(pre, p)
  {
    var r := LTrim(s, p);
    pre := s[..|s| - |r|];
    assert s == pre + s[|s| - |r|..];
  }

  lemma RTrimParts(s: string, p: char -> bool) returns (post: string)
    ensures s == RTrim(s, p) + post && All(post, p)
  {
    var r := RTrim(s, p);
    post := s[|r|..];
    assert s == s[..|r|] + post;
  }

  /** A trimmed string is the original with only `p` characters removed at both ends. */
  lemma TrimParts(s: string, p: char -> bool) returns (pre: string, post: string)
    ensures s == pre + Trim(s, p) + post
    ensures All(pre, p) && All(post, p)
  {
    pre := LTrimParts(s, p);
    post := RTrimParts(LTrim(s, p), p);
    ConcatAssociative(pre, Trim(s, p), post);
  }

  lemma ConcatAssociative(a: string, b: string, c: string)
    ensures a + (b + c) == a + b + c
  {
  }

  lemma {:induction false} LTrimPrefix(pre: string, s: string, p: char -> bool)
    requires All(pre, p)
    ensures LTrim(pre + s, p) == LTrim(s, p)
  {
    if pre == "" {
      assert pre + s == s;
    } else {
      assert (pre + s)[1..] == pre[1..] + s;
      LTrimPrefix(pre[1..], s, p);
    }
  }

  lemma LTrimStays(s: string, p: char -> bool)
    requires s == "" || !p(s[0])
    ensures LTrim(s, p) == s
  {
  }

  lemma {:induction false} StripBehind(a: string, b: string)
    requires a != "" && !IsSpace(a[|a| - 1])
    ensures RStrip(a + b) == a + RStrip(b)
    decreases |b|
  {
    if b == "" {
      assert a + b == a;
    } else {
      var s := a + b;
      assert s[|s| - 1] == b[|b| - 1] && s[..|s| - 1] == a + b[..|b| - 1];
      if IsSpace(b[|b| - 1]) { StripBehind(a, b[..|b| - 1]); }
    }
  }

  lemma {:induction false} RTrimBehind(s: string, post: string, p: char -> bool)
    requires All(post, p) && s != "" && !p(s[|s| - 1])
    ensures RTrim(s + post, p) == s
    decreases |post|
  {
    if post == "" {
      assert s + post == s;
    } else {
      var n := |s + post| - 1;
      assert (s + post)[n] == post[|post| - 1] && (s + post)[..n] == s + post[..|post| - 1];
      RTrimBehind(s, post[..|post| - 1], p);
    }
  }

  lemma TrimBoth(pre: string, s: string, post: string, p: char -> bool)
    requires All(pre, p) && All(post, p) && s != "" && !p(s[0]) && !p(s[|s| - 1])
    ensures Trim(pre + (s + post), p) == s
  {
    LTrimPrefix(pre, s + post, p);
    assert (s + post)[0] == s[0];
    LTrimStays(s + post, p);
    RTrimBehind(s, post, p);
  }

  /** What is left of a text after stripping starts and ends with something else than white space. */
  lemma StripEnds(s: string)
    ensures Strip(s) != "" ==> !IsSpace(Strip(s)[0]) && !IsSpace(Strip(s)[|Strip(s)| - 1])
  {
    var l := LStrip(s);
    assert Strip(s) == l[..|Strip(s)|];
  }

  lemma BlankIffStripEmpty(s: string)
    ensures Blank(s) <==> Strip(s) == ""
    ensures Blank(s) <==> LStrip(s) == ""
  {
    var l := LStrip(s);
    if l != "" {
      assert s[|s| - |l|] == l[0];
      var m := RTrim(l, IsSpace);
      assert forall i :: |m| <= i < |l| ==> IsSpace(l[i]);
    }
  }

  // ---------------------------------------------------------------------------------------------
  // Searching
  // ---------------------------------------------------------------------------------------------

  predicate OccursAt(s: string, sub: string, i: int) {
    0 <= i && i + |sub| <= |s| && s[i..i + |sub|] == sub
  }

  predicate Contains(s: string, sub: string) {
    exists i :: 0 <= i <= |s| && OccursAt(s, sub, i)
  }

  /** Index of the first `c`, or the length. */
  function IndexOf(s: string, c: char): (n: nat)
    ensures n <= |s|
    ensures forall i :: 0 <= i < n ==> s[i] != c
    ensures n < |s| ==> s[n] == c
  {
    if s == "" || s[0] == c then 0 else 1 + IndexOf(s[1..], c)
  }

  lemma IndexIs(s: string, c: char, n: nat)
    requires n < |s| && s[n] == c && forall i :: 0 <= i < n ==> s[i] != c
    ensures IndexOf(s, c) == n
  {
  }

  function UpperChar(c: char): char {
    if 'a' <= c <= 'z' then (c as int - 32) as char else c
  }

  function Upper(s: string): (r: string)
    ensures |r| == |s|
    ensures forall i :: 0 <= i < |s| ==> r[i] == UpperChar(s[i])
  {
    seq(|s|, i requires 0 <= i < |s| => UpperChar(s[i]))
  }

  function LowerChar(c: char): char {
    if 'A' <= c <= 'Z' then (c as int + 32) as char else c
  }

  function Lower(s: string): (r: string)
    ensures |r| == |s|
    ensures forall i :: 0 <= i < |s| ==> r[i] == LowerChar(s[i])
  {
    seq(|s|, i requires 0 <= i < |s| => LowerChar(s[i]))
  }

  lemma UpperConcat(a: string, b: string)
    ensures Upper(a + b) == Upper(a) + Upper(b)
  {
  }

  // ---------------------------------------------------------------------------------------------
  // Splitting and joining
  // ---------------------------------------------------------------------------------------------

  /** `s.split(c)`: always at least one part. */
  function Split(s: string, c: char): (parts: seq<string>)
    ensures |parts| >= 1
    decreases |s|
  {
    var n := IndexOf(s, c);
    if n == |s| then [s] else [s[..n]] + Split(s[n + 1..], c)
  }

  function Lines(s: string): seq<string> { Split(s, '\n') }

  function Join(parts: seq<string>, glue: string): string {
    if parts == [] then ""
    else if |parts| == 1 then parts[0]
    else parts[0] + glue + Join(parts[1..], glue)
  }

  lemma IndexAfter(p: string, c: char, rest: string)
    requires c !in p
    ensures IndexOf(p + [c] + rest, c) == |p|
  {
    var s := p + [c] + rest;
    assert s[|p|] == c && forall i :: 0 <= i < |p| ==> s[i] == p[i];
  }

  lemma SplitFirst(p: string, c: char, rest: string)
    requires c !in p
    ensures Split(p + [c] + rest, c) == [p] + Split(rest, c)
  {
    var s := p + [c] + rest;
    IndexAfter(p, c, rest);
    assert s[..|p|] == p && s[|p| + 1..] == rest;
  }

  lemma SplitWhole(p: string, c: char)
    requires c !in p
    ensures Split(p, c) == [p]
  {
    assert IndexOf(p, c) == |p|;
  }

  predicate NoneHas(parts: seq<string>, c: char) { forall i :: 0 <= i < |parts| ==> c !in parts[i] }

  lemma NoneHasTail(parts: seq<string>, c: char)
    requires parts != [] && NoneHas(parts, c)
    ensures c !in parts[0] && NoneHas(parts[1..], c)
  {
  }

  lemma JoinStep(parts: seq<string>, glue: string)
    requires |parts| > 1
    ensures Join(parts, glue) == parts[0] + glue + Join(parts[1..], glue)
  {
  }

  /** Splitting undoes joining: parts without the separator come back. */
  lemma {:induction false} SplitJoin(parts: seq<string>, c: char)
    requires parts != [] && NoneHas(parts, c)
    ensures Split(Join(parts, [c]), c) == parts
    decreases |parts|
  {
    NoneHasTail(parts, c);
    var p, rest := parts[0], parts[1..];
    if |parts| == 1 {
      SplitWhole(p, c);
      assert parts == [p];
    } else {
      SplitJoin(rest, c);
      JoinStep(parts, [c]);
      SplitFirst(p, c, Join(rest, [c]));
      assert [p] + rest == parts;
    }
  }

  /** Every occurrence of the two characters `a`, `b` in a row replaced by `with`, left to right. */
  function ReplacePair(s: string, a: char, b: char, with: string): string {
    if |s| < 2 then s
    else if s[0] == a && s[1] == b then with + ReplacePair(s[2..], a, b, with)
    else [s[0]] + ReplacePair(s[1..], a, b, with)
  }

  function ReplaceChar(s: string, a: char, with: string): string {
    if s == "" then ""
    else (if s[0] == a then with else [s[0]]) + ReplaceChar(s[1..], a, with)
  }

  // ---------------------------------------------------------------------------------------------
  // Words and separators
  // ---------------------------------------------------------------------------------------------

  datatype Token = Word(text: string) | Sep(mark: char)

  /** Length of the run of word characters `s` starts with. */
  function WordRun(s: string): (n: nat)
    ensures n <= |s|
    ensures forall i :: 0 <= i < n ==> IsWordChar(s[i])
    ensures n < |s| ==> !IsWordChar(s[n])
  {
    if s == "" || !IsWordChar(s[0]) then 0 else 1 + WordRun(s[1..])
  }

  /** A value as its maximal words and its single separator characters. */
  function Tokenize(s: string): seq<Token>
    decreases |s|
  {
    if s == "" then []
    else if IsWordChar(s[0]) then [Word(s[..WordRun(s)])] + Tokenize(s[WordRun(s)..])
    else [Sep(s[0])] + Tokenize(s[1..])
  }

  lemma TokenizeWord(s: string)
    requires s != "" && IsWordChar(s[0])
    ensures Tokenize(s) == [Word(s[..WordRun(s)])] + Tokenize(s[WordRun(s)..])
  {
  }

  lemma TokenizeSep(s: string)
    requires s != "" && !IsWordChar(s[0])
    ensures Tokenize(s) == [Sep(s[0])] + Tokenize(s[1..])
  {
  }

  lemma SlicesAround(a: string, m: string, n: nat)
    requires n <= |a|
    ensures (a + m)[..n] == a[..n] && (a + m)[n..] == a[n..] + m
  {
  }

  lemma WordRunUntil(a: string, c: char, b: string)
    requires !IsWordChar(c)
    ensures WordRun(a + ([c] + b)) == WordRun(a)
  {
    var s := a + ([c] + b);
    assert s[|a|] == c && forall i :: 0 <= i < |a| ==> s[i] == a[i];
    WordRunUnique(s, WordRun(a));
  }

  /** The first word of a text is the same with a separator somewhere behind it. */
  lemma WordRunAround(a: string, c: char, b: string)
    requires !IsWordChar(c)
    ensures var s, n := a + [c] + b, WordRun(a);
            WordRun(s) == n && s[..n] == a[..n] && s[n..] == a[n..] + [c] + b
  {
    assert a + [c] + b == a + ([c] + b);
    WordRunUntil(a, c, b);
    SlicesAround(a, [c] + b, WordRun(a));
    assert a[WordRun(a)..] + ([c] + b) == a[WordRun(a)..] + [c] + b;
  }

  lemma FirstAndAround(first: seq<Token>, mid: seq<Token>, sep: seq<Token>, rest: seq<Token>)
    ensures first + (mid + sep + rest) == first + mid + sep + rest
  {
  }

  lemma TokenizeWordAround(a: string, c: char, b: string, n: nat)
    requires !IsWordChar(c) && a != "" && IsWordChar(a[0]) && n == WordRun(a)
    requires Tokenize(a[n..] + [c] + b) == Tokenize(a[n..]) + [Sep(c)] + Tokenize(b)
    ensures Tokenize(a + [c] + b) == Tokenize(a) + [Sep(c)] + Tokenize(b)
  {
    var s := a + [c] + b;
    WordRunAround(a, c, b);
    assert s[0] == a[0];
    TokenizeWord(s);
    TokenizeWord(a);
    FirstAndAround([Word(a[..n])], Tokenize(a[n..]), [Sep(c)], Tokenize(b));
  }

  lemma TokenizeSepAround(a: string, c: char, b: string)
    requires a != "" && !IsWordChar(a[0])
    requires Tokenize(a[1..] + [c] + b) == Tokenize(a[1..]) + [Sep(c)] + Tokenize(b)
    ensures Tokenize(a + [c] + b) == Tokenize(a) + [Sep(c)] + Tokenize(b)
  {
    var s := a + [c] + b;
    assert s[0] == a[0] && s[1..] == a[1..] + [c] + b;
    TokenizeSep(s);
    TokenizeSep(a);
    FirstAndAround([Sep(a[0])], Tokenize(a[1..]), [Sep(c)], Tokenize(b));
  }

  lemma TokenizeAtSep(c: char, b: string)
    requires !IsWordChar(c)
    ensures Tokenize("" + [c] + b) == Tokenize("") + [Sep(c)] + Tokenize(b)
  {
    var s := "" + [c] + b;
    assert s[0] == c && s[1..] == b;
    TokenizeSep(s);
    assert Tokenize("") + [Sep(c)] == [Sep(c)];
  }

  /** Tokens on either side of a separator character do not influence each other. */
  lemma {:induction false} TokenizeAround(a: string, c: char, b: string)
    requires !IsWordChar(c)
    ensures Tokenize(a + [c] + b) == Tokenize(a) + [Sep(c)] + Tokenize(b)
    decreases |a|
  {
    if a == "" {
      TokenizeAtSep(c, b);
    } else if IsWordChar(a[0]) {
      var n := WordRun(a);
      TokenizeAround(a[n..], c, b);
      TokenizeWordAround(a, c, b, n);
    } else {
      TokenizeAround(a[1..], c, b);
      TokenizeSepAround(a, c, b);
    }
  }

  lemma WordRunUnique(s: string, n: nat)
    requires n <= |s| && (forall i :: 0 <= i < n ==> IsWordChar(s[i]))
    requires n < |s| ==> !IsWordChar(s[n])
    ensures WordRun(s) == n
  {
  }

  /** `\bword\b` at `i`: the text is there and no word character touches either end. */
  predicate WordAt(s: string, word: string, i: int) {
    OccursAt(s, word, i)
    && (i == 0 || !IsWordChar(s[i - 1]))
    && (i + |word| == |s| || !IsWordChar(s[i + |word|]))
  }

  /** The word-boundary search of the scripts finds a word exactly when it is one of the tokens. */
  lemma {:induction false} WordSearchIsTokenSearch(s: string, word: string)
    requires word != "" && All(word, IsWordChar)
    ensures (exists i :: WordAt(s, word, i)) <==> Word(word) in Tokenize(s)
    decreases |s|
  {
    if s != "" {
      var n := if IsWordChar(s[0]) then WordRun(s) else 1;
      var rest := s[n..];
      WordSearchIsTokenSearch(rest, word);
      forall i ensures WordAt(s, word, i) <==>
                       WordAt(rest, word, i - n) || (i == 0 && IsWordChar(s[0]) && s[..n] == word)
      {
        WordAtSplit(s, word, i, n);
      }
      if exists i :: WordAt(rest, word, i) {
        var i :| WordAt(rest, word, i);
        assert WordAt(s, word, (i + n));
      }
      if IsWordChar(s[0]) && s[..n] == word { assert WordAt(s, word, 0); }
    }
  }

  /** An occurrence either lies after the first token or is the first token. */
  lemma WordAtSplit(s: string, word: string, i: int, n: nat)
    requires word != "" && All(word, IsWordChar) && s != ""
    requires n == if IsWordChar(s[0]) then WordRun(s) else 1
    ensures WordAt(s, word, i) <==>
            WordAt(s[n..], word, i - n) || (i == 0 && IsWordChar(s[0]) && s[..n] == word)
  {
    if i >= n {
      WordAtAfter(s, word, i, n);
    } else if OccursAt(s, word, i) {
      WordAtWithin(s, word, i, n);
    }
  }

  lemma WordAtAfter(s: string, word: string, i: int, n: nat)
    requires word != "" && All(word, IsWordChar) && 0 < n <= |s| && i >= n
    requires n < |s| && IsWordChar(s[n]) ==> !IsWordChar(s[n - 1])
    ensures WordAt(s, word, i) <==> WordAt(s[n..], word, i - n)
  {
    if i + |word| <= |s| {
      assert s[n..][i - n..i - n + |word|] == s[i..i + |word|];
      if OccursAt(s, word, i) { assert s[i..i + |word|][0] == s[i]; }
    }
  }

  lemma WordAtWithin(s: string, word: string, i: int, n: nat)
    requires word != "" && All(word, IsWordChar) && s != ""
    requires n == if IsWordChar(s[0]) then WordRun(s) else 1
    requires i < n && OccursAt(s, word, i)
    ensures WordAt(s, word, i) <==> i == 0 && IsWordChar(s[0]) && s[..n] == word
  {
    forall k | i <= k < i + |word| ensures IsWordChar(s[k]) {
      assert s[k] == s[i..i + |word|][k - i];
    }
    assert IsWordChar(s[i]);
    if i == 0 && |word| == n { assert s[..n] == s[0..0 + |word|]; }
  }

  // ---------------------------------------------------------------------------------------------
  // Subsequences and substrings
  // ---------------------------------------------------------------------------------------------

  lemma ContainsWithin(s: string, t: string, sub: string, at: nat)
    requires at + |s| <= |t| && t[at..at + |s|] == s && Contains(s, sub)
    ensures Contains(t, sub)
  {
    var i :| 0 <= i <= |s| && OccursAt(s, sub, i);
    forall k | 0 <= k < |sub| ensures t[at + i..at + i + |sub|][k] == sub[k] {
      assert t[at..at + |s|][i + k] == s[i + k] == s[i..i + |sub|][k];
    }
    assert OccursAt(t, sub, at + i);
  }
}
