/**
 The AT-D12 freeze amendment: which frozen artifacts a binding record makes amendable, and the two
 shapes an amendment may take so that the historical content stays provable.
 */
module FreezeAmendment {
  import opened Wrappers
  import opened Text

  const DECISION_FIELD: string := "SUCCESSOR_FREEZE_AMENDMENT_DECISION"
  const RECORD_FIELD: string := "SUCCESSOR_FREEZE_AMENDMENT_RECORD"
  const MILESTONE_KEY: string := "AT_D12_SUCCESSOR_MILESTONE"
  const ARTIFACT_KEY: string := "AMENDABLE_FROZEN_ARTIFACT:"
  const LINE_MARKER: string := "# AT-D12-AMENDED"
  const NOTE_MARKER: string := "<!-- SUCCESSOR-NOTE-BEGIN: AT-D12 -->"

  datatype Mode = DeclaredLine | AppendedNote

  function Lf(s: string): string { ReplacePair(s, '\r', '\n', "\n") }

  lemma LfPair(s: string)
    requires |s| >= 2 && s[0] == '\r' && s[1] == '\n'
    ensures Lf(s) == "\n" + Lf(s[2..])
  {
  }

  lemma LfOther(s: string)
    requires s != "" && (|s| >= 2 ==> !(s[0] == '\r' && s[1] == '\n'))
    ensures Lf(s) == [s[0]] + Lf(s[1..])
  {
    if |s| == 1 { assert s == [s[0]] && s[1..] == ""; }
  }

  /** Every CR LF becomes LF, wherever it stands. */
  lemma {:induction false} LfReads(a: string, b: string)
    ensures Lf(a + ("\r\n" + b)) == Lf(a) + ("\n" + Lf(b))
    decreases |a|
  {
    var rest := "\r\n" + b;
    var s := a + rest;
    if a == "" {
      assert s == rest && s[2..] == b;
      LfPair(s);
    } else if |a| >= 2 && a[0] == '\r' && a[1] == '\n' {
      assert s[2..] == a[2..] + rest;
      LfPair(s);
      LfPair(a);
      LfReads(a[2..], b);
      ConcatAssociative("\n", Lf(a[2..]), "\n" + Lf(b));
    } else {
      assert s[1..] == a[1..] + rest && s[1] == (if |a| > 1 then a[1] else '\r');
      LfOther(s);
      LfOther(a);
      LfReads(a[1..], b);
      ConcatAssociative([a[0]], Lf(a[1..]), "\n" + Lf(b));
    }
  }

  /** And a text without CR LF stays as it is. */
  lemma {:induction false} LfStays(s: string)
    requires forall i :: 0 <= i < |s| - 1 ==> !(s[i] == '\r' && s[i + 1] == '\n')
    ensures Lf(s) == s
  {
    if |s| >= 2 {
      LfStays(s[1..]);
      assert s == [s[0]] + s[1..];
    }
  }

  /** So it is not idempotent: what is left of CR CR LF is CR LF. */
  lemma LfIsNotIdempotent()
    ensures Lf("\r\r\n") == "\r\n" && Lf("\r\n") == "\n"
  {
    LfReads("\r", "");
    LfReads("", "");
    assert "\r" + ("\r\n" + "") == "\r\r\n" && "" + ("\r\n" + "") == "\r\n";
    LfStays("\r");
    LfStays("");
  }

  // ---------------------------------------------------------------------------------------------
  // Subsequences of lines
  // ---------------------------------------------------------------------------------------------

  predicate Sub<T(==)>(a: seq<T>, b: seq<T>)
    decreases |b|
  {
    a == [] || (b != [] && ((a[0] == b[0] && Sub(a[1..], b[1..])) || Sub(a, b[1..])))
  }

  lemma {:induction false} SubConcat<T>(a: seq<T>, b: seq<T>, c: seq<T>, d: seq<T>)
    requires Sub(a, b) && Sub(c, d)
    ensures Sub(a + c, b + d)
    decreases |b|
  {
    if b == [] {
      assert a + c == c && b + d == d;
    } else {
      assert (b + d)[1..] == b[1..] + d && (b + d)[0] == b[0];
      if a != [] && a[0] == b[0] && Sub(a[1..], b[1..]) {
        SubConcat(a[1..], b[1..], c, d);
        assert (a + c)[1..] == a[1..] + c && (a + c)[0] == a[0];
      } else {
        SubConcat(a, b[1..], c, d);
      }
    }
  }

  lemma {:induction false} SubTransitive<T>(a: seq<T>, b: seq<T>, c: seq<T>)
    requires Sub(a, b) && Sub(b, c)
    ensures Sub(a, c)
    decreases |c|
  {
    if a != [] {
      if b[0] == c[0] && Sub(b[1..], c[1..]) {
        if a[0] == b[0] && Sub(a[1..], b[1..]) {
          SubTransitive(a[1..], b[1..], c[1..]);
        } else {
          SubTransitive(a, b[1..], c[1..]);
        }
      } else {
        SubTransitive(a, b, c[1..]);
      }
    }
  }

  lemma {:induction false} SubReflexive<T>(a: seq<T>)
    ensures Sub(a, a)
  {
    if a != [] { SubReflexive(a[1..]); }
  }

  predicate MarkedLine(line: string) { Contains(line, LINE_MARKER) }

  /** The lines that do not declare themselves as amended. */
  function Undeclared(lines: seq<string>): seq<string> {
    if lines == [] then []
    else (if MarkedLine(lines[0]) then [] else [lines[0]]) + Undeclared(lines[1..])
  }

  lemma {:induction false} UndeclaredConcat(a: seq<string>, b: seq<string>)
    ensures Undeclared(a + b) == Undeclared(a) + Undeclared(b)
  {
    if a == [] {
      assert a + b == b;
    } else {
      assert (a + b)[1..] == a[1..] + b;
      UndeclaredConcat(a[1..], b);
    }
  }

  lemma {:induction false} UndeclaredIsSub(a: seq<string>)
    ensures Sub(Undeclared(a), a)
  {
    if a != [] {
      UndeclaredIsSub(a[1..]);
      if MarkedLine(a[0]) {
        assert Undeclared(a) == Undeclared(a[1..]);
      } else {
        assert Undeclared(a)[1..] == Undeclared(a[1..]);
      }
    }
  }

  lemma {:induction false} AllMarkedIsEmpty(a: seq<string>)
    requires forall i :: 0 <= i < |a| ==> MarkedLine(a[i])
    ensures Undeclared(a) == []
  {
    if a != [] { AllMarkedIsEmpty(a[1..]); }
  }

  // ---------------------------------------------------------------------------------------------
  // Declared-line amendments
  // ---------------------------------------------------------------------------------------------

  /** One opcode of an edit script: old lines `i1..i2` against new lines `j1..j2`. */
  datatype Op = Op(equal: bool, i1: nat, i2: nat, j1: nat, j2: nat)

  /** The script covers both files from (i, j) to the end, and its equal blocks are equal. */
  predicate Tiles(ops: seq<Op>, was: seq<string>, now: seq<string>, i: nat, j: nat)
    decreases |ops|
  {
    i <= |was| && j <= |now| &&
    if ops == [] then i == |was| && j == |now|
    else
      var op := ops[0];
      op.i1 == i && op.j1 == j && i <= op.i2 <= |was| && j <= op.j2 <= |now|
      && (op.equal ==> was[i..op.i2] == now[j..op.j2])
      && Tiles(ops[1..], was, now, op.i2, op.j2)
  }

  datatype Refusal = Deletes(count: nat) | NetDeletes(removed: nat, added: nat) | UndeclaredLine(line: string)

  /** An opcode of a legal amendment: unchanged, or at least as many new lines as it removes, at
      least one, and every one of them declared. */
  predicate LegalOp(now: seq<string>, op: Op) {
    Bounded(now, op) &&
    (op.equal || (op.j1 < op.j2 && op.i2 - op.i1 <= op.j2 - op.j1
                  && forall k :: op.j1 <= k < op.j2 ==> MarkedLine(now[k])))
  }

  predicate Bounded(now: seq<string>, op: Op) { op.i1 <= op.i2 && op.j1 <= op.j2 <= |now| }

  predicate AcceptedScript(ops: seq<Op>, was: seq<string>, now: seq<string>) {
    Tiles(ops, was, now, 0, 0) && forall op :: op in ops ==> LegalOp(now, op)
  }

  lemma {:induction false} TilesAreBounded(ops: seq<Op>, was: seq<string>, now: seq<string>, i: nat, j: nat)
    requires Tiles(ops, was, now, i, j)
    ensures forall op :: op in ops ==> Bounded(now, op)
    decreases |ops|
  {
    if ops != [] { TilesAreBounded(ops[1..], was, now, ops[0].i2, ops[0].j2); }
  }

  /** The loop over the opcodes, with its early exits. */
  method DeclaredLineAmendment(was: seq<string>, now: seq<string>, ops: seq<Op>)
    returns (ok: bool, why: Option<Refusal>)
    requires Tiles(ops, was, now, 0, 0)
    ensures ok <==> AcceptedScript(ops, was, now)
    ensures ok <==> why.None?
  {
    TilesAreBounded(ops, was, now, 0, 0);
    for n := 0 to |ops|
      invariant forall op :: op in ops[..n] ==> LegalOp(now, op)
    {
      var op := ops[n];
      assert op in ops;
      if !op.equal {
        var added := now[op.j1..op.j2];
        if added == [] {
          assert !LegalOp(now, op);
          return false, Some(Deletes(op.i2 - op.i1));
        }
        if |added| < op.i2 - op.i1 {
          assert !LegalOp(now, op);
          return false, Some(NetDeletes(op.i2 - op.i1, |added|));
        }
        for k := op.j1 to op.j2
          invariant forall m :: op.j1 <= m < k ==> MarkedLine(now[m])
        {
          if !MarkedLine(now[k]) {
            assert !LegalOp(now, op);
            return false, Some(UndeclaredLine(now[k]));
          }
        }
      }
      assert ops[..n + 1] == ops[..n] + [op];
    }
    assert ops[..|ops|] == ops;
    return true, None;
  }

  /** The old lines a script leaves in place: its equal blocks. */
  function Kept(ops: seq<Op>, was: seq<string>): seq<string> {
    if ops == [] then []
    else (if ops[0].equal && ops[0].i1 <= ops[0].i2 <= |was| then was[ops[0].i1..ops[0].i2] else []) + Kept(ops[1..], was)
  }

  /** The new lines it brings in. */
  function Added(ops: seq<Op>, now: seq<string>): seq<string> {
    if ops == [] then []
    else (if !ops[0].equal && ops[0].j1 <= ops[0].j2 <= |now| then now[ops[0].j1..ops[0].j2] else [])
         + Added(ops[1..], now)
  }

  predicate AllMarked(lines: seq<string>) { forall i :: 0 <= i < |lines| ==> MarkedLine(lines[i]) }

  /** What an accepted script leaves between the two files. */
  predicate Keeps(kept: seq<string>, added: seq<string>, was: seq<string>, now: seq<string>) {
    Sub(kept, was) && Sub(kept, now) && Sub(Undeclared(now), kept)
    && AllMarked(added) && |now| == |kept| + |added| && |was| <= |now|
  }

  lemma KeepsConcat(
    k: seq<string>, a: seq<string>, o: seq<string>, n: seq<string>,
    k': seq<string>, a': seq<string>, o': seq<string>, n': seq<string>)
    requires Keeps(k, a, o, n) && Keeps(k', a', o', n')
    ensures Keeps(k + k', a + a', o + o', n + n')
  {
    SubConcat(k, o, k', o');
    SubConcat(k, n, k', n');
    UndeclaredConcat(n, n');
    SubConcat(Undeclared(n), k, Undeclared(n'), k');
  }

  lemma {:induction false} AcceptedFrom(ops: seq<Op>, was: seq<string>, now: seq<string>, i: nat, j: nat)
    requires Tiles(ops, was, now, i, j)
    requires forall op :: op in ops ==> LegalOp(now, op)
    ensures i <= |was| && j <= |now| && Keeps(Kept(ops, was), Added(ops, now), was[i..], now[j..])
    decreases |ops|
  {
    if ops != [] {
      var op := ops[0];
      assert op in ops;
      AcceptedFrom(ops[1..], was, now, op.i2, op.j2);
      var o, n := was[i..op.i2], now[j..op.j2];
      assert was[i..] == o + was[op.i2..] && now[j..] == n + now[op.j2..];
      OneOpKeeps(op.equal, o, n);
      KeepsConcat(if op.equal then o else [], if op.equal then [] else n, o, n,
                  Kept(ops[1..], was), Added(ops[1..], now), was[op.i2..], now[op.j2..]);
    }
  }

  lemma OneOpKeeps(equal: bool, o: seq<string>, n: seq<string>)
    requires if equal then o == n else |o| <= |n| && AllMarked(n)
    ensures Keeps(if equal then o else [], if equal then [] else n, o, n)
  {
    if equal {
      SubReflexive(o);
      UndeclaredIsSub(o);
    } else {
      AllMarkedIsEmpty(n);
    }
  }

  /** For every valid edit script, an accepted declared-line amendment keeps its equal blocks as a
      subsequence of both files, every line of the new file that does not declare itself is one of
      those, every line it adds is declared, and it loses no more lines than it adds. */
  lemma DeclaredAmendmentPreservesHistory(ops: seq<Op>, was: seq<string>, now: seq<string>)
    requires AcceptedScript(ops, was, now)
    ensures Sub(Undeclared(now), Kept(ops, was)) && Sub(Kept(ops, was), was) && Sub(Kept(ops, was), now)
    ensures AllMarked(Added(ops, now)) && |now| == |Kept(ops, was)| + |Added(ops, now)|
    ensures |was| <= |now| && |was| - |Kept(ops, was)| <= |Added(ops, now)|
    ensures Sub(Undeclared(now), was)
  {
    AcceptedFrom(ops, was, now, 0, 0);
    assert was[0..] == was && now[0..] == now;
    SubTransitive(Undeclared(now), Kept(ops, was), was);
  }

  // ---------------------------------------------------------------------------------------------
  // Amendments as matchings, and chains of amendments
  // ---------------------------------------------------------------------------------------------

  /** For each new line, the old line it is, if any. */
  type Matching = seq<Option<nat>>

  predicate MatchedAt(source: Option<nat>, was: seq<string>, now: seq<string>, k: nat)
    requires k < |now|
  {
    match source
    case Some(i) => i < |was| && was[i] == now[k] && i <= k && |was| - i <= |now| - k
    case None => MarkedLine(now[k])
  }

  /** Matched lines are equal and in order, everything else is declared, and no gap between matched
      lines, or at either end, has shrunk. */
  predicate Matches(m: Matching, was: seq<string>, now: seq<string>) {
    && |m| == |now| && |was| <= |now|
    && (forall k :: 0 <= k < |m| ==> MatchedAt(m[k], was, now, k))
    && (forall k, l :: 0 <= k < l < |m| && m[k].Some? && m[l].Some? ==> 0 < m[l].value - m[k].value <= l - k)
  }

  function Through(first: Matching, second: Matching): (m: Matching)
    ensures |m| == |second|
    ensures forall k :: 0 <= k < |m| ==>
              m[k] == if second[k].Some? && second[k].value < |first| then first[second[k].value] else None
  {
    seq(|second|, k requires 0 <= k < |second| =>
      if second[k].Some? && second[k].value < |first| then first[second[k].value] else None)
  }

  /** Matchings compose: gaps that do not shrink in either step do not shrink in both. */
  lemma MatchingsCompose(m: Matching, m': Matching, a: seq<string>, b: seq<string>, c: seq<string>)
    requires Matches(m, a, b) && Matches(m', b, c)
    ensures Matches(Through(m, m'), a, c)
  {
    var both := Through(m, m');
    forall k | 0 <= k < |both| ensures MatchedAt(both[k], a, c, k) {
      assert MatchedAt(m'[k], b, c, k);
      if m'[k].Some? { assert MatchedAt(m[m'[k].value], a, b, m'[k].value); }
    }
    forall k, l | 0 <= k < l < |both| && both[k].Some? && both[l].Some?
      ensures 0 < both[l].value - both[k].value <= l - k
    {
      assert MatchedAt(m'[k], b, c, k) && MatchedAt(m'[l], b, c, l);
      var i, j := m'[k].value, m'[l].value;
      assert both[k] == m[i] && both[l] == m[j] && i < j;
    }
  }

  function Shifted(m: Matching, offset: nat): (r: Matching)
    ensures |r| == |m|
    ensures forall k :: 0 <= k < |m| ==> r[k] == if m[k].Some? then Some(m[k].value + offset) else None
  {
    seq(|m|, k requires 0 <= k < |m| => if m[k].Some? then Some(m[k].value + offset) else None)
  }

  lemma MatchedConcat(
    m: Matching, o: seq<string>, n: seq<string>, m': Matching, o': seq<string>, n': seq<string>, k: nat)
    requires Matches(m, o, n) && Matches(m', o', n') && k < |m| + |m'|
    ensures MatchedAt((m + Shifted(m', |o|))[k], o + o', n + n', k)
  {
    if k < |m| { assert MatchedAt(m[k], o, n, k); } else { assert MatchedAt(m'[k - |m|], o', n', k - |m|); }
  }

  lemma OrderedConcat(
    m: Matching, o: seq<string>, n: seq<string>, m': Matching, o': seq<string>, n': seq<string>, k: nat, l: nat)
    requires Matches(m, o, n) && Matches(m', o', n') && k < l < |m| + |m'|
    requires var all := m + Shifted(m', |o|); all[k].Some? && all[l].Some?
    ensures var all := m + Shifted(m', |o|); 0 < all[l].value - all[k].value <= l - k
  {
    if k < |m| <= l {
      assert MatchedAt(m[k], o, n, k) && MatchedAt(m'[l - |m|], o', n', l - |m|);
    } else if k >= |m| {
      assert m'[k - |m|].Some? && m'[l - |m|].Some?;
    }
  }

  lemma MatchesConcat(m: Matching, o: seq<string>, n: seq<string>, m': Matching, o': seq<string>, n': seq<string>)
    requires Matches(m, o, n) && Matches(m', o', n')
    ensures Matches(m + Shifted(m', |o|), o + o', n + n')
  {
    var all := m + Shifted(m', |o|);
    forall k: nat | k < |all| ensures MatchedAt(all[k], o + o', n + n', k) { MatchedConcat(m, o, n, m', o', n', k); }
    forall k: nat, l: nat | k < l < |all| && all[k].Some? && all[l].Some?
      ensures 0 < all[l].value - all[k].value <= l - k
    {
      OrderedConcat(m, o, n, m', o', n', k, l);
    }
  }

  function Identity(n: nat): (m: Matching)
    ensures |m| == n && forall k :: 0 <= k < n ==> m[k] == Some(k)
  {
    seq(n, k requires 0 <= k => Some(k))
  }

  function Nothing(n: nat): (m: Matching)
    ensures |m| == n && forall k :: 0 <= k < n ==> m[k] == None
  {
    seq(n, k requires 0 <= k => None)
  }

  /** Every accepted script is a matching. */
  lemma {:induction false} ScriptMatches(ops: seq<Op>, was: seq<string>, now: seq<string>, i: nat, j: nat)
    returns (m: Matching)
    requires Tiles(ops, was, now, i, j)
    requires forall op :: op in ops ==> LegalOp(now, op)
    ensures i <= |was| && j <= |now| && Matches(m, was[i..], now[j..])
    decreases |ops|
  {
    if ops == [] {
      m := [];
    } else {
      var op := ops[0];
      assert op in ops;
      var rest := ScriptMatches(ops[1..], was, now, op.i2, op.j2);
      var o, n := was[i..op.i2], now[j..op.j2];
      assert was[i..] == o + was[op.i2..] && now[j..] == n + now[op.j2..];
      var first := if op.equal then Identity(|n|) else Nothing(|n|);
      assert Matches(first, o, n);
      MatchesConcat(first, o, n, rest, was[op.i2..], now[op.j2..]);
      m := first + Shifted(rest, |o|);
    }
  }

  /** Where a script for the rest may start: nothing matched is behind, and the rest has not shrunk. */
  predicate Level(m: Matching, was: seq<string>, now: seq<string>, i: nat, j: nat) {
    && Matches(m, was, now) && i <= |was| && j <= |now| && |was| - i <= |now| - j
    && forall k :: j <= k < |m| && m[k].Some? ==> 0 <= m[k].value - i <= k - j
  }

  /** The next matched line at or after `j`, or the end. */
  lemma NextMatched(m: Matching, j: nat) returns (k: nat)
    requires j <= |m|
    ensures j <= k <= |m| && (k < |m| ==> m[k].Some?) && forall x :: j <= x < k ==> m[x].None?
    decreases |m| - j
  {
    if j == |m| || m[j].Some? { k := j; } else { k := NextMatched(m, j + 1); }
  }

  lemma GapIsLegal(m: Matching, was: seq<string>, now: seq<string>, gap: Op)
    requires Matches(m, was, now) && !gap.equal && gap.i1 <= gap.i2 && gap.j1 < gap.j2 <= |now|
    requires gap.i2 - gap.i1 <= gap.j2 - gap.j1 && forall x :: gap.j1 <= x < gap.j2 ==> m[x].None?
    ensures LegalOp(now, gap)
  {
    forall x | gap.j1 <= x < gap.j2 ensures MarkedLine(now[x]) { assert MatchedAt(m[x], was, now, x); }
  }

  lemma LevelAfter(m: Matching, was: seq<string>, now: seq<string>, k: nat)
    requires Matches(m, was, now) && k < |m| && m[k].Some?
    ensures Level(m, was, now, m[k].value + 1, k + 1) && was[m[k].value] == now[k]
  {
    assert MatchedAt(m[k], was, now, k);
  }

  /** And every matching is an accepted script. */
  lemma {:induction false} MatchingScript(m: Matching, was: seq<string>, now: seq<string>, i: nat, j: nat)
    returns (ops: seq<Op>)
    requires Level(m, was, now, i, j)
    ensures Tiles(ops, was, now, i, j) && forall op :: op in ops ==> LegalOp(now, op)
    decreases |now| - j
  {
    var k := NextMatched(m, j);
    if j == |now| {
      ops := [];
    } else if k == |m| {
      var gap := Op(false, i, |was|, j, |now|);
      ops := [gap];
      assert ops[1..] == [];
      GapIsLegal(m, was, now, gap);
    } else {
      var v := m[k].value;
      LevelAfter(m, was, now, k);
      var rest := MatchingScript(m, was, now, v + 1, k + 1);
      var same := Op(true, v, v + 1, k, k + 1);
      assert was[v] == now[k] && was[v..v + 1] == [was[v]] && now[k..k + 1] == [now[k]];
      ops := [same] + rest;
      assert ops[1..] == rest;
      if k > j {
        var gap := Op(false, i, v, j, k);
        GapIsLegal(m, was, now, gap);
        ops := [gap] + ([same] + rest);
        assert ops[1..] == [same] + rest;
      }
    }
  }

  /** One file is an acceptable amendment of another, by some valid script, exactly when a matching
      joins them. */
  lemma AmendableExactlyWhenMatched(was: seq<string>, now: seq<string>)
    ensures (exists ops :: AcceptedScript(ops, was, now)) <==> exists m :: Matches(m, was, now)
  {
    if ops :| AcceptedScript(ops, was, now) {
      var m := ScriptMatches(ops, was, now, 0, 0);
      assert was[0..] == was && now[0..] == now;
    }
    if m :| Matches(m, was, now) {
      var ops := MatchingScript(m, was, now, 0, 0);
      assert AcceptedScript(ops, was, now);
    }
  }

  /** Versions of one file, each an accepted amendment of the one before. */
  predicate AmendmentChain(versions: seq<seq<string>>, scripts: seq<seq<Op>>) {
    |versions| == |scripts| + 1
    && forall i :: 0 <= i < |scripts| ==> AcceptedScript(scripts[i], versions[i], versions[i + 1])
  }

  lemma {:induction false} ChainMatches(versions: seq<seq<string>>, scripts: seq<seq<Op>>) returns (m: Matching)
    requires AmendmentChain(versions, scripts)
    ensures Matches(m, versions[0], versions[|scripts|])
    decreases |scripts|
  {
    var n := |scripts|;
    if n == 0 {
      m := Identity(|versions[0]|);
    } else {
      var front := ChainMatches(versions[..n], scripts[..n - 1]);
      var last := ScriptMatches(scripts[n - 1], versions[n - 1], versions[n], 0, 0);
      assert versions[n - 1][0..] == versions[n - 1] && versions[n][0..] == versions[n];
      MatchingsCompose(front, last, versions[0], versions[n - 1], versions[n]);
      m := Through(front, last);
    }
  }

  /** However many amendments are stacked, the result is an acceptable amendment of the original, so
      what does not declare itself is still history and the file has not shrunk. */
  lemma ChainIsOneAmendment(versions: seq<seq<string>>, scripts: seq<seq<Op>>) returns (ops: seq<Op>)
    requires AmendmentChain(versions, scripts)
    ensures AcceptedScript(ops, versions[0], versions[|scripts|])
    ensures Sub(Undeclared(versions[|scripts|]), versions[0]) && |versions[0]| <= |versions[|scripts|]|
  {
    var m := ChainMatches(versions, scripts);
    ops := MatchingScript(m, versions[0], versions[|scripts|], 0, 0);
    DeclaredAmendmentPreservesHistory(ops, versions[0], versions[|scripts|]);
  }

  // ---------------------------------------------------------------------------------------------
  // Appended-note amendments
  // ---------------------------------------------------------------------------------------------

  predicate AppendedNoteAmendment(historical: string, current: string) {
    var was, now := Lf(historical), Lf(current);
    was <= now && Contains(now[|was|..], NOTE_MARKER)
  }

  /** Accepted exactly when the new text is the old text, anything, the marker, and anything. */
  lemma AppendedExactlyWhen(historical: string, current: string)
    ensures AppendedNoteAmendment(historical, current) <==>
            exists between, tail :: Lf(current) == Lf(historical) + between + NOTE_MARKER + tail
  {
    AppendedShape(Lf(historical), Lf(current), NOTE_MARKER);
  }

  lemma AppendedShape(was: string, now: string, marker: string)
    ensures was <= now && Contains(now[|was|..], marker) <==>
            exists between, tail :: now == was + between + marker + tail
  {
    if was <= now && Contains(now[|was|..], marker) {
      var rest := now[|was|..];
      var i :| 0 <= i <= |rest| && OccursAt(rest, marker, i);
      SplitAround(rest, marker, i);
      assert now == was + rest[..i] + marker + rest[i + |marker|..];
    }
    if exists between, tail :: now == was + between + marker + tail {
      var between, tail :| now == was + between + marker + tail;
      MarkerAfter(was, between, marker, tail);
    }
  }

  /** The note opens with the marker exactly when the marker stands right after the old text. */
  predicate OpensWithMarker(historical: string, current: string) {
    Lf(historical) <= Lf(current) && NOTE_MARKER <= Lf(current)[|Lf(historical)|..]
  }

  lemma OpensExactlyWhen(historical: string, current: string)
    ensures OpensWithMarker(historical, current) <==>
            AppendedNoteAmendment(historical, current) && Lf(historical) + NOTE_MARKER <= Lf(current)
  {
    MarkerFirst(Lf(historical), Lf(current), NOTE_MARKER);
  }

  lemma MarkerFirst(was: string, now: string, marker: string)
    ensures was <= now && marker <= now[|was|..] <==> was + marker <= now
    ensures was + marker <= now ==> Contains(now[|was|..], marker)
  {
    if was <= now && marker <= now[|was|..] { assert now == was + now[|was|..]; }
    if was + marker <= now {
      assert now[|was|..][0..0 + |marker|] == marker;
      assert OccursAt(now[|was|..], marker, 0);
    }
  }

  /** A note with text before its marker is accepted although it does not open with it. */
  lemma TextBeforeMarkerIsAccepted()
    ensures var current := "x" + NOTE_MARKER;
            AppendedNoteAmendment("", current) && !OpensWithMarker("", current)
  {
    var current := "x" + NOTE_MARKER;
    NoteIsPlain();
    LfOfPlain(current);
    assert Lf("") == "" && current[0..] == current;
    assert current[1..1 + |NOTE_MARKER|] == NOTE_MARKER;
    assert OccursAt(current, NOTE_MARKER, 1);
    assert current[0] == 'x' && NOTE_MARKER[0] == '<';
  }

  lemma NoteIsPlain()
    ensures '\r' !in "x" + NOTE_MARKER
  {
  }

  lemma {:induction false} LfOfPlain(s: string)
    requires '\r' !in s
    ensures Lf(s) == s
  {
    if |s| >= 2 {
      LfOfPlain(s[1..]);
      assert s == [s[0]] + s[1..];
    }
  }

  lemma SplitAround(s: string, sub: string, i: nat)
    requires OccursAt(s, sub, i)
    ensures s == s[..i] + sub + s[i + |sub|..]
  {
  }

  lemma MarkerAfter(was: string, between: string, marker: string, tail: string)
    ensures var now := was + between + marker + tail;
            was <= now && Contains(now[|was|..], marker)
  {
    var now := was + between + marker + tail;
    var rest := now[|was|..];
    assert rest == between + marker + tail;
    assert OccursAt(rest, marker, |between|);
  }

  /** A chain of accepted appended notes is itself an accepted amendment of the original. */
  lemma {:induction false} AppendedNotesCompose(versions: seq<string>)
    requires |versions| >= 2
    requires forall i :: 0 <= i < |versions| - 1 ==> AppendedNoteAmendment(versions[i], versions[i + 1])
    ensures AppendedNoteAmendment(versions[0], versions[|versions| - 1])
    decreases |versions|
  {
    var n := |versions| - 1;
    if n > 1 {
      AppendedNotesCompose(versions[..n]);
      AppendedTwice(Lf(versions[0]), Lf(versions[n - 1]), Lf(versions[n]));
    }
  }

  lemma AppendedTwice(a: string, b: string, c: string)
    requires a <= b <= c && Contains(b[|a|..], NOTE_MARKER)
    ensures a <= c && Contains(c[|a|..], NOTE_MARKER)
  {
    assert c[|a|..][0..0 + |b[|a|..]|] == b[|a|..];
    ContainsWithin(b[|a|..], c[|a|..], NOTE_MARKER, 0);
  }

  function CountChar(s: string, c: char): nat {
    if s == "" then 0 else (if s[0] == c then 1 else 0) + CountChar(s[1..], c)
  }

  lemma {:induction false} CountCharConcat(a: string, b: string, c: char)
    ensures CountChar(a + b, c) == CountChar(a, c) + CountChar(b, c)
  {
    if a == "" {
      assert a + b == b;
    } else {
      assert (a + b)[1..] == a[1..] + b;
      CountCharConcat(a[1..], b, c);
    }
  }

  lemma {:induction false} NoneCounted(s: string, c: char)
    requires forall i :: 0 <= i < |s| ==> s[i] != c
    ensures CountChar(s, c) == 0
  {
    if s != "" { NoneCounted(s[1..], c); }
  }

  lemma {:induction false} SplitCounts(s: string, c: char)
    ensures |Split(s, c)| == 1 + CountChar(s, c)
    decreases |s|
  {
    var n := IndexOf(s, c);
    if n == |s| {
      NoneCounted(s, c);
    } else {
      SplitCounts(s[n + 1..], c);
      NoneCounted(s[..n], c);
      assert s == s[..n] + ([c] + s[n + 1..]);
      CountCharConcat(s[..n], [c] + s[n + 1..], c);
    }
  }

  lemma PrefixHasFewerLines(a: string, b: string)
    requires a <= b
    ensures |Lines(a)| <= |Lines(b)|
  {
    assert b == a + b[|a|..];
    CountCharConcat(a, b[|a|..], '\n');
    SplitCounts(a, '\n');
    SplitCounts(b, '\n');
  }
}
