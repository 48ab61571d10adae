/**
 The validator from the env file to the exit code: how a file is read, how it overrides the process
 environment, and what that means for the verdict and for the secrecy of values.
 */
module EnvFile {
  import opened Wrappers
  import opened Text
  import opened RuntimeConfig
  import opened ConfigReport
  import opened ConfigGuarantees
  import opened ConfigSecrecy

  // ---------------------------------------------------------------------------------------------
  // Reading a file
  // ---------------------------------------------------------------------------------------------

  datatype Binding = Binding(name: string, value: string)

  /** What a line assigns, if it does. */
  function Assignment(raw: string): Option<Binding> {
    var line := Strip(raw);
    var n := IndexOf(line, '=');
    if line == "" || line[0] == '#' || n == |line| then None
    else Some(Binding(Strip(line[..n]), Strip(line[n + 1..])))
  }

  /** A line `k=v` whose name holds no equals sign and is no comment assigns the stripped value to the
      stripped name. */
  lemma AssignmentReads(k: string, v: string)
    requires '=' !in k && Strip(k + ("=" + v)) != "" && Strip(k + ("=" + v))[0] != '#'
    ensures Assignment(k + ("=" + v)) == Some(Binding(Strip(k), Strip(v)))
  {
    var a, b := LStrip(k), RStrip(v);
    StripAround(k, v);
    var line := a + ("=" + b);
    NoEqualsLeft(k);
    assert line[|a|] == '=' && forall i :: 0 <= i < |a| ==> line[i] == a[i];
    FirstEquals(a, b);
    AssignmentIs(k + ("=" + v), a, b);
    StripOfStripped(k, v);
  }

  lemma StripAroundFrom(pre: string, a: string, b: string, behind: string)
    requires Blank(pre) && Blank(behind) && (a == "" || !IsSpace(a[0])) && (b == "" || !IsSpace(b[|b| - 1]))
    ensures Strip((pre + a) + ("=" + (b + behind))) == a + ("=" + b)
  {
    var mid := a + ("=" + b);
    assert (pre + a) + ("=" + (b + behind)) == pre + (mid + behind);
    assert mid[0] == if a == "" then '=' else a[0];
    assert mid[|mid| - 1] == if b == "" then '=' else b[|b| - 1];
    TrimBoth(pre, mid, behind, IsSpace);
  }

  /** The left side keeps its right end and the right side its left one. */
  lemma StripAround(k: string, v: string)
    ensures Strip(k + ("=" + v)) == LStrip(k) + ("=" + RStrip(v))
  {
    var pre := LTrimParts(k, IsSpace);
    var behind := RTrimParts(v, IsSpace);
    StripAroundFrom(pre, LStrip(k), RStrip(v), behind);
  }

  lemma NoEqualsLeft(k: string)
    requires '=' !in k
    ensures '=' !in LStrip(k)
  {
    var pre := LTrimParts(k, IsSpace);
    assert '=' in LStrip(k) ==> '=' in pre + LStrip(k);
  }

  lemma FirstEquals(a: string, b: string)
    requires '=' !in a
    ensures var line := a + ("=" + b); IndexOf(line, '=') == |a| && line[..|a|] == a && line[|a| + 1..] == b
  {
    var line := a + ("=" + b);
    assert line[|a|] == '=' && forall i :: 0 <= i < |a| ==> line[i] == a[i];
    IndexIs(line, '=', |a|);
  }

  lemma AssignmentIs(raw: string, a: string, b: string)
    requires '=' !in a && Strip(raw) == a + ("=" + b) && Strip(raw)[0] != '#'
    ensures Assignment(raw) == Some(Binding(Strip(a), Strip(b)))
  {
    FirstEquals(a, b);
  }

  lemma StripOfStripped(k: string, v: string)
    ensures Strip(LStrip(k)) == Strip(k) && Strip(RStrip(v)) == Strip(v)
  {
    LTrimStays(LStrip(k), IsSpace);
    var behind := RTrimParts(v, IsSpace);
    StripDropsBehind(RStrip(v), behind);
  }

  lemma StripDropsFrom(pre: string, mid: string, post: string, behind: string)
    requires Blank(pre) && Blank(post) && Blank(behind)
    requires mid != "" ==> !IsSpace(mid[0]) && !IsSpace(mid[|mid| - 1])
    ensures Strip((pre + mid + post) + behind) == mid
  {
    var s := (pre + mid + post) + behind;
    if mid == "" {
      assert Blank(s);
      BlankIffStripEmpty(s);
    } else {
      assert s == pre + (mid + (post + behind));
      TrimBoth(pre, mid, post + behind, IsSpace);
    }
  }

  lemma StripDropsBehind(s: string, behind: string)
    requires Blank(behind)
    ensures Strip(s + behind) == Strip(s)
  {
    var pre, post := TrimParts(s, IsSpace);
    StripEnds(s);
    StripDropsFrom(pre, Strip(s), post, behind);
  }

  /** A blank line, a comment and a line without an equals sign assign nothing. */
  lemma NothingAssigned(raw: string)
    requires Blank(raw) || (Strip(raw) != "" && Strip(raw)[0] == '#') || '=' !in raw
    ensures Assignment(raw) == None
  {
    BlankIffStripEmpty(raw);
    if '=' !in raw {
      var pre, post := TrimParts(raw, IsSpace);
      assert '=' in Strip(raw) ==> '=' in pre + Strip(raw) + post;
    }
  }

  function Parsed(parse: string -> Option<Binding>, lines: seq<string>): (bs: seq<Option<Binding>>)
    ensures |bs| == |lines| && forall i :: 0 <= i < |lines| ==> bs[i] == parse(lines[i])
  {
    seq(|lines|, i requires 0 <= i < |lines| => parse(lines[i]))
  }

  function Assignments(lines: seq<string>): seq<Option<Binding>> { Parsed(Assignment, lines) }

  predicate Binds(bs: seq<Option<Binding>>, i: int, name: string) {
    0 <= i < |bs| && bs[i].Some? && bs[i].value.name == name
  }

  predicate LastBinds(bs: seq<Option<Binding>>, i: int, name: string) {
    Binds(bs, i, name) && forall j :: i < j < |bs| ==> !Binds(bs, j, name)
  }

  function Folded(bs: seq<Option<Binding>>): Env {
    if bs == [] then map[]
    else
      var front, b := Folded(bs[..|bs| - 1]), bs[|bs| - 1];
      if b.Some? then front[b.value.name := b.value.value] else front
  }

  /** The loop over the lines of an env file. */
  method LoadEnvFile(lines: seq<string>) returns (out: Env)
    ensures out == Folded(Assignments(lines))
  {
    out := LoadLines(Assignment, lines);
  }

  method LoadLines(parse: string -> Option<Binding>, lines: seq<string>) returns (out: Env)
    ensures out == Folded(Parsed(parse, lines))
  {
    ghost var bs := Parsed(parse, lines);
    out := map[];
    for n := 0 to |lines|
      invariant out == Folded(bs[..n])
    {
      assert bs[..n + 1][..n] == bs[..n];
      var a := parse(lines[n]);
      if a.Some? {
        out := out[a.value.name := a.value.value];
      }
    }
    assert bs[..|lines|] == bs;
  }

  /** A name is set exactly when some line assigns it. */
  lemma {:induction false} SetExactlyWhenAssigned(bs: seq<Option<Binding>>, name: string)
    ensures name in Folded(bs) <==> exists i :: Binds(bs, i, name)
  {
    if bs != [] {
      var n := |bs| - 1;
      var front := bs[..n];
      SetExactlyWhenAssigned(front, name);
      if i :| Binds(front, i, name) { assert Binds(bs, i, name); }
      if i :| Binds(bs, i, name) && i < n { assert Binds(front, i, name); }
      if bs[n].Some? && bs[n].value.name == name { assert Binds(bs, n, name); }
    }
  }

  /** And then the last such line decides its value. */
  lemma {:induction false} LastAssignmentWins(bs: seq<Option<Binding>>, i: nat, name: string)
    requires LastBinds(bs, i, name)
    ensures name in Folded(bs) && Folded(bs)[name] == bs[i].value.value
  {
    var n := |bs| - 1;
    if i < n {
      var front := bs[..n];
      assert !Binds(bs, n, name);
      forall j | i < j < |front| ensures !Binds(front, j, name) { assert !Binds(bs, j, name); }
      LastAssignmentWins(front, i, name);
    }
  }

  /** The env file takes precedence over the process environment. */
  function GatherEnv(process: Env, file: Option<Env>): (env: Env)
    ensures file.Some? ==> forall k :: k in file.value ==> k in env && env[k] == file.value[k]
    ensures forall k :: k in process && (file.None? || k !in file.value) ==> k in env && env[k] == process[k]
    ensures env.Keys == process.Keys + (if file.Some? then file.value.Keys else {})
  {
    match file case Some(f) => process + f case None => process
  }

  // ---------------------------------------------------------------------------------------------
  // From the file to the verdict
  // ---------------------------------------------------------------------------------------------

  /** The environment a run sees: the process environment, overridden by the file if one is given. */
  function EnvOf(process: Env, file: Option<seq<string>>): Env {
    GatherEnv(process, match file case Some(lines) => Some(Folded(Assignments(lines))) case None => None)
  }

  /** `main`: the exit code is 0 exactly when the mode passes, and the text is that of the report. */
  method Validate(mode: Mode, process: Env, file: Option<seq<string>>) returns (text: string, exit: int)
    ensures text == RenderText(Evaluation(mode, EnvOf(process, file)))
    ensures exit == if Passes(EnvOf(process, file), mode) then 0 else 1
  {
    var loaded: Option<Env> := None;
    if file.Some? {
      var values := LoadEnvFile(file.value);
      loaded := Some(values);
    }
    var env := GatherEnv(process, loaded);
    var report := Evaluate(mode, env);
    text := RenderText(report.Observed());
    exit := if Passed(report.findings) then 0 else 1;
  }

  /** Line `i` is the last of the file to set `name`, and sets it to `value`: it reads `k=v` with
      nothing but white space around the two, and no later line assigns the name. */
  ghost predicate LastSets(lines: seq<string>, i: nat, name: string, value: string) {
    && i < |lines| && SetsOn(lines[i], name, value)
    && forall j :: i < j < |lines| ==> forall x :: !SetsOn(lines[j], name, x)
  }

  /** The line is `k=v`, is no comment, and `name` and `value` are its two sides, stripped. */
  ghost predicate SetsOn(line: string, name: string, value: string) {
    exists k, v :: line == k + ("=" + v) && '=' !in k && Strip(line) != "" && Strip(line)[0] != '#'
      && name == Strip(k) && value == Strip(v)
  }

  lemma SetsIsAssignment(line: string, name: string, value: string)
    ensures SetsOn(line, name, value) <==> Assignment(line) == Some(Binding(name, value))
  {
    if k, v :| line == k + ("=" + v) && '=' !in k && Strip(line) != "" && Strip(line)[0] != '#'
                && name == Strip(k) && value == Strip(v) {
      AssignmentReads(k, v);
    }
    if Assignment(line) == Some(Binding(name, value)) {
      AssignedLine(line);
      var k, v :| line == k + ("=" + v) && '=' !in k;
      AssignmentReads(k, v);
    }
  }

  /** A line that assigns is no comment and splits at its first equals sign. */
  lemma AssignedLine(line: string)
    requires Assignment(line).Some?
    ensures Strip(line) != "" && Strip(line)[0] != '#' && exists k, v :: line == k + ("=" + v) && '=' !in k
  {
    AssignedHasEquals(line);
    var k, v := SplitsAtEquals(line);
  }

  lemma AssignedHasEquals(line: string)
    requires Assignment(line).Some?
    ensures Strip(line) != "" && Strip(line)[0] != '#' && '=' in line
  {
    if '=' !in line { NothingAssigned(line); }
  }

  lemma SplitsAtEquals(line: string) returns (k: string, v: string)
    requires '=' in line
    ensures line == k + ("=" + v) && '=' !in k
  {
    var n := IndexOf(line, '=');
    k, v := line[..n], line[n + 1..];
    SplitAt(line, n);
  }

  lemma SplitAt(line: string, n: nat)
    requires n < |line| && line[n] == '='
    ensures line == line[..n] + ("=" + line[n + 1..])
  {
  }

  lemma LastSetsBinds(lines: seq<string>, i: nat, name: string, value: string)
    requires LastSets(lines, i, name, value)
    ensures LastBinds(Assignments(lines), i, name) && Assignments(lines)[i].value.value == value
  {
    SetsIsAssignment(lines[i], name, value);
    forall j | i < j < |lines| ensures !Binds(Assignments(lines), j, name) {
      if Binds(Assignments(lines), j, name) {
        SetsIsAssignment(lines[j], name, Assignments(lines)[j].value.value);
      }
    }
  }

  /** A name is set by the file exactly when some line sets it. */
  lemma FileSetsExactly(lines: seq<string>, name: string)
    ensures name in Folded(Assignments(lines)) <==> exists i: nat, value :: i < |lines| && SetsOn(lines[i], name, value)
  {
    var bs := Assignments(lines);
    SetExactlyWhenAssigned(bs, name);
    if i :| Binds(bs, i, name) { SetsIsAssignment(lines[i], name, bs[i].value.value); }
    if i: nat, value :| i < |lines| && SetsOn(lines[i], name, value) {
      SetsIsAssignment(lines[i], name, value);
      assert Binds(bs, i, name);
    }
  }

  /** The last line of the file that sets a variable decides what the checks read, whatever the
      process environment says. */
  lemma FileDecides(process: Env, lines: seq<string>, i: nat, k: Key, value: string)
    requires LastSets(lines, i, Name(k), value)
    ensures Get(EnvOf(process, Some(lines)), k) == value
  {
    LastSetsBinds(lines, i, Name(k), value);
    LastAssignmentWins(Assignments(lines), i, Name(k));
  }

  /** So a file whose last word on the provider is not Vault cannot pass production-check. */
  lemma FileCanForbidProduction(process: Env, lines: seq<string>, i: nat, value: string)
    requires LastSets(lines, i, "SECRET_PROVIDER", value) && Lower(value) != "vault"
    ensures !Passes(EnvOf(process, Some(lines)), ProductionCheck)
  {
    ProviderIsSpelled();
    FileForbids(process, lines, i, "SECRET_PROVIDER", value);
  }

  lemma ProviderIsSpelled()
    ensures Name(SECRET_PROVIDER) == "SECRET_PROVIDER"
  {
  }

  lemma FileForbids(process: Env, lines: seq<string>, i: nat, name: string, value: string)
    requires name == Name(SECRET_PROVIDER) && LastSets(lines, i, name, value) && Lower(value) != "vault"
    ensures !Passes(EnvOf(process, Some(lines)), ProductionCheck)
  {
    var env := ValueFromFile(process, lines, i, SECRET_PROVIDER, value);
    ProductionNeedsVault(env, value);
  }

  lemma ValueFromFile(process: Env, lines: seq<string>, i: nat, k: Key, value: string) returns (env: Env)
    requires LastSets(lines, i, Name(k), value)
    ensures env == EnvOf(process, Some(lines)) && Get(env, k) == value && Strip(value) == value
  {
    env := EnvOf(process, Some(lines));
    FileDecides(process, lines, i, k, value);
    SetIsStripped(lines[i], Name(k), value);
  }

  lemma ProductionNeedsVault(env: Env, value: string)
    requires Get(env, SECRET_PROVIDER) == value && Strip(value) == value && Lower(value) != "vault"
    ensures !Passes(env, ProductionCheck)
  {
    if Passes(env, ProductionCheck) { ProductionPassMeansReal(env); }
  }

  lemma SetIsStripped(line: string, name: string, value: string)
    requires SetsOn(line, name, value)
    ensures Strip(value) == value
  {
    var k, v :| line == k + ("=" + v) && '=' !in k && Strip(line) != "" && Strip(line)[0] != '#'
      && name == Strip(k) && value == Strip(v);
    StripTwice(v);
  }

  lemma StripTwice(v: string)
    ensures Strip(Strip(v)) == Strip(v)
  {
    StripEnds(v);
    StripDropsFrom("", Strip(v), "", "");
    assert "" + Strip(v) + "" + "" == Strip(v);
  }

  // ---------------------------------------------------------------------------------------------
  // Files that differ only in secrets
  // ---------------------------------------------------------------------------------------------

  /** Two lines that assign nothing, or assign the same name values that differ at most as secrets. */
  predicate SameBinding(a: Option<Binding>, b: Option<Binding>) {
    if a.None? || b.None? then a == b
    else a.value.name == b.value.name
         && if SecretName(a.value.name) then SameStatus(a.value.value, b.value.value) else a == b
  }

  predicate SameBindings(bs: seq<Option<Binding>>, bs': seq<Option<Binding>>) {
    |bs| == |bs'| && forall i :: 0 <= i < |bs| ==> SameBinding(bs[i], bs'[i])
  }

  lemma {:induction false} FoldedAgree(bs: seq<Option<Binding>>, bs': seq<Option<Binding>>)
    requires SameBindings(bs, bs')
    ensures SameButSecrets(Folded(bs), Folded(bs'))
  {
    if bs != [] {
      var n := |bs| - 1;
      FoldedAgree(bs[..n], bs'[..n]);
      assert SameBinding(bs[n], bs'[n]);
      if bs[n].Some? {
        UpdatesAgree(Folded(bs[..n]), Folded(bs'[..n]), bs[n].value, bs'[n].value);
      }
    }
  }

  lemma UpdatesAgree(e: Env, f: Env, a: Binding, b: Binding)
    requires SameButSecrets(e, f) && SameBinding(Some(a), Some(b))
    ensures SameButSecrets(e[a.name := a.value], f[b.name := b.value])
  {
  }

  lemma OverridesAgree(process: Env, e: Env, f: Env)
    requires SameButSecrets(e, f)
    ensures SameButSecrets(process + e, process + f)
  {
    assert forall name :: name in process && name !in e && SecretName(name) ==> SameStatus(process[name], process[name]);
  }

  /** Over the same process environment, two env files that differ only in the values given to
      secrets lead to the same report in every mode. */
  lemma FileSecretsDoNotShow(mode: Mode, process: Env, lines: seq<string>, lines': seq<string>)
    requires SameBindings(Assignments(lines), Assignments(lines'))
    ensures Evaluation(mode, EnvOf(process, Some(lines))) == Evaluation(mode, EnvOf(process, Some(lines')))
  {
    FoldedAgree(Assignments(lines), Assignments(lines'));
    OverridesAgree(process, Folded(Assignments(lines)), Folded(Assignments(lines')));
    SecretsDoNotShow(mode, EnvOf(process, Some(lines)), EnvOf(process, Some(lines')));
  }
}
