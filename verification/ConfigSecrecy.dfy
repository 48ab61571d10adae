/**
 Secret values cannot be told from any output of the validator: the verdict, the findings, the text
 and the JSON of two environments that differ only in secrets are the same.
 */
module ConfigSecrecy {
  import opened Text
  import opened NameOrder
  import opened RuntimeConfig
  import opened ConfigReport
  import opened ConfigGuarantees

  // ---------------------------------------------------------------------------------------------
  // Environments that differ only in secrets
  // ---------------------------------------------------------------------------------------------

  predicate Secret(k: Key) {
    k == POSTGRES_PASSWORD || k == VAULT_TOKEN || k == GITHUB_TOKEN || k == DISCORD_BOT_TOKEN
    || k == ALERTMANAGER_WEBHOOK_URL || k == ANTHROPIC_API_KEY
  }

  predicate SecretName(name: string) { exists k: Key :: Secret(k) && name == Name(k) }

  /** Both blank or neither, both carrying the placeholder or neither. */
  predicate SameStatus(a: string, b: string) {
    (Blank(a) <==> Blank(b)) && (IsPlaceholder(a) <==> IsPlaceholder(b))
  }

  /** Same variables, same values except for secrets, and each secret of the same status. */
  ghost predicate SameButSecrets(e: Env, f: Env) {
    e.Keys == f.Keys
    && forall name :: name in e ==> if SecretName(name) then SameStatus(e[name], f[name]) else e[name] == f[name]
  }

  /** No name of an ordinary variable is the name of a secret. */
  lemma NamesDiffer(k: Key, s: Key)
    requires !Secret(k) && Secret(s)
    ensures Name(k) != Name(s)
  {
    SecretLength(s);
    PublicLength(k);
  }

  lemma SecretLength(k: Key)
    requires Secret(k)
    ensures |Name(k)| == 17 || |Name(k)| == 11 || |Name(k)| == 12 || |Name(k)| == 24
  {
  }

  lemma PublicLength(k: Key)
    requires !Secret(k)
    ensures |Name(k)| != 17 && |Name(k)| != 11 && |Name(k)| != 12 && |Name(k)| != 24
  {
  }

  lemma PublicReadsTheSame(e: Env, f: Env, k: Key)
    requires SameButSecrets(e, f) && !Secret(k)
    ensures Get(e, k) == Get(f, k)
  {
    forall s | Secret(s) ensures Name(k) != Name(s) { NamesDiffer(k, s); }
  }

  lemma SecretHasSameStatus(e: Env, f: Env, k: Key)
    requires SameButSecrets(e, f) && Secret(k)
    ensures SameStatus(Get(e, k), Get(f, k))
  {
  }

  /** Nothing is asked of a secret but whether it is blank, real or the placeholder. */
  ghost predicate AgreeButSecrets(a: Facts, b: Facts) {
    (forall k :: a.unset(k) == b.unset(k) && a.genuine(k) == b.genuine(k) && a.marked(k) == b.marked(k))
    && (forall k :: !Secret(k) ==> a.text(k) == b.text(k))
    && a.provider == b.provider
  }

  /** Blank and placeholder status decide whether a value is unset, real or the placeholder. */
  lemma StatusDecides(a: string, b: string, marker: string)
    requires marker != "" && forall i :: 0 <= i < |marker| ==> !IsSpace(marker[i])
    requires (Blank(a) <==> Blank(b)) && (Contains(a, marker) <==> Contains(b, marker))
    ensures (Strip(a) == "") == (Strip(b) == "") && Contains(Strip(a), marker) == Contains(Strip(b), marker)
  {
    BlankIffStripEmpty(a);
    BlankIffStripEmpty(b);
    StripKeepsWord(a, marker);
    StripKeepsWord(b, marker);
  }

  lemma StatusAgrees(a: string, b: string)
    requires SameStatus(a, b)
    ensures (Strip(a) == "") == (Strip(b) == "") && IsGenuine(a) == IsGenuine(b)
  {
    MarkerHasNoSpace();
    StatusDecides(a, b, PLACEHOLDER_MARKER);
  }

  /** What the facts of a variable say follows from its value. */
  predicate Follow(f: Facts, k: Key, value: string) {
    f.unset(k) == (Strip(value) == "") && f.genuine(k) == IsGenuine(value)
    && f.marked(k) == IsPlaceholder(value) && f.text(k) == Strip(value)
  }

  lemma FactsFollow(e: Env, k: Key)
    ensures Follow(FactsOf(e), k, Get(e, k))
  {
    FactsAre(e, k);
  }

  lemma AgreeAt(a: Facts, b: Facts, k: Key, v: string, w: string)
    requires Follow(a, k, v) && Follow(b, k, w)
    requires if Secret(k) then SameStatus(v, w) else v == w
    ensures a.unset(k) == b.unset(k) && a.genuine(k) == b.genuine(k) && a.marked(k) == b.marked(k)
    ensures !Secret(k) ==> a.text(k) == b.text(k)
  {
    if Secret(k) { StatusAgrees(v, w); }
  }

  lemma ValuesAgree(e: Env, f: Env, k: Key)
    requires SameButSecrets(e, f)
    ensures if Secret(k) then SameStatus(Get(e, k), Get(f, k)) else Get(e, k) == Get(f, k)
  {
    if Secret(k) { SecretHasSameStatus(e, f, k); } else { PublicReadsTheSame(e, f, k); }
  }

  lemma ProviderAgrees(e: Env, f: Env)
    requires SameButSecrets(e, f)
    ensures Provider(e) == Provider(f)
  {
    PublicReadsTheSame(e, f, SECRET_PROVIDER);
  }

  lemma FactsAgreeFrom(a: Facts, b: Facts, value: Key -> string, value': Key -> string)
    requires forall k :: Follow(a, k, value(k)) && Follow(b, k, value'(k))
    requires forall k :: if Secret(k) then SameStatus(value(k), value'(k)) else value(k) == value'(k)
    requires a.provider == b.provider
    ensures AgreeButSecrets(a, b)
  {
    forall k ensures a.unset(k) == b.unset(k) && a.genuine(k) == b.genuine(k) && a.marked(k) == b.marked(k)
                     && (!Secret(k) ==> a.text(k) == b.text(k))
    {
      AgreeAt(a, b, k, value(k), value'(k));
    }
  }

  lemma FactsAgree(e: Env, f: Env)
    requires SameButSecrets(e, f)
    ensures AgreeButSecrets(FactsOf(e), FactsOf(f))
  {
    var value, value' := (k: Key) => Get(e, k), (k: Key) => Get(f, k);
    forall k ensures Follow(FactsOf(e), k, value(k)) { FactsFollow(e, k); }
    forall k ensures Follow(FactsOf(f), k, value'(k)) { FactsFollow(f, k); }
    forall k ensures if Secret(k) then SameStatus(value(k), value'(k)) else value(k) == value'(k) {
      ValuesAgree(e, f, k);
    }
    ProviderAgrees(e, f);
    ProviderIsFact(e);
    ProviderIsFact(f);
    FactsAgreeFrom(FactsOf(e), FactsOf(f), value, value');
  }

  lemma OneSecret(k: Key, v: string, w: string)
    requires Secret(k) && SameStatus(v, w)
    ensures SameButSecrets(map[Name(k) := v], map[Name(k) := w])
  {
    assert SecretName(Name(k));
  }

  lemma OneText(k: Key, v: string)
    ensures FactsOf(map[Name(k) := v]).text(k) == Strip(v)
  {
    FactsFollow(map[Name(k) := v], k);
  }

  /** The facts the checks work from hold the text of secrets too, so a check that compared or quoted
      one would tell such environments apart; that none does is proved below. */
  lemma FactsHoldSecretText(k: Key, v: string, w: string)
    requires Secret(k) && SameStatus(v, w) && Strip(v) != Strip(w)
    ensures var e, f := map[Name(k) := v], map[Name(k) := w];
            SameButSecrets(e, f) && FactsOf(e).text(k) != FactsOf(f).text(k)
            && Asking(FactsOf(e))(Reads(k, Strip(v))) && !Asking(FactsOf(f))(Reads(k, Strip(v)))
  {
    OneSecret(k, v, w);
    OneText(k, v);
    OneText(k, w);
    TextDecides(FactsOf(map[Name(k) := v]), FactsOf(map[Name(k) := w]), k, Strip(v));
  }

  lemma TextDecides(a: Facts, b: Facts, k: Key, text: string)
    requires a.text(k) == text != b.text(k)
    ensures Asking(a)(Reads(k, text)) && !Asking(b)(Reads(k, text))
  {
  }

  // ---------------------------------------------------------------------------------------------
  // Check by check
  // ---------------------------------------------------------------------------------------------

  /** A test that does not compare the text of a secret. */
  predicate Discreet(t: Test) { t.Reads? || t.ReadsLower? ==> !Secret(t.key) }

  lemma ViewsAgree(a: Facts, b: Facts, t: Test)
    requires AgreeButSecrets(a, b) && Discreet(t)
    ensures Asking(a)(t) == Asking(b)(t)
  {
  }

  ghost predicate AgreeOnDiscreet(see: View, see': View) { forall t :: Discreet(t) ==> see(t) == see'(t) }

  /** Whether a finding is due is decided by discreet tests alone. */
  lemma DueAgrees(c: Code, mode: Mode, see: View, see': View)
    requires AgreeOnDiscreet(see, see')
    ensures Due(c, mode, see) == Due(c, mode, see')
  {
    if Asked(c, Local) {
      CommonDueAgrees(c, mode, see, see');
    } else if OnSecretRail(c) {
      SecretRailDueAgrees(c, mode, see, see');
    } else if OnReasoningRail(c) {
      ReasoningRailDueAgrees(c, mode, see, see');
    } else {
      DeploymentDueAgrees(c, mode, see, see');
    }
  }

  lemma CommonDueAgrees(c: Code, mode: Mode, see: View, see': View)
    requires AgreeOnDiscreet(see, see') && Asked(c, Local)
    ensures Due(c, mode, see) == Due(c, mode, see')
  {
  }

  lemma SecretRailDueAgrees(c: Code, mode: Mode, see: View, see': View)
    requires AgreeOnDiscreet(see, see') && OnSecretRail(c)
    ensures Due(c, mode, see) == Due(c, mode, see')
  {
  }

  lemma ReasoningRailDueAgrees(c: Code, mode: Mode, see: View, see': View)
    requires AgreeOnDiscreet(see, see') && OnReasoningRail(c)
    ensures Due(c, mode, see) == Due(c, mode, see')
  {
  }

  lemma DeploymentDueAgrees(c: Code, mode: Mode, see: View, see': View)
    requires AgreeOnDiscreet(see, see')
    requires !Asked(c, Local) && !OnSecretRail(c) && !OnReasoningRail(c)
    ensures Due(c, mode, see) == Due(c, mode, see')
  {
  }

  lemma QuotedAgrees(c: Code, a: Facts, b: Facts)
    requires AgreeButSecrets(a, b)
    ensures Quoted(c, a) == Quoted(c, b)
  {
    assert a.text(VAULT_ADDR) == b.text(VAULT_ADDR) && a.text(SECRET_PROVIDER) == b.text(SECRET_PROVIDER);
    assert a.text(VAULT_KV_MOUNT) == b.text(VAULT_KV_MOUNT) && a.text(VAULT_KV_PATH) == b.text(VAULT_KV_PATH);
    assert a.text(REASONING_PROVIDER) == b.text(REASONING_PROVIDER);
    assert a.text(REASONING_MODEL) == b.text(REASONING_MODEL);
    assert a.text(PRODUCTION_EXECUTED_TRUE_COUNT) == b.text(PRODUCTION_EXECUTED_TRUE_COUNT);
  }

  /** What a finding says quotes no secret. */
  lemma MessageAgrees(c: Code, mode: Mode, a: Facts, b: Facts)
    requires AgreeButSecrets(a, b)
    ensures Message(c, mode, a) == Message(c, mode, b)
  {
    QuotedAgrees(c, a, b);
  }

  lemma {:induction false} ReportedAgree(
    codes: seq<Code>, due: Code -> bool, due': Code -> bool, say: Code -> Finding, say': Code -> Finding)
    requires forall c :: due(c) == due'(c) && say(c) == say'(c)
    ensures Reported(codes, due, say) == Reported(codes, due', say')
  {
    if codes != [] { ReportedAgree(codes[1..], due, due', say, say'); }
  }

  lemma SayAgrees(c: Code, mode: Mode, a: Facts, b: Facts)
    requires AgreeButSecrets(a, b)
    ensures SayIn(mode, a)(c) == SayIn(mode, b)(c)
  {
    MessageAgrees(c, mode, a, b);
  }

  lemma DueInAgrees(c: Code, mode: Mode, a: Facts, b: Facts)
    requires AgreeButSecrets(a, b)
    ensures DueIn(mode, Asking(a))(c) == DueIn(mode, Asking(b))(c)
  {
    forall t | Discreet(t) ensures Asking(a)(t) == Asking(b)(t) { ViewsAgree(a, b, t); }
    DueAgrees(c, mode, Asking(a), Asking(b));
  }

  lemma FindingsAgree(mode: Mode, a: Facts, b: Facts)
    requires AgreeButSecrets(a, b)
    ensures Reported(Order(mode), DueIn(mode, Asking(a)), SayIn(mode, a))
            == Reported(Order(mode), DueIn(mode, Asking(b)), SayIn(mode, b))
  {
    var due, due', say, say' := DueIn(mode, Asking(a)), DueIn(mode, Asking(b)), SayIn(mode, a), SayIn(mode, b);
    forall c ensures due(c) == due'(c) && say(c) == say'(c) {
      DueInAgrees(c, mode, a, b);
      SayAgrees(c, mode, a, b);
    }
    ReportedAgree(Order(mode), due, due', say, say');
  }

  /** Two environments that differ only in the values of secrets give the same report: mode,
      observed keys, provider, and every finding with its code, message, severity and field. */
  lemma SecretsDoNotShow(mode: Mode, e: Env, f: Env)
    requires SameButSecrets(e, f)
    ensures Evaluation(mode, e) == Evaluation(mode, f)
  {
    FactsAgree(e, f);
    FindingsAgree(mode, FactsOf(e), FactsOf(f));
    ProviderAgrees(e, f);
  }

  // ---------------------------------------------------------------------------------------------
  // Text and JSON
  // ---------------------------------------------------------------------------------------------

  function Marker(s: Severity): string { match s case Fail => "FAIL" case Warn => "WARN" case Info => "INFO" }

  function RenderFinding(f: Finding): string {
    "  " + Marker(f.severity) + " [" + f.code + "]"
    + (if f.field != "" then " field=" + f.field else "") + ": " + f.message
  }

  function RenderFindings(fs: seq<Finding>): seq<string> {
    seq(|fs|, i requires 0 <= i < |fs| => RenderFinding(fs[i]))
  }

  function Verdict(passed: bool): string {
    if passed then "RUNTIME_CONFIG_VALIDATION: PASS" else "RUNTIME_CONFIG_VALIDATION: FAIL"
  }

  function TextLines(o: Outcome): seq<string> {
    ["RUNTIME_CONFIG_VALIDATION_MODE=" + ModeName(o.mode), "SECRET_PROVIDER=" + o.provider]
    + RenderFindings(o.findings) + ["", Verdict(Passed(o.findings))]
  }

  /** The text report. */
  function RenderText(o: Outcome): string { Join(TextLines(o), "\n") }

  lemma {:induction false} JoinAt(parts: seq<string>, k: nat, glue: string)
    requires 0 < k < |parts|
    ensures Join(parts, glue) == Join(parts[..k], glue) + glue + Join(parts[k..], glue)
    decreases k
  {
    JoinStep(parts, glue);
    if k == 1 {
      assert parts[..1] == [parts[0]];
    } else {
      var rest := parts[1..];
      JoinAt(rest, k - 1, glue);
      JoinStep(parts[..k], glue);
      assert parts[..k][1..] == rest[..k - 1] && parts[k..] == rest[k - 1..] && parts[..k][0] == parts[0];
      Reglue(parts[0], glue, Join(rest[..k - 1], glue), Join(parts[k..], glue));
    }
  }

  lemma Reglue(a: string, glue: string, b: string, c: string)
    ensures a + glue + (b + glue + c) == a + glue + b + glue + c
  {
  }

  predicate EndsIn(text: string, tail: string) { |tail| <= |text| && text[|text| - |tail|..] == tail }

  lemma LastLine(lines: seq<string>)
    requires |lines| > 1
    ensures EndsIn(Join(lines, "\n"), "\n" + lines[|lines| - 1])
  {
    var n := |lines| - 1;
    JoinAt(lines, n, "\n");
    assert lines[n..] == [lines[n]];
    TailOf(Join(lines[..n], "\n"), lines[n]);
  }

  lemma TailOf(above: string, last: string)
    ensures EndsIn(above + "\n" + last, "\n" + last)
  {
    assert above + "\n" + last == above + ("\n" + last);
  }

  lemma OutcomeEndsInVerdict(o: Outcome)
    ensures EndsIn(RenderText(o), "\n" + Verdict(Passed(o.findings)))
  {
    LastLine(TextLines(o));
  }

  lemma VerdictIs(passed: bool)
    ensures Verdict(passed) == if passed then "RUNTIME_CONFIG_VALIDATION: PASS" else "RUNTIME_CONFIG_VALIDATION: FAIL"
  {
  }

  /** The last line of the text is the verdict. */
  lemma TextEndsInVerdict(mode: Mode, env: Env)
    ensures EndsIn(RenderText(Evaluation(mode, env)),
                   "\n" + if Passes(env, mode) then "RUNTIME_CONFIG_VALIDATION: PASS" else "RUNTIME_CONFIG_VALIDATION: FAIL")
  {
    OutcomeEndsInVerdict(Evaluation(mode, env));
    VerdictIs(Passes(env, mode));
  }

  /** A line of the text: severity, code, field if it has one, and message. */
  function LineFor(f: Finding): string {
    "  " + (match f.severity case Fail => "FAIL" case Warn => "WARN" case Info => "INFO")
    + " [" + f.code + "]" + (if f.field != "" then " field=" + f.field else "") + ": " + f.message
  }

  lemma InnerLine(lines: seq<string>, k: nat)
    requires 0 < k < |lines| - 1
    ensures Contains(Join(lines, "\n"), "\n" + lines[k] + "\n")
  {
    JoinAt(lines, k, "\n");
    JoinStep(lines[k..], "\n");
    var above, below := Join(lines[..k], "\n"), Join(lines[k..][1..], "\n");
    var text, line := Join(lines, "\n"), "\n" + lines[k] + "\n";
    MiddleOccurs(above, line, below);
    Reglued(above, lines[k], below);
    assert text == above + line + below;
  }

  lemma MiddleOccurs(above: string, line: string, below: string)
    ensures Contains(above + line + below, line)
  {
    var text := above + line + below;
    assert text[|above|..|above| + |line|] == line;
    assert OccursAt(text, line, |above|);
  }

  lemma Reglued(above: string, line: string, below: string)
    ensures above + "\n" + (line + "\n" + below) == above + ("\n" + line + "\n") + below
  {
  }

  /** Every finding has its line in the text. */
  lemma FindingIsShown(o: Outcome, i: nat)
    requires i < |o.findings|
    ensures Contains(RenderText(o), "\n" + LineFor(o.findings[i]) + "\n")
  {
    ShownAt(o, i);
    InnerLine(TextLines(o), i + 2);
    LineIs(o.findings[i]);
  }

  lemma LineIs(f: Finding)
    ensures RenderFinding(f) == LineFor(f)
  {
  }

  lemma ShownAt(o: Outcome, i: nat)
    requires i < |o.findings|
    ensures var lines := TextLines(o); i + 3 < |lines| && lines[i + 2] == RenderFinding(o.findings[i])
  {
    assert RenderFindings(o.findings)[i] == RenderFinding(o.findings[i]);
  }

  datatype Json = Flag(value: bool) | Text(text: string) | List(items: seq<Json>) | Object(members: seq<(string, Json)>)

  function SeverityName(s: Severity): string { match s case Fail => "fail" case Warn => "warn" case Info => "info" }

  function FindingDict(f: Finding): Json {
    Object([("code", Text(f.code)), ("message", Text(f.message)), ("severity", Text(SeverityName(f.severity))),
            ("field", Text(f.field))])
  }

  function Strings(names: seq<string>): seq<Json> {
    seq(|names|, i requires 0 <= i < |names| => Text(names[i]))
  }

  function FindingDicts(fs: seq<Finding>): seq<Json> {
    seq(|fs|, i requires 0 <= i < |fs| => FindingDict(fs[i]))
  }

  function Dict(o: Outcome, keys: seq<string>): Json {
    Object([("mode", Text(ModeName(o.mode))), ("passed", Flag(Passed(o.findings))),
            ("secret_provider", Text(o.provider)), ("findings", List(FindingDicts(o.findings))),
            ("env_keys_observed", List(Strings(keys)))])
  }

  /** `to_dict`, with the observed keys sorted. */
  method ToDict(o: Outcome) returns (json: Json)
    ensures IsDict(o, json)
  {
    var keys := SortNames(o.keys);
    json := Dict(o, keys);
  }

  ghost predicate IsDict(o: Outcome, json: Json) { exists keys :: Sorts(o.keys, keys) && json == Dict(o, keys) }

  /** The four members of a finding. */
  predicate ItemSays(item: Json, f: Finding) {
    && item.Object? && |item.members| == 4
    && item.members[0] == ("code", Text(f.code)) && item.members[1] == ("message", Text(f.message))
    && item.members[2] == ("severity", Text(match f.severity case Fail => "fail" case Warn => "warn" case Info => "info"))
    && item.members[3] == ("field", Text(f.field))
  }

  /** What the JSON of a report holds, member by member. */
  lemma DictSays(o: Outcome, json: Json)
    requires IsDict(o, json)
    ensures json.Object? && |json.members| == 5
    ensures json.members[0] == ("mode", Text(ModeName(o.mode)))
    ensures json.members[1].0 == "passed" && json.members[1].1.Flag?
            && (json.members[1].1.value <==> forall f :: f in o.findings ==> f.severity != Fail)
    ensures json.members[2] == ("secret_provider", Text(o.provider))
    ensures json.members[3].0 == "findings" && json.members[3].1.List? && |json.members[3].1.items| == |o.findings|
    ensures forall i :: 0 <= i < |o.findings| ==> ItemSays(json.members[3].1.items[i], o.findings[i])
    ensures json.members[4].0 == "env_keys_observed" && json.members[4].1.List?
            && forall name :: name in o.keys <==> Text(name) in json.members[4].1.items
  {
    var keys :| Sorts(o.keys, keys) && json == Dict(o, keys);
    KeysAreListed(o.keys, keys);
  }

  lemma KeysAreListed(names: set<string>, keys: seq<string>)
    requires Sorts(names, keys)
    ensures forall name :: name in names <==> Text(name) in Strings(keys)
  {
    forall name ensures name in names <==> Text(name) in Strings(keys) {
      if name in keys {
        var i :| 0 <= i < |keys| && keys[i] == name;
        assert Strings(keys)[i] == Text(name);
      }
    }
  }

  /** Sorting leaves no freedom, so an outcome has one JSON form. */
  lemma DictIsDetermined(o: Outcome, json: Json, json': Json)
    requires IsDict(o, json) && IsDict(o, json')
    ensures json == json'
  {
    var keys :| Sorts(o.keys, keys) && json == Dict(o, keys);
    var keys' :| Sorts(o.keys, keys') && json' == Dict(o, keys');
    SortedIsDetermined(keys, keys');
  }

  /** The text and the JSON of two environments that differ only in secret values are identical. */
  lemma SecretsDoNotShowInOutput(mode: Mode, e: Env, f: Env, json: Json, json': Json)
    requires SameButSecrets(e, f)
    requires IsDict(Evaluation(mode, e), json) && IsDict(Evaluation(mode, f), json')
    ensures RenderText(Evaluation(mode, e)) == RenderText(Evaluation(mode, f)) && json == json'
  {
    SecretsDoNotShow(mode, e, f);
    DictIsDetermined(Evaluation(mode, e), json, json');
  }
}
