/**
 What a verdict of the runtime configuration validator means: which findings a report holds,
 exactly when each mode passes, how the modes are ordered, and that secret values cannot be told
 from any output.
 */
module ConfigGuarantees {
  import opened Text
  import opened RuntimeConfig

  // ---------------------------------------------------------------------------------------------
  // Which findings a report holds
  // ---------------------------------------------------------------------------------------------

  /** The modes that ask for a finding. */
  predicate Asked(c: Code, mode: Mode) {
    match c
    case PlaceholderSecret(k) =>
      (mode == Staging && k == POSTGRES_PASSWORD) || (mode == ProductionCheck && k in SECRET_FIELDS)
    case PostgresTrustAuthForbidden => Deployed(mode)
    case PostgresPasswordMissing => Deployed(mode)
    case VaultDevModeInStaging => Deployed(mode)
    case VaultDevModeForbidden => Deployed(mode)
    case AlertmanagerReceiverMissing => Deployed(mode)
    case TestRuntimeSecretProviderNotVault => mode == TestRuntime
    case TestRuntimeKvMountWrong => mode == TestRuntime
    case TestRuntimeKvPathDeprecated => mode == TestRuntime
    case TestRuntimeKvPathWrong => mode == TestRuntime
    case AnthropicKeyInEnvironment => mode == TestRuntime
    case TestRuntimeReasoningProviderWrong => mode == TestRuntime
    case TestRuntimeReasoningModelWrong => mode == TestRuntime
    case LiveReasoningGateOpen => mode == TestRuntime
    case ProductionExecutedTrue => mode == ProductionCheck || mode == TestRuntime
    case InvalidMode => mode.Unsupported?
    case _ => !mode.Unsupported?
  }

  predicate Deployed(mode: Mode) { mode == Staging || mode == ProductionCheck }

  lemma PlaceholdersAsked(fields: seq<Key>, c: Code)
    ensures c in PlaceholderCodes(fields) <==> c.PlaceholderSecret? && c.key in fields
  {
    if c.PlaceholderSecret? && c.key in fields {
      var i :| 0 <= i < |fields| && fields[i] == c.key;
      assert PlaceholderCodes(fields)[i] == c;
    }
  }

  lemma CommonAsked(c: Code)
    ensures c in CommonOrder() <==> Asked(c, Local)
  {
  }

  lemma DeploymentAsked(fields: seq<Key>, c: Code)
    ensures c in DeploymentOrder(fields) <==>
            (c.PlaceholderSecret? && c.key in fields)
            || c == PostgresTrustAuthForbidden || c == PostgresPasswordMissing
            || c == VaultDevModeInStaging || c == VaultDevModeForbidden || c == AlertmanagerReceiverMissing
  {
    PlaceholdersAsked(fields, c);
    assert c in POSTGRES_CODES <==> c == PostgresTrustAuthForbidden || c == PostgresPasswordMissing;
    assert c in VAULT_CODES <==> c == VaultDevModeInStaging || c == VaultDevModeForbidden;
  }

  predicate OnSecretRail(c: Code) {
    c == TestRuntimeSecretProviderNotVault || c == TestRuntimeKvMountWrong || c == TestRuntimeKvPathDeprecated
    || c == TestRuntimeKvPathWrong || c == AnthropicKeyInEnvironment
  }

  predicate OnReasoningRail(c: Code) {
    c == TestRuntimeReasoningProviderWrong || c == TestRuntimeReasoningModelWrong || c == LiveReasoningGateOpen
  }

  lemma RailsAsked(c: Code)
    ensures c in SecretRailCodes() <==> OnSecretRail(c)
    ensures c in ReasoningRailCodes() <==> OnReasoningRail(c)
  {
  }

  lemma TestRuntimeAsked(c: Code)
    ensures c in ModeOrder(TestRuntime) <==> OnSecretRail(c) || OnReasoningRail(c) || c == ProductionExecutedTrue
  {
    RailsAsked(c);
    var secret, reasoning := SecretRailCodes(), ReasoningRailCodes();
    assert c in secret + reasoning + [ProductionExecutedTrue] <==>
           c in secret || c in reasoning || c == ProductionExecutedTrue;
  }

  lemma OrderParts(c: Code, mode: Mode)
    requires !mode.Unsupported?
    ensures c in Order(mode) <==> c in CommonOrder() || c in ModeOrder(mode)
  {
  }

  lemma StagingAsked(c: Code)
    ensures c in ModeOrder(Staging) <==> Asked(c, Staging) && !Asked(c, Local)
  {
    DeploymentAsked([POSTGRES_PASSWORD], c);
  }

  lemma ProductionAsked(c: Code)
    ensures c in ModeOrder(ProductionCheck) <==> Asked(c, ProductionCheck) && !Asked(c, Local)
  {
    DeploymentAsked(SECRET_FIELDS, c);
    assert c in ModeOrder(ProductionCheck) <==> c in DeploymentOrder(SECRET_FIELDS) || c == ProductionExecutedTrue;
  }

  lemma RailsAreAsked(c: Code)
    ensures OnSecretRail(c) || OnReasoningRail(c) || c == ProductionExecutedTrue
            <==> Asked(c, TestRuntime) && !Asked(c, Local)
  {
  }

  lemma ModeAsked(c: Code, mode: Mode)
    requires !mode.Unsupported?
    ensures c in ModeOrder(mode) <==> Asked(c, mode) && !Asked(c, Local)
  {
    if mode == Staging {
      StagingAsked(c);
    } else if mode == ProductionCheck {
      ProductionAsked(c);
    } else if mode == TestRuntime {
      TestRuntimeAsked(c);
      RailsAreAsked(c);
    }
  }

  /** The order of a report covers exactly what its mode asks for. */
  lemma OrderIsAsked(c: Code, mode: Mode)
    ensures c in Order(mode) <==> Asked(c, mode)
  {
    if !mode.Unsupported? {
      CommonAsked(c);
      ModeAsked(c, mode);
      OrderParts(c, mode);
    }
  }

  /** A report holds a finding exactly when its mode asks for a code that is due and says so. */
  lemma HoldsExactly(mode: Mode, due: Code -> bool, say: Code -> Finding, f: Finding)
    ensures f in Reported(Order(mode), due, say) <==> exists c :: Asked(c, mode) && due(c) && f == say(c)
  {
    ReportedExactly(Order(mode), due, say, f);
    forall c ensures c in Order(mode) <==> Asked(c, mode) { OrderIsAsked(c, mode); }
  }

  // ---------------------------------------------------------------------------------------------
  // Exactly when each mode passes
  // ---------------------------------------------------------------------------------------------

  /** No failure the mode asks for is due. */
  ghost predicate Quiet(mode: Mode, see: View) {
    forall c :: Asked(c, mode) && SeverityOf(c) == Fail ==> !Due(c, mode, see)
  }

  /** Findings are worded with the severity of their code. */
  ghost predicate KeepsSeverity(say: Code -> Finding) { forall c :: say(c).severity == SeverityOf(c) }

  lemma SayKeepsSeverity(mode: Mode, f: Facts)
    ensures KeepsSeverity(SayIn(mode, f))
  {
  }

  lemma PassesIffQuiet(env: Env, mode: Mode)
    ensures Passes(env, mode) <==> Quiet(mode, Of(env))
  {
    SayKeepsSeverity(mode, FactsOf(env));
    PassedIffQuiet(mode, Of(env), SayIn(mode, FactsOf(env)));
  }

  lemma PassedIffQuiet(mode: Mode, see: View, say: Code -> Finding)
    requires KeepsSeverity(say)
    ensures Passed(Reported(Order(mode), DueIn(mode, see), say)) <==> Quiet(mode, see)
  {
    var due := DueIn(mode, see);
    var report := Reported(Order(mode), due, say);
    forall f ensures f in report <==> exists c :: Asked(c, mode) && due(c) && f == say(c) {
      HoldsExactly(mode, due, say, f);
    }
    forall c ensures due(c) == Due(c, mode, see) {}
    if Passed(report) {
      forall c | Asked(c, mode) && due(c) ensures SeverityOf(c) != Fail { assert say(c) in report; }
    }
  }

  /** A real test that is switched on has what it needs. */
  predicate TestsReady(see: View) {
    (see(On(RUN_REAL_GITHUB_TEST)) ==> !see(IsUnset(GITHUB_TEST_REPO)) && !see(IsUnset(GITHUB_TOKEN)))
    && (see(On(RUN_REAL_DISCORD_TEST)) ==> !see(IsUnset(DISCORD_TEST_CHANNEL_ID)) && !see(IsUnset(DISCORD_BOT_TOKEN)))
  }

  predicate VaultReady(see: View) { StoreIn(see) == VaultStore && !see(IsUnset(VAULT_ADDR)) && see(IsReal(VAULT_TOKEN)) }

  lemma TestsQuiet(mode: Mode, see: View)
    requires !mode.Unsupported? && Quiet(mode, see)
    ensures TestsReady(see)
  {
    assert Asked(RealGithubTestMissingRepo, mode) && Asked(RealGithubTestMissingToken, mode);
    assert Asked(RealDiscordMissingChannel, mode) && Asked(RealDiscordMissingToken, mode);
  }

  lemma StoreQuiet(mode: Mode, see: View)
    requires !mode.Unsupported? && Quiet(mode, see)
    ensures VaultReady(see) || (mode != ProductionCheck && (StoreIn(see) == MockVaultStore || StoreIn(see) == EnvStore))
  {
    match StoreIn(see) {
      case VaultStore => assert Asked(VaultAddrMissing, mode) && Asked(VaultTokenMissing, mode);
      case MockVaultStore => assert Asked(MockVaultForbiddenInProduction, mode);
      case EnvStore => assert Asked(EnvProviderInProduction, mode);
      case UnknownStore => assert Asked(SecretProviderUnknown, mode);
    }
  }

  predicate LocalQuiet(see: View) {
    TestsReady(see) && (VaultReady(see) || StoreIn(see) == MockVaultStore || StoreIn(see) == EnvStore)
  }

  lemma LocalExactly(see: View)
    ensures Quiet(Local, see) <==> LocalQuiet(see)
  {
    if Quiet(Local, see) {
      TestsQuiet(Local, see);
      StoreQuiet(Local, see);
    }
  }

  predicate DeploymentQuiet(mode: Mode, see: View) {
    !see(ReadsLower(POSTGRES_HOST_AUTH_METHOD, "trust")) && see(IsReal(POSTGRES_PASSWORD))
    && !see(HasPlaceholder(POSTGRES_PASSWORD))
    && (!see(AtDevAddress) || (mode == Staging && see(On(ALLOW_VAULT_DEV_MODE_FOR_STAGING))))
  }

  lemma DeploymentOnlyQuiet(mode: Mode, see: View)
    requires Deployed(mode) && Quiet(mode, see)
    ensures DeploymentQuiet(mode, see)
  {
    assert SECRET_FIELDS[0] == POSTGRES_PASSWORD;
    assert Asked(PostgresTrustAuthForbidden, mode) && Asked(PostgresPasswordMissing, mode);
    assert Asked(PlaceholderSecret(POSTGRES_PASSWORD), mode) && Asked(VaultDevModeForbidden, mode);
  }

  lemma StagingExactly(see: View)
    ensures Quiet(Staging, see) <==> LocalQuiet(see) && DeploymentQuiet(Staging, see)
  {
    if Quiet(Staging, see) {
      TestsQuiet(Staging, see);
      StoreQuiet(Staging, see);
      DeploymentOnlyQuiet(Staging, see);
    }
  }

  predicate ProductionQuiet(see: View) {
    TestsReady(see) && VaultReady(see) && DeploymentQuiet(ProductionCheck, see)
    && see(IsReal(ALERTMANAGER_WEBHOOK_URL))
    && (forall k :: k in SECRET_FIELDS ==> !see(HasPlaceholder(k)))
    && NothingExecuted(see)
  }

  predicate NothingExecuted(see: View) {
    see(IsUnset(PRODUCTION_EXECUTED_TRUE_COUNT)) || see(Reads(PRODUCTION_EXECUTED_TRUE_COUNT, "0"))
  }

  lemma ProductionExactly(see: View)
    ensures Quiet(ProductionCheck, see) <==> ProductionQuiet(see)
  {
    var mode := ProductionCheck;
    if Quiet(mode, see) {
      TestsQuiet(mode, see);
      StoreQuiet(mode, see);
      DeploymentOnlyQuiet(mode, see);
      ExecutedOnlyQuiet(mode, see);
      assert Asked(AlertmanagerReceiverMissing, mode);
      forall k | k in SECRET_FIELDS ensures !see(HasPlaceholder(k)) { assert Asked(PlaceholderSecret(k), mode); }
    }
  }

  predicate SecretRailQuiet(see: View) {
    see(ReadsLower(SECRET_PROVIDER, "vault")) && see(Reads(VAULT_KV_MOUNT, "secret"))
    && see(Reads(VAULT_KV_PATH, TEST_RUNTIME_KV_PATH)) && !see(Reads(VAULT_KV_PATH, DEPRECATED_KV_PATH))
    && see(IsUnset(ANTHROPIC_API_KEY))
  }

  predicate ReasoningRailQuiet(see: View) {
    see(ReadsLower(REASONING_PROVIDER, "anthropic")) && see(Reads(REASONING_MODEL, "claude-sonnet-5"))
    && !see(On(REASONING_LIVE_NETWORK_ENABLED))
  }

  lemma KvPlaceOnlyQuiet(see: View)
    requires Quiet(TestRuntime, see)
    ensures see(ReadsLower(SECRET_PROVIDER, "vault")) && see(Reads(VAULT_KV_MOUNT, "secret"))
  {
    assert Asked(TestRuntimeSecretProviderNotVault, TestRuntime) && Asked(TestRuntimeKvMountWrong, TestRuntime);
  }

  lemma SecretRailOnlyQuiet(see: View)
    requires Quiet(TestRuntime, see)
    ensures SecretRailQuiet(see)
  {
    KvPlaceOnlyQuiet(see);
    assert Asked(TestRuntimeKvPathDeprecated, TestRuntime) && Asked(TestRuntimeKvPathWrong, TestRuntime);
    assert Asked(AnthropicKeyInEnvironment, TestRuntime);
  }

  lemma ReasoningRailOnlyQuiet(see: View)
    requires Quiet(TestRuntime, see)
    ensures ReasoningRailQuiet(see)
  {
    assert Asked(TestRuntimeReasoningProviderWrong, TestRuntime) && Asked(TestRuntimeReasoningModelWrong, TestRuntime);
    assert Asked(LiveReasoningGateOpen, TestRuntime);
  }

  lemma ExecutedOnlyQuiet(mode: Mode, see: View)
    requires Quiet(mode, see) && (mode == ProductionCheck || mode == TestRuntime)
    ensures NothingExecuted(see)
  {
    assert Asked(ProductionExecutedTrue, mode);
  }

  lemma TestRuntimeExactly(see: View)
    ensures Quiet(TestRuntime, see) <==>
            LocalQuiet(see) && SecretRailQuiet(see) && ReasoningRailQuiet(see) && NothingExecuted(see)
  {
    if Quiet(TestRuntime, see) {
      TestsQuiet(TestRuntime, see);
      StoreQuiet(TestRuntime, see);
      SecretRailOnlyQuiet(see);
      ReasoningRailOnlyQuiet(see);
      ExecutedOnlyQuiet(TestRuntime, see);
    }
  }

  // ---------------------------------------------------------------------------------------------
  // The same conditions, in terms of the variables
  // ---------------------------------------------------------------------------------------------

  /** A real test that is switched on has its target and its token. */
  predicate RealTestsReady(f: Facts) {
    (Lower(f.text(RUN_REAL_GITHUB_TEST)) == "true" ==> !f.unset(GITHUB_TEST_REPO) && !f.unset(GITHUB_TOKEN))
    && (Lower(f.text(RUN_REAL_DISCORD_TEST)) == "true" ==>
          !f.unset(DISCORD_TEST_CHANNEL_ID) && !f.unset(DISCORD_BOT_TOKEN))
  }

  /** Vault is the provider and can be reached with a real token. */
  predicate VaultUsable(f: Facts) { f.provider == "vault" && !f.unset(VAULT_ADDR) && f.genuine(VAULT_TOKEN) }

  predicate StoreUsable(f: Facts) { VaultUsable(f) || f.provider == "env" || f.provider == "mock-vault" }

  predicate DatabaseGuarded(f: Facts) {
    Lower(f.text(POSTGRES_HOST_AUTH_METHOD)) != "trust" && f.genuine(POSTGRES_PASSWORD)
  }

  /** Neither empty nor one of the two addresses of the development container. */
  predicate AwayFromDev(addr: string) {
    addr != "" && addr != "http://vault:8200" && addr != "http://localhost:8200"
  }

  lemma AwayIs(addr: string)
    ensures AwayFromDev(addr) <==> !DevVault(addr)
  {
  }

  predicate Unexecuted(f: Facts) {
    f.unset(PRODUCTION_EXECUTED_TRUE_COUNT) || f.text(PRODUCTION_EXECUTED_TRUE_COUNT) == "0"
  }

  lemma ProviderNames()
    ensures "env" != "vault" && "env" != "mock-vault" && "vault" != "mock-vault"
  {
    assert |"env"| == 3 && |"vault"| == 5 && |"mock-vault"| == 10;
  }

  lemma StoreExactly(f: Facts)
    ensures StoreIn(Asking(f)) == VaultStore <==> f.provider == "vault"
    ensures StoreIn(Asking(f)) == MockVaultStore <==> f.provider == "mock-vault"
    ensures StoreIn(Asking(f)) == EnvStore <==> f.provider == "env"
  {
    ProviderNames();
  }

  lemma LocalMeans(f: Facts)
    ensures LocalQuiet(Asking(f)) <==> RealTestsReady(f) && StoreUsable(f)
  {
    StoreExactly(f);
  }

  lemma LocalPassesExactlyWhen(env: Env)
    ensures Passes(env, Local) <==> RealTestsReady(FactsOf(env)) && StoreUsable(FactsOf(env))
  {
    PassesIffQuiet(env, Local);
    LocalExactly(Of(env));
    LocalMeans(FactsOf(env));
  }

  /** The placeholder finding of staging adds nothing: a real password carries no placeholder. */
  lemma StagingPassesExactlyWhen(env: Env)
    ensures Passes(env, Staging) <==>
            var f := FactsOf(env);
            RealTestsReady(f) && StoreUsable(f) && DatabaseGuarded(f)
            && (AwayFromDev(f.text(VAULT_ADDR)) || Lower(f.text(ALLOW_VAULT_DEV_MODE_FOR_STAGING)) == "true")
  {
    PassesIffQuiet(env, Staging);
    RealFacts(env);
    StagingMeans(FactsOf(env));
  }

  /** What is real carries no placeholder, and unset is blank; so it is in every environment. */
  ghost predicate Coherent(f: Facts) {
    (forall k :: f.genuine(k) ==> !f.marked(k)) && forall k :: f.unset(k) <==> f.text(k) == ""
  }

  lemma StagingMeans(f: Facts)
    requires Coherent(f)
    ensures Quiet(Staging, Asking(f)) <==>
            RealTestsReady(f) && StoreUsable(f) && DatabaseGuarded(f)
            && (AwayFromDev(f.text(VAULT_ADDR)) || Lower(f.text(ALLOW_VAULT_DEV_MODE_FOR_STAGING)) == "true")
  {
    StagingExactly(Asking(f));
    LocalMeans(f);
    AwayIs(f.text(VAULT_ADDR));
  }

  /** Production needs Vault at a real address, real secrets behind everything that is used, and
      nothing executed. */
  predicate ProductionReady(f: Facts) {
    RealTestsReady(f) && f.provider == "vault" && AwayFromDev(f.text(VAULT_ADDR))
    && f.genuine(VAULT_TOKEN) && f.genuine(ALERTMANAGER_WEBHOOK_URL) && DatabaseGuarded(f)
    && !f.marked(GITHUB_TOKEN) && !f.marked(DISCORD_BOT_TOKEN) && Unexecuted(f)
  }

  lemma ProductionMeans(f: Facts)
    requires Coherent(f)
    ensures Quiet(ProductionCheck, Asking(f)) <==> ProductionReady(f)
  {
    ProductionExactly(Asking(f));
    AwayIs(f.text(VAULT_ADDR));
    if ProductionQuiet(Asking(f)) {
      QuietIsReady(f);
    }
    if ProductionReady(f) {
      StoreExactly(f);
      ReadyIsUnmarked(f);
    }
  }

  lemma QuietIsReady(f: Facts)
    requires Coherent(f) && ProductionQuiet(Asking(f))
    ensures ProductionReady(f)
  {
    StoreExactly(f);
    AwayIs(f.text(VAULT_ADDR));
    SecretFieldsAre(GITHUB_TOKEN);
    SecretFieldsAre(DISCORD_BOT_TOKEN);
  }

  lemma ReadyIsUnmarked(f: Facts)
    requires Coherent(f) && ProductionReady(f)
    ensures forall k :: k in SECRET_FIELDS ==> !Asking(f)(HasPlaceholder(k))
  {
    forall k | k in SECRET_FIELDS ensures !Asking(f)(HasPlaceholder(k)) { SecretFieldsAre(k); }
  }

  lemma SecretFieldsAre(k: Key)
    ensures k in SECRET_FIELDS <==>
            k == POSTGRES_PASSWORD || k == VAULT_TOKEN || k == GITHUB_TOKEN || k == DISCORD_BOT_TOKEN
            || k == ALERTMANAGER_WEBHOOK_URL
  {
    assert SECRET_FIELDS[0] == POSTGRES_PASSWORD && SECRET_FIELDS[1] == VAULT_TOKEN
      && SECRET_FIELDS[2] == GITHUB_TOKEN && SECRET_FIELDS[3] == DISCORD_BOT_TOKEN
      && SECRET_FIELDS[4] == ALERTMANAGER_WEBHOOK_URL;
  }

  lemma ProductionPassesExactlyWhen(env: Env)
    ensures Passes(env, ProductionCheck) <==> ProductionReady(FactsOf(env))
  {
    PassesIffQuiet(env, ProductionCheck);
    RealFacts(env);
    ProductionMeans(FactsOf(env));
  }

  /** The test runtime reads its credential from Vault at the exact place and cannot use it live. */
  predicate TestRuntimeReady(f: Facts) {
    RealTestsReady(f) && StoreUsable(f)
    && Lower(f.text(SECRET_PROVIDER)) == "vault" && f.text(VAULT_KV_MOUNT) == "secret"
    && f.text(VAULT_KV_PATH) == TEST_RUNTIME_KV_PATH && f.unset(ANTHROPIC_API_KEY)
    && Lower(f.text(REASONING_PROVIDER)) == "anthropic" && f.text(REASONING_MODEL) == "claude-sonnet-5"
    && Lower(f.text(REASONING_LIVE_NETWORK_ENABLED)) != "true" && Unexecuted(f)
  }

  lemma TestRuntimeMeans(f: Facts)
    ensures Quiet(TestRuntime, Asking(f)) <==> TestRuntimeReady(f)
  {
    TestRuntimeExactly(Asking(f));
    LocalMeans(f);
    RailsMean(f);
  }

  lemma RailsMean(f: Facts)
    ensures SecretRailQuiet(Asking(f)) <==>
            Lower(f.text(SECRET_PROVIDER)) == "vault" && f.text(VAULT_KV_MOUNT) == "secret"
            && f.text(VAULT_KV_PATH) == TEST_RUNTIME_KV_PATH && f.unset(ANTHROPIC_API_KEY)
    ensures ReasoningRailQuiet(Asking(f)) <==>
            Lower(f.text(REASONING_PROVIDER)) == "anthropic" && f.text(REASONING_MODEL) == "claude-sonnet-5"
            && Lower(f.text(REASONING_LIVE_NETWORK_ENABLED)) != "true"
  {
    assert |DEPRECATED_KV_PATH| != |TEST_RUNTIME_KV_PATH|;
  }

  lemma TestRuntimePassesExactlyWhen(env: Env)
    ensures Passes(env, TestRuntime) <==> TestRuntimeReady(FactsOf(env))
  {
    PassesIffQuiet(env, TestRuntime);
    TestRuntimeMeans(FactsOf(env));
  }

  lemma FactsAre(env: Env, k: Key)
    ensures FactsOf(env).unset(k) == Unset(env, k) && FactsOf(env).genuine(k) == Real(env, k)
    ensures FactsOf(env).marked(k) == Placeholder(env, k) && FactsOf(env).text(k) == Stripped(env, k)
  {
  }

  lemma ProviderIsFact(env: Env)
    ensures FactsOf(env).provider == Provider(env)
  {
  }

  lemma RealFacts(env: Env)
    ensures Coherent(FactsOf(env))
  {
    var f := FactsOf(env);
    forall k | f.genuine(k) ensures !f.marked(k) {
      FactsAre(env, k);
      RealIsNoPlaceholder(env, k);
    }
    forall k ensures f.unset(k) <==> f.text(k) == "" { FactsAre(env, k); }
  }

  /** A text without white space occurs in a stripped value exactly when it occurs in the value. */
  lemma StripKeepsWord(s: string, word: string)
    requires word != "" && forall i :: 0 <= i < |word| ==> !IsSpace(word[i])
    ensures Contains(Strip(s), word) <==> Contains(s, word)
  {
    var pre, post := TrimParts(s, IsSpace);
    WordInMiddle(pre, Strip(s), post, word);
  }

  lemma WordInMiddle(pre: string, mid: string, post: string, word: string)
    requires word != "" && (forall i :: 0 <= i < |word| ==> !IsSpace(word[i])) && Blank(pre) && Blank(post)
    ensures Contains(mid, word) <==> Contains(pre + mid + post, word)
  {
    var s := pre + mid + post;
    assert s[|pre|..|pre| + |mid|] == mid;
    if Contains(mid, word) {
      ContainsWithin(mid, s, word, |pre|);
    }
    if Contains(s, word) {
      var i :| 0 <= i <= |s| && OccursAt(s, word, i);
      OccursInMiddle(pre, mid, post, word, i);
    }
  }

  lemma OccursInMiddle(pre: string, mid: string, post: string, word: string, i: nat)
    requires word != "" && (forall k :: 0 <= k < |word| ==> !IsSpace(word[k])) && Blank(pre) && Blank(post)
    requires OccursAt(pre + mid + post, word, i)
    ensures OccursAt(mid, word, i - |pre|)
  {
    var s := pre + mid + post;
    var last := i + |word| - 1;
    assert s[i] == s[i..i + |word|][0] == word[0];
    assert s[last] == s[i..i + |word|][|word| - 1] == word[|word| - 1];
    assert forall k :: 0 <= k < |pre| ==> IsSpace(s[k]);
    assert forall k :: |pre| + |mid| <= k < |s| ==> IsSpace(s[k]);
    assert |pre| <= i && last < |pre| + |mid|;
    assert mid[i - |pre|..i - |pre| + |word|] == s[i..i + |word|];
  }

  /** A value that is real once stripped carries no placeholder anywhere. */
  lemma RealIsNoPlaceholder(env: Env, k: Key)
    requires Real(env, k)
    ensures !Placeholder(env, k)
  {
    MarkerHasNoSpace();
    StripKeepsWord(Get(env, k), PLACEHOLDER_MARKER);
  }

  lemma MarkerHasNoSpace()
    ensures PLACEHOLDER_MARKER != "" && forall i :: 0 <= i < |PLACEHOLDER_MARKER| ==> !IsSpace(PLACEHOLDER_MARKER[i])
  {
  }

  // ---------------------------------------------------------------------------------------------
  // The order of the modes
  // ---------------------------------------------------------------------------------------------

  /** Passing production-check implies passing staging, which implies passing local; passing
      test-runtime implies passing local. */
  lemma ModesAreOrdered(env: Env)
    ensures Passes(env, ProductionCheck) ==> Passes(env, Staging)
    ensures Passes(env, Staging) ==> Passes(env, Local)
    ensures Passes(env, TestRuntime) ==> Passes(env, Local)
  {
    LocalPassesExactlyWhen(env);
    StagingPassesExactlyWhen(env);
    ProductionPassesExactlyWhen(env);
    TestRuntimePassesExactlyWhen(env);
  }

  /** A production-check pass means a real secret store behind a non-development address, asked for
      in so many words, and real token, password and webhook. */
  lemma ProductionPassMeansReal(env: Env)
    requires Passes(env, ProductionCheck)
    ensures Lowered(env, SECRET_PROVIDER) == "vault" && Stripped(env, VAULT_ADDR) != ""
    ensures Stripped(env, VAULT_ADDR) != "http://vault:8200" && Stripped(env, VAULT_ADDR) != "http://localhost:8200"
    ensures Real(env, VAULT_TOKEN) && Real(env, POSTGRES_PASSWORD) && Real(env, ALERTMANAGER_WEBHOOK_URL)
    ensures forall k :: k in SECRET_FIELDS ==> !Placeholder(env, k)
  {
    ProductionPassesExactlyWhen(env);
    ProductionFacts(env);
    VaultIsOwn(env);
  }

  lemma ProductionFacts(env: Env)
    requires ProductionReady(FactsOf(env))
    ensures Provider(env) == "vault" && AwayFromDev(Stripped(env, VAULT_ADDR))
    ensures Real(env, VAULT_TOKEN) && Real(env, POSTGRES_PASSWORD) && Real(env, ALERTMANAGER_WEBHOOK_URL)
    ensures forall k :: k in SECRET_FIELDS ==> !Placeholder(env, k)
  {
    ProviderIsFact(env);
    FactsAre(env, VAULT_ADDR);
    FactsAre(env, VAULT_TOKEN);
    FactsAre(env, POSTGRES_PASSWORD);
    FactsAre(env, ALERTMANAGER_WEBHOOK_URL);
    RealFacts(env);
    forall k | k in SECRET_FIELDS ensures !Placeholder(env, k) {
      SecretFieldsAre(k);
      FactsAre(env, k);
    }
  }

  predicate LowerWord(s: string) { s != "" && forall i :: 0 <= i < |s| ==> 'a' <= s[i] <= 'z' }

  lemma LowerWordStays(s: string)
    requires LowerWord(s)
    ensures Lower(Strip(s)) == s
  {
    TrimmedText(s);
    LowerStays(s);
  }

  lemma TrimmedText(s: string)
    requires s != "" && !IsSpace(s[0]) && !IsSpace(s[|s| - 1])
    ensures Strip(s) == s
  {
  }

  lemma LowerStays(s: string)
    requires LowerWord(s)
    ensures Lower(s) == s
  {
  }

  lemma EnvIsLowerWord()
    ensures LowerWord("env")
  {
  }

  lemma EnvDefaultIsEnv()
    ensures Lower(Strip("env")) == "env"
  {
    EnvIsLowerWord();
    LowerWordStays("env");
  }

  lemma ProviderFromOwn(env: Env)
    ensures Get(env, SECRET_PROVIDER) != "" ==> Provider(env) == Lowered(env, SECRET_PROVIDER)
    ensures Get(env, SECRET_PROVIDER) == "" ==> Provider(env) == "env" && Lowered(env, SECRET_PROVIDER) == ""
  {
    EnvDefaultIsEnv();
  }

  /** Vault is only ever chosen in so many words. */
  lemma VaultIsOwn(env: Env)
    requires Provider(env) == "vault"
    ensures Lowered(env, SECRET_PROVIDER) == "vault"
  {
    ProviderNames();
    ProviderFromOwn(env);
  }

  // ---------------------------------------------------------------------------------------------
  // Warnings, notes and quotations
  // ---------------------------------------------------------------------------------------------

  /** Some finding of the severity is due among those the mode asks for. */
  ghost predicate Raised(severity: Severity, mode: Mode, see: View) {
    exists c :: Asked(c, mode) && SeverityOf(c) == severity && Due(c, mode, see)
  }

  lemma WarningsAre(mode: Mode, see: View)
    ensures Raised(Warn, mode, see) <==>
            mode == Staging && (StoreIn(see) == MockVaultStore || (see(AtDevAddress) && see(On(ALLOW_VAULT_DEV_MODE_FOR_STAGING))))
  {
    if mode == Staging {
      assert Asked(MockVaultInStaging, mode) && SeverityOf(MockVaultInStaging) == Warn;
      assert Asked(VaultDevModeInStaging, mode) && SeverityOf(VaultDevModeInStaging) == Warn;
    }
    if Raised(Warn, mode, see) {
      var c :| Asked(c, mode) && SeverityOf(c) == Warn && Due(c, mode, see);
      assert c == MockVaultInStaging || c == VaultDevModeInStaging;
    }
  }

  lemma NotesAre(mode: Mode, see: View)
    ensures Raised(Info, mode, see) <==>
            !mode.Unsupported? && (see(On(RUN_REAL_GITHUB_TEST)) || see(On(RUN_REAL_DISCORD_TEST)))
  {
    if !mode.Unsupported? {
      assert Asked(RealGithubTestOptIn, mode) && SeverityOf(RealGithubTestOptIn) == Info;
      assert Asked(RealDiscordTestOptIn, mode) && SeverityOf(RealDiscordTestOptIn) == Info;
    }
    if Raised(Info, mode, see) {
      var c :| Asked(c, mode) && SeverityOf(c) == Info && Due(c, mode, see);
      assert c == RealGithubTestOptIn || c == RealDiscordTestOptIn;
    }
  }

  /** A report warns exactly in staging, of the mock store and of a tolerated development Vault, and
      notes exactly the real tests that are switched on. */
  lemma WarnsAndNotesExactlyWhen(mode: Mode, f: Facts)
    ensures Raised(Warn, mode, Asking(f)) <==>
            mode == Staging &&
            (f.provider == "mock-vault"
             || (!AwayFromDev(f.text(VAULT_ADDR)) && Lower(f.text(ALLOW_VAULT_DEV_MODE_FOR_STAGING)) == "true"))
    ensures Raised(Info, mode, Asking(f)) <==>
            !mode.Unsupported? &&
            (Lower(f.text(RUN_REAL_GITHUB_TEST)) == "true" || Lower(f.text(RUN_REAL_DISCORD_TEST)) == "true")
  {
    WarningsAre(mode, Asking(f));
    NotesAre(mode, Asking(f));
    StoreExactly(f);
    AwayIs(f.text(VAULT_ADDR));
  }

  /** A value as a message shows it: as it is, or quoted, possibly in lower case, or marked unset. */
  predicate ShownAs(s: string, value: string) {
    s == value || s == Repr(value) || s == Repr(OrUnset(value)) || s == Repr(OrUnset(Lower(value)))
  }

  /** The quotation of a variable's value. */
  predicate QuotesKey(c: Code, f: Facts, k: Key) { FieldOf(c) == Name(k) && ShownAs(Quoted(c, f), f.text(k)) }

  lemma RailQuotes(c: Code, f: Facts) returns (k: Key)
    requires OnSecretRail(c) && Quoted(c, f) != ""
    ensures QuotesKey(c, f, k)
  {
    k := if c == TestRuntimeSecretProviderNotVault then SECRET_PROVIDER
         else if c == TestRuntimeKvMountWrong then VAULT_KV_MOUNT else VAULT_KV_PATH;
  }

  lemma OtherQuotes(c: Code, f: Facts) returns (k: Key)
    requires !OnSecretRail(c) && c != SecretProviderUnknown && Quoted(c, f) != ""
    ensures QuotesKey(c, f, k)
  {
    k := if c == VaultDevModeForbidden then VAULT_ADDR
         else if c == TestRuntimeReasoningProviderWrong then REASONING_PROVIDER
         else if c == TestRuntimeReasoningModelWrong then REASONING_MODEL
         else PRODUCTION_EXECUTED_TRUE_COUNT;
  }

  /** A message quotes nothing, or the variable its finding is about. */
  lemma QuotesOwnField(c: Code, f: Facts)
    ensures Quoted(c, f) == "" || (exists k :: QuotesKey(c, f, k))
            || (FieldOf(c) == Name(SECRET_PROVIDER) && Quoted(c, f) == Repr(f.provider))
  {
    if c != SecretProviderUnknown && Quoted(c, f) != "" {
      if OnSecretRail(c) { var _ := RailQuotes(c, f); } else { var _ := OtherQuotes(c, f); }
    }
  }
}
