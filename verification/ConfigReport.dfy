/**
 The validator as it runs: each check appends findings to a report, and the whole report is proved
 to be what the mode owes the environment.
 */
module ConfigReport {
  import opened RuntimeConfig

  /** Everything a caller can observe of a report. */
  datatype Outcome = Outcome(mode: Mode, keys: set<string>, provider: string, findings: seq<Finding>)

  function Evaluation(mode: Mode, env: Env): Outcome {
    Outcome(mode, env.Keys, Provider(env), Findings(env, mode))
  }

  /** A report under construction; `say` is the finding each code stands for. */
  class Report {
    const mode: Mode
    const keys: set<string>
    const provider: string
    const say: Code -> Finding
    var findings: seq<Finding>

    constructor (mode: Mode, keys: set<string>, provider: string, say: Code -> Finding)
      ensures this.mode == mode && this.keys == keys && this.provider == provider && this.say == say
      ensures findings == []
    {
      this.mode, this.keys, this.provider, this.say, findings := mode, keys, provider, say, [];
    }

    function Observed(): Outcome
      reads this
    {
      Outcome(mode, keys, provider, findings)
    }

    /** What a check owes: of the codes it is about, those that are due, in order. */
    ghost function Owed(codes: seq<Code>, see: View): seq<Finding> {
      Reported(codes, DueIn(mode, see), say)
    }

    method Add(c: Code)
      modifies this
      ensures findings == old(findings) + [say(c)]
    {
      findings := findings + [say(c)];
    }

    method AddWhen(wanted: bool, c: Code, see: View)
      requires wanted == Due(c, mode, see)
      modifies this
      ensures findings == old(findings) + Owed([c], see)
    {
      AskOne(c, DueIn(mode, see), say);
      if wanted {
        Add(c);
      }
    }

    method CheckRealTestDefaults(see: View)
      modifies this
      ensures findings == old(findings) + Owed(REAL_TEST_CODES, see)
    {
      AskTwo(RealGithubTestOptIn, RealDiscordTestOptIn, DueIn(mode, see), say);
      if see(On(RUN_REAL_GITHUB_TEST)) {
        Add(RealGithubTestOptIn);
      }
      if see(On(RUN_REAL_DISCORD_TEST)) {
        Add(RealDiscordTestOptIn);
      }
    }

    method CheckGithubGuard(see: View)
      modifies this
      ensures findings == old(findings) + Owed(GITHUB_CODES, see)
    {
      AskTwo(RealGithubTestMissingRepo, RealGithubTestMissingToken, DueIn(mode, see), say);
      var realOn := see(On(RUN_REAL_GITHUB_TEST));
      if realOn && see(IsUnset(GITHUB_TEST_REPO)) {
        Add(RealGithubTestMissingRepo);
      }
      if realOn && see(IsUnset(GITHUB_TOKEN)) {
        Add(RealGithubTestMissingToken);
      }
    }

    method CheckDiscordGuard(see: View)
      modifies this
      ensures findings == old(findings) + Owed(DISCORD_CODES, see)
    {
      AskTwo(RealDiscordMissingChannel, RealDiscordMissingToken, DueIn(mode, see), say);
      var realOn := see(On(RUN_REAL_DISCORD_TEST));
      if realOn && see(IsUnset(DISCORD_TEST_CHANNEL_ID)) {
        Add(RealDiscordMissingChannel);
      }
      if realOn && see(IsUnset(DISCORD_BOT_TOKEN)) {
        Add(RealDiscordMissingToken);
      }
    }

    /** One finding per listed field that carries the placeholder, in the order listed. */
    method CheckPlaceholders(see: View, fields: seq<Key>)
      modifies this
      ensures findings == old(findings) + Owed(PlaceholderCodes(fields), see)
    {
      ghost var due, codes := DueIn(mode, see), PlaceholderCodes(fields);
      for i := 0 to |fields|
        invariant findings == old(findings) + Reported(codes[..i], due, say)
      {
        assert codes[..i + 1] == codes[..i] + [codes[i]];
        ReportedConcat(codes[..i], [codes[i]], due, say);
        AskOne(codes[i], due, say);
        if see(HasPlaceholder(fields[i])) {
          Add(PlaceholderSecret(fields[i]));
        }
      }
      assert codes[..|fields|] == codes;
    }

    method CheckPostgresAuth(see: View)
      modifies this
      ensures findings == old(findings) + Owed(POSTGRES_CODES, see)
    {
      AskTwo(PostgresTrustAuthForbidden, PostgresPasswordMissing, DueIn(mode, see), say);
      if mode == Local {
        return;
      }
      if see(ReadsLower(POSTGRES_HOST_AUTH_METHOD, "trust")) {
        Add(PostgresTrustAuthForbidden);
      }
      if !see(IsReal(POSTGRES_PASSWORD)) {
        Add(PostgresPasswordMissing);
      }
    }

    method CheckVaultMode(see: View)
      modifies this
      ensures findings == old(findings) + Owed(VAULT_CODES, see)
    {
      AskTwo(VaultDevModeInStaging, VaultDevModeForbidden, DueIn(mode, see), say);
      if mode == Local {
        return;
      }
      if see(AtDevAddress) {
        var allow := see(On(ALLOW_VAULT_DEV_MODE_FOR_STAGING));
        if mode == Staging && allow {
          Add(VaultDevModeInStaging);
        } else {
          Add(VaultDevModeForbidden);
        }
      }
    }

    method CheckAlertmanager(see: View)
      modifies this
      ensures findings == old(findings) + Owed([AlertmanagerReceiverMissing], see)
    {
      AskOne(AlertmanagerReceiverMissing, DueIn(mode, see), say);
      if mode == ProductionCheck {
        if !see(IsReal(ALERTMANAGER_WEBHOOK_URL)) {
          Add(AlertmanagerReceiverMissing);
        }
      }
    }

    /** What is owed for one code. */
    ghost function One(c: Code, see: View): seq<Finding> { if Due(c, mode, see) then [say(c)] else [] }

    method CheckSecretProvider(see: View)
      modifies this
      ensures findings == old(findings) + Owed(ProviderCodes(), see)
    {
      AskSix(findings, SecretProviderUnknown, VaultAddrMissing, VaultTokenMissing, MockVaultForbiddenInProduction,
             MockVaultInStaging, EnvProviderInProduction, DueIn(mode, see), say);
      DecideProvider(see);
    }

    /** An unknown provider, or what the chosen one still needs. */
    method DecideProvider(see: View)
      modifies this
      ensures findings == old(findings) + One(SecretProviderUnknown, see) + One(VaultAddrMissing, see)
        + One(VaultTokenMissing, see) + One(MockVaultForbiddenInProduction, see)
        + One(MockVaultInStaging, see) + One(EnvProviderInProduction, see)
    {
      OneStoreSpeaks(findings, One(SecretProviderUnknown, see), One(VaultAddrMissing, see), One(VaultTokenMissing, see),
                     One(MockVaultForbiddenInProduction, see), One(MockVaultInStaging, see),
                     One(EnvProviderInProduction, see));
      match StoreIn(see) {
        case UnknownStore => Add(SecretProviderUnknown);
        case VaultStore => CheckVaultStore(see);
        case MockVaultStore => CheckMockStore(see);
        case EnvStore =>
          if mode == ProductionCheck {
            Add(EnvProviderInProduction);
          }
      }
    }

    method CheckVaultStore(see: View)
      requires StoreIn(see) == VaultStore
      modifies this
      ensures findings == old(findings) + One(VaultAddrMissing, see) + One(VaultTokenMissing, see)
    {
      if see(IsUnset(VAULT_ADDR)) {
        Add(VaultAddrMissing);
      }
      if !see(IsReal(VAULT_TOKEN)) {
        Add(VaultTokenMissing);
      }
    }

    method CheckMockStore(see: View)
      requires StoreIn(see) == MockVaultStore
      modifies this
      ensures findings == old(findings) + One(MockVaultForbiddenInProduction, see) + One(MockVaultInStaging, see)
    {
      if mode == ProductionCheck {
        Add(MockVaultForbiddenInProduction);
        return;
      }
      if mode == Staging {
        Add(MockVaultInStaging);
      }
    }

    method CheckTestSecretRail(see: View)
      modifies this
      ensures findings == old(findings) + Owed(SecretRailCodes(), see)
    {
      ThenThree(findings, KV_PLACE_CODES, KV_PATH_CODES, [AnthropicKeyInEnvironment], DueIn(mode, see), say);
      CheckKvPlace(see);
      CheckKvPath(see);
      AddWhen(!see(IsUnset(ANTHROPIC_API_KEY)), AnthropicKeyInEnvironment, see);
    }

    method CheckKvPlace(see: View)
      modifies this
      ensures findings == old(findings) + Owed(KV_PLACE_CODES, see)
    {
      AskTwo(TestRuntimeSecretProviderNotVault, TestRuntimeKvMountWrong, DueIn(mode, see), say);
      if !see(ReadsLower(SECRET_PROVIDER, "vault")) {
        Add(TestRuntimeSecretProviderNotVault);
      }
      if !see(Reads(VAULT_KV_MOUNT, "secret")) {
        Add(TestRuntimeKvMountWrong);
      }
    }

    method CheckKvPath(see: View)
      modifies this
      ensures findings == old(findings) + Owed(KV_PATH_CODES, see)
    {
      AskTwo(TestRuntimeKvPathDeprecated, TestRuntimeKvPathWrong, DueIn(mode, see), say);
      if see(Reads(VAULT_KV_PATH, DEPRECATED_KV_PATH)) {
        Add(TestRuntimeKvPathDeprecated);
      } else if !see(Reads(VAULT_KV_PATH, TEST_RUNTIME_KV_PATH)) {
        Add(TestRuntimeKvPathWrong);
      }
    }

    method CheckTestReasoningRail(see: View)
      modifies this
      ensures findings == old(findings) + Owed(ReasoningRailCodes(), see)
    {
      ThenTwo(findings, REASONING_CODES, [LiveReasoningGateOpen], DueIn(mode, see), say);
      CheckReasoningChoice(see);
      AddWhen(see(On(REASONING_LIVE_NETWORK_ENABLED)), LiveReasoningGateOpen, see);
    }

    method CheckReasoningChoice(see: View)
      modifies this
      ensures findings == old(findings) + Owed(REASONING_CODES, see)
    {
      AskTwo(TestRuntimeReasoningProviderWrong, TestRuntimeReasoningModelWrong, DueIn(mode, see), say);
      if !see(ReadsLower(REASONING_PROVIDER, "anthropic")) {
        Add(TestRuntimeReasoningProviderWrong);
      }
      if !see(Reads(REASONING_MODEL, "claude-sonnet-5")) {
        Add(TestRuntimeReasoningModelWrong);
      }
    }

    method CheckProductionExecuted(see: View)
      modifies this
      ensures findings == old(findings) + Owed([ProductionExecutedTrue], see)
    {
      AskOne(ProductionExecutedTrue, DueIn(mode, see), say);
      if !see(IsUnset(PRODUCTION_EXECUTED_TRUE_COUNT)) && !see(Reads(PRODUCTION_EXECUTED_TRUE_COUNT, "0")) {
        Add(ProductionExecutedTrue);
      }
    }

    method CheckCommon(see: View)
      modifies this
      ensures findings == old(findings) + Owed(CommonOrder(), see)
    {
      ThenFour(findings, REAL_TEST_CODES, GITHUB_CODES, DISCORD_CODES, ProviderCodes(), DueIn(mode, see), say);
      CheckRealTestDefaults(see);
      CheckGithubGuard(see);
      CheckDiscordGuard(see);
      CheckSecretProvider(see);
    }

    method CheckDeployment(see: View, fields: seq<Key>)
      modifies this
      ensures findings == old(findings) + Owed(DeploymentOrder(fields), see)
    {
      ThenFour(findings, PlaceholderCodes(fields), POSTGRES_CODES, VAULT_CODES, [AlertmanagerReceiverMissing],
               DueIn(mode, see), say);
      CheckPlaceholders(see, fields);
      CheckPostgresAuth(see);
      CheckVaultMode(see);
      CheckAlertmanager(see);
    }

    method CheckProduction(see: View)
      modifies this
      ensures findings == old(findings) + Owed(DeploymentOrder(SECRET_FIELDS) + [ProductionExecutedTrue], see)
    {
      ThenTwo(findings, DeploymentOrder(SECRET_FIELDS), [ProductionExecutedTrue], DueIn(mode, see), say);
      CheckDeployment(see, SECRET_FIELDS);
      CheckProductionExecuted(see);
    }

    method CheckTestRuntime(see: View)
      modifies this
      ensures findings == old(findings) + Owed(SecretRailCodes() + ReasoningRailCodes() + [ProductionExecutedTrue], see)
    {
      ThenThree(findings, SecretRailCodes(), ReasoningRailCodes(), [ProductionExecutedTrue], DueIn(mode, see), say);
      CheckTestSecretRail(see);
      CheckTestReasoningRail(see);
      CheckProductionExecuted(see);
    }

    method CheckMode(see: View)
      modifies this
      ensures findings == old(findings) + Owed(ModeOrder(mode), see)
    {
      match mode {
        case Staging => CheckDeployment(see, [POSTGRES_PASSWORD]);
        case ProductionCheck => CheckProduction(see);
        case TestRuntime => CheckTestRuntime(see);
        case _ =>
      }
    }

    method CheckAll(see: View)
      modifies this
      ensures findings == old(findings) + Owed(Order(mode), see)
    {
      if mode.Unsupported? {
        AddWhen(true, InvalidMode, see);
        return;
      }
      ThenTwo(findings, CommonOrder(), ModeOrder(mode), DueIn(mode, see), say);
      CheckCommon(see);
      CheckMode(see);
    }
  }

  lemma OneStoreSpeaks(
    before: seq<Finding>, u: seq<Finding>, v: seq<Finding>, v': seq<Finding>, m: seq<Finding>, m': seq<Finding>,
    e: seq<Finding>)
    ensures v == [] && v' == [] && m == [] && m' == [] && e == [] ==> before + u + v + v' + m + m' + e == before + u
    ensures u == [] && m == [] && m' == [] && e == [] ==> before + u + v + v' + m + m' + e == before + v + v'
    ensures u == [] && v == [] && v' == [] && e == [] ==> before + u + v + v' + m + m' + e == before + m + m'
    ensures u == [] && v == [] && v' == [] && m == [] && m' == [] ==> before + u + v + v' + m + m' + e == before + e
  {
  }

  /** `evaluate`: the checks of the mode, in order, each appending to the report. */
  method Evaluate(mode: Mode, env: Env) returns (report: Report)
    ensures fresh(report) && report.Observed() == Evaluation(mode, env)
  {
    report := new Report(mode, env.Keys, Provider(env), SayIn(mode, FactsOf(env)));
    var see := Of(env);
    report.CheckAll(see);
  }
}
