/**
 The runtime configuration validator: the findings a report can hold, when each is due and what it
 says, and the checks that build the report step by step.
 */
module RuntimeConfig {
  import opened Text

  // ---------------------------------------------------------------------------------------------
  // Environment
  // ---------------------------------------------------------------------------------------------

  type Env = map<string, string>

  /** The variables the validator reads. */
  datatype Key =
    | RUN_REAL_GITHUB_TEST | GITHUB_TEST_REPO | GITHUB_TOKEN
    | RUN_REAL_DISCORD_TEST | DISCORD_TEST_CHANNEL_ID | DISCORD_BOT_TOKEN
    | POSTGRES_HOST_AUTH_METHOD | POSTGRES_PASSWORD
    | VAULT_ADDR | VAULT_TOKEN | ALLOW_VAULT_DEV_MODE_FOR_STAGING | VAULT_KV_MOUNT | VAULT_KV_PATH
    | ALERTMANAGER_WEBHOOK_URL | SECRET_PROVIDER | ANTHROPIC_API_KEY
    | REASONING_PROVIDER | REASONING_MODEL | REASONING_LIVE_NETWORK_ENABLED
    | PRODUCTION_EXECUTED_TRUE_COUNT

  function Name(k: Key): string {
    match k
    case RUN_REAL_GITHUB_TEST => "RUN_REAL_GITHUB_TEST"
    case GITHUB_TEST_REPO => "GITHUB_TEST_REPO"
    case GITHUB_TOKEN => "GITHUB_TOKEN"
    case RUN_REAL_DISCORD_TEST => "RUN_REAL_DISCORD_TEST"
    case DISCORD_TEST_CHANNEL_ID => "DISCORD_TEST_CHANNEL_ID"
    case DISCORD_BOT_TOKEN => "DISCORD_BOT_TOKEN"
    case POSTGRES_HOST_AUTH_METHOD => "POSTGRES_HOST_AUTH_METHOD"
    case POSTGRES_PASSWORD => "POSTGRES_PASSWORD"
    case VAULT_ADDR => "VAULT_ADDR"
    case VAULT_TOKEN => "VAULT_TOKEN"
    case ALLOW_VAULT_DEV_MODE_FOR_STAGING => "ALLOW_VAULT_DEV_MODE_FOR_STAGING"
    case VAULT_KV_MOUNT => "VAULT_KV_MOUNT"
    case VAULT_KV_PATH => "VAULT_KV_PATH"
    case ALERTMANAGER_WEBHOOK_URL => "ALERTMANAGER_WEBHOOK_URL"
    case SECRET_PROVIDER => "SECRET_PROVIDER"
    case ANTHROPIC_API_KEY => "ANTHROPIC_API_KEY"
    case REASONING_PROVIDER => "REASONING_PROVIDER"
    case REASONING_MODEL => "REASONING_MODEL"
    case REASONING_LIVE_NETWORK_ENABLED => "REASONING_LIVE_NETWORK_ENABLED"
    case PRODUCTION_EXECUTED_TRUE_COUNT => "PRODUCTION_EXECUTED_TRUE_COUNT"
  }

  const SECRET_FIELDS: seq<Key> :=
    [POSTGRES_PASSWORD, VAULT_TOKEN, GITHUB_TOKEN, DISCORD_BOT_TOKEN, ALERTMANAGER_WEBHOOK_URL]

  const PLACEHOLDER_MARKER: string := "PLACEHOLDER_DO_NOT_COMMIT_REAL_VALUE"

  /** `env.get(key)`, with a missing variable read as the empty string. */
  function Get(env: Env, k: Key): string { if Name(k) in env then env[Name(k)] else "" }

  function Stripped(env: Env, k: Key): string { Strip(Get(env, k)) }
  function Lowered(env: Env, k: Key): string { Lower(Stripped(env, k)) }
  predicate IsPlaceholder(value: string) { Contains(value, PLACEHOLDER_MARKER) }

  /** Not blank and not the placeholder. */
  predicate IsGenuine(value: string) { Strip(value) != "" && !IsPlaceholder(Strip(value)) }

  predicate Unset(env: Env, k: Key) { Stripped(env, k) == "" }
  predicate Real(env: Env, k: Key) { IsGenuine(Get(env, k)) }
  predicate Placeholder(env: Env, k: Key) { IsPlaceholder(Get(env, k)) }

  predicate DevVault(addr: string) {
    addr == "" || addr == "http://vault:8200" || addr == "http://localhost:8200"
  }

  /** The secret provider, which defaults to `env`. */
  function Provider(env: Env): string {
    Lower(Strip(if Get(env, SECRET_PROVIDER) == "" then "env" else Get(env, SECRET_PROVIDER)))
  }

  /** The questions the checks put to an environment. Any variable may be asked about, and `Reads`
      and `ReadsLower` compare its whole text. */
  datatype Test =
    | IsUnset(key: Key)
    | IsReal(key: Key)
    | HasPlaceholder(key: Key)
    | Reads(key: Key, text: string)
    | ReadsLower(key: Key, text: string)
    | AtDevAddress
    | ProviderIs(name: string)

  type View = Test -> bool

  /** What can be seen of each variable, and how the tests are answered from it. */
  datatype Facts = Facts(
    unset: Key -> bool, genuine: Key -> bool, marked: Key -> bool, text: Key -> string, provider: string)

  function Asking(f: Facts): View {
    (t: Test) => match t
      case IsUnset(k) => f.unset(k)
      case IsReal(k) => f.genuine(k)
      case HasPlaceholder(k) => f.marked(k)
      case Reads(k, s) => f.text(k) == s
      case ReadsLower(k, s) => Lower(f.text(k)) == s
      case AtDevAddress => DevVault(f.text(VAULT_ADDR))
      case ProviderIs(s) => f.provider == s
  }

  function FactsOf(env: Env): Facts {
    Facts(k => Unset(env, k), k => Real(env, k), k => Placeholder(env, k), k => Stripped(env, k), Provider(env))
  }

  function Of(env: Env): View { Asking(FactsOf(env)) }

  function On(k: Key): Test { ReadsLower(k, "true") }

  /** The supported secret stores. */
  datatype Store = EnvStore | VaultStore | MockVaultStore | UnknownStore

  function StoreIn(see: View): Store {
    if see(ProviderIs("env")) then EnvStore
    else if see(ProviderIs("vault")) then VaultStore
    else if see(ProviderIs("mock-vault")) then MockVaultStore
    else UnknownStore
  }

  // ---------------------------------------------------------------------------------------------
  // Findings
  // ---------------------------------------------------------------------------------------------

  datatype Mode = Local | Staging | ProductionCheck | TestRuntime | Unsupported(name: string)

  function ModeName(mode: Mode): string {
    match mode
    case Local => "local"
    case Staging => "staging"
    case ProductionCheck => "production-check"
    case TestRuntime => "test-runtime"
    case Unsupported(name) => name
  }

  datatype Severity = Fail | Warn | Info

  datatype Finding = Finding(code: string, message: string, severity: Severity, field: string)

  /** Every finding a report can hold. */
  datatype Code =
    | RealGithubTestOptIn | RealDiscordTestOptIn
    | RealGithubTestMissingRepo | RealGithubTestMissingToken
    | RealDiscordMissingChannel | RealDiscordMissingToken
    | PlaceholderSecret(key: Key) | PostgresTrustAuthForbidden | PostgresPasswordMissing
    | VaultDevModeInStaging | VaultDevModeForbidden | AlertmanagerReceiverMissing
    | SecretProviderUnknown | VaultAddrMissing | VaultTokenMissing
    | MockVaultForbiddenInProduction | MockVaultInStaging | EnvProviderInProduction
    | TestRuntimeSecretProviderNotVault | TestRuntimeKvMountWrong | TestRuntimeKvPathDeprecated
    | TestRuntimeKvPathWrong | AnthropicKeyInEnvironment
    | TestRuntimeReasoningProviderWrong | TestRuntimeReasoningModelWrong | LiveReasoningGateOpen
    | ProductionExecutedTrue | InvalidMode

  function Spelled(c: Code): string {
    match c
    case RealGithubTestOptIn => "real_github_test_opt_in"
    case RealDiscordTestOptIn => "real_discord_test_opt_in"
    case RealGithubTestMissingRepo => "real_github_test_missing_repo"
    case RealGithubTestMissingToken => "real_github_test_missing_token"
    case RealDiscordMissingChannel => "real_discord_missing_channel"
    case RealDiscordMissingToken => "real_discord_missing_token"
    case PlaceholderSecret(_) => "placeholder_secret"
    case PostgresTrustAuthForbidden => "postgres_trust_auth_forbidden"
    case PostgresPasswordMissing => "postgres_password_missing"
    case VaultDevModeInStaging => "vault_dev_mode_in_staging"
    case VaultDevModeForbidden => "vault_dev_mode_forbidden"
    case AlertmanagerReceiverMissing => "alertmanager_receiver_missing"
    case SecretProviderUnknown => "secret_provider_unknown"
    case VaultAddrMissing => "vault_addr_missing"
    case VaultTokenMissing => "vault_token_missing"
    case MockVaultForbiddenInProduction => "mock_vault_forbidden_in_production"
    case MockVaultInStaging => "mock_vault_in_staging"
    case EnvProviderInProduction => "env_provider_in_production"
    case TestRuntimeSecretProviderNotVault => "test_runtime_secret_provider_not_vault"
    case TestRuntimeKvMountWrong => "test_runtime_kv_mount_wrong"
    case TestRuntimeKvPathDeprecated => "test_runtime_kv_path_deprecated"
    case TestRuntimeKvPathWrong => "test_runtime_kv_path_wrong"
    case AnthropicKeyInEnvironment => "anthropic_key_in_environment"
    case TestRuntimeReasoningProviderWrong => "test_runtime_reasoning_provider_wrong"
    case TestRuntimeReasoningModelWrong => "test_runtime_reasoning_model_wrong"
    case LiveReasoningGateOpen => "live_reasoning_gate_open"
    case ProductionExecutedTrue => "production_executed_true"
    case InvalidMode => "invalid_mode"
  }

  function SeverityOf(c: Code): Severity {
    match c
    case RealGithubTestOptIn => Info
    case RealDiscordTestOptIn => Info
    case VaultDevModeInStaging => Warn
    case MockVaultInStaging => Warn
    case _ => Fail
  }

  function FieldOf(c: Code): string {
    match c
    case RealGithubTestOptIn => Name(RUN_REAL_GITHUB_TEST)
    case RealDiscordTestOptIn => Name(RUN_REAL_DISCORD_TEST)
    case RealGithubTestMissingRepo => Name(GITHUB_TEST_REPO)
    case RealGithubTestMissingToken => Name(GITHUB_TOKEN)
    case RealDiscordMissingChannel => Name(DISCORD_TEST_CHANNEL_ID)
    case RealDiscordMissingToken => Name(DISCORD_BOT_TOKEN)
    case PlaceholderSecret(k) => Name(k)
    case PostgresTrustAuthForbidden => Name(POSTGRES_HOST_AUTH_METHOD)
    case PostgresPasswordMissing => Name(POSTGRES_PASSWORD)
    case VaultDevModeInStaging => Name(VAULT_ADDR)
    case VaultDevModeForbidden => Name(VAULT_ADDR)
    case AlertmanagerReceiverMissing => Name(ALERTMANAGER_WEBHOOK_URL)
    case VaultAddrMissing => Name(VAULT_ADDR)
    case VaultTokenMissing => Name(VAULT_TOKEN)
    case TestRuntimeKvMountWrong => Name(VAULT_KV_MOUNT)
    case TestRuntimeKvPathDeprecated => Name(VAULT_KV_PATH)
    case TestRuntimeKvPathWrong => Name(VAULT_KV_PATH)
    case AnthropicKeyInEnvironment => Name(ANTHROPIC_API_KEY)
    case TestRuntimeReasoningProviderWrong => Name(REASONING_PROVIDER)
    case TestRuntimeReasoningModelWrong => Name(REASONING_MODEL)
    case LiveReasoningGateOpen => Name(REASONING_LIVE_NETWORK_ENABLED)
    case ProductionExecutedTrue => Name(PRODUCTION_EXECUTED_TRUE_COUNT)
    case InvalidMode => ""
    case _ => Name(SECRET_PROVIDER)
  }

  // ---------------------------------------------------------------------------------------------
  // When a finding is due
  // ---------------------------------------------------------------------------------------------

  /** The condition on the environment under which a mode that asks for `c` reports it. */
  predicate Due(c: Code, mode: Mode, see: View) {
    match c
    case RealGithubTestOptIn => see(On(RUN_REAL_GITHUB_TEST))
    case RealDiscordTestOptIn => see(On(RUN_REAL_DISCORD_TEST))
    case RealGithubTestMissingRepo => see(On(RUN_REAL_GITHUB_TEST)) && see(IsUnset(GITHUB_TEST_REPO))
    case RealGithubTestMissingToken => see(On(RUN_REAL_GITHUB_TEST)) && see(IsUnset(GITHUB_TOKEN))
    case RealDiscordMissingChannel => see(On(RUN_REAL_DISCORD_TEST)) && see(IsUnset(DISCORD_TEST_CHANNEL_ID))
    case RealDiscordMissingToken => see(On(RUN_REAL_DISCORD_TEST)) && see(IsUnset(DISCORD_BOT_TOKEN))
    case PlaceholderSecret(k) => see(HasPlaceholder(k))
    case PostgresTrustAuthForbidden => mode != Local && see(ReadsLower(POSTGRES_HOST_AUTH_METHOD, "trust"))
    case PostgresPasswordMissing => mode != Local && !see(IsReal(POSTGRES_PASSWORD))
    case VaultDevModeInStaging => mode == Staging && see(AtDevAddress) && see(On(ALLOW_VAULT_DEV_MODE_FOR_STAGING))
    case VaultDevModeForbidden =>
      mode != Local && see(AtDevAddress) && !(mode == Staging && see(On(ALLOW_VAULT_DEV_MODE_FOR_STAGING)))
    case AlertmanagerReceiverMissing => mode == ProductionCheck && !see(IsReal(ALERTMANAGER_WEBHOOK_URL))
    case SecretProviderUnknown => StoreIn(see) == UnknownStore
    case VaultAddrMissing => StoreIn(see) == VaultStore && see(IsUnset(VAULT_ADDR))
    case VaultTokenMissing => StoreIn(see) == VaultStore && !see(IsReal(VAULT_TOKEN))
    case MockVaultForbiddenInProduction => StoreIn(see) == MockVaultStore && mode == ProductionCheck
    case MockVaultInStaging => StoreIn(see) == MockVaultStore && mode == Staging
    case EnvProviderInProduction => StoreIn(see) == EnvStore && mode == ProductionCheck
    case TestRuntimeSecretProviderNotVault => !see(ReadsLower(SECRET_PROVIDER, "vault"))
    case TestRuntimeKvMountWrong => !see(Reads(VAULT_KV_MOUNT, "secret"))
    case TestRuntimeKvPathDeprecated => see(Reads(VAULT_KV_PATH, DEPRECATED_KV_PATH))
    case TestRuntimeKvPathWrong =>
      !see(Reads(VAULT_KV_PATH, DEPRECATED_KV_PATH)) && !see(Reads(VAULT_KV_PATH, TEST_RUNTIME_KV_PATH))
    case AnthropicKeyInEnvironment => !see(IsUnset(ANTHROPIC_API_KEY))
    case TestRuntimeReasoningProviderWrong => !see(ReadsLower(REASONING_PROVIDER, "anthropic"))
    case TestRuntimeReasoningModelWrong => !see(Reads(REASONING_MODEL, "claude-sonnet-5"))
    case LiveReasoningGateOpen => see(On(REASONING_LIVE_NETWORK_ENABLED))
    case ProductionExecutedTrue =>
      !see(IsUnset(PRODUCTION_EXECUTED_TRUE_COUNT)) && !see(Reads(PRODUCTION_EXECUTED_TRUE_COUNT, "0"))
    case InvalidMode => mode.Unsupported?
  }

  const TEST_RUNTIME_KV_PATH: string := "aiagents/test-runtime"
  const DEPRECATED_KV_PATH: string := "aiagents/staging"

  const REAL_TEST_CODES: seq<Code> := [RealGithubTestOptIn, RealDiscordTestOptIn]
  const GITHUB_CODES: seq<Code> := [RealGithubTestMissingRepo, RealGithubTestMissingToken]
  const DISCORD_CODES: seq<Code> := [RealDiscordMissingChannel, RealDiscordMissingToken]
  const VAULT_STORE_CODES: seq<Code> := [VaultAddrMissing, VaultTokenMissing]
  const MOCK_STORE_CODES: seq<Code> := [MockVaultForbiddenInProduction, MockVaultInStaging]
  const POSTGRES_CODES: seq<Code> := [PostgresTrustAuthForbidden, PostgresPasswordMissing]
  const VAULT_CODES: seq<Code> := [VaultDevModeInStaging, VaultDevModeForbidden]
  const KV_PLACE_CODES: seq<Code> := [TestRuntimeSecretProviderNotVault, TestRuntimeKvMountWrong]
  const KV_PATH_CODES: seq<Code> := [TestRuntimeKvPathDeprecated, TestRuntimeKvPathWrong]
  const REASONING_CODES: seq<Code> := [TestRuntimeReasoningProviderWrong, TestRuntimeReasoningModelWrong]

  function ProviderCodes(): seq<Code> {
    [SecretProviderUnknown] + VAULT_STORE_CODES + MOCK_STORE_CODES + [EnvProviderInProduction]
  }

  function SecretRailCodes(): seq<Code> { KV_PLACE_CODES + KV_PATH_CODES + [AnthropicKeyInEnvironment] }
  function ReasoningRailCodes(): seq<Code> { REASONING_CODES + [LiveReasoningGateOpen] }

  function PlaceholderCodes(fields: seq<Key>): (codes: seq<Code>)
    ensures |codes| == |fields| && forall i :: 0 <= i < |fields| ==> codes[i] == PlaceholderSecret(fields[i])
  {
    seq(|fields|, i requires 0 <= i < |fields| => PlaceholderSecret(fields[i]))
  }

  /** The findings every supported mode asks for, in the order of the report. */
  function CommonOrder(): seq<Code> { REAL_TEST_CODES + GITHUB_CODES + DISCORD_CODES + ProviderCodes() }

  function DeploymentOrder(fields: seq<Key>): seq<Code> {
    PlaceholderCodes(fields) + POSTGRES_CODES + VAULT_CODES + [AlertmanagerReceiverMissing]
  }

  function ModeOrder(mode: Mode): seq<Code> {
    match mode
    case Local => []
    case Staging => DeploymentOrder([POSTGRES_PASSWORD])
    case ProductionCheck => DeploymentOrder(SECRET_FIELDS) + [ProductionExecutedTrue]
    case TestRuntime => SecretRailCodes() + ReasoningRailCodes() + [ProductionExecutedTrue]
    case Unsupported(_) => []
  }

  /** The findings a mode asks for, in the order of the report. */
  function Order(mode: Mode): seq<Code> {
    if mode.Unsupported? then [InvalidMode] else CommonOrder() + ModeOrder(mode)
  }

  // ---------------------------------------------------------------------------------------------
  // What a finding says
  // ---------------------------------------------------------------------------------------------

  function OrUnset(s: string): string { if s == "" then "<unset>" else s }

  function HexDigit(n: int): char
    requires 0 <= n < 16
  {
    "0123456789abcdef"[n]
  }

  /** One character inside a `repr` quoted with `q`. */
  function Escaped(c: char, q: char): string {
    if c == q || c == '\\' then ['\\', c]
    else if c == '\n' then "\\n"
    else if c == '\r' then "\\r"
    else if c == '\t' then "\\t"
    else if (c as int) < 32 || c as int == 127 then ['\\', 'x', HexDigit(c as int / 16), HexDigit(c as int % 16)]
    else [c]
  }

  function EscapedText(s: string, q: char): string {
    if s == "" then "" else Escaped(s[0], q) + EscapedText(s[1..], q)
  }

  /** `repr` of a string. */
  function Repr(s: string): string {
    var q := if '\'' in s && '"' !in s then '"' else '\'';
    [q] + EscapedText(s, q) + [q]
  }

  /** A message quotes at most one value of the environment: the text before it, or all of it, */
  function Opening(c: Code, mode: Mode): string {
    match c
    case RealGithubTestOptIn =>
      "RUN_REAL_GITHUB_TEST=true \U{2014} the Stage 23 controlled-real GitHub flow is enabled. "
      + "Confirm GITHUB_TEST_REPO is set and the operator is opted in deliberately."
    case RealDiscordTestOptIn =>
      "RUN_REAL_DISCORD_TEST=true \U{2014} the Stage 22 controlled-real Discord delivery is enabled. "
      + "Confirm DISCORD_TEST_CHANNEL_ID is set and the operator is opted in deliberately."
    case RealGithubTestMissingRepo =>
      "RUN_REAL_GITHUB_TEST=true but GITHUB_TEST_REPO is empty. The Stage 23 safety guard will refuse "
      + "every call until GITHUB_TEST_REPO is set to the pinned sandbox repository."
    case RealGithubTestMissingToken =>
      "RUN_REAL_GITHUB_TEST=true but GITHUB_TOKEN is empty. The Stage 23 safety guard will refuse "
      + "with reason=missing_github_token."
    case RealDiscordMissingChannel =>
      "RUN_REAL_DISCORD_TEST=true but DISCORD_TEST_CHANNEL_ID is empty. "
      + "The Stage 22 notification-worker will refuse every call."
    case RealDiscordMissingToken =>
      "RUN_REAL_DISCORD_TEST=true but DISCORD_BOT_TOKEN is empty. "
      + "The Stage 22 notification-worker will refuse every call."
    case PlaceholderSecret(k) =>
      Name(k) + " still carries the literal placeholder marker \U{2014} this is unsafe outside local mode."
    case PostgresTrustAuthForbidden =>
      "POSTGRES_HOST_AUTH_METHOD=trust is allowed only in local mode. "
      + "Staging / production-check require real auth."
    case PostgresPasswordMissing =>
      "POSTGRES_PASSWORD must be set to a real value in " + ModeName(mode)
      + " mode (placeholder values are rejected)."
    case VaultDevModeInStaging =>
      "Vault dev-mode is enabled in staging because ALLOW_VAULT_DEV_MODE_FOR_STAGING=true. "
      + "This is an escape hatch \U{2014} flip back to a real Vault server."
    case AlertmanagerReceiverMissing =>
      "ALERTMANAGER_WEBHOOK_URL is empty/placeholder. "
      + "The production-check mode expects a configured webhook."
    case VaultAddrMissing => "SECRET_PROVIDER=vault requires VAULT_ADDR to be set."
    case VaultTokenMissing =>
      "SECRET_PROVIDER=vault requires VAULT_TOKEN to be a real value (placeholder rejected)."
    case MockVaultForbiddenInProduction =>
      "SECRET_PROVIDER=mock-vault is allowed only in local/staging. "
      + "Production must point at a real secret store."
    case MockVaultInStaging =>
      "SECRET_PROVIDER=mock-vault is the staging validation escape hatch \U{2014} "
      + "not a production-ready secret store."
    case EnvProviderInProduction =>
      "SECRET_PROVIDER=env is unacceptable in production-check. "
      + "Wire VAULT_ADDR/VAULT_TOKEN and switch to SECRET_PROVIDER=vault."
    case AnthropicKeyInEnvironment =>
      "ANTHROPIC_API_KEY is set in the process environment. The live reasoning credential belongs in "
      + "Vault at the canonical path, not in an env var, a compose file or an env file -- an env-borne "
      + "copy survives in shell history, `docker inspect` and process listings."
    case LiveReasoningGateOpen =>
      "REASONING_LIVE_NETWORK_ENABLED=true. AT-M3.6B.2 Live Validation is NOT AUTHORIZED; this runtime "
      + "is prepared for a live rail and must not be able to use one."
    case InvalidMode => "unsupported mode " + Repr(ModeName(mode))
    case VaultDevModeForbidden => "Vault address "
    case SecretProviderUnknown => "SECRET_PROVIDER="
    case TestRuntimeSecretProviderNotVault => "SECRET_PROVIDER="
    case TestRuntimeKvMountWrong => "VAULT_KV_MOUNT="
    case TestRuntimeKvPathDeprecated => "VAULT_KV_PATH="
    case TestRuntimeKvPathWrong => "VAULT_KV_PATH="
    case TestRuntimeReasoningProviderWrong => "REASONING_PROVIDER="
    case TestRuntimeReasoningModelWrong => "REASONING_MODEL="
    case ProductionExecutedTrue => "PRODUCTION_EXECUTED_TRUE_COUNT="
  }

  /** the value it quotes, */
  function Quoted(c: Code, f: Facts): string {
    match c
    case VaultDevModeForbidden => Repr(f.text(VAULT_ADDR))
    case SecretProviderUnknown => Repr(f.provider)
    case TestRuntimeSecretProviderNotVault => Repr(OrUnset(Lower(f.text(SECRET_PROVIDER))))
    case TestRuntimeKvMountWrong => Repr(OrUnset(f.text(VAULT_KV_MOUNT)))
    case TestRuntimeKvPathDeprecated => Repr(f.text(VAULT_KV_PATH))
    case TestRuntimeKvPathWrong => Repr(OrUnset(f.text(VAULT_KV_PATH)))
    case TestRuntimeReasoningProviderWrong => Repr(OrUnset(Lower(f.text(REASONING_PROVIDER))))
    case TestRuntimeReasoningModelWrong => Repr(OrUnset(f.text(REASONING_MODEL)))
    case ProductionExecutedTrue => f.text(PRODUCTION_EXECUTED_TRUE_COUNT)
    case _ => ""
  }

  /** and the text after it. */
  function Ending(c: Code, mode: Mode): string {
    match c
    case VaultDevModeForbidden =>
      " points at the local dev container. "
      + ModeName(mode)
      + " mode requires a real Vault server."
    case SecretProviderUnknown =>
      " is not one of ['env', 'mock-vault', 'vault']."
    case TestRuntimeSecretProviderNotVault =>
      ": the AT-M3.6B.2 test runtime must read its credential from Vault. An unset or unrecognised "
      + "value resolves to EnvSecretProvider silently, which would look configured and read os.environ."
    case TestRuntimeKvMountWrong =>
      "; the canonical test-runtime mount is 'secret'."
    case TestRuntimeKvPathDeprecated =>
      " is the SecretProvider's built-in default and names the staging environment decommissioned "
      + "at Step 66A.0. The test runtime uses 'aiagents/test-runtime'."
    case TestRuntimeKvPathWrong =>
      "; the canonical test-runtime path is 'aiagents/test-runtime'. "
      + "Unset falls back to the deprecated default."
    case TestRuntimeReasoningProviderWrong =>
      "; AT-D24 authorized 'anthropic' and nothing else."
    case TestRuntimeReasoningModelWrong =>
      "; the one allowlisted model is 'claude-sonnet-5'."
    case ProductionExecutedTrue =>
      " \U{2014} at least one row reports production_executed=true. "
      + "The platform must stay at 0 unless a real production deploy was authorised."
    case _ => ""
  }

  function Message(c: Code, mode: Mode, f: Facts): string { Opening(c, mode) + Quoted(c, f) + Ending(c, mode) }

  function FindingOf(c: Code, mode: Mode, f: Facts): Finding {
    Finding(Spelled(c), Message(c, mode, f), SeverityOf(c), FieldOf(c))
  }

  // ---------------------------------------------------------------------------------------------
  // The report a mode owes an environment
  // ---------------------------------------------------------------------------------------------

  /** Of the codes asked for, those that are due, worded by `say`, in order. */
  function Reported(codes: seq<Code>, due: Code -> bool, say: Code -> Finding): seq<Finding> {
    if codes == [] then []
    else (if due(codes[0]) then [say(codes[0])] else []) + Reported(codes[1..], due, say)
  }

  function DueIn(mode: Mode, see: View): Code -> bool { c => Due(c, mode, see) }
  function SayIn(mode: Mode, f: Facts): Code -> Finding { c => FindingOf(c, mode, f) }

  function Findings(env: Env, mode: Mode): seq<Finding> {
    Reported(Order(mode), DueIn(mode, Of(env)), SayIn(mode, FactsOf(env)))
  }

  /** No finding of severity `Fail`. */
  predicate Passed(findings: seq<Finding>) {
    forall f :: f in findings ==> f.severity != Fail
  }

  predicate Passes(env: Env, mode: Mode) { Passed(Findings(env, mode)) }

  lemma {:induction false} ReportedConcat(a: seq<Code>, b: seq<Code>, due: Code -> bool, say: Code -> Finding)
    ensures Reported(a + b, due, say) == Reported(a, due, say) + Reported(b, due, say)
  {
    if a == [] {
      assert a + b == b;
    } else {
      assert (a + b)[0] == a[0] && (a + b)[1..] == a[1..] + b;
      ReportedConcat(a[1..], b, due, say);
      var first := if due(a[0]) then [say(a[0])] else [];
      Associative(first, Reported(a[1..], due, say), Reported(b, due, say));
    }
  }

  /** A finding is in the report exactly when some code asked for is due and words it. */
  lemma {:induction false} ReportedExactly(codes: seq<Code>, due: Code -> bool, say: Code -> Finding, f: Finding)
    ensures f in Reported(codes, due, say) <==> exists c :: c in codes && due(c) && f == say(c)
  {
    if codes != [] {
      ReportedExactly(codes[1..], due, say, f);
      assert forall c :: c in codes <==> c == codes[0] || c in codes[1..];
    }
  }

  lemma AskOne(c: Code, due: Code -> bool, say: Code -> Finding)
    ensures Reported([c], due, say) == if due(c) then [say(c)] else []
  {
    assert [c][1..] == [];
  }

  lemma AskTwo(a: Code, b: Code, due: Code -> bool, say: Code -> Finding)
    ensures Reported([a, b], due, say) == (if due(a) then [say(a)] else []) + (if due(b) then [say(b)] else [])
  {
    AskOne(b, due, say);
    assert [a, b][1..] == [b];
  }

  lemma AskSix(
    before: seq<Finding>, a: Code, b: Code, c: Code, d: Code, e: Code, f: Code,
    due: Code -> bool, say: Code -> Finding)
    ensures before + Reported([a] + [b, c] + [d, e] + [f], due, say)
      == before + (if due(a) then [say(a)] else []) + (if due(b) then [say(b)] else [])
         + (if due(c) then [say(c)] else []) + (if due(d) then [say(d)] else [])
         + (if due(e) then [say(e)] else []) + (if due(f) then [say(f)] else [])
  {
    ThenFour(before, [a], [b, c], [d, e], [f], due, say);
    AskOne(a, due, say);
    AskTwo(b, c, due, say);
    AskTwo(d, e, due, say);
    AskOne(f, due, say);
    var pair := before + (if due(a) then [say(a)] else []);
    Associative(pair, if due(b) then [say(b)] else [], if due(c) then [say(c)] else []);
    pair := pair + (if due(b) then [say(b)] else []) + (if due(c) then [say(c)] else []);
    Associative(pair, if due(d) then [say(d)] else [], if due(e) then [say(e)] else []);
  }

  lemma ThenTwo(before: seq<Finding>, a: seq<Code>, b: seq<Code>, due: Code -> bool, say: Code -> Finding)
    ensures before + Reported(a, due, say) + Reported(b, due, say) == before + Reported(a + b, due, say)
  {
    ReportedConcat(a, b, due, say);
    Associative(before, Reported(a, due, say), Reported(b, due, say));
  }

  lemma ThenThree(
    before: seq<Finding>, a: seq<Code>, b: seq<Code>, c: seq<Code>, due: Code -> bool, say: Code -> Finding)
    ensures before + Reported(a, due, say) + Reported(b, due, say) + Reported(c, due, say)
            == before + Reported(a + b + c, due, say)
  {
    ThenTwo(before, a, b, due, say);
    ThenTwo(before, a + b, c, due, say);
  }

  lemma ThenFour(
    before: seq<Finding>, a: seq<Code>, b: seq<Code>, c: seq<Code>, d: seq<Code>,
    due: Code -> bool, say: Code -> Finding)
    ensures before + Reported(a, due, say) + Reported(b, due, say) + Reported(c, due, say) + Reported(d, due, say)
            == before + Reported(a + b + c + d, due, say)
  {
    ThenThree(before, a, b, c, due, say);
    ThenTwo(before, a + b + c, d, due, say);
  }

  lemma Associative(a: seq<Finding>, b: seq<Finding>, c: seq<Finding>)
    ensures a + (b + c) == a + b + c
  {
  }
}
