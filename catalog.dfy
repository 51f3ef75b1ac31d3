/**
  The patcher's fixed data: the endpoint roles, the table of known URL
  patterns per role (`KNOWN_PATTERNS`) and the run configuration with its
  defaults (`DEFAULT_CONFIG`), including the environment overrides.
 */
module Catalog {
  import opened Wrappers
  import opened Text

  /** The endpoint roles, in the order `patchContent` visits them. */
  datatype Role = Api | Auth | Ws | Nimbus | Checkout | Assets

  const RoleOrder: seq<Role> := [Api, Auth, Ws, Nimbus, Checkout, Assets]

  /** One target URL per role; only the assets target may be unset. */
  datatype Config = Config(
    apiUrl: string,
    authUrl: string,
    wsUrl: string,
    nimbusUrl: string,
    checkoutUrl: string,
    assetsUrl: Option<string>)

  /** The environment variables the defaults are read from, by name. */
  type Env = map<string, string>

  /** `process.env[name] || fallback`: an unset or empty variable falls back. */
  function EnvOr(env: Env, name: string, fallback: string): (r: string)
    ensures name in env && env[name] != "" ==> r == env[name]
    ensures (name !in env || env[name] == "") ==> r == fallback
  {
    if name in env && env[name] != "" then env[name] else fallback
  }

  /**
    `DEFAULT_CONFIG` as it is built from the environment. Every target is
    non-empty, and the assets role is switched on exactly when
    `ASSETS_URL` is set to a non-empty value.
   */
  function DefaultConfig(env: Env): (c: Config)
    ensures AssetsEnabled(c) <==> "ASSETS_URL" in env && env["ASSETS_URL"] != ""
    ensures c.assetsUrl.Some? ==> AssetsEnabled(c)
    ensures forall role :: role != Assets || AssetsEnabled(c) ==> Target(c, role) != ""
  {
    Config(
      EnvOr(env, "API_URL", "http://localhost:3001"),
      EnvOr(env, "AUTH_URL", "http://localhost:3001/auth"),
      EnvOr(env, "WS_URL", "ws://localhost:3001/ws"),
      EnvOr(env, "NIMBUS_URL", "http://localhost:3001"),
      EnvOr(env, "CHECKOUT_URL", "http://localhost:3001/checkout"),
      if "ASSETS_URL" in env && env["ASSETS_URL"] != "" then Some(env["ASSETS_URL"]) else None)
  }

  /** The environment variable that overrides a role's target. */
  function EnvName(role: Role): string {
    match role
    case Api => "API_URL"
    case Auth => "AUTH_URL"
    case Ws => "WS_URL"
    case Nimbus => "NIMBUS_URL"
    case Checkout => "CHECKOUT_URL"
    case Assets => "ASSETS_URL"
  }

  /**
    Each role's default target is its own variable when that is set and
    non-empty, and otherwise the built-in fallback (none for assets).
   */
  lemma DefaultTarget(env: Env, role: Role)
    ensures Target(DefaultConfig(env), role)
            == if EnvName(role) in env && env[EnvName(role)] != "" then env[EnvName(role)]
               else Target(Defaults, role)
  {
  }

  /**
    Setting one role's variable changes that role's target and no other,
    and switches the assets role only when it is the assets variable.
   */
  lemma OverrideOwnRole(env: Env, role: Role, v: string, other: Role)
    requires other != role
    ensures Target(DefaultConfig(env[EnvName(role) := v]), other) == Target(DefaultConfig(env), other)
    ensures AssetsEnabled(DefaultConfig(env[EnvName(role) := v]))
            == if role == Assets then v != "" else AssetsEnabled(DefaultConfig(env))
  {
    EnvNamesDistinct(role, other);
    DefaultTarget(env, other);
    DefaultTarget(env[EnvName(role) := v], other);
  }

  lemma EnvNamesDistinct(a: Role, b: Role)
    requires a != b
    ensures EnvName(a) != EnvName(b)
  {
    assert EnvName(a)[0] != EnvName(b)[0] || EnvName(a)[1] != EnvName(b)[1];
  }

  /** The defaults with no environment overrides. */
  const Defaults: Config := DefaultConfig(map[])

  /** `if (config.assetsUrl)`: the assets role is visited only when set and non-empty. */
  predicate AssetsEnabled(config: Config) {
    config.assetsUrl.Some? && config.assetsUrl.value != ""
  }

  /** The replacement value the configuration gives a role. */
  function Target(config: Config, role: Role): string {
    match role
    case Api => config.apiUrl
    case Auth => config.authUrl
    case Ws => config.wsUrl
    case Nimbus => config.nimbusUrl
    case Checkout => config.checkoutUrl
    case Assets => if config.assetsUrl.Some? then config.assetsUrl.value else ""
  }

  /**
    `KNOWN_PATTERNS`: production first, then staging variants; four
    patterns for the API, auth and Nimbus roles, two for the others, none
    of them empty.
   */
  function KnownPatterns(role: Role): (pats: seq<string>)
    ensures |pats| == if role in {Api, Auth, Nimbus} then 4 else 2
    ensures forall k :: 0 <= k < |pats| ==> pats[k] != ""
  {
    match role
    case Api => [
      "https://hydra-api-us-east-1.losbroxas.org",
      "https://api.hydralauncher.gg",
      "https://staging-api.hydralauncher.gg",
      "https://staging-hydra-api.losbroxas.org"]
    case Auth => [
      "https://auth.hydra.losbroxas.org",
      "https://auth.hydralauncher.gg",
      "https://staging-auth.hydralauncher.gg",
      "https://staging-auth.hydra.losbroxas.org"]
    case Ws => [
      "wss://ws.hydralauncher.gg",
      "wss://staging-ws.hydralauncher.gg"]
    case Nimbus => [
      "https://api.hydranimbus.com",
      "https://nimbus.hydralauncher.gg",
      "https://staging-nimbus.hydralauncher.gg",
      "https://staging-api.hydranimbus.com"]
    case Checkout => [
      "https://checkout.hydralauncher.gg",
      "https://staging-checkout.hydralauncher.gg"]
    case Assets => [
      "https://assets.hydralauncher.gg",
      "https://cdn.losbroxas.org"]
  }

  /** Every known pattern is a non-empty, so splittable, literal. */
  lemma PatternsNonEmpty(role: Role)
    ensures forall k :: 0 <= k < |KnownPatterns(role)| ==> KnownPatterns(role)[k] != ""
  {
  }

  /**
    Apart from the WebSocket role, every known pattern is an `https` URL, so
    it holds the letter `p`.
   */
  lemma HttpsPatterns(role: Role)
    requires role != Ws
    ensures forall k :: 0 <= k < |KnownPatterns(role)| ==> 'p' in KnownPatterns(role)[k]
  {
    var pats := KnownPatterns(role);
    forall k | 0 <= k < |pats| ensures 'p' in pats[k] {
      PatternHttps(role, k);
    }
  }

  /** Each non-WebSocket pattern has the `p` of `https` at index 3. */
  lemma PatternHttps(role: Role, k: nat)
    requires role != Ws && k < |KnownPatterns(role)|
    ensures KnownPatterns(role)[k][3] == 'p'
  {
    match role
    case Api =>
    case Auth =>
    case Nimbus =>
    case Checkout =>
    case Assets =>
  }
}
