/** lib/env.ts: the configuration the other modules read through `getEnv`,
    after its defaults have been applied. Loading and validating the process
    environment is not part of this model; the record is a parameter. */
module Env {
  import opened Wrappers

  const DefaultAnalyticsSalt: string := "shiftcal-analytics-salt"
  const DefaultCodeSignKeyId: string := "main"
  const DefaultCodeSignAlg: string := "rsa-v1_5-sha256"

  /** The settings used by the modelled core. */
  datatype AppEnv = AppEnv(
    appBaseUrl: Option<string>,
    adminToken: Option<string>,
    analyticsSalt: string,
    privateKeyPem: Option<string>,
    codeSignKeyId: string,
    codeSignAlg: string)

  /** The configuration with the schema defaults for the settings that were
      not given (`undefined` in the environment). */
  function WithDefaults(appBaseUrl: Option<string>, adminToken: Option<string>, analyticsSalt: Option<string>,
                        privateKeyPem: Option<string>, codeSignKeyId: Option<string>, codeSignAlg: Option<string>): (e: AppEnv)
    ensures analyticsSalt.None? ==> e.analyticsSalt == DefaultAnalyticsSalt
    ensures codeSignKeyId.None? ==> e.codeSignKeyId == DefaultCodeSignKeyId
    ensures codeSignAlg.None? ==> e.codeSignAlg == DefaultCodeSignAlg
    ensures analyticsSalt.Some? ==> e.analyticsSalt == analyticsSalt.value
    ensures codeSignKeyId.Some? ==> e.codeSignKeyId == codeSignKeyId.value
    ensures codeSignAlg.Some? ==> e.codeSignAlg == codeSignAlg.value
    ensures e.appBaseUrl == appBaseUrl && e.adminToken == adminToken && e.privateKeyPem == privateKeyPem
  {
    AppEnv(appBaseUrl, adminToken, analyticsSalt.GetOr(DefaultAnalyticsSalt), privateKeyPem,
           codeSignKeyId.GetOr(DefaultCodeSignKeyId), codeSignAlg.GetOr(DefaultCodeSignAlg))
  }

  /** `requireEnv`: the setting, or a failure naming it when it is absent or
      empty. */
  function RequireSetting(name: string, value: Option<string>): (r: Result<string, string>)
    ensures r.Success? <==> Truthy(value)
    ensures r.Success? ==> r.value == value.value
    ensures r.Failure? ==> r.error == "Missing required environment variable: " + name
  {
    if Truthy(value) then Success(value.value)
    else Failure("Missing required environment variable: " + name)
  }
}
