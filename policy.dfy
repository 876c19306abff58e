/** The session policy of the auth service: token lifetimes by client
    source, the fixed lifetimes of the older issuance path, and the source a
    login records. All durations are in seconds. */
module Policy {

  const Minute: int := 60
  const Hour: int := 60 * Minute
  const Day: int := 24 * Hour

  const ExtensionSource: string := "extension"
  const WebSource: string := "web"

  /** The fixed lifetimes used by registration: 24 hours and 7 days. */
  const LegacyAccessTtl: int := 24 * Hour
  const LegacyRefreshTtl: int := 7 * Day

  /** Access-token lifetime by source: an hour for the browser extension,
      fifteen minutes for every other source. */
  function AccessTtl(source: string): (ttl: int)
    ensures ttl > 0
  {
    if source == ExtensionSource then 1 * Hour else 15 * Minute
  }

  /** Refresh-token lifetime by source: 90 days for the browser extension,
      30 days for every other source. */
  function RefreshTtl(source: string): (ttl: int)
    ensures ttl > AccessTtl(source)
  {
    if source == ExtensionSource then 90 * Day else 30 * Day
  }

  /** Login's treatment of the requested source: empty means "web". */
  function LoginSource(requested: string): (source: string)
    ensures source != ""
    ensures requested == "" ==> source == WebSource
    ensures requested != "" ==> source == requested
  {
    if requested == "" then WebSource else requested
  }

  /** The lifetimes in seconds, exactly: 3600 / 7776000 for "extension",
      900 / 2592000 for anything else (including "web" and the empty source),
      and 86400 / 604800 on the fixed path. */
  lemma PolicyTable(source: string)
    ensures AccessTtl(ExtensionSource) == 3600 && RefreshTtl(ExtensionSource) == 7776000
    ensures source != ExtensionSource ==> AccessTtl(source) == 900 && RefreshTtl(source) == 2592000
    ensures AccessTtl(WebSource) == 900 && RefreshTtl(WebSource) == 2592000
    ensures LegacyAccessTtl == 86400 && LegacyRefreshTtl == 604800
  {
  }

  /** The extension's tokens outlive every other source's, for both kinds. */
  lemma ExtensionLivesLonger(source: string)
    requires source != ExtensionSource
    ensures AccessTtl(source) < AccessTtl(ExtensionSource)
    ensures RefreshTtl(source) < RefreshTtl(ExtensionSource)
  {
  }

  /** Only the literal "extension" gets the long lifetimes: a login with an
      empty source gets the same lifetimes as "web". */
  lemma EmptySourceIsWeb()
    ensures AccessTtl(LoginSource("")) == AccessTtl(WebSource)
    ensures RefreshTtl(LoginSource("")) == RefreshTtl(WebSource)
  {
  }
}
