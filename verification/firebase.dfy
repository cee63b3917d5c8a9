/**
 * The request router in front of Firebase: it keeps the project identity, the
 * cache seed, the global headers and a rewrite matcher, and decides for each
 * request path whether the static-hosting origin or a cloud function serves it.
 */
module Firebase {
  import opened Wrappers
  import opened Rewrites

  /** A backend URL, represented by what it is built from. */
  datatype Endpoint =
    | HostingEndpoint(projectID: string)
    | CloudFuncEndpoint(projectID: string, func: string)

  /** The hosting configuration; only its rewrite rules are used here. */
  datatype FirebaseConfig = FirebaseConfig(rewrites: seq<Rewrite>)

  /** Extra response headers; a header may be set to `null`. */
  type HeaderOptions = map<string, Option<string>>

  /** The optional extras: headers to add and the cache seed. */
  datatype ExtraOptions = ExtraOptions(headers: Option<HeaderOptions>, seed: Option<string>)

  /** Firebase's reserved namespace, always served by hosting. */
  const ReservedPrefix: string := "/__/"

  const DefaultSeed: string := "42"

  /** `pathname.startsWith('/__/')`. */
  predicate IsReserved(pathname: string)
    ensures IsReserved(pathname) ==> HasLeadingSlash(pathname)
    ensures IsReserved(pathname) <==>
              4 <= |pathname| && pathname[0] == '/' && pathname[1] == '_' && pathname[2] == '_' && pathname[3] == '/'
  {
    ReservedPrefix <= pathname
  }

  /** JavaScript truthiness of a `string | null`: present and not empty. */
  predicate Truthy(name: Option<string>)
    ensures Truthy(name) <==> name != None && name != Some("")
  {
    name.Some? && name.value != ""
  }

  /** The global headers: those of `extra` when given, otherwise none. */
  function GlobalHeaders(extra: Option<ExtraOptions>): (headers: HeaderOptions)
    ensures extra.Some? && extra.value.headers.Some? ==> headers == extra.value.headers.value
    ensures extra.None? || extra.value.headers.None? ==> headers == map[]
  {
    match extra
    case Some(ExtraOptions(Some(h), _)) => h
    case _ => map[]
  }

  /** The cache seed: `extra.seed` when it is given and not empty, otherwise "42". */
  function CacheSeed(extra: Option<ExtraOptions>): (seed: string)
    ensures seed != ""
    ensures extra.Some? && Truthy(extra.value.seed) ==> seed == extra.value.seed.value
    ensures !(extra.Some? && Truthy(extra.value.seed)) ==> seed == DefaultSeed
  {
    match extra
    case Some(ExtraOptions(_, Some(s))) => if s != "" then s else DefaultSeed
    case _ => DefaultSeed
  }

  class FirebaseOnCloudflare {
    var matcher: Matcher
    var projectID: string
    var hostingEndpoint: Endpoint
    var globalHeaders: HeaderOptions
    var seed: string

    /** The hosting endpoint belongs to the project and the seed is never empty. */
    ghost predicate Valid()
      reads this
    {
      hostingEndpoint == HostingEndpoint(projectID) && seed != ""
    }

    /** The matcher holds the tables built from `rules`. */
    ghost predicate RoutesBy(rules: seq<Rewrite>, engine: GlobEngine)
      reads this, matcher
    {
      matcher.globs == GlobTable(rules, engine) && matcher.exacts == ExactTable(rules, engine.isGlob)
    }

    constructor (projectID: string, config: FirebaseConfig, extra: Option<ExtraOptions>, engine: GlobEngine)
      ensures Valid() && fresh(matcher)
      ensures this.projectID == projectID
      ensures RoutesBy(config.rewrites, engine)
      ensures globalHeaders == GlobalHeaders(extra)
      ensures seed == CacheSeed(extra)
    {
      this.projectID := projectID;
      matcher := new Matcher(config.rewrites, engine);
      hostingEndpoint := HostingEndpoint(projectID);
      globalHeaders := GlobalHeaders(extra);
      seed := CacheSeed(extra);
    }

    /**
     * The backend for a request path: hosting for the reserved namespace and
     * for paths no rule names a function for, otherwise that cloud function.
     */
    function GetEndpoint(pathname: string): (e: Endpoint)
      reads this, matcher
      ensures IsReserved(pathname) ==> e == hostingEndpoint
      ensures !Truthy(LookupIn(matcher.exacts, matcher.globs, pathname)) ==> e == hostingEndpoint
      ensures !IsReserved(pathname) && Truthy(LookupIn(matcher.exacts, matcher.globs, pathname)) ==>
                e == CloudFuncEndpoint(projectID, LookupIn(matcher.exacts, matcher.globs, pathname).value)
    {
      var funcname := LookupIn(matcher.exacts, matcher.globs, pathname);
      var isReserved := IsReserved(pathname);
      if isReserved || !Truthy(funcname) then hostingEndpoint
      else CloudFuncEndpoint(projectID, funcname.value)
    }
  }

  /**
   * End to end: a router built from `rules` sends a path to a cloud function
   * exactly when the path is not reserved and the rule list resolves it to a
   * non-empty name, and then to that function of its own project.
   */
  lemma RoutingResolves(router: FirebaseOnCloudflare, rules: seq<Rewrite>, engine: GlobEngine, pathname: string)
    requires router.Valid() && router.RoutesBy(rules, engine)
    ensures router.GetEndpoint(pathname).CloudFuncEndpoint? <==>
              !IsReserved(pathname) && Truthy(Resolve(rules, engine, pathname))
    ensures router.GetEndpoint(pathname).CloudFuncEndpoint? ==>
              router.GetEndpoint(pathname) == CloudFuncEndpoint(router.projectID, Resolve(rules, engine, pathname).value)
    ensures router.GetEndpoint(pathname).HostingEndpoint? ==>
              router.GetEndpoint(pathname) == HostingEndpoint(router.projectID)
  {
    MatchResolves(rules, engine, pathname);
  }

  /** Whatever the matcher answers, a reserved path goes to hosting. */
  lemma ReservedGoesToHosting(router: FirebaseOnCloudflare, pathname: string)
    requires router.Valid()
    requires IsReserved(pathname)
    ensures router.GetEndpoint(pathname) == HostingEndpoint(router.projectID)
  {
  }

  /** The decision depends only on the path, the project and the matcher's answer. */
  lemma RoutingDependsOnlyOnInputs(a: FirebaseOnCloudflare, b: FirebaseOnCloudflare, pathname: string)
    requires a.Valid() && b.Valid() && a.projectID == b.projectID
    requires LookupIn(a.matcher.exacts, a.matcher.globs, pathname) == LookupIn(b.matcher.exacts, b.matcher.globs, pathname)
    ensures a.GetEndpoint(pathname) == b.GetEndpoint(pathname)
  {
  }
}
