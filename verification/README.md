# Firebase rewrites on Cloudflare: the routing decision

This project models, in Dafny, how the Cloudflare worker of
`proxies-on-cloudflare` decides where a request for a Firebase-hosted site goes.

- `Rewrites` (`rewrites.dfy`) models the `Matcher` of `src/firebase/rewrites.ts`.
  Its constructor splits the configuration's `{source, function}` rewrite rules.
  Glob rules are normalised by `PathGlob` to start with `/`, compiled, and kept
  in declaration order. The other rules are folded into an exact table, where
  the last rule for a source wins. `Match` looks the path up in the exact table
  first, then scans the globs in order and returns the first hit, or `None`
  (JavaScript `null`).
- `Firebase` (`firebase.dfy`) models `FirebaseOnCloudflare` of `src/firebase.ts`.
  The constructor keeps the project ID, builds the matcher and the hosting
  endpoint, and fills in the defaults for the global headers and the cache seed.
  `GetEndpoint` sends the reserved `/__/` namespace to hosting. It also sends to
  hosting any path for which the matcher gives no name or an empty name. Every
  other path goes to the cloud function the matcher names.
- `Wrappers` (`wrappers.dfy`) holds `Option`.

The glob collaborator (`isGlob`, `globToRegex` from `src/globs`) is not part of
this model. It is a `GlobEngine` value holding two functions, which is passed
to the constructors, so every result holds for every glob engine. A compiled
regex is the function `string -> bool` that its `test` computes.

Endpoint construction (`fbhostingEndpoint`, `cloudfuncEndpoint` from
`src/firebase/urls.ts`) is not part of this model either. An endpoint is the
`Endpoint` datatype, which records what the URL is built from.

The reference specification is `Resolve`. It reads the answer off the raw rule
list: the last exact rule for the path, otherwise the first glob rule in
declaration order whose normalised source accepts the path, otherwise none.
`MatchResolves` proves that the matcher built from a rule list answers every
path as `Resolve` does. `RoutingResolves` carries this through to the router.

## Model

| member | source | states |
|---|---|---|
| `Rewrites.PathGlob` | src/firebase/rewrites.ts:54-58 | the result always starts with `/`; an input already starting with `/` is returned unchanged, any other gets `/` prefixed |
| `Rewrites.PathGlobIdempotent` | src/firebase/rewrites.ts:55-58 | normalising twice is normalising once |
| `Rewrites.PathGlobFixedPoints` | src/firebase/rewrites.ts:55-58 | `PathGlob` leaves a string alone exactly when it already starts with `/` |
| `Rewrites.Select` | src/firebase/rewrites.ts:19-20 | the filter keeps only rules of the requested kind, drawn from the input, never more than the input |
| `Rewrites.SelectKeeps` | src/firebase/rewrites.ts:19-20 | the filter drops no input rule of the requested kind |
| `Rewrites.CompileGlobs` | src/firebase/rewrites.ts:21-24 | one compiled glob per rule, at the same position, carrying that rule's function and the regex of its normalised source |
| `Rewrites.SelectPartition` | src/firebase/rewrites.ts:19-28 | the glob and exact selections together hold every rule exactly once (as multisets) |
| `Rewrites.ExactTableLookup` | src/firebase/rewrites.ts:27-32 | a path is a key of the exact table iff some exact rule has it as source, and it maps to the function of the last such rule |
| `Rewrites.LastWriteWins` | src/firebase/rewrites.ts:29-32 | the exact table maps the source of the last exact rule with that source to that rule's function |
| `Rewrites.ExactKeys` | src/firebase/rewrites.ts:27-32 | the exact table's keys are exactly the sources of the non-glob rules, verbatim |
| `Rewrites.Reduce` | src/firebase/rewrites.ts:29-32 | the fold keeps every key of the accumulator, adds every rule's source as a key and no other key, and the last rule's source maps to the last rule's function |
| `Rewrites.ReduceSnoc` | src/firebase/rewrites.ts:29-32 | folding one more rule overwrites that rule's source with its function and leaves the rest of the map as it was |
| `Rewrites.GlobTable` | src/firebase/rewrites.ts:19-24 | the `globs` pipeline has exactly one entry per glob rule the filter keeps, so no more entries than there are rules |
| `Rewrites.GlobTableEntries` | src/firebase/rewrites.ts:19-24 | each entry of the `globs` table carries the function and the compiled normalised source of some glob rule of the input |
| `Rewrites.ExactTable` | src/firebase/rewrites.ts:27-32 | the `exacts` pipeline has every non-glob rule's source as a key, and each key is the verbatim source of some non-glob rule |
| `Rewrites.FirstMatch` | src/firebase/rewrites.ts:42-47 | none iff no glob accepts the path; otherwise the function of a glob that accepts it with no earlier glob accepting it |
| `Rewrites.LookupIn` | src/firebase/rewrites.ts:36-51 | an exact key answers with its table entry; otherwise the first accepting glob answers; none iff the path is no exact key and no glob accepts it |
| `Rewrites.Matcher.constructor` | src/firebase/rewrites.ts:17-33 | `globs` is the compiled, order-preserving list of glob rules and `exacts` the fold of the exact rules |
| `Rewrites.Matcher.Match` | src/firebase/rewrites.ts:36-51 | the loop with early return answers what `LookupIn` specifies for the matcher's current tables |
| `Rewrites.MatchIsRepeatable` | src/firebase/rewrites.ts:36-51 | matching changes nothing, so two calls with the same path give the same answer |
| `Rewrites.LastExact` | src/firebase/rewrites.ts:29-32 | none iff no exact rule has the path as source; otherwise the function of the last such rule |
| `Rewrites.FirstGlob` | src/firebase/rewrites.ts:43-47 | none iff no glob rule's normalised source accepts the path; otherwise the function of the first one in declaration order that does |
| `Rewrites.Resolve` | src/firebase/rewrites.ts:36-50 | none exactly when no rule is an exact rule for the path and no glob rule accepts it |
| `Rewrites.GlobTableScan` | src/firebase/rewrites.ts:19-24 | scanning the compiled globs gives the same answer as scanning the glob rules in declaration order |
| `Rewrites.MatchResolves` | src/firebase/rewrites.ts:17-51 | the matcher built from a rule list answers every path as the reference resolution on that list does |
| `Rewrites.NormalisedGlobSources` | src/firebase/rewrites.ts:19-32 | rule lists that differ only in the optional leading `/` of glob sources build identical tables |
| `Rewrites.ExactPrecedence` | src/firebase/rewrites.ts:38-40 | with an exact rule for the path, the answer is its last such rule's function, whatever the globs accept |
| `Rewrites.GlobPrecedence` | src/firebase/rewrites.ts:43-47 | with no exact rule for the path, the first accepting glob rule in declaration order decides |
| `Rewrites.ExactBeatsEarlierGlob` | src/firebase/rewrites.ts:36-47 | with rules `/a*`→F1 then `/a`→F2, matching `/a` gives F2 |
| `Rewrites.FirstDeclaredGlobWins` | src/firebase/rewrites.ts:43-47 | with globs `/a*`→F1 then `/ab*`→F2 and `/a*` accepting `/ab`, matching `/ab` gives F1 |
| `Rewrites.LeadingSlashOptional` | src/firebase/rewrites.ts:22 | a glob rule `api/*` matches every path exactly as `/api/*` does |
| `Rewrites.EmptyRulesMatchNothing` | src/firebase/rewrites.ts:36-50 | a matcher built from no rules answers none for every path |
| `Firebase.IsReserved` | src/firebase.ts:63 | a path is reserved exactly when its first four characters are `/__/`; a reserved path starts with `/` |
| `Firebase.Truthy` | src/firebase.ts:66 | a matcher answer is truthy exactly when it is neither `null` nor the empty string |
| `Firebase.GlobalHeaders` | src/firebase.ts:33 | the headers of `extra` when `extra` and its headers are present, otherwise the empty map |
| `Firebase.CacheSeed` | src/firebase.ts:35 | never empty; `extra.seed` when present and non-empty, otherwise "42" |
| `Firebase.FirebaseOnCloudflare.constructor` | src/firebase.ts:25-35 | keeps the project ID, builds the matcher from the config's rewrites, sets the project's hosting endpoint and the header and seed defaults |
| `Firebase.FirebaseOnCloudflare.GetEndpoint` | src/firebase.ts:54-72 | reserved paths and null or empty matcher answers go to hosting; otherwise the project's cloud function with exactly the matched name |
| `Firebase.RoutingResolves` | src/firebase.ts:54-71 | a router built from a rule list picks a cloud function iff the path is not reserved and the rules resolve it to a non-empty name, and then that function of its own project; otherwise its project's hosting |
| `Firebase.ReservedGoesToHosting` | src/firebase.ts:62-68 | a path under `/__/` goes to the project's hosting endpoint whatever the matcher answers |
| `Firebase.RoutingDependsOnlyOnInputs` | src/firebase.ts:54-71 | two routers with the same project ID and the same matcher answer for a path route it the same way |

## Left out

- Glob detection and compilation (`src/globs`) are not part of this model. They are parameters (`GlobEngine`), so a malformed glob that makes `globToRegex` throw at construction time is not modelled.
- URL construction (`src/firebase/urls.ts`) is not part of this model. Endpoints are the values they are built from, not URL strings.
- `new URL(request.url).pathname`: URL parsing is done by the platform. `GetEndpoint` takes the pathname as its input.
- `src/firebase/types.ts` is not part of this model. `FirebaseConfig` keeps only the `rewrites` field that the router reads.
- The `proxy` field and `serve` are left out. `CachedProxy` from `src/firebase/reverseproxy.ts` does the caching and network fetch, and `serve` does the async response plumbing and the 500-on-error conversion. Both are I/O around a library that is not part of this model. Because of this, the seed's effect on cache keys is not modelled.
- `exacts` is a plain `map`. The JavaScript `in` test would also see inherited properties such as `constructor`; pathnames start with `/`, so this quirk is not modelled.
- `Firebase.FirebaseOnCloudflare.GetEndpoint`: the source calls the `match` method. A Dafny function cannot call a method, so this uses `LookupIn`, the function that `Matcher.Match` is proved to return.
- `getEndpoint` calls `match` (src/firebase.ts:60) before it tests the reserved prefix (src/firebase.ts:63). Both are side-effect free, so the order does not change the result. The model follows the code and routes any falsy name, including `""`, to hosting.
