# Tekton Dashboard core logic in Dafny

This project models the parts of the Tekton Dashboard that make real decisions. Around them sit I/O and rendering, which are not modelled.

- **ClusterTask cache** (`cluster_tasks.dfy`). The Redux `byName` reducer folds `ClusterTaskCreated`, `ClusterTaskUpdated`, `ClusterTaskDeleted` and `CLUSTER_TASKS_FETCH_SUCCESS` actions into a map keyed by `metadata.name`. The selectors read the combined state.
- **Comms helpers** (`comms.dfy`). These are the pure helpers of the fetch wrapper, as their unit tests pin them down:
  - default-header merging;
  - `checkStatus`, which classifies a response;
  - the two RFC 6902 JSON-Patch bodies that add a secret to a service account or replace its secrets.
- **Cluster endpoints** (`cluster_endpoints.dfy`). These are the decisions the Go backend makes on what the Kubernetes clients return:
  - the dashboard and pipeline version (the last deployment wins, with an `"Unknown"` fallback);
  - the controller-image tag parse;
  - the Route-then-Ingress endpoint list;
  - the Ingress host.

  The fetched objects are inputs. A fetch error is `None`.
- **About page rows** (`about.dfy`). This is the loop that turns dashboard-info entries into table rows.
- `strings.dfy` models Go's `strings.Contains`, `strings.Split` and `strings.SplitAfter` for one-character separators. `wrappers.dfy` holds `Option` and `Result`.

Design notes:

- The cache is a value (`map<string, ClusterTask>`) and the reducer is a function. In the source, the Created/Updated, Deleted and list-fetch cases build a new object, and any other action returns the same state object (`src/reducers/clusterTasks.js:34-35`). As a value, that is the unchanged cache.
- The Go loops are methods with loop invariants. In the source, those loops overwrite a `version` variable or `append` to a slice.
- The About loop is a method that appends one row per entry.
- A Go index-out-of-range panic is the error value `Err(IndexOutOfRange)`.
- A Go map read of a missing key gives `""`. `Lookup` models this.

Two behaviours worth knowing:

- An Updated event might be expected to replace the cached entry. The code at `src/reducers/clusterTasks.js:27` is `{ [name]: payload, ...state }`, which spreads the old state last, so the cached entry wins. An Updated event therefore never replaces a cached entry, and `ByName` states exactly that.
- No test exercises a header-key collision between custom and default headers, and the source of `comms.js` is not part of this model. So the contracts leave collisions open (see "Left out").
- The image-tag parse takes the text after the image's first `:`. When the image names a registry with a port, that `:` is the port's, and the reported version is the rest of the path up to and including the tag's `:` (`ImageTagWithRegistryPort`).

## Model

| member | source | states |
|---|---|---|
| ClusterTasks.ByName | src/reducers/clusterTasks.js:23-37 | Created/Updated for an uncached name adds exactly `name ↦ payload` and keeps every other entry; for a cached name the cache is returned unchanged (the existing entry wins); Deleted removes exactly that name and keeps the rest (absent name: no-op); FETCH_SUCCESS yields `keyBy(data)` whatever the old cache; any other action returns the state; an `undefined` state starts from `{}` |
| ClusterTasks.KeyBy | src/reducers/clusterTasks.js:32-33 | every stored entry sits under its own `metadata.name` |
| ClusterTasks.KeyByKeys | src/reducers/clusterTasks.js:32-33 | the keys of `keyBy(data)` are exactly the names occurring in `data` |
| ClusterTasks.KeyByLastWins | src/reducers/clusterTasks.js:32-33 | under a duplicated name, the stored element is the last element of `data` with that name |
| ClusterTasks.InitialStateIsEmpty | src/reducers/clusterTasks.js:23-36 | the first call, with `undefined` state and an unrelated action, yields the empty cache |
| ClusterTasks.ByNamePreservesWellKeyed | src/reducers/clusterTasks.js:25-33 | no action breaks "every entry is stored under its own name" |
| ClusterTasks.CreatedIsIdempotent | src/reducers/clusterTasks.js:27 | applying the same Created event twice gives the cache of applying it once |
| ClusterTasks.ReplaySnoc | src/reducers/clusterTasks.js:23-36 | replaying one more event is one more reducer step on the replayed cache |
| ClusterTasks.ReplayKeys | src/reducers/clusterTasks.js:23-36 | after any event sequence, a name is cached iff the last event that decides it (a Created/Updated naming it, a Deleted naming it, or a list fetch) says it is live, matching a backward reference definition |
| ClusterTasks.FetchSuccessForgetsHistory | src/reducers/clusterTasks.js:32-33 | a replay that starts with a list fetch does not depend on the prior cache |
| ClusterTasks.ReplayCreatedTwice | src/reducers/clusterTasks.js:25-27 | a Created event repeated at the end of any replay changes nothing |
| ClusterTasks.GetClusterTasks | src/reducers/clusterTasks.js:48-50 | returns as many documents as there are cached keys; every result is a cached value and every cached value is returned; in a well-keyed cache no two results share a name, so each key gives exactly one (order unspecified) |
| ClusterTasks.GetClusterTask | src/reducers/clusterTasks.js:52-54 | returns the entry cached under `name` (carrying that name in a well-keyed cache), and absent exactly when `name` is not cached |
| ClusterTasks.GetClusterTasksErrorMessage | src/reducers/clusterTasks.js:56-58 | returns the stored `errorMessage` unchanged |
| ClusterTasks.IsFetchingClusterTasks | src/reducers/clusterTasks.js:60-62 | returns the stored `isFetching` flag unchanged |
| ClusterTasks.CreatedIsSelectable | src/reducers/clusterTasks.js:25-54 | after a Created event for an uncached name, `getClusterTask` returns that payload |
| Comms.MergeHeaders | src/api/comms.test.js:19-46 | the merged keys are the defaults' and the caller's; with no custom headers the result is the defaults; with disjoint keys every custom and every default header is present with its value |
| Comms.GetHeaders | src/api/comms.test.js:19-32 | always has a `Content-Type`; with no argument it is the JSON defaults; with a custom header not named `Content-Type` it matches both the custom headers and the defaults |
| Comms.GetPatchHeaders | src/api/comms.test.js:34-47 | the same, with the `application/json-patch+json` defaults |
| Comms.CheckStatus | src/api/comms.test.js:49-88 | fails with HTTPError exactly for an absent or not-ok response, carrying that response; ok + 201 returns the headers; otherwise a JSON content type returns the `json()` value (a parse failure propagates), any other returns the `text()` value |
| Comms.CreatedIgnoresBody | src/api/comms.test.js:74-78 | a 201 answer depends only on the headers, never on the body or its content type |
| Comms.GenerateBodyForSecretPatching | src/api/comms.test.js:140-156 | one `add` operation whose path is the tokens `serviceaccount`, `secrets` and the array-end `-` joined by `/`, with no leading `/`, and whose value is `{name: secretName}` |
| Comms.GenerateBodyForSecretReplacing | src/api/comms.test.js:171-209 | one `replace` operation whose path is the tokens `serviceaccount` and `secrets` joined by `/`, with no leading `/`, whose value is the argument verbatim (empty object, object or array alike) |
| Comms.PatchAppendsToReplacedList | src/api/comms.test.js:140-209 | the add path is the replace path followed by `/-`: it appends to the list the replace overwrites |
| Strings.ContainsAt | pkg/endpoints/cluster.go:194 | `strings.Contains(s, sub)` holds exactly when `sub` occurs at some index of `s` (both directions) |
| Strings.ContainsWitness | pkg/endpoints/cluster.go:194 | when `Contains` holds, it names an index where `sub` occurs |
| Strings.OccursAtContains | pkg/endpoints/cluster.go:194 | an occurrence of `sub` at any index makes `Contains` hold |
| Strings.SplitAfter | pkg/endpoints/cluster.go:195 | `SplitAfter` gives the input back as its single piece when the separator does not occur, and at least two pieces when it does |
| Strings.Split | pkg/endpoints/cluster.go:196 | `Split` gives the input back as its single piece when the separator does not occur, and at least two pieces when it does |
| Strings.SplitAfterConcat | pkg/endpoints/cluster.go:195 | the `SplitAfter` pieces concatenate back to the input |
| Strings.SplitJoin | pkg/endpoints/cluster.go:196 | the `Split` pieces joined with the separator give the input back |
| Strings.SplitPiecesAreClean | pkg/endpoints/cluster.go:196 | no `Split` piece holds the separator |
| Strings.SplitAfterHead | pkg/endpoints/cluster.go:195 | a prefix without the separator stays at the front of the first `SplitAfter` piece |
| Strings.SplitAfterFirst | pkg/endpoints/cluster.go:195 | `SplitAfter(a + [c] + b, c)` with no `c` in `a` is the piece `a + [c]` followed by the pieces of `b` |
| Strings.SplitFirst | pkg/endpoints/cluster.go:196 | `Split(a + [c] + b, c)` with no `c` in `a` is the piece `a` followed by the pieces of `b` |
| ClusterEndpoints.Lookup | pkg/endpoints/cluster.go:160-163 | a missing label or annotation reads as `""` |
| ClusterEndpoints.GetIngress | pkg/endpoints/cluster.go:61-90 | succeeds iff the Ingress was fetched, has a rule, and the first rule's host is non-empty; it then returns that host; otherwise error 500 |
| ClusterEndpoints.GetEndpoints | pkg/endpoints/cluster.go:92-135 | the Route endpoint (fetched, non-empty host) comes first, then the Ingress endpoint (exactly when GetIngress succeeds), so at most two; error 500 exactly when neither is present |
| ClusterEndpoints.GetDashboardVersion | pkg/endpoints/cluster.go:143-171 | the `version` label of the last deployment (a missing or empty label there gives "Unknown" even if an earlier one had a version); "Unknown" when none are listed; never empty |
| ClusterEndpoints.ImageTag | pkg/endpoints/cluster.go:195-197 | the parse panics exactly when the image holds no `:`; a parsed tag holds no `@` |
| ClusterEndpoints.ImageTagWithDigest | pkg/endpoints/cluster.go:195-197 | for `repo:tag@digest` (no `:` in repo or tag, no `@` in tag) the parse yields `tag`, whatever the digest holds |
| ClusterEndpoints.ImageTagWithoutDigest | pkg/endpoints/cluster.go:195-197 | for `repo:tag` (no `:` in repo or tag, no `@` in tag) the parse yields `tag` |
| ClusterEndpoints.ImageTagValue | pkg/endpoints/cluster.go:195-197 | the value in general: for `repo:x` followed by the first later `:` or `@` (no `:` in repo, neither in `x`), the parse yields `x:` when that separator is `:` and `x` when it is `@`, whatever follows |
| ClusterEndpoints.ImageTagRemainder | pkg/endpoints/cluster.go:195-197 | when the text after the first `:` holds neither `:` nor `@`, the parse yields that text as it stands |
| ClusterEndpoints.ImageTagWithRegistryPort | pkg/endpoints/cluster.go:195-197 | for `host:path:tag` (a registry with a port) the parse yields `path:`, not the tag |
| ClusterEndpoints.ImageTagRegistryPortExample | pkg/endpoints/cluster.go:195-197 | `localhost:5000/tektoncd/pipeline/cmd/controller:v0.10.0` yields `5000/tektoncd/pipeline/cmd/controller:` |
| ClusterEndpoints.ImageTagExample | pkg/endpoints/cluster.go:195-197 | `tektoncd/pipeline/cmd/controller:v0.10.0@sha256:x` yields `v0.10.0` |
| ClusterEndpoints.DeploymentPipelineVersion | pkg/endpoints/cluster.go:188-199 | a non-empty `tekton.dev/release` annotation wins; otherwise a controller image yields its tag, any other image `""`; it panics exactly when the annotation is empty and there is no container, or the first image is a controller image without `:` |
| ClusterEndpoints.GetPipelineVersion | pkg/endpoints/cluster.go:173-208 | panics iff some deployment panics; otherwise the version of the last deployment (even `""`, which gives "Unknown"), "Unknown" when none are listed, never empty |
| About.BuildRows | src/containers/About/About.js:58-89 | one row per entry, in order: a set pipeline version gives `{id+'2', 'Pipeline Version', value}` and overrides; otherwise a set dashboard version gives `{id+'1', 'Dashboard Version', value}`; otherwise the `''` placeholder ("set" = not `''`, `null` or `undefined`) |
| About.RowsForDashboardAndPipeline | src/containers/About/About.test.js:39-66 | the two-entry reply of the rendering test yields a Dashboard Version row `v0.100.0` and a Pipeline Version row `v0.10.0` |

## Left out

- Network operations of the comms layer are not modelled: `request`, `get`, `post`, `patchAddSecret`, the fetch mocking in their tests, and the `JSON.stringify` request body. They are asynchronous I/O and library serialisation.
- Comms.MergeHeaders: which value wins when a custom header shares a key with a default is not stated. The source of `comms.js` is not part of this model and no test covers it. The body lets the caller's value win.
- Comms.GetHeaders: the same collision is left open. The defaults are only `Content-Type: application/json`, because any further default header that `comms.js` may add is not visible.
- Comms.GetPatchHeaders: the same as `Comms.GetHeaders`, with the JSON-Patch content type.
- Comms.CheckStatus: response headers are an exact-key map, so the case-insensitive lookup of fetch `Headers` is not modelled. The asynchronous `json()`/`text()` results are values: `json` is `None` when the body does not parse.
- Comms.Json: numbers are integers. Floating point is not modelled.
- `createIsFetchingReducer`, `createErrorMessageReducer` and `combineReducers` are not part of this model. `isFetching` and `errorMessage` are opaque fields of `State`.
- ClusterTasks.GetClusterTask: the plain-object lookup `byName[name]` also finds inherited `Object.prototype` properties (for a name such as `constructor`). The cache is a `map`, so only names stored by the reducer are found.
- ClusterTasks.GetClusterTasks: the key order of `Object.values` is an engine detail. The result is specified up to the order of keys.
- ClusterTask documents are reduced to `metadata.name` and an opaque `spec` string.
- The Kubernetes and OpenShift client calls, `rest.InClusterConfig`, `os.Getenv`, logging and response writing are not modelled. The panic when the client cannot be built is left out too. The model receives the fetched Route, Ingress and deployment list as inputs. A failed deployment list is taken as the list the client returned.
- `ProxyRequest` is left out because it only forwards requests. `GetProperties` is left out because it only reads an environment variable.
- Strings.SplitAfter, Strings.Split: only one-character separators are modelled. The handlers split only on `:` and `@`.
- The React parts of the About page are not modelled: headers, `intl`, `setState`, the asynchronous fetch, and `connect`/`mapStateToProps`.
- About.BuildRows: entry fields are `undefined`, `null` or strings. A non-string version value is not modelled.
