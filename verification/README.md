# urlshort redirect handlers in Dafny

The `urlshort` package builds two HTTP handlers that redirect request paths to
URLs and hand every other request to a fallback handler:

- `MapHandler` looks the request path up in a `map[string]string`.
- `YAMLHandler` decodes a YAML list of `{path, url}` records. It scans that list
  in document order, and the first record whose path equals the request path
  wins.

The model (`handler.dfy`, module `Urlshort`; `wrappers.dfy` holds `Option` and
`Result`) describes each request by the trace of actions the handler performs.
An action is `Redirect(target, 302)` or `Fallback`. The map handler is a pure
function of the map and the path. The YAML closure's `for ... range` loop with
its early `return` is a method with a `while` loop. That method is proved
against the specification function `YamlTrace`, which is built on `FirstMatch`.
Construction of the YAML handler takes the decoder's outcome as an input
`Result`. A decode failure becomes `Aborted(message)`, which stands for
`log.Fatalf`. A successful decode becomes `Returned(routes, err)`; a returned
error comes with empty routes, standing for Go's nil handler.

## Model

| member | source | states |
|---|---|---|
| `Urlshort.MapDispatch` | handler.go:16-25 | the fallback runs exactly once on every request, as the last action; the trace's redirect targets are exactly `[m[path]]` when the path is a key and none otherwise; every redirect is a 302 |
| `Urlshort.MapServe` | handler.go:10-15 | the documented behaviour: exactly one action per request; a 302 redirect to `m[path]` on a hit, with no fallback; the fallback once on a miss |
| `Urlshort.MapDispatchHitAlsoFallsBack` | handler.go:19-24 | on a hit, the trace as written is redirect-then-fallback, so the fallback runs after the redirect; the documented trace has no fallback |
| `Urlshort.MapDispatchIsMapServeThenFallback` | handler.go:20-23 | the as-written trace is the documented trace plus one trailing fallback on a hit, and exactly `[Fallback]` on a miss |
| `Urlshort.MapOnlyExactKeyMatters` | handler.go:20 | an illustration of exact-key lookup: restricting the map to the key equal to the request path leaves both traces unchanged |
| `Urlshort.FirstMatch` | handler.go:57-58 | returns the index of the lowest entry whose path equals the request path, with no earlier entry matching; `None` only when no entry matches |
| `Urlshort.YamlTrace` | handler.go:56-64 | a request against the decoded entries yields exactly one action, and any redirect is a 302 |
| `Urlshort.YamlDispatch` | handler.go:56-64 | the scan loop returns `YamlTrace`: a single 302 redirect to the first matching entry's url, or `[Fallback]` when no entry matches |
| `Urlshort.YamlFirstMatchWins` | handler.go:57-60 | if `k` is the first entry with the request path, the trace is exactly one redirect to `entries[k].url` and the fallback is not called |
| `Urlshort.YamlNoMatchFallsBack` | handler.go:57-63 | if no entry has the request path, nothing is redirected and the fallback runs exactly once |
| `Urlshort.YamlRedirectsIffSomeEntryMatches` | handler.go:57-63 | a redirect is issued if and only if some entry's path equals the request path |
| `Urlshort.YamlScanAppend` | handler.go:57-62 | scanning `first + second` gives the trace of `first` when `first` has a match, and otherwise the trace of `second` (document order decides) |
| `Urlshort.YamlLaterDuplicateIgnored` | handler.go:57-60 | a record appended with a path that some earlier record already has never changes the outcome of any request (first match wins over duplicates) |
| `Urlshort.YamlOnlyExactPathMatters` | handler.go:58 | removing every entry whose path is not exactly the request path leaves the trace unchanged: no prefix or normalised matching |
| `Urlshort.YamlPrefixDoesNotMatch` | handler.go:58-59 | a worked example of `YamlOnlyExactPathMatters`: with `/urlshort` listed before `/urlshort-final`, a request for `/urlshort-final` redirects to the second record's url |
| `Urlshort.MapAndYamlAgree` | handler.go:19-24 | when the entries list exactly the pairs of the map, the documented map trace equals the YAML trace on every path, and the as-written map trace is the YAML trace plus a fallback on a hit |
| `Urlshort.YamlHandler` | handler.go:44-65 | a decode failure aborts with `cannot unmarshat data: <reason>`; otherwise the handler over exactly the decoded routes is returned with a nil error, so no error is ever returned |
| `Urlshort.YamlHandlerChecked` | handler.go:38-39 | the documented construction: it never aborts; it returns the decoder's error exactly when decoding fails, with no routes, and otherwise returns the decoded routes with a nil error |
| `Urlshort.YamlHandlerNeverReturnsError` | handler.go:52-54 | the source aborts exactly where the documented construction returns an error; otherwise the two constructions are equal, with a nil error |

## Left out

- YAML decoding (`yaml.Unmarshal`, handler.go:52) is a foreign library. Its outcome is an input `Result<seq<Entry>, DecodeError>`. The model makes no claim about which records or errors a given document produces.
- The `url` field of the decoded record is unexported (handler.go:49). The YAML library therefore never fills it in, and decoded targets are empty strings in practice. The model takes the entries as given and does not reproduce this decoder behaviour.
- `http.Redirect`, `http.ResponseWriter`, `*http.Request` and `fallback.ServeHTTP` are reduced to the actions `Redirect(target, 302)` and `Fallback`. Headers, bodies, the `Location` header and what the fallback writes are not modelled.
- `log.Fatalf` process termination is modelled only as the `Aborted(message)` outcome of construction. Writing to the log and exiting are not modelled.
- The closure and `http.HandlerFunc` typing, and concurrent serving of requests, are not modelled. The handlers never modify their table; MapHandler reads the caller's map on each request, which the model reflects by passing the map to `MapDispatch` per request.

## Findings

| source | as written | input that shows it | evidently intended | confidence | as-written member | corrected member |
|---|---|---|---|---|---|---|
| handler.go:20-23 | after a hit writes the redirect, there is no `return`, so `fallback.ServeHTTP` also runs on the same response | any path that is a key of the map, e.g. `/foo` in `{"/foo": "https://foo.com"}` | the fallback runs only when the path is not in the map (handler.go:14-15), so a hit is exactly one redirect | high; not executed | `Urlshort.MapDispatchHitAlsoFallsBack` | `Urlshort.MapServe` |
| handler.go:52-53 | a decode error is passed to `log.Fatalf`, which ends the process, and the function always returns a nil error | any document the decoder rejects, i.e. `decoded == Failure(e)` | invalid YAML is reported through the returned error (handler.go:38-39) | high; not executed | `Urlshort.YamlHandlerNeverReturnsError` | `Urlshort.YamlHandlerChecked` |
