/** The redirect handlers of the urlshort package.

    Serving one request is modelled as the trace of actions the handler
    performs on it: a 302 redirect written to the response, or delegation
    to the fallback handler. Two handlers build such traces:
    - MapHandler looks the request path up in a map from paths to URLs;
    - YAMLHandler scans a decoded list of {path, url} records in document
      order and redirects on the first record whose path equals the
      request path.
    The YAML decoder itself is not modelled: its result is an input. */
module Urlshort {
  import opened Wrappers

  /** http.StatusFound, the status both handlers redirect with. */
  const StatusFound: int := 302

  /** One observable effect of serving a request. */
  datatype Action = Redirect(target: string, code: int) | Fallback

  /** The targets of the redirects in a trace, in the order they were written. */
  function RedirectTargets(acts: seq<Action>): seq<string>
  {
    if acts == [] then []
    else (if acts[0].Redirect? then [acts[0].target] else []) + RedirectTargets(acts[1..])
  }

  /** Every redirect in the trace uses status 302 Found. */
  predicate AllFound(acts: seq<Action>)
  {
    forall a | a in acts && a.Redirect? :: a.code == StatusFound
  }

  // ---------------------------------------------------------------------
  // MapHandler
  // ---------------------------------------------------------------------

  /** The trace of the closure returned by MapHandler, as written: a hit
      writes the redirect and then, with no return after it, the fallback
      runs as well; a miss only runs the fallback. */
  function MapDispatch(pathsToUrls: map<string, string>, path: string): (acts: seq<Action>)
    ensures multiset(acts)[Fallback] == 1
    ensures acts != [] && acts[|acts| - 1] == Fallback
    ensures AllFound(acts)
    ensures RedirectTargets(acts) == if path in pathsToUrls then [pathsToUrls[path]] else []
  {
    if path in pathsToUrls then
      var acts := [Redirect(pathsToUrls[path], StatusFound), Fallback];
      assert RedirectTargets(acts[1..]) == [];
      acts
    else
      [Fallback]
  }

  /** The behaviour MapHandler's documentation promises: the fallback is
      called only when the path is not in the map, so a hit ends with the
      redirect and every request gets exactly one response. */
  function MapServe(pathsToUrls: map<string, string>, path: string): (acts: seq<Action>)
    ensures |acts| == 1
    ensures multiset(acts)[Fallback] == if path in pathsToUrls then 0 else 1
    ensures AllFound(acts)
    ensures RedirectTargets(acts) == if path in pathsToUrls then [pathsToUrls[path]] else []
  {
    if path in pathsToUrls then [Redirect(pathsToUrls[path], StatusFound)] else [Fallback]
  }

  /** On a hit MapHandler both redirects and calls the fallback, which is
      what its documentation rules out. */
  lemma MapDispatchHitAlsoFallsBack(pathsToUrls: map<string, string>, path: string)
    requires path in pathsToUrls
    ensures MapDispatch(pathsToUrls, path) == [Redirect(pathsToUrls[path], StatusFound), Fallback]
    ensures Fallback in MapDispatch(pathsToUrls, path)
    ensures Fallback !in MapServe(pathsToUrls, path)
  {
    var acts := MapDispatch(pathsToUrls, path);
    assert acts[0] == Redirect(pathsToUrls[path], StatusFound);
  }

  /** The source's trace is the documented one with a trailing fallback on
      every hit; on a miss the two coincide. */
  lemma MapDispatchIsMapServeThenFallback(pathsToUrls: map<string, string>, path: string)
    ensures MapDispatch(pathsToUrls, path) ==
      MapServe(pathsToUrls, path) + (if path in pathsToUrls then [Fallback] else [])
    ensures path !in pathsToUrls ==> MapDispatch(pathsToUrls, path) == [Fallback]
  {
  }

  /** An illustration rather than a proof: lookup is by exact key, so only
      the map entry whose key equals the request path affects the trace and
      no other key (a prefix, a variant with a trailing slash) can match.
      It holds by the meaning of `in` on a map. */
  lemma MapOnlyExactKeyMatters(pathsToUrls: map<string, string>, path: string)
    ensures var only := map k | k in pathsToUrls && k == path :: pathsToUrls[k];
      MapDispatch(pathsToUrls, path) == MapDispatch(only, path) &&
      MapServe(pathsToUrls, path) == MapServe(only, path)
  {
  }

  // ---------------------------------------------------------------------
  // YAMLHandler: the per-request scan
  // ---------------------------------------------------------------------

  /** One decoded YAML record. */
  datatype Entry = Entry(path: string, url: string)

  /** k is the index of the first entry whose path equals the request path. */
  ghost predicate IsFirstMatch(entries: seq<Entry>, path: string, k: int)
  {
    && 0 <= k < |entries|
    && entries[k].path == path
    && forall j :: 0 <= j < k ==> entries[j].path != path
  }

  /** No entry's path equals the request path. */
  ghost predicate NoMatch(entries: seq<Entry>, path: string)
  {
    forall j :: 0 <= j < |entries| ==> entries[j].path != path
  }

  /** The index of the first entry whose path equals the request path, in
      document order, if there is one. */
  function FirstMatch(entries: seq<Entry>, path: string): (r: Option<nat>)
    ensures r.Some? ==> IsFirstMatch(entries, path, r.value)
    ensures r.None? ==> NoMatch(entries, path)
  {
    if entries == [] then None
    else if entries[0].path == path then Some(0)
    else match FirstMatch(entries[1..], path)
      case None => None
      case Some(k) => Some(k + 1)
  }

  /** The trace a request produces against the decoded entries: a single
      302 redirect to the first matching entry's url, or the fallback. */
  function YamlTrace(entries: seq<Entry>, path: string): (acts: seq<Action>)
    ensures |acts| == 1 && AllFound(acts)
  {
    match FirstMatch(entries, path)
    case Some(k) => [Redirect(entries[k].url, StatusFound)]
    case None => [Fallback]
  }

  /** The closure returned by YAMLHandler: it walks the entries in order
      and returns right after redirecting on the first whose path equals
      the request path; only when none does is the fallback called. */
  method YamlDispatch(entries: seq<Entry>, path: string) returns (acts: seq<Action>)
    ensures acts == YamlTrace(entries, path)
    ensures forall k :: IsFirstMatch(entries, path, k) ==> acts == [Redirect(entries[k].url, StatusFound)]
    ensures NoMatch(entries, path) ==> acts == [Fallback]
  {
    var i := 0;
    while i < |entries|
      invariant 0 <= i <= |entries|
      invariant forall j :: 0 <= j < i ==> entries[j].path != path
    {
      if entries[i].path == path {
        assert IsFirstMatch(entries, path, i);
        acts := [Redirect(entries[i].url, StatusFound)];
        return;
      }
      i := i + 1;
    }
    acts := [Fallback];
  }

  /** First match wins: the redirect goes to the url of the lowest-index
      entry with the request path, and nothing else happens. */
  lemma YamlFirstMatchWins(entries: seq<Entry>, path: string, k: int)
    requires IsFirstMatch(entries, path, k)
    ensures YamlTrace(entries, path) == [Redirect(entries[k].url, StatusFound)]
    ensures Fallback !in YamlTrace(entries, path)
  {
  }

  /** With no matching entry the whole list is passed over, nothing is
      redirected and the fallback runs exactly once. */
  lemma YamlNoMatchFallsBack(entries: seq<Entry>, path: string)
    requires NoMatch(entries, path)
    ensures YamlTrace(entries, path) == [Fallback]
    ensures RedirectTargets(YamlTrace(entries, path)) == []
  {
  }

  /** A redirect happens exactly when some entry has the request path. */
  lemma YamlRedirectsIffSomeEntryMatches(entries: seq<Entry>, path: string)
    ensures YamlTrace(entries, path)[0].Redirect? <==>
      exists k :: 0 <= k < |entries| && entries[k].path == path
  {
  }

  /** Scanning a document split in two: the second part is only consulted
      when nothing in the first part matches. In particular an entry that
      repeats an earlier path never takes effect. */
  lemma {:induction false} YamlScanAppend(first: seq<Entry>, second: seq<Entry>, path: string)
    ensures YamlTrace(first + second, path) ==
      if FirstMatch(first, path).Some? then YamlTrace(first, path) else YamlTrace(second, path)
  {
    var all := first + second;
    match FirstMatch(first, path)
    case Some(k) =>
      assert IsFirstMatch(all, path, k) by {
        assert all[k] == first[k];
        forall j | 0 <= j < k ensures all[j].path != path {
          assert all[j] == first[j];
        }
      }
      YamlFirstMatchWins(all, path, k);
    case None =>
      match FirstMatch(second, path)
      case Some(k) =>
        assert IsFirstMatch(all, path, |first| + k) by {
          assert all[|first| + k] == second[k];
          forall j | 0 <= j < |first| + k ensures all[j].path != path {
            if j < |first| {
              assert all[j] == first[j];
            } else {
              assert all[j] == second[j - |first|];
            }
          }
        }
        YamlFirstMatchWins(all, path, |first| + k);
      case None =>
        assert NoMatch(all, path) by {
          forall j | 0 <= j < |all| ensures all[j].path != path {
            if j < |first| {
              assert all[j] == first[j];
            } else {
              assert all[j] == second[j - |first|];
            }
          }
        }
        YamlNoMatchFallsBack(all, path);
  }

  /** A record appended with a path some earlier record already has is
      shadowed: no request, whatever its path, is served differently. */
  lemma YamlLaterDuplicateIgnored(entries: seq<Entry>, dup: Entry, path: string)
    requires exists k :: 0 <= k < |entries| && entries[k].path == dup.path
    ensures YamlTrace(entries + [dup], path) == YamlTrace(entries, path)
  {
    YamlScanAppend(entries, [dup], path);
    if FirstMatch(entries, path).None? {
      assert dup.path != path;
      YamlNoMatchFallsBack([dup], path);
    }
  }

  /** The entries whose path is exactly p, in document order. */
  function WithPath(entries: seq<Entry>, p: string): seq<Entry>
  {
    if entries == [] then []
    else (if entries[0].path == p then [entries[0]] else []) + WithPath(entries[1..], p)
  }

  /** Paths are compared by exact equality: dropping every entry whose path
      differs from the request path (prefixes included) changes nothing. */
  lemma {:induction false} YamlOnlyExactPathMatters(entries: seq<Entry>, path: string)
    ensures YamlTrace(entries, path) == YamlTrace(WithPath(entries, path), path)
  {
    if entries != [] {
      var head, tail := entries[0], entries[1..];
      assert entries == [head] + tail;
      YamlScanAppend([head], tail, path);
      YamlOnlyExactPathMatters(tail, path);
      var kept := if head.path == path then [head] else [];
      assert WithPath(entries, path) == kept + WithPath(tail, path);
      YamlScanAppend(kept, WithPath(tail, path), path);
    }
  }

  /** A worked example of YamlOnlyExactPathMatters: a path that merely
      starts with an earlier entry's path does not match it, and the request
      goes to the entry with exactly that path. */
  lemma YamlPrefixDoesNotMatch()
    ensures var doc := [Entry("/urlshort", "https://github.com/gophercises/urlshort"),
                        Entry("/urlshort-final", "https://github.com/gophercises/urlshort/tree/solution")];
      YamlTrace(doc, "/urlshort-final") ==
        [Redirect("https://github.com/gophercises/urlshort/tree/solution", StatusFound)]
  {
    var doc := [Entry("/urlshort", "https://github.com/gophercises/urlshort"),
                Entry("/urlshort-final", "https://github.com/gophercises/urlshort/tree/solution")];
    assert doc[0].path != "/urlshort-final";
    YamlFirstMatchWins(doc, "/urlshort-final", 1);
  }

  // ---------------------------------------------------------------------
  // The two handlers side by side
  // ---------------------------------------------------------------------

  /** The entries list exactly the pairs of the map (in any order, possibly
      with repeats). */
  ghost predicate Tabulates(entries: seq<Entry>, pathsToUrls: map<string, string>)
  {
    && (forall j :: 0 <= j < |entries| ==>
          entries[j].path in pathsToUrls && pathsToUrls[entries[j].path] == entries[j].url)
    && (forall p :: p in pathsToUrls ==> exists j :: 0 <= j < |entries| && entries[j].path == p)
  }

  /** Over the same table the documented map behaviour and the YAML scan
      agree on every path, while the map handler as written adds a
      fallback after every redirect. */
  lemma MapAndYamlAgree(pathsToUrls: map<string, string>, entries: seq<Entry>, path: string)
    requires Tabulates(entries, pathsToUrls)
    ensures MapServe(pathsToUrls, path) == YamlTrace(entries, path)
    ensures MapDispatch(pathsToUrls, path) ==
      YamlTrace(entries, path) + (if path in pathsToUrls then [Fallback] else [])
  {
    if path in pathsToUrls {
      var j :| 0 <= j < |entries| && entries[j].path == path;
      var k := FirstMatch(entries, path).value;
      assert entries[k].path == path;
      YamlFirstMatchWins(entries, path, k);
    } else {
      YamlNoMatchFallsBack(entries, path);
    }
    MapDispatchIsMapServeThenFallback(pathsToUrls, path);
  }

  // ---------------------------------------------------------------------
  // YAMLHandler: construction
  // ---------------------------------------------------------------------

  /** A failure reported by the YAML decoder. */
  datatype DecodeError = DecodeError(reason: string)

  /** What a call to YAMLHandler comes to: the process is terminated by
      log.Fatalf with a message, or a handler over the decoded routes is
      returned together with an error value. */
  datatype Construction = Aborted(message: string) | Returned(routes: seq<Entry>, err: Option<DecodeError>)

  /** The text log.Fatalf writes before the decoder's error. */
  const FatalPrefix: string := "cannot unmarshat data: "

  /** YAMLHandler as written, given the decoder's outcome: a decode failure
      terminates the process, and otherwise the error returned is always nil. */
  function YamlHandler(decoded: Result<seq<Entry>, DecodeError>): (c: Construction)
    ensures c.Returned? ==> c.err == None && decoded == Success(c.routes)
    ensures c.Aborted? ==> decoded.Failure? && c.message == FatalPrefix + decoded.error.reason
  {
    match decoded
    case Failure(e) => Aborted(FatalPrefix + e.reason)
    case Success(routes) => Returned(routes, None)
  }

  /** The construction the documentation describes: it never ends the
      process; a decode failure comes back as the returned error, with no
      routes (Go's nil handler), and a successful decode gives the handler
      over exactly the decoded routes with a nil error. */
  function YamlHandlerChecked(decoded: Result<seq<Entry>, DecodeError>): (c: Construction)
    ensures !c.Aborted?
    ensures c.err == if decoded.Failure? then Some(decoded.error) else None
    ensures c.err == None ==> decoded == Success(c.routes)
    ensures c.err != None ==> c.routes == []
  {
    match decoded
    case Failure(e) => Returned([], Some(e))
    case Success(routes) => Returned(routes, None)
  }

  /** YAMLHandler never hands a decode error back: exactly where the
      documented constructor returns one, the source aborts instead, and
      otherwise the two constructions coincide. */
  lemma YamlHandlerNeverReturnsError(decoded: Result<seq<Entry>, DecodeError>)
    ensures YamlHandler(decoded).Aborted? <==> YamlHandlerChecked(decoded).err.Some?
    ensures YamlHandler(decoded).Returned? ==>
      YamlHandler(decoded).err == None && YamlHandler(decoded) == YamlHandlerChecked(decoded)
  {
  }
}
