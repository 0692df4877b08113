/** The request helpers of client/src/lib/queryClient.ts: apiUrl, which
    turns an API path into the url the browser fetches, throwIfResNotOk,
    and the outcome of the default query function once the response is
    known. The build mode, the configured API base and the page's hostname
    are parameters. */
module QueryClient {
  import opened Common

  /** import.meta.env.DEV, VITE_API_BASE_URL (None when unset) and
      window.location.hostname. */
  datatype Env = Env(dev: bool, apiBaseUrl: Option<string>, hostname: string)

  /** API_BASE = VITE_API_BASE_URL || "". */
  function ApiBase(env: Env): (r: string)
    ensures r == "" || (env.apiBaseUrl.Some? && r == env.apiBaseUrl.value)
    ensures env.apiBaseUrl.Some? && env.apiBaseUrl.value != "" ==> r == env.apiBaseUrl.value
  {
    if env.apiBaseUrl.Some? && env.apiBaseUrl.value != "" then env.apiBaseUrl.value else ""
  }

  const ProductionHosts: set<string> := {"daralibenzid.dz", "www.daralibenzid.dz"}

  /** The path with a leading '/' added when it has none. */
  function CleanPath(path: string): string {
    if StartsWith(path, "/") then path else "/" + path
  }

  /** apiUrl(path). */
  function ApiUrl(env: Env, path: string): string {
    if StartsWith(path, "http") then path
    else
      var cleanPath := CleanPath(path);
      if env.dev then cleanPath
      else if env.hostname in ProductionHosts then
        (if ApiBase(env) != "" then ApiBase(env) + cleanPath else cleanPath)
      else ApiBase(env) + cleanPath
  }

  /** cleanPath starts with '/'; it is the path itself when that already
      starts with '/', and "/" + path otherwise. */
  lemma CleanPathShape(path: string)
    ensures StartsWith(CleanPath(path), "/")
    ensures StartsWith(path, "/") ==> CleanPath(path) == path
    ensures !StartsWith(path, "/") ==> CleanPath(path) == "/" + path && |CleanPath(path)| == |path| + 1
  {
  }

  /** An absolute "http..." url is fetched as given. */
  lemma AbsoluteUrlUnchanged(env: Env, path: string)
    requires StartsWith(path, "http")
    ensures ApiUrl(env, path) == path
  {
  }

  /** Any other path becomes the API base followed by its cleanPath: just
      the cleanPath in development or without a base. The hostname never
      changes the result. */
  lemma RelativeUrl(env: Env, path: string)
    requires !StartsWith(path, "http")
    ensures env.dev ==> ApiUrl(env, path) == CleanPath(path)
    ensures !env.dev ==> ApiUrl(env, path) == ApiBase(env) + CleanPath(path)
    ensures ApiBase(env) == "" ==> ApiUrl(env, path) == CleanPath(path)
    ensures EndsWith(ApiUrl(env, path), CleanPath(path))
    ensures StartsWith(ApiUrl(env, path), ApiBase(env)) || env.dev
  {
    var c := CleanPath(path);
    var r := ApiUrl(env, path);
    if !env.dev {
      assert r == ApiBase(env) + c;
      assert r[|r| - |c|..] == c;
      assert r[..|ApiBase(env)|] == ApiBase(env);
    }
    if ApiBase(env) == "" {
      assert "" + c == c;
    }
  }

  /** The hostname check is redundant: the url is the same on every host. */
  lemma HostnameIrrelevant(env: Env, path: string, hostname: string)
    ensures ApiUrl(env, path) == ApiUrl(env.(hostname := hostname), path)
  {
    if !StartsWith(path, "http") {
      RelativeUrl(env, path);
      RelativeUrl(env.(hostname := hostname), path);
    }
  }

  // ---------------------------------------------------------------------
  // Responses
  // ---------------------------------------------------------------------

  /** A fetch Response: status, statusText and the body text. */
  datatype Response = Response(status: int, statusText: string, body: string)

  /** res.ok. */
  predicate Ok(res: Response) { 200 <= res.status <= 299 }

  /** The message of the Error thrown for a failed response:
      "<status>: <body>", or the status text when the body is empty. */
  function ErrorMessage(res: Response): string {
    IntToString(res.status) + ": " + (if res.body != "" then res.body else res.statusText)
  }

  /** throwIfResNotOk: Some(message) when it throws. */
  function ThrowIfResNotOk(res: Response): (r: Option<string>)
    ensures r.None? <==> Ok(res)
  {
    if !Ok(res) then Some(ErrorMessage(res)) else None
  }

  /** The text before the first ':' of an error message is the status. */
  lemma ErrorMessageColon(res: Response)
    ensures IndexOf(ErrorMessage(res), ":") == Some(|IntToString(res.status)|)
  {
    var a := IntToString(res.status);
    var rest := " " + (if res.body != "" then res.body else res.statusText);
    assert ErrorMessage(res) == a + ":" + rest;
    FoundAfterPrefix(a, ":", rest);
  }

  /** The thrown message determines the status and the text it carries. */
  lemma ErrorMessageDeterminesStatus(res1: Response, res2: Response)
    requires ErrorMessage(res1) == ErrorMessage(res2)
    ensures res1.status == res2.status
    ensures (if res1.body != "" then res1.body else res1.statusText) == (if res2.body != "" then res2.body else res2.statusText)
  {
    var m := ErrorMessage(res1);
    var a, b := IntToString(res1.status), IntToString(res2.status);
    ErrorMessageColon(res1);
    ErrorMessageColon(res2);
    assert |a| == |b|;
    assert a == m[..|a|] == b;
    IntToStringInjective(res1.status, res2.status);
    assert m[|a| + 2..] == (if res1.body != "" then res1.body else res1.statusText);
    assert m[|b| + 2..] == (if res2.body != "" then res2.body else res2.statusText);
  }

  // ---------------------------------------------------------------------
  // getQueryFn
  // ---------------------------------------------------------------------

  datatype UnauthorizedBehavior = ReturnNull | Throw

  /** What the query function resolves to: null, a thrown Error with its
      message, or the JSON body. */
  datatype QueryOutcome = NullResult | Thrown(message: string) | Json(body: string)

  /** The url the query function fetches: the query key joined with "/". */
  function QueryUrl(env: Env, queryKey: seq<string>): string {
    ApiUrl(env, Join(queryKey, "/"))
  }

  /** getQueryFn({ on401 }) applied to a query, given the fetched response. */
  function QueryFn(on401: UnauthorizedBehavior, res: Response): QueryOutcome {
    if on401 == ReturnNull && res.status == 401 then NullResult
    else
      match ThrowIfResNotOk(res)
      case Some(message) => Thrown(message)
      case None => Json(res.body)
  }

  /** The three outcomes: null exactly for a 401 under "returnNull"; otherwise
      an error carrying "<status>: <text>" for every response that is not ok,
      and the body for every ok one. */
  lemma QueryFnOutcomes(on401: UnauthorizedBehavior, res: Response)
    ensures QueryFn(on401, res) == NullResult <==> on401 == ReturnNull && res.status == 401
    ensures QueryFn(on401, res).Thrown? <==> !Ok(res) && !(on401 == ReturnNull && res.status == 401)
    ensures QueryFn(on401, res).Thrown? ==> QueryFn(on401, res).message == ErrorMessage(res)
    ensures QueryFn(on401, res).Json? <==> Ok(res)
  {
  }

  /** Under "throw" a 401 is an error like any other: "401: <text>". */
  lemma ThrowOn401(res: Response)
    requires res.status == 401
    ensures QueryFn(Throw, res) == Thrown("401: " + (if res.body != "" then res.body else res.statusText))
  {
    assert IntToString(401) == "401";
  }

  /** A query key of one segment is fetched through apiUrl unchanged;
      a longer key adds its segments separated by "/". */
  lemma QueryUrlOfKey(env: Env, queryKey: seq<string>, segment: string)
    ensures |queryKey| == 1 ==> QueryUrl(env, queryKey) == ApiUrl(env, queryKey[0])
    ensures queryKey != [] ==>
      QueryUrl(env, queryKey + [segment]) == ApiUrl(env, Join(queryKey, "/") + "/" + segment)
  {
    if queryKey != [] {
      JoinSnoc(queryKey, "/", segment);
    }
  }
}
