/** The API contract of shared/routes.ts: the method and path of each route,
    and buildUrl, which fills the `:name` placeholders of a path. */
module SharedRoutes {
  import opened Common

  datatype HttpMethod = Get | Post | Put | Delete

  datatype Route = Route(verb: HttpMethod, path: string)

  const LoginRoute := Route(Post, "/api/login")
  const LogoutRoute := Route(Post, "/api/logout")
  const MeRoute := Route(Get, "/api/user")
  const RegisterRoute := Route(Post, "/api/register")
  const BooksListRoute := Route(Get, "/api/books")
  const BooksGetRoute := Route(Get, "/api/books/:id")
  const BooksCreateRoute := Route(Post, "/api/books")
  const BooksUpdateRoute := Route(Put, "/api/books/:id")
  const BooksDeleteRoute := Route(Delete, "/api/books/:id")

  /** A value of the params record: a string or a number. */
  datatype ParamValue = Str(s: string) | Num(n: int)

  /** String(value). */
  function ShowParam(v: ParamValue): string {
    match v
    case Str(s) => s
    case Num(n) => IntToString(n)
  }

  function Placeholder(key: string): string { ":" + key }

  /** One step of the forEach: when `:key` occurs in the url, its first
      occurrence is replaced by String(value). */
  function Substitute(url: string, key: string, value: ParamValue): string {
    if Contains(url, Placeholder(key)) then ReplaceFirst(url, Placeholder(key), ShowParam(value)) else url
  }

  /** The url after the forEach has visited `entries`, in order. */
  function SubstituteAll(path: string, entries: seq<(string, ParamValue)>): string {
    if entries == [] then path
    else
      var last := entries[|entries| - 1];
      Substitute(SubstituteAll(path, entries[..|entries| - 1]), last.0, last.1)
  }

  /** buildUrl(path, params), with Object.entries(params) given as a sequence
      of (key, value) pairs in its enumeration order; None is a missing params. */
  function BuildUrlSpec(path: string, params: Option<seq<(string, ParamValue)>>): string {
    if params.None? then path else SubstituteAll(path, params.value)
  }

  method BuildUrl(path: string, params: Option<seq<(string, ParamValue)>>) returns (url: string)
    ensures url == BuildUrlSpec(path, params)
  {
    url := path;
    if params.Some? {
      var entries := params.value;
      for i := 0 to |entries|
        invariant url == SubstituteAll(path, entries[..i])
      {
        var (key, value) := entries[i];
        assert entries[..i + 1][..i] == entries[..i];
        if Contains(url, Placeholder(key)) {
          url := ReplaceFirst(url, Placeholder(key), ShowParam(value));
        }
      }
      assert entries[..|entries|] == entries;
    }
  }

  /** Without params, or with an empty record, the path comes back unchanged. */
  lemma BuildUrlWithoutParams(path: string)
    ensures BuildUrlSpec(path, None) == path
    ensures BuildUrlSpec(path, Some([])) == path
  {
  }

  /** A key whose placeholder does not occur leaves the url as it is. */
  lemma SubstituteAbsent(url: string, key: string, value: ParamValue)
    requires !Contains(url, ":" + key)
    ensures Substitute(url, key, value) == url
  {
  }

  /** When the placeholder occurs and the value holds no `$`, exactly its first
      occurrence is replaced by the value, and every other character is kept. */
  lemma SubstituteFirstOccurrence(url: string, key: string, value: ParamValue)
    requires Contains(url, ":" + key)
    requires '$' !in ShowParam(value)
    ensures exists i ::
      (OccursAt(url, ":" + key, i)
       && (forall j :: 0 <= j < i ==> !OccursAt(url, ":" + key, j))
       && Substitute(url, key, value) == url[..i] + ShowParam(value) + url[i + |key| + 1..])
  {
    var pat := ":" + key;
    ReplaceFirstPlain(url, pat, ShowParam(value));
    var i := IndexOf(url, pat).value;
    assert Substitute(url, key, value) == url[..i] + ShowParam(value) + url[i + |key| + 1..];
  }

  /** Numbers never hold a `$`, so a numeric value is always inserted as written. */
  lemma NumberValuesArePlain(n: int)
    ensures '$' !in ShowParam(Num(n))
  {
  }

  /** The entries are applied one after another, in order. */
  lemma SubstituteAllSnoc(path: string, entries: seq<(string, ParamValue)>, key: string, value: ParamValue)
    ensures SubstituteAll(path, entries + [(key, value)]) == Substitute(SubstituteAll(path, entries), key, value)
  {
    assert (entries + [(key, value)])[..|entries|] == entries;
  }

  /** A single entry is a single substitution. */
  lemma SubstituteAllOne(path: string, key: string, value: ParamValue)
    ensures SubstituteAll(path, [(key, value)]) == Substitute(path, key, value)
  {
    assert [(key, value)][..0] == [];
  }

  /** When the placeholder occurs, a step is a String.prototype.replace. */
  lemma SubstituteIsReplace(url: string, key: string, value: ParamValue)
    requires Contains(url, ":" + key)
    ensures Substitute(url, key, value) == ReplaceFirst(url, ":" + key, ShowParam(value))
  {
    assert Placeholder(key) == ":" + key;
  }

  /** When the text before a placeholder holds no ':', that placeholder is
      the first occurrence of its pattern. */
  lemma PlaceholderIsFirst(prefix: string, key: string, rest: string)
    requires ':' !in prefix
    ensures IndexOf(prefix + ":" + key + rest, ":" + key) == Some(|prefix|)
  {
    assert prefix + ":" + key + rest == prefix + (":" + key) + rest;
    FoundAfterPrefix(prefix, ":" + key, rest);
  }

  /** The first placeholder of a url is replaced by a `$`-free value and
      everything around it is kept, even when the placeholder is only the
      start of a longer name. */
  lemma SubstituteFirstPlaceholder(prefix: string, key: string, rest: string, value: ParamValue)
    requires ':' !in prefix && '$' !in ShowParam(value)
    ensures Substitute(prefix + ":" + key + rest, key, value) == prefix + ShowParam(value) + rest
  {
    var url, pat := prefix + ":" + key + rest, ":" + key;
    PlaceholderIsFirst(prefix, key, rest);
    SubstituteIsReplace(url, key, value);
    ReplaceFirstAt(url, pat, ShowParam(value), |prefix|);
    ExpandPlain(ShowParam(value), pat, url[..|prefix|], url[|prefix| + |pat|..]);
    assert url[..|prefix|] == prefix;
    assert url[|prefix| + |pat|..] == rest;
  }

  /** A string value is a String.prototype.replace replacement: "$&" puts the
      matched placeholder back, so the url does not change. */
  lemma DollarAmpersandKeepsPlaceholder(prefix: string, key: string, rest: string)
    requires ':' !in prefix
    ensures Substitute(prefix + ":" + key + rest, key, Str("$&")) == prefix + ":" + key + rest
  {
    var url, pat := prefix + ":" + key + rest, ":" + key;
    PlaceholderIsFirst(prefix, key, rest);
    SubstituteIsReplace(url, key, Str("$&"));
    ReplaceFirstAt(url, pat, "$&", |prefix|);
    assert ExpandReplacement("$&", pat, url[..|prefix|], url[|prefix| + |pat|..]) == pat by {
      assert "$&"[2..] == [];
    }
    assert url[..|prefix|] == prefix;
    assert url[|prefix| + |pat|..] == rest;
  }

  /** buildUrl(api.books.get.path, { id }) is "/api/books/" followed by String(id). */
  lemma BuildBookUrl(id: int)
    ensures BuildUrlSpec(BooksGetRoute.path, Some([("id", Num(id))])) == "/api/books/" + IntToString(id)
  {
    var prefix := "/api/books/";
    assert BooksGetRoute.path == prefix + ":" + "id" + "";
    SubstituteAllOne(BooksGetRoute.path, "id", Num(id));
    SubstituteFirstPlaceholder(prefix, "id", "", Num(id));
  }

  /** Matching is by plain substring: the key `id` also matches the start of
      the placeholder `:idx`, leaving its last letter behind. */
  lemma PlaceholderPrefixMatches()
    ensures BuildUrlSpec("/api/x/:idx", Some([("id", Str("7"))])) == "/api/x/7x"
  {
    var prefix := "/api/x/";
    assert "/api/x/:idx" == prefix + ":" + "id" + "x";
    SubstituteAllOne("/api/x/:idx", "id", Str("7"));
    SubstituteFirstPlaceholder(prefix, "id", "x", Str("7"));
  }
}
