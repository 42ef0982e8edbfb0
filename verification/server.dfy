/**
 * The server's tools: `register_new_library`, `list_supported_libraries` and
 * `search_docs`, over the shared registry. The network is a parameter: the
 * search provider gives the result links of a query, and the fetcher gives,
 * for each URL, either the parsed page or the reason the request failed.
 */
module Server {
  import opened Wrappers
  import opened Strings
  import opened Html
  import opened Parser
  import opened Config
  import opened Search

  /** What one request for a URL ends in: the parsed HTML page, or the text
      of the exception that a timeout, a failed connection or an error
      status raised. */
  datatype Outcome = Fetched(page: Node) | Failed(reason: string)

  type Fetcher = string -> Outcome

  /** `fetch_url`: the page's extracted markdown under a header naming the
      URL, or an error line naming the URL and the reason. */
  function FetchUrl(url: string, outcome: Outcome): string {
    match outcome
    case Fetched(page) => SourceBlock(url, Extract(page))
    case Failed(reason) => ErrorBlock(url, reason)
  }

  /** The rule that opens every result line. */
  const Rule := "--- "

  /** `--- SOURCE: <url> ---`, a newline, the content and a newline. */
  function SourceBlock(url: string, content: string): string {
    Rule + ("SOURCE: " + url + " ---\n" + content + "\n")
  }

  /** `--- ERROR: Could not fetch <url>: <reason> ---` and a newline. */
  function ErrorBlock(url: string, reason: string): string {
    Rule + ("ERROR: Could not fetch " + url + ": " + reason + " ---\n")
  }

  /** The result line that `fetch_url` gives for each URL. */
  function ResultOf(fetch: Fetcher): string -> string {
    url => FetchUrl(url, fetch(url))
  }

  /** `[f(x) for x in xs]`: one value per element, in the order of the
      elements. */
  function Each(f: string -> string, xs: seq<string>): (r: seq<string>)
    ensures |r| == |xs| && forall i :: 0 <= i < |xs| ==> r[i] == f(xs[i])
  {
    if xs == [] then []
    else Each(f, xs[..|xs| - 1]) + [f(xs[|xs| - 1])]
  }

  /** The gathered results: one per URL, in the order of the URLs, whatever
      order the requests complete in. */
  function FetchAll(urls: seq<string>, fetch: Fetcher): (r: seq<string>)
    ensures |r| == |urls|
    ensures forall i :: 0 <= i < |urls| ==> r[i] == FetchUrl(urls[i], fetch(urls[i]))
  {
    Each(ResultOf(fetch), urls)
  }

  /** The reply to a search with results: the gathered results joined by a
      blank line. */
  function Assemble(urls: seq<string>, fetch: Fetcher): string {
    Join("\n\n", FetchAll(urls, fetch))
  }

  /** The reply for a library that is neither registered nor discovered. */
  function NotFound(library: string, supported: seq<string>): string {
    "Error: '" + library + "' not found. Supported: " + Join(", ", supported) +
    ". Use register_new_library to add it."
  }

  const NoResults := "No results found."

  /** The query that looks for the documentation of an unknown library. */
  function DiscoveryQuery(library: string): string {
    library + " official documentation"
  }

  /** The outcome of `search_docs`: the reply, the registry afterwards, and
      the URLs it requested, in order. */
  datatype Reply = Reply(text: string, state: Docs, fetched: seq<string>)

  /** `search_docs` on the registry `d`: a known library is searched at its
      base URL; an unknown one, or one registered with an empty URL, is first
      looked up with the provider, and the first link found is registered and
      used; the pages of the links found at the base URL are fetched and
      their results joined. */
  function Respond(d: Docs, library: string, query: string, search: Provider, fetch: Fetcher): Reply {
    var known := Lookup(d.urls, library);
    if known.None? || known.value == "" then
      var discovered := DdgSearch(DiscoveryQuery(library), "", 1, search);
      if discovered == [] then Reply(NotFound(library, d.names), d, [])
      else SearchAt(Put(d, Lower(library), discovered[0]), discovered[0], query, search, fetch)
    else SearchAt(d, known.value, query, search, fetch)
  }

  /** The search at a base URL, once that is known. */
  function SearchAt(d: Docs, baseUrl: string, query: string, search: Provider, fetch: Fetcher): Reply {
    var urls := DdgSearch(query, baseUrl, DefaultMaxResults, search);
    if urls == [] then Reply(NoResults, d, [])
    else Reply(Assemble(urls, fetch), d, urls)
  }

  /** `register_new_library`. */
  method RegisterNewLibrary(registry: DocRegistry, name: string, baseUrl: string) returns (reply: string)
    requires registry.Valid()
    modifies registry
    ensures registry.Valid() && registry.State() == Put(old(registry.State()), Lower(name), baseUrl)
    ensures reply == "Library '" + name + "' successfully registered at " + baseUrl + "."
  {
    registry.Register(name, baseUrl);
    reply := "Library '" + name + "' successfully registered at " + baseUrl + ".";
  }

  /** `list_supported_libraries`: every registered name, once, in the order
      of registration. */
  method ListSupportedLibraries(registry: DocRegistry) returns (names: seq<string>)
    requires registry.Valid()
    ensures names == registry.names
    ensures forall k :: k in registry.urls <==> k in names
    ensures forall i, j :: 0 <= i < j < |names| ==> names[i] != names[j]
  {
    names := registry.ListSupported();
  }

  /** `search_docs`, changing the shared registry as `Respond` says; returns
      the reply and the URLs whose pages it requested. */
  method SearchDocs(registry: DocRegistry, library: string, query: string, search: Provider, fetch: Fetcher)
    returns (reply: string, fetched: seq<string>)
    requires registry.Valid()
    modifies registry
    ensures registry.Valid()
    ensures Reply(reply, registry.State(), fetched) == Respond(old(registry.State()), library, query, search, fetch)
  {
    var baseUrl := registry.GetUrl(library);
    var base := "";
    if baseUrl.None? || baseUrl.value == "" {
      var potential := DdgSearch(DiscoveryQuery(library), "", 1, search);
      if potential == [] {
        var supported := registry.ListSupported();
        reply := NotFound(library, supported);
        fetched := [];
        return;
      }
      base := potential[0];
      registry.Register(library, base);
    } else {
      base := baseUrl.value;
    }
    var urls := DdgSearch(query, base, DefaultMaxResults, search);
    if urls == [] {
      reply := NoResults;
      fetched := [];
      return;
    }
    var results := Gather(urls, fetch);
    reply := Join("\n\n", results);
    fetched := urls;
  }

  /** Requests every URL and collects the results in the order of the URLs. */
  method Gather(urls: seq<string>, fetch: Fetcher) returns (results: seq<string>)
    ensures results == FetchAll(urls, fetch)
  {
    var result := ResultOf(fetch);
    results := [];
    for i := 0 to |urls|
      invariant results == Each(result, urls[..i])
    {
      EachSnoc(result, urls, i);
      results := results + [result(urls[i])];
    }
    assert urls[..|urls|] == urls;
  }

  /** Mapping one more element appends its value. */
  lemma EachSnoc(f: string -> string, xs: seq<string>, i: nat)
    requires i < |xs|
    ensures Each(f, xs[..i + 1]) == Each(f, xs[..i]) + [f(xs[i])]
  {
    assert xs[..i + 1][..i] == xs[..i];
  }

  // ---------------------------------------------------------------------
  // What a search answers
  // ---------------------------------------------------------------------

  /** A library registered with a non-empty URL is searched at that URL; the
      registry is unchanged, and the pages requested are exactly the links
      found there. */
  lemma KnownLibrary(d: Docs, library: string, query: string, search: Provider, fetch: Fetcher, base: string)
    requires Lookup(d.urls, library) == Some(base) && base != ""
    ensures var r := Respond(d, library, query, search, fetch);
      r.state == d && r.fetched == DdgSearch(query, base, DefaultMaxResults, search)
  {
  }

  /** An unknown library, or one registered with an empty URL, with nothing
      discovered: the reply names the library and lists the supported ones;
      nothing is registered and nothing is fetched. */
  lemma UnknownLibrary(d: Docs, library: string, query: string, search: Provider, fetch: Fetcher)
    requires Lookup(d.urls, library).None? || Lookup(d.urls, library).value == ""
    requires DdgSearch(DiscoveryQuery(library), "", 1, search) == []
    ensures Respond(d, library, query, search, fetch) == Reply(NotFound(library, d.names), d, [])
  {
  }

  /** An unknown library, or one registered with an empty URL, whose
      documentation is discovered: the first link found is registered under
      the lowercased name, so that the next lookup of the library, in any
      case, finds it, and it is where the search runs. */
  lemma DiscoveredLibrary(d: Docs, library: string, query: string, search: Provider, fetch: Fetcher)
    requires Lookup(d.urls, library).None? || Lookup(d.urls, library).value == ""
    requires DdgSearch(DiscoveryQuery(library), "", 1, search) != []
    ensures var first := DdgSearch(DiscoveryQuery(library), "", 1, search)[0];
      var r := Respond(d, library, query, search, fetch);
      r.state == Put(d, Lower(library), first) &&
      Lookup(r.state.urls, library) == Some(first) &&
      r.fetched == DdgSearch(query, first, DefaultMaxResults, search)
  {
    var first := DdgSearch(DiscoveryQuery(library), "", 1, search)[0];
    RegisterThenLookup(d, library, first, library);
  }

  /** When the search at the base URL finds nothing, the reply says so and
      no page is requested; otherwise every link found is requested, in
      order, and each has its result in the reply. */
  lemma FetchesWhatItFinds(d: Docs, library: string, query: string, search: Provider, fetch: Fetcher)
    ensures var r := Respond(d, library, query, search, fetch);
      (r.fetched == [] <==> r.text == NoResults || r.text == NotFound(library, d.names)) &&
      (r.fetched != [] ==> r.text == Join("\n\n", FetchAll(r.fetched, fetch)))
  {
    var known := Lookup(d.urls, library);
    if known.None? || known.value == "" {
      var discovered := DdgSearch(DiscoveryQuery(library), "", 1, search);
      if discovered != [] {
        SearchAtFetches(Put(d, Lower(library), discovered[0]), discovered[0], query, search, fetch, library, d.names);
      }
    } else {
      SearchAtFetches(d, known.value, query, search, fetch, library, d.names);
    }
  }

  /** The search at a base URL requests nothing exactly when it answers
      `No results found.`, and otherwise joins one result per link. */
  lemma SearchAtFetches(d: Docs, baseUrl: string, query: string, search: Provider, fetch: Fetcher,
                        library: string, supported: seq<string>)
    ensures var r := SearchAt(d, baseUrl, query, search, fetch);
      (r.fetched == [] <==> r.text == NoResults || r.text == NotFound(library, supported)) &&
      (r.fetched != [] ==> r.text == Join("\n\n", FetchAll(r.fetched, fetch)))
  {
    var urls := DdgSearch(query, baseUrl, DefaultMaxResults, search);
    if urls != [] {
      NotReply(urls, fetch, library, supported);
    }
  }

  /** Every result starts with a header line. */
  lemma ResultHeader(url: string, outcome: Outcome)
    ensures |FetchUrl(url, outcome)| >= 4 && FetchUrl(url, outcome)[..4] == "--- "
  {
    match outcome
    case Fetched(page) => BlockHeaders(url, Extract(page), "");
    case Failed(reason) => BlockHeaders(url, "", reason);
  }

  /** Both kinds of result line begin with `--- `. */
  lemma BlockHeaders(url: string, content: string, reason: string)
    ensures |SourceBlock(url, content)| >= 4 && SourceBlock(url, content)[..4] == "--- "
    ensures |ErrorBlock(url, reason)| >= 4 && ErrorBlock(url, reason)[..4] == "--- "
  {
  }

  /** The reply to a search with results is neither of the two fixed replies:
      it starts with the header of the first URL's result. */
  lemma {:induction false} NotReply(urls: seq<string>, fetch: Fetcher, library: string, supported: seq<string>)
    requires urls != []
    ensures Assemble(urls, fetch) != NoResults
    ensures Assemble(urls, fetch) != NotFound(library, supported)
  {
    var results := FetchAll(urls, fetch);
    ResultHeader(urls[0], fetch(urls[0]));
    JoinStartsWithFirst(results);
    var reply := Assemble(urls, fetch);
    assert reply[..4] == "--- ";
    FixedReplies(library, supported);
  }

  /** How the two fixed replies begin. */
  lemma FixedReplies(library: string, supported: seq<string>)
    ensures |NoResults| >= 4 && NoResults[..4] != "--- "
    ensures |NotFound(library, supported)| >= 4 && NotFound(library, supported)[..4] != "--- "
  {
    assert NoResults[..4][0] == 'N';
    assert NotFound(library, supported)[..4][0] == 'E';
  }

  /** A join starts with its first element. */
  lemma JoinStartsWithFirst(xs: seq<string>)
    requires xs != []
    ensures |xs[0]| <= |Join("\n\n", xs)| && Join("\n\n", xs)[..|xs[0]|] == xs[0]
  {
  }

  /** Joining three elements. */
  lemma JoinThree(sep: string, x: string, y: string, z: string)
    ensures Join(sep, [x, y, z]) == x + sep + y + sep + z
  {
    assert [y, z][1..] == [z];
    assert Join(sep, [y, z]) == y + sep + z;
    assert [x, y, z][1..] == [y, z];
    assert Join(sep, [x, y, z]) == x + sep + Join(sep, [y, z]);
  }

  /** Each URL's result keeps its place: a failure in the middle of three
      leaves its error line between the results of the two others. */
  lemma {:induction false} OneFailureInThree(a: string, b: string, c: string, fetch: Fetcher, reason: string)
    requires fetch(b) == Failed(reason)
    ensures Assemble([a, b, c], fetch) ==
      FetchUrl(a, fetch(a)) + "\n\n" + ErrorBlock(b, reason) + "\n\n" + FetchUrl(c, fetch(c))
  {
    var f := ResultOf(fetch);
    JoinEachThree(f, a, b, c);
    assert f(b) == ErrorBlock(b, reason);
  }

  /** Three values, joined by a blank line, in the order of their elements. */
  lemma JoinEachThree(f: string -> string, a: string, b: string, c: string)
    ensures Join("\n\n", Each(f, [a, b, c])) == f(a) + "\n\n" + f(b) + "\n\n" + f(c)
  {
    var r := Each(f, [a, b, c]);
    assert r == [f(a), f(b), f(c)];
    JoinThree("\n\n", f(a), f(b), f(c));
  }
}
