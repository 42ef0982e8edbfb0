# mcp-doc-search in Dafny

A model of the documentation search server: the MCP tools that look up a
library's documentation site, search it and return the pages' main content
as markdown.

- **Html** (`html.dfy`): the parsed page.
  - A tree of elements and text nodes.
  - Node references are child-index paths, and document order is preorder.
  - The five selector forms the extractor uses.
  - `css`/`css_first` as "every match in document order" and "the earliest match".
  - selectolax's `text(separator, strip=True)`.
  - Removal of matching subtrees (`decompose`), and where a surviving node
    sits afterwards.
- **Parser** (`parser.dfy`), for `DocParser` in `src/parser.py`:
  - `find_content`: the selector priority list, then the largest-text `div`.
  - `clean_html`: a method that edits the `Document` in place, selector after selector.
  - `to_markdown`: a method that walks the elements in preorder and appends
    one fragment per element, then collapses runs of newlines and strips.
  - `parse`: locate first, clean after, then the 50-character threshold.
- **Config** (`config.dfy`), for `DocRegistry` in `src/config.py`:
  - A class holding the registry dictionary as its insertion-ordered keys and a map.
  - The three defaults, the merge of the `MCP_EXTRA_DOCS` object, and
    `register`, `get_url` and `list_supported`.
- **Search** (`search.dfy`), for `src/search.py`:
  - `is_empty`.
  - The `site:` query; the query is `"site:" + docUrl + " " + keyword`.
  - The filter that keeps the non-blank links.
- **Server** (`server.dfy`), for `src/server.py`:
  - `fetch_url`'s result lines, and the gathered results joined by a blank line.
  - `register_new_library` and `list_supported_libraries`.
  - `search_docs`: a known library, discovery with registration of the first
    link, the "not found" reply listing the known names, "No results found.",
    or the fetched pages.

The search provider and the page fetcher are parameters. The provider is a
function from a query and a result count to the links found, any of which may
be missing. The fetcher is a function from a URL to either the parsed page or
the text of the exception the request raised.

## Model

| member | source | states |
|---|---|---|
| Strings.Strip | src/parser.py:67 | `str.strip()` is a slice of the text with visible ends, everything before and after it is whitespace, and it is empty exactly when the text is all whitespace |
| Strings.Lower | src/config.py:31 | lowercasing keeps the length, turns each of `A`-`Z` into the matching lower-case letter and keeps every other character |
| Strings.LowerIdempotent | src/config.py:31-34 | lowercasing a lowercased name changes nothing |
| Strings.JoinAppend | src/server.py:73 | joining two non-empty lists puts one separator between their joins |
| Html.ElementPathsSound | src/parser.py:48 | `traverse()` visits only element nodes of the subtree |
| Html.ElementPathsComplete | src/parser.py:48 | `traverse()` visits every element node of the subtree, the node itself included |
| Html.ElementPathsOrdered | src/parser.py:48 | `traverse()` visits in document order |
| Html.CssExact | src/parser.py:17 | `css(sel)` yields exactly the matching nodes, in document order |
| Html.CssFirstIsEarliest | src/parser.py:31 | `css_first(sel)` is none when nothing matches, else a match that precedes every other match |
| Html.Prune | src/parser.py:16-18 | removing matched subtrees keeps a node's kind, tag and attributes |
| Html.PruneThenPrune | src/parser.py:16-18 | removing one selector's matches after the others' is the same as removing all of them at once |
| Html.PrunedHasNoNoise | src/parser.py:16-18 | no node below the root of a cleaned tree matches a removed selector |
| Html.RelocateFindsPruned | src/parser.py:16-18 | a node with no match on its path is still in the tree, with its parent's tag, holding its own subtree minus the matches |
| Html.RelocateKeepsOrder | src/parser.py:16-18 | two surviving nodes keep their document order |
| Html.DeepTextShorter | src/parser.py:49 | the text of an element is never shorter than the text of an element inside it |
| Parser.CleanHtml | src/parser.py:7-18 | the loop over the twelve noise selectors leaves no document when the root element matches one, and otherwise the original with every matching subtree removed |
| Parser.CleanOneMore | src/parser.py:16-18 | one more selector removes the root when it matches, and otherwise the matching subtrees |
| Parser.CleanedHasNoNoise | src/parser.py:9-18 | after cleaning, no node of the document, the root included, matches a noise selector |
| Parser.CleanKeepsNode | src/parser.py:16-18 | cleaning removes only matched subtrees: a node with no match on its path, root included, stays in the cleaned document at its relocated path, pruned below |
| Parser.CleanKeepsOrder | src/parser.py:16-18 | two nodes that cleaning keeps stay in their document order |
| Parser.FirstContentMatch | src/parser.py:30-32 | the selector loop returns the first match of the first selector that matches anything |
| Parser.FirstSelectorMatchAt | src/parser.py:30-32 | when selectors before the k-th match nothing and the k-th matches, the result is the k-th selector's earliest match |
| Parser.FirstSelectorMatchNone | src/parser.py:30-32 | when no selector matches, the loop finds nothing |
| Parser.LocateBySelector | src/parser.py:23-32 | with the priority list, the content node matches the first matching selector and precedes its other matches |
| Parser.LargestTextDiv | src/parser.py:35-42 | the fallback loop, with `best_node`/`max_text` as loop state, returns the largest-text div |
| Parser.FindContent | src/parser.py:21-42 | `find_content` returns the selector match, or the fallback when no selector matches |
| Parser.LocateByDensity | src/parser.py:30-42 | when no content selector matches, the content is the fallback's div |
| Parser.DensestDivIsLargest | src/parser.py:37-41 | if some div has more than 200 characters, the pick is a div above 200 whose length no div exceeds, the earliest among equals |
| Parser.DensestDivDefault | src/parser.py:36-41 | if no div has more than 200 characters, the pick is `body`, or the root without one |
| Parser.LargestIsEarliest | src/parser.py:37-41 | the strict `>` loop ends on the first maximum above 200 |
| Parser.LargestKeepsStart | src/parser.py:35-39 | with no length above 200 the loop keeps its starting node |
| Parser.BodyOrRoot | src/parser.py:36 | `tree.body or tree.root` is the first `body` child of the root when there is one, and the root otherwise |
| Strings.Repeat | src/parser.py:56 | `'#' * level` is `level` copies of the character |
| Parser.Collapse | src/parser.py:67 | `re.sub(r'\n{3,}', '\n\n', …)` leaves no run of three newlines and keeps the first character when it is not a newline |
| Parser.CollapseKeepsWords | src/parser.py:67 | collapsing changes only newline runs: the other characters are kept in order |
| Parser.CollapseTidy | src/parser.py:67 | collapsing text with no run of three newlines changes nothing |
| Parser.CollapseBetween | src/parser.py:67 | between two texts, a run of three or more newlines becomes exactly `\n\n` and each text is collapsed on its own |
| Parser.CollapseRun | src/parser.py:67 | a leading run of three or more newlines becomes exactly `\n\n` |
| Parser.CollapseShortRun | src/parser.py:67 | a leading run of one or two newlines is kept |
| Parser.CollapseNoNewline | src/parser.py:67 | text without newlines is unchanged |
| Parser.CollapseAppend | src/parser.py:67 | collapsing a concatenation whose first part does not end in a newline collapses each part |
| Parser.StripTidy | src/parser.py:67 | stripping keeps the absence of triple newlines |
| Parser.RenderIsTidy | src/parser.py:66-67 | `to_markdown`'s output has no run of three newlines and no leading or trailing whitespace |
| Parser.ToMarkdown | src/parser.py:45-67 | the traversal loop builds the fragments of the visited elements in order, then collapses and strips them |
| Parser.RenderShortText | src/parser.py:49-51 | a node whose stripped, joined text is shorter than 3 characters renders as empty, since no element inside it has more text |
| Parser.RenderLeafFragment | src/parser.py:45-67 | an element holding one text renders as its tag's fragment of the stripped text, tidied |
| Parser.TidiedHeading | src/parser.py:54-56 | `h` plus a digit d from 1 to 9 renders as d hash signs, a space and the text, for any stripped text of three or more characters with no run of three newlines, single and double line breaks included |
| Parser.TidiedBlock | src/parser.py:57-58 | `p`, `div` and `span` render as their text, for the same texts |
| Parser.TidiedItem | src/parser.py:59-60 | `li` renders as `- ` and its text, for the same texts |
| Parser.TidiedPre | src/parser.py:61-62 | `pre` renders as six backticks, whatever its content |
| Parser.TidiedCode | src/parser.py:63-64 | `code` outside `pre` renders as its text in backticks, for the same texts |
| Parser.TidiedIgnored | src/parser.py:53-64 | `code` inside `pre` and every other tag emit nothing |
| Parser.RenderIgnored | src/parser.py:57-64 | an element of an ignored tag, or `code` under `pre`, renders as empty |
| Parser.HeadingThenParagraph | src/parser.py:53-67 | the fragments of an `h2` followed by a `p` render as `## ` title, one blank line, the paragraph |
| Parser.SectionRender | src/parser.py:45-67 | `<main><h2>t</h2><p>u</p></main>`, or the same pair in any container that emits nothing itself, renders as `## t`, one blank line, `u` |
| Parser.ContentNodeKept | src/parser.py:70-73 | the rendered node is the located element, with its tag and attributes and no noise below it; when no node on its path, the root included, matches noise, it is exactly what the cleaned document holds there, under a parent of the same tag |
| Parser.AsWrittenAgrees | src/parser.py:70-73 | the node the source renders is the model's whenever it survives the cleaning; it is lost exactly when a node on its path, the root included, matches noise |
| Parser.Extract | src/parser.py:74 | `parse` returns `No content found` exactly when the markdown has at most 50 characters, and otherwise the markdown unchanged |
| Parser.Parse | src/parser.py:69-74 | locating, then cleaning, then rendering the content where the cleaning left it gives `Extract` of the page |
| Parser.SidebarContentDestroyed | src/parser.py:11-28 | on a page whose only candidate has class `sidebar-content`, the content found is that div, and cleaning removes it |
| Parser.SidebarIsNoise | src/parser.py:11 | class `sidebar-content` matches `[class*='sidebar']` |
| Parser.SidebarIsContent | src/parser.py:28 | class `sidebar-content` matches `[class*='content']` |
| Parser.SidebarLocate | src/parser.py:23-32 | on that page `find_content` picks the sidebar div |
| Parser.SidebarCleaned | src/parser.py:16-18 | on that page cleaning leaves an empty body |
| Parser.SidebarRootDestroyed | src/parser.py:11-31 | on a page whose `html` element has class `sidebar-visible`, the content found is `main`, and cleaning removes the root and the whole document with it |
| Parser.SidebarRootLocate | src/parser.py:30-31 | on that page `find_content` picks `main` |
| Config.Put | src/config.py:31 | `d[k] = v`: the map takes the value; a new key is appended to the key order, an existing one keeps its place |
| Config.Load | src/config.py:18-28 | an unset, empty or unparsable `MCP_EXTRA_DOCS` leaves the dictionary unchanged |
| Config.Lookup | src/config.py:33-34 | `get` on the lowercased name is none exactly when that key is absent, else its value |
| Config.DocRegistry.constructor | src/config.py:9-16 | the registry starts as the three defaults merged with the environment's object |
| Config.DocRegistry.LoadFromEnv | src/config.py:18-28 | the loop puts the object's members one after the other, keeping each key listed once |
| Config.DocRegistry.Register | src/config.py:30-31 | stores the URL under the lowercased name |
| Config.DocRegistry.ListSupported | src/config.py:36-37 | lists exactly the keys, each exactly once |
| Config.PutConsistent | src/config.py:30-31 | an assignment keeps the keys listed once and exactly the keys listed |
| Config.MergeConsistent | src/config.py:26 | `update` keeps the keys listed once and exactly the keys listed |
| Config.RegisterThenLookup | src/config.py:30-34 | after `register(n, u)`, `get_url(m)` is `u` when `m` lowercases like `n`, and unchanged otherwise |
| Config.RegisterOnlyChangesItsKey | src/config.py:30-31 | `register` adds the lowercased key and changes no other entry |
| Config.MergeVerbatim | src/config.py:26 | each key of the environment's object is stored as given, with the value of its last occurrence, overriding a default; other keys keep their values |
| Config.LastIndexOf | src/config.py:26 | the last occurrence of a key among the object's members |
| Config.MixedCaseUnreachable | src/config.py:33-34 | a key holding an upper-case letter never answers a lookup |
| Config.ListedOnce | src/config.py:36-37 | each listed name occurs exactly once |
| Search.IsEmpty | src/search.py:14-15 | true exactly for none or an all-whitespace text |
| Search.Links | src/search.py:11 | the kept links are no more than the results, and none is blank |
| Search.DdgSearch | src/search.py:5-11 | the links for the `site:` query: none blank, no more than the provider's results |
| Search.LinksAtPositions | src/search.py:11 | each kept link is the result at its position |
| Search.PositionsIncrease | src/search.py:11 | those positions increase: the links keep the results' order |
| Search.PositionsComplete | src/search.py:11 | every non-empty result is kept |
| Server.Each | src/server.py:70 | the list comprehension gives one value per element, in the order of the elements |
| Server.FetchAll | src/server.py:69-71 | one result per URL, in the order of the URLs |
| Server.Gather | src/server.py:69-71 | the request loop collects the results in the order of the URLs |
| Server.ResultHeader | src/server.py:12-19 | every result, success or failure, starts with a `--- ` header |
| Server.OneFailureInThree | src/server.py:12-19 | a failed request in the middle of three gives its error line between the other two results, joined by blank lines |
| Server.RegisterNewLibrary | src/server.py:23-30 | registers the lowercased name and confirms with the name and URL |
| Server.ListSupportedLibraries | src/server.py:34-37 | every registered name, each once, in the order of registration |
| Server.SearchDocs | src/server.py:39-73 | the reply, the registry afterwards and the URLs requested are those of the decision flow |
| Server.KnownLibrary | src/server.py:52-53 | a library with a non-empty URL leaves the registry unchanged, and the links found at that URL are what is requested |
| Server.UnknownLibrary | src/server.py:52-63 | an unknown library, or one registered with an empty URL, with no discovery gets the not-found reply listing the known names; nothing registered, nothing fetched |
| Server.DiscoveredLibrary | src/server.py:52-60 | an unknown library, or one registered with an empty URL, is registered at the first discovered link, which a later lookup finds and the search uses |
| Server.FetchesWhatItFinds | src/server.py:65-73 | nothing is requested exactly when the reply is `No results found.` or not-found; otherwise the reply joins one result per requested URL |
| Server.NotReply | src/server.py:66-73 | a reply assembled from results is neither fixed reply |

## Left out

- HTML parsing and selectolax's CSS engine. The model starts from a parsed tree and supports the five selector forms the two lists use.
- Class matching is case-sensitive, as in standards mode. Quirks-mode case folding is not modelled.
- When cleaning destroys the located node, alone or with the whole document, the source goes on to render a node that is no longer in the document. What selectolax gives then is not modelled. The model renders the located node with the noise below it removed (see Findings).
- `str.strip`, `str.lower`, `str.isdigit` and HTML whitespace are ASCII-only.
- Parser.TidiedHeading: requires a digit from 1 to 9. `h0` emits a newline, no hash sign, a space and the text, which strips to the bare text. Every other heading digit has the fragment shape the definition states.
- Networking, the fetch timeout, redirects, `raise_for_status` and response decoding are left out. A fetch is an outcome parameter, the parsed page or the exception text, and the exception text is an arbitrary string.
- `asyncio.gather` is left out: the requests are made one after the other, in URL order, which is the order `gather` returns them in.
- The fetcher is a function of the URL, so a URL that the search returns twice gets the same outcome both times. The source requests it twice, and the two answers may differ.
- The DDGS provider and its region, safe-search, page and backend arguments are left out. The provider is a function parameter.
- The search provider can fail, for instance on a rate limit or a network error. `search_docs` calls `ddg_search` outside any `try`, both for discovery and for the search itself, so the exception propagates out of the tool and no reply is returned. This is not modelled: the provider is total, so `Respond` always gives a reply.
- FastMCP, its decorators and its transport are left out.
- The shared registry is one object passed to each tool.
- `os.getenv` and `json.loads` are left out. The environment value is unset or empty, unparsable, or a JSON value that `update` accepts, given as its key-value pairs in order: an object, an array of pairs such as `[["k", "v"]]`, `[]` or `""`. Values are strings.
- JSON that `update` rejects, such as a number, `null` or a non-empty string, raises an error that the `except` clause does not catch, so the registry is never built. This is not modelled.
- The `__main__` demo block of `src/search.py` is left out.
- Server.FetchUrl and Search.Query have no contract of their own. Their text is exactly what their definitions build, and the lemmas above use them.

## Findings

| source | as written | input that shows it | evidently intended | confidence | as-written member | corrected member |
|---|---|---|---|---|---|---|
| src/parser.py:28 (with :11 and :71-73) | `find_content` may pick a node that `clean_html` then removes, because `[class*='content']` matches `sidebar-content`, which `[class*='sidebar']` also matches; `to_markdown` then renders a node that is no longer in the document | `<html><body><div class="sidebar-content">Getting started</div></body></html>` | the located content, with only the noise inside it removed, is what gets rendered | not executed | Parser.SidebarContentDestroyed | Parser.ContentNodeKept |
| src/parser.py:16-18 (with :11 and :71-73) | `tree.css(sel)` also matches the `html` element itself, so a page-level class such as `sidebar-visible` makes `decompose` remove the whole document, the located content with it | `<html class="sidebar-visible"><main>Getting started</main></html>` | the noise selectors remove blocks inside the page, and the located content is what gets rendered | not executed | Parser.SidebarRootDestroyed | Parser.ContentNodeKept |
