/**
 * `DocRegistry`: the libraries the server knows, each name mapped to the base
 * URL of its documentation. Names registered through the server are stored
 * lowercased and looked up lowercased; names merged from the environment are
 * stored as given.
 */
module Config {
  import opened Wrappers
  import opened Strings

  /** The registry's dictionary: its keys in insertion order, and the map. */
  datatype Docs = Docs(names: seq<string>, urls: map<string, string>)

  /** The keys are listed once each, and exactly the keys are listed. */
  ghost predicate Consistent(d: Docs) {
    (forall i, j :: 0 <= i < j < |d.names| ==> d.names[i] != d.names[j]) &&
    (forall k :: k in d.urls <==> k in d.names)
  }

  /** What the `MCP_EXTRA_DOCS` environment variable holds: nothing (unset or
      empty), text that is not JSON, or JSON that `update` accepts, as the
      key-value pairs it yields in order: the members of an object, or the
      pairs of an array such as `[["k", "v"]]`. */
  datatype Env = Unset | Malformed | Parsed(members: seq<(string, string)>)

  const Defaults := Docs(
    ["langchain", "llama-index", "openai"],
    map[
      "langchain" := "https://docs.langchain.com",
      "llama-index" := "https://docs.llamaindex.ai",
      "openai" := "https://platform.openai.com/docs"])

  /** `d[k] = v` on a dictionary: a new key goes to the end, an existing key
      keeps its place and takes the new value. */
  function Put(d: Docs, k: string, v: string): (r: Docs)
    ensures r.urls == d.urls[k := v]
    ensures k in d.urls ==> r.names == d.names
    ensures k !in d.urls ==> r.names == d.names + [k]
  {
    Docs(if k in d.urls then d.names else d.names + [k], d.urls[k := v])
  }

  /** `d.update(members)`: the members put one after the other. */
  function Merge(d: Docs, members: seq<(string, string)>): Docs {
    if members == [] then d
    else
      var last := members[|members| - 1];
      Put(Merge(d, members[..|members| - 1]), last.0, last.1)
  }

  /** The dictionary after `_load_from_env` on `d`. */
  function Load(d: Docs, env: Env): (r: Docs)
    ensures !env.Parsed? ==> r == d
  {
    match env
    case Parsed(members) => Merge(d, members)
    case _ => d
  }

  /** `dict.get(name.lower())`. */
  function Lookup(urls: map<string, string>, name: string): (r: Option<string>)
    ensures r.None? <==> Lower(name) !in urls
    ensures r.Some? ==> r.value == urls[Lower(name)]
  {
    if Lower(name) in urls then Some(urls[Lower(name)]) else None
  }

  class DocRegistry {
    var names: seq<string>
    var urls: map<string, string>

    function State(): Docs
      reads this
    {
      Docs(names, urls)
    }

    ghost predicate Valid()
      reads this
    {
      Consistent(State())
    }

    /** The three defaults, then whatever the environment adds. */
    constructor (env: Env)
      ensures Valid() && State() == Load(Defaults, env)
    {
      names := Defaults.names;
      urls := Defaults.urls;
      new;
      LoadFromEnv(env);
    }

    /** Merges the pairs of the environment's JSON, keys as given. */
    method LoadFromEnv(env: Env)
      requires Valid()
      modifies this
      ensures Valid() && State() == Load(old(State()), env)
    {
      if env.Parsed? {
        var members := env.members;
        ghost var start := State();
        for i := 0 to |members|
          invariant Valid() && State() == Merge(start, members[..i])
        {
          assert members[..i + 1][..i] == members[..i];
          var (k, v) := members[i];
          PutConsistent(State(), k, v);
          if k !in urls {
            names := names + [k];
          }
          urls := urls[k := v];
        }
        assert members[..|members|] == members;
      }
    }

    /** Stores `url` under the lowercased `name`. */
    method Register(name: string, url: string)
      requires Valid()
      modifies this
      ensures Valid() && State() == Put(old(State()), Lower(name), url)
    {
      var key := Lower(name);
      PutConsistent(State(), key, url);
      if key !in urls {
        names := names + [key];
      }
      urls := urls[key := url];
    }

    function GetUrl(name: string): Option<string>
      reads this
    {
      Lookup(urls, name)
    }

    /** The keys in insertion order, each once. */
    function ListSupported(): (r: seq<string>)
      reads this
      requires Valid()
      ensures forall k :: k in urls <==> k in r
      ensures forall i, j :: 0 <= i < j < |r| ==> r[i] != r[j]
      ensures forall k :: k in urls ==> multiset(r)[k] == 1
    {
      ListedOnceEach(names);
      names
    }
  }

  lemma PutConsistent(d: Docs, k: string, v: string)
    requires Consistent(d)
    ensures Consistent(Put(d, k, v))
  {
  }

  /** Merging keeps every name listed once and exactly the keys listed. */
  lemma {:induction false} MergeConsistent(d: Docs, members: seq<(string, string)>)
    requires Consistent(d)
    ensures Consistent(Merge(d, members))
  {
    if members != [] {
      var last := members[|members| - 1];
      MergeConsistent(d, members[..|members| - 1]);
      PutConsistent(Merge(d, members[..|members| - 1]), last.0, last.1);
    }
  }

  /** After registering `name`, every spelling of it with the same lowercase
      form finds the new URL, and every other name finds what it found before. */
  lemma RegisterThenLookup(d: Docs, name: string, url: string, m: string)
    ensures Lower(m) == Lower(name) ==> Lookup(Put(d, Lower(name), url).urls, m) == Some(url)
    ensures Lower(m) != Lower(name) ==> Lookup(Put(d, Lower(name), url).urls, m) == Lookup(d.urls, m)
  {
  }

  /** Registering changes the entry for the lowercased name and no other. */
  lemma RegisterOnlyChangesItsKey(d: Docs, name: string, url: string)
    ensures var r := Put(d, Lower(name), url);
      r.urls.Keys == d.urls.Keys + {Lower(name)} &&
      forall k :: k in d.urls && k != Lower(name) ==> r.urls[k] == d.urls[k]
  {
  }

  /** The index of the last member with key `k`, if any. */
  function LastIndexOf(members: seq<(string, string)>, k: string): (r: Option<nat>)
    ensures r.Some? ==> (r.value < |members| && members[r.value].0 == k &&
      forall i :: r.value < i < |members| ==> members[i].0 != k)
    ensures r.None? ==> forall i :: 0 <= i < |members| ==> members[i].0 != k
  {
    if members == [] then None
    else if members[|members| - 1].0 == k then Some(|members| - 1)
    else LastIndexOf(members[..|members| - 1], k)
  }

  /** The merge stores each member under its key exactly as given: a key of
      the object maps to the value of its last occurrence, overriding a
      default; every other key keeps its value. */
  lemma {:induction false} MergeVerbatim(d: Docs, members: seq<(string, string)>, k: string)
    ensures var r := Merge(d, members).urls;
      match LastIndexOf(members, k)
      case Some(i) => k in r && r[k] == members[i].1
      case None => (k in r <==> k in d.urls) && (k in d.urls ==> r[k] == d.urls[k])
  {
    if members != [] {
      MergeVerbatim(d, members[..|members| - 1], k);
    }
  }

  /** A key with an upper-case letter, as the environment may give, is never
      reached by a lookup, which lowercases the name it is given. */
  lemma MixedCaseUnreachable(urls: map<string, string>, k: string, m: string)
    requires exists i :: 0 <= i < |k| && IsUpper(k[i])
    ensures Lookup(urls, m) == Lookup(urls - {k}, m)
  {
    var i :| 0 <= i < |k| && IsUpper(k[i]);
    if |Lower(m)| == |k| {
      assert !IsUpper(Lower(m)[i]);
    }
    assert Lower(m) != k;
  }

  /** A distinct list holds each of its elements exactly once. */
  lemma {:induction false} ListedOnce(s: seq<string>, k: string)
    requires forall i, j :: 0 <= i < j < |s| ==> s[i] != s[j]
    requires k in s
    ensures multiset(s)[k] == 1
  {
    var init := s[..|s| - 1];
    assert s == init + [s[|s| - 1]];
    if s[|s| - 1] == k {
      assert k !in init;
    } else {
      ListedOnce(init, k);
    }
  }

  lemma ListedOnceEach(s: seq<string>)
    requires forall i, j :: 0 <= i < j < |s| ==> s[i] != s[j]
    ensures forall k :: k in s ==> multiset(s)[k] == 1
  {
    forall k | k in s
      ensures multiset(s)[k] == 1
    {
      ListedOnce(s, k);
    }
  }
}
