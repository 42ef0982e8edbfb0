/**
 * The documentation search: a `site:` query sent to a web search provider,
 * and the result links that are neither missing nor blank.
 */
module Search {
  import opened Wrappers
  import opened Strings

  /** The provider: the `href` of each result for a query, at most the given
      number of results; a result may have no `href`. */
  type Provider = (string, nat) -> seq<Option<string>>

  const DefaultMaxResults := 5

  /** `is_empty`: no value, or only whitespace. */
  function IsEmpty(v: Option<string>): (r: bool)
    ensures r <==> v.None? || AllSpace(v.value)
  {
    v.None? || Strip(v.value) == ""
  }

  /** The query restricted to the documentation site. */
  function Query(keyword: string, docUrl: string): string {
    "site:" + docUrl + " " + keyword
  }

  /** The links among the results, in order, skipping the empty ones. */
  function Links(results: seq<Option<string>>): (r: seq<string>)
    ensures |r| <= |results|
    ensures forall i :: 0 <= i < |r| ==> !IsEmpty(Some(r[i]))
  {
    if results == [] then []
    else
      var last := results[|results| - 1];
      Links(results[..|results| - 1]) + (if IsEmpty(last) then [] else [last.value])
  }

  /** `ddg_search`: the links the provider finds for the `site:` query, none
      of them blank, and no more of them than results. */
  function DdgSearch(keyword: string, docUrl: string, maxResults: nat, search: Provider): (r: seq<string>)
    ensures |r| <= |search(Query(keyword, docUrl), maxResults)|
    ensures forall i :: 0 <= i < |r| ==> !IsEmpty(Some(r[i]))
  {
    Links(search(Query(keyword, docUrl), maxResults))
  }

  /** The positions of the non-empty results, in order. */
  ghost function Positions(results: seq<Option<string>>): seq<nat> {
    if results == [] then []
    else
      var n := |results| - 1;
      Positions(results[..n]) + (if IsEmpty(results[n]) then [] else [n])
  }

  /** Each link is the result at its position. */
  lemma {:induction false} LinksAtPositions(results: seq<Option<string>>)
    ensures var idx, r := Positions(results), Links(results);
      |idx| == |r| &&
      forall i :: 0 <= i < |idx| ==> idx[i] < |results| && results[idx[i]] == Some(r[i])
  {
    if results != [] {
      var n := |results| - 1;
      LinksAtPositions(results[..n]);
      var idx0, r0 := Positions(results[..n]), Links(results[..n]);
      if IsEmpty(results[n]) {
        assert Positions(results) == idx0 && Links(results) == r0;
      } else {
        assert Positions(results) == idx0 + [n];
        assert Links(results) == r0 + [results[n].value];
      }
      assert forall i :: 0 <= i < |idx0| ==> results[..n][idx0[i]] == results[idx0[i]];
    }
  }

  /** The positions increase: the links keep the order of the results. */
  lemma {:induction false} PositionsIncrease(results: seq<Option<string>>)
    ensures forall i :: 0 <= i < |Positions(results)| ==> Positions(results)[i] < |results|
    ensures forall i, j :: 0 <= i < j < |Positions(results)| ==> Positions(results)[i] < Positions(results)[j]
  {
    if results != [] {
      var n := |results| - 1;
      PositionsIncrease(results[..n]);
      var init := Positions(results[..n]);
      var tail: seq<nat> := if IsEmpty(results[n]) then [] else [n];
      assert Positions(results) == init + tail;
      assert forall i :: 0 <= i < |init| ==> init[i] < n;
    }
  }

  /** Every non-empty result has a position: no link is dropped. */
  lemma {:induction false} PositionsComplete(results: seq<Option<string>>, k: nat)
    requires k < |results| && !IsEmpty(results[k])
    ensures k in Positions(results)
  {
    var n := |results| - 1;
    if k < n {
      assert results[..n][k] == results[k];
      PositionsComplete(results[..n], k);
      PositionsGrow(results);
    } else {
      PositionsLast(results);
    }
  }

  /** Positions of a prefix stay positions. */
  lemma PositionsGrow(results: seq<Option<string>>)
    requires results != []
    ensures forall k :: k in Positions(results[..|results| - 1]) ==> k in Positions(results)
  {
  }

  /** The last result has a position when it is not empty. */
  lemma PositionsLast(results: seq<Option<string>>)
    requires results != [] && !IsEmpty(results[|results| - 1])
    ensures |results| - 1 in Positions(results)
  {
  }
}
