/**
 * String helpers with Python's meaning, restricted to ASCII: `str.isspace`,
 * `str.strip`, `str.lower` and `str.join`.
 */
module Strings {

  /** Python's `str.isspace` on ASCII: space, tab, line feed, vertical tab,
      form feed, carriage return and the four separators 0x1C-0x1F. */
  predicate IsSpace(c: char) {
    c == ' ' || ('\t' <= c <= '\r') || ('\U{1C}' <= c <= '\U{1F}')
  }

  predicate AllSpace(s: string) {
    forall i :: 0 <= i < |s| ==> IsSpace(s[i])
  }

  /** How many whitespace characters `s` starts with. */
  function LeadingSpaces(s: string): (n: nat)
    ensures n <= |s|
    ensures forall i :: 0 <= i < n ==> IsSpace(s[i])
    ensures n < |s| ==> !IsSpace(s[n])
  {
    if s != [] && IsSpace(s[0]) then 1 + LeadingSpaces(s[1..]) else 0
  }

  /** The length of `s` once the whitespace it ends with is cut off. */
  function VisibleEnd(s: string): (n: nat)
    ensures n <= |s|
    ensures forall i :: n <= i < |s| ==> IsSpace(s[i])
    ensures n > 0 ==> !IsSpace(s[n - 1])
  {
    if s != [] && IsSpace(s[|s| - 1]) then VisibleEnd(s[..|s| - 1]) else |s|
  }

  /** Where `Strip(s)` starts inside `s`. */
  function StripOffset(s: string): nat {
    LeadingSpaces(s)
  }

  /** Python's `str.strip()`: the slice of `s` between its leading and its
      trailing whitespace; empty exactly when `s` is all whitespace. */
  function Strip(s: string): (r: string)
    ensures StripOffset(s) + |r| <= |s| && r == s[StripOffset(s)..StripOffset(s) + |r|]
    ensures forall i :: 0 <= i < StripOffset(s) ==> IsSpace(s[i])
    ensures forall i :: StripOffset(s) + |r| <= i < |s| ==> IsSpace(s[i])
    ensures r != [] ==> !IsSpace(r[0]) && !IsSpace(r[|r| - 1])
    ensures r == [] <==> AllSpace(s)
  {
    var start := LeadingSpaces(s);
    var end := VisibleEnd(s);
    if end <= start then
      []
    else
      assert !AllSpace(s) by {
        assert !IsSpace(s[start]);
      }
      s[start..end]
  }

  /** The leading whitespace ends at the first visible character. */
  lemma LeadingSpacesAt(s: string, i: nat)
    requires i < |s| && !IsSpace(s[i])
    requires forall k :: 0 <= k < i ==> IsSpace(s[k])
    ensures LeadingSpaces(s) == i
  {
  }

  /** The trailing whitespace starts after the last visible character. */
  lemma VisibleEndAt(s: string, j: nat)
    requires 0 < j <= |s| && !IsSpace(s[j - 1])
    requires forall k :: j <= k < |s| ==> IsSpace(s[k])
    ensures VisibleEnd(s) == j
  {
  }

  /** Python's `c * n` on a one-character string. */
  function Repeat(c: char, n: nat): (r: string)
    ensures |r| == n && forall i :: 0 <= i < n ==> r[i] == c
  {
    seq(n, _ => c)
  }

  predicate IsUpper(c: char) {
    'A' <= c <= 'Z'
  }

  function LowerChar(c: char): (d: char)
    ensures !IsUpper(d)
  {
    if IsUpper(c) then (c as int + 32) as char else c
  }

  /** Python's `str.lower()` on ASCII letters: `A`-`Z` become `a`-`z`,
      every other character is kept. */
  function Lower(s: string): (r: string)
    ensures |r| == |s|
    ensures forall i :: 0 <= i < |r| ==> !IsUpper(r[i])
    ensures forall i :: 0 <= i < |s| && !IsUpper(s[i]) ==> r[i] == s[i]
    ensures forall i :: 0 <= i < |s| && IsUpper(s[i]) ==> 'a' <= r[i] <= 'z' && r[i] as int - s[i] as int == 'a' as int - 'A' as int
  {
    seq(|s|, i requires 0 <= i < |s| => LowerChar(s[i]))
  }

  /** Lower-casing twice is lower-casing once. */
  lemma LowerIdempotent(s: string)
    ensures Lower(Lower(s)) == Lower(s)
  {
  }

  /** Python's `sep.join(xs)`. */
  function Join(sep: string, xs: seq<string>): string {
    if xs == [] then ""
    else if |xs| == 1 then xs[0]
    else xs[0] + sep + Join(sep, xs[1..])
  }

  /** Joining one more element appends the separator and that element. */
  lemma {:induction false} JoinSnoc(sep: string, xs: seq<string>, y: string)
    requires xs != []
    ensures Join(sep, xs + [y]) == Join(sep, xs) + sep + y
  {
    if |xs| == 1 {
      assert xs + [y] == [xs[0], y];
    } else {
      assert (xs + [y])[1..] == xs[1..] + [y];
      JoinSnoc(sep, xs[1..], y);
    }
  }

  /** Joining two non-empty lists puts one separator between the two joins. */
  lemma {:induction false} JoinAppend(sep: string, xs: seq<string>, ys: seq<string>)
    requires xs != [] && ys != []
    ensures Join(sep, xs + ys) == Join(sep, xs) + sep + Join(sep, ys)
    decreases |ys|
  {
    if |ys| == 1 {
      JoinSnoc(sep, xs, ys[0]);
      assert ys == [ys[0]];
    } else {
      var zs := ys[..|ys| - 1];
      var y := ys[|ys| - 1];
      assert ys == zs + [y];
      assert xs + ys == (xs + zs) + [y];
      JoinSnoc(sep, xs + zs, y);
      JoinAppend(sep, xs, zs);
      JoinSnoc(sep, zs, y);
    }
  }

  /** A join is at least as long as the join of any run of consecutive
      elements it contains. */
  lemma {:induction false} JoinInfix(sep: string, a: seq<string>, m: seq<string>, b: seq<string>)
    ensures |Join(sep, m)| <= |Join(sep, a + m + b)|
  {
    if m != [] {
      var mb := m + b;
      if b != [] {
        JoinAppend(sep, m, b);
      } else {
        assert mb == m;
      }
      assert |Join(sep, m)| <= |Join(sep, mb)|;
      if a != [] {
        JoinAppend(sep, a, mb);
        assert a + m + b == a + mb;
      } else {
        assert a + m + b == mb;
      }
    }
  }
}
