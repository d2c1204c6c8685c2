/**
 * The search `re.search(r'(https?://\S+)', line)`: the leftmost position where
 * "http://" or "https://" is followed by at least one non-whitespace character,
 * with the greedy `\S+` running to the next whitespace character or the end.
 */
module Url {
  import opened Wrappers
  import opened Text

  const Http: string := "http://"
  const Https: string := "https://"

  /** `p` is a prefix of `s`. */
  predicate StartsWith(s: string, p: string) {
    |p| <= |s| && forall k :: 0 <= k < |p| ==> s[k] == p[k]
  }

  /** Every character of `u` is non-whitespace (`u` matches `\S*`). */
  ghost predicate NoSpace(u: string) {
    forall k :: 0 <= k < |u| ==> !IsSpace(u[k])
  }

  /** `u` matches `https?://\S+` in full. */
  ghost predicate IsUrl(u: string) {
    ((StartsWith(u, Http) && |u| > |Http|) || (StartsWith(u, Https) && |u| > |Https|)) && NoSpace(u)
  }

  /**
   * `line[i..j]` is the match the pattern finds when it is tried at index `i`:
   * a full match of `https?://\S+` that the greedy `\S+` cannot extend.
   */
  ghost predicate IsMatchAt(line: string, i: int, j: int) {
    0 <= i <= j <= |line| && IsUrl(line[i..j]) && (j == |line| || IsSpace(line[j]))
  }

  /** Start and end (exclusive) of a match, as `match.span()` gives them. */
  datatype Span = Span(start: nat, end: nat)

  /** Length of the scheme "https://" or "http://" that starts at `i`, or 0 if neither does. */
  function SchemeLength(line: string, i: nat): (n: nat)
    requires i <= |line|
    ensures n == |Https| ==> StartsWith(line[i..], Https)
    ensures n == |Http| ==> StartsWith(line[i..], Http)
    ensures n == 0 ==> !StartsWith(line[i..], Https) && !StartsWith(line[i..], Http)
    ensures n == 0 || n == |Http| || n == |Https|
  {
    if StartsWith(line[i..], Https) then |Https|
    else if StartsWith(line[i..], Http) then |Http|
    else 0
  }

  /** End of the longest run of non-whitespace characters starting at `k` (greedy `\S*`). */
  function RunEnd(line: string, k: nat): (j: nat)
    requires k <= |line|
    ensures k <= j <= |line|
    ensures forall m :: k <= m < j ==> !IsSpace(line[m])
    ensures j == |line| || IsSpace(line[j])
    decreases |line| - k
  {
    if k == |line| || IsSpace(line[k]) then k else RunEnd(line, k + 1)
  }

  /**
   * The end of the match tried at `i`, if the pattern matches there; every
   * match at `i` ends where this says.
   */
  function MatchAt(line: string, i: nat): (r: Option<nat>)
    requires i <= |line|
    ensures r.Some? ==> IsMatchAt(line, i, r.value)
    ensures forall j :: IsMatchAt(line, i, j) ==> r == Some(j)
  {
    var n := SchemeLength(line, i);
    if n == 0 then
      MatchAtComplete(line, i);
      None
    else
      var j := RunEnd(line, i + n);
      if j == i + n then
        MatchAtComplete(line, i);
        None
      else
        MatchAtComplete(line, i);
        assert IsUrl(line[i..j]) by {
          if n == |Https| {
            assert StartsWith(line[i..j], Https);
          } else {
            assert StartsWith(line[i..j], Http);
          }
        }
        Some(j)
  }

  /** Any match at `i` begins with the scheme `SchemeLength` finds and ends where the run of non-whitespace ends. */
  lemma MatchAtComplete(line: string, i: nat)
    requires i <= |line|
    ensures forall j :: IsMatchAt(line, i, j) ==>
      var n := SchemeLength(line, i); n > 0 && i + n < j && RunEnd(line, i + n) == j
  {
    forall j | IsMatchAt(line, i, j)
      ensures var n := SchemeLength(line, i); n > 0 && i + n < j && RunEnd(line, i + n) == j
    {
      MatchEnd(line, i, j);
    }
  }

  /** A match at `i` ending at `j` has a scheme, a non-empty tail, and ends where the greedy run ends. */
  lemma MatchEnd(line: string, i: nat, j: nat)
    requires IsMatchAt(line, i, j)
    ensures var n := SchemeLength(line, i); n > 0 && i + n < j && RunEnd(line, i + n) == j
  {
    var u := line[i..j];
    var n := SchemeLength(line, i);
    if StartsWith(u, Https) && |u| > |Https| {
      assert StartsWith(line[i..], Https);
      assert n == |Https|;
    } else {
      assert StartsWith(line[i..], Http);
      assert line[i + 4] == u[4] == ':';
      assert n == |Http|;
    }
    forall m | i + n <= m < j ensures !IsSpace(line[m]) {
      assert line[m] == u[m - i];
    }
    RunEndUnique(line, i + n, j);
  }

  /** The greedy run is determined: any end that is preceded by non-whitespace and followed by whitespace is it. */
  lemma {:induction false} RunEndUnique(line: string, k: nat, j: nat)
    requires k <= j <= |line|
    requires forall m :: k <= m < j ==> !IsSpace(line[m])
    requires j == |line| || IsSpace(line[j])
    ensures RunEnd(line, k) == j
    decreases j - k
  {
    if k < j {
      RunEndUnique(line, k + 1, j);
    }
  }

  /** The leftmost match starting at index `i` or later. */
  function FindUrlFrom(line: string, i: nat): (r: Option<Span>)
    requires i <= |line|
    ensures r.Some? ==> i <= r.value.start && IsMatchAt(line, r.value.start, r.value.end)
    ensures r.Some? ==> forall k, e :: i <= k < r.value.start ==> !IsMatchAt(line, k, e)
    ensures r.None? ==> forall k, e :: i <= k ==> !IsMatchAt(line, k, e)
    decreases |line| - i
  {
    match MatchAt(line, i)
    case Some(j) => Some(Span(i, j))
    case None =>
      assert forall e :: !IsMatchAt(line, i, e);
      if i == |line| then
        assert forall k, e :: i < k ==> !IsMatchAt(line, k, e);
        None
      else FindUrlFrom(line, i + 1)
  }

  /** `line[i..j]` is the leftmost match in the line. */
  ghost predicate IsLeftmostMatch(line: string, i: int, j: int) {
    IsMatchAt(line, i, j) && forall k, e :: 0 <= k < i ==> !IsMatchAt(line, k, e)
  }

  /** The pattern matches nowhere in the line. */
  ghost predicate NoMatch(line: string) {
    forall k, e :: !IsMatchAt(line, k, e)
  }

  /**
   * `re.search(r'(https?://\S+)', line)`: the span of the leftmost match, or
   * None when the line has no match anywhere.
   */
  function FindUrl(line: string): (r: Option<Span>)
    ensures r.Some? ==> IsLeftmostMatch(line, r.value.start, r.value.end)
    ensures r.None? ==> NoMatch(line)
  {
    FindUrlFrom(line, 0)
  }

  /**
   * A copy of a URL inside a line is itself the start of a match: the scheme is
   * there and is followed by a non-whitespace character.
   */
  lemma UrlCopyStartsMatch(line: string, url: string, k: nat)
    requires IsUrl(url)
    requires OccursAt(line, url, k)
    ensures MatchAt(line, k).Some?
  {
    var n := SchemeLength(line, k);
    if StartsWith(url, Https) && |url| > |Https| {
      assert StartsWith(line[k..], Https) by {
        forall m | 0 <= m < |Https| ensures line[k..][m] == Https[m] {
          assert line[k..][m] == url[m];
        }
      }
    } else {
      assert StartsWith(line[k..], Http) by {
        forall m | 0 <= m < |Http| ensures line[k..][m] == Http[m] {
          assert line[k..][m] == url[m];
        }
      }
      assert line[k + 4] == url[4] == ':';
    }
    assert line[k + n] == url[n];
  }

  /** The spec pins the search down: whatever is the leftmost match is what `FindUrl` returns. */
  lemma FindUrlIsTheLeftmostMatch(line: string, i: nat, j: nat)
    requires IsLeftmostMatch(line, i, j)
    ensures FindUrl(line) == Some(Span(i, j))
  {
    var r := FindUrl(line);
    assert r.Some?;
    var s := r.value;
    assert s.start == i;
    assert MatchAt(line, i) == Some(j);
    assert MatchAt(line, i) == Some(s.end);
  }
}
