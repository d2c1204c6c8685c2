/**
 * The Python string operations the meal-plan export relies on:
 * `str.isspace`, `str.split(sep)`, `str.strip(chars)` and `str.replace(old, "")`.
 */
module Text {

  /** Python's notion of whitespace (`str.isspace`, `\s` in a `str` regular expression). */
  predicate IsSpace(c: char) {
    ('\t' <= c <= '\r') || ('\U{1C}' <= c <= ' ') || c == '\U{85}' || c == '\U{A0}' ||
    c == '\U{1680}' || ('\U{2000}' <= c <= '\U{200A}') || c == '\U{2028}' || c == '\U{2029}' ||
    c == '\U{202F}' || c == '\U{205F}' || c == '\U{3000}'
  }

  /** Number of occurrences of `c` in `s`. */
  function Occurrences(s: string, c: char): nat {
    multiset(s)[c]
  }

  // ---------------------------------------------------------------------------
  // split / join

  /** `sep.join(parts)`: the inverse of `Split`. */
  function Join(parts: seq<string>, sep: char): string
    requires |parts| > 0
  {
    if |parts| == 1 then parts[0] else parts[0] + [sep] + Join(parts[1..], sep)
  }

  /**
   * `s.split(sep)` for a one-character separator: the pieces between separators,
   * empty ones included, so there is one piece more than there are separators
   * (the empty string gives one empty piece).
   */
  function Split(s: string, sep: char): (parts: seq<string>)
    ensures |parts| > 0
  {
    if s == [] then [[]]
    else
      var rest := Split(s[1..], sep);
      assert s == [s[0]] + s[1..];
      if s[0] == sep then [[]] + rest
      else [[s[0]] + rest[0]] + rest[1..]
  }

  /** There is one piece more than there are separators. */
  lemma {:induction false} SplitCount(s: string, sep: char)
    ensures |Split(s, sep)| == Occurrences(s, sep) + 1
  {
    if s != [] {
      SplitCount(s[1..], sep);
      assert s == [s[0]] + s[1..];
      assert multiset(s) == multiset{s[0]} + multiset(s[1..]);
    }
  }

  /** No piece of a split contains the separator. */
  lemma {:induction false} SplitPiecesFree(s: string, sep: char)
    ensures forall k :: 0 <= k < |Split(s, sep)| ==> sep !in Split(s, sep)[k]
  {
    if s != [] {
      SplitPiecesFree(s[1..], sep);
    }
  }

  /** Joining the pieces of a split gives back the string. */
  lemma {:induction false} JoinSplit(s: string, sep: char)
    ensures Join(Split(s, sep), sep) == s
  {
    if s != [] {
      JoinSplit(s[1..], sep);
      var rest := Split(s[1..], sep);
      var parts := Split(s, sep);
      assert s == [s[0]] + s[1..];
      if s[0] == sep {
        assert parts == [[]] + rest;
        assert parts[1..] == rest;
      } else if |rest| == 1 {
        assert parts == [[s[0]] + rest[0]];
      } else {
        assert parts[0] == [s[0]] + rest[0];
        assert parts[1..] == rest[1..];
        assert Join(rest, sep) == rest[0] + [sep] + Join(rest[1..], sep);
      }
    }
  }

  /** Splitting a separator-free piece followed by a separator peels that piece off. */
  lemma {:induction false} SplitPeel(p: string, sep: char, rest: string)
    requires sep !in p
    ensures Split(p + [sep] + rest, sep) == [p] + Split(rest, sep)
  {
    var s := p + [sep] + rest;
    if p != [] {
      assert s[0] == p[0];
      assert s[1..] == p[1..] + [sep] + rest;
      SplitPeel(p[1..], sep, rest);
      assert [p[0]] + p[1..] == p;
    } else {
      assert s[0] == sep;
      assert s[1..] == rest;
    }
  }

  /** A separator-free string is a single piece. */
  lemma {:induction false} SplitWhole(p: string, sep: char)
    requires sep !in p
    ensures Split(p, sep) == [p]
  {
    if p != [] {
      SplitWhole(p[1..], sep);
      assert [p[0]] + p[1..] == p;
    }
  }

  /** Round trip the other way: splitting a join of separator-free pieces gives back the pieces. */
  lemma {:induction false} SplitJoin(parts: seq<string>, sep: char)
    requires |parts| > 0
    requires forall k :: 0 <= k < |parts| ==> sep !in parts[k]
    ensures Split(Join(parts, sep), sep) == parts
  {
    if |parts| == 1 {
      SplitWhole(parts[0], sep);
    } else {
      SplitJoin(parts[1..], sep);
      SplitPeel(parts[0], sep, Join(parts[1..], sep));
      assert [parts[0]] + parts[1..] == parts;
    }
  }

  // ---------------------------------------------------------------------------
  // strip

  /** Length of the leading run of characters in the set (what `s.lstrip(chars)` removes). */
  function StripStart(s: string, drop: char -> bool): (a: nat)
    ensures a <= |s|
    ensures forall k :: 0 <= k < a ==> drop(s[k])
    ensures a == |s| || !drop(s[a])
  {
    if s != [] && drop(s[0]) then 1 + StripStart(s[1..], drop) else 0
  }

  /** Where the trailing run of characters in the set begins (what `s.rstrip(chars)` keeps). */
  function StripEnd(s: string, drop: char -> bool): (b: nat)
    ensures b <= |s|
    ensures forall k :: b <= k < |s| ==> drop(s[k])
    ensures b == 0 || !drop(s[b - 1])
  {
    if s != [] && drop(s[|s| - 1]) then StripEnd(s[..|s| - 1], drop) else |s|
  }

  /**
   * `s.strip(chars)`, with the character set given as a predicate: `s` without
   * its longest leading and trailing runs of characters in the set. The result
   * is empty exactly when every character of `s` is in the set, and otherwise
   * neither starts nor ends with one.
   */
  function Strip(s: string, drop: char -> bool): (r: string)
    ensures r == [] || (!drop(r[0]) && !drop(r[|r| - 1]))
    ensures r == [] <==> forall k :: 0 <= k < |s| ==> drop(s[k])
    ensures var a := StripStart(s, drop);
            a + |r| <= |s| && r == s[a..a + |r|] &&
            (forall k :: 0 <= k < a ==> drop(s[k])) &&
            (forall k :: a + |r| <= k < |s| ==> drop(s[k]))
  {
    var a := StripStart(s, drop);
    var b := StripEnd(s, drop);
    if a < b then s[a..b] else []
  }

  /** Stripping twice strips no more than stripping once. */
  lemma StripIdempotent(s: string, drop: char -> bool)
    ensures Strip(Strip(s, drop), drop) == Strip(s, drop)
  {
  }

  // ---------------------------------------------------------------------------
  // replace

  /** `pat` occurs in `s` starting at index `k`. */
  predicate OccursAt(s: string, pat: string, k: int) {
    0 <= k && k + |pat| <= |s| && s[k..k + |pat|] == pat
  }

  /**
   * `s.replace(pat, "")`: scanning left to right, every non-overlapping
   * occurrence of `pat` is deleted (`ReplaceAllDropsFirst`); what is deleted
   * is `s.count(pat)` whole copies of `pat` (`ReplaceAllRemovesWholeCopies`).
   */
  function ReplaceAll(s: string, pat: string): (r: string)
    requires |pat| > 0
    ensures |r| <= |s|
    decreases |s|
  {
    if |s| < |pat| then s
    else if s[..|pat|] == pat then ReplaceAll(s[|pat|..], pat)
    else [s[0]] + ReplaceAll(s[1..], pat)
  }

  /** With no occurrence at the front, `replace` keeps the first character. */
  lemma ReplaceAllKeepsHead(s: string, pat: string)
    requires |pat| > 0 && |s| > 0 && !OccursAt(s, pat, 0)
    ensures ReplaceAll(s, pat) == [s[0]] + ReplaceAll(s[1..], pat)
  {
    if |s| < |pat| {
      ReplaceAllShort(s[1..], pat);
      assert [s[0]] + s[1..] == s;
    } else {
      assert s[0..|pat|] == s[..|pat|];
    }
  }

  /** An occurrence in the suffix `s[j..]` is an occurrence in `s`, `j` places later. */
  lemma OccursAtShift(s: string, pat: string, j: nat, k: nat)
    requires j <= |s|
    ensures OccursAt(s[j..], pat, k) <==> OccursAt(s, pat, j + k)
  {
    if k + |pat| <= |s| - j {
      assert s[j..][k..k + |pat|] == s[j + k..j + k + |pat|];
    }
  }

  /** Occurrences in `s[1..]` are occurrences in `s`, one place later. */
  lemma NoOccurrenceInTail(s: string, pat: string, i: nat)
    requires |s| > 0 && 0 < i
    requires forall k :: 0 <= k < i ==> !OccursAt(s, pat, k)
    ensures forall k :: 0 <= k < i - 1 ==> !OccursAt(s[1..], pat, k)
  {
    forall k | 0 <= k < i - 1 ensures !OccursAt(s[1..], pat, k) {
      OccursAtShift(s, pat, 1, k);
    }
  }

  /** A prefix in which no occurrence of `pat` starts is kept verbatim. */
  lemma {:induction false} ReplaceAllKeepsPrefix(s: string, pat: string, i: nat)
    requires |pat| > 0 && i <= |s|
    requires forall k :: 0 <= k < i ==> !OccursAt(s, pat, k)
    ensures ReplaceAll(s, pat) == s[..i] + ReplaceAll(s[i..], pat)
  {
    if i > 0 {
      var t := s[1..];
      assert ReplaceAll(s, pat) == [s[0]] + ReplaceAll(t, pat) by {
        ReplaceAllKeepsHead(s, pat);
      }
      assert ReplaceAll(t, pat) == t[..i - 1] + ReplaceAll(s[i..], pat) by {
        NoOccurrenceInTail(s, pat, i);
        ReplaceAllKeepsPrefix(t, pat, i - 1);
        assert t[i - 1..] == s[i..];
      }
      assert [s[0]] + t[..i - 1] == s[..i];
    }
  }

  /**
   * The first occurrence of `pat` is deleted: the text before it is kept and
   * the scan goes on right after it.
   */
  lemma ReplaceAllDropsFirst(s: string, pat: string, i: nat)
    requires |pat| > 0 && OccursAt(s, pat, i)
    requires forall k :: 0 <= k < i ==> !OccursAt(s, pat, k)
    ensures ReplaceAll(s, pat) == s[..i] + ReplaceAll(s[i + |pat|..], pat)
  {
    ReplaceAllKeepsPrefix(s, pat, i);
    var rest := s[i..];
    assert rest[..|pat|] == pat;
    assert rest[|pat|..] == s[i + |pat|..];
  }

  /** `ReplaceAllDropsFirst` where the pattern is the slice `s[i..j]` itself. */
  lemma ReplaceAllDropsSlice(s: string, i: nat, j: nat)
    requires i < j <= |s|
    requires forall k :: 0 <= k < i ==> !OccursAt(s, s[i..j], k)
    ensures ReplaceAll(s, s[i..j]) == s[..i] + ReplaceAll(s[j..], s[i..j])
  {
    var pat := s[i..j];
    var n := |pat|;
    assert n == j - i;
    assert OccursAt(s, pat, i) by {
      assert s[i..i + n] == pat;
    }
    ReplaceAllDropsFirst(s, pat, i);
    assert s[i + n..] == s[j..];
  }

  /** `s.count(pat)`: the number of non-overlapping occurrences, counted left to right. */
  function CountOccurrences(s: string, pat: string): nat
    requires |pat| > 0
    decreases |s|
  {
    if |s| < |pat| then 0
    else if s[..|pat|] == pat then 1 + CountOccurrences(s[|pat|..], pat)
    else CountOccurrences(s[1..], pat)
  }

  /** What is deleted is `s.count(pat)` whole copies of `pat`. */
  lemma {:induction false} ReplaceAllRemovesWholeCopies(s: string, pat: string)
    requires |pat| > 0
    ensures |ReplaceAll(s, pat)| + CountOccurrences(s, pat) * |pat| == |s|
    decreases |s|
  {
    if |s| >= |pat| {
      if s[..|pat|] == pat {
        var t := s[|pat|..];
        var n := CountOccurrences(t, pat);
        assert |ReplaceAll(t, pat)| + n * |pat| == |t| by {
          ReplaceAllRemovesWholeCopies(t, pat);
        }
        assert ReplaceAll(s, pat) == ReplaceAll(t, pat) && CountOccurrences(s, pat) == n + 1;
        MultiplySuccessor(n, |pat|);
      } else {
        var t := s[1..];
        assert |ReplaceAll(t, pat)| + CountOccurrences(t, pat) * |pat| == |t| by {
          ReplaceAllRemovesWholeCopies(t, pat);
        }
        assert |ReplaceAll(s, pat)| == |ReplaceAll(t, pat)| + 1 && CountOccurrences(s, pat) == CountOccurrences(t, pat);
      }
    }
  }

  /** One more copy adds one more length of `pat`. */
  lemma MultiplySuccessor(n: nat, p: nat)
    ensures (n + 1) * p == n * p + p
  {
  }

  /** Too short to hold `pat`: nothing to delete. */
  lemma ReplaceAllShort(s: string, pat: string)
    requires |pat| > 0 && |s| < |pat|
    ensures ReplaceAll(s, pat) == s
  {
  }

  /** With no occurrence of `pat` at all, `replace` changes nothing. */
  lemma ReplaceAllUnchanged(s: string, pat: string)
    requires |pat| > 0
    requires forall k :: 0 <= k <= |s| ==> !OccursAt(s, pat, k)
    ensures ReplaceAll(s, pat) == s
  {
    ReplaceAllKeepsPrefix(s, pat, |s|);
    assert s[..|s|] == s;
    assert s[|s|..] == [];
  }
}
