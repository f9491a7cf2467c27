/** The PHP string primitives the importer relies on, over `seq<char>`:
    substring search (`strpos`), `trim`, `explode`, `implode` and
    `str_replace`, plus ASCII case folding for caseless patterns. */
module Text {
  import opened Base

  /** `p` occurs in `s` starting at index `i`. */
  predicate OccursAt(s: string, p: string, i: nat) {
    i + |p| <= |s| && s[i..i + |p|] == p
  }

  ghost predicate Contains(s: string, p: string) {
    exists i: nat :: OccursAt(s, p, i)
  }

  /** An occurrence inside a slice is an occurrence in the whole string. */
  lemma OccursInSlice(s: string, p: string, lo: nat, hi: nat, k: nat)
    requires lo <= hi <= |s|
    requires OccursAt(s[lo..hi], p, k)
    ensures OccursAt(s, p, lo + k)
  {
    var t := s[lo..hi];
    assert k + |p| <= |t|;
    forall m | 0 <= m < |p|
      ensures s[lo + k + m] == p[m]
    {
      assert t[k..k + |p|][m] == p[m];
      assert t[k + m] == s[lo + k + m];
    }
    assert s[lo + k..lo + k + |p|] == p;
  }

  /** The first index at or after `from` where `p` occurs (`strpos` with an offset). */
  function IndexOf(s: string, p: string, from: nat): (r: Option<nat>)
    ensures r.Some? ==> from <= r.value && OccursAt(s, p, r.value)
    ensures forall k: nat :: from <= k && OccursAt(s, p, k) ==> r.Some? && r.value <= k
    decreases |s| - from
  {
    if from + |p| > |s| then None
    else if OccursAt(s, p, from) then Some(from)
    else IndexOf(s, p, from + 1)
  }

  /** The first index at or after `from` holding character `c`. */
  function NextChar(s: string, c: char, from: nat): (r: Option<nat>)
    ensures r.Some? ==> from <= r.value < |s| && s[r.value] == c
    ensures forall k :: from <= k < |s| && s[k] == c ==> r.Some? && r.value <= k
    decreases |s| - from
  {
    if from >= |s| then None
    else if s[from] == c then Some(from)
    else NextChar(s, c, from + 1)
  }

  /** The last index in `[lo, hi)` holding character `c`. */
  function LastChar(s: string, c: char, lo: nat, hi: nat): (r: Option<nat>)
    requires lo <= hi <= |s|
    ensures r.Some? ==> lo <= r.value < hi && s[r.value] == c
    ensures forall k :: lo <= k < hi && s[k] == c ==> r.Some? && k <= r.value
    decreases hi
  {
    if hi == lo then None
    else if s[hi - 1] == c then Some(hi - 1)
    else LastChar(s, c, lo, hi - 1)
  }

  /** ASCII lower-casing, the folding a caseless PCRE pattern applies in the C locale. */
  function LowerChar(c: char): char {
    if 'A' <= c <= 'Z' then (c as int + 32) as char else c
  }

  /** The characters PHP's `trim` strips when given no character list. */
  const Whitespace: set<char> := {' ', '\t', '\n', '\r', '\0', 11 as char}

  /** `r` is `s` with a run of characters from `cs` removed at each end. */
  ghost predicate IsTrimOf(r: string, s: string, cs: set<char>) {
    exists a: nat, b: nat ::
      && a <= b <= |s|
      && s[a..b] == r
      && (forall k :: 0 <= k < a ==> s[k] in cs)
      && (forall k :: b <= k < |s| ==> s[k] in cs)
  }

  function SkipLeading(s: string, cs: set<char>, from: nat): (a: nat)
    requires from <= |s|
    ensures from <= a <= |s|
    ensures forall k :: from <= k < a ==> s[k] in cs
    ensures a < |s| ==> s[a] !in cs
    decreases |s| - from
  {
    if from == |s| || s[from] !in cs then from else SkipLeading(s, cs, from + 1)
  }

  function SkipTrailing(s: string, cs: set<char>, lo: nat, hi: nat): (b: nat)
    requires lo <= hi <= |s|
    ensures lo <= b <= hi
    ensures forall k :: b <= k < hi ==> s[k] in cs
    ensures lo < b ==> s[b - 1] !in cs
    decreases hi
  {
    if hi == lo || s[hi - 1] !in cs then hi else SkipTrailing(s, cs, lo, hi - 1)
  }

  /** PHP `trim($s, $cs)`: strips characters of `cs` from both ends. */
  function Trim(s: string, cs: set<char>): (r: string)
    ensures IsTrimOf(r, s, cs)
    ensures |r| > 0 ==> r[0] !in cs && r[|r| - 1] !in cs
  {
    var a := SkipLeading(s, cs, 0);
    var b := SkipTrailing(s, cs, a, |s|);
    s[a..b]
  }

  /** Trimming is idempotent: a trimmed string has nothing left to strip. */
  lemma TrimIdempotent(s: string, cs: set<char>)
    ensures Trim(Trim(s, cs), cs) == Trim(s, cs)
  {
    var t := Trim(s, cs);
    if |t| > 0 {
      assert SkipLeading(t, cs, 0) == 0;
      assert SkipTrailing(t, cs, 0, |t|) == |t|;
      assert t[0..|t|] == t;
    }
  }

  /** PHP `explode($sep, $s)`: the pieces of `s` between occurrences of `sep`. */
  function Split(s: string, sep: string): (parts: seq<string>)
    requires |sep| > 0
    ensures |parts| >= 1
    ensures forall k :: 0 <= k < |parts| ==> !Contains(parts[k], sep)
    decreases |s|
  {
    match IndexOf(s, sep, 0)
    case None => [s]
    case Some(i) =>
      var head := s[..i];
      assert forall k: nat :: !OccursAt(head, sep, k) by {
        forall k: nat | OccursAt(head, sep, k) {
          OccursInSlice(s, sep, 0, i, k);
        }
      }
      [head] + Split(s[i + |sep|..], sep)
  }

  /** PHP `implode($sep, $parts)`. */
  function Join(parts: seq<string>, sep: string): string
    decreases |parts|
  {
    if |parts| == 0 then ""
    else if |parts| == 1 then parts[0]
    else parts[0] + sep + Join(parts[1..], sep)
  }

  /** PHP `str_replace($pat, $rep, $s)`: every non-overlapping occurrence of
      `pat`, found left to right, becomes `rep`; the inserted text is never
      scanned again. An empty `pat` leaves `s` as it is. */
  function ReplaceAll(s: string, pat: string, rep: string): (r: string)
    ensures |rep| == |pat| ==> |r| == |s|
    decreases |s|
  {
    if |pat| == 0 || |s| == 0 then s
    else if OccursAt(s, pat, 0) then rep + ReplaceAll(s[|pat|..], pat, rep)
    else [s[0]] + ReplaceAll(s[1..], pat, rep)
  }

  /** A prefix free of occurrences passes through the replacement untouched. */
  lemma {:induction false} ReplaceSkip(s: string, pat: string, rep: string, m: nat)
    requires m <= |s|
    requires forall k: nat :: k < m ==> !OccursAt(s, pat, k)
    ensures ReplaceAll(s, pat, rep) == s[..m] + ReplaceAll(s[m..], pat, rep)
    decreases m
  {
    if m == 0 {
      assert s[..0] == [] && s[0..] == s;
    } else {
      assert !OccursAt(s, pat, 0);
      var t := s[1..];
      assert t == s[1..|s|];
      forall k: nat | k < m - 1
        ensures !OccursAt(t, pat, k)
      {
        if OccursAt(t, pat, k) {
          OccursInSlice(s, pat, 1, |s|, k);
        }
      }
      ReplaceSkip(t, pat, rep, m - 1);
      assert t[..m - 1] == s[1..m];
      assert t[m - 1..] == s[m..];
      assert s[..m] == [s[0]] + s[1..m];
    }
  }

  /** Text without an occurrence of `pat` is returned unchanged. */
  lemma ReplaceAbsent(s: string, pat: string, rep: string)
    requires !Contains(s, pat)
    ensures ReplaceAll(s, pat, rep) == s
  {
    ReplaceSkip(s, pat, rep, |s|);
    assert s[..|s|] == s;
  }

  /** An occurrence at the very start is replaced. */
  lemma ReplaceLeading(pat: string, rep: string, t: string)
    requires |pat| > 0
    ensures ReplaceAll(pat + t, pat, rep) == rep + ReplaceAll(t, pat, rep)
  {
    var s := pat + t;
    assert OccursAt(s, pat, 0) by { assert s[..|pat|] == pat; }
    assert s[|pat|..] == t;
  }

  /** `explode` at the first occurrence: the text before it, then the pieces
      of the rest. */
  lemma SplitAtFirst(s: string, sep: string, i: nat)
    requires |sep| > 0
    requires IndexOf(s, sep, 0) == Some(i)
    ensures Split(s, sep) == [s[..i]] + Split(s[i + |sep|..], sep)
  {
  }

  lemma JoinCons(head: string, tail: seq<string>, sep: string)
    requires |tail| > 0
    ensures Join([head] + tail, sep) == head + sep + Join(tail, sep)
  {
    assert ([head] + tail)[1..] == tail;
  }

  /** An occurrence at `i` is replaced, and the scan carries on after it. */
  lemma ReplaceAt(s: string, pat: string, rep: string, i: nat)
    requires |pat| > 0 && OccursAt(s, pat, i)
    ensures ReplaceAll(s[i..], pat, rep) == rep + ReplaceAll(s[i + |pat|..], pat, rep)
  {
    assert s[i..] == pat + s[i + |pat|..];
    ReplaceLeading(pat, rep, s[i + |pat|..]);
  }

  /** `str_replace` keeps the text before the first occurrence, puts the
      replacement in its place and carries on after it. */
  lemma {:induction false} ReplaceFirst(s: string, pat: string, rep: string, i: nat)
    requires |pat| > 0 && IndexOf(s, pat, 0) == Some(i)
    ensures ReplaceAll(s, pat, rep) == s[..i] + rep + ReplaceAll(s[i + |pat|..], pat, rep)
  {
    var r := ReplaceAll(s[i + |pat|..], pat, rep);
    ReplaceSkip(s, pat, rep, i);
    ReplaceAt(s, pat, rep, i);
    assert s[..i] + (rep + r) == s[..i] + rep + r;
  }

  /** `implode` of `explode` does the same at the first occurrence. */
  lemma JoinSplitFirst(s: string, pat: string, rep: string, i: nat)
    requires |pat| > 0 && IndexOf(s, pat, 0) == Some(i)
    ensures Join(Split(s, pat), rep) == s[..i] + rep + Join(Split(s[i + |pat|..], pat), rep)
  {
    SplitAtFirst(s, pat, i);
    JoinCons(s[..i], Split(s[i + |pat|..], pat), rep);
  }

  /** `str_replace` agrees with `implode($rep, explode($pat, $s))`. */
  lemma {:induction false} ReplaceIsJoinOfSplit(s: string, pat: string, rep: string)
    requires |pat| > 0
    ensures ReplaceAll(s, pat, rep) == Join(Split(s, pat), rep)
    decreases |s|
  {
    match IndexOf(s, pat, 0)
    case None =>
      assert !Contains(s, pat);
      ReplaceAbsent(s, pat, rep);
    case Some(i) =>
      ReplaceIsJoinOfSplit(s[i + |pat|..], pat, rep);
      ReplaceFirst(s, pat, rep, i);
      JoinSplitFirst(s, pat, rep, i);
  }

  /** Replacing a pattern by itself changes nothing. */
  lemma {:induction false} ReplaceSelf(s: string, pat: string)
    ensures ReplaceAll(s, pat, pat) == s
    decreases |s|
  {
    if |pat| == 0 || |s| == 0 {
    } else if OccursAt(s, pat, 0) {
      ReplaceSelf(s[|pat|..], pat);
      assert s == s[..|pat|] + s[|pat|..];
    } else {
      ReplaceSelf(s[1..], pat);
      assert s == [s[0]] + s[1..];
    }
  }

  /** `implode` undoes `explode`. */
  lemma SplitJoinRoundTrip(s: string, sep: string)
    requires |sep| > 0
    ensures Join(Split(s, sep), sep) == s
  {
    ReplaceIsJoinOfSplit(s, sep, sep);
    ReplaceSelf(s, sep);
  }
}
