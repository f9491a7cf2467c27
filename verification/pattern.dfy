/** What `/(CREATE TABLE .*?);/si` matches, stated declaratively: a caseless
    `CREATE TABLE `, then everything up to and including the first `;` after
    it, with successive matches taken left to right without overlap. */
module Pattern {
  import opened Text

  /** The literal head of the pattern, in the folded (lower-case) form the
      caseless comparison uses. */
  const Header := "create table "

  /** The characters of `s` from `i + m` on match `Header` from its `m`-th
      character on, ignoring ASCII case. */
  predicate HeaderFrom(s: string, i: nat, m: nat)
    requires m <= |Header|
    decreases |Header| - m
  {
    m == |Header| || (i + m < |s| && LowerChar(s[i + m]) == Header[m] && HeaderFrom(s, i, m + 1))
  }

  /** A caseless `CREATE TABLE ` starts at index `i` of `s`. */
  predicate HeaderAt(s: string, i: nat) {
    HeaderFrom(s, i, 0)
  }

  lemma {:induction false} HeaderFromFits(s: string, i: nat, m: nat)
    requires m <= |Header| && HeaderFrom(s, i, m)
    requires 0 < m ==> i + m <= |s|
    ensures i + |Header| <= |s|
    ensures forall k :: i + m <= k < i + |Header| ==> s[k] != ';'
    decreases |Header| - m
  {
    if m < |Header| {
      HeaderFromFits(s, i, m + 1);
    }
  }

  /** A header fits in the text and holds no `;`. */
  lemma HeaderShape(s: string, i: nat)
    requires HeaderAt(s, i)
    ensures i + |Header| <= |s|
    ensures forall k :: i <= k < i + |Header| ==> s[k] != ';'
  {
    HeaderFromFits(s, i, 0);
  }

  lemma {:induction false} HeaderFromSlice(s: string, i: nat, hi: nat, m: nat)
    requires m <= |Header| && HeaderFrom(s, i, m) && i + |Header| <= hi <= |s|
    ensures HeaderFrom(s[i..hi], 0, m)
    decreases |Header| - m
  {
    if m < |Header| {
      HeaderFromSlice(s, i, hi, m + 1);
      assert s[i..hi][m] == s[i + m];
    }
  }

  /** A header found in a text is still a header in a slice that starts
      with it. */
  lemma HeaderAtSlice(s: string, i: nat, hi: nat)
    requires HeaderAt(s, i) && i + |Header| <= hi <= |s|
    ensures HeaderAt(s[i..hi], 0)
  {
    HeaderFromSlice(s, i, hi, 0);
  }

  /** A match of the pattern, as the half-open index range `[start, end)`. */
  datatype Span = Span(start: nat, end: nat)

  /** `sp` is a match: it opens with the header and ends just after the first
      `;` that follows the header. */
  ghost predicate IsStatementSpan(s: string, sp: Span) {
    && sp.start + |Header| < sp.end <= |s|
    && HeaderAt(s, sp.start)
    && s[sp.end - 1] == ';'
    && forall k :: sp.start + |Header| <= k < sp.end - 1 ==> s[k] != ';'
  }

  /** No header starts in `[lo, hi)`. */
  ghost predicate NoHeader(s: string, lo: nat, hi: nat) {
    forall i: nat :: lo <= i < hi ==> !HeaderAt(s, i)
  }

  /** No header at or after `from` is followed by a `;`, so nothing more matches. */
  ghost predicate Exhausted(s: string, from: nat) {
    forall i: nat, j :: from <= i && HeaderAt(s, i) && i + |Header| <= j < |s| ==> s[j] != ';'
  }
}
