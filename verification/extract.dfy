/** `DB::purgeSQL`: `preg_match_all('/(CREATE TABLE .*?);/si', $sql)`.
    Each match starts at a caseless `CREATE TABLE ` and runs, across line
    breaks, to the first `;` after it; the next search resumes right after
    that `;`. */
module Extract {
  import opened Base
  import opened Text
  import opened Pattern

  /** `spans` are the matches `preg_match_all` reports when it starts at
      `from`: the first begins at the first header after `from` and ends just
      after the first `;` following that header, the rest are the matches from
      there on, and when there are none no header after `from` has a `;`
      after it. */
  ghost predicate IsScan(s: string, from: nat, spans: seq<Span>)
    decreases |spans|
  {
    if |spans| == 0 then Exhausted(s, from)
    else
      && from <= spans[0].start
      && NoHeader(s, from, spans[0].start)
      && IsStatementSpan(s, spans[0])
      && IsScan(s, spans[0].end, spans[1..])
  }

  /** The first header at or after `from`: the regex engine's caseless
      search for the literal head of the pattern. */
  function FindHeader(s: string, from: nat): (r: Option<nat>)
    ensures r.Some? ==> from <= r.value && HeaderAt(s, r.value)
    ensures forall i: nat :: from <= i && HeaderAt(s, i) ==> r.Some? && r.value <= i
    decreases |s| - from
  {
    if from + |Header| > |s| then
      assert forall i: nat :: from <= i && HeaderAt(s, i) ==> false by {
        forall i: nat | from <= i && HeaderAt(s, i)
          ensures false
        {
          HeaderShape(s, i);
        }
      }
      None
    else if HeaderAt(s, from) then Some(from)
    else FindHeader(s, from + 1)
  }

  /** The matching loop: find the next header, then the first `;` after it. */
  function Scan(s: string, from: nat): (spans: seq<Span>)
    ensures forall k :: 0 <= k < |spans| ==> from <= spans[k].start < spans[k].end <= |s|
    decreases |s| - from
  {
    match FindHeader(s, from)
    case None => []
    case Some(i) =>
      match NextChar(s, ';', i + |Header|)
      case None => []
      case Some(j) => [Span(i, j + 1)] + Scan(s, j + 1)
  }

  /** A round that finds a match reports it and carries on after its `;`. */
  lemma ScanUnfold(s: string, from: nat, i: nat, j: nat)
    requires FindHeader(s, from) == Some(i)
    requires NextChar(s, ';', i + |Header|) == Some(j)
    ensures Scan(s, from) == [Span(i, j + 1)] + Scan(s, j + 1)
  {
  }

  /** The first match the loop reports opens at the first header after
      `from`, closes at the first `;` after that header, and is followed by
      what the loop reports from its end. */
  lemma ScanHead(s: string, from: nat)
    requires |Scan(s, from)| > 0
    ensures from <= Scan(s, from)[0].start && NoHeader(s, from, Scan(s, from)[0].start)
    ensures IsStatementSpan(s, Scan(s, from)[0])
    ensures Scan(s, from)[1..] == Scan(s, Scan(s, from)[0].end)
  {
    var i := FindHeader(s, from).value;
    var j := NextChar(s, ';', i + |Header|).value;
    ScanUnfold(s, from, i, j);
  }

  /** When the loop reports nothing, no header after `from` has a `;` after it. */
  lemma ScanEnds(s: string, from: nat)
    requires Scan(s, from) == []
    ensures Exhausted(s, from)
  {
    match FindHeader(s, from)
    case None =>
    case Some(i) =>
      forall i': nat, j | from <= i' && HeaderAt(s, i') && i' + |Header| <= j < |s|
        ensures s[j] != ';'
      {
        assert i <= i';
      }
  }

  /** The matching loop produces exactly the matches the pattern describes. */
  lemma {:induction false} ScanIsScan(s: string, from: nat)
    ensures IsScan(s, from, Scan(s, from))
    decreases |s| - from
  {
    var spans := Scan(s, from);
    if |spans| == 0 {
      ScanEnds(s, from);
    } else {
      ScanHead(s, from);
      ScanIsScan(s, spans[0].end);
    }
  }

  /** When nothing more can match, the loop stops. */
  lemma ScanExhausted(s: string, from: nat)
    requires Exhausted(s, from)
    ensures Scan(s, from) == []
  {
    match FindHeader(s, from)
    case None =>
    case Some(i) =>
      match NextChar(s, ';', i + |Header|)
      case None =>
      case Some(j) =>
        assert false;
  }

  /** The header of the first match after `from` is the one the loop finds. */
  lemma FindsFirstHeader(s: string, from: nat, i: nat)
    requires from <= i && NoHeader(s, from, i) && HeaderAt(s, i)
    ensures FindHeader(s, from) == Some(i)
  {
  }

  /** The `;` that closes a match is the first one the loop finds after its
      header. */
  lemma FindsClosingSemicolon(s: string, sp: Span)
    requires IsStatementSpan(s, sp)
    ensures NextChar(s, ';', sp.start + |Header|) == Some(sp.end - 1)
  {
  }

  /** The first match after `from` is the first thing the loop reports. */
  lemma ScanFirst(s: string, from: nat, sp: Span)
    requires from <= sp.start && NoHeader(s, from, sp.start)
    requires IsStatementSpan(s, sp)
    ensures |Scan(s, from)| > 0 && Scan(s, from)[0] == sp
  {
    FindsFirstHeader(s, from, sp.start);
    FindsClosingSemicolon(s, sp);
    ScanUnfold(s, from, sp.start, sp.end - 1);
  }

  /** Any list of matches the pattern describes is the one the loop produces. */
  lemma {:induction false} ScanUnique(s: string, from: nat, spans: seq<Span>)
    requires IsScan(s, from, spans)
    ensures spans == Scan(s, from)
    decreases |spans|
  {
    if |spans| == 0 {
      ScanExhausted(s, from);
    } else {
      ScanFirst(s, from, spans[0]);
      ScanHead(s, from);
      ScanUnique(s, spans[0].end, spans[1..]);
      assert spans == [spans[0]] + spans[1..];
      assert Scan(s, from) == [spans[0]] + Scan(s, from)[1..];
    }
  }

  /** The loop's output and the pattern's description agree exactly. */
  lemma {:induction false} ScanCharacterized(s: string, from: nat, spans: seq<Span>)
    ensures IsScan(s, from, spans) <==> spans == Scan(s, from)
  {
    if IsScan(s, from, spans) {
      ScanUnique(s, from, spans);
    }
    if spans == Scan(s, from) {
      ScanIsScan(s, from);
    }
  }

  /** Every span of a scan is a match lying at or after `from`. */
  lemma {:induction false} IsScanSpans(s: string, from: nat, spans: seq<Span>)
    requires IsScan(s, from, spans)
    ensures forall k :: 0 <= k < |spans| ==> from <= spans[k].start && IsStatementSpan(s, spans[k])
    ensures forall k :: 0 <= k < |spans| - 1 ==> spans[k].end <= spans[k + 1].start
    decreases |spans|
  {
    if |spans| > 0 {
      var rest := spans[1..];
      IsScanSpans(s, spans[0].end, rest);
      forall k | 0 < k < |spans|
        ensures spans[0].end <= spans[k].start && IsStatementSpan(s, spans[k])
      {
        assert spans[k] == rest[k - 1];
      }
      forall k | 0 < k < |spans| - 1
        ensures spans[k].end <= spans[k + 1].start
      {
        assert spans[k] == rest[k - 1] && spans[k + 1] == rest[k];
      }
    }
  }

  /** Every span the loop reports is a match. */
  lemma ScanSpanIsMatch(s: string, from: nat, k: nat)
    requires k < |Scan(s, from)|
    ensures IsStatementSpan(s, Scan(s, from)[k])
  {
    ScanIsScan(s, from);
    IsScanSpans(s, from, Scan(s, from));
  }

  /** Matches come out in document order and never overlap. */
  lemma ScanOrdered(s: string, from: nat)
    ensures forall k :: 0 <= k < |Scan(s, from)| - 1 ==> Scan(s, from)[k].end <= Scan(s, from)[k + 1].start
  {
    ScanIsScan(s, from);
    IsScanSpans(s, from, Scan(s, from));
  }

  /** The dump yields no statement exactly when no `CREATE TABLE ` is followed
      by a `;`. */
  lemma NoStatements(s: string)
    ensures Scan(s, 0) == [] <==> Exhausted(s, 0)
  {
    ScanIsScan(s, 0);
    if Exhausted(s, 0) {
      ScanExhausted(s, 0);
    }
  }

  /** `DB::purgeSQL`: the text of every match, in document order. */
  function PurgeSql(s: string): (stmts: seq<string>)
    ensures |stmts| == |Scan(s, 0)|
    ensures forall k :: 0 <= k < |stmts| ==> stmts[k] == s[Scan(s, 0)[k].start..Scan(s, 0)[k].end]
  {
    var spans := Scan(s, 0);
    seq(|spans|, k requires 0 <= k < |spans| => s[spans[k].start..spans[k].end])
  }

  /** A statement opens with a caseless `CREATE TABLE `. */
  predicate OpensWithHeader(stmt: string) {
    HeaderAt(stmt, 0)
  }

  /** The text of a match opens with the header and holds exactly one `;`,
      its last character. */
  lemma SpanShape(s: string, sp: Span, stmt: string)
    requires IsStatementSpan(s, sp) && stmt == s[sp.start..sp.end]
    ensures OpensWithHeader(stmt)
    ensures stmt[|stmt| - 1] == ';'
    ensures forall m :: 0 <= m < |stmt| - 1 ==> stmt[m] != ';'
  {
    HeaderAtSlice(s, sp.start, sp.end);
    HeaderShape(s, sp.start);
    forall m | 0 <= m < |stmt| - 1
      ensures stmt[m] != ';'
    {
      assert stmt[m] == s[sp.start + m];
    }
  }

  /** Every extracted statement opens with a caseless `CREATE TABLE ` and
      holds exactly one `;`, its last character. */
  lemma StatementShape(s: string, k: nat)
    requires k < |PurgeSql(s)|
    ensures OpensWithHeader(PurgeSql(s)[k])
    ensures PurgeSql(s)[k][|PurgeSql(s)[k]| - 1] == ';'
    ensures forall m :: 0 <= m < |PurgeSql(s)[k]| - 1 ==> PurgeSql(s)[k][m] != ';'
  {
    ScanSpanIsMatch(s, 0, k);
    SpanShape(s, Scan(s, 0)[k], PurgeSql(s)[k]);
  }
}
