/** `DB::getInspected`: for every rewritten query, the table it creates and
    the columns it declares, in an insertion-ordered map keyed by column name. */
module Inspect {
  import opened Base
  import opened Text

  // ---------------------------------------------------------------------
  // Table name: preg_match('/CREATE TABLE IF NOT EXISTS `(.*)`/', $query)
  // ---------------------------------------------------------------------

  /** The literal part of the table-name pattern, up to the opening backtick. */
  const TableHead := "CREATE TABLE IF NOT EXISTS `"

  /** The table-name pattern matches at `i` with its closing backtick at `k`:
      the head occurs at `i`, and `.` (which does not cross a line break)
      spans everything from the end of the head to `k`. */
  ghost predicate CaptureAt(q: string, i: nat, k: nat) {
    && OccursAt(q, TableHead, i)
    && i + |TableHead| <= k < |q|
    && q[k] == '`'
    && forall m :: i + |TableHead| <= m < k ==> q[m] != '\n'
  }

  /** Where the pattern matched: the start of the head and the closing backtick. */
  datatype Capture = Capture(start: nat, close: nat)

  /** The end of the line that index `b` is on: the next line break, or the end. */
  function LineEnd(q: string, b: nat): (e: nat)
    requires b <= |q|
    ensures b <= e <= |q|
    ensures forall m :: b <= m < e ==> q[m] != '\n'
    ensures e < |q| ==> q[e] == '\n'
  {
    match NextChar(q, '\n', b)
    case Some(n) => n
    case None => |q|
  }

  /** A capture never closes past the end of its line. */
  lemma CaptureOnLine(q: string, i: nat, k: nat)
    requires CaptureAt(q, i, k)
    ensures k < LineEnd(q, i + |TableHead|)
  {
  }

  /** When the line after a head has a backtick, the last one closes a capture
      there, and no capture there closes later. */
  lemma LastBacktickCaptures(q: string, i: nat, k: nat)
    requires OccursAt(q, TableHead, i)
    requires LastChar(q, '`', i + |TableHead|, LineEnd(q, i + |TableHead|)) == Some(k)
    ensures CaptureAt(q, i, k)
    ensures forall k': nat :: CaptureAt(q, i, k') ==> k' <= k
  {
    forall k': nat | CaptureAt(q, i, k')
      ensures k' <= k
    {
      CaptureOnLine(q, i, k');
    }
  }

  /** When the line after the first head has no backtick, every capture
      starts further on. */
  lemma NoBacktickNoCapture(q: string, from: nat, i: nat)
    requires IndexOf(q, TableHead, from) == Some(i)
    requires LastChar(q, '`', i + |TableHead|, LineEnd(q, i + |TableHead|)).None?
    ensures forall i': nat, k: nat :: from <= i' && CaptureAt(q, i', k) ==> i + 1 <= i'
  {
    forall i': nat, k: nat | from <= i' && CaptureAt(q, i', k)
      ensures i + 1 <= i'
    {
      if i' == i {
        CaptureOnLine(q, i, k);
      }
    }
  }

  /** Without a head after `from` there is no capture after it. */
  lemma NoHeadNoCapture(q: string, from: nat)
    requires IndexOf(q, TableHead, from).None?
    ensures forall i: nat, k: nat :: from <= i ==> !CaptureAt(q, i, k)
  {
  }

  /** The regex engine's search: the leftmost start whose line has a later
      backtick, closed at the last backtick of that line (greedy `.*`). */
  function FindTable(q: string, from: nat): (r: Option<Capture>)
    ensures r.Some? ==> from <= r.value.start && CaptureAt(q, r.value.start, r.value.close)
    ensures r.Some? ==> forall k: nat :: CaptureAt(q, r.value.start, k) ==> k <= r.value.close
    ensures forall i: nat, k: nat :: from <= i && CaptureAt(q, i, k) ==> r.Some? && r.value.start <= i
    decreases |q| - from
  {
    match IndexOf(q, TableHead, from)
    case None =>
      NoHeadNoCapture(q, from);
      None
    case Some(i) =>
      var b := i + |TableHead|;
      var e := LineEnd(q, b);
      match LastChar(q, '`', b, e)
      case Some(k) =>
        LastBacktickCaptures(q, i, k);
        Some(Capture(i, k))
      case None =>
        NoBacktickNoCapture(q, from, i);
        FindTable(q, i + 1)
  }

  /** The text a capture spans is the head, the name and the closing backtick. */
  lemma CaptureText(q: string, i: nat, k: nat)
    requires CaptureAt(q, i, k)
    ensures OccursAt(q, TableHead + q[i + |TableHead|..k] + "`", i)
  {
    var b := i + |TableHead|;
    assert q[i..b] == TableHead;
    assert q[i..k + 1] == q[i..b] + q[b..k] + q[k..k + 1];
  }

  /** The first capture group, `$matches[1]`; `None` when the pattern does not
      match (the source then reads an undefined index and gets `null`). */
  function TableNameOf(q: string): (r: Option<string>)
    ensures r.None? <==> forall i: nat, k: nat :: !CaptureAt(q, i, k)
    ensures r.Some? ==> exists i: nat :: OccursAt(q, TableHead + r.value + "`", i)
    ensures r.Some? ==> forall m :: 0 <= m < |r.value| ==> r.value[m] != '\n'
    ensures r.Some? ==> exists i: nat, k: nat ::
      && CaptureAt(q, i, k)
      && r.value == q[i + |TableHead|..k]
      && (forall i': nat, k': nat :: CaptureAt(q, i', k') ==> i <= i')
      && (forall k': nat :: CaptureAt(q, i, k') ==> k' <= k)
  {
    match FindTable(q, 0)
    case None => None
    case Some(c) =>
      CaptureText(q, c.start, c.close);
      Some(q[c.start + |TableHead|..c.close])
  }

  /** In a query that opens with the head, a name and a backtick, the
      pattern matches at the start with that backtick as its close. */
  lemma HeadCapture(n: string, t: string)
    requires forall m :: 0 <= m < |n| ==> n[m] != '\n'
    ensures CaptureAt(TableHead + n + "`" + t, 0, |TableHead| + |n|)
    ensures (TableHead + n + "`" + t)[|TableHead|..|TableHead| + |n|] == n
  {
    var q := TableHead + n + "`" + t;
    assert q[0..|TableHead|] == TableHead;
    assert forall m :: |TableHead| <= m < |TableHead| + |n| ==> q[m] == n[m - |TableHead|];
  }

  /** No backtick later on the same line can close that match. */
  lemma HeadCaptureIsLast(n: string, t: string, k: nat)
    requires forall m :: 0 <= m < LineEnd(t, 0) ==> t[m] != '`'
    requires CaptureAt(TableHead + n + "`" + t, 0, k)
    ensures k <= |TableHead| + |n|
  {
    var q := TableHead + n + "`" + t;
    var close := |TableHead| + |n|;
    assert forall j :: 0 <= j < k - close - 1 ==> t[j] == q[close + 1 + j] != '\n';
  }

  /** A query that opens with the head: the name runs to the last backtick
      of that first line, so backticks inside it (a column that starts on the
      same line) end up in the name. */
  lemma TableNameAtHead(n: string, t: string)
    requires forall m :: 0 <= m < |n| ==> n[m] != '\n'
    requires forall m :: 0 <= m < LineEnd(t, 0) ==> t[m] != '`'
    ensures TableNameOf(TableHead + n + "`" + t) == Some(n)
  {
    var q := TableHead + n + "`" + t;
    var close := |TableHead| + |n|;
    HeadCapture(n, t);
    var r := FindTable(q, 0);
    assert r.Some? && r.value.start == 0;
    HeadCaptureIsLast(n, t, r.value.close);
    assert r.value.close == close;
  }

  // ---------------------------------------------------------------------
  // Column lines
  // ---------------------------------------------------------------------

  /** One entry of the column map: `$columns[$name] = $decl`. */
  datatype Column = Column(name: string, decl: string)

  /** A line contributes a column when, once trimmed, it starts with a backtick. */
  predicate IsColumnLine(raw: string) {
    var line := Trim(raw, Whitespace);
    |line| > 0 && line[0] == '`'
  }

  /** `substr($line, 1, strpos($line, '`', 2) - 1)`: the text after the
      opening backtick up to the next backtick at index 2 or later; without
      one, `strpos` is false, the length is -1 and the last character is dropped. */
  function ColumnName(line: string): (name: string)
    requires |line| >= 2
    ensures 1 + |name| < |line| && line[1..1 + |name|] == name
    ensures forall m :: 1 <= m < |name| ==> name[m] != '`'
    ensures || (|name| >= 1 && line[1 + |name|] == '`')
            || (|name| == |line| - 2 && forall m :: 2 <= m < |line| ==> line[m] != '`')
  {
    match NextChar(line, '`', 2)
    case Some(p) => line[1..p]
    case None => line[1..|line| - 1]
  }

  /** One iteration of the inner loop of `getInspected`: `Ok(None)` for a
      line that is skipped, the column for a column line, and the ValueError
      `strpos` raises when the trimmed line is a lone backtick (offset 2 lies
      past its end). */
  function ParseColumnLine(raw: string): (r: Result<Option<Column>>)
    ensures r.Err? <==> Trim(raw, Whitespace) == "`"
    ensures r == Ok(None) <==> !IsColumnLine(raw)
    ensures r.Ok? && r.value.Some? ==>
      var line := Trim(raw, Whitespace);
      var c := r.value.value;
      && |line| >= 2
      && c.name == ColumnName(line)
      && IsTrimOf(c.decl, line, {','})
      && |c.decl| > 0 && c.decl[0] == '`' && c.decl[|c.decl| - 1] != ','
  {
    var line := Trim(raw, Whitespace);
    if |line| == 0 || line[0] != '`' then Ok(None)
    else if |line| < 2 then Err(OffsetOutOfRange(line))
    else
      var decl := Trim(line, {','});
      assert |decl| > 0 && decl[0] == '`' by {
        assert SkipLeading(line, {','}, 0) == 0;
      }
      Ok(Some(Column(ColumnName(line), decl)))
  }

  /** Sequencing of two fallible column scans: the first error wins. */
  function Then(a: Result<seq<Column>>, b: Result<seq<Column>>): Result<seq<Column>> {
    if a.Err? then a else if b.Err? then b else Ok(a.value + b.value)
  }

  lemma ThenAssociative(x: Result<seq<Column>>, y: Result<seq<Column>>, z: Result<seq<Column>>)
    ensures Then(x, Then(y, z)) == Then(Then(x, y), z)
  {
    if x.Ok? && y.Ok? && z.Ok? {
      assert x.value + (y.value + z.value) == (x.value + y.value) + z.value;
    }
  }

  /** What a single line contributes to the column list. */
  function LineColumns(raw: string): Result<seq<Column>> {
    match ParseColumnLine(raw)
    case Err(e) => Err(e)
    case Ok(None) => Ok([])
    case Ok(Some(c)) => Ok([c])
  }

  /** The columns the lines declare, in line order (repeats included). */
  function ColumnsOf(lines: seq<string>): (r: Result<seq<Column>>)
    ensures r.Err? <==> exists k :: 0 <= k < |lines| && Trim(lines[k], Whitespace) == "`"
    ensures r.Ok? ==> |r.value| <= |lines|
    decreases |lines|
  {
    if |lines| == 0 then Ok([])
    else
      var head := LineColumns(lines[0]);
      var rest := ColumnsOf(lines[1..]);
      assert head.Err? <==> Trim(lines[0], Whitespace) == "`";
      assert head.Ok? ==> |head.value| <= 1;
      assert forall k :: 1 <= k < |lines| ==> lines[k] == lines[1..][k - 1];
      Then(head, rest)
  }

  /** Scanning a concatenation is scanning each part in turn: each line
      contributes on its own, in order. */
  lemma {:induction false} ColumnsOfAppend(a: seq<string>, b: seq<string>)
    ensures ColumnsOf(a + b) == Then(ColumnsOf(a), ColumnsOf(b))
    decreases |a|
  {
    if |a| == 0 {
      assert a + b == b;
      if ColumnsOf(b).Ok? {
        assert [] + ColumnsOf(b).value == ColumnsOf(b).value;
      }
    } else {
      assert (a + b)[1..] == a[1..] + b;
      assert (a + b)[0] == a[0];
      ColumnsOfAppend(a[1..], b);
      ThenAssociative(LineColumns(a[0]), ColumnsOf(a[1..]), ColumnsOf(b));
    }
  }

  /** A successful scan is the first line's columns followed by the rest's. */
  lemma ColumnsOfCons(lines: seq<string>)
    requires |lines| > 0 && ColumnsOf(lines).Ok?
    ensures LineColumns(lines[0]).Ok? && ColumnsOf(lines[1..]).Ok?
    ensures ColumnsOf(lines).value == LineColumns(lines[0]).value + ColumnsOf(lines[1..]).value
  {
  }

  /** A column is collected exactly when some line parses to it. */
  lemma {:induction false} ColumnsOfLines(lines: seq<string>)
    requires ColumnsOf(lines).Ok?
    ensures forall c :: c in ColumnsOf(lines).value <==>
      exists k :: 0 <= k < |lines| && ParseColumnLine(lines[k]) == Ok(Some(c))
    decreases |lines|
  {
    if |lines| > 0 {
      var rest := lines[1..];
      ColumnsOfCons(lines);
      ColumnsOfLines(rest);
      var head := LineColumns(lines[0]).value;
      assert forall c :: c in head <==> ParseColumnLine(lines[0]) == Ok(Some(c));
      forall c | exists k :: 0 <= k < |lines| && ParseColumnLine(lines[k]) == Ok(Some(c))
        ensures c in ColumnsOf(lines).value
      {
        var k :| 0 <= k < |lines| && ParseColumnLine(lines[k]) == Ok(Some(c));
        if k > 0 {
          assert ParseColumnLine(rest[k - 1]) == Ok(Some(c));
        }
      }
      forall c | c in ColumnsOf(lines).value
        ensures exists k :: 0 <= k < |lines| && ParseColumnLine(lines[k]) == Ok(Some(c))
      {
        if c !in head {
          var k :| 0 <= k < |rest| && ParseColumnLine(rest[k]) == Ok(Some(c));
          assert lines[k + 1] == rest[k];
        }
      }
    }
  }

  // ---------------------------------------------------------------------
  // The insertion-ordered column map
  // ---------------------------------------------------------------------

  function Keys(m: seq<Column>): seq<string> {
    seq(|m|, i requires 0 <= i < |m| => m[i].name)
  }

  predicate UniqueKeys(m: seq<Column>) {
    forall i, j :: 0 <= i < j < |m| ==> m[i].name != m[j].name
  }

  /** `$columns[$n]`, or `None` when the key is absent. */
  function Lookup(m: seq<Column>, n: string): Option<string>
    decreases |m|
  {
    if |m| == 0 then None
    else if m[0].name == n then Some(m[0].decl)
    else Lookup(m[1..], n)
  }

  /** `$columns[$c->name] = $c->decl`. */
  function Put(m: seq<Column>, c: Column): seq<Column>
    decreases |m|
  {
    if |m| == 0 then [c]
    else if m[0].name == c.name then [c] + m[1..]
    else [m[0]] + Put(m[1..], c)
  }

  lemma KeysCons(c: Column, m: seq<Column>)
    ensures Keys([c] + m) == [c.name] + Keys(m)
  {
  }

  /** Assigning an existing key keeps the key order (the key stays where it
      was first inserted); assigning a new key appends it. */
  lemma {:induction false} PutKeys(m: seq<Column>, c: Column)
    ensures c.name in Keys(m) ==> Keys(Put(m, c)) == Keys(m)
    ensures c.name !in Keys(m) ==> Put(m, c) == m + [c]
    decreases |m|
  {
    if |m| == 0 {
    } else {
      assert m == [m[0]] + m[1..];
      KeysCons(m[0], m[1..]);
      if m[0].name == c.name {
        assert Keys(m)[0] == c.name;
        KeysCons(c, m[1..]);
      } else {
        PutKeys(m[1..], c);
        KeysCons(m[0], Put(m[1..], c));
        if c.name !in Keys(m) {
          assert c.name !in Keys(m[1..]);
          assert [m[0]] + (m[1..] + [c]) == m + [c];
        }
      }
    }
  }

  /** After the assignment the key holds the new declaration, and every other
      key holds what it held before. */
  lemma {:induction false} PutLookup(m: seq<Column>, c: Column)
    ensures Lookup(Put(m, c), c.name) == Some(c.decl)
    ensures forall n :: n != c.name ==> Lookup(Put(m, c), n) == Lookup(m, n)
    decreases |m|
  {
    if |m| > 0 && m[0].name != c.name {
      PutLookup(m[1..], c);
      assert ([m[0]] + Put(m[1..], c))[1..] == Put(m[1..], c);
    } else if |m| > 0 {
      assert ([c] + m[1..])[1..] == m[1..];
    }
  }

  /** Assignment keeps keys unique. */
  lemma PutUnique(m: seq<Column>, c: Column)
    requires UniqueKeys(m)
    ensures UniqueKeys(Put(m, c))
  {
    PutKeys(m, c);
    var r := Put(m, c);
    if c.name in Keys(m) {
      assert |Keys(r)| == |Keys(m)|;
      forall i, j | 0 <= i < j < |r|
        ensures r[i].name != r[j].name
      {
        assert Keys(r)[i] == Keys(m)[i] && Keys(r)[j] == Keys(m)[j];
      }
    } else {
      forall i, j | 0 <= i < j < |r|
        ensures r[i].name != r[j].name
      {
        if j == |m| {
          assert Keys(m)[i] == m[i].name;
        }
      }
    }
  }

  /** The map the inner loop builds from the column lines, in order. */
  function Collect(cs: seq<Column>): (r: seq<Column>)
    ensures UniqueKeys(r)
    decreases |cs|
  {
    if |cs| == 0 then []
    else
      var m := Collect(cs[..|cs| - 1]);
      PutUnique(m, cs[|cs| - 1]);
      Put(m, cs[|cs| - 1])
  }

  /** The declaration on the last line that declares `n`. */
  function LastDecl(cs: seq<Column>, n: string): Option<string>
    decreases |cs|
  {
    if |cs| == 0 then None
    else if cs[|cs| - 1].name == n then Some(cs[|cs| - 1].decl)
    else LastDecl(cs[..|cs| - 1], n)
  }

  /** The map has a key for exactly the names the lines declare. */
  lemma {:induction false} CollectKeys(cs: seq<Column>, n: string)
    ensures n in Keys(Collect(cs)) <==> n in Keys(cs)
    decreases |cs|
  {
    if |cs| > 0 {
      var init := cs[..|cs| - 1];
      var c := cs[|cs| - 1];
      CollectKeys(init, n);
      assert Keys(cs) == Keys(init) + [c.name];
      var m := Collect(init);
      PutKeys(m, c);
      if c.name !in Keys(m) {
        assert Keys(m + [c]) == Keys(m) + [c.name];
      }
    }
  }

  /** A repeated name maps to the declaration of its last line. */
  lemma {:induction false} CollectLookup(cs: seq<Column>, n: string)
    ensures Lookup(Collect(cs), n) == LastDecl(cs, n)
    decreases |cs|
  {
    if |cs| > 0 {
      CollectLookup(cs[..|cs| - 1], n);
      PutLookup(Collect(cs[..|cs| - 1]), cs[|cs| - 1]);
    }
  }

  /** Keys keep the order in which their names first appear: the keys built
      from any prefix of the lines are a prefix of the final keys. */
  lemma {:induction false} CollectOrder(cs: seq<Column>, m: nat)
    requires m <= |cs|
    ensures Keys(Collect(cs[..m])) <= Keys(Collect(cs))
    decreases |cs|
  {
    if m < |cs| {
      var init := cs[..|cs| - 1];
      assert init[..m] == cs[..m];
      CollectOrder(init, m);
      var prev := Collect(init);
      var c := cs[|cs| - 1];
      PutKeys(prev, c);
      if c.name !in Keys(prev) {
        assert Keys(prev + [c]) == Keys(prev) + [c.name];
      }
    } else {
      assert cs[..m] == cs;
    }
  }

  // ---------------------------------------------------------------------
  // Inspected statements
  // ---------------------------------------------------------------------

  /** One entry of the array `getInspected` returns. */
  datatype Statement = Statement(query: string, table: Option<string>, columns: seq<Column>)

  /** `explode(PHP_EOL, $query)` with `PHP_EOL` = "\n". */
  function Lines(q: string): seq<string> {
    Split(q, "\n")
  }

  /** A name is a key exactly when some entry carries it. */
  lemma KeysHold(m: seq<Column>, n: string)
    ensures n in Keys(m) <==> exists c :: c in m && c.name == n
  {
    if n in Keys(m) {
      var i :| 0 <= i < |m| && Keys(m)[i] == n;
      assert m[i] in m;
    }
    if exists c :: c in m && c.name == n {
      var c :| c in m && c.name == n;
      var i :| 0 <= i < |m| && m[i] == c;
      assert Keys(m)[i] == n;
    }
  }

  /** The declaration a name maps to comes from a line declaring it. */
  lemma {:induction false} LastDeclFrom(cs: seq<Column>, n: string, d: string)
    requires LastDecl(cs, n) == Some(d)
    ensures Column(n, d) in cs
    decreases |cs|
  {
    var last := cs[|cs| - 1];
    if last.name != n {
      LastDeclFrom(cs[..|cs| - 1], n, d);
    } else {
      assert last == Column(n, d);
    }
  }

  /** Inspection of one query. */
  function Inspect(q: string): (r: Result<Statement>)
    ensures r.Err? <==> exists k :: 0 <= k < |Lines(q)| && Trim(Lines(q)[k], Whitespace) == "`"
    ensures r.Ok? ==> r.value.query == q && r.value.table == TableNameOf(q)
    ensures r.Ok? ==> UniqueKeys(r.value.columns)
  {
    match ColumnsOf(Lines(q))
    case Err(e) => Err(e)
    case Ok(cs) => Ok(Statement(q, TableNameOf(q), Collect(cs)))
  }

  /** The inspected column map has a key for exactly the names the query's
      column lines declare, and each key holds the declaration of a line that
      declares it. */
  lemma InspectColumns(q: string, n: string)
    requires Inspect(q).Ok?
    ensures n in Keys(Inspect(q).value.columns) <==>
      exists k, c: Column :: 0 <= k < |Lines(q)| && ParseColumnLine(Lines(q)[k]) == Ok(Some(c)) && c.name == n
    ensures forall d :: Lookup(Inspect(q).value.columns, n) == Some(d) ==>
      exists k :: 0 <= k < |Lines(q)| && ParseColumnLine(Lines(q)[k]) == Ok(Some(Column(n, d)))
  {
    var lines := Lines(q);
    var cs := ColumnsOf(lines).value;
    assert Inspect(q).value.columns == Collect(cs);
    ColumnsOfLines(lines);
    CollectKeys(cs, n);
    KeysHold(cs, n);
    CollectLookup(cs, n);
    forall d | Lookup(Collect(cs), n) == Some(d)
      ensures exists k :: 0 <= k < |lines| && ParseColumnLine(lines[k]) == Ok(Some(Column(n, d)))
    {
      LastDeclFrom(cs, n, d);
    }
  }

  /** The statements of a list of inspection results, or the first error. */
  function FirstError(rs: seq<Result<Statement>>): (r: Result<seq<Statement>>)
    ensures r.Err? <==> exists k :: 0 <= k < |rs| && rs[k].Err?
    ensures r.Err? ==> exists k :: 0 <= k < |rs| && rs[k] == Err(r.error) && forall j :: 0 <= j < k ==> rs[j].Ok?
    ensures r.Ok? ==> |r.value| == |rs| && forall k :: 0 <= k < |rs| ==> rs[k] == Ok(r.value[k])
    decreases |rs|
  {
    if |rs| == 0 then Ok([])
    else
      var tail := FirstError(rs[1..]);
      assert forall k :: 1 <= k < |rs| ==> rs[k] == rs[1..][k - 1];
      if rs[0].Err? then Err(rs[0].error)
      else if tail.Err? then
        assert exists k :: 1 <= k < |rs| && rs[k] == Err(tail.error) && forall j :: 0 <= j < k ==> rs[j].Ok? by {
          var k' :| 0 <= k' < |rs| - 1 && rs[1..][k'] == Err(tail.error) && forall j :: 0 <= j < k' ==> rs[1..][j].Ok?;
          assert rs[k' + 1] == Err(tail.error);
          assert forall j :: 1 <= j < k' + 1 ==> rs[j] == rs[1..][j - 1];
        }
        Err(tail.error)
      else Ok([rs[0].value] + tail.value)
  }

  /** The inspection of every query, in order. */
  function Inspections(qs: seq<string>): (rs: seq<Result<Statement>>)
    ensures |rs| == |qs|
    ensures forall k :: 0 <= k < |qs| ==> rs[k] == Inspect(qs[k])
  {
    seq(|qs|, k requires 0 <= k < |qs| => Inspect(qs[k]))
  }

  /** `DB::getInspected`: one statement per query, in order; the first
      ValueError aborts the whole call. */
  function GetInspected(qs: seq<string>): (r: Result<seq<Statement>>)
    ensures r.Err? ==> exists k :: 0 <= k < |qs| && Inspect(qs[k]) == Err(r.error) && forall j :: 0 <= j < k ==> Inspect(qs[j]).Ok?
    ensures r.Ok? ==> |r.value| == |qs| && forall k :: 0 <= k < |qs| ==> Inspect(qs[k]) == Ok(r.value[k])
  {
    FirstError(Inspections(qs))
  }

  /** Inspection fails exactly when some query holds a lone-backtick line. */
  lemma GetInspectedFails(qs: seq<string>)
    ensures GetInspected(qs).Err? <==> exists k :: 0 <= k < |qs| && Inspect(qs[k]).Err?
  {
    var rs := Inspections(qs);
    if GetInspected(qs).Err? {
      var k :| 0 <= k < |rs| && rs[k].Err?;
      assert Inspect(qs[k]).Err?;
    }
  }

  /** Inspection keeps one record per query, in order, with the query text
      unchanged. */
  lemma GetInspectedKeeps(qs: seq<string>)
    requires GetInspected(qs).Ok?
    ensures |GetInspected(qs).value| == |qs|
    ensures forall k :: 0 <= k < |qs| ==>
      && Inspect(qs[k]) == Ok(GetInspected(qs).value[k])
      && GetInspected(qs).value[k].query == qs[k]
  {
    var rs := Inspections(qs);
    var r := FirstError(rs);
    forall k | 0 <= k < |qs|
      ensures Inspect(qs[k]) == Ok(r.value[k]) && r.value[k].query == qs[k]
    {
      assert rs[k] == Ok(r.value[k]);
    }
  }
}
