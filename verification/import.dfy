/** `DB::import`: purge, rewrite and inspect the dump, then for every
    statement let the host's schema sync run and add, one `ALTER TABLE` at a
    time, the declared columns the live table lacks. The database is a
    catalog of column names per table; `dbDelta` is a parameter. */
module Import {
  import opened Base
  import opened Extract
  import opened Rewrite
  import opened Inspect

  /** The live schema: for each existing table, the column names the
      INFORMATION_SCHEMA query reports. */
  type Catalog = map<string, seq<string>>

  /** How a table name is spelled inside the generated SQL: PHP interpolates
      the `null` of an unmatched name as the empty string. */
  function TableText(t: Option<string>): string {
    t.GetOr("")
  }

  /** `$wpdb->get_col(...)` for the statement's table; an unknown table has
      no columns. */
  function LiveColumns(cat: Catalog, t: Option<string>): seq<string> {
    var name := TableText(t);
    if name in cat then cat[name] else []
  }

  /** The declared columns whose names are not in the live list, in
      declaration order: `! in_array($column, $current_columns, true)` as the
      loop intends it, comparing column names as strings. As written, PHP
      hands back an integer-like name as an integer and the strict test never
      finds it; `ArrayKeys.MissingAsWritten` models that. */
  function Missing(cols: seq<Column>, live: seq<string>): (r: seq<Column>)
    ensures forall c :: c in r <==> c in cols && c.name !in live
    decreases |cols|
  {
    if |cols| == 0 then []
    else (if cols[0].name in live then [] else [cols[0]]) + Missing(cols[1..], live)
  }

  /** The selection is made column by column: it distributes over
      concatenation, so it keeps declaration order. */
  lemma {:induction false} MissingAppend(a: seq<Column>, b: seq<Column>, live: seq<string>)
    ensures Missing(a + b, live) == Missing(a, live) + Missing(b, live)
    decreases |a|
  {
    if |a| == 0 {
      assert a + b == b;
    } else {
      assert (a + b)[0] == a[0];
      assert (a + b)[1..] == a[1..] + b;
      MissingAppend(a[1..], b, live);
    }
  }

  /** Against an empty live list every declared column is missing. */
  lemma {:induction false} MissingNoneLive(cols: seq<Column>)
    ensures Missing(cols, []) == cols
    decreases |cols|
  {
    if |cols| > 0 {
      MissingNoneLive(cols[1..]);
      assert cols == [cols[0]] + cols[1..];
    }
  }

  /** When every declared column is live, nothing is missing. */
  lemma {:induction false} NoneMissing(cols: seq<Column>, live: seq<string>)
    requires forall c :: c in cols ==> c.name in live
    ensures Missing(cols, live) == []
    decreases |cols|
  {
    if |cols| > 0 {
      assert cols[0] in cols;
      assert forall c :: c in cols[1..] ==> c in cols;
      NoneMissing(cols[1..], live);
    }
  }

  /** `ALTER TABLE {$query['table']} ADD {$column_definition}`. */
  function AlterFor(t: Option<string>, decl: string): string {
    "ALTER TABLE " + TableText(t) + " ADD " + decl
  }

  /** One ALTER per column, in order. */
  function AltersOf(t: Option<string>, cols: seq<Column>): seq<string> {
    seq(|cols|, k requires 0 <= k < |cols| => AlterFor(t, cols[k].decl))
  }

  lemma AltersOfAppend(t: Option<string>, a: seq<Column>, b: seq<Column>)
    ensures AltersOf(t, a + b) == AltersOf(t, a) + AltersOf(t, b)
  {
  }

  /** The ALTERs are those of the listed columns. */
  lemma AltersOfMembers(t: Option<string>, cols: seq<Column>)
    ensures forall a :: a in AltersOf(t, cols) <==> exists c :: c in cols && a == AlterFor(t, c.decl)
  {
    var r := AltersOf(t, cols);
    forall a | a in r
      ensures exists c :: c in cols && a == AlterFor(t, c.decl)
    {
      var k :| 0 <= k < |r| && r[k] == a;
      assert cols[k] in cols;
    }
    forall c | c in cols
      ensures AlterFor(t, c.decl) in r
    {
      var k :| 0 <= k < |cols| && cols[k] == c;
      assert r[k] == AlterFor(t, c.decl);
    }
  }

  /** The ALTER statements issued for one statement against its live columns. */
  function Alters(st: Statement, live: seq<string>): (r: seq<string>)
    ensures r == [] <==> forall c :: c in st.columns ==> c.name in live
    ensures forall a :: a in r <==>
      exists c :: c in st.columns && c.name !in live && a == AlterFor(st.table, c.decl)
  {
    var ms := Missing(st.columns, live);
    AltersOfMembers(st.table, ms);
    assert (forall c :: c in st.columns ==> c.name in live) ==> ms == [] by {
      if forall c :: c in st.columns ==> c.name in live {
        NoneMissing(st.columns, live);
      }
    }
    AltersOf(st.table, ms)
  }

  /** The ALTERs follow declaration order: those for the first columns come
      before those for the rest. */
  lemma AltersAppend(st: Statement, a: seq<Column>, b: seq<Column>, live: seq<string>)
    requires st.columns == a + b
    ensures Alters(st, live) == Alters(st.(columns := a), live) + Alters(st.(columns := b), live)
  {
    MissingAppend(a, b, live);
    AltersOfAppend(st.table, Missing(a, live), Missing(b, live));
  }

  /** A single declared column gets one ALTER when it is not live, and none
      when it is. */
  lemma AltersSingle(st: Statement, live: seq<string>)
    requires |st.columns| == 1
    ensures Alters(st, live) == if st.columns[0].name in live then [] else [AlterFor(st.table, st.columns[0].decl)]
  {
    assert st.columns[1..] == [];
    assert Missing(st.columns, live) == if st.columns[0].name in live then [] else [st.columns[0]];
  }

  /** A table missing exactly one declared column gets exactly one ALTER,
      for that column. */
  lemma ExactlyOneMissing(st: Statement, live: seq<string>, i: nat)
    requires i < |st.columns|
    requires st.columns[i].name !in live
    requires forall j :: 0 <= j < |st.columns| && j != i ==> st.columns[j].name in live
    ensures Alters(st, live) == [AlterFor(st.table, st.columns[i].decl)]
  {
    var cols := st.columns;
    var a, b := cols[..i], cols[i + 1..];
    assert cols == a + [cols[i]] + b;
    MissingAppend(a + [cols[i]], b, live);
    MissingAppend(a, [cols[i]], live);
    NoneMissing(a, live);
    NoneMissing(b, live);
    assert Missing([cols[i]], live) == [cols[i]];
  }

  // ---------------------------------------------------------------------
  // The effect on the database
  // ---------------------------------------------------------------------

  /** What one `import` produces: the ALTER statements, in the order they are
      issued, and the catalog afterwards. */
  datatype Outcome = Outcome(alters: seq<string>, catalog: Catalog)

  /** The effect of `ALTER TABLE t ADD <decl of name>`: the column joins an
      existing table. Against an unknown or unnamed table the statement fails;
      `$wpdb->query` reports it and returns false, and nothing changes. */
  function AddColumn(cat: Catalog, t: Option<string>, name: string): Catalog {
    if t.Some? && t.value in cat then cat[t.value := cat[t.value] + [name]] else cat
  }

  /** The missing columns, added one at a time in declaration order. */
  function AddAll(cat: Catalog, t: Option<string>, cols: seq<Column>): Catalog
    decreases |cols|
  {
    if |cols| == 0 then cat else AddAll(AddColumn(cat, t, cols[0].name), t, cols[1..])
  }

  /** Every table of `c` is in `d`, with at least the columns it has in `c`. */
  ghost predicate Extends(c: Catalog, d: Catalog) {
    forall t :: t in c ==> t in d && forall n :: n in c[t] ==> n in d[t]
  }

  /** The schema sync never drops a table or a column. */
  ghost predicate Grows(dbDelta: (Catalog, string) -> Catalog) {
    forall c: Catalog, q: string :: Extends(c, dbDelta(c, q))
  }

  /** The statement names its table and the schema sync, run on it, leaves
      that table in place whatever the catalog was. */
  ghost predicate KeepsTable(dbDelta: (Catalog, string) -> Catalog, st: Statement) {
    st.table.Some? && forall c: Catalog :: st.table.value in dbDelta(c, st.query)
  }

  ghost predicate CreatesTables(dbDelta: (Catalog, string) -> Catalog, stmts: seq<Statement>) {
    forall k :: 0 <= k < |stmts| ==> KeepsTable(dbDelta, stmts[k])
  }

  /** The statement's table exists in `cat` with every declared column. */
  ghost predicate HasColumns(cat: Catalog, st: Statement) {
    && st.table.Some?
    && st.table.value in cat
    && forall c :: c in st.columns ==> c.name in cat[st.table.value]
  }

  /** One pass of the loop of `import`: run `dbDelta` on the statement, read
      the live columns of its table, then add the missing ones. An ALTER is
      issued exactly for each declared column the synced table lacks; nothing
      the sync left is dropped; and when the statement's table exists after the
      sync, it holds every declared column afterwards. */
  function Step(st: Statement, cat: Catalog, dbDelta: (Catalog, string) -> Catalog): (r: Outcome)
    ensures forall a :: a in r.alters <==>
      exists c :: c in st.columns && c.name !in LiveColumns(dbDelta(cat, st.query), st.table) && a == AlterFor(st.table, c.decl)
    ensures Extends(dbDelta(cat, st.query), r.catalog)
    ensures st.table.Some? && st.table.value in dbDelta(cat, st.query) ==> HasColumns(r.catalog, st)
  {
    var synced := dbDelta(cat, st.query);
    var live := LiveColumns(synced, st.table);
    var ms := Missing(st.columns, live);
    var alters := Alters(st, live);
    AddAllExtends(synced, st.table, ms);
    assert st.table.Some? && st.table.value in synced ==> HasColumns(AddAll(synced, st.table, ms), st) by {
      if st.table.Some? && st.table.value in synced {
        var t := st.table.value;
        AddAllAdds(synced, t, ms);
        forall c | c in st.columns
          ensures c.name in AddAll(synced, st.table, ms)[t]
        {
          if c.name !in live {
            assert c in ms;
          } else {
            assert c.name in synced[t];
          }
        }
      }
    }
    Outcome(alters, AddAll(synced, st.table, ms))
  }

  /** Steps applied one statement after another, threading the catalog. */
  function Chain(step: (Statement, Catalog) -> Outcome, stmts: seq<Statement>, cat: Catalog): Outcome
    decreases |stmts|
  {
    if |stmts| == 0 then Outcome([], cat)
    else
      var first := step(stmts[0], cat);
      var rest := Chain(step, stmts[1..], first.catalog);
      Outcome(first.alters + rest.alters, rest.catalog)
  }

  /** A step whose ALTERs each add one of the statement's declared columns. */
  ghost predicate AltersDeclared(step: (Statement, Catalog) -> Outcome) {
    forall st: Statement, c: Catalog, a :: a in step(st, c).alters ==>
      exists col :: col in st.columns && a == AlterFor(st.table, col.decl)
  }

  /** Every ALTER of a chain of such steps adds a column some statement declares. */
  lemma {:induction false} ChainAlters(step: (Statement, Catalog) -> Outcome, stmts: seq<Statement>, cat: Catalog)
    requires AltersDeclared(step)
    ensures forall a :: a in Chain(step, stmts, cat).alters ==>
      exists k, c :: 0 <= k < |stmts| && c in stmts[k].columns && a == AlterFor(stmts[k].table, c.decl)
    decreases |stmts|
  {
    if |stmts| > 0 {
      var first := step(stmts[0], cat);
      var rest := Chain(step, stmts[1..], first.catalog);
      ChainAlters(step, stmts[1..], first.catalog);
      forall a | a in first.alters + rest.alters
        ensures exists k, c :: 0 <= k < |stmts| && c in stmts[k].columns && a == AlterFor(stmts[k].table, c.decl)
      {
        if a in first.alters {
          var c :| c in stmts[0].columns && a == AlterFor(stmts[0].table, c.decl);
        } else {
          var k, c :| 0 <= k < |stmts[1..]| && c in stmts[1..][k].columns && a == AlterFor(stmts[1..][k].table, c.decl);
          assert stmts[1..][k] == stmts[k + 1];
        }
      }
    }
  }

  /** The loop of `import`: one step per statement, in extraction order,
      threading the catalog. Every ALTER it issues adds a column some
      statement declares, to that statement's table. */
  function Run(stmts: seq<Statement>, cat: Catalog, dbDelta: (Catalog, string) -> Catalog): (r: Outcome)
    ensures forall a :: a in r.alters ==>
      exists k, c :: 0 <= k < |stmts| && c in stmts[k].columns && a == AlterFor(stmts[k].table, c.decl)
  {
    var step := (st, c) => Step(st, c, dbDelta);
    assert AltersDeclared(step) by {
      forall st: Statement, c: Catalog, a | a in step(st, c).alters
        ensures exists col :: col in st.columns && a == AlterFor(st.table, col.decl)
      {
      }
    }
    ChainAlters(step, stmts, cat);
    Chain(step, stmts, cat)
  }

  lemma {:induction false} ChainAppend(step: (Statement, Catalog) -> Outcome, a: seq<Statement>, b: seq<Statement>, cat: Catalog)
    ensures Chain(step, a + b, cat).alters
         == Chain(step, a, cat).alters + Chain(step, b, Chain(step, a, cat).catalog).alters
    ensures Chain(step, a + b, cat).catalog == Chain(step, b, Chain(step, a, cat).catalog).catalog
    decreases |a|
  {
    if |a| == 0 {
      assert a + b == b;
    } else {
      var first := step(a[0], cat);
      ChainAppend(step, a[1..], b, first.catalog);
      assert (a + b)[0] == a[0];
      assert (a + b)[1..] == a[1..] + b;
    }
  }

  /** Statements are processed one after another: a run over `a + b` issues
      the ALTERs of `a`, then those of `b` against the catalog `a` left. */
  lemma RunAppend(a: seq<Statement>, b: seq<Statement>, cat: Catalog, dbDelta: (Catalog, string) -> Catalog)
    ensures Run(a + b, cat, dbDelta).alters
         == Run(a, cat, dbDelta).alters + Run(b, Run(a, cat, dbDelta).catalog, dbDelta).alters
    ensures Run(a + b, cat, dbDelta).catalog == Run(b, Run(a, cat, dbDelta).catalog, dbDelta).catalog
  {
    ChainAppend((st, c) => Step(st, c, dbDelta), a, b, cat);
  }

  /** The statements `import` works through: the dump purged, rewritten and
      inspected, or the ValueError that inspection raised. */
  function Prepare(sql: string, cfg: Config): Result<seq<Statement>> {
    GetInspected(ApplyDynamics(cfg, PurgeSql(sql)))
  }

  /** Inspecting the rewritten queries fails exactly when one of them, once
      rewritten, holds a line the column scan rejects. */
  lemma PrepareFails(cfg: Config, ps: seq<string>)
    ensures GetInspected(ApplyDynamics(cfg, ps)).Err? <==> exists k :: 0 <= k < |ps| && Inspect.Inspect(Rewrite.Rewrite(cfg, ps[k])).Err?
  {
    var qs := ApplyDynamics(cfg, ps);
    GetInspectedFails(qs);
    if exists k :: 0 <= k < |qs| && Inspect.Inspect(qs[k]).Err? {
      var k :| 0 <= k < |qs| && Inspect.Inspect(qs[k]).Err?;
      assert qs[k] == Rewrite.Rewrite(cfg, ps[k]);
    }
    if exists k :: 0 <= k < |ps| && Inspect.Inspect(Rewrite.Rewrite(cfg, ps[k])).Err? {
      var k :| 0 <= k < |ps| && Inspect.Inspect(Rewrite.Rewrite(cfg, ps[k])).Err?;
      assert qs[k] == Rewrite.Rewrite(cfg, ps[k]);
    }
  }

  /** `DB::import`. It fails exactly when some extracted statement, once
      rewritten, holds a line the column scan rejects; that ValueError aborts
      the call before the database is touched. Otherwise, when the schema sync
      never drops anything, neither does the import. The column selection is
      the intended string comparison of `Missing`. */
  function ImportSql(sql: string, cfg: Config, cat: Catalog, dbDelta: (Catalog, string) -> Catalog): (r: Result<Outcome>)
    ensures r.Err? <==> exists k :: 0 <= k < |PurgeSql(sql)| && Inspect.Inspect(Rewrite.Rewrite(cfg, PurgeSql(sql)[k])).Err?
    ensures r.Ok? && Grows(dbDelta) ==> Extends(cat, r.value.catalog)
  {
    PrepareFails(cfg, PurgeSql(sql));
    match Prepare(sql, cfg)
    case Err(e) => Err(e)
    case Ok(stmts) =>
      assert Grows(dbDelta) ==> Extends(cat, Run(stmts, cat, dbDelta).catalog) by {
        if Grows(dbDelta) {
          RunExtends(stmts, cat, dbDelta);
        }
      }
      Ok(Run(stmts, cat, dbDelta))
  }

  /** ALTERs against an unnamed table leave the catalog as it was. */
  lemma {:induction false} AddAllUnnamed(cat: Catalog, cols: seq<Column>)
    ensures AddAll(cat, None, cols) == cat
    decreases |cols|
  {
    if |cols| > 0 {
      AddAllUnnamed(cat, cols[1..]);
    }
  }

  /** A statement whose table name did not match, against a catalog without
      a table named "", asks for every declared column and changes nothing
      beyond the schema sync: the same ALTERs come back on every run. */
  lemma UnnamedTableAltersEveryRun(st: Statement, cat: Catalog, dbDelta: (Catalog, string) -> Catalog)
    requires st.table.None?
    requires "" !in dbDelta(cat, st.query)
    ensures |Step(st, cat, dbDelta).alters| == |st.columns|
    ensures Step(st, cat, dbDelta).catalog == dbDelta(cat, st.query)
  {
    var synced := dbDelta(cat, st.query);
    assert LiveColumns(synced, st.table) == [];
    assert Missing(st.columns, []) == st.columns by {
      MissingNoneLive(st.columns);
    }
    AddAllUnnamed(synced, st.columns);
  }

  // ---------------------------------------------------------------------
  // Idempotence
  // ---------------------------------------------------------------------

  lemma ExtendsTransitive(a: Catalog, b: Catalog, c: Catalog)
    requires Extends(a, b) && Extends(b, c)
    ensures Extends(a, c)
  {
  }

  lemma {:induction false} AddAllExtends(cat: Catalog, t: Option<string>, cols: seq<Column>)
    ensures Extends(cat, AddAll(cat, t, cols))
    decreases |cols|
  {
    if |cols| > 0 {
      var next := AddColumn(cat, t, cols[0].name);
      assert Extends(cat, next);
      AddAllExtends(next, t, cols[1..]);
      ExtendsTransitive(cat, next, AddAll(next, t, cols[1..]));
    }
  }

  /** Adding columns to an existing table leaves each of them in it. */
  lemma {:induction false} AddAllAdds(cat: Catalog, t: string, cols: seq<Column>)
    requires t in cat
    ensures t in AddAll(cat, Some(t), cols)
    ensures forall c :: c in cols ==> c.name in AddAll(cat, Some(t), cols)[t]
    decreases |cols|
  {
    if |cols| > 0 {
      var next := AddColumn(cat, Some(t), cols[0].name);
      assert cols[0].name in next[t];
      AddAllAdds(next, t, cols[1..]);
      AddAllExtends(next, Some(t), cols[1..]);
      assert forall c :: c in cols ==> c == cols[0] || c in cols[1..];
    }
  }

  lemma {:induction false} RunExtends(stmts: seq<Statement>, cat: Catalog, dbDelta: (Catalog, string) -> Catalog)
    requires Grows(dbDelta)
    ensures Extends(cat, Run(stmts, cat, dbDelta).catalog)
    decreases |stmts|
  {
    if |stmts| > 0 {
      var st := stmts[0];
      var synced := dbDelta(cat, st.query);
      var live := LiveColumns(synced, st.table);
      var altered := AddAll(synced, st.table, Missing(st.columns, live));
      AddAllExtends(synced, st.table, Missing(st.columns, live));
      RunExtends(stmts[1..], altered, dbDelta);
      ExtendsTransitive(cat, synced, altered);
      ExtendsTransitive(cat, altered, Run(stmts[1..], altered, dbDelta).catalog);
    }
  }

  /** After one run, every statement's table holds every declared column. */
  lemma {:induction false} RunCompletes(stmts: seq<Statement>, cat: Catalog, dbDelta: (Catalog, string) -> Catalog)
    requires Grows(dbDelta) && CreatesTables(dbDelta, stmts)
    ensures forall k :: 0 <= k < |stmts| ==> HasColumns(Run(stmts, cat, dbDelta).catalog, stmts[k])
    decreases |stmts|
  {
    if |stmts| > 0 {
      var st := stmts[0];
      assert KeepsTable(dbDelta, st);
      var first := Step(st, cat, dbDelta);
      assert HasColumns(first.catalog, st);
      var rest := stmts[1..];
      assert CreatesTables(dbDelta, rest) by {
        assert forall k :: 0 <= k < |rest| ==> rest[k] == stmts[k + 1];
      }
      RunCompletes(rest, first.catalog, dbDelta);
      RunExtends(rest, first.catalog, dbDelta);
      var final := Run(rest, first.catalog, dbDelta).catalog;
      assert Run(stmts, cat, dbDelta).catalog == final;
      forall k | 0 <= k < |stmts|
        ensures HasColumns(final, stmts[k])
      {
        if k > 0 {
          assert stmts[k] == rest[k - 1];
        }
      }
    }
  }

  /** Against a catalog that already holds every declared column, a run
      issues no ALTER. */
  lemma {:induction false} RunSettled(stmts: seq<Statement>, cat: Catalog, dbDelta: (Catalog, string) -> Catalog)
    requires Grows(dbDelta)
    requires forall k :: 0 <= k < |stmts| ==> HasColumns(cat, stmts[k])
    ensures Run(stmts, cat, dbDelta).alters == []
    decreases |stmts|
  {
    if |stmts| > 0 {
      var st := stmts[0];
      var synced := dbDelta(cat, st.query);
      assert Extends(cat, synced);
      assert forall k :: 0 <= k < |stmts| ==> HasColumns(synced, stmts[k]);
      var live := LiveColumns(synced, st.table);
      assert Alters(st, live) == [];
      var ms := Missing(st.columns, live);
      NoneMissing(st.columns, live);
      assert AddAll(synced, st.table, ms) == synced;
      var rest := stmts[1..];
      assert forall k :: 0 <= k < |rest| ==> rest[k] == stmts[k + 1];
      RunSettled(rest, synced, dbDelta);
    }
  }

  /** Importing the same dump twice: the second run adds nothing. */
  lemma SecondRunIsNoop(stmts: seq<Statement>, cat: Catalog, dbDelta: (Catalog, string) -> Catalog)
    requires Grows(dbDelta) && CreatesTables(dbDelta, stmts)
    ensures Run(stmts, Run(stmts, cat, dbDelta).catalog, dbDelta).alters == []
  {
    RunCompletes(stmts, cat, dbDelta);
    RunSettled(stmts, Run(stmts, cat, dbDelta).catalog, dbDelta);
  }

  /** The same, for the whole `import` call: when the dump inspects cleanly
      and the schema sync creates every statement's table, importing it twice
      succeeds both times and the second import issues no ALTER. */
  lemma ImportTwiceIsNoop(sql: string, cfg: Config, cat: Catalog, dbDelta: (Catalog, string) -> Catalog)
    requires Grows(dbDelta)
    ensures Prepare(sql, cfg).Ok? && CreatesTables(dbDelta, Prepare(sql, cfg).value) ==>
      && ImportSql(sql, cfg, cat, dbDelta).Ok?
      && ImportSql(sql, cfg, ImportSql(sql, cfg, cat, dbDelta).value.catalog, dbDelta).Ok?
      && ImportSql(sql, cfg, ImportSql(sql, cfg, cat, dbDelta).value.catalog, dbDelta).value.alters == []
  {
    if Prepare(sql, cfg).Ok? && CreatesTables(dbDelta, Prepare(sql, cfg).value) {
      SecondRunIsNoop(Prepare(sql, cfg).value, cat, dbDelta);
    }
  }
}
