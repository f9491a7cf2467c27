/** PHP array-key casting and the strict `in_array` of `DB::import`.

    `$columns[$column_name] = ...` stores a string key that is the canonical
    decimal form of a 64-bit integer as that integer, and
    `foreach ($query['columns'] as $column => ...)` then hands back the
    integer. `in_array($column, $current_columns, true)` compares strictly
    against the string column names the catalog query returns, so an integer
    key is never found: a column named, say, `7` is treated as missing on
    every run even when the table already has it. `Import.Missing`, which the
    rest of the model uses, compares names as strings, which is what the loop
    evidently intends. */
module ArrayKeys {
  import opened Inspect
  import Import

  /** A PHP array key: an integer or a string. */
  datatype Key = IntKey(value: int) | StringKey(text: string)

  predicate IsDigit(c: char) {
    '0' <= c <= '9'
  }

  predicate AllDigits(ds: string) {
    forall k :: 0 <= k < |ds| ==> IsDigit(ds[k])
  }

  /** The value of a string of decimal digits. */
  function DigitsValue(ds: string): nat
    requires AllDigits(ds)
    decreases |ds|
  {
    if |ds| == 0 then 0
    else
      assert IsDigit(ds[|ds| - 1]);
      DigitsValue(ds[..|ds| - 1]) * 10 + (ds[|ds| - 1] as int - '0' as int)
  }

  const MaxLong: nat := 0x7FFF_FFFF_FFFF_FFFF

  /** Decimal digits without a leading zero, unless the digits are "0". */
  predicate IsCanonicalDigits(ds: string) {
    && 0 < |ds|
    && AllDigits(ds)
    && (ds[0] != '0' || |ds| == 1)
  }

  /** The strings PHP turns into integer keys: "0", or an optional minus sign
      and digits without a leading zero, within the 64-bit range ("-0" and
      "07" stay strings). */
  predicate IsIntegerKey(s: string) {
    var negative := |s| > 0 && s[0] == '-';
    var ds := if negative then s[1..] else s;
    && IsCanonicalDigits(ds)
    && (negative ==> ds[0] != '0')
    && DigitsValue(ds) <= (if negative then MaxLong + 1 else MaxLong)
  }

  /** The integer an integer-like string stands for. */
  function IntegerValue(s: string): int
    requires IsIntegerKey(s)
  {
    if |s| > 0 && s[0] == '-' then 0 - DigitsValue(s[1..]) as int else DigitsValue(s)
  }

  /** The key `$columns[$name]` is stored under. */
  function KeyOf(name: string): Key {
    if IsIntegerKey(name) then IntKey(IntegerValue(name)) else StringKey(name)
  }

  /** Digits that do not start with a zero stand for a positive number. */
  lemma {:induction false} LeadingDigitPositive(ds: string)
    requires 0 < |ds| && AllDigits(ds) && ds[0] != '0'
    ensures DigitsValue(ds) >= 1
    decreases |ds|
  {
    if |ds| > 1 {
      var p := ds[..|ds| - 1];
      assert p[0] == ds[0];
      LeadingDigitPositive(p);
    }
  }

  /** Two canonical digit strings with the same value are the same string. */
  lemma {:induction false} CanonicalDigitsInjective(a: string, b: string)
    requires IsCanonicalDigits(a) && IsCanonicalDigits(b)
    requires DigitsValue(a) == DigitsValue(b)
    ensures a == b
    decreases |a|
  {
    var pa, pb := a[..|a| - 1], b[..|b| - 1];
    var da, db := a[|a| - 1] as int - '0' as int, b[|b| - 1] as int - '0' as int;
    assert DigitsValue(a) == DigitsValue(pa) * 10 + da;
    assert DigitsValue(b) == DigitsValue(pb) * 10 + db;
    if |a| > 1 {
      assert pa[0] == a[0];
      LeadingDigitPositive(pa);
    }
    if |b| > 1 {
      assert pb[0] == b[0];
      LeadingDigitPositive(pb);
    }
    if |a| > 1 && |b| > 1 {
      assert pa[0] == a[0] && pb[0] == b[0];
      CanonicalDigitsInjective(pa, pb);
      assert a == pa + [a[|a| - 1]] && b == pb + [b[|b| - 1]];
    } else if |a| == 1 && |b| == 1 {
      assert DigitsValue(pa) == 0 && DigitsValue(pb) == 0;
    }
  }

  /** Distinct column names land on distinct keys, so keying the column map by
      the name itself loses nothing: integer-like names that differ stand for
      different integers. */
  lemma KeyOfInjective(a: string, b: string)
    requires KeyOf(a) == KeyOf(b)
    ensures a == b
  {
    if IsIntegerKey(a) {
      var na, nb := |a| > 0 && a[0] == '-', |b| > 0 && b[0] == '-';
      var da, db := if na then a[1..] else a, if nb then b[1..] else b;
      if na {
        LeadingDigitPositive(da);
      }
      if nb {
        LeadingDigitPositive(db);
      }
      CanonicalDigitsInjective(da, db);
      if na {
        assert a == [a[0]] + da;
        assert b == [b[0]] + db;
      }
    }
  }

  /** `in_array($key, $current_columns, true)`: strict comparison, so an
      integer key equals none of the catalog's string column names. */
  predicate InArrayStrict(k: Key, live: seq<string>) {
    k.StringKey? && k.text in live
  }

  /** The selection the source loop makes, as written. */
  function MissingAsWritten(cols: seq<Column>, live: seq<string>): (r: seq<Column>)
    ensures forall c :: c in r <==> c in cols && (c.name !in live || IsIntegerKey(c.name))
    decreases |cols|
  {
    if |cols| == 0 then []
    else
      var head := if InArrayStrict(KeyOf(cols[0].name), live) then [] else [cols[0]];
      head + MissingAsWritten(cols[1..], live)
  }

  /** For names that stay string keys the loop as written and the intended
      selection agree. */
  lemma {:induction false} AsWrittenAgreesOnTextNames(cols: seq<Column>, live: seq<string>)
    requires forall k :: 0 <= k < |cols| ==> !IsIntegerKey(cols[k].name)
    ensures MissingAsWritten(cols, live) == Import.Missing(cols, live)
    decreases |cols|
  {
    if |cols| > 0 {
      AsWrittenAgreesOnTextNames(cols[1..], live);
    }
  }

  /** A table that already has its column `7`: the loop as written issues an
      ALTER for it anyway, on this run and every later one; the intended
      selection issues none. */
  lemma AsWrittenReaddsIntegerNamedColumn()
    ensures
      var cols := [Column("7", "`7` int NOT NULL")];
      && MissingAsWritten(cols, ["7"]) == cols
      && Import.Missing(cols, ["7"]) == []
  {
    var cols := [Column("7", "`7` int NOT NULL")];
    assert DigitsValue("7") == 7 by {
      assert "7"[..0] == "";
    }
    assert IsIntegerKey("7");
    assert KeyOf("7") == IntKey(7);
    assert cols[1..] == [];
  }
}
