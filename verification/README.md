# DB::import as a Dafny model

This project models the text pipeline behind `DB::import` of the
live-demo-sandbox plugin (`classes/Models/DB.php`). The pipeline imports a
bundled SQL dump of `CREATE TABLE IF NOT EXISTS` statements into the site's
database:

1. `purgeSQL` cuts the dump into statements. It uses
   `preg_match_all('/(CREATE TABLE .*?);/si')`: a caseless
   `CREATE TABLE ` up to the first `;` after it, across line breaks.
2. `applyDynamics` rewrites four placeholders in each statement, in a fixed
   order, with `str_replace`: the table prefix `wp_slds_`, the table clause,
   the column charset and the column collation.
3. `getInspected` reads three things from each statement:
   - the table name, with a greedy single-line capture after
     ``CREATE TABLE IF NOT EXISTS ` ``;
   - the column lines (trimmed lines that start with a backtick);
   - an insertion-ordered map from column name to declaration.
4. The loop of `import` runs `dbDelta` on each statement. It then reads the
   live columns of the statement's table and issues
   `ALTER TABLE <t> ADD <decl>` for every declared column the table lacks.

It also models `__callStatic`, which builds a physical table name.

Strings are `seq<char>`. The PHP primitives the code relies on are written
out in module `Text`:
- `strpos`, with an offset;
- `trim`, with and without a character list;
- `explode` and `implode`;
- `str_replace`, non-overlapping and left to right.

Caseless matching is ASCII folding. The two regular expressions are
hand-written scanners. Module `Pattern` states the first one declaratively
as a spec; `Extract` proves the scanner equal to it.

The database is a `Catalog`: the column names of each existing table. Three
things are parameters:
- `dbDelta`, a function from catalog and query to catalog;
- the live configuration (`$wpdb->prefix`, `Main::$configs->db_prefix`, the
  charset clause, the charset and the collation), as a `Config` value;
- the catalog itself.

Modules, in pipeline order:
- `Base`: `Option` and `Result`. The `Result` error is the PHP 8 ValueError
  that `strpos` raises.
- `Text`: the string primitives.
- `Pattern`: what the extraction pattern matches.
- `Extract`: `purgeSQL`.
- `Rewrite`: `applyDynamics` and `__callStatic`.
- `Inspect`: `getInspected`.
- `Import`: the column diff and the loop of `import`.
- `ArrayKeys`: how PHP stores integer-like array keys. This shows the
  finding below.

Points where the code does something other than the obvious reading, and
the model follows the code:
- `applyDynamics` makes four `str_replace` calls. The charset and the
  collation of a column are separate calls, after the prefix and the table
  clause.
- The closing backtick of a column name is searched from index 2
  (`strpos($line, '`', 2)`). In ``` ``x` ``` the name is therefore
  ``` `x ```. When no backtick sits at index 2 or later, `strpos` gives false,
  and the name is the line minus its first and last characters: the line
  ``` ``x ``` yields the name ``` ` ```.
- `trim($line, ',')` strips commas at both ends of the declaration, not only
  a trailing one.
- A statement whose table name does not match is not skipped. `$matches[1]`
  reads as `null`, which is interpolated as the empty string. The model
  keeps that: `Option` in `Statement.table`, `""` in the ALTER text.
- The integer-key finding below: the loop as written is
  `ArrayKeys.MissingAsWritten`. The rest of the model, including every
  idempotence result, uses the intended string comparison `Import.Missing`.

## Model

| member | source | states |
|---|---|---|
| Rewrite.TableName | classes/Models/DB.php:25-28 | the physical name is the WordPress prefix, then the plugin prefix, then the logical name: its length is the sum of the three, it starts with both prefixes and ends with the name |
| Rewrite.PrefixRewriteIsTableName | classes/Models/DB.php:56 | rewriting the prefix placeholder in `wp_slds_<name>` yields exactly the name `__callStatic` builds for `<name>` |
| Rewrite.ApplyDynamics | classes/Models/DB.php:49-69 | one rewritten query per input query, same order, each the four-step rewrite of its own input |
| Rewrite.Rewrite | classes/Models/DB.php:54-66 | the closure applied to one query is the four replacements in source order (prefix, table clause, charset, collation), each equal to `implode(value, explode(placeholder, q))` |
| Rewrite.RewriteUntouched | classes/Models/DB.php:55-65 | a query containing none of the four placeholders comes back unchanged |
| Text.ReplaceAll | classes/Models/DB.php:56-63 | `str_replace` with a replacement as long as the needle leaves the length of the text unchanged; `Text.ReplaceIsJoinOfSplit` pins the result |
| Text.ReplaceIsJoinOfSplit | classes/Models/DB.php:56 | `str_replace` with a non-empty needle equals `implode` of `explode` on it: occurrences are replaced left to right, without overlap, and inserted text is not rescanned |
| Text.ReplaceAbsent | classes/Models/DB.php:56 | text with no occurrence of the needle is left as it is |
| Text.SplitJoinRoundTrip | classes/Models/DB.php:85 | `implode` undoes `explode` for a non-empty separator |
| Text.Split | classes/Models/DB.php:85 | `explode` returns at least one piece, and no piece contains the separator |
| Text.Trim | classes/Models/DB.php:89 | `trim` removes a run of listed characters at each end and keeps the middle slice; the result neither starts nor ends with a listed character |
| Text.TrimIdempotent | classes/Models/DB.php:89 | trimming an already trimmed line changes nothing |
| Text.IndexOf | classes/Models/DB.php:81-85 | the literal search that `explode` and the table-name pattern make: the result is an occurrence at or after the offset, and no earlier occurrence exists |
| Text.NextChar | classes/Models/DB.php:94 | `strpos($line, '`', 2)`: the result holds a backtick at or after index 2, and no backtick lies between index 2 and it; none exactly when no backtick sits at index 2 or later |
| Extract.FindHeader | classes/Models/DB.php:37-38 | the search finds a caseless `CREATE TABLE ` at or after the start point, and none lies between the start point and what it finds |
| Extract.Scan | classes/Models/DB.php:37-38 | every reported match lies in the text, after the start point, and is non-empty |
| Extract.ScanHead | classes/Models/DB.php:37-38 | the first match starts at the first header, ends just after the first `;` after that header, and the search resumes after that `;` |
| Extract.ScanCharacterized | classes/Models/DB.php:36-41 | the matches reported are exactly the list the pattern describes: each match starts at the first header after the previous match, runs to the first `;` after that header, and no header after the last match has a `;` after it |
| Extract.ScanOrdered | classes/Models/DB.php:36-41 | matches come out in document order and do not overlap |
| Extract.NoStatements | classes/Models/DB.php:36-41 | the dump yields no statement exactly when no caseless `CREATE TABLE ` is followed by a `;` |
| Extract.PurgeSql | classes/Models/DB.php:36-41 | each statement is the contiguous substring of the dump covered by its match, in match order |
| Extract.StatementShape | classes/Models/DB.php:37-40 | every statement starts with a caseless `CREATE TABLE ` and holds exactly one `;`, its last character |
| Inspect.FindTable | classes/Models/DB.php:81 | the table-name pattern matches at the leftmost possible start, and its closing backtick is the last one on that line: no capture closes later, and none starts earlier |
| Inspect.LineEnd | classes/Models/DB.php:81 | the line a position is on ends at the next line break or at the end of the text, with no break before |
| Inspect.TableNameOf | classes/Models/DB.php:81-82 | the name is absent exactly when the pattern matches nowhere; otherwise it is the text between the head and the closing backtick of the leftmost match, that backtick being the last one on the head's line, and it spans no line break |
| Inspect.TableNameAtHead | classes/Models/DB.php:81-82 | for a query that opens with the head, a name and a backtick, the name runs to the last backtick of that first line |
| Inspect.ColumnName | classes/Models/DB.php:94 | the name is the text after the opening backtick up to the next backtick at index 2 or later; without one, it is the line minus its first and last characters |
| Inspect.ParseColumnLine | classes/Models/DB.php:87-96 | a line fails exactly when it trims to a lone backtick (the ValueError `strpos` raises for offset 2); it is skipped exactly when, once trimmed, it is empty or does not start with a backtick; otherwise the column has that line's name, and its declaration is the trimmed line with commas trimmed at both ends |
| Inspect.ColumnsOf | classes/Models/DB.php:85-96 | scanning the lines fails exactly when one of them trims to a lone backtick; otherwise at most one column per line |
| Inspect.ColumnsOfAppend | classes/Models/DB.php:87-96 | each line contributes on its own, in order: scanning a concatenation is scanning the parts in turn |
| Inspect.ColumnsOfLines | classes/Models/DB.php:87-96 | a column is collected exactly when some line parses to it |
| Inspect.PutKeys | classes/Models/DB.php:95 | assigning an existing key keeps the key order; assigning a new key appends it |
| Inspect.PutLookup | classes/Models/DB.php:95 | after `$columns[$name] = $decl` the name holds the new declaration, and every other name holds what it held before |
| Inspect.PutUnique | classes/Models/DB.php:95 | assignment keeps the keys unique |
| Inspect.Collect | classes/Models/DB.php:86-96 | the column map built by the loop has unique keys |
| Inspect.CollectKeys | classes/Models/DB.php:95 | the map has a key for exactly the names the lines declare |
| Inspect.CollectLookup | classes/Models/DB.php:95 | a repeated name maps to the declaration on its last line |
| Inspect.CollectOrder | classes/Models/DB.php:95 | keys keep the position of their first appearance: the keys after any prefix of the lines are a prefix of the final keys |
| Inspect.Inspect | classes/Models/DB.php:78-102 | inspecting one query fails exactly when one of its lines trims to a lone backtick; otherwise the record keeps the query text, carries the table name the pattern captures, and has unique column keys |
| Inspect.InspectColumns | classes/Models/DB.php:85-101 | the record's columns have a key for exactly the names the query's column lines declare, and each key maps to the declaration of a line that declares it |
| Inspect.FirstError | classes/Models/DB.php:77-106 | the loop fails exactly when some query fails, with the error of the first failing query; otherwise one record per query, in order |
| Inspect.GetInspected | classes/Models/DB.php:77-106 | on failure, the error is that of the first query whose inspection fails; on success, one record per query, in order, each the inspection of its own query |
| Inspect.GetInspectedFails | classes/Models/DB.php:77-106 | `getInspected` fails exactly when inspecting one of its queries fails |
| Inspect.GetInspectedKeeps | classes/Models/DB.php:98-102 | on success there is one record per query, in order, each the inspection of its own query with the query text unchanged |
| Import.Missing | classes/Models/DB.php:151-155 | a declared column is selected exactly when its name is not among the live column names: the intended comparison, see the finding |
| Import.MissingAppend | classes/Models/DB.php:151-155 | the selection is made column by column, so it keeps declaration order |
| Import.NoneMissing | classes/Models/DB.php:151-155 | when every declared column is live, nothing is selected |
| Import.Alters | classes/Models/DB.php:150-156 | no ALTER is issued exactly when every declared column is live; an ALTER is issued exactly for each declared column that is not live |
| Import.AltersAppend | classes/Models/DB.php:151-155 | ALTERs come in declaration order: those for the first columns precede those for the rest |
| Import.AltersSingle | classes/Models/DB.php:151-155 | a single declared column gets one ALTER when it is not live and none when it is, so with `Import.AltersAppend` each missing column gets exactly one ALTER |
| Import.ExactlyOneMissing | classes/Models/DB.php:150-156 | a table missing exactly one declared column gets exactly one ALTER, for that column |
| Import.Step | classes/Models/DB.php:137-156 | one pass of the loop: an ALTER exactly for each declared column the table lacks after the schema sync; nothing the sync left is dropped; when the table exists after the sync, it holds every declared column afterwards |
| Import.Run | classes/Models/DB.php:136-157 | every ALTER the loop issues adds a column that some statement declares, to that statement's table |
| Import.RunAppend | classes/Models/DB.php:136-157 | statements are processed one after another in extraction order: a run over `a + b` issues the ALTERs of `a`, then those of `b` against the catalog `a` left |
| Import.AddAllExtends | classes/Models/DB.php:154 | adding columns never removes a table or a column |
| Import.AddAllAdds | classes/Models/DB.php:154 | after the ALTERs on an existing table, it holds each added column |
| Import.RunExtends | classes/Models/DB.php:136-157 | when `dbDelta` never drops anything, an import never drops a table or a column |
| Import.RunCompletes | classes/Models/DB.php:136-157 | when `dbDelta` keeps each statement's table, after one run every statement's table holds every declared column |
| Import.RunSettled | classes/Models/DB.php:136-157 | against a catalog that already holds every declared column, a run issues no ALTER |
| Import.SecondRunIsNoop | classes/Models/DB.php:136-157 | running the loop a second time on the catalog the first run left issues no ALTER (with names compared as strings, see the finding) |
| Import.PrepareFails | classes/Models/DB.php:127-129 | purging, rewriting and inspecting fails exactly when some extracted statement, once rewritten, holds a line that trims to a lone backtick |
| Import.ImportSql | classes/Models/DB.php:126-157 | the import fails, before any database call, exactly when some rewritten statement holds a lone-backtick line; otherwise, when the schema sync never drops anything, the import never drops a table or a column |
| Import.ImportTwiceIsNoop | classes/Models/DB.php:126-157 | when the dump inspects without error and the schema sync creates every statement's table, importing it twice succeeds both times and the second import issues no ALTER |
| Import.MissingNoneLive | classes/Models/DB.php:151-155 | against an empty live column list every declared column is selected, in order |
| Import.UnnamedTableAltersEveryRun | classes/Models/DB.php:142-155 | a statement whose table name did not match is looked up and altered as the table "", so when no table "" exists it gets one ALTER per declared column on every run and the catalog is left as the schema sync made it |
| ArrayKeys.CanonicalDigitsInjective | classes/Models/DB.php:95 | two decimal digit strings without leading zeros that have the same value are the same string |
| ArrayKeys.KeyOfInjective | classes/Models/DB.php:95 | PHP stores integer-like names under their integer value; distinct column names still land on distinct array keys, so keying the map by name loses nothing |
| ArrayKeys.MissingAsWritten | classes/Models/DB.php:151-153 | the loop as written selects a column when its name is not live or when its name became an integer key |
| ArrayKeys.AsWrittenAgreesOnTextNames | classes/Models/DB.php:151-153 | for names that stay string keys, the loop as written and `Import.Missing` agree |
| ArrayKeys.AsWrittenReaddsIntegerNamedColumn | classes/Models/DB.php:151-153 | a table that already has a column named `7` still gets an ALTER for it from the loop as written, and none from `Import.Missing` |

## Left out

- `getLimit` and `getPage` (classes/Models/DB.php:166-181) are not modelled. They depend on `_Number::getInt` and the WordPress `apply_filters` hook registry, and are not part of the import.
- `dbDelta`, `$wpdb->get_col`, `$wpdb->prepare` and `$wpdb->query` are host-framework calls:
  - `dbDelta` is a parameter.
  - The `INFORMATION_SCHEMA` query is a catalog lookup, and an unknown table has no columns.
  - An ALTER against a table the catalog does not hold changes nothing (`$wpdb->query` reports the failure and returns false).
- The `include_once` of `wp-admin/includes/upgrade.php` (classes/Models/DB.php:132) is an effect on the PHP runtime only.
- `global $wpdb` and `Main::$configs` become the `Config` value.
- `PHP_EOL` is taken to be `"\n"`. A `"\r"` left at the end of a line is stripped by `trim` anyway.
- PCRE is not modelled in general. The two patterns are hand-written scanners. Caseless matching folds ASCII letters only, as PCRE does without UTF-8 mode.
- The ValueError for a trimmed line equal to a lone backtick follows PHP 8 `strpos` semantics. PHP 7 returned false with a warning instead, and that version is not modelled.
- `empty($line)` is also true for the line `"0"`. Such a line does not start with a backtick, so it is skipped either way; the model tests only for emptiness.
- Database errors, such as a duplicate column from a concurrent import, are not modelled. Nor is the absence of a transaction around the ALTERs: each ALTER is applied in order, and nothing fails midway.
- Import.Missing: the loop is modelled comparing column names as strings, which is what it evidently intends. `Import.RunSettled`, `Import.SecondRunIsNoop` and `Import.ImportTwiceIsNoop` are proved for that version. The selection as written, where an integer-like name such as `7` is never found, is `ArrayKeys.MissingAsWritten`, and it re-issues that ALTER on every run.
- PHP strings are byte strings; the model uses `seq<char>`. This matters only when a column line has no backtick at index 2 or later: `substr($line, 1, -1)` then drops the last byte, which cuts a multi-byte last character, where the model drops the whole character.
- Rewrite.ApplyDynamics: re-running the rewrite on its own output is not claimed to be a no-op. An inserted value can combine with neighbouring text into a fresh placeholder.

## Findings

| source | as written | input that shows it | evidently intended | confidence | as-written member | corrected member |
|---|---|---|---|---|---|---|
| classes/Models/DB.php:95, classes/Models/DB.php:151-153 | `$columns[$column_name]` stores a name like `7` under the integer key 7. `foreach` hands back the integer, and `in_array($column, $current_columns, true)` compares it strictly against the string names the catalog returns, so the comparison never succeeds | a table that already has a column named `7`, imported again: an ALTER adds `7` again on every run, and the database rejects it as a duplicate column | a column is added only when its name is not among the live column names | not executed | ArrayKeys.MissingAsWritten, ArrayKeys.AsWrittenReaddsIntegerNamedColumn | Import.Missing |
