# Test-trait helpers: a Dafny model

The library provides PHPUnit helper traits for testing PHP applications that
use a database and JSON HTTP responses. This project models the logic inside
four of them. Inserts, fetch results and the assertion primitives they call
become inputs or plain comparisons.

- **Fixture insertion** (`FixtureTestTrait`).
  - `insertFixture` normalises its variadic override sets: a 2-D first argument is unwrapped, and no arguments becomes one empty set.
  - It refuses a fixture without `records` or `table`.
  - For each set it builds a row from a fresh copy of `records[0]` with `addCustomAttributesToRow`: the template's `id` is dropped, override keys already present are overwritten in place, and new keys are appended.
  - It inserts each row and returns `['id' => id] + row`: one row for a single set, a list otherwise.
- **Partial JSON match** (`assertPartialJsonData`). The response data is cut down to the expected data's keys, one level into nested arrays, and then compared with `assertEquals`.
- **Row look-ups** (`DatabaseTableTestTrait`).
  - The prepared statements: SQL text and bound parameters.
  - The default select list built from the expected row's keys.
  - How a fetch result becomes a row, `[]`, a count, a `DomainException`, or an assertion verdict.
- **Finder extension** (`DatabaseTableExtensionTestTrait`).
  - The three finders' statements and the backtick-quoted default select list.
  - The loop that checks every row found equals the expected row.

Files:

| file | module | contents |
|---|---|---|
| `wrappers.dfy` | `Wrappers` | `Option`, `Result` |
| `php_text.dfy` | `PhpText` | `implode`, decimal text of integers, the `(int)` cast of strings, small text parsers |
| `php_value.dfy` | `Php` | PHP values and ordered arrays, and the array primitives: lookup, `isset`, `??`, assignment, `unset`, `+`, `array_intersect_key`. Also `assertEquals` on arrays. |
| `fixture.dfy` | `Fixture` | `insertFixture`, `addCustomAttributesToRow` |
| `partial_json.dfy` | `PartialJson` | `assertPartialJsonData` |
| `sql.dfy` | `Sql` | select clauses, statements, fetch results, statement reader |
| `database_table.dfy` | `DatabaseTable` | `DatabaseTableTestTrait` |
| `database_table_extension.dfy` | `DatabaseTableExtension` | `DatabaseTableExtensionTestTrait` |

A PHP array is modelled as a sequence of key/value entries. `Key` is
`IntKey | StrKey` and `Value` is `Null | Bool | Int | Str | Arr`. Every real
PHP array has distinct keys, and string keys that look like integers are
already normalised (`Php.WellFormed`). The operations accept any sequence;
the lemmas that need distinct keys ask for them.

Replies to `insertFixtureRow` come in as a sequence consumed in order. Each is
a generated id or a database rejection. What `fetch` returns (no row, or a
row) and the rows `fetchAll` returns are also inputs.

## Model

| member | source | states |
|---|---|---|
| `Php.Get` | src/Trait/HttpJsonTestTrait.php:116 | `$a[$k]` finds a value exactly when `$k` is one of the array's keys |
| `Php.Coalesce` | src/Trait/HttpJsonTestTrait.php:123 | `$a[$k] ?? null` gives the stored value when it is set and not null, and null otherwise |
| `Php.AssignKeys` | src/Trait/FixtureTestTrait.php:86 | `$row[$k] = $v` keeps the key order for an existing key and appends a new key at the end; keys stay distinct |
| `Php.AssignGet` | src/Trait/FixtureTestTrait.php:86 | as a map, the assignment changes the value under `$k` only |
| `Php.AssignNew` | src/Trait/FixtureTestTrait.php:86 | assigning a new key appends exactly one entry |
| `Php.AssignExisting` | src/Trait/FixtureTestTrait.php:86 | assigning an existing key replaces that entry in place and touches no other |
| `Php.Assign` | src/Trait/FixtureTestTrait.php:86 | `$a[$k] = $v` on an ordered array; what it does is stated by the four Assign lemmas below |
| `Php.Unset` | src/Trait/FixtureTestTrait.php:81 | `unset($row['id'])` removes the key and leaves every other key's value alone. An absent key changes nothing; with distinct keys exactly that key's entry is taken out and the rest keep their order |
| `Php.Union` | src/Trait/FixtureTestTrait.php:57 | `$l + $r` is all of `$l` followed by exactly `$r`'s entries whose key `$l` lacks, in `$r`'s order; on a shared key the left value wins |
| `Php.IntersectKey` | src/Trait/HttpJsonTestTrait.php:118 | `array_intersect_key($a, $b)` keeps exactly `$a`'s entries whose key `$b` has, with `$a`'s values and in `$a`'s order |
| `Php.RestrictMembers` | src/Trait/HttpJsonTestTrait.php:118 | `array_intersect_key` keeps whole entries of `$a`: exactly those whose key `$b` has |
| `Php.KeyOf` | src/Trait/DatabaseTableTestTrait.php:111 | a string subscript always addresses a normalised key |
| `Php.KeyTextRoundTrip` | src/Trait/DatabaseTableTestTrait.php:33 | writing a stored key out as a column name and reading that name back as a subscript reaches the same key |
| `Php.IntCast` | src/Trait/DatabaseTableTestTrait.php:142 | `(int)` gives 0 for null, false and `[]`, an integer unchanged, and the integer a decimal string writes |
| `Php.EquivRefl` | src/Trait/HttpJsonTestTrait.php:127 | every well-formed value is `assertEquals` to itself |
| `Php.EquivPermutation` | src/Trait/DatabaseTableTestTrait.php:86-90 | `assertEquals` ignores key order: two arrays holding the same entries compare equal |
| `PhpText.Join` | src/Trait/DatabaseTableTestTrait.php:52 | `implode(', ', ...)` of one column is that column and of none is the empty text; JoinSplitRoundTrip states the general case |
| `PhpText.JoinSplitRoundTrip` | src/Trait/DatabaseTableTestTrait.php:52 | `implode(', ', $columns)` loses nothing: splitting the text at ", " gives the same columns back when no column holds a comma |
| `PhpText.IntRoundTrip` | src/Trait/DatabaseTableTestTrait.php:61 | an `int` written into a string reads back as the same integer |
| `PhpText.CastRoundTrip` | src/Trait/DatabaseTableTestTrait.php:142 | `(int)` of the decimal text of an integer is that integer |
| `Fixture.IsMultiRowCall` | src/Trait/FixtureTestTrait.php:31 | the test `isset($attributes[0][0]) && is_array($attributes[0][0])`; its effect is stated by ExtraArgumentsIgnored and OneElementWrapperIsSingleRow |
| `Fixture.AttributeSets` | src/Trait/FixtureTestTrait.php:29-39 | normalisation always leaves at least one attribute set to insert |
| `Fixture.NamedSets` | src/Trait/FixtureTestTrait.php:29-39 | two plain override arrays passed as two arguments become two attribute sets, in order |
| `Fixture.ExtraArgumentsIgnored` | src/Trait/FixtureTestTrait.php:31-34 | when the first argument holds an array at key `0`, it alone supplies the sets; further arguments make no difference |
| `Fixture.NoOverridesIsOneEmptySet` | src/Trait/FixtureTestTrait.php:37-39 | calling with no overrides behaves exactly like calling with one empty override set |
| `Fixture.ApplyAttributes` | src/Trait/FixtureTestTrait.php:84-87 | the override loop keeps the row's keys distinct |
| `Fixture.ApplyAttributesIsMerge` | src/Trait/FixtureTestTrait.php:84-87 | the override loop computes the reference merge: base entries in place with overridden values, then the new override keys in override order |
| `Fixture.AddCustomAttributesToRow` | src/Trait/FixtureTestTrait.php:78-91 | the built row has distinct keys when the template does |
| `Fixture.MergeOrder` | src/Trait/FixtureTestTrait.php:78-91 | the built row is the template without `id`, overridden in place, followed by the override keys the template lacks |
| `Fixture.MergeLookup` | src/Trait/FixtureTestTrait.php:78-91 | per key: the override's value, else the template's, and no `id` unless the override sets one |
| `Fixture.RenamedAdmin` | src/Trait/FixtureTestTrait.php:78-91 | worked example: overriding `name` on an admin template with an id gives `[name => who, role => admin]` |
| `Fixture.WithId` | src/Trait/FixtureTestTrait.php:55-57 | the returned row starts with the generated id, its `id` is that id, and every other key keeps the built row's value |
| `Fixture.WithIdIsUnsetId` | src/Trait/FixtureTestTrait.php:57 | `['id' => $id] + $row` is the id entry followed by the row with its own `id` taken out, the other entries in their order |
| `Fixture.WithIdFresh` | src/Trait/FixtureTestTrait.php:57 | a built row without `id` comes back as the id entry followed by the row unchanged |
| `Fixture.OverrideIdNotReturned` | src/Trait/FixtureTestTrait.php:55-57 | an `id` in the overrides reaches the insert, but the returned row carries the generated id instead |
| `Fixture.InsertRows` | src/Trait/FixtureTestTrait.php:51-59 | one insert per set, in order, each answered by its own reply. A set that is not an array stops the loop with a TypeError before its insert; a rejected insert stops it with that PDO error |
| `Fixture.InsertRowsContents` | src/Trait/FixtureTestTrait.php:51-59 | insert `i` is set `i` merged into a fresh template: no set's overrides reach another insert |
| `Fixture.InsertRowsCompletes` | src/Trait/FixtureTestTrait.php:51-59 | the loop runs to the end exactly when every set is an array and every insert succeeds |
| `Fixture.InsertRowsAllSucceed` | src/Trait/FixtureTestTrait.php:51-59 | when all inserts succeed there is one insert per set, built from that set, with that set's id |
| `Fixture.Collected` | src/Trait/FixtureTestTrait.php:57-58 | one collected row per generated id |
| `Fixture.InsertFixture` | src/Trait/FixtureTestTrait.php:27-68 | a refused fixture issues no insert |
| `Fixture.MissingPropertiesRefused` | src/Trait/FixtureTestTrait.php:44-48 | a fixture without `records` or `table` raises InvalidArgumentException with the class-name message, before any insert |
| `Fixture.InsertFixtureSucceeds` | src/Trait/FixtureTestTrait.php:50-67 | on success: one insert per set, in order, each from a fresh `records[0]` and its own set. The result is the single row when there is one set, else the list, and each row is its generated id in front of its built row |
| `Fixture.OnlyFirstRecord` | src/Trait/FixtureTestTrait.php:53 | only `records[0]` matters: dropping every later template record changes nothing |
| `Fixture.OneElementWrapperIsSingleRow` | src/Trait/FixtureTestTrait.php:62-64 | `[[$set]]` behaves exactly like `[$set]`: one insert, and the row itself comes back, not a one-element list |
| `PartialJson.Pick` | src/Trait/HttpJsonTestTrait.php:116-123 | one filtered value: null for a missing or null key; when both sides are arrays, exactly the response sub-array's entries under the expected sub-keys, in the response's order; otherwise the response value unchanged |
| `PartialJson.FilterLoop` | src/Trait/HttpJsonTestTrait.php:111-125 | the assignment loop keeps the keys it starts with, in front, and ends holding every expected key |
| `PartialJson.Filtered` | src/Trait/HttpJsonTestTrait.php:111-125 | the filtered data has exactly the expected data's keys, in the expected order |
| `PartialJson.FilterLoopIsFiltered` | src/Trait/HttpJsonTestTrait.php:111-125 | the assignment loop builds exactly that filtered data |
| `PartialJson.NestedCut` | src/Trait/HttpJsonTestTrait.php:116-118 | when both sides are arrays, the filtered value holds exactly the response sub-array's entries under keys the expected sub-array has, with their values whole, in the response sub-array's order |
| `PartialJson.ValueCarried` | src/Trait/HttpJsonTestTrait.php:123 | otherwise the response value is kept as it is, or null when missing or null |
| `PartialJson.NullExpectation` | src/Trait/HttpJsonTestTrait.php:123 | under the strict scalar comparison of Php.Equiv, an expected null matches a missing or null response key, and nothing else |
| `PartialJson.IntersectEquiv` | src/Trait/HttpJsonTestTrait.php:118 | a cut-down sub-array equals the expected sub-array exactly when the response sub-array has every expected sub-key with an equal value |
| `PartialJson.PickEquiv` | src/Trait/HttpJsonTestTrait.php:116-123 | one filtered entry equals its expected entry exactly when the response agrees on that key |
| `PartialJson.PartialMatchIff` | src/Trait/HttpJsonTestTrait.php:111-127 | the final `assertEquals` passes exactly when every expected entry agrees with the response (both directions) |
| `PartialJson.AssertPartialJsonData` | src/Trait/HttpJsonTestTrait.php:108-128 | the helper passes or fails, and it passes exactly when the response agrees with the expected data |
| `PartialJson.OnlyExpectedKeysMatter` | src/Trait/HttpJsonTestTrait.php:113-125 | response keys the expected data does not name change neither the filtered data nor the verdict |
| `PartialJson.FilterIdempotent` | src/Trait/HttpJsonTestTrait.php:113-125 | filtering already-filtered data again changes nothing |
| `PartialJson.ExpectedMatchesItself` | src/Trait/HttpJsonTestTrait.php:111-127 | a response equal to the expected data passes |
| `PartialJson.ExtraKeyOneLevelDown` | src/Trait/HttpJsonTestTrait.php:116-118 | an extra key inside a response sub-array is ignored |
| `PartialJson.ExtraKeyTwoLevelsDown` | src/Trait/HttpJsonTestTrait.php:118 | an extra key two levels down fails the match: deeper levels are compared whole |
| `Sql.ClauseText` | src/Trait/DatabaseTableTestTrait.php:52 | a string clause is used unchanged, and a one-column list is that column's text |
| `Sql.ClauseTextSplits` | src/Trait/DatabaseTableTestTrait.php:52 | a non-empty, comma-free column list is joined so that splitting at ", " recovers it |
| `Sql.Falsy` | src/Trait/DatabaseTableTestTrait.php:33 | PHP's truthiness of a select clause: null, `''`, `'0'` and `[]` are false; Sql.OrDefault states its use |
| `Sql.OrDefault` | src/Trait/DatabaseTableTestTrait.php:33 | `$selectClause ?: $default` takes the default for `null`, `''`, `'0'` and `[]`, and the given clause otherwise |
| `Sql.StatementRoundTrip` | src/Trait/DatabaseTableTestTrait.php:54 | a statement ``SELECT <clause> FROM `<table>`<tail>`` reads back into its clause and table |
| `DatabaseTable.RowByIdQuery` | src/Trait/DatabaseTableTestTrait.php:52-56 | the by-id statement reads back into the select text and the table, and binds the id as `id` |
| `DatabaseTable.IdOnlyBound` | src/Trait/DatabaseTableTestTrait.php:54-56 | the id never enters the SQL text, only the bound parameters |
| `DatabaseTable.NotFoundMessage` | src/Trait/DatabaseTableTestTrait.php:61 | the message `Row not found: <table>.<id>`; NotFoundMessageRoundTrip states that it names the table and the id |
| `DatabaseTable.NotFoundMessageRoundTrip` | src/Trait/DatabaseTableTestTrait.php:61 | the not-found message names the table and the id, even for a table name with dots |
| `DatabaseTable.GetTableRowById` | src/Trait/DatabaseTableTestTrait.php:58-64 | a non-empty fetched row is returned unchanged; no row or an empty row raises DomainException naming the table and id |
| `DatabaseTable.FindRowByIdQuery` | src/Trait/DatabaseTableTestTrait.php:169-171 | `findTableRowById` prepares the by-id statement with `*` |
| `DatabaseTable.FindTableRowById` | src/Trait/DatabaseTableTestTrait.php:173 | no row gives `[]`; a row comes back unchanged |
| `DatabaseTable.FindAgreesWithGet` | src/Trait/DatabaseTableTestTrait.php:167-174 | `findTableRowById` returns the row `getTableRowById` returns, and `[]` where that one raises |
| `DatabaseTable.AssertTableRowExists` | src/Trait/DatabaseTableTestTrait.php:154-157 | passes exactly when a non-empty row is fetched |
| `DatabaseTable.AssertTableRowNotExists` | src/Trait/DatabaseTableTestTrait.php:185-188 | passes exactly when no row or an empty row is fetched |
| `DatabaseTable.ExistsNotExistsComplementary` | src/Trait/DatabaseTableTestTrait.php:154-188 | for one fetch result, exactly one of the pair passes |
| `DatabaseTable.CountQuery` | src/Trait/DatabaseTableTestTrait.php:138 | the count statement reads back into `COUNT(*) AS amount` and the table, with nothing bound |
| `DatabaseTable.GetTableRowCount` | src/Trait/DatabaseTableTestTrait.php:140-142 | no row, or no `amount`, gives 0 |
| `DatabaseTable.CountReadBack` | src/Trait/DatabaseTableTestTrait.php:142 | an `amount` given as decimal text or as an integer is read back exactly |
| `DatabaseTable.AssertTableRowCount` | src/Trait/DatabaseTableTestTrait.php:124-127 | passes exactly when the expected number equals the count; with no row, exactly when it is 0 |
| `DatabaseTable.DefaultColumns` | src/Trait/DatabaseTableTestTrait.php:33 | one column per expected key |
| `DatabaseTable.DefaultSelectNamesKeys` | src/Trait/DatabaseTableTestTrait.php:33 | with a falsy clause, the statement's select list names exactly the expected row's keys, in order, unescaped |
| `DatabaseTable.AssertTableRow` | src/Trait/DatabaseTableTestTrait.php:24-36 | passes exactly when the fetched row is identical (same order, same values) to a non-empty expected row. It raises the not-found DomainException exactly when nothing is fetched |
| `DatabaseTable.AssertTableRowEquals` | src/Trait/DatabaseTableTestTrait.php:79-91 | passes exactly when a row is fetched and `assertEquals` holds; raises exactly when nothing is fetched |
| `DatabaseTable.SameImpliesEquals` | src/Trait/DatabaseTableTestTrait.php:86-90 | whatever passes `assertTableRow` passes `assertTableRowEquals` |
| `DatabaseTable.ColumnOrder` | src/Trait/DatabaseTableTestTrait.php:86-90 | the same columns in another order pass `assertTableRowEquals` and fail `assertTableRow` |
| `DatabaseTable.FieldValue` | src/Trait/DatabaseTableTestTrait.php:111 | `$row[$field]` is the column's value, null when the column is missing |
| `DatabaseTable.AssertTableRowValue` | src/Trait/DatabaseTableTestTrait.php:104-113 | selects exactly the named column and passes exactly when that column's value is identical to the expected one |
| `DatabaseTableExtension.ByColumnQuery` | src/Trait/DatabaseTableExtensionTestTrait.php:31-35 | the value is bound as `whereValue` |
| `DatabaseTableExtension.ByColumnRoundTrip` | src/Trait/DatabaseTableExtensionTestTrait.php:33 | the by-column statement reads back into the select text, the table and the column |
| `DatabaseTableExtension.WhereQuery` | src/Trait/DatabaseTableExtensionTestTrait.php:59-63 | join and where texts are spliced in verbatim after the table; nothing is bound |
| `DatabaseTableExtension.WhereDefaults` | src/Trait/DatabaseTableExtensionTestTrait.php:52-61 | with every default the text is ``SELECT * FROM `<table>`  WHERE true;``, two spaces included |
| `DatabaseTableExtension.LastInsertedQuery` | src/Trait/DatabaseTableExtensionTestTrait.php:77 | the statement reads back into `*` and the table, with nothing bound |
| `DatabaseTableExtension.LastInsertedText` | src/Trait/DatabaseTableExtensionTestTrait.php:77 | the exact text ``SELECT * FROM `<table>` ORDER BY id DESC LIMIT 1`` |
| `DatabaseTableExtension.FindLastInsertedTableRowAsWritten` | src/Trait/DatabaseTableExtensionTestTrait.php:81 | as written, a row comes back unchanged and no row does not return at all |
| `DatabaseTableExtension.EmptyTableThrows` | src/Trait/DatabaseTableExtensionTestTrait.php:81 | as written, an empty table raises a TypeError |
| `DatabaseTableExtension.FindLastInsertedTableRow` | src/Trait/DatabaseTableExtensionTestTrait.php:81 | corrected: no row gives `[]`, a row comes back unchanged |
| `DatabaseTableExtension.LastInsertedCorrected` | src/Trait/DatabaseTableExtensionTestTrait.php:81 | the corrected helper agrees with the written one wherever that returns, and with `findTableRowById` everywhere |
| `DatabaseTableExtension.BacktickColumns` | src/Trait/DatabaseTableExtensionTestTrait.php:110 | one column per expected key |
| `DatabaseTableExtension.BacktickSelectNamesKeys` | src/Trait/DatabaseTableExtensionTestTrait.php:106-111 | with a falsy clause, the statement's select list is the expected keys in order, each in backticks |
| `DatabaseTableExtension.AssertAllSame` | src/Trait/DatabaseTableExtensionTestTrait.php:112-118 | the loop passes exactly when every row is identical to the expected row, and fails otherwise |
| `DatabaseTableExtension.AssertTableRowsByColumn` | src/Trait/DatabaseTableExtensionTestTrait.php:98-119 | passes exactly when every found row is identical to the expected row, and fails otherwise |
| `DatabaseTableExtension.NoRowsPasses` | src/Trait/DatabaseTableExtensionTestTrait.php:112-118 | with no rows found, the helper passes |

## Left out

- Executing statements. `createPreparedStatement`, `createQueryStatement`, PDO `fetch`/`fetchAll` and `insertFixtureRow` belong to a trait that is not part of this model. Their results are inputs, and statement errors other than a rejected insert are not modelled.
- `new $fixture()` and `$fixture::class`. A fixture is a record of its class name and its `table` and `records` properties; src/Interface/FixtureInterface.php is not part of this model.
- Fixture.InsertReply: an insert's id is given already cast with `(int)`. The text `lastInsertId` returns is not modelled.
- Fixture.InsertFixture: an empty `records` reaches `records[0]` and gives the TypeError of passing null to an `array` parameter. The warning PHP prints first is not modelled.
- Fixture.Collected: states only the number of rows; their contents are stated by `Fixture.InsertFixtureSucceeds`.
- Fixture.AttributeSets: the contract states only that there is at least one set. Which sets they are is stated by Fixture.NamedSets, Fixture.ExtraArgumentsIgnored and Fixture.NoOverridesIsOneEmptySet.
- DatabaseTable.DefaultColumns: the contract states only the number of columns. That they are the expected keys, in order, is stated by DatabaseTable.DefaultSelectNamesKeys.
- DatabaseTableExtension.BacktickColumns: the contract states only the number of columns. That they are the expected keys in backticks, in order, is stated by DatabaseTableExtension.BacktickSelectNamesKeys.
- Php.Equiv: `assertEquals` is modelled as PHPUnit's key-order-insensitive comparison of arrays with strict equality of scalars. PHPUnit's loose scalar comparison (`1 == "1"`, `null == false`) is not modelled, so the model can fail a comparison PHPUnit would pass.
- Php.IntCast: covers the cast of null, booleans, integers, arrays, and strings written as a sign followed by digits. Floats, leading whitespace, exponents and the 64-bit limits are not modelled.
- Php.KeyOf: every canonical decimal string becomes an integer key. PHP does this only within PHP_INT_MIN..PHP_INT_MAX; integers here are unbounded, so longer digit strings are not kept as string keys.
- DatabaseTable.FieldValue: a column missing from the fetched row gives null. PHP first raises an "Undefined array key" warning, which PHPUnit turns into an exception by default; that is not modelled. It happens, for instance, with a backtick-quoted field name, which never matches the row's key.
- Floats are not a `Value`.
- Select lists given as arrays hold strings. Other values converted by `implode` are not modelled.
- JSON and PSR-7 handling (`createJsonRequest`, `getJsonData`, `assertJsonData`, `assertJsonContentType`) are thin wrappers over `json_encode`/`json_decode`. `assertJsonValue` depends on `getArrayValue` from a trait that is not part of this model.
- Assertion messages (`$message`) do not change any verdict and are dropped.

## Findings

| source | as written | input that shows it | evidently intended | confidence | as-written member | corrected member |
|---|---|---|---|---|---|---|
| src/Trait/DatabaseTableExtensionTestTrait.php:81 | `return $statement->fetch(PDO::FETCH_ASSOC) ?? [];` — `??` replaces only null, and `fetch` returns `false` when no row is left | an empty table: `fetch` gives `false`, which reaches the `array` return type and raises a TypeError | `?: []` as in `findTableRowById`, giving `[]` for an empty table | high (not executed) | `DatabaseTableExtension.EmptyTableThrows` | `DatabaseTableExtension.LastInsertedCorrected` |
