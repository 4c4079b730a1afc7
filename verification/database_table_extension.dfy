/**
 * DatabaseTableExtensionTestTrait: the statements of the three finders,
 * the backtick-quoted default select list, and the assertion that every
 * row found by a column value equals the expected row. Fetch results are
 * inputs.
 */
module DatabaseTableExtension {
  import opened Wrappers
  import opened PhpText
  import opened Php
  import opened Sql
  import DatabaseTable

  const ByColumnTail: string := "` = :whereValue"
  const LastInsertedTail: string := "` ORDER BY id DESC LIMIT 1"

  // ---------------------------------------------------------------------
  // findTableRowsByColumn

  /** The statement of `findTableRowsByColumn($table, $whereColumn, $whereValue, $selectClause)`. */
  function ByColumnQuery(table: string, column: string, value: Value, select: Clause): (q: Query)
    ensures q.params == [Entry(StrKey("whereValue"), value)]
  {
    Query(SelectFrom(ClauseText(select), table) + "` WHERE `" + column + ByColumnTail,
          [Entry(StrKey("whereValue"), value)])
  }

  /** Reads a by-column statement back into its clause, table and column. */
  function ParseByColumn(sql: string): Option<(string, string, string)> {
    var front :- StripSuffix(sql, ByColumnTail);
    var (rest, column) :- SplitLast(front, '`');
    var head :- StripSuffix(rest, "` WHERE ");
    var (clause, table) :- ParseSelectFrom(head);
    Some((clause, table, column))
  }

  /** The statement names the select list, the table and the column it was
      built from, and nothing else: the value is only bound. */
  lemma ByColumnRoundTrip(table: string, column: string, value: Value, select: Clause)
    requires '`' !in table && '`' !in column
    ensures ParseByColumn(ByColumnQuery(table, column, value, select).sql) == Some((ClauseText(select), table, column))
  {
    var head := SelectFrom(ClauseText(select), table);
    var sql := ByColumnQuery(table, column, value, select).sql;
    assert sql == (head + "` WHERE " + ['`'] + column) + ByColumnTail;
    StripSuffixOf(head + "` WHERE " + ['`'] + column, ByColumnTail);
    SplitLastOf(head + "` WHERE ", '`', column);
    StripSuffixOf(head, "` WHERE ");
    SelectFromRoundTrip(ClauseText(select), table);
  }

  // ---------------------------------------------------------------------
  // findTableRowsWhere

  /** The statement of `findTableRowsWhere($table, $whereString, $selectClause, $joinString)`:
      the join and where texts are spliced in verbatim, nothing is bound. */
  function WhereQuery(table: string, where: string, select: Clause, join: string): (q: Query)
    ensures q.params == []
    ensures '`' !in table ==>
      ParseStatement(q.sql, "` " + join + " WHERE " + where + ";") == Some((ClauseText(select), table))
  {
    var tail := "` " + join + " WHERE " + where + ";";
    StatementRoundTrip(ClauseText(select), table, tail);
    Query(SelectFrom(ClauseText(select), table) + tail, [])
  }

  /** With every default (`'true'`, `'*'`, `''`) the statement selects all rows,
      and the empty join leaves two spaces before WHERE. */
  lemma WhereDefaults(table: string)
    ensures WhereQuery(table, "true", Raw("*"), "").sql == "SELECT * FROM `" + table + "`  WHERE true;"
  {
  }

  // ---------------------------------------------------------------------
  // findLastInsertedTableRow

  function LastInsertedQuery(table: string): (q: Query)
    ensures q.params == []
    ensures '`' !in table ==> ParseStatement(q.sql, LastInsertedTail) == Some(("*", table))
  {
    StatementRoundTrip("*", table, LastInsertedTail);
    Query(SelectFrom("*", table) + LastInsertedTail, [])
  }

  lemma LastInsertedText(table: string)
    ensures LastInsertedQuery(table).sql == "SELECT * FROM `" + table + "` ORDER BY id DESC LIMIT 1"
  {
  }

  /** `return $statement->fetch(PDO::FETCH_ASSOC) ?? [];` as written: `??`
      only replaces null, so the `false` of an empty table reaches the
      `array` return type. */
  function FindLastInsertedTableRowAsWritten(fetch: Fetch): (r: Result<PhpArray, PhpError>)
    ensures r.Ok? <==> fetch.Row?
    ensures r.Ok? ==> r.value == fetch.row
  {
    match fetch
    case NoRow => Err(TypeError)
    case Row(row) => Ok(row)
  }

  /** On an empty table the helper as written throws instead of returning `[]`. */
  lemma EmptyTableThrows()
    ensures FindLastInsertedTableRowAsWritten(NoRow) == Err(TypeError)
  {
  }

  /** The evidently intended `fetch() ?: []`, the form `findTableRowById` uses. */
  function FindLastInsertedTableRow(fetch: Fetch): (r: PhpArray)
    ensures fetch.NoRow? ==> r == []
    ensures fetch.Row? ==> r == fetch.row
  {
    DatabaseTable.FindTableRowById(fetch)
  }

  /** The corrected helper never throws, agrees with the written one
      wherever that one returns, and reads a fetch exactly as
      `findTableRowById` does. */
  lemma LastInsertedCorrected(fetch: Fetch)
    ensures FindLastInsertedTableRowAsWritten(fetch).Ok? ==>
      FindLastInsertedTableRow(fetch) == FindLastInsertedTableRowAsWritten(fetch).value
    ensures FindLastInsertedTableRow(fetch) == DatabaseTable.FindTableRowById(fetch)
  {
  }

  // ---------------------------------------------------------------------
  // assertTableRowsByColumn

  /** `array_map(fn ($key) => "`$key`", array_keys($expectedRow))`. */
  function BacktickColumns(expectedRow: PhpArray): (c: Clause)
    ensures c.Columns? && |c.names| == |expectedRow|
  {
    Columns(seq(|expectedRow|, i requires 0 <= i < |expectedRow| => "`" + KeyText(expectedRow[i].key) + "`"))
  }

  /** Removes one pair of surrounding backticks. */
  function Unquote(name: string): Option<string> {
    var inner :- StripPrefix(name, "`");
    StripSuffix(inner, "`")
  }

  /** The default select list of `assertTableRowsByColumn` names exactly the
      expected row's keys, each in backticks, in order: reading the
      statement back, splitting the list and unquoting each name gives the
      keys again. */
  lemma BacktickSelectNamesKeys(expectedRow: PhpArray, table: string, column: string, value: Value, select: Option<Clause>)
    requires Falsy(select) && '`' !in table && '`' !in column
    requires |expectedRow| > 0
    requires forall i :: 0 <= i < |expectedRow| ==> NormalKey(expectedRow[i].key) && ',' !in KeyText(expectedRow[i].key)
    ensures var parsed := ParseByColumn(ByColumnQuery(table, column, value, OrDefault(select, BacktickColumns(expectedRow))).sql);
      && parsed.Some?
      && |SplitList(parsed.value.0)| == |expectedRow|
      && forall i :: 0 <= i < |expectedRow| ==>
           Unquote(SplitList(parsed.value.0)[i]).Some?
           && KeyOf(Unquote(SplitList(parsed.value.0)[i]).value) == expectedRow[i].key
  {
    var c := BacktickColumns(expectedRow);
    ByColumnRoundTrip(table, column, value, c);
    forall i | 0 <= i < |c.names| ensures ',' !in c.names[i] {
      assert c.names[i] == "`" + KeyText(expectedRow[i].key) + "`";
    }
    ClauseTextSplits(c);
    forall i | 0 <= i < |expectedRow|
      ensures Unquote(c.names[i]) == Some(KeyText(expectedRow[i].key))
      ensures KeyOf(KeyText(expectedRow[i].key)) == expectedRow[i].key
    {
      var t := KeyText(expectedRow[i].key);
      StripPrefixOf("`", t + "`");
      assert c.names[i] == "`" + (t + "`");
      StripSuffixOf(t, "`");
      KeyTextRoundTrip(expectedRow[i].key);
    }
  }

  /** The `foreach ($rows as $row) $this->assertSame($expectedRow, $row)`
      loop: the first mismatch fails the test. */
  method AssertAllSame(expectedRow: PhpArray, rows: seq<PhpArray>) returns (v: Verdict)
    ensures v.Passed? <==> forall i :: 0 <= i < |rows| ==> rows[i] == expectedRow
    ensures v.Passed? || v.Failed?
  {
    var i := 0;
    while i < |rows|
      invariant 0 <= i <= |rows|
      invariant forall j :: 0 <= j < i ==> rows[j] == expectedRow
    {
      if rows[i] != expectedRow {
        return Failed;
      }
      i := i + 1;
    }
    return Passed;
  }

  /** `assertTableRowsByColumn`: find the rows by the column value, then
      compare each with the expected row. */
  method AssertTableRowsByColumn(expectedRow: PhpArray, table: string, column: string, value: Value,
                                 select: Option<Clause>, rows: seq<PhpArray>)
    returns (c: DatabaseTable.Checked)
    ensures c.query == ByColumnQuery(table, column, value, OrDefault(select, BacktickColumns(expectedRow)))
    ensures c.verdict.Passed? <==> forall i :: 0 <= i < |rows| ==> rows[i] == expectedRow
    ensures c.verdict.Passed? || c.verdict.Failed?
  {
    var q := ByColumnQuery(table, column, value, OrDefault(select, BacktickColumns(expectedRow)));
    var v := AssertAllSame(expectedRow, rows);
    c := DatabaseTable.Checked(q, v);
  }

  /** No rows found means no assertion made: the helper passes. */
  method NoRowsPasses(expectedRow: PhpArray, table: string, column: string, value: Value, select: Option<Clause>)
    returns (c: DatabaseTable.Checked)
    ensures c.verdict == Passed
  {
    c := AssertTableRowsByColumn(expectedRow, table, column, value, select, []);
  }
}
