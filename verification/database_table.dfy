/**
 * DatabaseTableTestTrait: the statements the row helpers prepare, and how
 * each helper turns what `fetch` hands back into a row, `[]`, a count, an
 * exception or an assertion verdict. The statement is never executed here:
 * the fetch result is an input.
 */
module DatabaseTable {
  import opened Wrappers
  import opened PhpText
  import opened Php
  import opened Sql

  /** What an assertion helper prepared, and how the assertion ended. */
  datatype Checked = Checked(query: Query, verdict: Verdict)

  const ByIdTail: string := "` WHERE `id` = :id"
  const CountClause: string := "COUNT(*) AS amount"
  const AmountKey: Key := StrKey("amount")

  // ---------------------------------------------------------------------
  // getTableRowById / findTableRowById

  /** The statement of `getTableRowById($table, $id, $selectClause)`. */
  function RowByIdQuery(table: string, id: int, select: Clause): (q: Query)
    ensures q.params == [Entry(StrKey("id"), Int(id))]
    ensures '`' !in table ==> ParseStatement(q.sql, ByIdTail) == Some((ClauseText(select), table))
  {
    StatementRoundTrip(ClauseText(select), table, ByIdTail);
    Query(SelectFrom(ClauseText(select), table) + ByIdTail, [Entry(StrKey("id"), Int(id))])
  }

  /** The id is bound, never written into the text: two ids give the same SQL. */
  lemma IdOnlyBound(table: string, id1: int, id2: int, select: Clause)
    ensures RowByIdQuery(table, id1, select).sql == RowByIdQuery(table, id2, select).sql
    ensures RowByIdQuery(table, id1, select).params != RowByIdQuery(table, id2, select).params <==> id1 != id2
  {
  }

  function NotFoundMessage(table: string, id: int): string {
    "Row not found: " + table + "." + IntToString(id)
  }

  /** Reads a not-found message back into the table and id it names. */
  function ParseNotFound(message: string): Option<(string, int)> {
    var body :- StripPrefix(message, "Row not found: ");
    var (table, digits) :- SplitLast(body, '.');
    var id :- ParseInt(digits);
    Some((table, id))
  }

  /** The message names the table and the id it was asked for, even when the
      table name holds dots. */
  lemma NotFoundMessageRoundTrip(table: string, id: int)
    ensures ParseNotFound(NotFoundMessage(table, id)) == Some((table, id))
  {
    var digits := IntToString(id);
    assert '.' !in digits by {
      forall k | 0 <= k < |digits| ensures digits[k] != '.' {
      }
    }
    assert NotFoundMessage(table, id) == "Row not found: " + (table + ['.'] + digits);
    StripPrefixOf("Row not found: ", table + ['.'] + digits);
    SplitLastOf(table, '.', digits);
    IntRoundTrip(id);
  }

  /** `getTableRowById` after the fetch: an empty result (no row, or an
      empty row) raises DomainException naming the table and id; a row is
      returned unchanged. */
  function GetTableRowById(table: string, id: int, fetch: Fetch): (r: Result<PhpArray, PhpError>)
    ensures r.Ok? <==> fetch.Row? && Truthy(fetch.row)
    ensures r.Ok? ==> r.value == fetch.row
    ensures r.Err? ==> r.error.DomainException? && ParseNotFound(r.error.message) == Some((table, id))
  {
    NotFoundMessageRoundTrip(table, id);
    if fetch.NoRow? || !Truthy(fetch.row) then Err(DomainException(NotFoundMessage(table, id)))
    else Ok(fetch.row)
  }

  /** The statement of `findTableRowById`: the by-id statement selecting `*`. */
  function FindRowByIdQuery(table: string, id: int): (q: Query)
    ensures q == RowByIdQuery(table, id, Raw("*"))
  {
    Query("SELECT * FROM `" + table + "` WHERE `id` = :id", [Entry(StrKey("id"), Int(id))])
  }

  /** `$statement->fetch(PDO::FETCH_ASSOC) ?: []`. */
  function FindTableRowById(fetch: Fetch): (r: PhpArray)
    ensures fetch.NoRow? ==> r == []
    ensures fetch.Row? ==> r == fetch.row
  {
    match fetch
    case NoRow => []
    case Row(row) => row
  }

  /** Whenever `getTableRowById` finds a row, `findTableRowById` finds the
      same one; when it raises, `findTableRowById` gives `[]`. */
  lemma FindAgreesWithGet(table: string, id: int, fetch: Fetch)
    ensures GetTableRowById(table, id, fetch).Ok? ==> FindTableRowById(fetch) == GetTableRowById(table, id, fetch).value
    ensures GetTableRowById(table, id, fetch).Err? ==> FindTableRowById(fetch) == []
  {
  }

  // ---------------------------------------------------------------------
  // assertTableRowExists / assertTableRowNotExists

  function AssertTableRowExists(table: string, id: int, fetch: Fetch): (c: Checked)
    ensures c.query == FindRowByIdQuery(table, id)
    ensures c.verdict.Passed? <==> fetch.Row? && fetch.row != []
    ensures c.verdict.Passed? || c.verdict.Failed?
  {
    Checked(FindRowByIdQuery(table, id), if Truthy(FindTableRowById(fetch)) then Passed else Failed)
  }

  function AssertTableRowNotExists(table: string, id: int, fetch: Fetch): (c: Checked)
    ensures c.query == FindRowByIdQuery(table, id)
    ensures c.verdict.Passed? <==> fetch.NoRow? || fetch.row == []
    ensures c.verdict.Passed? || c.verdict.Failed?
  {
    Checked(FindRowByIdQuery(table, id), if !Truthy(FindTableRowById(fetch)) then Passed else Failed)
  }

  /** For the same fetch result exactly one of the pair passes. */
  lemma ExistsNotExistsComplementary(table: string, id: int, fetch: Fetch)
    ensures AssertTableRowExists(table, id, fetch).verdict.Passed?
        <==> !AssertTableRowNotExists(table, id, fetch).verdict.Passed?
  {
  }

  // ---------------------------------------------------------------------
  // getTableRowCount / assertTableRowCount

  /** The statement of `getTableRowCount`. */
  function CountQuery(table: string): (q: Query)
    ensures q.params == []
    ensures '`' !in table ==> ParseStatement(q.sql, "`;") == Some((CountClause, table))
  {
    StatementRoundTrip(CountClause, table, "`;");
    Query(SelectFrom(CountClause, table) + "`;", [])
  }

  /** `(int)($row['amount'] ?? 0)` with `$row = fetch() ?: []`. */
  function GetTableRowCount(fetch: Fetch): (n: int)
    ensures fetch.NoRow? ==> n == 0
    ensures fetch.Row? && !IsSet(fetch.row, AmountKey) ==> n == 0
  {
    var row := FindTableRowById(fetch);
    IntCast(if IsSet(row, AmountKey) then Get(row, AmountKey).value else Int(0))
  }

  /** A count the driver hands back as decimal text or as an integer is
      read back exactly. */
  lemma CountReadBack(row: PhpArray, n: int)
    requires Get(row, AmountKey) == Some(Str(IntToString(n))) || Get(row, AmountKey) == Some(Int(n))
    ensures GetTableRowCount(Row(row)) == n
  {
    CastRoundTrip(n);
  }

  function AssertTableRowCount(expected: int, table: string, fetch: Fetch): (c: Checked)
    ensures c.query == CountQuery(table)
    ensures c.verdict.Passed? <==> expected == GetTableRowCount(fetch)
    ensures fetch.NoRow? ==> (c.verdict.Passed? <==> expected == 0)
    ensures c.verdict.Passed? || c.verdict.Failed?
  {
    Checked(CountQuery(table), if expected == GetTableRowCount(fetch) then Passed else Failed)
  }

  // ---------------------------------------------------------------------
  // assertTableRow / assertTableRowEquals / assertTableRowValue

  /** `array_keys($expectedRow)` as a select list: the keys' text, unescaped. */
  function DefaultColumns(expectedRow: PhpArray): (c: Clause)
    ensures c.Columns? && |c.names| == |expectedRow|
  {
    Columns(seq(|expectedRow|, i requires 0 <= i < |expectedRow| => KeyText(expectedRow[i].key)))
  }

  /** The select clause the row assertions pass on. */
  function RowSelect(expectedRow: PhpArray, select: Option<Clause>): Clause {
    OrDefault(select, DefaultColumns(expectedRow))
  }

  /** The default select list names exactly the expected row's columns, in
      order: reading the statement back and splitting its select list gives
      one column per expected key. */
  lemma DefaultSelectNamesKeys(expectedRow: PhpArray, table: string, id: int, select: Option<Clause>)
    requires Falsy(select) && '`' !in table
    requires |expectedRow| > 0
    requires forall i :: 0 <= i < |expectedRow| ==> NormalKey(expectedRow[i].key) && ',' !in KeyText(expectedRow[i].key)
    ensures var parsed := ParseStatement(RowByIdQuery(table, id, RowSelect(expectedRow, select)).sql, ByIdTail);
      && parsed.Some?
      && |SplitList(parsed.value.0)| == |expectedRow|
      && forall i :: 0 <= i < |expectedRow| ==> KeyOf(SplitList(parsed.value.0)[i]) == expectedRow[i].key
  {
    var c := DefaultColumns(expectedRow);
    assert forall i :: 0 <= i < |c.names| ==> ',' !in c.names[i];
    ClauseTextSplits(c);
    forall i | 0 <= i < |expectedRow| ensures KeyOf(c.names[i]) == expectedRow[i].key {
      KeyTextRoundTrip(expectedRow[i].key);
    }
  }

  /** `assertTableRow`: `assertSame` of the expected row and the fetched one. */
  function AssertTableRow(expectedRow: PhpArray, table: string, id: int, select: Option<Clause>, fetch: Fetch): (c: Checked)
    ensures c.query == RowByIdQuery(table, id, RowSelect(expectedRow, select))
    ensures c.verdict.Passed? <==> fetch == Row(expectedRow) && expectedRow != []
    ensures c.verdict.Raised? <==> fetch.NoRow? || fetch.row == []
    ensures c.verdict.Raised? ==> c.verdict.error == DomainException(NotFoundMessage(table, id))
  {
    var q := RowByIdQuery(table, id, RowSelect(expectedRow, select));
    match GetTableRowById(table, id, fetch)
    case Err(e) => Checked(q, Raised(e))
    case Ok(row) => Checked(q, if expectedRow == row then Passed else Failed)
  }

  /** `assertTableRowEquals`: the same lookup compared by `assertEquals`. */
  function AssertTableRowEquals(expectedRow: PhpArray, table: string, id: int, select: Option<Clause>, fetch: Fetch): (c: Checked)
    ensures c.query == RowByIdQuery(table, id, RowSelect(expectedRow, select))
    ensures c.verdict.Passed? <==> fetch.Row? && fetch.row != [] && Equiv(Arr(expectedRow), Arr(fetch.row))
    ensures c.verdict.Raised? <==> fetch.NoRow? || fetch.row == []
  {
    var q := RowByIdQuery(table, id, RowSelect(expectedRow, select));
    match GetTableRowById(table, id, fetch)
    case Err(e) => Checked(q, Raised(e))
    case Ok(row) => Checked(q, if Equiv(Arr(expectedRow), Arr(row)) then Passed else Failed)
  }

  /** The strict assertion is the stronger one: whatever passes
      `assertTableRow` passes `assertTableRowEquals`. */
  lemma SameImpliesEquals(expectedRow: PhpArray, table: string, id: int, select: Option<Clause>, fetch: Fetch)
    requires WellFormed(Arr(expectedRow))
    requires AssertTableRow(expectedRow, table, id, select, fetch).verdict.Passed?
    ensures AssertTableRowEquals(expectedRow, table, id, select, fetch).verdict.Passed?
  {
    EquivRefl(Arr(expectedRow));
  }

  /** Column order matters to `assertTableRow` only: a row holding the same
      columns in another order passes `assertTableRowEquals` and fails
      `assertTableRow`. */
  lemma ColumnOrder(expectedRow: PhpArray, fetched: PhpArray, table: string, id: int, select: Option<Clause>)
    requires WellFormed(Arr(expectedRow)) && WellFormed(Arr(fetched))
    requires forall e :: e in expectedRow <==> e in fetched
    requires fetched != expectedRow && fetched != []
    ensures AssertTableRowEquals(expectedRow, table, id, select, Row(fetched)).verdict.Passed?
    ensures AssertTableRow(expectedRow, table, id, select, Row(fetched)).verdict.Failed?
  {
    EquivPermutation(expectedRow, fetched);
  }

  /** `getTableRowById($table, $id, $field)[$field]`: a missing column reads
      as null. */
  function FieldValue(row: PhpArray, field: string): (v: Value)
    ensures KeyOf(field) in Keys(row) ==> Some(v) == Get(row, KeyOf(field))
    ensures KeyOf(field) !in Keys(row) ==> v == Null
  {
    Get(row, KeyOf(field)).GetOr(Null)
  }

  /** `assertTableRowValue`: selects exactly the named column and compares
      its value strictly. */
  function AssertTableRowValue(expected: Value, table: string, id: int, field: string, fetch: Fetch): (c: Checked)
    ensures c.query == RowByIdQuery(table, id, Raw(field))
    ensures '`' !in table ==> ParseStatement(c.query.sql, ByIdTail) == Some((field, table))
    ensures c.verdict.Passed? <==> fetch.Row? && fetch.row != [] && FieldValue(fetch.row, field) == expected
    ensures c.verdict.Raised? <==> fetch.NoRow? || fetch.row == []
  {
    var q := RowByIdQuery(table, id, Raw(field));
    match GetTableRowById(table, id, fetch)
    case Err(e) => Checked(q, Raised(e))
    case Ok(row) => Checked(q, if FieldValue(row, field) == expected then Passed else Failed)
  }
}
