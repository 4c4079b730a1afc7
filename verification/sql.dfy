/**
 * What the database helpers share: the `string|array` select clause and
 * how it becomes text, the statements they prepare (SQL text plus bound
 * parameters), what a single-row `fetch` can hand back, and a reader for
 * the `SELECT <clause> FROM `<table>`` head every statement starts with.
 */
module Sql {
  import opened Wrappers
  import opened PhpText
  import opened Php

  /** A `string|array` select clause: raw text after SELECT, or a list of
      column expressions. */
  datatype Clause = Raw(text: string) | Columns(names: seq<string>)

  /** A prepared statement: its SQL text and the parameters bound on execute. */
  datatype Query = Query(sql: string, params: PhpArray)

  /** What `$statement->fetch(PDO::FETCH_ASSOC)` returns: `false` when no row
      is left, or the row as an array. */
  datatype Fetch = NoRow | Row(row: PhpArray)

  /** `is_array($selectClause) ? implode(', ', $selectClause) : $selectClause`. */
  function ClauseText(c: Clause): (s: string)
    ensures c.Raw? ==> s == c.text
    ensures c.Columns? && |c.names| == 1 ==> s == c.names[0]
  {
    match c
    case Raw(t) => t
    case Columns(names) => Join(", ", names)
  }

  /** A non-empty list of comma-free column expressions splits back out of
      its text. */
  lemma ClauseTextSplits(c: Clause)
    requires c.Columns? && |c.names| > 0
    requires forall i :: 0 <= i < |c.names| ==> ',' !in c.names[i]
    ensures SplitList(ClauseText(c)) == c.names
  {
    JoinSplitRoundTrip(c.names);
  }

  /** PHP's truthiness of an optional select clause: `null`, `''`, `'0'` and
      `[]` are false. */
  predicate Falsy(c: Option<Clause>) {
    match c
    case None => true
    case Some(Raw(t)) => t == "" || t == "0"
    case Some(Columns(names)) => |names| == 0
  }

  /** `$selectClause ?: $default`. */
  function OrDefault(c: Option<Clause>, default: Clause): (r: Clause)
    ensures Falsy(c) ==> r == default
    ensures !Falsy(c) ==> Some(r) == c
  {
    if Falsy(c) then default else c.value
  }

  /** `SELECT <clause> FROM `<table>`` without the closing backtick: the head
      every statement here shares. */
  function SelectFrom(clause: string, table: string): string {
    "SELECT " + clause + " FROM `" + table
  }

  /** Reads a head back into its clause and table. The table is taken after
      the last backtick, so the clause itself may hold backticks. */
  function ParseSelectFrom(head: string): Option<(string, string)> {
    var (front, table) :- SplitLast(head, '`');
    var rest :- StripPrefix(front, "SELECT ");
    var clause :- StripSuffix(rest, " FROM ");
    Some((clause, table))
  }

  lemma SelectFromRoundTrip(clause: string, table: string)
    requires '`' !in table
    ensures ParseSelectFrom(SelectFrom(clause, table)) == Some((clause, table))
  {
    assert SelectFrom(clause, table) == ("SELECT " + clause + " FROM ") + ['`'] + table;
    SplitLastOf("SELECT " + clause + " FROM ", '`', table);
    assert "SELECT " + clause + " FROM " == "SELECT " + (clause + " FROM ");
    StripPrefixOf("SELECT ", clause + " FROM ");
    StripSuffixOf(clause, " FROM ");
  }

  /** Reads a statement made of a head and a fixed tail back into its clause
      and table. */
  function ParseStatement(sql: string, tail: string): Option<(string, string)> {
    var head :- StripSuffix(sql, tail);
    ParseSelectFrom(head)
  }

  /** A statement over a table name without backticks reads back into the
      clause and table it was built from. */
  lemma StatementRoundTrip(clause: string, table: string, tail: string)
    ensures '`' !in table ==> ParseStatement(SelectFrom(clause, table) + tail, tail) == Some((clause, table))
  {
    if '`' !in table {
      StripSuffixOf(SelectFrom(clause, table), tail);
      SelectFromRoundTrip(clause, table);
    }
  }
}
