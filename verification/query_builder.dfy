/** The inspection-query builder (app2.py lines 93-152): every usable
    column becomes one 15-column SELECT statement of statistics over the
    table, and the statements are stacked with UNION ALL. */
module QueryBuilder {
  import opened Wrappers
  import opened Strings
  import opened Columns

  /** The two rendering branches: STRING, and every other recognised type. */
  datatype TypeKind = StringKind | ScalarKind

  /** The optional date-range filter: the date column and the two bounds,
      already formatted as the text that goes between the quotes. */
  datatype DateFilter = DateFilter(column: string, start: string, end: string)

  /** The declared types the builder recognises. */
  const RecognisedTypes: set<string> :=
    {"STRING", "BOOLEAN", "INTEGER", "FLOAT", "TIMESTAMP", "DATE"}

  /** Branch selection by exact comparison of the declared type. */
  function Classify(dataType: string): (k: Option<TypeKind>)
    ensures k.Some? <==> dataType in RecognisedTypes
    ensures k == Some(StringKind) <==> dataType == "STRING"
  {
    if dataType == "STRING" then Some(StringKind)
    else if dataType in ["BOOLEAN", "INTEGER", "FLOAT", "TIMESTAMP", "DATE"] then Some(ScalarKind)
    else None
  }

  /** The comparison is case-sensitive: a lower-case label is not recognised. */
  lemma ClassifyIsCaseSensitive()
    ensures Classify("string") == None && Classify("Date") == None
  {
  }

  // ---------------------------------------------------------------------
  // one SELECT block

  /** The output columns of every block, in order. */
  const Schema: seq<string> := [
    "column_name", "column_ronti", "data_type", "data_ronti", "data_length",
    "null_able", "selection_columns", "consideration_columns", "total_count",
    "null_count", "empty_string_count", "unique_count", "missing_rate_percent",
    "min_value", "max_value"]

  /** The positions of the placeholder columns, which are always NULL. */
  const Placeholders: set<int> := {1, 3, 4, 5, 6, 7}

  const EmptyStringIndex := 10
  const MissingRateIndex := 12

  /** The `empty_string_count` expression of each branch. */
  function EmptyStringExpr(kind: TypeKind, col: string): string {
    match kind
    case StringKind => "COUNTIF(TRIM(" + col + ") = '')"
    case ScalarKind => "NULL"
  }

  /** The `missing_rate_percent` expression of each branch: a string column
      also counts blank values as missing. */
  function MissingRateExpr(kind: TypeKind, col: string): string {
    match kind
    case StringKind =>
      "SAFE_DIVIDE(COUNTIF(" + col + " IS NULL OR TRIM(" + col + ") = ''), COUNT(*)) * 100"
    case ScalarKind => "SAFE_DIVIDE(COUNTIF(" + col + " IS NULL), COUNT(*)) * 100"
  }

  /** The expressions of the 15 output columns, in `Schema` order. */
  function Exprs(col: string, dataType: string, kind: TypeKind): (e: seq<string>)
    ensures |e| == |Schema|
  {
    ["'" + col + "'", "NULL", "'" + dataType + "_ARRAY'", "NULL", "NULL",
     "NULL", "NULL", "NULL", "COUNT(*)",
     "COUNTIF(" + col + " IS NULL)", EmptyStringExpr(kind, col),
     "COUNT(DISTINCT " + col + ")", MissingRateExpr(kind, col),
     "SAFE_CAST(MIN(" + col + ") AS STRING)", "SAFE_CAST(MAX(" + col + ") AS STRING)"]
  }

  /** One line of the select list: an expression and its output name. */
  function Item(col: string, dataType: string, kind: TypeKind, i: nat): string
    requires i < |Schema|
  {
    Exprs(col, dataType, kind)[i] + " AS " + Schema[i]
  }

  function Items(col: string, dataType: string, kind: TypeKind): seq<string> {
    seq(|Schema|, i requires 0 <= i < |Schema| => Item(col, dataType, kind, i))
  }

  /** The select list: one item per line, separated by commas. */
  function SelectList(col: string, dataType: string, kind: TypeKind): (r: string)
    ensures forall i :: 0 <= i < |Schema| ==> Contains(r, Item(col, dataType, kind, i))
  {
    assert forall i :: 0 <= i < |Schema| ==> Items(col, dataType, kind)[i] == Item(col, dataType, kind, i);
    JoinContainsEvery(Items(col, dataType, kind), ",\n");
    Join(Items(col, dataType, kind), ",\n")
  }

  /** The WHERE clause, computed once for all blocks; empty without a filter. */
  function WhereClause(filter: Option<DateFilter>): (w: string)
    ensures w == [] <==> filter.None?
    ensures filter.Some? ==> "WHERE DATE(" <= w
  {
    if filter.None? then ""
    else "WHERE DATE(" + filter.value.column + ") BETWEEN '" + filter.value.start
         + "' AND '" + filter.value.end + "'"
  }

  /** How a block ends: the FROM line with the table in backquotes, then,
      when there is a filter, one space and the WHERE clause. */
  function FromClause(table: string, filter: Option<DateFilter>): string {
    if filter.None? then "FROM `" + table + "`"
    else "FROM `" + table + "`" + " " + WhereClause(filter)
  }

  /** A rendered block: `SELECT`, the select list, and the FROM clause. */
  function Block(list: string, table: string, filter: Option<DateFilter>): string {
    "SELECT\n" + list + "\n" + FromClause(table, filter)
  }

  /** The triple-quoted template exactly as written, around a select list:
      a leading newline, `SELECT`, the list, the FROM line with a space and
      the WHERE clause after the table, and a trailing newline. */
  function RawBlock(list: string, table: string, filter: Option<DateFilter>): (r: string)
    ensures r == "\n" + Block(list, table, filter) + (if filter.None? then " \n" else "\n")
  {
    var body := "SELECT\n" + list + "\n";
    var from := "FROM `" + table + "`";
    // an empty WHERE clause leaves a space before the final newline
    assert filter.None? ==> "\n" + (body + (from + " " + "")) + "\n" == "\n" + (body + from) + " \n";
    "\n" + (body + (from + " " + WhereClause(filter))) + "\n"
  }

  /** Stripping the template gives the block: the strip removes exactly the
      leading newline and, after the FROM clause, the trailing newline plus
      the space left dangling when there is no WHERE clause. */
  lemma StrippedTemplateIsBlock(list: string, table: string, filter: Option<DateFilter>)
    ensures Strip(RawBlock(list, table, filter)) == Block(list, table, filter)
  {
    var mid := Block(list, table, filter);
    assert mid[0] == 'S';
    if filter.None? {
      assert mid[|mid| - 1] == '`';
      StripFramed("\n", mid, " \n");
    } else {
      var w := WhereClause(filter);
      assert w[|w| - 1] == '\'';
      assert mid[|mid| - 1] == w[|w| - 1];
      StripFramed("\n", mid, "\n");
    }
  }

  /** Every block starts with `SELECT` and ends with the FROM clause. */
  lemma BlockFrame(list: string, table: string, filter: Option<DateFilter>)
    ensures "SELECT\n" <= Block(list, table, filter)
    ensures EndsWith(Block(list, table, filter), FromClause(table, filter))
  {
    var from := FromClause(table, filter);
    var b := Block(list, table, filter);
    assert b[..7] == "SELECT\n";
    assert b[|b| - |from|..] == from;
  }

  /** Every line of the select list appears in the block. */
  lemma BlockHasItem(col: string, dataType: string, kind: TypeKind, table: string,
                     filter: Option<DateFilter>, i: nat)
    requires i < |Schema|
    ensures Contains(Block(SelectList(col, dataType, kind), table, filter),
                     Item(col, dataType, kind, i))
  {
    var item := Item(col, dataType, kind, i);
    var list := SelectList(col, dataType, kind);
    ContainsAfter("SELECT\n", list, item);
    ContainsBefore("SELECT\n" + list, "\n" + FromClause(table, filter), item);
    assert "SELECT\n" + list + ("\n" + FromClause(table, filter))
           == "SELECT\n" + list + "\n" + FromClause(table, filter);
  }

  /** A STRING block counts blank strings... */
  lemma StringBlankCount(col: string, dataType: string, table: string, filter: Option<DateFilter>)
    ensures Contains(Block(SelectList(col, dataType, StringKind), table, filter),
                     "COUNTIF(TRIM(" + col + ") = '')" + " AS " + "empty_string_count")
  {
    BlockHasItem(col, dataType, StringKind, table, filter, EmptyStringIndex);
  }

  /** ... and treats them as missing, besides NULL. */
  lemma StringMissingRate(col: string, dataType: string, table: string, filter: Option<DateFilter>)
    ensures Contains(Block(SelectList(col, dataType, StringKind), table, filter),
                     "SAFE_DIVIDE(COUNTIF(" + col + " IS NULL OR TRIM(" + col + ") = ''), COUNT(*)) * 100"
                     + " AS " + "missing_rate_percent")
  {
    BlockHasItem(col, dataType, StringKind, table, filter, MissingRateIndex);
  }

  /** A block of any other recognised type reports NULL for the blank
      count... */
  lemma ScalarBlankCount(col: string, dataType: string, table: string, filter: Option<DateFilter>)
    ensures Contains(Block(SelectList(col, dataType, ScalarKind), table, filter),
                     "NULL" + " AS " + "empty_string_count")
  {
    BlockHasItem(col, dataType, ScalarKind, table, filter, EmptyStringIndex);
  }

  /** ... and treats only NULL as missing. */
  lemma ScalarMissingRate(col: string, dataType: string, table: string, filter: Option<DateFilter>)
    ensures Contains(Block(SelectList(col, dataType, ScalarKind), table, filter),
                     "SAFE_DIVIDE(COUNTIF(" + col + " IS NULL), COUNT(*)) * 100"
                     + " AS " + "missing_rate_percent")
  {
    BlockHasItem(col, dataType, ScalarKind, table, filter, MissingRateIndex);
  }

  /** Both branches name the column, in single quotes. */
  lemma ColumnNameShown(col: string, dataType: string, kind: TypeKind, table: string,
                        filter: Option<DateFilter>)
    ensures Contains(Block(SelectList(col, dataType, kind), table, filter),
                     "'" + col + "'" + " AS " + "column_name")
  {
    BlockHasItem(col, dataType, kind, table, filter, 0);
  }

  /** Both branches label the column with its declared type and `_ARRAY`. */
  lemma TypeLabelShown(col: string, dataType: string, kind: TypeKind, table: string,
                       filter: Option<DateFilter>)
    ensures Contains(Block(SelectList(col, dataType, kind), table, filter),
                     "'" + dataType + "_ARRAY'" + " AS " + "data_type")
  {
    BlockHasItem(col, dataType, kind, table, filter, 2);
  }

  /** Both branches produce the same 15 columns and differ only in the
      blank-count and missing-rate expressions; the six placeholder columns
      are the literal NULL in both. */
  lemma BranchesShareSchema(col: string, dataType: string)
    ensures forall i :: 0 <= i < |Schema| && i != EmptyStringIndex && i != MissingRateIndex ==>
              Item(col, dataType, StringKind, i) == Item(col, dataType, ScalarKind, i)
    ensures forall i :: i in Placeholders ==>
              && Item(col, dataType, StringKind, i) == "NULL AS " + Schema[i]
              && Item(col, dataType, ScalarKind, i) == "NULL AS " + Schema[i]
    ensures Item(col, dataType, StringKind, EmptyStringIndex)
            != Item(col, dataType, ScalarKind, EmptyStringIndex)
    ensures Item(col, dataType, StringKind, MissingRateIndex)
            != Item(col, dataType, ScalarKind, MissingRateIndex)
  {
    var es, en := Exprs(col, dataType, StringKind), Exprs(col, dataType, ScalarKind);
    forall i | 0 <= i < |Schema| && i != EmptyStringIndex && i != MissingRateIndex
      ensures Item(col, dataType, StringKind, i) == Item(col, dataType, ScalarKind, i)
    {
      assert es[i] == en[i];
    }
    forall i | i in Placeholders
      ensures Item(col, dataType, StringKind, i) == "NULL AS " + Schema[i]
      ensures Item(col, dataType, ScalarKind, i) == "NULL AS " + Schema[i]
    {
      assert es[i] == "NULL" && en[i] == "NULL";
    }
    var s := Item(col, dataType, StringKind, EmptyStringIndex);
    var n := Item(col, dataType, ScalarKind, EmptyStringIndex);
    assert s[0] == 'C' && n[0] == 'N';
    var sm := Item(col, dataType, StringKind, MissingRateIndex);
    var nm := Item(col, dataType, ScalarKind, MissingRateIndex);
    var p := |"SAFE_DIVIDE(COUNTIF(" + col + " IS NULL"|;
    assert sm[p] == ' ';
    assert nm[p] == ')';
  }

  // ---------------------------------------------------------------------
  // assembly

  /** A row is used when it has a name and a type and the type is one of
      the six recognised labels; every other row is skipped. */
  predicate Usable(row: ColumnSpec)
    ensures Usable(row) <==> row.name != "" && row.dataType in RecognisedTypes
  {
    row.name != "" && row.dataType != "" && Classify(row.dataType).Some?
  }

  /** The block of a usable row: the template of its branch, stripped. */
  function RenderRow(row: ColumnSpec, table: string, filter: Option<DateFilter>): (b: string)
    requires Usable(row)
    ensures b == Strip(RawBlock(SelectList(row.name, row.dataType, Classify(row.dataType).value),
                                table, filter))
    ensures "SELECT\n" <= b && EndsWith(b, FromClause(table, filter))
  {
    var list := SelectList(row.name, row.dataType, Classify(row.dataType).value);
    StrippedTemplateIsBlock(list, table, filter);
    BlockFrame(list, table, filter);
    Block(list, table, filter)
  }

  /** The blocks of the usable rows, in row order. */
  function Blocks(rows: seq<ColumnSpec>, table: string, filter: Option<DateFilter>): (bs: seq<string>)
    ensures |bs| <= |rows|
  {
    if rows == [] then []
    else if rows[0].name == "" || rows[0].dataType == "" then Blocks(rows[1..], table, filter)
    else if Classify(rows[0].dataType).None? then Blocks(rows[1..], table, filter)
    else [RenderRow(rows[0], table, filter)] + Blocks(rows[1..], table, filter)
  }

  const Separator := "\nUNION ALL\n"

  /** The whole inspection query: the blocks joined by UNION ALL lines. It
      is empty exactly when no row is usable; the builder does not report
      this case any differently. */
  function Build(rows: seq<ColumnSpec>, table: string, filter: Option<DateFilter>): (r: string)
    ensures r == [] <==> UsableRows(rows) == []
  {
    BlocksAreUsableRows(rows, table, filter);
    BlocksNonEmpty(rows, table, filter);
    JoinEmpty(Blocks(rows, table, filter), Separator);
    Join(Blocks(rows, table, filter), Separator)
  }

  /** The generate button only acts when a table reference was entered. */
  function Generate(rows: seq<ColumnSpec>, table: string, filter: Option<DateFilter>): (q: Option<string>)
    ensures q.Some? <==> table != ""
    ensures q.Some? ==> q.value == Build(rows, table, filter)
  {
    if table == "" then None else Some(Build(rows, table, filter))
  }

  // ---------------------------------------------------------------------
  // properties of the assembly

  /** The rows that produce a block, in order (duplicates included). */
  function UsableRows(rows: seq<ColumnSpec>): (u: seq<ColumnSpec>)
    ensures |u| <= |rows|
    ensures forall k :: 0 <= k < |u| ==> Usable(u[k])
    ensures forall i :: 0 <= i < |rows| && Usable(rows[i]) ==> rows[i] in u
  {
    if rows == [] then []
    else if Usable(rows[0]) then [rows[0]] + UsableRows(rows[1..])
    else UsableRows(rows[1..])
  }

  /** A list of usable rows rendered one by one. */
  function RenderAll(rs: seq<ColumnSpec>, table: string, filter: Option<DateFilter>): (bs: seq<string>)
    requires forall k :: 0 <= k < |rs| ==> Usable(rs[k])
    ensures |bs| == |rs|
  {
    if rs == [] then [] else [RenderRow(rs[0], table, filter)] + RenderAll(rs[1..], table, filter)
  }

  lemma {:induction false} RenderAllAt(rs: seq<ColumnSpec>, table: string, filter: Option<DateFilter>,
                                        k: nat)
    requires forall j :: 0 <= j < |rs| ==> Usable(rs[j])
    requires k < |rs|
    ensures RenderAll(rs, table, filter)[k] == RenderRow(rs[k], table, filter)
  {
    if k > 0 {
      RenderAllAt(rs[1..], table, filter, k - 1);
    }
  }

  /** Skipping rows and rendering the rest is what `Blocks` does. */
  lemma {:induction false} BlocksRenderUsable(rows: seq<ColumnSpec>, table: string,
                                               filter: Option<DateFilter>)
    ensures Blocks(rows, table, filter) == RenderAll(UsableRows(rows), table, filter)
  {
    if rows != [] {
      BlocksRenderUsable(rows[1..], table, filter);
      if Usable(rows[0]) {
        var u := UsableRows(rows);
        assert u == [rows[0]] + UsableRows(rows[1..]);
        assert u[1..] == UsableRows(rows[1..]);
      }
    }
  }

  /** Blocks are the usable rows rendered one by one, in input order: the
      k-th block belongs to the k-th usable row. */
  lemma BlocksAreUsableRows(rows: seq<ColumnSpec>, table: string, filter: Option<DateFilter>)
    ensures |Blocks(rows, table, filter)| == |UsableRows(rows)|
    ensures forall k :: 0 <= k < |UsableRows(rows)| ==>
              Blocks(rows, table, filter)[k] == RenderRow(UsableRows(rows)[k], table, filter)
  {
    BlocksRenderUsable(rows, table, filter);
    var u := UsableRows(rows);
    forall k | 0 <= k < |u|
      ensures Blocks(rows, table, filter)[k] == RenderRow(u[k], table, filter)
    {
      RenderAllAt(u, table, filter, k);
    }
  }

  /** Filtering distributes over concatenation: the usable rows keep their
      input order and nothing else is kept. */
  lemma {:induction false} UsableRowsAppend(a: seq<ColumnSpec>, b: seq<ColumnSpec>)
    ensures UsableRows(a + b) == UsableRows(a) + UsableRows(b)
  {
    if a == [] {
      assert a + b == b;
    } else {
      assert (a + b)[0] == a[0];
      assert (a + b)[1..] == a[1..] + b;
      UsableRowsAppend(a[1..], b);
    }
  }

  /** A single row is kept exactly when it is usable. */
  lemma UsableRowsSingle(row: ColumnSpec)
    ensures UsableRows([row]) == if Usable(row) then [row] else []
  {
    assert [row][1..] == [];
  }

  /** A usable row on its own gives exactly its block. */
  lemma BlocksSingle(row: ColumnSpec, table: string, filter: Option<DateFilter>)
    requires Usable(row)
    ensures Blocks([row], table, filter) == [RenderRow(row, table, filter)]
  {
    assert [row][1..] == [];
  }

  /** The query of a single usable row is that row's block. */
  lemma BuildSingle(row: ColumnSpec, table: string, filter: Option<DateFilter>)
    requires Usable(row)
    ensures Build([row], table, filter) == RenderRow(row, table, filter)
  {
    BlocksSingle(row, table, filter);
  }

  /** Every block is non-empty: it starts with `SELECT`. */
  lemma BlocksNonEmpty(rows: seq<ColumnSpec>, table: string, filter: Option<DateFilter>)
    ensures forall k :: 0 <= k < |Blocks(rows, table, filter)| ==> Blocks(rows, table, filter)[k] != []
  {
    BlocksAreUsableRows(rows, table, filter);
    var bs := Blocks(rows, table, filter);
    forall k | 0 <= k < |bs|
      ensures bs[k] != []
    {
      assert "SELECT\n" <= bs[k];
    }
  }

  /** Appending rows appends their blocks: the output order follows the
      input order and nothing is merged or removed. */
  lemma {:induction false} BlocksAppend(a: seq<ColumnSpec>, b: seq<ColumnSpec>, table: string,
                                         filter: Option<DateFilter>)
    ensures Blocks(a + b, table, filter) == Blocks(a, table, filter) + Blocks(b, table, filter)
  {
    if a == [] {
      assert a + b == b;
    } else {
      assert (a + b)[0] == a[0];
      assert (a + b)[1..] == a[1..] + b;
      BlocksAppend(a[1..], b, table, filter);
    }
  }

  /** With N usable rows the query is N blocks and N - 1 separators: its
      length is the blocks' total plus N - 1 separator lengths, it starts
      with the first block's `SELECT` and ends with the FROM clause. */
  lemma BuildShape(rows: seq<ColumnSpec>, table: string, filter: Option<DateFilter>)
    requires UsableRows(rows) != []
    ensures |Build(rows, table, filter)|
            == TotalLength(Blocks(rows, table, filter)) + (|UsableRows(rows)| - 1) * |Separator|
    ensures "SELECT\n" <= Build(rows, table, filter)
    ensures EndsWith(Build(rows, table, filter), FromClause(table, filter))
  {
    BlocksAreUsableRows(rows, table, filter);
    var bs := Blocks(rows, table, filter);
    JoinLength(bs, Separator);
    JoinStartsAndEnds(bs, Separator, "SELECT\n", FromClause(table, filter));
  }

  /** Every usable row's block appears in the query. */
  lemma BuildHasBlock(rows: seq<ColumnSpec>, table: string, filter: Option<DateFilter>, k: nat)
    requires k < |UsableRows(rows)|
    ensures Contains(Build(rows, table, filter), RenderRow(UsableRows(rows)[k], table, filter))
  {
    BlocksAreUsableRows(rows, table, filter);
    JoinContainsPart(Blocks(rows, table, filter), Separator, k);
  }

  /** The i-th input row, when usable, has its block in the query. */
  lemma BuildHasRow(rows: seq<ColumnSpec>, table: string, filter: Option<DateFilter>, i: nat)
    requires i < |rows| && Usable(rows[i])
    ensures Contains(Build(rows, table, filter), RenderRow(rows[i], table, filter))
  {
    var row := rows[i];
    assert rows == rows[..i] + ([row] + rows[i + 1..]);
    BlocksAppend(rows[..i], [row] + rows[i + 1..], table, filter);
    BlocksAppend([row], rows[i + 1..], table, filter);
    BlocksSingle(row, table, filter);
    var bs := Blocks(rows, table, filter);
    var k := |Blocks(rows[..i], table, filter)|;
    assert bs[k] == RenderRow(row, table, filter);
    JoinContainsPart(bs, Separator, k);
  }

  /** No usable input row is dropped: the query names every one of them. */
  lemma BuildNamesRow(rows: seq<ColumnSpec>, table: string, filter: Option<DateFilter>, i: nat)
    requires i < |rows| && Usable(rows[i])
    ensures Contains(Build(rows, table, filter), "'" + rows[i].name + "'" + " AS " + "column_name")
  {
    var row := rows[i];
    BuildHasRow(rows, table, filter, i);
    ColumnNameShown(row.name, row.dataType, Classify(row.dataType).value, table, filter);
    ContainsTransitive(Build(rows, table, filter), RenderRow(row, table, filter),
                       "'" + row.name + "'" + " AS " + "column_name");
  }

  /** The k-th usable row's name appears in the query. */
  lemma BuildNamesUsableRow(rows: seq<ColumnSpec>, table: string, filter: Option<DateFilter>, k: nat)
    requires k < |UsableRows(rows)|
    ensures Contains(Build(rows, table, filter),
                     "'" + UsableRows(rows)[k].name + "'" + " AS " + "column_name")
  {
    var row := UsableRows(rows)[k];
    BuildHasBlock(rows, table, filter, k);
    ColumnNameShown(row.name, row.dataType, Classify(row.dataType).value, table, filter);
    ContainsTransitive(Build(rows, table, filter), RenderRow(row, table, filter),
                       "'" + row.name + "'" + " AS " + "column_name");
  }

  /** Queries of two row lists with usable rows combine with exactly one
      separator between them. */
  lemma BuildAppend(a: seq<ColumnSpec>, b: seq<ColumnSpec>, table: string, filter: Option<DateFilter>)
    requires UsableRows(a) != [] && UsableRows(b) != []
    ensures Build(a + b, table, filter) == Build(a, table, filter) + Separator + Build(b, table, filter)
  {
    BlocksAppend(a, b, table, filter);
    BlocksAreUsableRows(a, table, filter);
    BlocksAreUsableRows(b, table, filter);
    JoinAppend(Blocks(a, table, filter), Blocks(b, table, filter), Separator);
  }

  /** Duplicate names are not merged: a usable row listed twice gives its
      block twice. */
  lemma DuplicatesKept(row: ColumnSpec, table: string, filter: Option<DateFilter>)
    requires Usable(row)
    ensures Build([row, row], table, filter)
            == RenderRow(row, table, filter) + Separator + RenderRow(row, table, filter)
  {
    assert [row, row] == [row] + [row];
    UsableRowsSingle(row);
    BuildAppend([row], [row], table, filter);
    BuildSingle(row, table, filter);
  }
}
