/** The session's column table and the paste-apply action (app2.py lines
    25-29 and 47-52): a paste replaces the table only when it parses to at
    least one record; otherwise the table is kept and a warning is shown. */
module Session {
  import opened Strings
  import opened Columns
  import opened TsvParser
  import opened Wrappers
  import QueryBuilder

  /** What the session keeps between re-renders: the editable column table. */
  datatype State = State(columns: seq<ColumnSpec>)

  /** The table after pressing the apply button, and whether the
      invalid-paste warning was shown. */
  datatype PasteResult = PasteResult(state: State, warned: bool)

  /** The table a new session starts with: two rows with empty names and
      the types STRING and TIMESTAMP. */
  function Initial(): (s: State)
    ensures |s.columns| == 2
    ensures forall i :: 0 <= i < |s.columns| ==> s.columns[i].name == ""
  {
    State([ColumnSpec("", "STRING"), ColumnSpec("", "TIMESTAMP")])
  }

  /** Pressing the apply button with `text` in the paste area. */
  function Apply(st: State, text: string): (r: PasteResult)
    ensures r.warned <==> ParseTsv(text) == []
    ensures !r.warned ==> r.state.columns == ParseTsv(text)
    ensures r.warned ==> r.state == st
  {
    var parsed := ParseTsv(text);
    if parsed != [] then PasteResult(State(parsed), false)
    else PasteResult(st, true)
  }

  /** Applying the same paste twice has the effect of applying it once. */
  lemma ApplyIdempotent(st: State, text: string)
    ensures Apply(Apply(st, text).state, text).state == Apply(st, text).state
  {
  }

  /** A paste never empties the table: a non-empty table stays non-empty,
      whether the paste is applied or rejected. */
  lemma ApplyKeepsNonEmpty(st: State, text: string)
    requires st.columns != []
    ensures Apply(st, text).state.columns != []
  {
  }

  /** The last accepted paste determines the table: an earlier paste leaves
      no trace once a valid one follows it. */
  lemma ApplyLastWins(st: State, first: string, second: string)
    requires ParseTsv(second) != []
    ensures Apply(Apply(st, first).state, second) == Apply(st, second)
  {
  }

  /** Records in the table after a paste have trimmed names and trimmed,
      upper-case types, whatever the paste looked like. */
  lemma ApplyNormalises(st: State, text: string)
    requires ParseTsv(text) != []
    ensures forall i :: 0 <= i < |Apply(st, text).state.columns| ==>
              Trimmed(Apply(st, text).state.columns[i].name)
              && Trimmed(Apply(st, text).state.columns[i].dataType)
              && NoLowerAscii(Apply(st, text).state.columns[i].dataType)
  {
  }

  /** The table a new session starts with gives the empty query: both
      placeholder rows lack a name. */
  lemma InitialTableBuildsNothing(table: string, filter: Option<QueryBuilder.DateFilter>)
    ensures QueryBuilder.Build(Initial().columns, table, filter) == []
  {
    var rows := Initial().columns;
    assert rows[1..][1..] == [];
    assert QueryBuilder.Blocks(rows[1..][1..], table, filter) == [];
    assert QueryBuilder.Blocks(rows[1..], table, filter) == [];
    assert QueryBuilder.Blocks(rows, table, filter) == [];
  }
}
