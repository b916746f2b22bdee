/** The record the parser produces and the query builder consumes: one
    inspected column, as a (name, declared type) pair. A missing grid cell is
    the empty string. */
module Columns {

  datatype ColumnSpec = ColumnSpec(name: string, dataType: string)
}
