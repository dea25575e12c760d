/** The slice of a PostgreSQL catalog the generated DO blocks act on: tables with their columns,
    the NOT NULL marks and the rows. */
module Catalog {

  datatype Value = Null | Datum(text: string)

  type Row = map<string, Value>

  /** `columns` says of each column whether it is NOT NULL. */
  datatype Relation = Relation(columns: map<string, bool>, rows: seq<Row>)

  type Db = map<string, Relation>

  ghost predicate ValidRelation(t: Relation) {
    && (forall row <- t.rows :: row.Keys == t.columns.Keys)
    && (forall c <- t.columns :: t.columns[c] ==> NoNull(t, c))
  }

  ghost predicate Valid(db: Db) {
    forall n <- db :: ValidRelation(db[n])
  }

  predicate NoNull(t: Relation, c: string) {
    forall row <- t.rows :: c in row ==> row[c] != Null
  }
}
