/** Column reconciliation: one guarded pass over the declared columns that adds what is missing and
    promotes to NOT NULL only where no row objects. */
module Reconciliation {
  import opened Catalog

  datatype Default = NoDefault | Expression(sql: string)

  datatype Spec = Spec(table: string, column: string, typ: string, default: Default, notNull: bool)

  /** The value a default expression gives the i-th row when it is evaluated; clocks and generators
      make it differ from row to row and from run to run. */
  type Evaluator = (string, nat) -> Value

  // ---------- The two guarded steps for one declared column ----------

  function Fill(default: Default, eval: Evaluator, i: nat): Value {
    match default
    case NoDefault => Null
    case Expression(sql) => eval(sql, i)
  }

  function AddColumn(t: Relation, c: string, default: Default, eval: Evaluator): Relation {
    Relation(t.columns[c := false],
             seq(|t.rows|, i requires 0 <= i < |t.rows| => t.rows[i][c := Fill(default, eval, i)]))
  }

  predicate Missing(s: Spec, db: Db) {
    s.table in db && s.column !in db[s.table].columns
  }

  function AddMissing(s: Spec, eval: Evaluator, db: Db): Db {
    if Missing(s, db) then db[s.table := AddColumn(db[s.table], s.column, s.default, eval)] else db
  }

  predicate Nullable(s: Spec, db: Db) {
    s.table in db && s.column in db[s.table].columns && !db[s.table].columns[s.column]
  }

  function Promote(s: Spec, db: Db): Db {
    if s.notNull && Nullable(s, db) && NoNull(db[s.table], s.column)
    then db[s.table := db[s.table].(columns := db[s.table].columns[s.column := true])]
    else db
  }

  function Step(s: Spec, eval: Evaluator, db: Db): Db {
    Promote(s, AddMissing(s, eval, db))
  }

  function Reconcile(specs: seq<Spec>, eval: Evaluator, db: Db): Db {
    if specs == [] then db
    else Step(specs[|specs| - 1], eval, Reconcile(specs[..|specs| - 1], eval, db))
  }

  // ---------- What it converges to ----------

  ghost predicate Declared(specs: seq<Spec>, t: string, c: string) {
    exists s :: s in specs && s.table == t && s.column == c
  }

  ghost predicate DeclaredNotNull(specs: seq<Spec>, t: string, c: string) {
    exists s :: s in specs && s.table == t && s.column == c && s.notNull
  }

  /** The default of the first specification of the column decides what an added column holds. */
  function FirstDefault(specs: seq<Spec>, t: string, c: string): Default {
    if specs == [] then NoDefault
    else if specs[0].table == t && specs[0].column == c then specs[0].default
    else FirstDefault(specs[1..], t, c)
  }

  /** What the block may do to one column `c` of one table that was there before. */
  ghost predicate ColumnConverged(specs: seq<Spec>, eval: Evaluator, before: Relation, after: Relation, t: string,
                                  c: string) {
    && |after.rows| == |before.rows|
    && (c in after.columns <==> c in before.columns || Declared(specs, t, c))
    && (c in after.columns ==>
          && (after.columns[c] <==>
              || (c in before.columns && before.columns[c])
              || (DeclaredNotNull(specs, t, c) && NoNull(after, c)))
          && forall i :: 0 <= i < |before.rows| ==>
                           && c in after.rows[i]
                           && (c in before.columns ==> c in before.rows[i] && after.rows[i][c] == before.rows[i][c])
                           && (c !in before.columns ==> after.rows[i][c] == Fill(FirstDefault(specs, t, c), eval, i)))
  }

  lemma DeclaredAppend(specs: seq<Spec>, s: Spec, t: string, c: string)
    ensures Declared(specs + [s], t, c) <==> Declared(specs, t, c) || (s.table == t && s.column == c)
    ensures DeclaredNotNull(specs + [s], t, c) <==>
            DeclaredNotNull(specs, t, c) || (s.table == t && s.column == c && s.notNull)
  {
    if Declared(specs, t, c) {
      var x :| x in specs && x.table == t && x.column == c;
      assert x in specs + [s];
    }
    if DeclaredNotNull(specs, t, c) {
      var x :| x in specs && x.table == t && x.column == c && x.notNull;
      assert x in specs + [s];
    }
    assert s in specs + [s];
  }

  lemma {:induction false} FirstDefaultAppend(specs: seq<Spec>, s: Spec, t: string, c: string)
    ensures FirstDefault(specs + [s], t, c) ==
            if Declared(specs, t, c) then FirstDefault(specs, t, c)
            else if s.table == t && s.column == c then s.default else NoDefault
  {
    if specs == [] {
      assert [s][1..] == [] && !Declared(specs, t, c);
    } else {
      assert (specs + [s])[1..] == specs[1..] + [s];
      FirstDefaultAppend(specs[1..], s, t, c);
      assert specs == [specs[0]] + specs[1..];
      assert Declared(specs, t, c) <==> (specs[0].table == t && specs[0].column == c) || Declared(specs[1..], t, c) by {
        if Declared(specs[1..], t, c) {
          var x :| x in specs[1..] && x.table == t && x.column == c;
          assert x in specs;
        }
        if specs[0].table == t && specs[0].column == c { assert specs[0] in specs; }
      }
    }
  }

  lemma StepValid(s: Spec, eval: Evaluator, db: Db)
    requires Valid(db)
    ensures Valid(Step(s, eval, db)) && Step(s, eval, db).Keys == db.Keys
  {
    AddMissingValid(s, eval, db);
    hide AddMissing;
    var added, t'' := AddMissing(s, eval, db), Step(s, eval, db);
    if t'' != added {
      assert forall c :: NoNull(t''[s.table], c) <==> NoNull(added[s.table], c);
    }
  }

  lemma AddMissingValid(s: Spec, eval: Evaluator, db: Db)
    requires Valid(db)
    ensures Valid(AddMissing(s, eval, db)) && AddMissing(s, eval, db).Keys == db.Keys
  {
    var added := AddMissing(s, eval, db);
    if Missing(s, db) {
      var t, t' := db[s.table], added[s.table];
      forall row <- t'.rows ensures row.Keys == t'.columns.Keys {
        var i :| 0 <= i < |t'.rows| && t'.rows[i] == row;
        assert t.rows[i] in t.rows;
      }
      forall c | c in t'.columns && t'.columns[c] ensures NoNull(t', c) {
        assert t.columns[c] && NoNull(t, c);
        forall i | 0 <= i < |t'.rows| ensures t'.rows[i][c] != Null {
          assert t.rows[i] in t.rows;
        }
      }
    }
  }

  lemma {:induction false} Converged(specs: seq<Spec>, eval: Evaluator, db: Db, t: string, c: string)
    requires Valid(db) && t in db
    ensures var after := Reconcile(specs, eval, db);
            && Valid(after) && after.Keys == db.Keys
            && ColumnConverged(specs, eval, db[t], after[t], t, c)
  {
    if specs == [] {
    } else {
      var init, s := specs[..|specs| - 1], specs[|specs| - 1];
      assert specs == init + [s];
      Converged(init, eval, db, t, c);
      var mid := Reconcile(init, eval, db);
      StepValid(s, eval, mid);
      DeclaredAppend(init, s, t, c);
      FirstDefaultAppend(init, s, t, c);
      StepConverges(init, s, eval, db[t], mid, t, c);
    }
  }

  lemma StepConverges(init: seq<Spec>, s: Spec, eval: Evaluator, before: Relation, mid: Db, t: string, c: string)
    requires Valid(mid) && t in mid && ColumnConverged(init, eval, before, mid[t], t, c)
    ensures t in Step(s, eval, mid)
    ensures ColumnConverged(init + [s], eval, before, Step(s, eval, mid)[t], t, c)
  {
    var after := Step(s, eval, mid)[t];
    DeclaredAppend(init, s, t, c);
    FirstDefaultAppend(init, s, t, c);
    NotNullIsDeclared(init, t, c);
    if s.table == t && s.column == c {
      AtColumn(s, eval, mid);
      assert NoNull(after, c) <==> NoNull(AddMissing(s, eval, mid)[t], c);
    } else {
      ElsewhereUnchanged(s, eval, mid, t, c);
    }
  }

  lemma NotNullIsDeclared(specs: seq<Spec>, t: string, c: string)
    ensures DeclaredNotNull(specs, t, c) ==> Declared(specs, t, c)
  {
  }

  lemma AtColumn(s: Spec, eval: Evaluator, db: Db)
    requires s.table in db && Valid(db)
    ensures var t, t' := db[s.table], Step(s, eval, db)[s.table];
            && s.column in t'.columns && |t'.rows| == |t.rows|
            && (t'.columns[s.column] <==>
                (s.column in t.columns && t.columns[s.column]) || (s.notNull && NoNull(t', s.column)))
            && (s.column in t.columns ==> t'.rows == t.rows)
            && (s.column !in t.columns ==> forall i :: 0 <= i < |t.rows| ==>
                                                         s.column in t'.rows[i]
                                                             && t'.rows[i][s.column] == Fill(s.default, eval, i))
  {
    var mid := AddMissing(s, eval, db)[s.table];
    var t' := Step(s, eval, db)[s.table];
    assert t'.rows == mid.rows;
    assert NoNull(t', s.column) <==> NoNull(mid, s.column);
  }

  lemma ElsewhereUnchanged(s: Spec, eval: Evaluator, db: Db, t: string, c: string)
    requires t in db && (s.table != t || s.column != c)
    ensures var r, r' := db[t], Step(s, eval, db)[t];
            && |r'.rows| == |r.rows|
            && (c in r'.columns <==> c in r.columns)
            && (c in r.columns ==> r'.columns[c] == r.columns[c])
            && (forall i :: 0 <= i < |r.rows| ==> (c in r'.rows[i] <==> c in r.rows[i]))
            && (forall i :: 0 <= i < |r.rows| && c in r.rows[i] ==> r'.rows[i][c] == r.rows[i][c])
            && (NoNull(r', c) <==> NoNull(r, c))
  {
    var r, r' := db[t], Step(s, eval, db)[t];
    if NoNull(r', c) {
      forall i | 0 <= i < |r.rows| && c in r.rows[i] ensures r.rows[i][c] != Null {
        assert r'.rows[i] in r'.rows;
      }
    }
    if NoNull(r, c) {
      forall i | 0 <= i < |r.rows| && c in r'.rows[i] ensures r'.rows[i][c] != Null {
        assert r.rows[i] in r.rows;
      }
    }
  }

  // ---------- A second run has nothing to do ----------

  /** The column is there, and is either NOT NULL or kept nullable by a NULL. */
  ghost predicate Settled(s: Spec, db: Db) {
    s.table in db ==>
      && s.column in db[s.table].columns
      && (s.notNull && !db[s.table].columns[s.column] ==> !NoNull(db[s.table], s.column))
  }

  lemma {:induction false} SettledStays(specs: seq<Spec>, eval: Evaluator, db: Db)
    requires forall s <- specs :: Settled(s, db)
    ensures Reconcile(specs, eval, db) == db
  {
    if specs != [] {
      SettledStays(specs[..|specs| - 1], eval, db);
      assert Settled(specs[|specs| - 1], db);
    }
  }

  lemma AllSettled(specs: seq<Spec>, eval: Evaluator, db: Db)
    requires Valid(db)
    ensures Valid(Reconcile(specs, eval, db)) && Reconcile(specs, eval, db).Keys == db.Keys
    ensures forall s <- specs :: Settled(s, Reconcile(specs, eval, db))
  {
    KeepsTables(specs, eval, db);
    forall s | s in specs && s.table in db ensures Settled(s, Reconcile(specs, eval, db)) {
      Converged(specs, eval, db, s.table, s.column);
      assert Declared(specs, s.table, s.column);
      assert s.notNull ==> DeclaredNotNull(specs, s.table, s.column);
    }
  }

  lemma {:induction false} KeepsTables(specs: seq<Spec>, eval: Evaluator, db: Db)
    requires Valid(db)
    ensures Valid(Reconcile(specs, eval, db)) && Reconcile(specs, eval, db).Keys == db.Keys
  {
    if specs != [] {
      KeepsTables(specs[..|specs| - 1], eval, db);
      StepValid(specs[|specs| - 1], eval, Reconcile(specs[..|specs| - 1], eval, db));
    }
  }

  /** Running the block again, whenever and with whatever defaults evaluate to then, changes nothing. */
  lemma RerunChangesNothing(specs: seq<Spec>, eval: Evaluator, again: Evaluator, db: Db)
    requires Valid(db)
    ensures Reconcile(specs, again, Reconcile(specs, eval, db)) == Reconcile(specs, eval, db)
  {
    AllSettled(specs, eval, db);
    SettledStays(specs, again, Reconcile(specs, eval, db));
  }

  // ---------- What a column holds afterwards ----------

  lemma {:induction false} FirstDefaultAt(specs: seq<Spec>, t: string, c: string, k: nat)
    requires k < |specs| && specs[k].table == t && specs[k].column == c
    requires forall j :: 0 <= j < k ==> !(specs[j].table == t && specs[j].column == c)
    ensures FirstDefault(specs, t, c) == specs[k].default
  {
    if k > 0 { FirstDefaultAt(specs[1..], t, c, k - 1); }
  }

  lemma NullFree(t: Relation, c: string)
    requires forall i :: 0 <= i < |t.rows| ==> c in t.rows[i]
    ensures NoNull(t, c) <==> forall i :: 0 <= i < |t.rows| ==> t.rows[i][c] != Null
  {
    if NoNull(t, c) {
      forall i | 0 <= i < |t.rows| ensures t.rows[i][c] != Null { assert t.rows[i] in t.rows; }
    }
  }

  /** A column that was missing is there afterwards. With a default, the i-th row holds what the default of the first
      specification gives it; without one, NULL. It is NOT NULL if and only if some specification says so and no row
      holds NULL. */
  lemma AddedColumn(specs: seq<Spec>, eval: Evaluator, db: Db, t: string, c: string, k: nat)
    requires Valid(db) && t in db && c !in db[t].columns
    requires k < |specs| && specs[k].table == t && specs[k].column == c
    requires forall j :: 0 <= j < k ==> !(specs[j].table == t && specs[j].column == c)
    ensures t in Reconcile(specs, eval, db)
    ensures var after := Reconcile(specs, eval, db)[t];
            && c in after.columns && |after.rows| == |db[t].rows|
            && (forall i :: 0 <= i < |after.rows| ==> c in after.rows[i])
            && (specs[k].default.NoDefault? ==> forall i :: 0 <= i < |after.rows| ==> after.rows[i][c] == Null)
            && (specs[k].default.Expression? ==>
                  forall i :: 0 <= i < |after.rows| ==> after.rows[i][c] == eval(specs[k].default.sql, i))
            && (after.columns[c] <==>
                && (exists s :: s in specs && s.table == t && s.column == c && s.notNull)
                && forall i :: 0 <= i < |after.rows| ==> after.rows[i][c] != Null)
  {
    Converged(specs, eval, db, t, c);
    FirstDefaultAt(specs, t, c, k);
    NullFree(Reconcile(specs, eval, db)[t], c);
    assert specs[k] in specs;
  }

  /** A column that was there keeps its cells. It is NOT NULL if and only if it was, or some specification says so and
      no row holds NULL. */
  lemma KeptColumn(specs: seq<Spec>, eval: Evaluator, db: Db, t: string, c: string)
    requires Valid(db) && t in db && c in db[t].columns
    ensures t in Reconcile(specs, eval, db)
    ensures var after := Reconcile(specs, eval, db)[t];
            && c in after.columns && |after.rows| == |db[t].rows|
            && (forall i :: 0 <= i < |after.rows| ==>
                              c in after.rows[i] && c in db[t].rows[i] && after.rows[i][c] == db[t].rows[i][c])
            && (after.columns[c] <==>
                || db[t].columns[c]
                || ((exists s :: s in specs && s.table == t && s.column == c && s.notNull)
                    && forall i :: 0 <= i < |after.rows| ==> after.rows[i][c] != Null))
  {
    Converged(specs, eval, db, t, c);
    NullFree(Reconcile(specs, eval, db)[t], c);
  }

  /** A column that is neither there nor declared does not appear, and no table does. */
  lemma NothingElse(specs: seq<Spec>, eval: Evaluator, db: Db, t: string, c: string)
    requires Valid(db) && forall s <- specs :: !(s.table == t && s.column == c)
    requires t in db ==> c !in db[t].columns
    ensures Reconcile(specs, eval, db).Keys == db.Keys
    ensures t in db ==> c !in Reconcile(specs, eval, db)[t].columns
  {
    KeepsTables(specs, eval, db);
    if t in db { Converged(specs, eval, db, t, c); }
  }
}
