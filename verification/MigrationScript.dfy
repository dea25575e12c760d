/** The generated script as it runs: renames replayed, columns reconciled, and then every table that
    does not exist yet created. */
module MigrationScript {
  import opened Catalog
  import opened Evolution
  import opened Reconciliation

  /** The columns CREATE TABLE declares for `t`. */
  function DeclaredColumns(specs: seq<Spec>, t: string): map<string, bool> {
    if specs == [] then map[]
    else
      var m, s := DeclaredColumns(specs[..|specs| - 1], t), specs[|specs| - 1];
      if s.table == t then m[s.column := s.notNull || (s.column in m && m[s.column])] else m
  }

  function CreateMissing(order: seq<string>, specs: seq<Spec>, db: Db): Db {
    if order == [] then db
    else
      var made, t := CreateMissing(order[..|order| - 1], specs, db), order[|order| - 1];
      if t in made then made else made[t := Relation(DeclaredColumns(specs, t), [])]
  }

  function Script(ops: seq<Op>, order: seq<string>, specs: seq<Spec>, eval: Evaluator, db: Db): Db {
    CreateMissing(order, specs, Reconcile(specs, eval, Replay(ops, db)))
  }

  // ---------- The script as statements on a database ----------

  class Database {
    var tables: Db

    constructor (db: Db)
      ensures tables == db
    {
      tables := db;
    }

    /** ALTER TABLE .. RENAME TO fails on a missing source or a taken target. */
    method RenameTableTo(src: string, dst: string)
      requires src in tables && dst !in tables
      modifies this
      ensures tables == MoveKey(old(tables), src, dst)
    {
      tables := MoveKey(tables, src, dst);
    }

    method RenameColumnTo(table: string, from: string, to: string)
      requires table in tables && from in tables[table].columns && to !in tables[table].columns
      modifies this
      ensures tables == old(tables)[table := RenameIn(old(tables)[table], from, to)]
    {
      tables := tables[table := RenameIn(tables[table], from, to)];
    }

    /** The evolution block: each rename behind its guard. */
    method Evolve(tableRenames: seq<Op>, columnRenames: seq<Op>)
      requires (forall op <- tableRenames :: op.RenameTable?) && (forall op <- columnRenames :: op.RenameColumn?)
      modifies this
      ensures tables == Run(columnRenames, Run(tableRenames, old(tables)))
    {
      for k := 0 to |tableRenames|
        invariant tables == Run(tableRenames[..k], old(tables))
      {
        var op := tableRenames[k];
        assert tableRenames[..k + 1][..k] == tableRenames[..k];
        if op.src in tables && op.dst !in tables {
          RenameTableTo(op.src, op.dst);
        }
      }
      assert tableRenames[..|tableRenames|] == tableRenames;
      for k := 0 to |columnRenames|
        invariant tables == Run(columnRenames[..k], Run(tableRenames, old(tables)))
      {
        var op := columnRenames[k];
        assert columnRenames[..k + 1][..k] == columnRenames[..k];
        if op.table in tables && op.from in tables[op.table].columns && op.to !in tables[op.table].columns {
          RenameColumnTo(op.table, op.from, op.to);
        }
      }
      assert columnRenames[..|columnRenames|] == columnRenames;
    }

    method AddColumnTo(table: string, column: string, default: Default, eval: Evaluator)
      requires table in tables && column !in tables[table].columns
      modifies this
      ensures tables == old(tables)[table := AddColumn(old(tables)[table], column, default, eval)]
    {
      tables := tables[table := AddColumn(tables[table], column, default, eval)];
    }

    /** ALTER COLUMN .. SET NOT NULL fails while some row is NULL: no caller may get here then. */
    method SetNotNull(table: string, column: string)
      requires table in tables && column in tables[table].columns && NoNull(tables[table], column)
      modifies this
      ensures tables == old(tables)[table := old(tables)[table].(columns := old(tables)[table].columns[column := true])]
    {
      tables := tables[table := tables[table].(columns := tables[table].columns[column := true])];
    }

    method CountNulls(table: string, column: string) returns (n: nat)
      requires table in tables
      ensures n == 0 <==> NoNull(tables[table], column)
    {
      n := 0;
      var rows := tables[table].rows;
      for i := 0 to |rows|
        invariant n == 0 <==> forall row <- rows[..i] :: column in row ==> row[column] != Null
      {
        assert rows[..i + 1] == rows[..i] + [rows[i]];
        if column in rows[i] && rows[i][column] == Null { n := n + 1; }
      }
      assert rows[..|rows|] == rows;
    }

    /** The reconciliation block, for one declared column after the other. */
    method ReconcileColumns(specs: seq<Spec>, eval: Evaluator)
      modifies this
      ensures tables == Reconcile(specs, eval, old(tables))
    {
      for k := 0 to |specs|
        invariant tables == Reconcile(specs[..k], eval, old(tables))
      {
        var r := specs[k];
        assert specs[..k + 1][..k] == specs[..k];
        if r.table in tables && r.column !in tables[r.table].columns {
          AddColumnTo(r.table, r.column, r.default, eval);
        }
        if r.notNull && r.table in tables && r.column in tables[r.table].columns && !tables[r.table].columns[r.column] {
          var nulls := CountNulls(r.table, r.column);
          if nulls == 0 {
            SetNotNull(r.table, r.column);
          }
        }
      }
      assert specs[..|specs|] == specs;
    }

    /** CREATE TABLE IF NOT EXISTS, in the emitted order. */
    method CreateTables(order: seq<string>, specs: seq<Spec>)
      modifies this
      ensures tables == CreateMissing(order, specs, old(tables))
    {
      for k := 0 to |order|
        invariant tables == CreateMissing(order[..k], specs, old(tables))
      {
        assert order[..k + 1][..k] == order[..k];
        if order[k] !in tables {
          tables := tables[order[k] := Relation(DeclaredColumns(specs, order[k]), [])];
        }
      }
      assert order[..|order|] == order;
    }

    method Migrate(ops: seq<Op>, order: seq<string>, specs: seq<Spec>, eval: Evaluator)
      modifies this
      ensures tables == Script(ops, order, specs, eval, old(tables))
    {
      Selections(ops, {});
      Evolve(TableOps(ops), ColumnOps(ops));
      ReconcileColumns(specs, eval);
      CreateTables(order, specs);
    }
  }

  // ---------- What the script does to a database ----------

  lemma {:induction false} DeclaredColumnsAre(specs: seq<Spec>, t: string, c: string)
    ensures c in DeclaredColumns(specs, t) <==> Declared(specs, t, c)
    ensures c in DeclaredColumns(specs, t) ==> (DeclaredColumns(specs, t)[c] <==> DeclaredNotNull(specs, t, c))
  {
    if specs != [] {
      var init, s := specs[..|specs| - 1], specs[|specs| - 1];
      assert specs == init + [s];
      DeclaredColumnsAre(init, t, c);
      DeclaredAppend(init, s, t, c);
    }
  }

  lemma {:induction false} CreatedTables(order: seq<string>, specs: seq<Spec>, db: Db)
    ensures CreateMissing(order, specs, db).Keys == db.Keys + set t | t in order
    ensures forall t <- CreateMissing(order, specs, db) ::
              CreateMissing(order, specs, db)[t] == if t in db then db[t] else Relation(DeclaredColumns(specs, t), [])
  {
    if order != [] {
      CreatedTables(order[..|order| - 1], specs, db);
    }
  }

  /** The final schema names no table and no column that a migration renamed away. */
  ghost predicate NotRedeclared(ops: seq<Op>, order: seq<string>, specs: seq<Spec>) {
    forall op <- ops ::
      match op
      case RenameTable(src, _) => src !in order
      case RenameColumn(table, from, _) => !Declared(specs, table, from)
  }

  /** On an empty database the two guarded blocks do nothing and the declared schema is created. */
  lemma FreshDatabase(ops: seq<Op>, order: seq<string>, specs: seq<Spec>, eval: Evaluator, t: string, c: string)
    ensures var db := Script(ops, order, specs, eval, map[]);
            && (t in db <==> t in order)
            && (t in db ==> db[t].rows == [])
            && (t in db ==> (c in db[t].columns <==> Declared(specs, t, c)))
            && (t in db && c in db[t].columns ==> (db[t].columns[c] <==> DeclaredNotNull(specs, t, c)))
  {
    var empty: Db := map[];
    forall op <- TableOps(ops) + ColumnOps(ops) ensures !Enabled(op, empty) {}
    Disabled(TableOps(ops), empty);
    Disabled(ColumnOps(ops), empty);
    SettledStays(specs, eval, empty);
    CreatedTables(order, specs, empty);
    DeclaredColumnsAre(specs, t, c);
  }

  /** Whatever release a database stopped at, after the script it has every declared table with every
      declared column, and running the script again changes nothing. */
  lemma ScriptConverges(ops: seq<Op>, order: seq<string>, specs: seq<Spec>, eval: Evaluator, again: Evaluator, db: Db,
                        k: nat)
    requires k <= |ops| && Valid(db) && WellFormed(ops, db) && NotRedeclared(ops, order, specs)
    ensures var done := Script(ops, order, specs, eval, Run(ops[..k], db));
            && Valid(done)
            && (forall t <- order :: t in done)
            && (forall t, c :: t in done && Declared(specs, t, c) ==> c in done[t].columns)
            && Script(ops, order, specs, again, done) == done
  {
    var evolved := Run(ops, db);
    var reconciled := Reconcile(specs, eval, evolved);
    var done := CreateMissing(order, specs, reconciled);
    ReplayConverges(ops, db, k);
    AllGone(ops, db);
    NothingLost(ops, db, "", "");
    AllSettled(specs, eval, evolved);
    CreatedTables(order, specs, reconciled);
    StillGone(ops, order, specs, eval, evolved);
    StillSettled(order, specs, reconciled);
    Selections(ops, {});
    Disabled(TableOps(ops), done);
    Disabled(ColumnOps(ops), done);
    SettledStays(specs, again, done);
    NothingToCreate(order, specs, done);
  }

  lemma StillGone(ops: seq<Op>, order: seq<string>, specs: seq<Spec>, eval: Evaluator, evolved: Db)
    requires Valid(evolved) && NotRedeclared(ops, order, specs)
    requires forall op <- ops :: if op.RenameTable? then op.src !in evolved else FromGone(op, evolved)
    ensures forall op <- ops :: !Enabled(op, CreateMissing(order, specs, Reconcile(specs, eval, evolved)))
  {
    var reconciled := Reconcile(specs, eval, evolved);
    KeepsTables(specs, eval, evolved);
    CreatedTables(order, specs, reconciled);
    forall op <- ops ensures !Enabled(op, CreateMissing(order, specs, reconciled)) {
      if op.RenameColumn? {
        DeclaredColumnsAre(specs, op.table, op.from);
        if op.table in evolved {
          Converged(specs, eval, evolved, op.table, op.from);
        }
      }
    }
  }

  lemma StillSettled(order: seq<string>, specs: seq<Spec>, reconciled: Db)
    requires Valid(reconciled) && forall s <- specs :: Settled(s, reconciled)
    ensures Valid(CreateMissing(order, specs, reconciled))
    ensures forall s <- specs :: Settled(s, CreateMissing(order, specs, reconciled))
  {
    CreatedTables(order, specs, reconciled);
    forall s <- specs ensures Settled(s, CreateMissing(order, specs, reconciled)) {
      assert Settled(s, reconciled);
      DeclaredColumnsAre(specs, s.table, s.column);
    }
  }

  lemma {:induction false} NothingToCreate(order: seq<string>, specs: seq<Spec>, db: Db)
    requires forall t <- order :: t in db
    ensures CreateMissing(order, specs, db) == db
  {
    if order != [] {
      NothingToCreate(order[..|order| - 1], specs, db);
    }
  }

  /** Every table afterwards is one the renames left, its columns reconciled, or a declared one, created empty. */
  lemma ScriptColumns(ops: seq<Op>, order: seq<string>, specs: seq<Spec>, eval: Evaluator, db: Db, k: nat, t: string,
                      c: string)
    requires k <= |ops| && Valid(db) && WellFormed(ops, db)
    ensures var evolved, done := Run(ops, db), Script(ops, order, specs, eval, Run(ops[..k], db));
            && (t in done <==> t in evolved || t in order)
            && (t in evolved ==> ColumnConverged(specs, eval, evolved[t], done[t], t, c))
            && (t in done && t !in evolved ==> done[t] == Relation(DeclaredColumns(specs, t), []))
  {
    var evolved := Run(ops, db);
    var reconciled := Reconcile(specs, eval, evolved);
    ReplayConverges(ops, db, k);
    NothingLost(ops, db, "", "");
    KeepsTables(specs, eval, evolved);
    hide *;
    ScriptUnfold(ops, order, specs, eval, Run(ops[..k], db));
    CreatedTables(order, specs, reconciled);
    if t in evolved { Converged(specs, eval, evolved, t, c); }
  }

  lemma ScriptUnfold(ops: seq<Op>, order: seq<string>, specs: seq<Spec>, eval: Evaluator, db: Db)
    ensures Script(ops, order, specs, eval, db) == CreateMissing(order, specs, Reconcile(specs, eval, Replay(ops, db)))
  {
  }

  /** Every cell of the database the script starts on is there afterwards, under the names the missing renames
      lead to, and its column is NOT NULL if it was before, or if that is declared and no row objects. */
  lemma ScriptKeepsRows(ops: seq<Op>, order: seq<string>, specs: seq<Spec>, eval: Evaluator, db: Db, k: nat,
                        t: string, c: string)
    requires k <= |ops| && Valid(db) && WellFormed(ops, db)
    requires t in Run(ops[..k], db) && c in Run(ops[..k], db)[t].columns
    ensures var stopped := Run(ops[..k], db);
            var done := Script(ops, order, specs, eval, stopped);
            var t', c' := TableAfter(ops[k..], stopped, t), ColumnAfter(ops[k..], stopped, t, c);
            && t' in done && c' in done[t'].columns
            && |done[t'].rows| == |stopped[t].rows|
            && (forall i :: 0 <= i < |stopped[t].rows| ==>
                              && c in stopped[t].rows[i] && c' in done[t'].rows[i]
                              && done[t'].rows[i][c'] == stopped[t].rows[i][c])
            && (done[t'].columns[c'] <==>
                stopped[t].columns[c] || (DeclaredNotNull(specs, t', c') && NoNull(done[t'], c')))
  {
    var stopped, missing := Run(ops[..k], db), ops[k..];
    var t', c' := TableAfter(missing, stopped, t), ColumnAfter(missing, stopped, t, c);
    ReplayConverges(ops, db, k);
    NothingLost(ops[..k], db, "", "");
    NothingLost(missing, stopped, t, c);
    assert forall i :: 0 <= i < |stopped[t].rows| ==> c in stopped[t].rows[i] by {
      forall i | 0 <= i < |stopped[t].rows| ensures c in stopped[t].rows[i] {
        assert stopped[t].rows[i] in stopped[t].rows;
      }
    }
    hide Run, Script, TableAfter, ColumnAfter, WellFormed, Replay, NoNull;
    ScriptColumns(ops, order, specs, eval, db, k, t', c');
  }
}
