/** Renames replayed from the migration chain, each guarded on its source existing and its target
    not existing. */
module Evolution {
  import opened Catalog

  datatype Op =
    | RenameTable(src: string, dst: string)
    | RenameColumn(table: string, from: string, to: string)

  // ---------- One guarded rename ----------

  predicate Enabled(op: Op, db: Db) {
    match op
    case RenameTable(src, dst) => src in db && dst !in db
    case RenameColumn(table, from, to) => table in db && from in db[table].columns && to !in db[table].columns
  }

  function MoveKey<V>(m: map<string, V>, from: string, to: string): map<string, V>
    requires from in m
  {
    (m - {from})[to := m[from]]
  }

  function MoveCell(row: Row, from: string, to: string): Row {
    if from in row then MoveKey(row, from, to) else row
  }

  function RenameIn(t: Relation, from: string, to: string): Relation
    requires from in t.columns
  {
    Relation(MoveKey(t.columns, from, to), seq(|t.rows|, i requires 0 <= i < |t.rows| => MoveCell(t.rows[i], from, to)))
  }

  function Apply(op: Op, db: Db): Db {
    if !Enabled(op, db) then db
    else match op
         case RenameTable(src, dst) => MoveKey(db, src, dst)
         case RenameColumn(table, from, to) => db[table := RenameIn(db[table], from, to)]
  }

  /** A table that is there takes a name that is free, as it is; every other rename of a table does nothing. */
  lemma RenamedTable(src: string, dst: string, db: Db)
    ensures var after := Apply(RenameTable(src, dst), db);
            if src in db && dst !in db then
              && src !in after && dst in after && after[dst] == db[src]
              && forall t :: t != src && t != dst ==> (t in after <==> t in db) && (t in db ==> after[t] == db[t])
            else after == db
  {
  }

  /** A column that is there takes a name that is free in its table, with its cells and its NOT NULL; every other rename
      of a column does nothing. */
  lemma RenamedColumn(table: string, from: string, to: string, db: Db)
    requires table in db ==> ValidRelation(db[table])
    ensures var after := Apply(RenameColumn(table, from, to), db);
            if table in db && from in db[table].columns && to !in db[table].columns then
              && after.Keys == db.Keys && (forall t :: t in db && t != table ==> after[t] == db[t])
              && var r, r' := db[table], after[table];
                 && from !in r'.columns && to in r'.columns && r'.columns[to] == r.columns[from]
                 && |r'.rows| == |r.rows|
                 && (forall c :: c != from && c != to ==>
                                   (c in r'.columns <==> c in r.columns)
                                   && (c in r.columns ==> r'.columns[c] == r.columns[c]))
                 && forall i :: 0 <= i < |r.rows| ==>
                                  && from in r.rows[i] && r'.rows[i] == (r.rows[i] - {from})[to := r.rows[i][from]]
            else after == db
  {
    if table in db && from in db[table].columns && to !in db[table].columns {
      var r := db[table];
      forall i | 0 <= i < |r.rows| ensures from in r.rows[i] {
        assert r.rows[i] in r.rows;
      }
    }
  }

  /** The renames in order: what the migration chain does to a database. */
  function Run(ops: seq<Op>, db: Db): Db {
    if ops == [] then db else Apply(ops[|ops| - 1], Run(ops[..|ops| - 1], db))
  }

  function TableOps(ops: seq<Op>): seq<Op> {
    if ops == [] then []
    else TableOps(ops[..|ops| - 1]) + if ops[|ops| - 1].RenameTable? then [ops[|ops| - 1]] else []
  }

  function ColumnOps(ops: seq<Op>): seq<Op> {
    if ops == [] then []
    else ColumnOps(ops[..|ops| - 1]) + if ops[|ops| - 1].RenameColumn? then [ops[|ops| - 1]] else []
  }

  /** The emitted block: every table rename, then every column rename. */
  function Replay(ops: seq<Op>, db: Db): Db {
    Run(ColumnOps(ops), Run(TableOps(ops), db))
  }

  // ---------- What a chain must look like ----------

  /** The names a table can ever have. */
  function Reachable(ops: seq<Op>, db: Db): set<string> {
    db.Keys + set op | op in ops && op.RenameTable? :: op.dst
  }

  /** A table rebuild (`x_new` renamed to `x`) starts from a name no migration boundary ever shows. */
  predicate Live(op: Op, names: set<string>) {
    op.RenameTable? ==> op.src in names
  }

  function LiveOps(ops: seq<Op>, names: set<string>): seq<Op> {
    if ops == [] then []
    else LiveOps(ops[..|ops| - 1], names) + if Live(ops[|ops| - 1], names) then [ops[|ops| - 1]] else []
  }

  /** A table's new name was never used before. */
  ghost predicate FreshTables(ops: seq<Op>, db: Db) {
    forall i :: 0 <= i < |ops| && ops[i].RenameTable? ==>
                  && ops[i].dst !in db && ops[i].dst != ops[i].src
                  && forall j :: 0 <= j < i && ops[j].RenameTable? ==>
                     ops[i].dst != ops[j].src && ops[i].dst != ops[j].dst
  }

  /** Every column rename names its table by the name it keeps from then on. */
  ghost predicate FinalNames(ops: seq<Op>) {
    forall i, j :: 0 <= i < j < |ops| && ops[i].RenameColumn? && ops[j].RenameTable? ==>
                     ops[i].table != ops[j].src && ops[i].table != ops[j].dst
  }

  /** The name of a table after the renames. */
  function TableAfter(ops: seq<Op>, db: Db, t: string): string {
    if ops == [] then t
    else
      var init, op := ops[..|ops| - 1], ops[|ops| - 1];
      var t' := TableAfter(init, db, t);
      if op.RenameTable? && op.src == t' && Enabled(op, Run(init, db)) then op.dst else t'
  }

  /** Where the replay has come to when it reaches the `i`-th rename, a column rename. */
  function ReplayedBefore(ops: seq<Op>, db: Db, i: nat): Db
    requires i <= |ops|
  {
    Run(ColumnOps(ops[..i]), Run(TableOps(ops), db))
  }

  /** Of the column renames under a passing name, none whose name is taken away has an effect when the chain
      reaches it, and none whose name is given later would have one when the replay does. */
  ghost predicate SettledNames(ops: seq<Op>, db: Db) {
    forall i, j :: 0 <= i < j < |ops| && ops[i].RenameColumn? && ops[j].RenameTable? ==>
                     && (ops[i].table == ops[j].src ==> !Enabled(ops[i], Run(ops[..i], db)))
                     && (ops[i].table == ops[j].dst ==> !Enabled(ops[i], ReplayedBefore(ops, db, i)))
  }

  /** The `h`-th rename is recorded under the name the table `t` has by then. */
  predicate Concerns(ops: seq<Op>, db: Db, t: string, h: nat)
    requires h < |ops|
  {
    ops[h].RenameColumn? && ops[h].table == TableAfter(ops[..h], db, t)
  }

  /** The `i`-th rename is recorded under the name the table has by then, or under its last name. */
  ghost predicate OnTable(ops: seq<Op>, db: Db, t: string, i: nat) {
    i < |ops| && ops[i].RenameColumn? && (Concerns(ops, db, t, i) || ops[i].table == TableAfter(ops, db, t))
  }

  /** A column's new name was never used before in that table, whatever the table was called. */
  ghost predicate FreshIn(ops: seq<Op>, db: Db, t: string)
    requires t in db
  {
    forall i: nat :: OnTable(ops, db, t, i) ==>
                       && ops[i].from != ops[i].to && ops[i].to !in db[t].columns
                       && forall h: nat :: h < i && OnTable(ops, db, t, h) ==>
                                             ops[i].to != ops[h].from && ops[i].to != ops[h].to
  }

  ghost predicate FreshColumns(ops: seq<Op>, db: Db) {
    forall t <- db :: FreshIn(ops, db, t)
  }

  ghost predicate Orderly(live: seq<Op>, db: Db) {
    FreshTables(live, db) && SettledNames(live, db) && FreshColumns(live, db)
  }

  /** The chain without its rebuilds uses fresh names and settled table names. */
  ghost predicate WellFormed(ops: seq<Op>, db: Db) {
    Orderly(LiveOps(ops, Reachable(ops, db)), db)
  }

  lemma {:induction false} Selections(ops: seq<Op>, names: set<string>)
    ensures forall op :: op in TableOps(ops) <==> op in ops && op.RenameTable?
    ensures forall op :: op in ColumnOps(ops) <==> op in ops && op.RenameColumn?
    ensures forall op :: op in LiveOps(ops, names) <==> op in ops && Live(op, names)
  {
    if ops != [] {
      Selections(ops[..|ops| - 1], names);
      assert ops == ops[..|ops| - 1] + [ops[|ops| - 1]];
    }
  }

  // ---------- Running sequences ----------

  lemma {:induction false} RunAppend(a: seq<Op>, b: seq<Op>, db: Db)
    ensures Run(a + b, db) == Run(b, Run(a, db))
  {
    if b == [] {
      assert a + b == a;
    } else {
      var init := b[..|b| - 1];
      assert (a + b)[..|a + b| - 1] == a + init;
      RunAppend(a, init, db);
    }
  }

  lemma {:induction false} TableOpsAppend(a: seq<Op>, b: seq<Op>)
    ensures TableOps(a + b) == TableOps(a) + TableOps(b)
  {
    if b == [] {
      assert a + b == a;
    } else {
      var init := b[..|b| - 1];
      assert (a + b)[..|a + b| - 1] == a + init;
      TableOpsAppend(a, init);
    }
  }

  lemma {:induction false} ColumnOpsAppend(a: seq<Op>, b: seq<Op>)
    ensures ColumnOps(a + b) == ColumnOps(a) + ColumnOps(b)
  {
    if b == [] {
      assert a + b == a;
    } else {
      var init := b[..|b| - 1];
      assert (a + b)[..|a + b| - 1] == a + init;
      ColumnOpsAppend(a, init);
    }
  }

  lemma {:induction false} LiveAppend(a: seq<Op>, b: seq<Op>, names: set<string>)
    ensures LiveOps(a + b, names) == LiveOps(a, names) + LiveOps(b, names)
  {
    if b == [] {
      assert a + b == a;
    } else {
      var init := b[..|b| - 1];
      assert (a + b)[..|a + b| - 1] == a + init;
      LiveAppend(a, init, names);
    }
  }

  lemma SelectOne(op: Op, names: set<string>)
    ensures TableOps([op]) == if op.RenameTable? then [op] else []
    ensures ColumnOps([op]) == if op.RenameColumn? then [op] else []
    ensures LiveOps([op], names) == if Live(op, names) then [op] else []
  {
    assert [op][..0] == [];
  }

  lemma {:induction false} LiveTables(ops: seq<Op>, names: set<string>)
    ensures LiveOps(TableOps(ops), names) == TableOps(LiveOps(ops, names))
  {
    if ops != [] {
      hide *;
      var init, last := ops[..|ops| - 1], [ops[|ops| - 1]];
      assert ops == init + last;
      LiveTables(init, names);
      TableOpsAppend(init, last);
      LiveAppend(init, last, names);
      LiveAppend(TableOps(init), TableOps(last), names);
      TableOpsAppend(LiveOps(init, names), LiveOps(last, names));
      SelectNone(names);
      SelectOne(last[0], names);
    }
  }

  lemma {:induction false} LiveColumns(ops: seq<Op>, names: set<string>)
    ensures LiveOps(ColumnOps(ops), names) == ColumnOps(LiveOps(ops, names))
  {
    if ops != [] {
      hide *;
      var init, last := ops[..|ops| - 1], [ops[|ops| - 1]];
      assert ops == init + last;
      LiveColumns(init, names);
      ColumnOpsAppend(init, last);
      LiveAppend(init, last, names);
      LiveAppend(ColumnOps(init), ColumnOps(last), names);
      ColumnOpsAppend(LiveOps(init, names), LiveOps(last, names));
      SelectNone(names);
      SelectOne(last[0], names);
    }
  }

  lemma SelectNone(names: set<string>)
    ensures TableOps([]) == [] && ColumnOps([]) == [] && LiveOps([], names) == []
  {
  }

  lemma ApplyKeys(op: Op, db: Db, names: set<string>)
    requires db.Keys <= names && (op.RenameTable? ==> op.dst in names)
    ensures Apply(op, db).Keys <= names
  {
  }

  lemma {:induction false} RunKeys(ops: seq<Op>, db: Db, names: set<string>)
    requires db.Keys <= names && forall op <- ops :: op.RenameTable? ==> op.dst in names
    ensures Run(ops, db).Keys <= names
  {
    if ops != [] {
      RunKeys(ops[..|ops| - 1], db, names);
      ApplyKeys(ops[|ops| - 1], Run(ops[..|ops| - 1], db), names);
    }
  }

  /** Rebuilds are never enabled, so a run is a run of its live renames. */
  lemma {:induction false} OnlyLiveRuns(ops: seq<Op>, db: Db, names: set<string>)
    requires db.Keys <= names && forall op <- ops :: op.RenameTable? ==> op.dst in names
    ensures Run(ops, db) == Run(LiveOps(ops, names), db)
  {
    if ops != [] {
      var init, last := ops[..|ops| - 1], ops[|ops| - 1];
      OnlyLiveRuns(init, db, names);
      RunKeys(init, db, names);
      if Live(last, names) {
        assert (LiveOps(init, names) + [last])[..|LiveOps(init, names)|] == LiveOps(init, names);
      } else {
        assert LiveOps(ops, names) == LiveOps(init, names);
      }
    }
  }

  // ---------- Column renames move past table renames ----------

  lemma Commute(col: Op, tab: Op, db: Db)
    requires col.RenameColumn? && tab.RenameTable? && col.table != tab.src && col.table != tab.dst
    ensures Apply(tab, Apply(col, db)) == Apply(col, Apply(tab, db))
  {
  }

  lemma {:induction false} CommuteOver(col: Op, tabs: seq<Op>, db: Db)
    requires col.RenameColumn? && forall t <- tabs :: t.RenameTable? && col.table != t.src && col.table != t.dst
    ensures Run(tabs, Apply(col, db)) == Apply(col, Run(tabs, db))
  {
    if tabs != [] {
      var init := tabs[..|tabs| - 1];
      CommuteOver(col, init, db);
      Commute(col, tabs[|tabs| - 1], Run(init, db));
    }
  }

  ghost predicate Apart(cols: seq<Op>, tabs: seq<Op>) {
    && (forall c <- cols :: c.RenameColumn?)
    && (forall t <- tabs :: t.RenameTable?)
    && forall c, t :: c in cols && t in tabs ==> c.table != t.src && c.table != t.dst
  }

  lemma {:induction false} CommuteAll(cols: seq<Op>, tabs: seq<Op>, db: Db)
    requires Apart(cols, tabs)
    ensures Run(tabs, Run(cols, db)) == Run(cols, Run(tabs, db))
  {
    if cols != [] {
      var init := cols[..|cols| - 1];
      CommuteAll(init, tabs, db);
      CommuteOver(cols[|cols| - 1], tabs, Run(init, db));
    }
  }

  /** Emitting table renames first changes nothing when column renames use final names. */
  lemma {:induction false} ReplayIsRun(ops: seq<Op>, db: Db)
    requires FinalNames(ops)
    ensures Replay(ops, db) == Run(ops, db)
  {
    if ops != [] {
      var init, last := ops[..|ops| - 1], [ops[|ops| - 1]];
      assert ops == init + last;
      assert Apart(ColumnOps(init), TableOps(last)) by {
        hide Apply, Run;
        Selections(init, {});
        Selections(last, {});
      }
      assert FinalNames(init);
      hide *;
      ReplayIsRun(init, db);
      ReplaySplit(init, last, db);
      SelectOne(last[0], {});
      ReplayOne(last[0], Run(init, db));
      RunAppend(init, last, db);
    }
  }

  /** A replay of a chain is a replay of its start and then of its end, when no column rename of the
      start concerns a table renamed in the end. */
  lemma ReplaySplit(a: seq<Op>, b: seq<Op>, db: Db)
    requires Apart(ColumnOps(a), TableOps(b))
    ensures Replay(a + b, db) == Replay(b, Replay(a, db))
  {
    hide Run, TableOps, ColumnOps, Apart;
    TableOpsAppend(a, b);
    ColumnOpsAppend(a, b);
    RunAppend(TableOps(a), TableOps(b), db);
    RunAppend(ColumnOps(a), ColumnOps(b), Run(TableOps(b), Run(TableOps(a), db)));
    CommuteAll(ColumnOps(a), TableOps(b), Run(TableOps(a), db));
  }

  lemma ReplayOne(op: Op, db: Db)
    ensures Replay([op], db) == Run([op], db)
  {
    SelectOne(op, {});
  }

  lemma RunOne(op: Op, db: Db)
    ensures Run([op], db) == Apply(op, db)
  {
    assert Run([op][..0], db) == db;
  }

  // ---------- Table renames that have happened ----------

  lemma {:induction false} SourcesGone(tabs: seq<Op>, db: Db, k: nat)
    requires k <= |tabs| && FreshTables(tabs, db) && forall t <- tabs :: t.RenameTable?
    ensures forall i :: 0 <= i < k ==> tabs[i].src !in Run(tabs[..k], db)
    ensures forall i :: k <= i < |tabs| ==> tabs[i].dst !in Run(tabs[..k], db)
  {
    if k > 0 {
      SourcesGone(tabs, db, k - 1);
      assert tabs[..k][..k - 1] == tabs[..k - 1];
    }
  }

  lemma {:induction false} Disabled(ops: seq<Op>, db: Db)
    requires forall op <- ops :: !Enabled(op, db)
    ensures Run(ops, db) == db
  {
    if ops != [] {
      Disabled(ops[..|ops| - 1], db);
    }
  }

  lemma {:induction false} ColumnsKeepTables(cols: seq<Op>, db: Db)
    requires forall c <- cols :: c.RenameColumn?
    ensures Run(cols, db).Keys == db.Keys
  {
    if cols != [] {
      assert cols[|cols| - 1] in cols;
      ColumnsKeepTables(cols[..|cols| - 1], db);
      var before := Run(cols[..|cols| - 1], db);
      assert Apply(cols[|cols| - 1], before).Keys == before.Keys;
    }
  }

  /** Freshness of a chain is freshness of its table renames, and of any beginning of them. */
  lemma {:induction false} TablesFresh(past: seq<Op>, missing: seq<Op>, db: Db)
    requires FreshTables(past + missing, db)
    ensures FreshTables(TableOps(past), db)
  {
    if past != [] {
      var init, last := past[..|past| - 1], past[|past| - 1];
      assert init + ([last] + missing) == past + missing;
      TablesFresh(init, [last] + missing, db);
      Selections(init, {});
      var tabs := TableOps(init);
      assert (past + missing)[|init|] == last;
      if last.RenameTable? {
        forall j | 0 <= j < |tabs| ensures last.dst != tabs[j].src && last.dst != tabs[j].dst {
          assert tabs[j] in init;
          var i :| 0 <= i < |init| && init[i] == tabs[j];
          assert (past + missing)[i] == tabs[j];
        }
      }
    }
  }

  /** No table rename's source is left in the end. */
  lemma SourceGone(ops: seq<Op>, db: Db, j: nat)
    requires FreshTables(ops, db) && j < |ops| && ops[j].RenameTable?
    ensures ops[j].src !in Run(TableOps(ops), db)
  {
    assert ops + [] == ops;
    TablesFresh(ops, [], db);
    hide Run, TableOps, FreshTables;
    Selections(ops, {});
    var tabs := TableOps(ops);
    SourcesGone(tabs, db, |tabs|);
    assert tabs[..|tabs|] == tabs && ops[j] in tabs;
  }

  lemma ReplayUnfold(ops: seq<Op>, db: Db)
    ensures Replay(ops, db) == Run(ColumnOps(ops), Run(TableOps(ops), db))
  {
  }

  lemma {:induction false} SameTables(ops: seq<Op>, db: Db)
    ensures Run(ops, db).Keys == Run(TableOps(ops), db).Keys
  {
    if ops != [] {
      var init, op := ops[..|ops| - 1], ops[|ops| - 1];
      SameTables(init, db);
      if op.RenameTable? {
        assert TableOps(ops)[..|TableOps(ops)| - 1] == TableOps(init);
      } else {
        assert TableOps(ops) == TableOps(init);
      }
    }
  }

  /** The table renames alone carry every table to its last name as it was. */
  lemma {:induction false} TablesMove(ops: seq<Op>, db: Db, t: string)
    requires t in db
    ensures var tables := Run(TableOps(ops), db);
            TableAfter(ops, db, t) in tables && tables[TableAfter(ops, db, t)] == db[t]
  {
    if ops != [] {
      var init, op := ops[..|ops| - 1], ops[|ops| - 1];
      TablesMove(init, db, t);
      SameTables(init, db);
      AfterStep(ops, db, t);
      assert ops == init + [op];
      hide *;
      TableOpsAppend(init, [op]);
      SelectOne(op, {});
      RunAppend(TableOps(init), TableOps([op]), db);
      if op.RenameTable? {
        RunOne(op, Run(TableOps(init), db));
        MovedOnce(op, Run(init, db), Run(TableOps(init), db), TableAfter(init, db, t));
      } else {
        assert TableOps(init) + [] == TableOps(init);
      }
    }
  }

  lemma AfterStep(ops: seq<Op>, db: Db, t: string)
    requires ops != []
    ensures var init, op := ops[..|ops| - 1], ops[|ops| - 1];
            var t' := TableAfter(init, db, t);
            TableAfter(ops, db, t) == if op.RenameTable? && op.src == t' && Enabled(op, Run(init, db)) then op.dst
                else t'
  {
  }

  lemma MovedOnce(op: Op, like: Db, db: Db, t: string)
    requires op.RenameTable? && t in db && like.Keys == db.Keys
    ensures var t' := if op.src == t && Enabled(op, like) then op.dst else t;
            t' in Apply(op, db) && Apply(op, db)[t'] == db[t]
  {
  }

  // ---------- Renames lose nothing ----------

  function ColumnAfter(ops: seq<Op>, db: Db, t: string, c: string): string {
    if ops == [] then c
    else
      var init, op := ops[..|ops| - 1], ops[|ops| - 1];
      var c' := ColumnAfter(init, db, t, c);
      if op.RenameColumn? && op.table == TableAfter(init, db, t) && op.from == c' && Enabled(op, Run(init, db))
      then op.to else c'
  }

  ghost predicate CellKept(before: Db, after: Db, t: string, c: string, t': string, c': string) {
    t in before && c in before[t].columns ==>
      && t' in after && c' in after[t'].columns
      && after[t'].columns[c'] == before[t].columns[c]
      && |after[t'].rows| == |before[t].rows|
      && forall i :: 0 <= i < |before[t].rows| && c in before[t].rows[i] ==>
                       c' in after[t'].rows[i] && after[t'].rows[i][c'] == before[t].rows[i][c]
  }

  lemma StepKeepsCell(op: Op, db: Db, t: string, c: string)
    requires Valid(db)
    ensures Valid(Apply(op, db))
    ensures var t' := if op.RenameTable? && op.src == t && Enabled(op, db) then op.dst else t;
            var c' := if op.RenameColumn? && op.table == t && op.from == c && Enabled(op, db) then op.to else c;
            CellKept(db, Apply(op, db), t, c, t', c')
  {
    if Enabled(op, db) && op.RenameColumn? {
      RenameInValid(db[op.table], op.from, op.to);
    }
  }

  lemma RenameInValid(t: Relation, from: string, to: string)
    requires ValidRelation(t) && from in t.columns && to !in t.columns
    ensures ValidRelation(RenameIn(t, from, to))
  {
    var t' := RenameIn(t, from, to);
    forall row <- t'.rows ensures row.Keys == t'.columns.Keys {
      var i :| 0 <= i < |t'.rows| && t'.rows[i] == row;
      assert t.rows[i] in t.rows;
    }
    forall c | c in t'.columns && t'.columns[c] ensures NoNull(t', c) {
      var c0 := if c == to then from else c;
      assert t.columns[c0] && NoNull(t, c0);
      forall i | 0 <= i < |t'.rows| ensures t'.rows[i][c] != Null {
        assert t.rows[i] in t.rows;
      }
    }
  }

  /** Whatever the renames, every table, every column and every cell is there afterwards under the name
      they lead to, and no two tables or columns end up under the same name. */
  lemma {:induction false} NothingLost(ops: seq<Op>, db: Db, t: string, c: string)
    requires Valid(db)
    ensures Valid(Run(ops, db))
    ensures CellKept(db, Run(ops, db), t, c, TableAfter(ops, db, t), ColumnAfter(ops, db, t, c))
  {
    if ops != [] {
      var init, op := ops[..|ops| - 1], ops[|ops| - 1];
      NothingLost(init, db, t, c);
      StepKeepsCell(op, Run(init, db), TableAfter(init, db, t), ColumnAfter(init, db, t, c));
      hide Apply, Enabled, Valid;
    }
  }

  lemma {:induction false} TablesStayApart(ops: seq<Op>, db: Db, t: string, u: string)
    requires t in db && u in db
    ensures TableAfter(ops, db, t) in Run(ops, db) && TableAfter(ops, db, u) in Run(ops, db)
    ensures t != u ==> TableAfter(ops, db, t) != TableAfter(ops, db, u)
  {
    if ops != [] {
      TablesStayApart(ops[..|ops| - 1], db, t, u);
    }
  }

  lemma {:induction false} ColumnsStayApart(ops: seq<Op>, db: Db, t: string, c: string, d: string)
    requires t in db && c in db[t].columns && d in db[t].columns
    ensures TableAfter(ops, db, t) in Run(ops, db)
    ensures ColumnAfter(ops, db, t, c) in Run(ops, db)[TableAfter(ops, db, t)].columns
    ensures ColumnAfter(ops, db, t, d) in Run(ops, db)[TableAfter(ops, db, t)].columns
    ensures c != d ==> ColumnAfter(ops, db, t, c) != ColumnAfter(ops, db, t, d)
  {
    if ops != [] {
      ColumnsStayApart(ops[..|ops| - 1], db, t, c, d);
    }
  }

  // ---------- The names of one table ----------

  lemma AfterAppend(a: seq<Op>, b: seq<Op>, db: Db, t: string)
    ensures TableAfter(a + b, db, t) == TableAfter(b, Run(a, db), TableAfter(a, db, t))
  {
    hide Run, Enabled;
    if b == [] {
      assert a + b == a;
    } else {
      var init := b[..|b| - 1];
      assert (a + b)[..|a + b| - 1] == a + init;
      AfterAppend(a, init, db, t);
      RunAppend(a, init, db);
    }
  }

  lemma {:induction false} Owner(ops: seq<Op>, db: Db, u: string) returns (t: string)
    requires u in Run(ops, db)
    ensures t in db && TableAfter(ops, db, t) == u
  {
    if ops == [] {
      t := u;
    } else {
      var init, op := ops[..|ops| - 1], ops[|ops| - 1];
      t := Owner(init, db, if op.RenameTable? && Enabled(op, Run(init, db)) && u == op.dst then op.src else u);
    }
  }

  /** A name that is not the table's last one is taken away. */
  lemma {:induction false} NameTaken(ops: seq<Op>, db: Db, t: string, i: nat, k: nat) returns (j: nat)
    requires i <= k <= |ops| && TableAfter(ops[..i], db, t) != TableAfter(ops[..k], db, t)
    ensures i <= j < k && ops[j].RenameTable? && ops[j].src == TableAfter(ops[..i], db, t)
    decreases k - i
  {
    hide Run, Enabled;
    assert ops[..i + 1][..i] == ops[..i];
    AfterStep(ops[..i + 1], db, t);
    if TableAfter(ops[..i + 1], db, t) == TableAfter(ops[..i], db, t) {
      j := NameTaken(ops, db, t, i + 1, k);
    } else {
      j := i;
    }
  }

  /** A name the table has not yet is given to it. */
  lemma {:induction false} NameGiven(ops: seq<Op>, db: Db, t: string, i: nat, k: nat) returns (j: nat)
    requires i <= k <= |ops| && TableAfter(ops[..i], db, t) != TableAfter(ops[..k], db, t)
    ensures i <= j < k && ops[j].RenameTable? && ops[j].dst == TableAfter(ops[..k], db, t)
    decreases k - i
  {
    hide Run, Enabled;
    assert ops[..k][..k - 1] == ops[..k - 1];
    AfterStep(ops[..k], db, t);
    if TableAfter(ops[..k - 1], db, t) == TableAfter(ops[..k], db, t) {
      j := NameGiven(ops, db, t, i, k - 1);
    } else {
      j := k - 1;
    }
  }

  lemma NotYet(ops: seq<Op>, db: Db, i: nat, j: nat)
    requires FreshTables(ops, db) && i <= j < |ops| && ops[j].RenameTable?
    ensures ops[j].dst !in Run(ops[..i], db)
  {
    hide Run;
    var names := db.Keys + set k | 0 <= k < i && ops[k].RenameTable? :: ops[k].dst;
    RunKeys(ops[..i], db, names);
  }

  /** On a database with the past behind it the past's table renames do nothing. */
  lemma PastTablesDone(past: seq<Op>, missing: seq<Op>, db: Db)
    requires FreshTables(past + missing, db)
    ensures Run(TableOps(past), Run(past, db)) == Run(past, db)
  {
    TablesFresh(past, missing, db);
    Selections(past, {});
    SameTables(past, db);
    var tabs := TableOps(past);
    SourcesGone(tabs, db, |tabs|);
    assert tabs[..|tabs|] == tabs;
    hide Run;
    Disabled(tabs, Run(past, db));
  }

  /** The table renames, replayed on a database that stopped after `k` migrations, carry every table to its last
      name as it was. */
  lemma TablesReplayed(ops: seq<Op>, db: Db, k: nat)
    requires FreshTables(ops, db) && k <= |ops|
    ensures var base := Run(TableOps(ops), Run(ops[..k], db));
            && base.Keys == Run(ops, db).Keys
            && forall t <- db :: TableAfter(ops, db, t) in base
                                 && base[TableAfter(ops, db, t)] == InRun(ops, db, t, k)
  {
    var past, missing := ops[..k], ops[k..];
    assert ops == past + missing;
    PastTablesDone(past, missing, db);
    hide Run, TableOps, FreshTables, TableAfter;
    var stopped := Run(past, db);
    TableOpsAppend(past, missing);
    RunAppend(TableOps(past), TableOps(missing), stopped);
    RunAppend(past, missing, db);
    SameTables(missing, stopped);
    forall t <- db ensures var base := Run(TableOps(ops), stopped);
                           TableAfter(ops, db, t) in base && base[TableAfter(ops, db, t)] == InRun(ops, db, t, k)
    {
      AfterAppend(past, missing, db, t);
      TablesStayApart(past, db, t, t);
      TablesMove(missing, stopped, TableAfter(past, db, t));
    }
  }

  // ---------- One table, rename by rename ----------

  function Look(db: Db, name: string): Relation {
    if name in db then db[name] else Relation(map[], [])
  }

  /** The table when the chain has come to its `k`-th rename. */
  function InRun(ops: seq<Op>, db: Db, t: string, k: nat): Relation
    requires k <= |ops|
  {
    Look(Run(ops[..k], db), TableAfter(ops[..k], db, t))
  }

  /** The table under its last name when the replay on these tables has come to the `k`-th rename. */
  function InReplay(ops: seq<Op>, base: Db, last: string, k: nat): Relation
    requires k <= |ops|
  {
    Look(Run(ColumnOps(ops[..k]), base), last)
  }

  function Renamed(r: Relation, op: Op): Relation
    requires op.RenameColumn?
  {
    if op.from in r.columns && op.to !in r.columns then RenameIn(r, op.from, op.to) else r
  }

  lemma OneStep(op: Op, db: Db, name: string)
    requires name in db
    ensures var name' := if op.RenameTable? && op.src == name && Enabled(op, db) then op.dst else name;
            && name' in Apply(op, db)
            && Apply(op, db)[name'] == if op.RenameColumn? && op.table == name then Renamed(db[name], op) else db[name]
  {
  }

  lemma InRunStep(ops: seq<Op>, db: Db, t: string, k: nat)
    requires t in db && k < |ops|
    ensures TableAfter(ops[..k], db, t) in Run(ops[..k], db)
    ensures InRun(ops, db, t, k + 1) ==
            if Concerns(ops, db, t, k) then Renamed(InRun(ops, db, t, k), ops[k]) else InRun(ops, db, t, k)
  {
    ConcernsUnfold(ops, db, t, k);
    hide Run, TableAfter, Apply, Enabled, Concerns, Renamed;
    assert ops[..k + 1][..k] == ops[..k];
    TablesStayApart(ops[..k], db, t, t);
    RunStep(ops[..k + 1], db);
    AfterStep(ops[..k + 1], db, t);
    OneStep(ops[k], Run(ops[..k], db), TableAfter(ops[..k], db, t));
  }

  lemma InReplayStep(ops: seq<Op>, base: Db, last: string, k: nat)
    requires last in base && k < |ops|
    ensures last in Run(ColumnOps(ops[..k]), base)
    ensures InReplay(ops, base, last, k + 1) ==
            if ops[k].RenameColumn? && ops[k].table == last then Renamed(InReplay(ops, base, last, k), ops[k])
            else InReplay(ops, base, last, k)
  {
    hide Run, ColumnOps, Apply, Enabled, Renamed;
    var op, before := ops[k], ColumnOps(ops[..k]);
    assert ops[..k + 1] == ops[..k] + [op];
    ColumnOpsAppend(ops[..k], [op]);
    SelectOne(op, {});
    Selections(ops[..k], {});
    ColumnsKeepTables(before, base);
    if op.RenameColumn? {
      RunAppend(before, [op], base);
      RunOne(op, Run(before, base));
      OneStep(op, Run(before, base), last);
    } else {
      assert before + [] == before;
    }
  }

  lemma NotEnabledSame(op: Op, db: Db)
    requires op.RenameColumn? && op.table in db && !Enabled(op, db)
    ensures Renamed(db[op.table], op) == db[op.table]
  {
  }

  lemma ConcernsUnfold(ops: seq<Op>, db: Db, t: string, h: nat)
    requires h < |ops|
    ensures Concerns(ops, db, t, h) <==> ops[h].RenameColumn? && ops[h].table == TableAfter(ops[..h], db, t)
  {
  }

  lemma RunStep(ops: seq<Op>, db: Db)
    requires ops != []
    ensures Run(ops, db) == Apply(ops[|ops| - 1], Run(ops[..|ops| - 1], db))
  {
  }

  /** The column rename hits the table in only one of the two orders, and settled names leave it without effect. */
  lemma SettledStep(ops: seq<Op>, db: Db, t: string, k: nat)
    requires FreshTables(ops, db) && SettledNames(ops, db) && t in db && k < |ops| && ops[k].RenameColumn?
    requires InReplay(ops, Run(TableOps(ops), db), TableAfter(ops, db, t), k) == InRun(ops, db, t, k)
    requires Concerns(ops, db, t, k) <==> ops[k].table != TableAfter(ops, db, t)
    ensures Renamed(InRun(ops, db, t, k), ops[k]) == InRun(ops, db, t, k)
  {
    hide *;
    var base, last := Run(TableOps(ops), db), TableAfter(ops, db, t);
    ConcernsUnfold(ops, db, t, k);
    InRunStep(ops, db, t, k);
    TablesMove(ops, db, t);
    InReplayStep(ops, base, last, k);
    Looked(ops, db, t, k);
    assert ops[..|ops|] == ops;
    if Concerns(ops, db, t, k) {
      var j := NameTaken(ops, db, t, k, |ops|);
      SettledAt(ops, db, k, j);
      NotEnabledSame(ops[k], Run(ops[..k], db));
    } else {
      var j := NameGiven(ops, db, t, k, |ops|);
      SettledAt(ops, db, k, j);
      NotEnabledSame(ops[k], ReplayedBefore(ops, db, k));
    }
  }

  lemma SettledAt(ops: seq<Op>, db: Db, i: nat, j: nat)
    requires SettledNames(ops, db) && i <= j < |ops| && ops[i].RenameColumn? && ops[j].RenameTable?
    ensures ops[i].table == ops[j].src ==> !Enabled(ops[i], Run(ops[..i], db))
    ensures ops[i].table == ops[j].dst ==> !Enabled(ops[i], ReplayedBefore(ops, db, i))
  {
    hide Run, Enabled, ReplayedBefore;
  }

  lemma Looked(ops: seq<Op>, db: Db, t: string, k: nat)
    requires k <= |ops|
    ensures ReplayedBefore(ops, db, k) == Run(ColumnOps(ops[..k]), Run(TableOps(ops), db))
    ensures TableAfter(ops[..k], db, t) in Run(ops[..k], db) ==>
              InRun(ops, db, t, k) == Run(ops[..k], db)[TableAfter(ops[..k], db, t)]
    ensures TableAfter(ops, db, t) in ReplayedBefore(ops, db, k) ==>
              InReplay(ops, Run(TableOps(ops), db), TableAfter(ops, db, t), k) ==
              ReplayedBefore(ops, db, k)[TableAfter(ops, db, t)]
  {
    hide Run, TableAfter, TableOps, ColumnOps;
  }

  /** While names are settled, the replay has the table as the chain has it, all along. */
  lemma {:induction false} ReplayAsRun(ops: seq<Op>, db: Db, t: string, k: nat)
    requires FreshTables(ops, db) && SettledNames(ops, db) && t in db && k <= |ops|
    ensures InReplay(ops, Run(TableOps(ops), db), TableAfter(ops, db, t), k) == InRun(ops, db, t, k)
    decreases k
  {
    hide *;
    var base, last := Run(TableOps(ops), db), TableAfter(ops, db, t);
    TablesMove(ops, db, t);
    if k == 0 {
      AtStart(ops, db, t);
    } else {
      ReplayAsRun(ops, db, t, k - 1);
      InRunStep(ops, db, t, k - 1);
      InReplayStep(ops, base, last, k - 1);
      ConcernsUnfold(ops, db, t, k - 1);
      if ops[k - 1].RenameColumn? && (Concerns(ops, db, t, k - 1) <==> ops[k - 1].table != last) {
        SettledStep(ops, db, t, k - 1);
      }
    }
  }

  lemma AtStart(ops: seq<Op>, db: Db, t: string)
    requires t in db && TableAfter(ops, db, t) in Run(TableOps(ops), db)
    requires Run(TableOps(ops), db)[TableAfter(ops, db, t)] == db[t]
    ensures InReplay(ops, Run(TableOps(ops), db), TableAfter(ops, db, t), 0) == InRun(ops, db, t, 0) == db[t]
  {
    hide TableOps;
    assert ops[..0] == [];
    assert TableAfter([], db, t) == t && Run([], db) == db;
    var base := Run(TableOps(ops), db);
    assert ColumnOps([]) == [] && Run([], base) == base;
  }

  // ---------- Columns of one table ----------

  lemma FreshUnfold(ops: seq<Op>, db: Db, t: string, i: nat)
    requires FreshColumns(ops, db) && t in db && OnTable(ops, db, t, i)
    ensures i < |ops| && ops[i].RenameColumn? && ops[i].from != ops[i].to && ops[i].to !in db[t].columns
    ensures forall h: nat :: h < i && OnTable(ops, db, t, h) ==> ops[i].to != ops[h].from && ops[i].to != ops[h].to
  {
    assert i < |ops| && ops[i].RenameColumn?;
    hide OnTable;
    assert FreshIn(ops, db, t);
  }

  lemma HitsOn(ops: seq<Op>, db: Db, t: string, k: nat)
    requires k < |ops|
    ensures Concerns(ops, db, t, k) ==> OnTable(ops, db, t, k)
    ensures ops[k].RenameColumn? && ops[k].table == TableAfter(ops, db, t) ==> OnTable(ops, db, t, k)
  {
  }

  lemma RenamedColumns(r: Relation, op: Op)
    requires op.RenameColumn? && op.from != op.to
    ensures var after := Renamed(r, op).columns.Keys;
            && (after == if op.from in r.columns && op.to !in r.columns then r.columns.Keys - {op.from} + {op.to}
                else r.columns.Keys)
  {
  }

  /** The table in the chain's own order, or in the replay of the whole chain. */
  function State(ops: seq<Op>, db: Db, t: string, inRun: bool, k: nat): Relation
    requires k <= |ops|
  {
    if inRun then InRun(ops, db, t, k) else InReplay(ops, Run(TableOps(ops), db), TableAfter(ops, db, t), k)
  }

  /** The `k`-th rename is one of the table's columns, in that order. */
  predicate Hits(ops: seq<Op>, db: Db, t: string, inRun: bool, k: nat)
    requires k < |ops|
  {
    if inRun then Concerns(ops, db, t, k) else ops[k].RenameColumn? && ops[k].table == TableAfter(ops, db, t)
  }

  lemma StateStep(ops: seq<Op>, db: Db, t: string, inRun: bool, k: nat)
    requires t in db && k < |ops|
    ensures Hits(ops, db, t, inRun, k) ==> OnTable(ops, db, t, k) && ops[k].RenameColumn?
    ensures State(ops, db, t, inRun, k + 1) ==
            if Hits(ops, db, t, inRun, k) then Renamed(State(ops, db, t, inRun, k), ops[k])
                else State(ops, db, t, inRun, k)
  {
    hide Run, TableAfter, InRun, InReplay, Renamed;
    TablesMove(ops, db, t);
    HitsOn(ops, db, t, k);
    InRunStep(ops, db, t, k);
    InReplayStep(ops, Run(TableOps(ops), db), TableAfter(ops, db, t), k);
  }

  /** In neither order a column's new name is there before its rename. */
  lemma {:induction false} NotMade(ops: seq<Op>, db: Db, t: string, inRun: bool, i: nat, k: nat)
    requires FreshColumns(ops, db) && t in db && k <= i && OnTable(ops, db, t, i) && i < |ops|
    ensures ops[i].RenameColumn? && ops[i].to !in State(ops, db, t, inRun, k).columns
    decreases k
  {
    hide *;
    FreshUnfold(ops, db, t, i);
    if k == 0 {
      StateStart(ops, db, t, inRun);
    } else {
      NotMade(ops, db, t, inRun, i, k - 1);
      StateStep(ops, db, t, inRun, k - 1);
      if Hits(ops, db, t, inRun, k - 1) {
        FreshUnfold(ops, db, t, k - 1);
        RenamedColumns(State(ops, db, t, inRun, k - 1), ops[k - 1]);
      }
    }
  }

  lemma StateStart(ops: seq<Op>, db: Db, t: string, inRun: bool)
    requires t in db
    ensures State(ops, db, t, inRun, 0) == db[t]
  {
    hide Run, TableAfter, InRun, InReplay;
    TablesMove(ops, db, t);
    AtStart(ops, db, t);
  }

  /** A column that is gone stays away: nothing later makes the source of an earlier rename. */
  lemma {:induction false} StaysGone(ops: seq<Op>, db: Db, t: string, i: nat, k: nat)
    requires FreshColumns(ops, db) && t in db && i < k <= |ops| && OnTable(ops, db, t, i) && ops[i].RenameColumn?
    requires ops[i].from !in State(ops, db, t, true, i + 1).columns
    ensures ops[i].from !in State(ops, db, t, true, k).columns
    decreases k
  {
    hide *;
    if i + 1 < k {
      StaysGone(ops, db, t, i, k - 1);
      StateStep(ops, db, t, true, k - 1);
      if Hits(ops, db, t, true, k - 1) {
        FreshUnfold(ops, db, t, k - 1);
        RenamedColumns(State(ops, db, t, true, k - 1), ops[k - 1]);
      }
    }
  }

  // ---------- Convergence ----------

  /** What the replay would rename of the past is no longer there. */
  lemma PastGone(ops: seq<Op>, db: Db, t: string, i: nat, k: nat)
    requires Orderly(ops, db) && t in db && i < k <= |ops|
    requires ops[i].RenameColumn? && ops[i].table == TableAfter(ops, db, t)
    ensures ops[i].from !in InRun(ops, db, t, k).columns
  {
    hide Run, TableAfter, FreshTables, FreshColumns, SettledNames, InRun, InReplay, OnTable, Renamed, Concerns;
    HitsOn(ops, db, t, i);
    StateStep(ops, db, t, true, i);
    FreshUnfold(ops, db, t, i);
    NotMade(ops, db, t, true, i, i);
    RenamedColumns(InRun(ops, db, t, i), ops[i]);
    if !Concerns(ops, db, t, i) {
      ReplayAsRun(ops, db, t, i);
      SettledStep(ops, db, t, i);
    }
    StaysGone(ops, db, t, i, k);
  }

  /** The replay, begun when the chain had come to its `k`-th rename, leaves the table alone up to there and then
      has it as the chain has it. */
  lemma {:induction false} ReplayFrom(ops: seq<Op>, db: Db, t: string, k: nat, base: Db, h: nat)
    requires Orderly(ops, db) && t in db && k <= |ops| && h <= |ops|
    requires TableAfter(ops, db, t) in base && base[TableAfter(ops, db, t)] == InRun(ops, db, t, k)
    ensures InReplay(ops, base, TableAfter(ops, db, t), h) == InRun(ops, db, t, if h <= k then k else h)
    decreases h
  {
    hide *;
    var last := TableAfter(ops, db, t);
    OrderlyUnfold(ops, db);
    if h == 0 {
      ReplayStart(ops, base, last);
    } else {
      var op := ops[h - 1];
      ReplayFrom(ops, db, t, k, base, h - 1);
      InReplayStep(ops, base, last, h - 1);
      if h <= k {
        if op.RenameColumn? && op.table == last {
          PastGone(ops, db, t, h - 1, k);
          RenamedNothing(InRun(ops, db, t, k), op);
        }
      } else {
        InRunStep(ops, db, t, h - 1);
        ConcernsUnfold(ops, db, t, h - 1);
        if op.RenameColumn? && (Concerns(ops, db, t, h - 1) <==> op.table != last) {
          ReplayAsRun(ops, db, t, h - 1);
          SettledStep(ops, db, t, h - 1);
        }
      }
    }
  }

  lemma OrderlyUnfold(ops: seq<Op>, db: Db)
    requires Orderly(ops, db)
    ensures FreshTables(ops, db) && SettledNames(ops, db) && FreshColumns(ops, db)
  {
    hide FreshTables, SettledNames, FreshColumns;
  }

  lemma ReplayStart(ops: seq<Op>, base: Db, last: string)
    requires last in base
    ensures InReplay(ops, base, last, 0) == base[last]
  {
    assert ops[..0] == [] && ColumnOps([]) == [] && Run([], base) == base;
  }

  lemma RenamedNothing(r: Relation, op: Op)
    requires op.RenameColumn? && op.from !in r.columns
    ensures Renamed(r, op) == r
  {
  }

  /** A chain without rebuilds: replaying what has already happened does nothing, and replaying the whole is
      running what is missing. */
  lemma PastIsDone(ops: seq<Op>, db: Db, k: nat)
    requires Orderly(ops, db) && k <= |ops|
    ensures Replay(ops, Run(ops[..k], db)) == Run(ops, db)
  {
    hide *;
    var base, done := Run(TableOps(ops), Run(ops[..k], db)), Run(ops, db);
    OrderlyUnfold(ops, db);
    TablesReplayed(ops, db, k);
    ReplayUnfold(ops, Run(ops[..k], db));
    Selections(ops, {});
    ColumnsKeepTables(ColumnOps(ops), base);
    forall u <- done ensures Replay(ops, Run(ops[..k], db))[u] == done[u] {
      var t := Owner(ops, db, u);
      ReplayFrom(ops, db, t, k, base, |ops|);
      AtEnd(ops, base, db, t);
    }
  }

  lemma AtEnd(ops: seq<Op>, base: Db, db: Db, t: string)
    requires TableAfter(ops, db, t) in Run(ColumnOps(ops), base) && TableAfter(ops, db, t) in Run(ops, db)
    ensures InReplay(ops, base, TableAfter(ops, db, t), |ops|) == Run(ColumnOps(ops), base)[TableAfter(ops, db, t)]
    ensures InRun(ops, db, t, |ops|) == Run(ops, db)[TableAfter(ops, db, t)]
  {
    hide Run, TableAfter, ColumnOps;
    assert ops[..|ops|] == ops;
  }

  /** Replaying the whole chain on a database that stopped after any `k` of its migrations brings it
      exactly where running the missing ones would: to the same database as the whole chain. */
  lemma ReplayConverges(ops: seq<Op>, db: Db, k: nat)
    requires k <= |ops| && WellFormed(ops, db)
    ensures Replay(ops, Run(ops[..k], db)) == Run(ops[k..], Run(ops[..k], db)) == Run(ops, db)
  {
    var names, past, missing := Reachable(ops, db), ops[..k], ops[k..];
    var live, livePast, liveMissing := LiveOps(ops, names), LiveOps(past, names), LiveOps(missing, names);
    assert Orderly(live, db) by { hide Orderly; }
    hide *;
    NamesHold(ops, db);
    assert ops == past + missing;
    LiveAppend(past, missing, names);
    RunAppend(past, missing, db);
    RunKeys(past, db, names);
    LiveReplay(ops, Run(past, db), names);
    OnlyLiveRuns(past, db, names);
    OnlyLiveRuns(ops, db, names);
    assert live[..|livePast|] == livePast;
    PastIsDone(live, db, |livePast|);
  }

  ghost predicate FromGone(c: Op, db: Db)
    requires c.RenameColumn?
  {
    c.table in db ==> c.from !in db[c.table].columns
  }

  /** After the whole chain no rename has anything left to do. */
  lemma AllGone(ops: seq<Op>, db: Db)
    requires WellFormed(ops, db)
    ensures forall op <- ops :: if op.RenameTable? then op.src !in Run(ops, db) else FromGone(op, Run(ops, db))
  {
    var names, live := Reachable(ops, db), LiveOps(ops, Reachable(ops, db));
    assert Orderly(live, db) by { hide Orderly; }
    hide *;
    NamesHold(ops, db);
    RunKeys(ops, db, names);
    OnlyLiveRuns(ops, db, names);
    Selections(ops, names);
    forall op | op in ops ensures if op.RenameTable? then op.src !in Run(ops, db) else FromGone(op, Run(ops, db)) {
      if Live(op, names) {
        var i: nat :| i < |live| && live[i] == op;
        OrderlyGone(live, db, i);
      } else {
        NotLive(op, names);
      }
    }
  }

  lemma OrderlyGone(ops: seq<Op>, db: Db, i: nat)
    requires Orderly(ops, db) && i < |ops|
    ensures if ops[i].RenameTable? then ops[i].src !in Run(ops, db) else FromGone(ops[i], Run(ops, db))
  {
    hide Run, TableAfter, FreshTables, FreshColumns, SettledNames, TableOps, ColumnOps;
    SameTables(ops, db);
    if ops[i].RenameTable? {
      SourceGone(ops, db, i);
    } else if ops[i].table in Run(ops, db) {
      var t := Owner(ops, db, ops[i].table);
      PastGone(ops, db, t, i, |ops|);
      assert ops[..|ops|] == ops;
    }
  }

  lemma NotLive(op: Op, names: set<string>)
    requires !Live(op, names)
    ensures op.RenameTable? && op.src !in names
  {
  }
  lemma NamesHold(ops: seq<Op>, db: Db)
    ensures db.Keys <= Reachable(ops, db)
    ensures forall op <- ops :: op.RenameTable? ==> op.dst in Reachable(ops, db)
  {
  }

  lemma LiveReplay(ops: seq<Op>, db: Db, names: set<string>)
    requires db.Keys <= names && forall op <- ops :: op.RenameTable? ==> op.dst in names
    ensures Replay(ops, db) == Replay(LiveOps(ops, names), db)
  {
    hide Run, LiveOps, TableOps, ColumnOps;
    Selections(ops, names);
    LiveTables(ops, names);
    LiveColumns(ops, names);
    OnlyLiveRuns(TableOps(ops), db, names);
    RunKeys(TableOps(ops), db, names);
    OnlyLiveRuns(ColumnOps(ops), Run(TableOps(ops), db), names);
  }

  // ---------- Exactly when the order does not matter ----------

  /** Emitting table renames first changes nothing for settled table names. */
  lemma SettledSame(ops: seq<Op>, db: Db)
    requires FreshTables(ops, db) && SettledNames(ops, db)
    ensures Replay(ops, db) == Run(ops, db)
  {
    var base, done := Run(TableOps(ops), db), Run(ops, db);
    hide *;
    SameTables(ops, db);
    ReplayUnfold(ops, db);
    Selections(ops, {});
    ColumnsKeepTables(ColumnOps(ops), base);
    forall u <- done ensures Replay(ops, db)[u] == done[u] {
      var t := Owner(ops, db, u);
      ReplayAsRun(ops, db, t, |ops|);
      AtEnd(ops, base, db, t);
    }
  }

  /** A rename with an effect in only one of the two orders: wherever it carries its column there, the other
      order has no such column. */
  lemma {:induction false} Diverges(ops: seq<Op>, db: Db, t: string, inRun: bool, i: nat, k: nat) returns (h: nat)
    requires FreshColumns(ops, db) && t in db && i < k <= |ops|
    requires Hits(ops, db, t, inRun, i) && !Hits(ops, db, t, !inRun, i) && ops[i].RenameColumn?
    requires ops[i].from in State(ops, db, t, inRun, i).columns
    ensures h < k && OnTable(ops, db, t, h) && ops[h].RenameColumn?
    ensures ops[h].to in State(ops, db, t, inRun, k).columns && ops[h].to !in State(ops, db, t, !inRun, k).columns
    decreases k
  {
    hide *;
    var op := ops[k - 1];
    StateStep(ops, db, t, inRun, k - 1);
    StateStep(ops, db, t, !inRun, k - 1);
    if OnTable(ops, db, t, k - 1) {
      FreshUnfold(ops, db, t, k - 1);
      NotMade(ops, db, t, inRun, k - 1, k - 1);
      NotMade(ops, db, t, !inRun, k - 1, k - 1);
      RenamedColumns(State(ops, db, t, inRun, k - 1), op);
      RenamedColumns(State(ops, db, t, !inRun, k - 1), op);
    }
    if k == i + 1 {
      h := i;
    } else {
      h := Diverges(ops, db, t, inRun, i, k - 1);
      if Hits(ops, db, t, inRun, k - 1) && op.from == ops[h].to { h := k - 1; }
    }
  }

  lemma DivergesToTheEnd(ops: seq<Op>, db: Db, t: string, inRun: bool, i: nat)
    requires FreshColumns(ops, db) && t in db && i < |ops| && ops[i].RenameColumn?
    requires Hits(ops, db, t, inRun, i) && !Hits(ops, db, t, !inRun, i)
    requires ops[i].from in State(ops, db, t, inRun, i).columns
    ensures Replay(ops, db) != Run(ops, db)
  {
    var base, last := Run(TableOps(ops), db), TableAfter(ops, db, t);
    hide *;
    var h := Diverges(ops, db, t, inRun, i, |ops|);
    TablesStayApart(ops, db, t, t);
    TablesMove(ops, db, t);
    Selections(ops, {});
    ColumnsKeepTables(ColumnOps(ops), base);
    ReplayUnfold(ops, db);
    AtEnd(ops, base, db, t);
    StateIs(ops, db, t, |ops|);
  }

  lemma StateIs(ops: seq<Op>, db: Db, t: string, k: nat)
    requires k <= |ops|
    ensures State(ops, db, t, true, k) == InRun(ops, db, t, k)
    ensures State(ops, db, t, false, k) == InReplay(ops, Run(TableOps(ops), db), TableAfter(ops, db, t), k)
  {
  }

  /** A rename that has an effect in the chain, under a name its table gives up. */
  lemma TakenDiffers(ops: seq<Op>, db: Db, i: nat, j: nat)
    requires FreshTables(ops, db) && FreshColumns(ops, db) && i < j < |ops|
    requires ops[i].RenameColumn? && ops[j].RenameTable? && ops[i].table == ops[j].src
             && Enabled(ops[i], Run(ops[..i], db))
    ensures Replay(ops, db) != Run(ops, db)
  {
    hide Run, TableAfter, FreshTables, FreshColumns, TableOps, Replay;
    var t := Owner(ops[..i], db, ops[i].table);
    SourceGone(ops, db, j);
    TablesMove(ops, db, t);
    DivergesToTheEnd(ops, db, t, true, i);
  }

  /** One that would have an effect in the replay, under a name its table has not yet. */
  lemma GivenDiffers(ops: seq<Op>, db: Db, i: nat, j: nat)
    requires FreshTables(ops, db) && FreshColumns(ops, db) && i < j < |ops|
    requires ops[i].RenameColumn? && ops[j].RenameTable? && ops[i].table == ops[j].dst
    requires Enabled(ops[i], ReplayedBefore(ops, db, i))
    ensures Replay(ops, db) != Run(ops, db)
  {
    hide Run, TableAfter, FreshTables, FreshColumns, TableOps, ColumnOps, Replay;
    var base := Run(TableOps(ops), db);
    Selections(ops[..i], {});
    ColumnsKeepTables(ColumnOps(ops[..i]), base);
    SameTables(ops, db);
    var t := Owner(ops, db, ops[i].table);
    NotYet(ops, db, i, j);
    InRunStep(ops, db, t, i);
    DivergesToTheEnd(ops, db, t, false, i);
  }

  /** With fresh names: table renames may be emitted before column renames if and only if names are settled. */
  lemma OrderIff(ops: seq<Op>, db: Db)
    requires FreshTables(ops, db) && FreshColumns(ops, db)
    ensures Replay(ops, db) == Run(ops, db) <==> SettledNames(ops, db)
  {
    hide Run, Replay, FreshTables, FreshColumns, Enabled, ReplayedBefore;
    if SettledNames(ops, db) {
      SettledSame(ops, db);
    } else {
      var i, j :| && 0 <= i < j < |ops| && ops[i].RenameColumn? && ops[j].RenameTable?
                  && !(&& (ops[i].table == ops[j].src ==> !Enabled(ops[i], Run(ops[..i], db)))
                       && (ops[i].table == ops[j].dst ==> !Enabled(ops[i], ReplayedBefore(ops, db, i))));
      if ops[i].table == ops[j].src && Enabled(ops[i], Run(ops[..i], db)) {
        TakenDiffers(ops, db, i, j);
      } else {
        GivenDiffers(ops, db, i, j);
      }
    }
  }

  /** For every chain, rebuilds included. */
  lemma ReplayIsRunIff(ops: seq<Op>, db: Db)
    requires var live := LiveOps(ops, Reachable(ops, db)); FreshTables(live, db) && FreshColumns(live, db)
    ensures Replay(ops, db) == Run(ops, db) <==> SettledNames(LiveOps(ops, Reachable(ops, db)), db)
  {
    var names := Reachable(ops, db);
    hide *;
    NamesHold(ops, db);
    LiveReplay(ops, db, names);
    OnlyLiveRuns(ops, db, names);
    OrderIff(LiveOps(ops, names), db);
  }

  /** Settled names suffice whatever the columns are called. */
  lemma ReplayIsRunIfSettled(ops: seq<Op>, db: Db)
    requires var live := LiveOps(ops, Reachable(ops, db)); FreshTables(live, db) && SettledNames(live, db)
    ensures Replay(ops, db) == Run(ops, db)
  {
    var names := Reachable(ops, db);
    hide *;
    NamesHold(ops, db);
    LiveReplay(ops, db, names);
    OnlyLiveRuns(ops, db, names);
    SettledSame(LiveOps(ops, names), db);
  }

  // ---------- What an old name costs ----------

  predicate Lacks(db: Db, t: string, c: string) {
    t in db ==> c !in db[t].columns
  }

  predicate Has(db: Db, t: string, c: string) {
    t in db && c in db[t].columns
  }

  /** A column the table lacks stays away while no rename makes it there. */
  lemma {:induction false} LacksOn(ops: seq<Op>, db: Db, t: string, c: string, a: nat, b: nat)
    requires t in db && a <= b <= |ops|
    requires forall h: nat :: a <= h < b && Concerns(ops, db, t, h) ==> ops[h].to != c
    requires Lacks(Run(ops[..a], db), TableAfter(ops[..a], db, t), c)
    ensures Lacks(Run(ops[..b], db), TableAfter(ops[..b], db, t), c)
    decreases b - a
  {
    if a < b {
      ConcernsUnfold(ops, db, t, b - 1);
      hide *;
      LacksOn(ops, db, t, c, a, b - 1);
      assert ops[..b][..b - 1] == ops[..b - 1];
      TablesStayApart(ops[..b - 1], db, t, t);
      AfterStep(ops[..b], db, t);
      RunStep(ops[..b], db);
      LacksOne(ops[b - 1], Run(ops[..b - 1], db), TableAfter(ops[..b - 1], db, t), c);
    }
  }

  lemma LacksOne(op: Op, db: Db, t: string, c: string)
    requires t in db && Lacks(db, t, c) && (op.RenameColumn? && op.table == t ==> op.to != c)
    ensures Lacks(Apply(op, db), if op.RenameTable? && op.src == t && Enabled(op, db) then op.dst else t, c)
  {
  }

  lemma {:induction false} ColumnStays(cols: seq<Op>, db: Db, t: string, c: string)
    requires Has(db, t, c) && forall op <- cols :: op.RenameColumn? && !(op.table == t && op.from == c)
    ensures Has(Run(cols, db), t, c)
  {
    if cols != [] {
      assert cols[|cols| - 1] in cols;
      ColumnStays(cols[..|cols| - 1], db, t, c);
    }
  }

  /** In any chain: a column rename that has an effect, of a column its table has from the start, gets lost when
      no column rename records that column under the table's last name. The replay keeps the old column, which
      the chain has renamed. */
  lemma OldNameLosesRename(ops: seq<Op>, db: Db, t: string, i: nat)
    requires t in db && i < |ops| && Concerns(ops, db, t, i) && Enabled(ops[i], Run(ops[..i], db))
    requires forall h: nat :: h < |ops| && Concerns(ops, db, t, h) ==> ops[h].to != ops[i].from
    requires forall op <- ops :: op.RenameColumn? && op.table == TableAfter(ops, db, t) ==> op.from != ops[i].from
    ensures var last, c := TableAfter(ops, db, t), ops[i].from;
            Has(Replay(ops, db), last, c) && last in Run(ops, db) && c !in Run(ops, db)[last].columns
    ensures Replay(ops, db) != Run(ops, db)
  {
    var last, c := TableAfter(ops, db, t), ops[i].from;
    RenamedStep(ops, db, t, i);
    hide Run, TableOps, ColumnOps, TableAfter, Apply;
    assert ops[..|ops|] == ops && ops[..0] == [];
    if c !in db[t].columns {
      StartOf(db, t);
      LacksOn(ops, db, t, c, 0, i);
      assert false;
    }
    LacksOn(ops, db, t, c, i + 1, |ops|);
    TablesStayApart(ops, db, t, t);
    TablesMove(ops, db, t);
    Selections(ops, {});
    ColumnStays(ColumnOps(ops), Run(TableOps(ops), db), last, c);
  }

  lemma StartOf(db: Db, t: string)
    ensures Run([], db) == db && TableAfter([], db, t) == t
  {
  }

  lemma RenamedStep(ops: seq<Op>, db: Db, t: string, i: nat)
    requires i < |ops| && Concerns(ops, db, t, i) && ops[i].to != ops[i].from && Enabled(ops[i], Run(ops[..i], db))
    ensures Lacks(Run(ops[..i + 1], db), TableAfter(ops[..i + 1], db, t), ops[i].from)
  {
    assert ops[..i + 1][..i] == ops[..i];
  }

  /** Two renames are enough. */
  lemma OldNameInstance()
    ensures var ops := [RenameColumn("old", "a", "b"), RenameTable("old", "new")];
            var db: Db := map["old" := Relation(map["a" := true], [])];
            Has(Replay(ops, db), "new", "a") && Replay(ops, db) != Run(ops, db)
  {
    var col, tab := RenameColumn("old", "a", "b"), RenameTable("old", "new");
    var ops, db: Db := [col, tab], map["old" := Relation(map["a" := true], [])];
    assert ops[..0] == [] && ops[..1] == [col] && [col][..0] == [];
    hide Run, TableAfter, RenameIn, Replay;
    StartOf(db, "old");
    RunStep([col], db);
    AfterStep([col], db, "old");
    AfterStep(ops, db, "old");
    assert Concerns(ops, db, "old", 0) && !Concerns(ops, db, "old", 1);
    OldNameLosesRename(ops, db, "old", 0);
  }

  /** Another rename may record the column under the new name, and still the order matters: it fails whenever some
      rename has an effect in only one of the two orders. */
  lemma OtherNameInstance()
    ensures var ops := [RenameColumn("old", "a", "b"), RenameTable("old", "new"), RenameColumn("new", "a", "c")];
            var db: Db := map["old" := Relation(map["a" := true], [])];
            FreshTables(ops, db) && FreshColumns(ops, db) && Replay(ops, db) != Run(ops, db)
  {
    var ops := [RenameColumn("old", "a", "b"), RenameTable("old", "new"), RenameColumn("new", "a", "c")];
    var db: Db := map["old" := Relation(map["a" := true], [])];
    hide TableAfter, Replay;
    assert ops[..0] == [] && Run([], db) == db;
    assert FreshIn(ops, db, "old");
    TakenDiffers(ops, db, 0, 1);
  }

  /** That columns are fresh is needed for the converse: here two renames of one table make the same column, the
      second rename has an effect only in the chain, and the last one, only in the replay, makes up for it. */
  lemma MadeColumnInstance()
    ensures var ops := [RenameColumn("old", "a", "b"), RenameColumn("old", "b", "c"), RenameTable("old", "new"),
                        RenameColumn("new", "a", "c")];
            var db: Db := map["old" := Relation(map["a" := true], [])];
            && FreshTables(ops, db) && !SettledNames(ops, db) && Replay(ops, db) == Run(ops, db)
  {
    var db: Db := map["old" := Relation(map["a" := true], [])];
    hide Run, Apply, Enabled, TableOps, ColumnOps, Replay;
    var op0, op1, op2, op3 := RenameColumn("old", "a", "b"), RenameColumn("old", "b", "c"), RenameTable("old", "new"),
                              RenameColumn("new", "a", "c");
    var ops := [op0, op1, op2, op3];
    Four(op0, op1, op2, op3, db);
    MadeColumnSteps(db);
    assert FreshTables(ops, db);
    assert Enabled(ops[1], Run(ops[..1], db)) && ops[2].RenameTable? && ops[1].table == ops[2].src;
    if SettledNames(ops, db) { SettledAt(ops, db, 1, 2); }
  }

  lemma MadeColumnSteps(db: Db)
    requires db == map["old" := Relation(map["a" := true], [])]
    ensures var op0, op1, op2, op3 := RenameColumn("old", "a", "b"), RenameColumn("old", "b", "c"),
                                      RenameTable("old", "new"), RenameColumn("new", "a", "c");
            && Enabled(op1, Apply(op0, db)) && Apply(op2, db) == map["new" := db["old"]]
            && Apply(op3, Apply(op2, Apply(op1, Apply(op0, db)))) == Apply(op3, Apply(op1, Apply(op0, Apply(op2, db))))
  {
    var op0, op1, op2, op3 := RenameColumn("old", "a", "b"), RenameColumn("old", "b", "c"), RenameTable("old", "new"),
                              RenameColumn("new", "a", "c");
    var moved := Relation(map["c" := true], []);
    assert RenameIn(db["old"], "a", "b") == Relation(map["b" := true], []);
    assert RenameIn(Relation(map["b" := true], []), "b", "c") == moved && RenameIn(db["old"], "a", "c") == moved;
    assert Apply(op0, db) == map["old" := Relation(map["b" := true], [])];
    assert Apply(op1, Apply(op0, db)) == map["old" := moved];
    assert Apply(op2, map["old" := moved]) == map["new" := moved];
    var tables: Db := map["new" := db["old"]];
    assert Apply(op2, db) == tables;
    assert Apply(op3, tables) == map["new" := moved];
  }

  lemma Four(op0: Op, op1: Op, op2: Op, op3: Op, db: Db)
    requires op0.RenameColumn? && op1.RenameColumn? && op2.RenameTable? && op3.RenameColumn?
    ensures var ops := [op0, op1, op2, op3];
            && TableOps(ops) == [op2] && ColumnOps(ops) == [op0, op1, op3]
            && Run(ops[..1], db) == Apply(op0, db)
            && Run(ops, db) == Apply(op3, Apply(op2, Apply(op1, Apply(op0, db))))
            && Run(TableOps(ops), db) == Apply(op2, db)
            && Replay(ops, db) == Apply(op3, Apply(op1, Apply(op0, Apply(op2, db))))
  {
    var ops := [op0, op1, op2, op3];
    hide *;
    assert ops == [op0] + [op1] + [op2] + [op3] && ops[..1] == [op0];
    TableOpsAppend([op0] + [op1] + [op2], [op3]);
    TableOpsAppend([op0] + [op1], [op2]);
    TableOpsAppend([op0], [op1]);
    ColumnOpsAppend([op0] + [op1] + [op2], [op3]);
    ColumnOpsAppend([op0] + [op1], [op2]);
    ColumnOpsAppend([op0], [op1]);
    SelectOne(op0, {});
    SelectOne(op1, {});
    SelectOne(op2, {});
    SelectOne(op3, {});
    assert [] + [op2] + [] == [op2];
    Three(op0, op1, op2, db);
    RunAppend([op0] + [op1] + [op2], [op3], db);
    RunOne(op3, Run([op0] + [op1] + [op2], db));
    RunOne(op0, db);
    RunOne(op2, db);
    Three(op0, op1, op3, Apply(op2, db));
    ReplayUnfold(ops, db);
    assert [op0] + [op1] + [op3] == [op0, op1, op3];
  }

  lemma Three(op0: Op, op1: Op, op2: Op, db: Db)
    ensures Run([op0] + [op1] + [op2], db) == Apply(op2, Apply(op1, Apply(op0, db)))
  {
    hide *;
    RunAppend([op0] + [op1], [op2], db);
    RunAppend([op0], [op1], db);
    RunOne(op0, db);
    RunOne(op1, Apply(op0, db));
    RunOne(op2, Apply(op1, Apply(op0, db)));
  }
}
