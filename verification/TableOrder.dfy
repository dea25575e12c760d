/** What the table order means for the schema as it is written: its tables, and the names they reference. */
module TableOrder {
  import opened TopoSort

  // ---------- The references that count ----------

  /** A table waits for exactly the other tables it references: not for itself, and not for what is no table. */
  lemma GraphIs(tables: seq<Table>, i: nat, r: string)
    requires UniqueNames(tables) && i < |tables|
    ensures tables[i].name in Graph(tables)
    ensures r in Graph(tables)[tables[i].name] <==>
            r in tables[i].refs && r != tables[i].name && exists u :: u in tables && u.name == r
  {
    ByNameAt(tables, i);
    NamesInGraph(tables);
    if exists u :: u in tables && u.name == r {
      var u :| u in tables && u.name == r;
      assert r in Graph(tables);
    }
    if r in Graph(tables) {
      var j :| 0 <= j < |tables| && NamesOf(tables)[j] == r;
      assert tables[j] in tables && tables[j].name == r;
    }
  }

  lemma TableOf(tables: seq<Table>, n: string) returns (i: nat)
    requires UniqueNames(tables) && n in Graph(tables)
    ensures i < |tables| && tables[i].name == n
  {
    NamesInGraph(tables);
    var j :| 0 <= j < |tables| && NamesOf(tables)[j] == n;
    i := j;
  }

  // ---------- Schemas without cycles ----------

  /** `rank` falls from every table to each other table it references. */
  ghost predicate Falls(tables: seq<Table>, rank: string -> int) {
    forall t, r :: t in tables && r in t.refs && r != t.name && (exists u :: u in tables && u.name == r) ==>
                     rank(r) < rank(t.name)
  }

  lemma FallsAt(tables: seq<Table>, rank: string -> int, n: string, r: string)
    requires UniqueNames(tables) && Falls(tables, rank) && n in Graph(tables) && r in Graph(tables)[n]
    ensures rank(r) < rank(n)
  {
    var i := TableOf(tables, n);
    GraphIs(tables, i, r);
    assert tables[i] in tables;
  }

  lemma {:induction false} WalkFalls(tables: seq<Table>, rank: string -> int, w: seq<string>, i: nat, j: nat)
    requires UniqueNames(tables) && Falls(tables, rank) && IsWalk(Graph(tables), w) && i < j < |w|
    ensures rank(w[j]) < rank(w[i])
    decreases j - i
  {
    if i + 1 < j { WalkFalls(tables, rank, w, i, j - 1); }
    assert w[(j - 1) + 1] in Graph(tables)[w[j - 1]];
    FallsAt(tables, rank, w[j - 1], w[j]);
  }

  lemma RankedIsAcyclic(tables: seq<Table>, rank: string -> int)
    requires UniqueNames(tables) && Falls(tables, rank)
    ensures Acyclic(Graph(tables))
  {
    hide Graph;
    forall n <- Graph(tables) ensures !ReachesCycle(Graph(tables), n) {
      if ReachesCycle(Graph(tables), n) {
        var w :| IsWalk(Graph(tables), w) && w != [] && w[0] == n && Revisits(w);
        var i, j :| 0 <= i < j < |w| && w[i] == w[j];
        WalkFalls(tables, rank, w, i, j);
      }
    }
  }

  /** When some rank falls along every reference to another table, each table comes after all of those. References to
      itself and to what is no table change nothing. */
  lemma RankedParentsFirst(tables: seq<Table>, sorted: seq<Table>, rank: string -> int, i: nat, r: string)
    requires UniqueNames(tables) && IsKahnOrder(tables, sorted)
    requires forall t, q :: t in tables && q in t.refs && q != t.name && (exists u :: u in tables && u.name == q) ==>
                              rank(q) < rank(t.name)
    requires i < |sorted| && r in sorted[i].refs && r != sorted[i].name && exists u :: u in tables && u.name == r
    ensures exists j :: 0 <= j < i && sorted[j].name == r
  {
    assert Falls(tables, rank);
    RankedIsAcyclic(tables, rank);
    AcyclicParentsFirst(tables, sorted);
    var k := PlaceBefore(tables, sorted, i);
    GraphIs(tables, k, r);
    hide Graph;
    ParentsAt(Graph(tables), sorted, i);
    var j :| 0 <= j < i && NamesOf(sorted[..i])[j] == r;
    assert sorted[j].name == r;
  }

  lemma PlaceBefore(tables: seq<Table>, sorted: seq<Table>, i: nat) returns (k: nat)
    requires multiset(sorted) == multiset(tables) && i < |sorted|
    ensures k < |tables| && tables[k] == sorted[i]
  {
    assert sorted[i] in multiset(sorted);
    var j :| 0 <= j < |tables| && tables[j] == sorted[i];
    k := j;
  }

  // ---------- The statements ----------

  /** One table is written as its CREATE TABLE and then its UNIQUE indexes; tables are written one after the other. */
  lemma {:induction false} EmissionParts(a: seq<Table>, t: Table, b: seq<Table>, unique: map<string, seq<string>>)
    ensures var mine := if t.name in unique then unique[t.name] else [];
            && |Emission([t], unique)| == 1 + |mine|
            && Emission([t], unique)[0] == CreateTable(t.name)
            && (forall x :: 0 <= x < |mine| ==> Emission([t], unique)[1 + x] == CreateUniqueIndex(t.name, mine[x]))
    ensures Emission(a + [t] + b, unique) == Emission(a, unique) + Emission([t], unique) + Emission(b, unique)
  {
    OneEmission(t, unique);
    hide Emission;
    EmissionAppend(a + [t], b, unique);
    EmissionAppend(a, [t], unique);
  }

  lemma OneEmission(t: Table, unique: map<string, seq<string>>)
    ensures Emission([t], unique) == [CreateTable(t.name)] + IndexesOf(unique, t.name)
  {
    hide IndexesOf;
    assert [t][..0] == [] && Emission([t][..0], unique) == [];
    var mine := [CreateTable(t.name)] + IndexesOf(unique, t.name);
    assert [] + mine == mine;
  }

  lemma {:induction false} EmissionAppend(a: seq<Table>, b: seq<Table>, unique: map<string, seq<string>>)
    ensures Emission(a + b, unique) == Emission(a, unique) + Emission(b, unique)
    decreases |b|
  {
    hide IndexesOf;
    if b == [] {
      assert a + b == a;
    } else {
      var init := b[..|b| - 1];
      assert (a + b)[..|a + b| - 1] == a + init && (a + b)[|a + b| - 1] == b[|b| - 1];
      EmissionAppend(a, init, unique);
    }
  }

  /** Before a table of a ranked schema is created, every other table it references is there, with its UNIQUE
      indexes. */
  lemma RankedReferencesReady(tables: seq<Table>, sorted: seq<Table>, unique: map<string, seq<string>>,
                              rank: string -> int, t: Table, r: string, k: nat)
    requires UniqueNames(tables) && IsKahnOrder(tables, sorted)
    requires forall t, q :: t in tables && q in t.refs && q != t.name && (exists u :: u in tables && u.name == q) ==>
                              rank(q) < rank(t.name)
    requires t in tables && r in t.refs && r != t.name && exists u :: u in tables && u.name == r
    requires k < |Emission(sorted, unique)| && Emission(sorted, unique)[k] == CreateTable(t.name)
    ensures CreateTable(r) in Emission(sorted, unique)[..k]
    ensures r in unique ==> forall x <- unique[r] :: CreateUniqueIndex(r, x) in Emission(sorted, unique)[..k]
  {
    hide *;
    var i := CreatedAt(sorted, unique, k);
    SameTable(tables, sorted, t, i);
    RankedParentsFirst(tables, sorted, rank, i, r);
    var j :| 0 <= j < i && sorted[j].name == r;
    assert sorted[..i][j].name == r;
    WrittenWhole(sorted[..i], unique, j);
  }

  lemma WrittenWhole(ordered: seq<Table>, unique: map<string, seq<string>>, j: nat)
    requires j < |ordered|
    ensures var r := ordered[j].name;
            && CreateTable(r) in Emission(ordered, unique)
            && (r in unique ==> forall x <- unique[r] :: CreateUniqueIndex(r, x) in Emission(ordered, unique))
  {
    hide Emission;
    var r := ordered[j].name;
    assert NamesOf(ordered)[j] == r;
    EmittedWhole(ordered, unique, r);
    if r in unique {
      forall x <- unique[r] ensures CreateUniqueIndex(r, x) in IndexesOf(unique, r) {
        var y :| 0 <= y < |unique[r]| && unique[r][y] == x;
        assert IndexesOf(unique, r)[y] == CreateUniqueIndex(r, x);
      }
    }
  }

  lemma SameTable(tables: seq<Table>, sorted: seq<Table>, t: Table, i: nat)
    requires UniqueNames(tables) && IsKahnOrder(tables, sorted) && t in tables
    requires i < |sorted| && sorted[i].name == t.name
    ensures sorted[i] == t
  {
    hide *;
    Permuted(tables, sorted);
    var k := PlaceBefore(tables, sorted, i);
    OneTable(tables, t, k);
  }

  lemma Permuted(tables: seq<Table>, sorted: seq<Table>)
    requires IsKahnOrder(tables, sorted)
    ensures multiset(sorted) == multiset(tables)
  {
  }

  lemma OneTable(tables: seq<Table>, t: Table, k: nat)
    requires UniqueNames(tables) && t in tables && k < |tables| && tables[k].name == t.name
    ensures tables[k] == t
  {
  }

  // ---------- Cycles and chains of references ----------

  /** A chain of references between other tables, written out. */
  ghost predicate IsChain(tables: seq<Table>, w: seq<Table>) {
    && (forall k :: 0 <= k < |w| ==> w[k] in tables)
    && forall k :: 0 <= k < |w| - 1 ==> w[k + 1].name in w[k].refs && w[k + 1].name != w[k].name
  }

  ghost function Names(w: seq<Table>): (names: seq<string>)
    ensures |names| == |w| && forall i :: 0 <= i < |w| ==> names[i] == w[i].name
  {
    seq(|w|, i requires 0 <= i < |w| => w[i].name)
  }

  lemma ChainIsWalk(tables: seq<Table>, w: seq<Table>)
    requires UniqueNames(tables) && IsChain(tables, w)
    ensures IsWalk(Graph(tables), Names(w))
  {
    hide Graph;
    forall k | 0 <= k < |w| ensures w[k].name in Graph(tables) {
      var i :| 0 <= i < |tables| && tables[i] == w[k];
      GraphIs(tables, i, w[k].name);
    }
    forall k | 0 <= k < |w| - 1 ensures w[k + 1].name in Graph(tables)[w[k].name] {
      var i :| 0 <= i < |tables| && tables[i] == w[k];
      GraphIs(tables, i, w[k + 1].name);
    }
  }

  lemma {:induction false} WalkIsChain(tables: seq<Table>, names: seq<string>) returns (w: seq<Table>)
    requires UniqueNames(tables) && IsWalk(Graph(tables), names)
    ensures |w| == |names| && IsChain(tables, w) && Names(w) == names
  {
    hide Graph, IsChain;
    if names == [] {
      w := [];
      NoChain(tables);
    } else {
      var init, last := names[..|names| - 1], names[|names| - 1];
      ShorterWalk(Graph(tables), names);
      w := WalkIsChain(tables, init);
      var i := TableOf(tables, last);
      if w != [] {
        assert names[|init| - 1] == init[|init| - 1] == w[|init| - 1].name;
        assert names[(|init| - 1) + 1] in Graph(tables)[names[|init| - 1]];
      }
      LongerChain(tables, w, i);
      w := w + [tables[i]];
      assert Names(w) == names;
    }
  }

  lemma NoChain(tables: seq<Table>)
    ensures IsChain(tables, [])
  {
  }

  lemma ShorterWalk(g: map<string, set<string>>, w: seq<string>)
    requires IsWalk(g, w) && w != []
    ensures IsWalk(g, w[..|w| - 1]) && w[|w| - 1] in g
  {
    var init := w[..|w| - 1];
    forall k | 0 <= k < |init| - 1 ensures init[k + 1] in g[init[k]] {
      assert w[k + 1] in g[w[k]];
    }
  }

  lemma LongerChain(tables: seq<Table>, w: seq<Table>, i: nat)
    requires UniqueNames(tables) && IsChain(tables, w) && i < |tables|
    requires w != [] ==> w[|w| - 1].name in Graph(tables) && tables[i].name in Graph(tables)[w[|w| - 1].name]
    ensures IsChain(tables, w + [tables[i]])
  {
    hide Graph;
    if w != [] {
      var last := w[|w| - 1];
      var j :| 0 <= j < |tables| && tables[j] == last;
      GraphIs(tables, j, tables[i].name);
    }
  }

  /** `t` begins a chain that comes back to a table it has already met. */
  ghost predicate InLoop(tables: seq<Table>, t: Table) {
    exists w :: IsChain(tables, w) && w != [] && w[0] == t && exists i, j :: 0 <= i < j < |w| && w[i] == w[j]
  }

  lemma LoopIsCycle(tables: seq<Table>, t: Table)
    requires UniqueNames(tables) && t in tables
    ensures InLoop(tables, t) <==> ReachesCycle(Graph(tables), t.name)
  {
    hide Graph;
    if InLoop(tables, t) {
      var w :| IsChain(tables, w) && w != [] && w[0] == t && exists i, j :: 0 <= i < j < |w| && w[i] == w[j];
      ChainIsWalk(tables, w);
      var i, j :| 0 <= i < j < |w| && w[i] == w[j];
      assert Names(w)[i] == Names(w)[j];
      assert Revisits(Names(w));
    }
    if ReachesCycle(Graph(tables), t.name) {
      var names :| IsWalk(Graph(tables), names) && names != [] && names[0] == t.name && Revisits(names);
      var w := WalkIsChain(tables, names);
      OnlyTable(tables, w[0], t);
      var i, j :| 0 <= i < j < |names| && names[i] == names[j];
      OnlyTable(tables, w[i], w[j]);
    }
  }

  lemma OnlyTable(tables: seq<Table>, a: Table, b: Table)
    requires UniqueNames(tables) && a in tables && b in tables && a.name == b.name
    ensures a == b
  {
  }

  /** Behind a table whose references lead into a loop come only such tables, and they keep their original order. */
  lemma LoopsComeLast(tables: seq<Table>, sorted: seq<Table>, i: nat, j: nat)
    requires UniqueNames(tables) && IsKahnOrder(tables, sorted)
    requires i < j < |sorted| && InLoop(tables, sorted[i])
    ensures InLoop(tables, sorted[j])
    ensures exists a, b :: 0 <= a < b < |tables| && tables[a] == sorted[i] && tables[b] == sorted[j]
  {
    var g := Graph(tables);
    var d := |Grounded(g)|;
    hide Graph, ParentsFirst, IsLevelling, Nondecreasing, Fifo, InLoop, ReachesCycle, StuckTables;
    Permuted(tables, sorted);
    var k := PlaceBefore(tables, sorted, i);
    LoopIsCycle(tables, sorted[i]);
    if i < d { GroundedFirst(tables, sorted, i); }
    var rest := StuckTables(g, tables);
    assert rest[j - d] == sorted[j] && rest[i - d] == sorted[i];
    assert sorted[j] in rest;
    LoopIsCycle(tables, sorted[j]);
    StuckKeepOrder(g, tables, i - d, j - d);
  }

  lemma GroundedFirst(tables: seq<Table>, sorted: seq<Table>, i: nat)
    requires IsKahnOrder(tables, sorted) && i < |Grounded(Graph(tables))|
    ensures i < |sorted| && sorted[i].name in Graph(tables) && !ReachesCycle(Graph(tables), sorted[i].name)
  {
    hide Graph, ParentsFirst, IsLevelling, Nondecreasing, Fifo, ReachesCycle, StuckTables;
    var d := |Grounded(Graph(tables))|;
    assert NamesOf(sorted[..d])[i] == sorted[i].name;
    assert sorted[i].name in Elems(NamesOf(sorted[..d]));
  }

  lemma {:induction false} StuckKeepOrder(g: map<string, set<string>>, tables: seq<Table>, i: nat, j: nat)
    requires i < j < |StuckTables(g, tables)|
    ensures exists a, b :: 0 <= a < b < |tables| && tables[a] == StuckTables(g, tables)[i]
                           && tables[b] == StuckTables(g, tables)[j]
  {
    hide Stuck;
    var init := tables[..|tables| - 1];
    var r := StuckTables(g, init);
    if j < |r| {
      StuckKeepOrder(g, init, i, j);
      var a, b :| 0 <= a < b < |init| && init[a] == r[i] && init[b] == r[j];
      assert tables[a] == r[i] && tables[b] == r[j];
    } else {
      assert r[i] in r;
      var a :| 0 <= a < |init| && init[a] == r[i];
      assert tables[a] == r[i];
    }
  }

  /** No table comes before one that begins a shorter chain: with every chain from an earlier table there is one of the
      same length from a later one. */
  lemma LongerChainsLater(tables: seq<Table>, sorted: seq<Table>, i: nat, j: nat, w: seq<Table>) returns (v: seq<Table>)
    requires UniqueNames(tables) && IsKahnOrder(tables, sorted) && i < j < |sorted|
    requires IsChain(tables, w) && w != [] && w[0] == sorted[i]
    ensures IsChain(tables, v) && |v| == |w| && v[0] == sorted[j]
  {
    var g := Graph(tables);
    hide *;
    Permuted(tables, sorted);
    var b := PlaceBefore(tables, sorted, j);
    ByNameAt(tables, b);
    ChainIsWalk(tables, w);
    assert Names(w)[0] == sorted[i].name;
    var names: seq<string>;
    if ReachesCycle(g, sorted[j].name) {
      names := LoopWalk(tables, sorted[j].name, |w| - 1);
    } else {
      var level, n := LevelsOf(tables, sorted, i, j);
      WalkLevel(g, NamesOf(sorted[..n]), level, Names(w), |w| - 1);
      names := LevelWalk(g, NamesOf(sorted[..n]), level, sorted[j].name, |w| - 1);
    }
    v := WalkIsChain(tables, names);
    ChainIsWalk(tables, v);
    StartIs(tables, v, sorted[j]);
  }

  lemma StartIs(tables: seq<Table>, v: seq<Table>, t: Table)
    requires UniqueNames(tables) && IsChain(tables, v) && v != [] && t in tables && Names(v)[0] == t.name
    ensures v[0] == t
  {
  }

  /** Where references lead into a loop one can go on for as long as one likes. */
  lemma LoopWalk(tables: seq<Table>, n: string, length: nat) returns (w: seq<string>)
    requires UniqueNames(tables) && n in Graph(tables) && ReachesCycle(Graph(tables), n)
    ensures IsWalk(Graph(tables), w) && |w| == length + 1 && w[0] == n
  {
    var g := Graph(tables);
    hide Graph, ReachesCycle;
    var stuck := set m | m in g && ReachesCycle(g, m);
    forall m {:trigger WaitsWithin(g, stuck, m)} | m in stuck ensures WaitsWithin(g, stuck, m) {
      var p := NextInLoop(g, m);
    }
    w := StuckWalk(g, stuck, n, length);
  }

  lemma NextInLoop(g: map<string, set<string>>, m: string) returns (p: string)
    requires m in g && ReachesCycle(g, m)
    ensures p in g[m] && p in g && ReachesCycle(g, p)
  {
    var w :| IsWalk(g, w) && w != [] && w[0] == m && Revisits(w);
    var i, j :| 0 <= i < j < |w| && w[i] == w[j];
    p := w[0 + 1];
    hide Revisits, IsWalk;
    WalkStep(g, w, 0);
    var around := w;
    if i == 0 {
      around := w[..j + 1] + [p];
      WalkAround(g, w, j);
    }
    WalkTail(g, around);
    var rest := around[1..];
    if i == 0 { assert rest[0] == rest[j]; } else { assert rest[i - 1] == rest[j - 1]; }
    Returns(rest, if i == 0 then 0 else i - 1, if i == 0 then j else j - 1);
  }

  lemma WalkStep(g: map<string, set<string>>, w: seq<string>, k: nat)
    requires IsWalk(g, w) && k + 1 < |w|
    ensures w[k] in g && w[k + 1] in g && w[k + 1] in g[w[k]]
  {
  }

  /** A walk that has come back to its beginning can go on as it began. */
  lemma WalkAround(g: map<string, set<string>>, w: seq<string>, j: nat)
    requires IsWalk(g, w) && 0 < j < |w| && w[j] == w[0]
    ensures IsWalk(g, w[..j + 1] + [w[1]])
  {
    var around := w[..j + 1] + [w[1]];
    forall k | 0 <= k < |around| - 1 ensures around[k] in g && around[k + 1] in g[around[k]] {
      if k < j { WalkStep(g, w, k); } else { WalkStep(g, w, 0); }
    }
  }

  lemma WalkTail(g: map<string, set<string>>, w: seq<string>)
    requires IsWalk(g, w) && w != []
    ensures IsWalk(g, w[1..])
  {
    var rest := w[1..];
    forall k | 0 <= k < |rest| - 1 ensures rest[k] in g && rest[k + 1] in g[rest[k]] {
      WalkStep(g, w, k + 1);
    }
  }

  lemma Returns(w: seq<string>, i: nat, j: nat)
    requires i < j < |w| && w[i] == w[j]
    ensures Revisits(w)
  {
  }

  lemma StuckLast(tables: seq<Table>, sorted: seq<Table>, j: nat)
    requires IsKahnOrder(tables, sorted) && |Grounded(Graph(tables))| <= j < |sorted|
    ensures sorted[j].name in Graph(tables) && ReachesCycle(Graph(tables), sorted[j].name)
  {
    hide Graph, ParentsFirst, IsLevelling, Nondecreasing, Fifo, ReachesCycle;
    var n := |Grounded(Graph(tables))|;
    assert sorted[n..][j - n] == sorted[j];
    assert sorted[j] in StuckTables(Graph(tables), tables);
  }

  lemma LevelsOf(tables: seq<Table>, sorted: seq<Table>, i: nat, j: nat) returns (level: map<string, nat>, n: nat)
    requires UniqueNames(tables) && IsKahnOrder(tables, sorted) && i < j < |sorted|
    requires sorted[j].name in Graph(tables) && !ReachesCycle(Graph(tables), sorted[j].name)
    ensures j < n <= |sorted|
    ensures var order := NamesOf(sorted[..n]);
            && IsLevelling(Graph(tables), order, level) && Nondecreasing(order, level)
            && ParentsFirst(Graph(tables), order)
            && sorted[i].name in order && sorted[j].name in order
            && sorted[i].name in level && sorted[j].name in level && level[sorted[i].name] <= level[sorted[j].name]
  {
    var g := Graph(tables);
    hide Graph, ParentsFirst, IsLevelling, Fifo, ReachesCycle;
    n := |Grounded(g)|;
    if j >= n { StuckLast(tables, sorted, j); }
    level :| IsLevelling(g, NamesOf(sorted[..n]), level) && Nondecreasing(NamesOf(sorted[..n]), level);
    assert NamesOf(sorted[..n])[i] == sorted[i].name && NamesOf(sorted[..n])[j] == sorted[j].name;
  }

  /** No walk is longer than the level it starts from. */
  lemma {:induction false} WalkLevel(g: map<string, set<string>>, order: seq<string>, level: map<string, nat>,
                                     w: seq<string>, k: nat)
    requires IsLevelling(g, order, level) && ParentsFirst(g, order) && IsWalk(g, w) && k < |w| && w[0] in order
    ensures w[k] in order && w[k] in level && w[0] in level && level[w[k]] + k <= level[w[0]]
  {
    if k > 0 {
      WalkLevel(g, order, level, w, k - 1);
      assert w[(k - 1) + 1] in g[w[k - 1]];
      var i :| 0 <= i < |order| && order[i] == w[k - 1];
      assert w[k] in order[..i];
      assert LevelAt(g, level, w[k - 1]);
    }
  }

  /** And there is one of each length up to it. */
  lemma {:induction false} LevelWalk(g: map<string, set<string>>, order: seq<string>, level: map<string, nat>,
                                     n: string, length: nat)
    returns (w: seq<string>)
    requires IsLevelling(g, order, level) && ParentsFirst(g, order) && n in order && n in level && length <= level[n]
    ensures IsWalk(g, w) && |w| == length + 1 && w[0] == n
    decreases length
  {
    if length == 0 {
      w := [n];
    } else {
      assert LevelAt(g, level, n);
      var p :| p in g[n] && p in level && level[p] + 1 == level[n];
      var i :| 0 <= i < |order| && order[i] == n;
      assert p in order[..i];
      var rest := LevelWalk(g, order, level, p, length - 1);
      w := [n] + rest;
    }
  }

  // ---------- The order is settled to the last table ----------

  lemma SoonerAt(tables: seq<Table>, sorted: seq<Table>, i: nat, j: nat) returns (n: nat)
    requires UniqueNames(tables) && IsKahnOrder(tables, sorted) && i < j < |sorted|
    requires sorted[j].name in Graph(tables) && !ReachesCycle(Graph(tables), sorted[j].name)
    ensures j < n <= |sorted|
    ensures var g, order := Graph(tables), NamesOf(sorted[..n]);
            && ParentsFirst(g, order) && sorted[i].name in g && sorted[j].name in g
            && Sooner(g, NamesOf(tables), order, sorted[i].name, sorted[j].name)
  {
    var g := Graph(tables);
    hide Graph, ParentsFirst, IsLevelling, Nondecreasing, Sooner, ReachesCycle;
    n := |Grounded(g)|;
    if j >= n { StuckLast(tables, sorted, j); }
    var order := NamesOf(sorted[..n]);
    assert order[i] == sorted[i].name && order[j] == sorted[j].name;
    assert order[i] in g && order[j] in g;
    assert Sooner(g, NamesOf(tables), order, order[i], order[j]);
  }

  lemma StoodBefore(tables: seq<Table>, a: nat, b: nat)
    requires UniqueNames(tables) && a < b < |tables|
    ensures !Precedes(NamesOf(tables), tables[b].name, tables[a].name)
  {
    var names := NamesOf(tables);
    assert names[a] == tables[a].name && names[b] == tables[b].name;
    var k := IndexOf(names, tables[a].name);
    var l := IndexOf(names, tables[b].name);
    assert tables[k].name == tables[a].name && tables[l].name == tables[b].name;
  }

  lemma EarlierPlace(g: map<string, set<string>>, sorted: seq<Table>, n: nat, j: nat, p: nat)
    requires n <= |sorted| && UniqueNames(sorted) && ParentsFirst(g, NamesOf(sorted[..n])) && j < n && p < n
    requires sorted[j].name in g && sorted[p].name in g[sorted[j].name]
    ensures p < j
  {
    var order := NamesOf(sorted[..n]);
    assert order[j] == sorted[j].name && order[p] == sorted[p].name;
    assert order[p] in order[..j];
    var q :| 0 <= q < j && order[..j][q] == order[p];
    assert sorted[q].name == sorted[p].name;
  }

  /** Of two tables outside the loops the one that stood first is overtaken only when it has a reference to wait for
      that is created later than all of the other's. */
  lemma OvertakingIsEarned(tables: seq<Table>, sorted: seq<Table>, i: nat, j: nat, a: nat, b: nat) returns (p: nat)
    requires UniqueNames(tables) && IsKahnOrder(tables, sorted) && i < j < |sorted| && !InLoop(tables, sorted[j])
    requires a < b < |tables| && tables[a] == sorted[j] && tables[b] == sorted[i]
    ensures p < j && sorted[p].name in sorted[j].refs && sorted[p].name != sorted[j].name
    ensures forall q :: p <= q < i ==> sorted[q].name !in sorted[i].refs
  {
    var g, x, y := Graph(tables), sorted[i].name, sorted[j].name;
    hide Graph, IsKahnOrder, InLoop, ParentsFirst;
    LoopIsCycle(tables, sorted[j]);
    ByNameAt(tables, a);
    var n := SoonerAt(tables, sorted, i, j);
    var order := NamesOf(sorted[..n]);
    StoodBefore(tables, a, b);
    p := LastIn(g[y], order);
    GraphIs(tables, a, order[p]);
    Permuted(tables, sorted);
    PermutationKeepsUniqueNames(tables, sorted);
    EarlierPlace(g, sorted, n, j, p);
    forall q | p <= q < i ensures sorted[q].name !in sorted[i].refs {
      assert order[q] == sorted[q].name && order[q] !in g[x];
      NoReference(tables, sorted, b, i, q);
    }
  }

  lemma NoReference(tables: seq<Table>, sorted: seq<Table>, b: nat, i: nat, q: nat)
    requires UniqueNames(tables) && UniqueNames(sorted) && multiset(sorted) == multiset(tables)
    requires q < i < |sorted| && b < |tables| && tables[b] == sorted[i] && sorted[i].name in Graph(tables)
    requires sorted[q].name !in Graph(tables)[sorted[i].name]
    ensures sorted[q].name !in sorted[i].refs
  {
    hide Graph;
    var k := PlaceBefore(tables, sorted, q);
    assert tables[k] in tables;
    GraphIs(tables, b, sorted[q].name);
  }

  /** Two orders of the same tables by the same rule are the same: what a set of references yields first, or last, does
      not matter. */
  lemma OrderIsDetermined(tables: seq<Table>, sorted: seq<Table>, other: seq<Table>)
    requires UniqueNames(tables) && IsKahnOrder(tables, sorted) && IsKahnOrder(tables, other)
    ensures sorted == other
  {
    var g := Graph(tables);
    var d := |Grounded(g)|;
    hide Graph, Grounded, ParentsFirst, IsLevelling, Nondecreasing, Fifo, StuckTables;
    Permuted(tables, sorted);
    Permuted(tables, other);
    PermutationKeepsUniqueNames(tables, sorted);
    PermutationKeepsUniqueNames(tables, other);
    var a, b := NamesOf(sorted[..d]), NamesOf(other[..d]);
    SamePrefix(g, NamesOf(tables), a, b, d);
    assert a == a[..d] && b == b[..d];
    forall i | 0 <= i < d ensures sorted[i] == other[i] {
      assert a[i] == sorted[i].name && b[i] == other[i].name;
      var k := PlaceBefore(tables, sorted, i);
      var l := PlaceBefore(tables, other, i);
      OnlyTable(tables, sorted[i], other[i]);
    }
    assert sorted == sorted[..d] + sorted[d..] && other == other[..d] + other[d..];
    assert sorted[..d] == other[..d];
  }

  lemma {:induction false} SamePrefix(g: map<string, set<string>>, names: seq<string>, a: seq<string>, b: seq<string>,
                                      k: nat)
    requires NoDup(a) && NoDup(b) && Elems(a) == Elems(b) && |a| == |b| && k <= |a|
    requires ParentsFirst(g, a) && ParentsFirst(g, b) && Fifo(g, names, a) && Fifo(g, names, b)
    ensures a[..k] == b[..k]
  {
    hide *;
    if k > 0 {
      SamePrefix(g, names, a, b, k - 1);
      SameNext(g, names, a, b, k - 1);
      assert a[..k] == a[..k - 1] + [a[k - 1]] && b[..k] == b[..k - 1] + [b[k - 1]];
    }
  }

  lemma SameNext(g: map<string, set<string>>, names: seq<string>, a: seq<string>, b: seq<string>, k: nat)
    requires NoDup(a) && NoDup(b) && Elems(a) == Elems(b) && |a| == |b| && k < |a| && a[..k] == b[..k]
    requires ParentsFirst(g, a) && ParentsFirst(g, b) && Fifo(g, names, a) && Fifo(g, names, b)
    ensures a[k] == b[k]
  {
    hide *;
    var x, y := a[k], b[k];
    if x != y {
      LaterThere(a, b, k);
      LaterThere(b, a, k);
      var i :| k < i < |b| && b[i] == x;
      var j :| k < j < |a| && a[j] == y;
      FifoAt(g, names, a, k, j);
      FifoAt(g, names, b, k, i);
      SameLast(g, a, b, x, k);
      SameLast(g, b, a, y, k);
      NotBoth(g, names, a, b, x, y);
    }
  }

  lemma FifoAt(g: map<string, set<string>>, names: seq<string>, order: seq<string>, i: nat, j: nat)
    requires Fifo(g, names, order) && i < j < |order|
    ensures order[i] in g && order[j] in g && Sooner(g, names, order, order[i], order[j])
  {
  }

  lemma NotBoth(g: map<string, set<string>>, names: seq<string>, a: seq<string>, b: seq<string>, x: string, y: string)
    requires x in g && y in g && LastIn(g[x], a) == LastIn(g[x], b) && LastIn(g[y], a) == LastIn(g[y], b)
    ensures !(Sooner(g, names, a, x, y) && Sooner(g, names, b, y, x))
  {
  }

  /** What is next in the one order is still to come in the other. */
  lemma LaterThere(a: seq<string>, b: seq<string>, k: nat)
    requires NoDup(a) && NoDup(b) && Elems(a) == Elems(b) && |a| == |b| && k < |a| && a[..k] == b[..k] && a[k] != b[k]
    ensures exists j :: k < j < |b| && b[j] == a[k]
  {
    assert a[k] in Elems(b);
    var j :| 0 <= j < |b| && b[j] == a[k];
    forall i | 0 <= i < k ensures b[i] != a[k] {
      assert b[i] == b[..k][i] == a[..k][i] == a[i];
    }
  }

  /** The last reference of the next table has the same place in both. */
  lemma SameLast(g: map<string, set<string>>, a: seq<string>, b: seq<string>, x: string, k: nat)
    requires NoDup(a) && NoDup(b) && ParentsFirst(g, a) && ParentsFirst(g, b) && k < |a| && k < |b| && a[..k] == b[..k]
    requires a[k] == x && x in b && x in g
    ensures LastIn(g[x], a) == LastIn(g[x], b)
  {
    var p, q := LastIn(g[x], a), LastIn(g[x], b);
    assert forall r <- g[x] :: r in a[..k];
    InFront(a, g[x], k);
    assert forall r <- g[x] :: r in b[..k];
    InFront(b, g[x], k);
    if p >= 0 { assert a[p] == a[..k][p] == b[..k][p] == b[p]; }
    if q >= 0 { assert a[q] == a[..k][q] == b[..k][q] == b[q]; }
  }

  lemma InFront(order: seq<string>, parents: set<string>, k: nat)
    requires NoDup(order) && k <= |order| && forall r <- parents :: r in order[..k]
    ensures LastIn(parents, order) < k
  {
    var p := LastIn(parents, order);
    if p >= 0 {
      var j :| 0 <= j < k && order[..k][j] == order[p];
      assert order[j] == order[p];
    }
  }
}
