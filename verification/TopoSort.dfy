/** The schema compiler's table ordering: Kahn's algorithm over foreign keys, with the
    fallback for cyclic schemas, and the order in which the statements are emitted. */
module TopoSort {

  datatype Table = Table(name: string, refs: set<string>, ddl: string)

  // ---------- The reference graph ----------

  ghost predicate UniqueNames(tables: seq<Table>) {
    forall i, j :: 0 <= i < j < |tables| ==> tables[i].name != tables[j].name
  }

  function ByName(tables: seq<Table>): (m: map<string, Table>)
    ensures forall n <- m :: m[n] in tables && m[n].name == n
    ensures forall t <- tables :: t.name in m
  {
    if tables == [] then map[]
    else
      var last := tables[|tables| - 1];
      ByName(tables[..|tables| - 1])[last.name := last]
  }

  /** The tables a table must wait for, given the names that exist: a self-reference and a
      reference to an unknown table impose nothing. */
  function Parents(t: Table, names: set<string>): set<string> {
    set r | r in t.refs && r in names && r != t.name
  }

  function Graph(tables: seq<Table>): map<string, set<string>> {
    var m := ByName(tables);
    map n | n in m :: Parents(m[n], m.Keys)
  }

  lemma ByNameAt(tables: seq<Table>, i: nat)
    requires UniqueNames(tables) && i < |tables|
    ensures ByName(tables)[tables[i].name] == tables[i]
    ensures tables[i].name in Graph(tables)
    ensures Graph(tables)[tables[i].name] == Parents(tables[i], Graph(tables).Keys)
  {
    var m := ByName(tables);
    assert tables[i] in tables;
    var t := m[tables[i].name];
    var j :| 0 <= j < |tables| && tables[j] == t;
    assert i == j;
    assert Graph(tables).Keys == m.Keys;
  }

  // ---------- Reaching a cycle ----------

  ghost predicate IsWalk(g: map<string, set<string>>, w: seq<string>) {
    && (forall k :: 0 <= k < |w| ==> w[k] in g)
    && (forall k :: 0 <= k < |w| - 1 ==> w[k + 1] in g[w[k]])
  }

  ghost predicate Revisits(w: seq<string>) {
    exists i, j :: 0 <= i < j < |w| && w[i] == w[j]
  }

  /** Some walk along references from `n` comes back to a table it has already seen. */
  ghost predicate ReachesCycle(g: map<string, set<string>>, n: string) {
    exists w :: IsWalk(g, w) && w != [] && w[0] == n && Revisits(w)
  }

  ghost predicate Acyclic(g: map<string, set<string>>) {
    forall n <- g :: !ReachesCycle(g, n)
  }

  ghost function Grounded(g: map<string, set<string>>): set<string> {
    set n | n in g && !ReachesCycle(g, n)
  }

  // ---------- Sequences without repetitions ----------

  ghost predicate NoDup<T>(s: seq<T>) {
    forall i, j :: 0 <= i < j < |s| ==> s[i] != s[j]
  }

  ghost function Elems<T>(s: seq<T>): set<T> { set x | x in s }

  lemma {:induction false} NoDupCount<T>(s: seq<T>, x: T)
    requires NoDup(s)
    ensures multiset(s)[x] == if x in s then 1 else 0
  {
    if s != [] {
      var init := s[..|s| - 1];
      assert s == init + [s[|s| - 1]];
      NoDupCount(init, x);
    }
  }

  lemma {:induction false} NoDupSize<T>(s: seq<T>)
    requires NoDup(s)
    ensures |Elems(s)| == |s|
  {
    if s != [] {
      var init, last := s[..|s| - 1], s[|s| - 1];
      NoDupSize(init);
      assert Elems(s) == Elems(init) + {last};
      assert last !in Elems(init);
    }
  }

  /** A walk longer than the number of places it may visit revisits one. */
  lemma Pigeonhole(w: seq<string>, places: set<string>)
    requires |w| > |places|
    requires forall k :: 0 <= k < |w| ==> w[k] in places
    ensures Revisits(w)
  {
    if !Revisits(w) {
      NoDupSize(w);
      SubsetSize(Elems(w), places);
    }
  }

  lemma SubsetSize<T>(a: set<T>, b: set<T>)
    requires a <= b
    ensures |a| <= |b|
  {
    assert b == a + (b - a);
  }

  // ---------- What a drained queue means ----------

  /** Every reference of a listed table is listed before it. */
  ghost predicate ParentsFirst(g: map<string, set<string>>, order: seq<string>) {
    forall i :: 0 <= i < |order| ==> order[i] in g && forall p <- g[order[i]] :: p in order[..i]
  }

  ghost function IndexOf(s: seq<string>, x: string): (i: nat)
    requires x in s
    ensures i < |s| && s[i] == x
  {
    var i :| 0 <= i < |s| && s[i] == x; i
  }

  /** Along references the position in such an order strictly falls. */
  lemma {:induction false} WalkDescends(g: map<string, set<string>>, order: seq<string>, w: seq<string>, k: nat)
    requires NoDup(order) && ParentsFirst(g, order)
    requires IsWalk(g, w) && k < |w| && w[0] in order
    ensures w[k] in order
    ensures forall i :: 0 <= i < k ==> w[i] in order && IndexOf(order, w[k]) < IndexOf(order, w[i])
  {
    if k > 0 {
      WalkDescends(g, order, w, k - 1);
      var at := IndexOf(order, w[k - 1]);
      assert w[k] in g[order[at]];
      assert w[k] in order[..at];
      var below :| 0 <= below < at && order[below] == w[k];
      assert IndexOf(order, w[k]) == below;
    }
  }

  lemma DrainedAreGrounded(g: map<string, set<string>>, order: seq<string>, n: string)
    requires NoDup(order) && ParentsFirst(g, order) && n in order
    ensures !ReachesCycle(g, n)
  {
    if ReachesCycle(g, n) {
      var w :| IsWalk(g, w) && w != [] && w[0] == n && Revisits(w);
      var i, j :| 0 <= i < j < |w| && w[i] == w[j];
      WalkDescends(g, order, w, j);
    }
  }

  /** Where everything still waits for something that also waits, one can walk forever. */
  ghost predicate WaitsWithin(g: map<string, set<string>>, stuck: set<string>, m: string)
    requires m in g
  {
    exists p :: p in g[m] && p in stuck
  }

  lemma {:induction false} StuckWalk(g: map<string, set<string>>, stuck: set<string>, n: string, length: nat)
    returns (w: seq<string>)
    requires n in stuck && stuck <= g.Keys
    requires forall m {:trigger WaitsWithin(g, stuck, m)} :: m in stuck ==> WaitsWithin(g, stuck, m)
    ensures IsWalk(g, w) && |w| == length + 1 && w[0] == n
    ensures forall k :: 0 <= k < |w| ==> w[k] in stuck
    decreases length
  {
    if length == 0 {
      w := [n];
    } else {
      assert WaitsWithin(g, stuck, n);
      var p :| p in g[n] && p in stuck;
      var rest := StuckWalk(g, stuck, p, length - 1);
      w := [n] + rest;
    }
  }

  lemma StuckReachCycle(g: map<string, set<string>>, stuck: set<string>, n: string)
    requires n in stuck && stuck <= g.Keys
    requires forall m {:trigger WaitsWithin(g, stuck, m)} :: m in stuck ==> WaitsWithin(g, stuck, m)
    ensures ReachesCycle(g, n)
  {
    var w := StuckWalk(g, stuck, n, |stuck|);
    Pigeonhole(w, stuck);
  }

  // ---------- Levels: the longest chain of references below a table ----------

  /** `level` gives each listed table 0 when it waits for nothing, and otherwise one more than
      the highest of the tables it waits for. */
  ghost predicate IsLevelling(g: map<string, set<string>>, order: seq<string>, level: map<string, nat>) {
    && (forall n <- order :: n in g && n in level)
    && forall n {:trigger LevelAt(g, level, n)} :: n in order ==> LevelAt(g, level, n)
  }

  ghost predicate LevelAt(g: map<string, set<string>>, level: map<string, nat>, n: string)
    requires n in g && n in level
  {
    && (forall p <- g[n] :: p in level && level[p] < level[n])
    && (level[n] == 0 || exists p :: p in g[n] && p in level && level[p] + 1 == level[n])
  }

  ghost predicate Nondecreasing(order: seq<string>, level: map<string, nat>) {
    && (forall n <- order :: n in level)
    && forall i, j :: 0 <= i < j < |order| ==> level[order[i]] <= level[order[j]]
  }

  // ---------- Who comes first of those that wait for nothing more ----------

  ghost predicate Precedes(names: seq<string>, x: string, y: string) {
    x in names && y in names && IndexOf(names, x) < IndexOf(names, y)
  }

  /** `s` keeps the order of `names`. */
  ghost predicate InOrder(names: seq<string>, s: seq<string>) {
    forall i, j :: 0 <= i < j < |s| ==> Precedes(names, s[i], s[j])
  }

  /** The place of the last of the `parents` in `order`, or -1. */
  function LastIn(parents: set<string>, order: seq<string>): (k: int)
    ensures -1 <= k < |order| && (k >= 0 ==> order[k] in parents)
    ensures forall i :: k < i < |order| ==> order[i] !in parents
  {
    if order == [] then -1
    else if order[|order| - 1] in parents then |order| - 1
    else LastIn(parents, order[..|order| - 1])
  }

  /** The last reference of `x` is listed before the last one of `y`; or they share it, or have none, and `x` stood
      before `y` to begin with. */
  ghost predicate Sooner(g: map<string, set<string>>, names: seq<string>, order: seq<string>, x: string, y: string)
    requires x in g && y in g
  {
    var a, b := LastIn(g[x], order), LastIn(g[y], order);
    a < b || (a == b && Precedes(names, x, y))
  }

  /** Tables leave in the order in which their last reference did. */
  ghost predicate Fifo(g: map<string, set<string>>, names: seq<string>, order: seq<string>) {
    && (forall n <- order :: n in g)
    && forall i, j :: 0 <= i < j < |order| ==> Sooner(g, names, order, order[i], order[j])
  }

  // ---------- The specification of the sorted list ----------

  ghost predicate Stuck(g: map<string, set<string>>, t: Table) {
    t.name in g && ReachesCycle(g, t.name)
  }

  /** The tables that can reach a cycle, in their original order. */
  ghost function StuckTables(g: map<string, set<string>>, tables: seq<Table>): (r: seq<Table>)
    ensures forall t :: t in r <==> t in tables && Stuck(g, t)
  {
    if tables == [] then []
    else
      var r := StuckTables(g, tables[..|tables| - 1]);
      if Stuck(g, tables[|tables| - 1]) then r + [tables[|tables| - 1]] else r
  }

  ghost function NamesOf(tables: seq<Table>): (names: seq<string>)
    ensures |names| == |tables|
    ensures forall i :: 0 <= i < |tables| ==> names[i] == tables[i].name
  {
    seq(|tables|, i requires 0 <= i < |tables| => tables[i].name)
  }

  /** The first tables are exactly those that cannot reach a cycle, each after everything it references, in order of
      level and of what they waited for; the rest follow in their original order. */
  ghost predicate IsKahnOrder(tables: seq<Table>, sorted: seq<Table>) {
    var g := Graph(tables);
    var d := |Grounded(g)|;
    && multiset(sorted) == multiset(tables)
    && d <= |sorted|
    && Elems(NamesOf(sorted[..d])) == Grounded(g)
    && ParentsFirst(g, NamesOf(sorted[..d]))
    && (exists level :: IsLevelling(g, NamesOf(sorted[..d]), level) && Nondecreasing(NamesOf(sorted[..d]), level))
    && Fifo(g, NamesOf(tables), NamesOf(sorted[..d]))
    && sorted[d..] == StuckTables(g, tables)
  }

  // ---------- The algorithm ----------

  /** The tables among the first `k` that reference `n`, in their original order. */
  ghost function Children(tables: seq<Table>, g: map<string, set<string>>, k: nat, n: string): (names: seq<string>)
    requires k <= |tables| && forall t <- tables :: t.name in g
  {
    if k == 0 then []
    else
      var before := Children(tables, g, k - 1, n);
      if n in g[tables[k - 1].name] then before + [tables[k - 1].name] else before
  }

  lemma {:induction false} ChildrenAre(tables: seq<Table>, g: map<string, set<string>>, k: nat, n: string)
    requires k <= |tables| && (forall t <- tables :: t.name in g) && UniqueNames(tables)
    ensures NoDup(Children(tables, g, k, n))
    ensures forall m :: m in Children(tables, g, k, n) <==> exists i :: 0 <= i < k && tables[i].name == m && n in g[m]
  {
    if k > 0 {
      ChildrenAre(tables, g, k - 1, n);
    }
  }

  lemma {:induction false} ChildrenInOrder(tables: seq<Table>, g: map<string, set<string>>, k: nat, n: string)
    requires k <= |tables| && (forall t <- tables :: t.name in g) && UniqueNames(tables)
    ensures InOrder(NamesOf(tables), Children(tables, g, k, n))
    ensures forall m <- Children(tables, g, k, n) :: m in NamesOf(tables) && IndexOf(NamesOf(tables), m) < k
  {
    if k > 0 {
      ChildrenInOrder(tables, g, k - 1, n);
      var name := tables[k - 1].name;
      assert NamesOf(tables)[k - 1] == name;
      var at := IndexOf(NamesOf(tables), name);
      assert tables[at].name == tables[k - 1].name;
      assert at == k - 1;
    }
  }

  ghost predicate EdgesUpTo(tables: seq<Table>, g: map<string, set<string>>, k: nat,
                            indegree: map<string, int>, adj: map<string, seq<string>>)
    requires k <= |tables| && forall t <- tables :: t.name in g
  {
    && indegree.Keys == g.Keys && adj.Keys == g.Keys
    && (forall n <- g :: adj[n] == Children(tables, g, k, n))
    && (forall i :: 0 <= i < |tables| ==>
                      indegree[tables[i].name] == if i < k then |g[tables[i].name]| else 0)
  }

  /** For each reference to an existing table that is not the table itself, one more to wait for, and the table's name
      in the child list of that one. */
  ghost predicate EdgesAdded(t: Table, nameSet: set<string>, indegree0: map<string, int>,
                             adj0: map<string, seq<string>>, indegree: map<string, int>, adj: map<string, seq<string>>)
  {
    && indegree == indegree0[t.name := |set r | r in t.refs && r in nameSet && r != t.name|]
    && adj == map n | n in adj0 :: if n in t.refs && n != t.name then adj0[n] + [t.name] else adj0[n]
  }

  /** The inner loop over one table's references, in whatever order the set yields them. */
  method AddEdges(t: Table, nameSet: set<string>, indegree0: map<string, int>, adj0: map<string, seq<string>>)
    returns (indegree: map<string, int>, adj: map<string, seq<string>>)
    requires t.name in indegree0 && indegree0[t.name] == 0 && adj0.Keys == nameSet
    ensures EdgesAdded(t, nameSet, indegree0, adj0, indegree, adj)
    ensures indegree == indegree0[t.name := |Parents(t, nameSet)|]
    ensures adj == Extended(adj0, Parents(t, nameSet), t.name)
  {
    hide EdgesAdded;
    var todo := t.refs;
    indegree, adj := indegree0, adj0;
    ghost var seen: set<string> := {};
    while todo != {}
      invariant todo <= t.refs
      invariant forall r :: r in seen <==> r in Parents(t, nameSet) && r !in todo
      invariant indegree == indegree0[t.name := |seen|]
      invariant adj == Extended(adj0, seen, t.name)
      decreases todo
    {
      var ref :| ref in todo;
      if ref in nameSet && ref != t.name {
        assert ref !in seen;
        adj := adj[ref := adj[ref] + [t.name]];
        indegree := indegree[t.name := indegree[t.name] + 1];
        seen := seen + {ref};
      }
      todo := todo - {ref};
    }
    assert seen == Parents(t, nameSet);
    EdgesMeant(t, nameSet, indegree0, adj0);
  }

  lemma EdgesMeant(t: Table, nameSet: set<string>, indegree0: map<string, int>, adj0: map<string, seq<string>>)
    requires adj0.Keys == nameSet
    ensures EdgesAdded(t, nameSet, indegree0, adj0, indegree0[t.name := |Parents(t, nameSet)|],
                       Extended(adj0, Parents(t, nameSet), t.name))
  {
    assert Parents(t, nameSet) == set r | r in t.refs && r in nameSet && r != t.name;
  }

  /** `name` joins the child lists of its parents. */
  ghost function Extended(adj: map<string, seq<string>>, parents: set<string>, name: string): map<string, seq<string>> {
    map n | n in adj :: if n in parents then adj[n] + [name] else adj[n]
  }

  method CollectEdges(tables: seq<Table>, ghost g: map<string, set<string>>)
    returns (indegree: map<string, int>, adj: map<string, seq<string>>)
    requires UniqueNames(tables) && g == Graph(tables)
    ensures forall t <- tables :: t.name in g
    ensures EdgesUpTo(tables, g, |tables|, indegree, adj)
  {
    hide *;
    var nameSet := set t | t in tables :: t.name;
    GraphNames(tables);
    assert nameSet == g.Keys;
    indegree := map n | n in nameSet :: 0;
    adj := map n | n in nameSet :: [];
    NoEdges(tables, g, nameSet);
    for k := 0 to |tables|
      invariant EdgesUpTo(tables, g, k, indegree, adj)
    {
      ByNameAt(tables, k);
      EdgeStep(tables, g, k, nameSet, indegree, adj);
      indegree, adj := AddEdges(tables[k], nameSet, indegree, adj);
    }
  }

  lemma GraphNames(tables: seq<Table>)
    ensures forall t <- tables :: t.name in Graph(tables)
    ensures forall n <- Graph(tables) :: exists t :: t in tables && t.name == n
  {
  }

  lemma NoEdges(tables: seq<Table>, g: map<string, set<string>>, names: set<string>)
    requires names == g.Keys && forall t <- tables :: t.name in g
    ensures EdgesUpTo(tables, g, 0, map n | n in names :: 0, map n | n in names :: [])
  {
  }

  lemma EdgeStep(tables: seq<Table>, g: map<string, set<string>>, k: nat, names: set<string>,
                 indegree: map<string, int>, adj: map<string, seq<string>>)
    requires UniqueNames(tables) && names == g.Keys && k < |tables|
    requires (forall t <- tables :: t.name in g) && g[tables[k].name] == Parents(tables[k], names)
    requires EdgesUpTo(tables, g, k, indegree, adj)
    ensures var parents, name := Parents(tables[k], names), tables[k].name;
            && name in indegree && indegree[name] == 0 && adj.Keys == names
            && EdgesUpTo(tables, g, k + 1, indegree[name := |parents|], Extended(adj, parents, name))
  {
    hide Parents;
    var parents, name := Parents(tables[k], names), tables[k].name;
    forall n <- g ensures Extended(adj, parents, name)[n] == Children(tables, g, k + 1, n) {
      assert n in parents <==> n in g[name];
    }
    forall i | 0 <= i < |tables|
      ensures indegree[name := |parents|][tables[i].name] == if i < k + 1 then |g[tables[i].name]| else 0
    {
      if i != k { assert tables[i].name != name; }
    }
  }

  // ---------- The queue loop ----------

  /** The in-degree table while the dequeued tables `done` no longer count, except that those in
      `rest` still wait to be told about the last of them; `all` is what ever joined the queue. */
  ghost predicate Counted(g: map<string, set<string>>, all: seq<string>, done: set<string>, rest: seq<string>,
                          indegree: map<string, int>)
  {
    && indegree.Keys == g.Keys
    && (forall m {:trigger CountAt(g, done, rest, indegree, m)} :: m in g ==> CountAt(g, done, rest, indegree, m))
    && (forall m :: m in all <==> m in g && indegree[m] == 0)
  }

  ghost predicate CountAt(g: map<string, set<string>>, done: set<string>, rest: seq<string>,
                          indegree: map<string, int>, m: string)
    requires m in g && m in indegree
  {
    indegree[m] == |g[m] - done| + if m in rest then 1 else 0
  }

  ghost predicate Layered(g: map<string, set<string>>, all: seq<string>, level: map<string, nat>) {
    && NoDup(all)
    && level.Keys == Elems(all)
    && IsLevelling(g, all, level)
    && Nondecreasing(all, level)
  }

  /** Nobody in the queue is more than one level above its head. */
  ghost predicate Near(all: seq<string>, level: map<string, nat>, head: nat)
    requires head < |all| && forall x <- all :: x in level
  {
    forall x <- all :: level[x] <= level[all[head]] + 1
  }

  /** What holds between two turns: `all` is the tables listed so far and then the queue. */
  ghost predicate QueueState(g: map<string, set<string>>, all: seq<string>, taken: nat, indegree: map<string, int>,
                             level: map<string, nat>)
  {
    && taken <= |all|
    && Counted(g, all, Elems(all[..taken]), [], indegree)
    && ParentsFirst(g, all[..taken])
    && Layered(g, all, level)
    && (taken < |all| ==> Near(all, level, taken))
  }

  lemma AppendNondecreasing(all: seq<string>, m: string, level: map<string, nat>, l: nat)
    requires Nondecreasing(all, level) && m !in all
    requires forall x <- all :: level[x] <= l
    ensures Nondecreasing(all + [m], level[m := l])
  {
    var level' := level[m := l];
    forall i, j | 0 <= i < j < |all + [m]| ensures level'[(all + [m])[i]] <= level'[(all + [m])[j]] {
      assert (all + [m])[i] == all[i];
      if j < |all| { assert (all + [m])[j] == all[j]; }
    }
  }

  lemma AppendLevelling(g: map<string, set<string>>, n: string, all: seq<string>, m: string, level: map<string, nat>)
    requires IsLevelling(g, all, level) && level.Keys == Elems(all)
    requires m in g && m !in all && n in all && n in g[m]
    requires forall p <- g[m] :: p in all && level[p] <= level[n]
    ensures IsLevelling(g, all + [m], level[m := level[n] + 1])
  {
    var level' := level[m := level[n] + 1];
    assert level'[n] + 1 == level'[m];
    assert LevelAt(g, level', m);
    forall x {:trigger LevelAt(g, level', x)} | x in all ensures LevelAt(g, level', x) {
      assert LevelAt(g, level, x);
      if level[x] != 0 {
        var p :| p in g[x] && p in level && level[p] + 1 == level[x];
        assert level'[p] + 1 == level'[x];
      }
    }
  }

  /** A released table joins one level above the table that released it. */
  lemma JoinQueue(g: map<string, set<string>>, all: seq<string>, head: nat, m: string, level: map<string, nat>)
    requires Layered(g, all, level) && head < |all| && (forall x <- all :: x in level) && Near(all, level, head)
    requires m in g && m !in all && all[head] in g[m] && g[m] <= Elems(all[..head + 1])
    ensures var level' := level[m := level[all[head]] + 1];
            (forall x <- all + [m] :: x in level') && Layered(g, all + [m], level') && Near(all + [m], level', head)
  {
    var n := all[head];
    forall p <- g[m] ensures p in all && level[p] <= level[n] {
      var i :| 0 <= i < head + 1 && all[..head + 1][i] == p;
      assert all[i] == p;
    }
    AppendLevelling(g, n, all, m, level);
    AppendNondecreasing(all, m, level, level[n] + 1);
    assert Elems(all + [m]) == Elems(all) + {m};
    assert (all + [m])[head] == n;
  }

  lemma StartCounting(g: map<string, set<string>>, all: seq<string>, done: set<string>, n: string,
                      children: seq<string>,
                      indegree: map<string, int>)
    requires Counted(g, all, done, [], indegree) && n !in done
    requires forall m :: m in children <==> m in g && n in g[m]
    ensures Counted(g, all, done + {n}, children, indegree)
  {
    forall m {:trigger CountAt(g, done + {n}, children, indegree, m)} | m in g
      ensures CountAt(g, done + {n}, children, indegree, m)
    {
      assert CountAt(g, done, [], indegree, m);
      assert g[m] - (done + {n}) == (g[m] - done) - {n};
    }
  }

  lemma CountOne(g: map<string, set<string>>, all: seq<string>, done: set<string>, rest: seq<string>,
                 indegree: map<string, int>)
    requires Counted(g, all, done, rest, indegree)
    requires rest != [] && rest[0] in g && rest[0] !in rest[1..]
    ensures var m := rest[0];
            var indegree' := indegree[m := indegree[m] - 1];
            && m !in all
            && (if indegree'[m] == 0 then g[m] <= done && Counted(g, all + [m], done, rest[1..], indegree')
                else Counted(g, all, done, rest[1..], indegree'))
  {
    var m := rest[0];
    var indegree' := indegree[m := indegree[m] - 1];
    assert rest == [m] + rest[1..];
    assert CountAt(g, done, rest, indegree, m);
    assert indegree'.Keys == g.Keys;
    forall k {:trigger CountAt(g, done, rest[1..], indegree', k)} | k in g
      ensures CountAt(g, done, rest[1..], indegree', k)
    {
      assert CountAt(g, done, rest, indegree, k);
    }
    if indegree'[m] == 0 {
      assert g[m] - done == {};
      forall k ensures k in all + [m] <==> k in g && indegree'[k] == 0 {
        assert k in all + [m] <==> k in all || k == m;
      }
      assert g[m] == (g[m] - done) + (g[m] * done);
    } else {
      assert forall k :: k in all <==> k in g && indegree'[k] == 0;
    }
  }

  /** Each table that waits for `n`, once. */
  ghost predicate AreChildren(g: map<string, set<string>>, n: string, children: seq<string>) {
    NoDup(children) && forall m :: m in children <==> m in g && n in g[m]
  }

  /** The inner loop: taking the queue's head releases the tables that waited only for it. */
  method Release(ghost g: map<string, set<string>>, ghost names: seq<string>, children: seq<string>,
                 ghost all: seq<string>, ghost head: nat, queue0: seq<string>, indegree0: map<string, int>,
                 ghost level0: map<string, nat>)
    returns (queue: seq<string>, indegree: map<string, int>, ghost level: map<string, nat>)
    requires QueueState(g, all, head, indegree0, level0) && head < |all| && queue0 == all[head + 1..]
    requires AreChildren(g, all[head], children) && InOrder(names, children) && Waited(g, names, all, head)
    ensures queue0 <= queue
    ensures QueueState(g, all[..head + 1] + queue, head + 1, indegree, level)
    ensures Waited(g, names, all[..head + 1] + queue, head + 1)
  {
    hide *;
    queue, indegree, level := queue0, indegree0, level0;
    ghost var n := all[head];
    ghost var done := Elems(all[..head + 1]);
    ghost var joined := all;
    FirstOff(g, all, head, children, indegree0, level0);
    StartReleasing(g, names, all, head, children);
    assert children[0..] == children;
    assert all == all[..head + 1] + queue0;
    for c := 0 to |children|
      invariant joined == all[..head + 1] + queue && queue0 <= queue
      invariant Counted(g, joined, done, children[c..], indegree)
      invariant Layered(g, joined, level)
      invariant Releasing(g, names, joined, head, children[c..])
      invariant indegree.Keys == g.Keys && (forall x <- joined :: x in level) && Near(joined, level, head)
    {
      var m := children[c];
      OnlyOnce(g, n, children, c);
      CountOne(g, joined, done, children[c..], indegree);
      indegree := indegree[m := indegree[m] - 1];
      if indegree[m] == 0 {
        assert joined[..head + 1] == all[..head + 1];
        ListedOnce(g, joined, level);
        JoinQueue(g, joined, head, m, level);
        ReleaseOne(g, names, joined, head, children, c);
        queue := queue + [m];
        joined := joined + [m];
        level := level[m := level[n] + 1];
      } else {
        ReleaseNone(g, names, joined, head, children, c);
      }
    }
    assert children[|children|..] == [];
    DoneReleasing(g, names, joined, head);
    NextTurn(g, all, head, joined, indegree, level);
  }

  /** Between two turns: first come, first served; and whoever has joined waits for nobody in the queue. */
  ghost predicate Waited(g: map<string, set<string>>, names: seq<string>, all: seq<string>, taken: nat) {
    Releasing(g, names, all, taken - 1, [])
  }

  /** While the table at `head` releases those that waited for it, and `rest` are still to be told. */
  ghost predicate Releasing(g: map<string, set<string>>, names: seq<string>, all: seq<string>, head: int,
                            rest: seq<string>) {
    && Fifo(g, names, all)
    && (forall x <- all :: g[x] <= Elems(all) && LastIn(g[x], all) <= head)
    && forall x, y :: x in all && y in rest && LastIn(g[x], all) == head ==> Precedes(names, x, y)
  }

  lemma ListedOnce(g: map<string, set<string>>, all: seq<string>, level: map<string, nat>)
    requires Layered(g, all, level)
    ensures NoDup(all)
  {
  }

  lemma StartReleasing(g: map<string, set<string>>, names: seq<string>, all: seq<string>, head: nat, rest: seq<string>)
    requires Waited(g, names, all, head)
    ensures Releasing(g, names, all, head, rest)
  {
  }

  lemma DoneReleasing(g: map<string, set<string>>, names: seq<string>, all: seq<string>, head: nat)
    requires Releasing(g, names, all, head, [])
    ensures Waited(g, names, all, head + 1)
  {
  }

  lemma ReleaseNone(g: map<string, set<string>>, names: seq<string>, all: seq<string>, head: nat,
                    children: seq<string>, c: nat)
    requires c < |children| && Releasing(g, names, all, head, children[c..])
    ensures Releasing(g, names, all, head, children[c + 1..])
  {
    assert forall y <- children[c + 1..] :: y in children[c..];
  }

  /** Who joins was waiting for the head, and joins behind those it released before. */
  lemma ReleaseOne(g: map<string, set<string>>, names: seq<string>, all: seq<string>, head: nat,
                   children: seq<string>, c: nat)
    requires c < |children| && Releasing(g, names, all, head, children[c..]) && InOrder(names, children)
    requires head < |all| && NoDup(all)
    requires var m := children[c];
             m in g && m !in all && all[head] in g[m] && g[m] <= Elems(all[..head + 1])
    ensures Releasing(g, names, all + [children[c]], head, children[c + 1..])
  {
    var m := children[c];
    var joined := all + [m];
    JoinedLasts(g, all, head, m);
    assert children[c..][0] == m;
    hide *;
    JoinedInTurn(g, names, all, head, children[c..]);
    forall x, y | x in joined && y in children[c + 1..] && LastIn(g[x], joined) == head ensures Precedes(names, x, y) {
      var k :| 0 <= k < |children[c + 1..]| && children[c + 1..][k] == y;
      assert y == children[c + 1 + k] == children[c..][k + 1];
      StillFirst(g, names, all, head, children, c, x, c + 1 + k);
    }
    ReleasingNow(g, names, joined, head, children[c + 1..]);
  }

  lemma ReleasingNow(g: map<string, set<string>>, names: seq<string>, all: seq<string>, head: int, rest: seq<string>)
    requires Fifo(g, names, all) && forall x <- all :: x in g && g[x] <= Elems(all) && LastIn(g[x], all) <= head
    requires forall x, y :: x in all && y in rest && LastIn(g[x], all) == head ==> Precedes(names, x, y)
    ensures Releasing(g, names, all, head, rest)
  {
    hide Fifo, Precedes, LastIn;
  }

  /** A table that joins changes nobody's last reference. */
  lemma JoinedLasts(g: map<string, set<string>>, all: seq<string>, head: nat, m: string)
    requires forall x <- all :: x in g && g[x] <= Elems(all) && LastIn(g[x], all) <= head
    requires head < |all| && NoDup(all) && m in g && m !in all && all[head] in g[m] && g[m] <= Elems(all[..head + 1])
    ensures forall x <- all :: LastIn(g[x], all + [m]) == LastIn(g[x], all)
    ensures LastIn(g[m], all + [m]) == head
    ensures forall x <- all + [m] :: x in g && g[x] <= Elems(all + [m]) && LastIn(g[x], all + [m]) <= head
  {
    var joined := all + [m];
    assert joined[..|all|] == all;
    forall x | x in all ensures LastIn(g[x], joined) == LastIn(g[x], all) && g[x] <= Elems(joined) {
      assert g[x] <= Elems(all);
    }
    JoinsBehind(g[m], all, head);
    forall p <- g[m] ensures p in joined && p != m { assert p in all[..head + 1]; }
  }

  lemma JoinedInTurn(g: map<string, set<string>>, names: seq<string>, all: seq<string>, head: nat, rest: seq<string>)
    requires rest != [] && rest[0] in g && Releasing(g, names, all, head, rest)
    requires forall x <- all :: LastIn(g[x], all + [rest[0]]) == LastIn(g[x], all)
    requires LastIn(g[rest[0]], all + [rest[0]]) == head
    ensures Fifo(g, names, all + [rest[0]])
  {
    hide Precedes, LastIn;
    var joined := all + [rest[0]];
    forall i, j | 0 <= i < j < |joined| ensures Sooner(g, names, joined, joined[i], joined[j]) {
      assert joined[i] == all[i];
      if j < |all| { assert joined[j] == all[j] && Sooner(g, names, all, all[i], all[j]); }
    }
  }

  lemma StillFirst(g: map<string, set<string>>, names: seq<string>, all: seq<string>, head: nat, children: seq<string>,
                   c: nat, x: string, k: nat)
    requires c < k < |children| && Releasing(g, names, all, head, children[c..]) && InOrder(names, children)
    requires children[c] in g && LastIn(g[children[c]], all + [children[c]]) == head
    requires forall x <- all :: LastIn(g[x], all + [children[c]]) == LastIn(g[x], all)
    requires x in all + [children[c]] && x in g && LastIn(g[x], all + [children[c]]) == head
    ensures Precedes(names, x, children[k])
  {
    hide Precedes, LastIn;
    assert children[c..][k - c] == children[k];
  }

  lemma JoinsBehind(parents: set<string>, all: seq<string>, head: nat)
    requires head < |all| && NoDup(all) && all[head] in parents && parents <= Elems(all[..head + 1])
    ensures LastIn(parents, all) == head
  {
    var k := LastIn(parents, all);
    assert all[k] in Elems(all[..head + 1]);
    var i :| 0 <= i < head + 1 && all[..head + 1][i] == all[k];
    assert all[i] == all[k];
  }

  lemma OnlyOnce(g: map<string, set<string>>, n: string, children: seq<string>, c: nat)
    requires AreChildren(g, n, children) && c < |children|
    ensures children[c] in g && n in g[children[c]]
    ensures children[c..][0] == children[c] && children[c..][1..] == children[c + 1..]
            && children[c] !in children[c + 1..]
  {
  }

  lemma FirstOff(g: map<string, set<string>>, all: seq<string>, head: nat, children: seq<string>,
                 indegree: map<string, int>, level: map<string, nat>)
    requires QueueState(g, all, head, indegree, level) && head < |all|
    requires AreChildren(g, all[head], children)
    ensures Counted(g, all, Elems(all[..head + 1]), children, indegree) && indegree.Keys == g.Keys
    ensures ParentsFirst(g, all[..head]) && all[head] in g && g[all[head]] <= Elems(all[..head])
    ensures Layered(g, all, level) && (forall x <- all :: x in level) && Near(all, level, head)
  {
    var n, done := all[head], Elems(all[..head]);
    assert all[..head + 1] == all[..head] + [n];
    assert Elems(all[..head + 1]) == done + {n};
    assert n !in done;
    StartCounting(g, all, done, n, children, indegree);
    assert CountAt(g, done, [], indegree, n);
    assert g[n] - done == {};
  }

  lemma NextTurn(g: map<string, set<string>>, all: seq<string>, head: nat, joined: seq<string>,
                 indegree: map<string, int>,
                 level: map<string, nat>)
    requires head < |all| <= |joined| && joined[..head + 1] == all[..head + 1]
    requires ParentsFirst(g, all[..head]) && all[head] in g && g[all[head]] <= Elems(all[..head])
    requires Counted(g, joined, Elems(all[..head + 1]), [], indegree)
    requires Layered(g, joined, level) && (forall x <- joined :: x in level) && Near(joined, level, head)
    ensures QueueState(g, joined, head + 1, indegree, level)
  {
    var done := joined[..head + 1];
    forall i | 0 <= i < |done| ensures done[i] in g && forall p <- g[done[i]] :: p in done[..i] {
      assert done[i] == all[i] && done[..i] == all[..i];
      if i < head { assert done[i] == all[..head][i] && all[..head][..i] == all[..i]; }
    }
  }

  /** When the queue runs dry, the tables listed are exactly those that cannot reach a cycle. */
  lemma Drained(g: map<string, set<string>>, ordered: seq<string>)
    requires NoDup(ordered) && ParentsFirst(g, ordered)
    requires forall n <- g :: g[n] <= g.Keys
    requires forall n <- g :: n !in ordered ==> g[n] - Elems(ordered) != {}
    ensures Elems(ordered) == Grounded(g)
  {
    forall n <- ordered ensures !ReachesCycle(g, n) {
      DrainedAreGrounded(g, ordered, n);
    }
    var stuck := g.Keys - Elems(ordered);
    forall m {:trigger WaitsWithin(g, stuck, m)} | m in stuck ensures WaitsWithin(g, stuck, m) {
      var p :| p in g[m] - Elems(ordered);
    }
    forall n | n in g && n !in ordered ensures ReachesCycle(g, n) {
      StuckReachCycle(g, stuck, n);
    }
  }

  /** The two tables built from the edges: how many references each name waits for, and who waits
      for it. */
  ghost predicate EdgeTables(g: map<string, set<string>>, indegree: map<string, int>, adj: map<string, seq<string>>) {
    && indegree.Keys == g.Keys && adj.Keys == g.Keys
    && (forall n {:trigger EdgesAt(g, indegree, adj, n)} :: n in g ==> EdgesAt(g, indegree, adj, n))
  }

  ghost predicate EdgesAt(g: map<string, set<string>>, indegree: map<string, int>, adj: map<string, seq<string>>,
                          n: string)
    requires n in g && n in indegree && n in adj
  {
    && indegree[n] == |g[n]|
    && AreChildren(g, n, adj[n])
  }

  lemma AdjAt(g: map<string, set<string>>, indegree: map<string, int>, adj: map<string, seq<string>>, n: string)
    requires EdgeTables(g, indegree, adj) && n in g
    ensures n in adj && AreChildren(g, n, adj[n])
  {
    assert EdgesAt(g, indegree, adj, n);
  }

  /** Every name that waits for nobody, once. */
  ghost predicate AreFree(g: map<string, set<string>>, indegree: map<string, int>, queue: seq<string>)
    requires indegree.Keys == g.Keys
  {
    NoDup(queue) && forall n :: n in queue <==> n in g && indegree[n] == 0
  }

  ghost predicate Closed(g: map<string, set<string>>) {
    forall n <- g :: g[n] <= g.Keys
  }

  lemma InitialState(g: map<string, set<string>>, queue: seq<string>, indegree: map<string, int>,
                     adj: map<string, seq<string>>)
    requires EdgeTables(g, indegree, adj) && AreFree(g, indegree, queue)
    ensures QueueState(g, queue, 0, indegree, map n | n in queue :: 0)
  {
    forall m {:trigger CountAt(g, {}, [], indegree, m)} | m in g ensures CountAt(g, {}, [], indegree, m) {
      assert EdgesAt(g, indegree, adj, m);
      assert g[m] - {} == g[m];
    }
    assert Elems(queue[..0]) == {};
    assert Counted(g, queue, Elems(queue[..0]), [], indegree);
    var level: map<string, nat> := map n | n in queue :: 0;
    forall n {:trigger LevelAt(g, level, n)} | n in queue ensures LevelAt(g, level, n) {
      assert EdgesAt(g, indegree, adj, n);
      assert g[n] == {};
    }
    assert Layered(g, queue, level);
  }

  lemma InitialOrder(g: map<string, set<string>>, names: seq<string>, queue: seq<string>, indegree: map<string, int>,
                     adj: map<string, seq<string>>)
    requires EdgeTables(g, indegree, adj) && AreFree(g, indegree, queue) && InOrder(names, queue)
    ensures Waited(g, names, queue, 0)
  {
    forall n <- queue ensures n in g && g[n] == {} {
      assert EdgesAt(g, indegree, adj, n);
    }
    forall i, j | 0 <= i < j < |queue| ensures Sooner(g, names, queue, queue[i], queue[j]) {
      assert Precedes(names, queue[i], queue[j]);
    }
  }

  /** Every child list keeps the original order. */
  ghost predicate AdjInOrder(names: seq<string>, adj: map<string, seq<string>>) {
    forall n <- adj :: InOrder(names, adj[n])
  }

  lemma OrderAt(names: seq<string>, adj: map<string, seq<string>>, n: string)
    requires AdjInOrder(names, adj) && n in adj
    ensures InOrder(names, adj[n])
  {
  }

  lemma AllWaited(g: map<string, set<string>>, names: seq<string>, all: seq<string>, taken: nat)
    requires Waited(g, names, all, taken)
    ensures Fifo(g, names, all)
  {
  }

  method DrainQueue(ghost g: map<string, set<string>>, ghost names: seq<string>, queue0: seq<string>,
                    indegree0: map<string, int>, adj: map<string, seq<string>>)
    returns (ordered: seq<string>, ghost level: map<string, nat>)
    requires EdgeTables(g, indegree0, adj) && Closed(g) && AreFree(g, indegree0, queue0)
    requires AdjInOrder(names, adj) && InOrder(names, queue0)
    ensures Fifo(g, names, ordered)
    ensures Elems(ordered) == Grounded(g) && NoDup(ordered)
    ensures ParentsFirst(g, ordered)
    ensures IsLevelling(g, ordered, level) && Nondecreasing(ordered, level)
  {
    hide *;
    var queue, indegree := queue0, indegree0;
    ordered := [];
    level := map n | n in queue :: 0;
    InitialState(g, queue, indegree, adj);
    InitialOrder(g, names, queue, indegree, adj);
    assert ordered + queue == queue;
    while queue != []
      invariant QueueState(g, ordered + queue, |ordered|, indegree, level)
      invariant Waited(g, names, ordered + queue, |ordered|)
      decreases |g.Keys - Elems(ordered)|
    {
      var n, rest := queue[0], queue[1..];
      TakeFirst(ordered, queue);
      Progress(g, ordered + queue, |ordered|, indegree, level);
      AdjAt(g, indegree0, adj, n);
      OrderAt(names, adj, n);
      rest, indegree, level := Release(g, names, adj[n], ordered + queue, |ordered|, rest, indegree, level);
      ordered, queue := ordered + [n], rest;
    }
    TakeAll(ordered, queue);
    AllTaken(g, ordered, indegree, level);
    AllWaited(g, names, ordered, |ordered|);
  }

  lemma TakeFirst(ordered: seq<string>, queue: seq<string>)
    requires queue != []
    ensures var all, head := ordered + queue, |ordered|;
            && all[head] == queue[0] && all[..head] == ordered && queue[1..] == all[head + 1..]
            && all[..head + 1] == ordered + [queue[0]]
  {
  }

  lemma TakeAll(ordered: seq<string>, queue: seq<string>)
    requires queue == []
    ensures ordered + queue == ordered && ordered[..|ordered|] == ordered
  {
  }

  lemma Progress(g: map<string, set<string>>, all: seq<string>, head: nat, indegree: map<string, int>,
                 level: map<string, nat>)
    requires QueueState(g, all, head, indegree, level) && head < |all|
    ensures all[head] in g
    ensures |g.Keys - Elems(all[..head] + [all[head]])| < |g.Keys - Elems(all[..head])|
  {
    var n, ordered := all[head], all[..head];
    assert n in all && n !in ordered;
    assert g.Keys - Elems(ordered) == (g.Keys - Elems(ordered + [n])) + {n};
  }

  lemma AllTaken(g: map<string, set<string>>, ordered: seq<string>, indegree: map<string, int>, level: map<string, nat>)
    requires QueueState(g, ordered, |ordered|, indegree, level) && Closed(g)
    ensures Elems(ordered) == Grounded(g) && NoDup(ordered) && ParentsFirst(g, ordered)
    ensures IsLevelling(g, ordered, level) && Nondecreasing(ordered, level)
  {
    assert ordered[..|ordered|] == ordered;
    forall n | n in g && n !in ordered ensures g[n] - Elems(ordered) != {} {
      assert CountAt(g, Elems(ordered), [], indegree, n);
    }
    Drained(g, ordered);
  }

  lemma EdgesDone(tables: seq<Table>, g: map<string, set<string>>, indegree: map<string, int>,
                  adj: map<string, seq<string>>)
    requires UniqueNames(tables) && g == Graph(tables) && forall t <- tables :: t.name in g
    requires EdgesUpTo(tables, g, |tables|, indegree, adj)
    ensures EdgeTables(g, indegree, adj)
  {
    forall n {:trigger EdgesAt(g, indegree, adj, n)} | n in g ensures EdgesAt(g, indegree, adj, n) {
      var i :| 0 <= i < |tables| && tables[i].name == n;
      ChildrenAre(tables, g, |tables|, n);
      forall m ensures m in adj[n] <==> m in g && n in g[m] {
        if m in g && n in g[m] {
          var j :| 0 <= j < |tables| && tables[j].name == m;
        }
      }
    }
  }

  lemma EdgesOrdered(tables: seq<Table>, g: map<string, set<string>>, indegree: map<string, int>,
                     adj: map<string, seq<string>>)
    requires UniqueNames(tables) && forall t <- tables :: t.name in g
    requires EdgesUpTo(tables, g, |tables|, indegree, adj)
    ensures AdjInOrder(NamesOf(tables), adj)
  {
    forall n <- adj ensures InOrder(NamesOf(tables), adj[n]) {
      ChildrenInOrder(tables, g, |tables|, n);
    }
  }

  /** Appending the tables nothing released, in their original order. */
  method AppendStuck(tables: seq<Table>, ghost g: map<string, set<string>>, names: seq<string>, drained: seq<string>)
    returns (ordered: seq<string>)
    requires UniqueNames(tables) && names == NamesOf(tables) && g == Graph(tables)
    requires Elems(drained) == Grounded(g)
    ensures ordered == drained + NamesOf(StuckTables(g, tables))
  {
    NamesInGraph(tables);
    hide *;
    ordered := drained;
    assert tables[..0] == [] && drained + [] == drained;
    NoneStuck(g);
    for k := 0 to |names|
      invariant ordered == drained + NamesOf(StuckTables(g, tables[..k]))
    {
      StuckStep(tables, g, k, drained);
      if names[k] !in ordered {
        ordered := ordered + [names[k]];
      }
    }
    assert tables[..|names|] == tables;
  }

  lemma NoneStuck(g: map<string, set<string>>)
    ensures NamesOf(StuckTables(g, [])) == []
  {
  }

  lemma StuckStep(tables: seq<Table>, g: map<string, set<string>>, k: nat, drained: seq<string>)
    requires UniqueNames(tables) && k < |tables| && tables[k].name in g
    requires Elems(drained) == Grounded(g)
    ensures var ordered, name := drained + NamesOf(StuckTables(g, tables[..k])), tables[k].name;
            drained + NamesOf(StuckTables(g, tables[..k + 1])) == if name in ordered then ordered else ordered + [name]
  {
    hide ReachesCycle;
    var before, name := StuckTables(g, tables[..k]), tables[k].name;
    assert tables[..k + 1][..k] == tables[..k];
    assert name in drained <==> !Stuck(g, tables[k]) by {
      assert name in drained <==> name in Elems(drained);
    }
    forall i | 0 <= i < |before| ensures before[i].name != name {
      assert before[i] in tables[..k];
    }
    assert NamesOf(before + [tables[k]]) == NamesOf(before) + [name];
  }

  function Lookup(byName: map<string, Table>, names: seq<string>): (tables: seq<Table>)
    requires forall n <- names :: n in byName
    ensures |tables| == |names| && forall i :: 0 <= i < |names| ==> tables[i] == byName[names[i]]
  {
    seq(|names|, i requires 0 <= i < |names| => byName[names[i]])
  }

  lemma NamesInGraph(tables: seq<Table>)
    requires UniqueNames(tables)
    ensures forall n :: n in Graph(tables) <==> n in NamesOf(tables)
  {
    forall i | 0 <= i < |tables| ensures tables[i].name in Graph(tables) {
      ByNameAt(tables, i);
    }
    forall n <- Graph(tables) ensures n in NamesOf(tables) {
      var t := ByName(tables)[n];
      var i :| 0 <= i < |tables| && tables[i] == t;
      assert NamesOf(tables)[i] == n;
    }
  }

  lemma EdgeKeys(g: map<string, set<string>>, indegree: map<string, int>, adj: map<string, seq<string>>)
    requires EdgeTables(g, indegree, adj)
    ensures indegree.Keys == g.Keys
  {
  }

  lemma AllFree(g: map<string, set<string>>, indegree: map<string, int>, queue: seq<string>)
    requires indegree.Keys == g.Keys && NoDup(queue) && forall n :: n in queue <==> n in g && indegree[n] == 0
    ensures AreFree(g, indegree, queue)
  {
  }

  /** The names that wait for nothing, in their original order. */
  method InitialQueue(names: seq<string>, indegree: map<string, int>) returns (queue: seq<string>)
    requires NoDup(names) && forall n <- names :: n in indegree
    ensures NoDup(queue) && forall n :: n in queue <==> n in names && indegree[n] == 0
    ensures InOrder(names, queue)
  {
    queue := [];
    for k := 0 to |names|
      invariant NoDup(queue) && InOrder(names, queue)
      invariant forall n :: n in queue <==> n in names[..k] && indegree[n] == 0
    {
      if indegree[names[k]] == 0 {
        forall n <- queue ensures Precedes(names, n, names[k]) {
          var i :| 0 <= i < k && names[..k][i] == n;
          assert names[i] == n;
        }
        queue := queue + [names[k]];
      }
    }
  }

  lemma {:induction false} StuckNamesNoDup(g: map<string, set<string>>, tables: seq<Table>)
    requires UniqueNames(tables)
    ensures NoDup(NamesOf(StuckTables(g, tables)))
    ensures UniqueNames(StuckTables(g, tables))
  {
    if tables != [] {
      var init, last := tables[..|tables| - 1], tables[|tables| - 1];
      StuckNamesNoDup(g, init);
      var r := StuckTables(g, init);
      forall i | 0 <= i < |r| ensures r[i].name != last.name {
        assert r[i] in init;
      }
    }
  }

  lemma SameTables(tables: seq<Table>, sorted: seq<Table>)
    requires UniqueNames(tables) && UniqueNames(sorted)
    requires forall t :: t in sorted <==> t in tables
    ensures multiset(sorted) == multiset(tables)
  {
    assert NoDup(tables) && NoDup(sorted);
    forall t: Table ensures multiset(sorted)[t] == multiset(tables)[t] {
      NoDupCount(sorted, t);
      NoDupCount(tables, t);
    }
  }

  lemma LookupStuck(tables: seq<Table>, g: map<string, set<string>>)
    requires UniqueNames(tables) && g == Graph(tables)
    ensures forall n <- NamesOf(StuckTables(g, tables)) :: n in ByName(tables)
    ensures Lookup(ByName(tables), NamesOf(StuckTables(g, tables))) == StuckTables(g, tables)
  {
    var rest := StuckTables(g, tables);
    forall i | 0 <= i < |rest| ensures rest[i].name in ByName(tables) && ByName(tables)[rest[i].name] == rest[i] {
      assert rest[i] in tables;
      var j :| 0 <= j < |tables| && tables[j] == rest[i];
      ByNameAt(tables, j);
    }
  }

  lemma Assemble(tables: seq<Table>, g: map<string, set<string>>, drained: seq<string>, level: map<string, nat>,
                 ordered: seq<string>)
    requires UniqueNames(tables) && g == Graph(tables)
    requires Elems(drained) == Grounded(g) && NoDup(drained) && ParentsFirst(g, drained)
    requires IsLevelling(g, drained, level) && Nondecreasing(drained, level) && Fifo(g, NamesOf(tables), drained)
    requires ordered == drained + NamesOf(StuckTables(g, tables))
    ensures forall n <- ordered :: n in ByName(tables)
    ensures IsKahnOrder(tables, Lookup(ByName(tables), ordered))
  {
    hide ParentsFirst, IsLevelling, Nondecreasing, Fifo, StuckTables, Lookup, NamesOf, Graph, Grounded;
    var byName, rest := ByName(tables), StuckTables(g, tables);
    LookupStuck(tables, g);
    StuckNamesNoDup(g, tables);
    GroundedNamed(tables, g);
    forall n <- drained ensures n in byName { assert n in Elems(drained); }
    NoDupSize(drained);
    LookupParts(byName, drained, NamesOf(rest));
    SortedIsPermutation(tables, g, drained, ordered);
  }

  lemma GroundedNamed(tables: seq<Table>, g: map<string, set<string>>)
    requires g == Graph(tables)
    ensures forall n <- Grounded(g) :: n in ByName(tables)
  {
    hide ReachesCycle;
  }

  lemma LookupParts(byName: map<string, Table>, a: seq<string>, b: seq<string>)
    requires forall n <- a + b :: n in byName
    requires forall n <- byName :: byName[n].name == n
    ensures forall n <- b :: n in byName
    ensures var sorted := Lookup(byName, a + b);
            NamesOf(sorted[..|a|]) == a && sorted[|a|..] == Lookup(byName, b)
  {
    forall n <- b ensures n in byName { assert n in a + b; }
    var sorted := Lookup(byName, a + b);
    assert NamesOf(sorted[..|a|]) == a;
    assert sorted[|a|..] == Lookup(byName, b);
  }

  lemma SortedIsPermutation(tables: seq<Table>, g: map<string, set<string>>, drained: seq<string>, ordered: seq<string>)
    requires UniqueNames(tables) && g == Graph(tables)
    requires Elems(drained) == Grounded(g) && NoDup(drained)
    requires ordered == drained + NamesOf(StuckTables(g, tables))
    requires forall n <- ordered :: n in ByName(tables)
    ensures multiset(Lookup(ByName(tables), ordered)) == multiset(tables)
  {
    hide ReachesCycle, Graph;
    var byName, rest := ByName(tables), StuckTables(g, tables);
    StuckNamesNoDup(g, tables);
    var sorted := Lookup(byName, ordered);
    forall i | 0 <= i < |rest| ensures NamesOf(rest)[i] !in drained {
      assert rest[i] in rest && Stuck(g, rest[i]);
      assert rest[i].name !in Grounded(g);
      assert rest[i].name !in Elems(drained);
    }
    assert UniqueNames(sorted) by {
      assert forall i :: 0 <= i < |ordered| ==> sorted[i].name == ordered[i];
      assert NoDup(ordered);
    }
    forall t ensures t in sorted <==> t in tables {
      if t in tables {
        var j :| 0 <= j < |tables| && tables[j] == t;
        ByNameAt(tables, j);
        assert t.name in ordered by {
          if t in rest {
            var i :| 0 <= i < |rest| && rest[i] == t;
            assert NamesOf(rest)[i] == t.name;
          } else {
            assert t.name in Grounded(g);
            assert t.name in Elems(drained);
          }
        }
        var k :| 0 <= k < |ordered| && ordered[k] == t.name;
        assert sorted[k] == t;
      }
    }
    SameTables(tables, sorted);
  }

  method TopoSort(tables: seq<Table>) returns (sorted: seq<Table>)
    requires UniqueNames(tables)
    ensures IsKahnOrder(tables, sorted)
  {
    var byName := ByName(tables);
    var names := seq(|tables|, i requires 0 <= i < |tables| => tables[i].name);
    ghost var g := Graph(tables);
    assert names == NamesOf(tables);
    assert Closed(g);
    NamesInGraph(tables);
    assert NoDup(names);
    hide *;
    var indegree, adj := CollectEdges(tables, g);
    EdgesDone(tables, g, indegree, adj);
    EdgesOrdered(tables, g, indegree, adj);
    EdgeKeys(g, indegree, adj);
    var queue := InitialQueue(names, indegree);
    AllFree(g, indegree, queue);
    var drained: seq<string>;
    ghost var level;
    drained, level := DrainQueue(g, names, queue, indegree, adj);
    var ordered := AppendStuck(tables, g, names, drained);
    Assemble(tables, g, drained, level, ordered);
    sorted := Lookup(byName, ordered);
  }

  // ---------- What the order is for ----------

  /** On an acyclic schema every table comes after everything it references. */
  lemma AcyclicParentsFirst(tables: seq<Table>, sorted: seq<Table>)
    requires UniqueNames(tables) && IsKahnOrder(tables, sorted) && Acyclic(Graph(tables))
    ensures |sorted| == |tables| && UniqueNames(sorted)
    ensures ParentsFirst(Graph(tables), NamesOf(sorted))
  {
    var g := Graph(tables);
    hide *;
    NothingStuck(tables, g, sorted);
    assert sorted[..|sorted|] == sorted;
    PermutationSize(tables, sorted);
    PermutationKeepsUniqueNames(tables, sorted);
  }

  lemma StuckMeansCycle(tables: seq<Table>, g: map<string, set<string>>)
    requires StuckTables(g, tables) != []
    ensures !Acyclic(g)
  {
    hide ReachesCycle;
    assert Stuck(g, StuckTables(g, tables)[0]);
  }

  lemma NothingStuck(tables: seq<Table>, g: map<string, set<string>>, sorted: seq<Table>)
    requires g == Graph(tables) && IsKahnOrder(tables, sorted) && Acyclic(g)
    ensures multiset(sorted) == multiset(tables)
    ensures ParentsFirst(g, NamesOf(sorted[..|sorted|]))
  {
    hide ReachesCycle, ParentsFirst, IsLevelling, Nondecreasing, Fifo;
    var d := |Grounded(g)|;
    if StuckTables(g, tables) != [] { StuckMeansCycle(tables, g); }
    assert sorted[d..] == [] && sorted[..d] == sorted[..|sorted|];
  }

  lemma PermutationSize(tables: seq<Table>, sorted: seq<Table>)
    requires multiset(sorted) == multiset(tables)
    ensures |sorted| == |tables|
  {
    assert |multiset(sorted)| == |sorted| && |multiset(tables)| == |tables|;
  }

  lemma PermutationKeepsUniqueNames(tables: seq<Table>, sorted: seq<Table>)
    requires UniqueNames(tables) && multiset(sorted) == multiset(tables)
    ensures UniqueNames(sorted)
  {
    forall i, j | 0 <= i < j < |sorted| ensures sorted[i].name != sorted[j].name {
      assert sorted[i] in multiset(sorted) && sorted[j] in multiset(sorted);
      var a :| 0 <= a < |tables| && tables[a] == sorted[i];
      var b :| 0 <= b < |tables| && tables[b] == sorted[j];
      NoDupCount(tables, sorted[j]);
      CountedOnce(sorted, i, j);
    }
  }

  lemma CountedOnce<T>(s: seq<T>, i: nat, j: nat)
    requires i < j < |s| && multiset(s)[s[j]] == 1
    ensures s[i] != s[j]
  {
    assert s == s[..j] + [s[j]] + s[j + 1..];
    assert multiset(s) == multiset(s[..j]) + multiset{s[j]} + multiset(s[j + 1..]);
    assert s[i] in s[..j];
  }

  datatype Statement = CreateTable(table: string) | CreateUniqueIndex(table: string, index: string)

  function IndexesOf(unique: map<string, seq<string>>, table: string): seq<Statement> {
    if table in unique
    then seq(|unique[table]|, i requires 0 <= i < |unique[table]| => CreateUniqueIndex(table, unique[table][i]))
    else []
  }

  function Emission(ordered: seq<Table>, unique: map<string, seq<string>>): seq<Statement> {
    if ordered == [] then []
    else
      var last := ordered[|ordered| - 1].name;
      Emission(ordered[..|ordered| - 1], unique) + ([CreateTable(last)] + IndexesOf(unique, last))
  }

  /** The loop that writes each table and, right behind it, its UNIQUE indexes. */
  method EmitTables(ordered: seq<Table>, unique: map<string, seq<string>>) returns (out: seq<Statement>)
    ensures out == Emission(ordered, unique)
  {
    out := [];
    for k := 0 to |ordered|
      invariant out == Emission(ordered[..k], unique)
    {
      var name := ordered[k].name;
      ghost var before := out;
      out := out + [CreateTable(name)];
      if name in unique {
        for i := 0 to |unique[name]|
          invariant out == before + ([CreateTable(name)] + IndexesOf(unique, name)[..i])
        {
          assert IndexesOf(unique, name)[..i + 1] ==
              IndexesOf(unique, name)[..i] + [CreateUniqueIndex(name, unique[name][i])];
          out := out + [CreateUniqueIndex(name, unique[name][i])];
        }
        assert IndexesOf(unique, name)[..|unique[name]|] == IndexesOf(unique, name);
      }
      assert ordered[..k + 1][..k] == ordered[..k];
    }
    assert ordered[..|ordered|] == ordered;
  }

  /** Where a table is created, exactly the tables ordered before it have been written. */
  lemma {:induction false} CreatedAt(ordered: seq<Table>, unique: map<string, seq<string>>, k: nat)
    returns (i: nat)
    requires k < |Emission(ordered, unique)| && Emission(ordered, unique)[k].CreateTable?
    ensures i < |ordered| && ordered[i].name == Emission(ordered, unique)[k].table
    ensures Emission(ordered, unique)[..k] == Emission(ordered[..i], unique)
  {
    var init := ordered[..|ordered| - 1];
    LastCreated(ordered, unique, k);
    hide Emission;
    if k < |Emission(init, unique)| {
      i := CreatedAt(init, unique, k);
      assert init[..i] == ordered[..i];
    } else {
      i := |ordered| - 1;
    }
  }

  lemma LastCreated(ordered: seq<Table>, unique: map<string, seq<string>>, k: nat)
    requires k < |Emission(ordered, unique)| && Emission(ordered, unique)[k].CreateTable?
    ensures ordered != []
    ensures var before := Emission(ordered[..|ordered| - 1], unique);
            if k < |before| then
              before[k] == Emission(ordered, unique)[k] && before[..k] == Emission(ordered, unique)[..k]
            else
              && Emission(ordered, unique)[k] == CreateTable(ordered[|ordered| - 1].name)
              && before == Emission(ordered, unique)[..k]
  {
  }

  lemma {:induction false} EmittedWhole(ordered: seq<Table>, unique: map<string, seq<string>>, n: string)
    requires n in NamesOf(ordered)
    ensures CreateTable(n) in Emission(ordered, unique)
    ensures forall s <- IndexesOf(unique, n) :: s in Emission(ordered, unique)
  {
    var init, last := ordered[..|ordered| - 1], ordered[|ordered| - 1].name;
    if n != last {
      var i :| 0 <= i < |ordered| && NamesOf(ordered)[i] == n;
      assert NamesOf(init)[i] == n;
      EmittedWhole(init, unique, n);
    }
  }

  /** Before any table of an acyclic schema is created, every table it references exists together
      with all of that table's UNIQUE indexes. */
  lemma ReferencesReady(tables: seq<Table>, sorted: seq<Table>, unique: map<string, seq<string>>, k: nat)
    requires UniqueNames(tables) && IsKahnOrder(tables, sorted) && Acyclic(Graph(tables))
    requires k < |Emission(sorted, unique)| && Emission(sorted, unique)[k].CreateTable?
    ensures var out := Emission(sorted, unique);
            var name := out[k].table;
            && name in Graph(tables)
            && forall r <- Graph(tables)[name] ::
                 CreateTable(r) in out[..k] && forall s <- IndexesOf(unique, r) :: s in out[..k]
  {
    var g := Graph(tables);
    AcyclicParentsFirst(tables, sorted);
    hide *;
    var i := CreatedAt(sorted, unique, k);
    ParentsAt(g, sorted, i);
    forall r <- g[sorted[i].name]
      ensures CreateTable(r) in Emission(sorted[..i], unique)
      ensures forall s <- IndexesOf(unique, r) :: s in Emission(sorted[..i], unique)
    {
      EmittedWhole(sorted[..i], unique, r);
    }
  }

  lemma ParentsAt(g: map<string, set<string>>, sorted: seq<Table>, i: nat)
    requires ParentsFirst(g, NamesOf(sorted)) && i < |sorted|
    ensures sorted[i].name in g && forall r <- g[sorted[i].name] :: r in NamesOf(sorted[..i])
  {
    assert NamesOf(sorted)[i] == sorted[i].name;
    assert NamesOf(sorted)[..i] == NamesOf(sorted[..i]);
  }
}
