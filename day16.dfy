/** Day 16: valves joined by tunnels. Starting at valve AA with thirty
    minutes, open valves (one minute each) and walk between them to release
    as much pressure as possible. The tunnel maze is first reduced to the
    valves worth opening, with the walking time between each pair. */
module Day16 {
  import opened Wrappers
  import Arith

  /** A parsed line of the input: the valve's flow rate and the valves its
      tunnels lead to. */
  datatype Valve = Valve(rate: nat, tunnels: seq<string>)

  /** The parsed input, by valve name. */
  type Maze = map<string, Valve>

  // The order of names.

  /** Rust's order on `String`: lexicographic by character. */
  predicate NameLe(a: string, b: string)
    decreases |a|
  {
    if a == [] then true
    else if b == [] then false
    else if a[0] != b[0] then a[0] < b[0]
    else NameLe(a[1..], b[1..])
  }

  lemma {:induction false} NameLeRefl(a: string)
    ensures NameLe(a, a)
    decreases |a|
  {
    if a != [] {
      NameLeRefl(a[1..]);
    }
  }

  lemma {:induction false} NameLeTotal(a: string, b: string)
    ensures NameLe(a, b) || NameLe(b, a)
    decreases |a|
  {
    if a != [] && b != [] && a[0] == b[0] {
      NameLeTotal(a[1..], b[1..]);
    }
  }

  lemma {:induction false} NameLeTrans(a: string, b: string, c: string)
    requires NameLe(a, b) && NameLe(b, c)
    ensures NameLe(a, c)
    decreases |a|
  {
    if a != [] && b != [] && c != [] && a[0] == b[0] && b[0] == c[0] {
      NameLeTrans(a[1..], b[1..], c[1..]);
    }
  }

  // Walks through the maze.

  /** There is a walk of k tunnels from a to b: each valve on it but the
      last is in the maze and has a tunnel to the next one. */
  ghost predicate Walkable(maze: Maze, a: string, b: string, k: nat)
    decreases k
  {
    if k == 0 then a == b
    else exists u :: Walkable(maze, a, u, k - 1) && u in maze && b in maze[u].tunnels
  }

  ghost predicate Reachable(maze: Maze, a: string, b: string) {
    exists k: nat :: Walkable(maze, a, b, k)
  }

  /** A walk to u followed by one of u's tunnels. */
  lemma WalkExtend(maze: Maze, a: string, u: string, k: nat, v: string)
    requires Walkable(maze, a, u, k) && u in maze && v in maze[u].tunnels
    ensures Walkable(maze, a, v, k + 1)
  {
  }

  /** Every valve some tunnel leads to. */
  ghost function Targets(maze: Maze): set<string> {
    set u, j | u in maze && 0 <= j < |maze[u].tunnels| :: maze[u].tunnels[j]
  }

  lemma TunnelTarget(maze: Maze, u: string, v: string)
    requires u in maze && v in maze[u].tunnels
    ensures v in Targets(maze)
  {
    var j :| 0 <= j < |maze[u].tunnels| && maze[u].tunnels[j] == v;
  }

  /** Every tunnel leads to a valve of the maze. */
  ghost predicate Complete(maze: Maze) {
    forall v :: v in Targets(maze) ==> v in maze
  }

  // `distance`: a search over a max-heap of (steps, valve) entries.

  type Entry = (nat, string)

  /** The order `BinaryHeap` pops (steps, name) entries in, greatest first. */
  predicate EntryLe(e: Entry, f: Entry) {
    e.0 < f.0 || (e.0 == f.0 && NameLe(e.1, f.1))
  }

  /** The position of the greatest entry, the one `BinaryHeap::pop` takes. */
  method PopMax(h: seq<Entry>) returns (i: nat)
    requires |h| > 0
    ensures i < |h| && forall j :: 0 <= j < |h| ==> EntryLe(h[j], h[i])
  {
    i := 0;
    NameLeRefl(h[0].1);
    for k := 1 to |h|
      invariant i < k && forall j :: 0 <= j < k ==> EntryLe(h[j], h[i])
    {
      if EntryLe(h[i], h[k]) {
        forall j | 0 <= j < k
          ensures EntryLe(h[j], h[k])
        {
          if h[j].0 == h[k].0 {
            NameLeTrans(h[j].1, h[i].1, h[k].1);
          }
        }
        NameLeRefl(h[k].1);
        i := k;
      } else {
        NameLeTotal(h[i].1, h[k].1);
      }
    }
  }

  /** The valves queued on the heap. */
  ghost function Queued(h: seq<Entry>): set<string> {
    set j | 0 <= j < |h| :: h[j].1
  }

  lemma QueuedSnoc(h: seq<Entry>, e: Entry)
    ensures Queued(h + [e]) == Queued(h) + {e.1}
  {
    var h' := h + [e];
    assert h'[|h|] == e;
    forall v | v in Queued(h)
      ensures v in Queued(h')
    {
      var j :| 0 <= j < |h| && h[j].1 == v;
      assert h'[j] == h[j];
    }
  }

  /** Every tunnel out of u leads to a visited valve. */
  ghost predicate Scanned(maze: Maze, u: string, visited: set<string>) {
    u in maze && forall v :: v in maze[u].tunnels ==> v in visited
  }

  /** What `distance` keeps true of its heap h and its visited set, with
      `done` the valves whose tunnels it has followed: entries are walks
      from a, queued valves are a or visited, b is never visited, and every
      visited valve is queued or done. */
  ghost predicate Searching(maze: Maze, a: string, b: string, h: seq<Entry>,
                            visited: set<string>, done: set<string>)
  {
    (forall j :: 0 <= j < |h| ==> Walkable(maze, a, h[j].1, h[j].0))
    && Queued(h) <= visited + {a}
    && visited <= Targets(maze) && b !in visited
    && a in done + Queued(h)
    && visited <= done + Queued(h)
    && done <= visited + {a}
    && (forall u :: u in done ==> Scanned(maze, u, visited))
  }

  /** The tunnels of `point`, as the inner loop of `distance` follows them:
      stop at b, and otherwise queue each valve not yet visited at one step
      more than `point`. */
  method Follow(maze: Maze, b: string, point: string, cost: nat,
                h: seq<Entry>, visited: set<string>)
    returns (found: bool, h': seq<Entry>, visited': set<string>)
    requires point in maze && b !in visited
    ensures found <==> b in maze[point].tunnels
    ensures !found ==> Scanned(maze, point, visited') && b !in visited'
    ensures visited <= visited'
    ensures forall v :: v in visited' - visited ==> v in maze[point].tunnels && v in Queued(h')
    ensures |h| <= |h'| && h'[..|h|] == h
    ensures forall j :: |h| <= j < |h'| ==> h'[j].0 == cost + 1 && h'[j].1 in visited' - visited
    ensures visited' == visited ==> h' == h
  {
    var conns := maze[point].tunnels;
    found, h', visited' := false, h, visited;
    for k := 0 to |conns|
      invariant b !in conns[..k] && b !in visited'
      invariant forall j :: 0 <= j < k ==> conns[j] in visited'
      invariant visited <= visited'
      invariant forall v :: v in visited' - visited ==> v in conns && v in Queued(h')
      invariant |h| <= |h'| && h'[..|h|] == h
      invariant forall j :: |h| <= j < |h'| ==> h'[j].0 == cost + 1 && h'[j].1 in visited' - visited
      invariant visited' == visited ==> h' == h
    {
      if conns[k] == b {
        return true, h', visited';
      }
      if conns[k] !in visited' {
        QueuedSnoc(h', (cost + 1, conns[k]));
        h' := h' + [(cost + 1, conns[k])];
        visited' := visited' + {conns[k]};
      }
      assert conns[..k + 1] == conns[..k] + [conns[k]];
    }
    assert conns[..|conns|] == conns;
  }

  lemma FewerLeft(t: set<string>, v: set<string>, v': set<string>)
    requires v < v' <= t
    ensures |t - v'| < |t - v|
  {
    assert t - v == (t - v') + (v' - v);
    assert (t - v') * (v' - v) == {};
  }

  /** A valve the search reaches that is not in the maze is a tunnel to
      nowhere, or the start itself. */
  lemma Stray(maze: Maze, a: string, b: string, h: seq<Entry>, visited: set<string>,
              done: set<string>, i: nat)
    requires Searching(maze, a, b, h, visited, done) && i < |h| && h[i].1 !in maze
    ensures a !in maze || !Complete(maze)
  {
    assert h[i].1 in Queued(h);
  }

  /** The invariant after `point`, taken off the heap at position i, has
      had its tunnels followed. */
  lemma Expanded(maze: Maze, a: string, b: string, h: seq<Entry>, visited: set<string>,
                 done: set<string>, i: nat, h': seq<Entry>, visited': set<string>)
    requires Searching(maze, a, b, h, visited, done) && i < |h| && h[i].1 in maze
    requires Scanned(maze, h[i].1, visited') && b !in visited'
    requires visited <= visited'
    requires forall v :: v in visited' - visited ==> v in maze[h[i].1].tunnels && v in Queued(h')
    requires var rest := h[..i] + h[i + 1..]; |rest| <= |h'| && h'[..|rest|] == rest
    requires forall j :: |h| - 1 <= j < |h'| ==> h'[j].0 == h[i].0 + 1 && h'[j].1 in visited' - visited
    ensures Searching(maze, a, b, h', visited', done + {h[i].1})
  {
    var (cost, point) := h[i];
    var rest := h[..i] + h[i + 1..];
    assert |rest| == |h| - 1;
    forall j | 0 <= j < |h'|
      ensures Walkable(maze, a, h'[j].1, h'[j].0) && h'[j].1 in visited' + {a}
    {
      if j < |rest| {
        assert h'[j] == rest[j];
        var k := if j < i then j else j + 1;
        assert rest[j] == h[k];
        assert h[k].1 in Queued(h);
      } else {
        WalkExtend(maze, a, point, cost, h'[j].1);
      }
    }
    assert Queued(h) <= Queued(h') + {point} by {
      forall j | 0 <= j < |h|
        ensures h[j].1 in Queued(h') + {point}
      {
        if j < i {
          assert h'[j] == rest[j] == h[j];
        } else if j > i {
          assert h'[j - 1] == rest[j - 1] == h[j];
        }
      }
    }
    assert visited' <= Targets(maze) by {
      forall v | v in visited' - visited
        ensures v in Targets(maze)
      {
        TunnelTarget(maze, point, v);
      }
    }
    assert point in visited + {a} by {
      assert h[i].1 in Queued(h);
    }
  }

  /** A walk that starts in a set closed under tunnels stays in it. */
  lemma {:induction false} WalkStays(maze: Maze, a: string, v: string, k: nat,
                                     done: set<string>, visited: set<string>)
    requires Walkable(maze, a, v, k) && a in done && visited <= done
    requires forall u :: u in done ==> Scanned(maze, u, visited)
    ensures v in done
    decreases k
  {
    if k > 0 {
      var u :| Walkable(maze, a, u, k - 1) && u in maze && v in maze[u].tunnels;
      WalkStays(maze, a, u, k - 1, done, visited);
    }
  }

  /** Once the heap is empty, b (never visited) cannot be reached. */
  lemma Exhausted(maze: Maze, a: string, b: string, visited: set<string>, done: set<string>)
    requires Searching(maze, a, b, [], visited, done) && a != b
    ensures !Reachable(maze, a, b)
  {
    assert Queued([]) == {};
    if Reachable(maze, a, b) {
      var k: nat :| Walkable(maze, a, b, k);
      WalkStays(maze, a, b, k, done, visited);
    }
  }

  /** One turn of the loop of `distance`: the greatest entry is popped and
      its tunnels followed. The turn ends the search (with the walk to b, or
      with the panic on a valve missing from the maze) or keeps the
      invariant and makes progress: a new valve visited, or a shorter heap. */
  method Round(maze: Maze, a: string, b: string, h: seq<Entry>, visited: set<string>,
               ghost done: set<string>)
    returns (stop: Option<Result<nat>>, h': seq<Entry>, visited': set<string>,
             ghost done': set<string>)
    requires a != b && h != [] && Searching(maze, a, b, h, visited, done)
    ensures stop.Some? && stop.value.Ok? ==> stop.value.value >= 1 && Walkable(maze, a, b, stop.value.value)
    ensures stop.Some? && stop.value.Err? ==> a !in maze || !Complete(maze)
    ensures stop.None? ==> Searching(maze, a, b, h', visited', done')
    ensures stop.None? ==>
      |Targets(maze) - visited'| < |Targets(maze) - visited| || (visited' == visited && |h'| < |h|)
  {
    var i := PopMax(h);
    var (cost, point) := h[i];
    if point !in maze {
      Stray(maze, a, b, h, visited, done, i);
      return Some(Err("No valve named " + point)), h, visited, done;
    }
    assert Walkable(maze, a, point, cost);
    var rest := h[..i] + h[i + 1..];
    var found;
    found, h', visited' := Follow(maze, b, point, cost, rest, visited);
    if found {
      WalkExtend(maze, a, point, cost, b);
      return Some(Ok(cost + 1)), h', visited', done;
    }
    Expanded(maze, a, b, h, visited, done, i, h', visited');
    if visited' != visited {
      FewerLeft(Targets(maze), visited, visited');
    }
    stop, done' := None, done + {point};
  }

  /** `distance(maze, a, b)`: 0 from a valve to itself; otherwise the
      length of the walk to b that the max-heap search meets first (not
      necessarily the shortest), or the panic when b is not met. */
  method Distance(maze: Maze, a: string, b: string) returns (r: Result<nat>)
    ensures a == b ==> r == Ok(0)
    ensures a != b && r.Ok? ==> r.value >= 1 && Walkable(maze, a, b, r.value)
    ensures a != b && r.Err? ==> a !in maze || !Complete(maze) || !Reachable(maze, a, b)
  {
    if a == b {
      return Ok(0);
    }
    var h: seq<Entry> := [(0, a)];
    var visited: set<string> := {};
    ghost var done: set<string> := {};
    assert Queued(h) == {a} by {
      assert h[0].1 == a;
    }
    while h != []
      invariant Searching(maze, a, b, h, visited, done)
      decreases |Targets(maze) - visited|, |h|
    {
      var stop;
      stop, h, visited, done := Round(maze, a, b, h, visited, done);
      if stop.Some? {
        return stop.value;
      }
    }
    Exhausted(maze, a, b, visited, done);
    return Err("Not reached");
  }

  // The reduced maze: AA and the valves worth opening, with the walking
  // time between each two of them.

  /** The valves with a positive flow rate. */
  ghost function Worth(maze: Maze): set<string> {
    set v | v in maze && maze[v].rate > 0
  }

  /** The valves the search moves between. */
  ghost function Reduced(maze: Maze): set<string> {
    Worth(maze) + {"AA"}
  }

  ghost function Elems(s: seq<string>): set<string> {
    set x | x in s
  }

  lemma ElemsSnoc(s: seq<string>, x: string)
    ensures Elems(s + [x]) == Elems(s) + {x}
  {
    assert forall y :: y in s + [x] <==> y in s || y == x;
  }

  /** `non_null_valves`: the valves with a positive rate, once each, in
      the map's (unspecified) order, followed by AA. */
  method Reduce(maze: Maze) returns (valves: seq<string>)
    ensures |valves| >= 1 && valves[|valves| - 1] == "AA"
    ensures Elems(valves[..|valves| - 1]) == Worth(maze)
    ensures forall i, j :: 0 <= i < j < |valves| - 1 ==> valves[i] != valves[j]
    ensures Elems(valves) == Reduced(maze)
  {
    var worth := Flowing(maze);
    ElemsSnoc(worth, "AA");
    assert (worth + ["AA"])[..|worth|] == worth;
    valves := worth + ["AA"];
  }

  /** The `filter_map` over the maze: each valve with a positive rate, once. */
  method Flowing(maze: Maze) returns (valves: seq<string>)
    ensures Elems(valves) == Worth(maze)
    ensures forall i, j :: 0 <= i < j < |valves| ==> valves[i] != valves[j]
  {
    var rest := maze.Keys;
    valves := [];
    while rest != {}
      invariant rest <= maze.Keys
      invariant Elems(valves) == Worth(maze) - rest
      invariant forall i, j :: 0 <= i < j < |valves| ==> valves[i] != valves[j]
      decreases |rest|
    {
      var v :| v in rest;
      if maze[v].rate > 0 {
        ElemsSnoc(valves, v);
        valves := valves + [v];
      }
      rest := rest - {v};
    }
  }

  type Table = map<string, map<string, nat>>

  /** A walk of k tunnels one way or the other between x and y. */
  ghost predicate Links(maze: Maze, x: string, y: string, k: nat) {
    Walkable(maze, x, y, k) || Walkable(maze, y, x, k)
  }

  /** A row for every valve of names, with entries only for other valves
      of names. */
  ghost predicate Rows(names: set<string>, d: Table) {
    d.Keys == names && forall x :: x in d ==> d[x].Keys <= names - {x}
  }

  /** Every entry is stored both ways with the same time. */
  ghost predicate Symmetric(d: Table) {
    forall x, y :: x in d && y in d[x] ==> y in d && x in d[y] && d[y][x] == d[x][y]
  }

  /** Every time is at least 1 and the length of a walk between the two. */
  ghost predicate Measured(maze: Maze, d: Table) {
    forall x, y :: x in d && y in d[x] ==> d[x][y] >= 1 && Links(maze, x, y, d[x][y])
  }

  ghost predicate Partial(maze: Maze, names: set<string>, d: Table) {
    Rows(names, d) && Symmetric(d) && Measured(maze, d)
  }

  /** `distances` once filled: an entry for every two distinct valves of
      names, stored both ways with the same time, the length of a walk
      between the two. */
  ghost predicate TableOf(maze: Maze, names: set<string>, d: Table) {
    Partial(maze, names, d) && forall x :: x in d ==> d[x].Keys == names - {x}
  }

  /** The time k stored under d[x][y] and d[y][x]. */
  function Put(d: Table, x: string, y: string, k: nat): (d': Table)
    requires x in d && y in d
    ensures d'.Keys == d.Keys
    ensures x != y ==> d'[x] == d[x][y := k] && d'[y] == d[y][x := k]
    ensures forall u :: u in d && u != x && u != y ==> d'[u] == d[u]
  {
    var row: map<string, nat> := d[x][y := k];
    var d1: Table := d[x := row];
    var back: map<string, nat> := d1[y][x := k];
    d1[y := back]
  }

  lemma PutRows(names: set<string>, d: Table, x: string, y: string, k: nat)
    requires Rows(names, d) && x in names && y in names && x != y
    ensures Rows(names, Put(d, x, y, k))
    ensures forall u, v :: u in d && v in d[u] ==> v in Put(d, x, y, k)[u]
  {
  }

  lemma PutSymmetric(d: Table, x: string, y: string, k: nat)
    requires Symmetric(d) && x in d && y in d && x != y
    ensures Symmetric(Put(d, x, y, k))
  {
    var d' := Put(d, x, y, k);
    forall u, v | u in d' && v in d'[u]
      ensures v in d' && u in d'[v] && d'[v][u] == d'[u][v]
    {
      if !((u == x && v == y) || (u == y && v == x)) {
        assert v in d[u] && d'[u][v] == d[u][v];
        assert u in d[v] && d'[v][u] == d[v][u];
      }
    }
  }

  lemma PutMeasured(maze: Maze, d: Table, x: string, y: string, k: nat)
    requires Measured(maze, d) && x in d && y in d && x != y
    requires k >= 1 && Links(maze, x, y, k)
    ensures Measured(maze, Put(d, x, y, k))
  {
    var d' := Put(d, x, y, k);
    forall u, v | u in d' && v in d'[u]
      ensures d'[u][v] >= 1 && Links(maze, u, v, d'[u][v])
    {
      if !((u == x && v == y) || (u == y && v == x)) {
        assert v in d[u] && d'[u][v] == d[u][v];
      }
    }
  }

  /** Every pair of positions before (i, j), in row-major order, holding
      two distinct valves, has its entry. */
  ghost predicate Filled(valves: seq<string>, d: Table, i: nat, j: nat) {
    forall p, q ::
      0 <= p < |valves| && 0 <= q < |valves| && (p < i || (p == i && q < j)) && valves[p] != valves[q]
      ==> valves[p] in d && valves[q] in d[valves[p]]
  }

  lemma FilledNext(valves: seq<string>, d: Table, d': Table, i: nat, j: nat)
    requires Filled(valves, d, i, j) && i < |valves| && j < |valves|
    requires forall u, v :: u in d && v in d[u] ==> u in d' && v in d'[u]
    requires valves[i] != valves[j] ==> valves[i] in d' && valves[j] in d'[valves[i]]
    ensures Filled(valves, d', i, j + 1)
  {
  }

  lemma FilledRow(valves: seq<string>, d: Table, i: nat)
    requires Filled(valves, d, i, |valves|)
    ensures Filled(valves, d, i + 1, 0)
  {
  }

  /** Some two distinct valves of `valves` have no walk between them, or
      the first is missing or some tunnel leads nowhere: what makes
      `distance` panic. */
  ghost predicate Unlinked(maze: Maze, valves: seq<string>) {
    exists x, y :: x in valves && y in valves && x != y
      && (x !in maze || !Complete(maze) || !Reachable(maze, x, y))
  }

  lemma UnlinkedPair(maze: Maze, valves: seq<string>, i: nat, j: nat)
    requires i < |valves| && j < |valves| && valves[i] != valves[j]
    requires valves[i] !in maze || !Complete(maze) || !Reachable(maze, valves[i], valves[j])
    ensures Unlinked(maze, valves)
  {
    var x, y := valves[i], valves[j];
    assert x in valves && y in valves;
  }

  /** `distances`: an empty row for every valve of `valves`, then the time
      `distance` gives for every ordered pair of distinct valves, stored both
      ways (a later pair overwrites an earlier one); or the first panic of
      `distance`. */
  method BuildTable(maze: Maze, valves: seq<string>) returns (r: Result<Table>)
    ensures r.Ok? ==> TableOf(maze, Elems(valves), r.value)
    ensures r.Err? ==> Unlinked(maze, valves)
  {
    var d := EmptyRows(valves);
    ghost var names := Elems(valves);
    for i := 0 to |valves|
      invariant Partial(maze, names, d) && Filled(valves, d, i, 0)
    {
      for j := 0 to |valves|
        invariant Partial(maze, names, d) && Filled(valves, d, i, j)
      {
        if valves[i] != valves[j] {
          var dist := Distance(maze, valves[i], valves[j]);
          if dist.Err? {
            UnlinkedPair(maze, valves, i, j);
            return Err(dist.reason);
          }
          ghost var d1 := d;
          PutRows(names, d, valves[i], valves[j], dist.value);
          PutSymmetric(d, valves[i], valves[j], dist.value);
          PutMeasured(maze, d, valves[i], valves[j], dist.value);
          d := Put(d, valves[i], valves[j], dist.value);
          FilledNext(valves, d1, d, i, j);
        } else {
          FilledNext(valves, d, d, i, j);
        }
      }
      FilledRow(valves, d, i);
    }
    FilledTable(maze, valves, d);
    return Ok(d);
  }

  /** `distances.insert(valve, HashMap::new())` for every valve. */
  method EmptyRows(valves: seq<string>) returns (d: Table)
    ensures d.Keys == Elems(valves) && forall x :: x in d ==> d[x] == map[]
  {
    d := map[];
    for i := 0 to |valves|
      invariant d.Keys == Elems(valves[..i])
      invariant forall x :: x in d ==> d[x] == map[]
    {
      assert valves[..i + 1] == valves[..i] + [valves[i]];
      ElemsSnoc(valves[..i], valves[i]);
      d := d[valves[i] := map[]];
    }
    assert valves[..|valves|] == valves;
  }

  /** Once every pair is filled, each row holds every other valve. */
  lemma FilledTable(maze: Maze, valves: seq<string>, d: Table)
    requires Partial(maze, Elems(valves), d) && Filled(valves, d, |valves|, 0)
    ensures TableOf(maze, Elems(valves), d)
  {
    forall x, y | x in d && y in Elems(valves) - {x}
      ensures y in d[x]
    {
      var p :| 0 <= p < |valves| && valves[p] == x;
      var q :| 0 <= q < |valves| && valves[q] == y;
    }
  }

  // The total flow, against which states are pruned.

  /** Any one valve of a nonempty set, fixed once and for all. */
  ghost function Pick(ks: set<string>): string
    requires ks != {}
  {
    var k :| k in ks; k
  }

  /** The sum of the flow rates of the valves ks. */
  ghost function RateSum(maze: Maze, ks: set<string>): nat
    requires ks <= maze.Keys
    decreases ks
  {
    if ks == {} then 0 else maze[Pick(ks)].rate + RateSum(maze, ks - {Pick(ks)})
  }

  /** The sum does not depend on which valve is taken first. */
  lemma {:induction false} RateSumRemove(maze: Maze, ks: set<string>, x: string)
    requires ks <= maze.Keys && x in ks
    ensures RateSum(maze, ks) == maze[x].rate + RateSum(maze, ks - {x})
    decreases ks
  {
    var k := Pick(ks);
    if k != x {
      RateSumRemove(maze, ks - {k}, x);
      RateSumRemove(maze, ks - {x}, k);
      assert ks - {k} - {x} == ks - {x} - {k};
    }
  }

  /** `max_power`: the flow rates of all valves, summed. */
  method TotalRate(maze: Maze) returns (total: nat)
    ensures total == RateSum(maze, maze.Keys)
  {
    var rest := maze.Keys;
    total := 0;
    while rest != {}
      invariant rest <= maze.Keys
      invariant total + RateSum(maze, rest) == RateSum(maze, maze.Keys)
      decreases |rest|
    {
      var v :| v in rest;
      RateSumRemove(maze, rest, v);
      total := total + maze[v].rate;
      rest := rest - {v};
    }
  }

  // The search over states.

  /** `MazeState`: the minutes left, the pressure released so far, the flow
      of the valves opened so far, the valve the search stands at, and the
      valves opened, in order. */
  datatype State = State(minutes: nat, pressure: nat, power: nat, current: string, open: seq<string>)

  /** `MazeState::default()`. */
  const Start := State(30, 0, 0, "AA", [])

  /** The heap's key, `MazeState`'s order. */
  function Priority(s: State): nat {
    s.minutes * s.power + s.pressure
  }

  /** Open the current valve: a minute passes at the old flow, then the
      valve's rate joins the flow. */
  function Open(s: State, rate: nat): State
    requires s.minutes > 0
  {
    State(s.minutes - 1, s.pressure + s.power, s.power + rate, s.current, s.open + [s.current])
  }

  /** Walk to target, which takes cost minutes at the current flow. */
  function Move(s: State, target: string, cost: nat): State
    requires cost <= s.minutes
  {
    State(s.minutes - cost, s.pressure + cost * s.power, s.power, target, s.open)
  }

  /** Stay until the time is up: what stopping here releases is the key. */
  function Stop(s: State): (t: State)
    ensures t.minutes == 0 && t.pressure == Priority(s)
    ensures t.power == s.power && t.current == s.current && t.open == s.open
  {
    State(0, s.pressure + s.minutes * s.power, s.power, s.current, s.open)
  }

  /** t is one of the states the search pushes after popping s, if not
      seen before: s opens its unopened valve, walks to a valve of the table
      in time, or stops. */
  ghost predicate Next(maze: Maze, d: Table, s: State, t: State) {
    s.minutes > 0 && s.current in maze && s.current in d
    && ((s.current !in s.open && t == Open(s, maze[s.current].rate))
        || (exists target :: target in d[s.current] && d[s.current][target] <= s.minutes
              && t == Move(s, target, d[s.current][target]))
        || t == Stop(s))
  }

  lemma OpenBounds(s: State, r: nat, maxPower: nat)
    requires s.minutes > 0 && s.power + r <= maxPower
    ensures Priority(s) <= Priority(Open(s, r))
    ensures Open(s, r).pressure + maxPower * (s.minutes - 1) <= s.pressure + maxPower * s.minutes
  {
    var m, p := s.minutes, s.power;
    assert (m - 1) * (p + r) == (m - 1) * p + (m - 1) * r;
    assert (m - 1) * p + p == m * p;
    assert maxPower * (m - 1) + maxPower == maxPower * m;
  }

  lemma MoveBounds(s: State, target: string, c: nat, maxPower: nat)
    requires c <= s.minutes && s.power <= maxPower
    ensures Priority(Move(s, target, c)) == Priority(s)
    ensures Move(s, target, c).pressure + maxPower * (s.minutes - c) <= s.pressure + maxPower * s.minutes
  {
    var m, p := s.minutes, s.power;
    assert (m - c) * p + c * p == m * p;
    assert c * p <= c * maxPower;
    assert maxPower * (m - c) + maxPower * c == maxPower * m;
  }

  lemma StopBounds(s: State, maxPower: nat)
    requires s.power <= maxPower
    ensures Stop(s).pressure <= s.pressure + maxPower * s.minutes
  {
    assert s.minutes * s.power <= s.minutes * maxPower;
  }

  /** No transition lowers the key, and none raises the pressure
      s.pressure + maxPower * s.minutes that `best` is compared against,
      while the flow stays within maxPower. */
  lemma StepBounds(maze: Maze, d: Table, s: State, t: State, maxPower: nat)
    requires Next(maze, d, s, t) && t.power <= maxPower
    ensures Priority(s) <= Priority(t)
    ensures t.pressure + maxPower * t.minutes <= s.pressure + maxPower * s.minutes
  {
    if s.current !in s.open && t == Open(s, maze[s.current].rate) {
      OpenBounds(s, maze[s.current].rate, maxPower);
    } else if t == Stop(s) {
      StopBounds(s, maxPower);
    } else {
      var target :| target in d[s.current] && d[s.current][target] <= s.minutes
        && t == Move(s, target, d[s.current][target]);
      MoveBounds(s, target, d[s.current][target], maxPower);
    }
  }

  /** t is reached from the start by n transitions. */
  ghost predicate DerivableIn(maze: Maze, d: Table, t: State, n: nat)
    decreases n
  {
    if n == 0 then t == Start
    else exists s :: DerivableIn(maze, d, s, n - 1) && Next(maze, d, s, t)
  }

  ghost predicate Derivable(maze: Maze, d: Table, t: State) {
    exists n: nat :: DerivableIn(maze, d, t, n)
  }

  lemma DerivableNext(maze: Maze, d: Table, s: State, t: State)
    requires Derivable(maze, d, s) && Next(maze, d, s, t)
    ensures Derivable(maze, d, t)
  {
    var n: nat :| DerivableIn(maze, d, s, n);
    assert DerivableIn(maze, d, t, n + 1);
  }

  /** The state stands at AA or at a valve of the table. */
  ghost predicate Placed(d: Table, s: State) {
    s.current == "AA" || s.current in d
  }

  /** Every state of the heap is derivable and stands at AA or a valve of
      the table. */
  ghost predicate Live(maze: Maze, d: Table, heap: seq<State>) {
    forall j :: 0 <= j < |heap| ==> Derivable(maze, d, heap[j]) && Placed(d, heap[j])
  }

  // The termination measure: each popped state is replaced by fewer than K
  // states with fewer minutes, so the sum of K to the minutes falls.

  /** k to the e, as repeated Times. */
  function Pow(k: nat, e: nat): nat {
    if e == 0 then 1 else Arith.Times(k, Pow(k, e - 1))
  }

  lemma {:induction false} PowAtLeastOne(k: nat, e: nat)
    requires 1 <= k
    ensures 1 <= Pow(k, e)
    decreases e
  {
    if e > 0 {
      PowAtLeastOne(k, e - 1);
      Arith.TimesAtLeast(k, Pow(k, e - 1));
    }
  }

  lemma {:induction false} PowMono(k: nat, a: nat, b: nat)
    requires 1 <= k && a <= b
    ensures Pow(k, a) <= Pow(k, b)
    decreases b
  {
    if a < b {
      PowMono(k, a, b - 1);
      Arith.TimesAtLeast(k, Pow(k, b - 1));
    }
  }

  /** Fewer than k copies of k to the m - 1 make less than k to the m. */
  lemma Lighter(n: nat, k: nat, m: nat)
    requires 1 <= m && n < k
    ensures Arith.Times(n, Pow(k, m - 1)) < Pow(k, m)
  {
    PowAtLeastOne(k, m - 1);
    Arith.TimesLess(n, k, Pow(k, m - 1));
  }

  ghost function Weight(h: seq<State>, k: nat): nat {
    if h == [] then 0 else Weight(h[..|h| - 1], k) + Pow(k, h[|h| - 1].minutes)
  }

  lemma WeightSnoc(h: seq<State>, t: State, k: nat)
    ensures Weight(h + [t], k) == Weight(h, k) + Pow(k, t.minutes)
  {
    assert (h + [t])[..|h|] == h;
  }

  lemma {:induction false} WeightRemove(h: seq<State>, i: nat, k: nat)
    requires i < |h|
    ensures Weight(h, k) == Weight(h[..i] + h[i + 1..], k) + Pow(k, h[i].minutes)
    decreases |h|
  {
    var last := |h| - 1;
    if i == last {
      assert h[..i] + h[i + 1..] == h[..last];
    } else {
      var front := h[..last];
      WeightRemove(front, i, k);
      RemoveBeforeLast(h, i);
      WeightSnoc(front[..i] + front[i + 1..], h[last], k);
    }
  }

  /** Removing an element before the last one keeps the last one last. */
  lemma RemoveBeforeLast(h: seq<State>, i: nat)
    requires i < |h| - 1
    ensures h[..i] + h[i + 1..] == (h[..|h| - 1][..i] + h[..|h| - 1][i + 1..]) + [h[|h| - 1]]
    ensures h[..|h| - 1][i] == h[i]
  {
  }

  lemma CardSub(a: set<string>, b: set<string>)
    requires a <= b
    ensures |a| <= |b|
  {
    assert b == a + (b - a);
  }

  // The search.

  /** The position of a state of greatest key, the one `BinaryHeap::pop`
      takes (between equal keys the heap's choice is unspecified). */
  method PopBest(heap: seq<State>) returns (i: nat)
    requires |heap| > 0
    ensures i < |heap|
    ensures forall j :: 0 <= j < |heap| ==> Priority(heap[j]) <= Priority(heap[i])
  {
    i := 0;
    for k := 1 to |heap|
      invariant i < k && forall j :: 0 <= j < k ==> Priority(heap[j]) <= Priority(heap[i])
    {
      if Priority(heap[i]) < Priority(heap[k]) {
        i := k;
      }
    }
  }

  /** Push t unless it was seen: `if !seen.contains(..) { insert; push }`. */
  method Offer(t: State, heap: seq<State>, seen: set<State>) returns (heap': seq<State>, seen': set<State>)
    ensures seen' == seen + {t}
    ensures t in seen ==> heap' == heap
    ensures t !in seen ==> heap' == heap + [t]
  {
    heap', seen' := heap, seen;
    if t !in seen {
      seen' := seen + {t};
      heap' := heap + [t];
    }
  }

  /** The walks from s to the valves of ks that row reaches in time. */
  ghost function MovesIn(s: State, row: map<string, nat>, ks: set<string>): set<State>
    requires ks <= row.Keys
  {
    set target | target in ks && row[target] <= s.minutes :: Move(s, target, row[target])
  }

  lemma MovesInEmpty(s: State, row: map<string, nat>)
    ensures MovesIn(s, row, {}) == {}
  {
  }

  /** One more valve adds its walk, if in time. */
  lemma MovesInAdd(s: State, row: map<string, nat>, ks: set<string>, target: string)
    requires target in row && ks <= row.Keys
    ensures MovesIn(s, row, ks + {target})
      == MovesIn(s, row, ks) + (if row[target] <= s.minutes then {Move(s, target, row[target])} else {})
  {
  }

  /** The states the search offers after popping s. */
  ghost function Successors(maze: Maze, d: Table, s: State): set<State>
    requires s.minutes > 0 && s.current in maze && s.current in d
  {
    (if s.current !in s.open then {Open(s, maze[s.current].rate)} else {})
      + MovesIn(s, d[s.current], d[s.current].Keys) + {Stop(s)}
  }

  /** They are exactly the transitions out of s. */
  lemma SuccessorsNext(maze: Maze, d: Table, s: State, t: State)
    requires s.minutes > 0 && s.current in maze && s.current in d
    ensures t in Successors(maze, d, s) <==> Next(maze, d, s, t)
  {
    if t in MovesIn(s, d[s.current], d[s.current].Keys) {
      var target :| target in d[s.current] && d[s.current][target] <= s.minutes
        && t == Move(s, target, d[s.current][target]);
      assert Next(maze, d, s, t);
    }
    if Next(maze, d, s, t) && t != Stop(s) && !(s.current !in s.open && t == Open(s, maze[s.current].rate)) {
      var target :| target in d[s.current] && d[s.current][target] <= s.minutes
        && t == Move(s, target, d[s.current][target]);
      assert t in MovesIn(s, d[s.current], d[s.current].Keys);
    }
  }

  /** A successor of a live state is live, and has fewer minutes left: the
      table's walks take at least one minute. */
  lemma SuccessorLive(maze: Maze, d: Table, s: State, t: State)
    requires Partial(maze, d.Keys, d)
    requires s.minutes > 0 && s.current in maze && s.current in d && Derivable(maze, d, s)
    requires t in Successors(maze, d, s)
    ensures Derivable(maze, d, t) && Placed(d, t) && t.minutes < s.minutes
  {
    SuccessorsNext(maze, d, s, t);
    DerivableNext(maze, d, s, t);
    if t in MovesIn(s, d[s.current], d[s.current].Keys) {
      var target :| target in d[s.current] && d[s.current][target] <= s.minutes
        && t == Move(s, target, d[s.current][target]);
      assert target in d[s.current].Keys;
    }
  }

  /** Appending successors of s keeps the heap live. */
  lemma Grown(maze: Maze, d: Table, s: State, rest: seq<State>, seen: set<State>, h: seq<State>,
              seen': set<State>)
    requires Partial(maze, d.Keys, d) && Live(maze, d, rest)
    requires s.minutes > 0 && s.current in maze && s.current in d && Derivable(maze, d, s)
    requires Extends(rest, seen, h, seen') && seen' == seen + Successors(maze, d, s)
    ensures Live(maze, d, h)
    ensures forall j :: |rest| <= j < |h| ==> h[j].minutes < s.minutes
  {
    forall j | |rest| <= j < |h|
      ensures Derivable(maze, d, h[j]) && Placed(d, h[j]) && h[j].minutes < s.minutes
    {
      SuccessorLive(maze, d, s, h[j]);
    }
    forall j | 0 <= j < |rest|
      ensures Derivable(maze, d, h[j]) && Placed(d, h[j])
    {
      assert h[j] == rest[j];
    }
  }

  lemma LiveRemove(maze: Maze, d: Table, heap: seq<State>, i: nat)
    requires Live(maze, d, heap) && i < |heap|
    ensures Live(maze, d, heap[..i] + heap[i + 1..])
    ensures Derivable(maze, d, heap[i]) && Placed(d, heap[i])
  {
    var rest := heap[..i] + heap[i + 1..];
    forall j | 0 <= j < |rest|
      ensures Derivable(maze, d, rest[j]) && Placed(d, rest[j])
    {
      assert rest[j] == heap[if j < i then j else j + 1];
    }
  }

  lemma LiveSnoc(maze: Maze, d: Table, heap: seq<State>, s: State)
    requires Live(maze, d, heap) && Derivable(maze, d, s) && Placed(d, s)
    ensures Live(maze, d, heap + [s])
  {
    assert (heap + [s])[|heap|] == s;
  }

  /** A row of the table leaves out its own valve. */
  lemma RowSmaller(maze: Maze, d: Table, x: string)
    requires Partial(maze, d.Keys, d) && x in d
    ensures |d[x]| < |d|
  {
    CardSub(d[x].Keys, d.Keys - {x});
  }

  /** States appended to rest, each with fewer than m minutes, weigh at
      most K to the m - 1 each. */
  lemma {:induction false} AppendWeight(rest: seq<State>, h: seq<State>, k: nat, m: nat)
    requires 1 <= m && 1 <= k && |rest| <= |h| && forall j :: 0 <= j < |rest| ==> h[j] == rest[j]
    requires forall j :: |rest| <= j < |h| ==> h[j].minutes < m
    ensures Weight(h, k) <= Weight(rest, k) + Arith.Times(|h| - |rest|, Pow(k, m - 1))
    decreases |h|
  {
    if |h| > |rest| {
      var front := h[..|h| - 1];
      AppendWeight(rest, front, k, m);
      PowMono(k, h[|h| - 1].minutes, m - 1);
    } else {
      assert h == rest;
    }
  }

  /** So fewer than k such states weigh less than one state with m
      minutes. */
  lemma AppendLighter(w: nat, w0: nat, n: nat, k: nat, m: nat)
    requires 1 <= m && n < k && w <= w0 + Arith.Times(n, Pow(k, m - 1))
    ensures w < w0 + Pow(k, m)
  {
    Lighter(n, k, m);
  }

  /** Fewer than k states appended to rest, each with fewer than m minutes,
      weigh less than one state with m minutes. */
  lemma Heavier(rest: seq<State>, h: seq<State>, k: nat, m: nat)
    requires 1 <= m && |rest| <= |h| && |h| - |rest| < k
    requires forall j :: 0 <= j < |rest| ==> h[j] == rest[j]
    requires forall j :: |rest| <= j < |h| ==> h[j].minutes < m
    ensures Weight(h, k) < Weight(rest, k) + Pow(k, m)
  {
    AppendWeight(rest, h, k, m);
    AppendLighter(Weight(h, k), Weight(rest, k), |h| - |rest|, k, m);
  }

  /** heap' is heap with states appended that are in seen' but were not in
      seen. */
  ghost predicate Extends(heap: seq<State>, seen: set<State>, heap': seq<State>, seen': set<State>) {
    |heap| <= |heap'| && (forall j :: 0 <= j < |heap| ==> heap'[j] == heap[j])
    && forall j :: |heap| <= j < |heap'| ==> heap'[j] in seen' && heap'[j] !in seen
  }

  lemma ExtendsTrans(heap: seq<State>, seen: set<State>, heap1: seq<State>, seen1: set<State>,
                     heap2: seq<State>, seen2: set<State>)
    requires Extends(heap, seen, heap1, seen1) && Extends(heap1, seen1, heap2, seen2)
    requires seen <= seen1 <= seen2
    ensures Extends(heap, seen, heap2, seen2)
  {
    forall j | |heap| <= j < |heap2|
      ensures heap2[j] in seen2 && heap2[j] !in seen
    {
      if j < |heap1| {
        assert heap2[j] == heap1[j];
      }
    }
  }

  lemma ExtendsOffer(heap: seq<State>, seen: set<State>, heap1: seq<State>, seen1: set<State>,
                     t: State, heap2: seq<State>, seen2: set<State>)
    requires Extends(heap, seen, heap1, seen1) && seen <= seen1
    requires seen2 == seen1 + {t} && heap2 == if t in seen1 then heap1 else heap1 + [t]
    ensures Extends(heap, seen, heap2, seen2) && |heap2| <= |heap1| + 1
  {
    if t !in seen1 {
      assert heap2[|heap1|] == t;
    }
  }

  /** One walk of the row: offered if it fits in the minutes left. */
  method MoveOne(s: State, row: map<string, nat>, heap: seq<State>, seen: set<State>,
                 ghost done: set<string>, target: string, heap1: seq<State>, seen1: set<State>)
    returns (heap2: seq<State>, seen2: set<State>)
    requires target in row && done <= row.Keys
    requires seen1 == seen + MovesIn(s, row, done) && Extends(heap, seen, heap1, seen1)
    ensures seen2 == seen + MovesIn(s, row, done + {target})
    ensures Extends(heap, seen, heap2, seen2) && |heap2| <= |heap1| + 1
  {
    var cost := row[target];
    heap2, seen2 := heap1, seen1;
    if cost <= s.minutes {
      var t := Move(s, target, cost);
      heap2, seen2 := Offer(t, heap1, seen1);
      ExtendsOffer(heap, seen, heap1, seen1, t, heap2, seen2);
    }
    MovesInAdd(s, row, done, target);
  }

  /** The walks of `for (target, cost) in &distances[&current]`, in the
      map's (unspecified) order: every valve of the row reachable within the
      minutes left is offered, and each state not seen before is appended to
      the heap, once. */
  method MoveAll(s: State, row: map<string, nat>, heap: seq<State>, seen: set<State>)
    returns (heap': seq<State>, seen': set<State>)
    ensures seen' == seen + MovesIn(s, row, row.Keys)
    ensures Extends(heap, seen, heap', seen') && |heap'| <= |heap| + |row|
  {
    var todo := row.Keys;
    ghost var done: set<string> := {};
    heap', seen' := heap, seen;
    MovesInEmpty(s, row);
    while todo != {}
      invariant todo <= row.Keys && done == row.Keys - todo
      invariant seen' == seen + MovesIn(s, row, done)
      invariant Extends(heap, seen, heap', seen') && |heap'| + |todo| <= |heap| + |row|
      decreases |todo|
    {
      var target :| target in todo;
      heap', seen' := MoveOne(s, row, heap, seen, done, target, heap', seen');
      assert target !in done && row.Keys - (todo - {target}) == done + {target};
      done, todo := done + {target}, todo - {target};
    }
  }

  /** Everything the search offers after popping s (which is neither out
      of time nor pruned): the open move if its valve is still closed, the
      walks of the table row, and the stop; each appended to the heap only
      if not seen before. */
  method Expand(maze: Maze, d: Table, s: State, heap: seq<State>, seen: set<State>)
    returns (heap': seq<State>, seen': set<State>)
    requires s.minutes > 0 && s.current in maze && s.current in d
    ensures seen' == seen + Successors(maze, d, s)
    ensures Extends(heap, seen, heap', seen') && |heap'| <= |heap| + |d[s.current]| + 2
  {
    heap', seen' := heap, seen;
    if s.current !in s.open {
      var t := Open(s, maze[s.current].rate);
      heap', seen' := Offer(t, heap, seen);
      ExtendsOffer(heap, seen, heap, seen, t, heap', seen');
    }
    ghost var heap1, seen1 := heap', seen';
    heap', seen' := MoveAll(s, d[s.current], heap', seen');
    ExtendsTrans(heap, seen, heap1, seen1, heap', seen');
    ghost var heap2, seen2 := heap', seen';
    heap', seen' := Offer(Stop(s), heap', seen');
    ExtendsOffer(heap, seen, heap2, seen2, Stop(s), heap', seen');
  }

  /** Taking heap[i] out keeps the rest live and lowers the measure by
      k to its minutes. */
  lemma Popped(maze: Maze, d: Table, heap: seq<State>, i: nat, k: nat)
    requires Live(maze, d, heap) && i < |heap| && 1 <= k
    ensures Live(maze, d, heap[..i] + heap[i + 1..])
    ensures Derivable(maze, d, heap[i]) && Placed(d, heap[i])
    ensures Weight(heap, k) == Weight(heap[..i] + heap[i + 1..], k) + Pow(k, heap[i].minutes)
    ensures 1 <= Pow(k, heap[i].minutes)
  {
    LiveRemove(maze, d, heap, i);
    WeightRemove(heap, i, k);
    PowAtLeastOne(k, heap[i].minutes);
  }

  /** Expanding s keeps the heap live and weighs less than s did. */
  lemma Pushed(maze: Maze, d: Table, s: State, rest: seq<State>, seen: set<State>, h: seq<State>,
               seen': set<State>, k: nat)
    requires Partial(maze, d.Keys, d) && Live(maze, d, rest) && k == |d| + 2
    requires s.minutes > 0 && s.current in maze && s.current in d && Derivable(maze, d, s)
    requires Extends(rest, seen, h, seen') && seen' == seen + Successors(maze, d, s)
    requires |h| <= |rest| + |d[s.current]| + 2
    ensures Live(maze, d, h) && Weight(h, k) < Weight(rest, k) + Pow(k, s.minutes)
  {
    Grown(maze, d, s, rest, seen, h, seen');
    RowSmaller(maze, d, s.current);
    Heavier(rest, h, k, s.minutes);
  }

  /** The log of popped states with no minutes left: all derivable, none
      above best, and best is 0 or the pressure of the one at `at`. */
  ghost predicate Finished(maze: Maze, d: Table, finished: seq<State>, best: nat, at: nat) {
    Live(maze, d, finished)
    && (forall k :: 0 <= k < |finished| ==> finished[k].minutes == 0 && finished[k].pressure <= best)
    && (best == 0 || (at < |finished| && finished[at].pressure == best))
  }

  /** Logging a finished state s and keeping the greater pressure. */
  lemma FinishedAdd(maze: Maze, d: Table, finished: seq<State>, best: nat, at: nat, s: State,
                    best': nat, at': nat)
    requires Finished(maze, d, finished, best, at)
    requires s.minutes == 0 && Derivable(maze, d, s) && Placed(d, s)
    requires if s.pressure > best then best' == s.pressure && at' == |finished| else best' == best && at' == at
    ensures Finished(maze, d, finished + [s], best', at')
  {
    LiveSnoc(maze, d, finished, s);
    assert (finished + [s])[|finished|] == s;
  }

  /** `best` once the heap is empty: the greatest pressure among the popped
      states with no minutes left; the log `finished` holds those states.
      Popped states out of time are compared with `best`, states that cannot
      beat `best` even at maxPower for all their minutes are dropped, and the
      others are expanded. */
  method Search(maze: Maze, d: Table, maxPower: nat) returns (r: Result<nat>, ghost finished: seq<State>)
    requires Partial(maze, d.Keys, d)
    ensures r.Ok? ==> forall k :: 0 <= k < |finished| ==>
      finished[k].minutes == 0 && Derivable(maze, d, finished[k]) && finished[k].pressure <= r.value
    ensures r.Ok? ==> r.value == 0 || exists k :: 0 <= k < |finished| && finished[k].pressure == r.value
    ensures r.Err? ==> exists t :: Derivable(maze, d, t) && Placed(d, t) && (t.current !in maze || t.current !in d)
  {
    var heap := [Start];
    var seen: set<State> := {};
    var best := 0;
    finished := [];
    ghost var at: nat := 0;
    ghost var K := |d| + 2;
    assert DerivableIn(maze, d, Start, 0);
    assert Live(maze, d, heap) && Finished(maze, d, finished, best, at);
    while heap != []
      invariant Live(maze, d, heap) && Finished(maze, d, finished, best, at)
      decreases Weight(heap, K)
    {
      var i := PopBest(heap);
      var s := heap[i];
      Popped(maze, d, heap, i, K);
      var rest := heap[..i] + heap[i + 1..];
      heap := rest;
      if s.minutes == 0 {
        ghost var best0, at0 := best, at;
        if s.pressure > best {
          best, at := s.pressure, |finished|;
        }
        FinishedAdd(maze, d, finished, best0, at0, s, best, at);
        finished := finished + [s];
      } else if s.pressure + Arith.Times(s.minutes, maxPower) <= best {
        // cannot beat `best`
      } else if s.current !in maze || s.current !in d {
        assert Derivable(maze, d, s) && Placed(d, s);
        return Err("No valve named " + s.current), finished;
      } else {
        ghost var seen0 := seen;
        heap, seen := Expand(maze, d, s, heap, seen);
        Pushed(maze, d, s, rest, seen0, heap, seen, K);
      }
    }
    assert best == 0 || finished[at].pressure == best;
    return Ok(best), finished;
  }

  // The whole of part one.

  /** Any two valves the search moves between are joined by a walk. */
  ghost predicate Connected(maze: Maze) {
    forall x, y :: x in Reduced(maze) && y in Reduced(maze) && x != y ==> Reachable(maze, x, y)
  }

  /** What makes part one panic: no valve AA, a tunnel to a valve that is
      not described, or two valves of the reduced graph with no walk
      between them. */
  ghost predicate Malformed(maze: Maze) {
    "AA" !in maze || !Complete(maze) || !Connected(maze)
  }

  /** A pressure the search can end with: 0, or that of a derivable state
      with no minutes left, for some table of the reduced graph. */
  ghost predicate Achieves(maze: Maze, v: nat) {
    exists d :: TableOf(maze, Reduced(maze), d)
      && (v == 0 || exists t :: Derivable(maze, d, t) && t.minutes == 0 && t.pressure == v)
  }

  lemma UnlinkedMalformed(maze: Maze, valves: seq<string>)
    requires Elems(valves) == Reduced(maze) && Unlinked(maze, valves)
    ensures Malformed(maze)
  {
    var x, y :| x in valves && y in valves && x != y
      && (x !in maze || !Complete(maze) || !Reachable(maze, x, y));
    assert x in Elems(valves) && y in Elems(valves);
  }

  /** A placed state can stand outside the maze or the table only at a
      missing AA. */
  lemma Misplaced(maze: Maze, d: Table, t: State)
    requires TableOf(maze, Reduced(maze), d) && Placed(d, t)
    requires t.current !in maze || t.current !in d
    ensures "AA" !in maze
  {
  }

  lemma Achieved(maze: Maze, d: Table, finished: seq<State>, v: nat)
    requires TableOf(maze, Reduced(maze), d)
    requires forall k :: 0 <= k < |finished| ==> finished[k].minutes == 0 && Derivable(maze, d, finished[k])
    requires v == 0 || exists k :: 0 <= k < |finished| && finished[k].pressure == v
    ensures Achieves(maze, v)
  {
    if v != 0 {
      var k :| 0 <= k < |finished| && finished[k].pressure == v;
      var t := finished[k];
      assert Derivable(maze, d, t) && t.minutes == 0 && t.pressure == v;
    }
  }

  /** `solve_part_one` on the parsed maze: reduce the graph to AA and the
      valves with flow, tabulate their distances, and search. Part one fails
      only on a malformed maze, and its answer is a pressure some sequence
      of moves reaches in 30 minutes. */
  method SolvePartOne(maze: Maze) returns (r: Result<nat>)
    ensures r.Err? ==> Malformed(maze)
    ensures r.Ok? ==> Achieves(maze, r.value)
  {
    var valves := Reduce(maze);
    var table := BuildTable(maze, valves);
    if table.Err? {
      UnlinkedMalformed(maze, valves);
      return Err(table.reason);
    }
    var d := table.value;
    var total := TotalRate(maze);
    var best, finished := Search(maze, d, total);
    if best.Err? {
      ghost var t :| Derivable(maze, d, t) && Placed(d, t) && (t.current !in maze || t.current !in d);
      Misplaced(maze, d, t);
      return Err(best.reason);
    }
    Achieved(maze, d, finished, best.value);
    return best;
  }
}
