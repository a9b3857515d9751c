/** Day 12: the fewest steps up a height map. A step goes to an orthogonal
    neighbour at most one unit higher; a breadth-first search over a min-heap
    of (steps, cell) entries marks a cell visited when it is pushed and stops
    at the first popped entry for the end cell. */
module Day12 {
  import Text
  import opened Wrappers

  /** A cell as (column, row), the key order of the height map. */
  type Cell = (int, int)
  type Grid = map<Cell, nat>

  /** A heap entry: the steps taken so far and the cell reached. */
  type Entry = (nat, Cell)

  /** The parsed map: start, end and the height of every cell. */
  datatype XMap = XMap(start: Cell, end: Cell, grid: Grid)

  /** The four neighbours, in the order the search tries them. */
  function Neighbours(c: Cell): (r: seq<Cell>)
    ensures |r| == 4
  {
    [(c.0 - 1, c.1), (c.0, c.1 - 1), (c.0 + 1, c.1), (c.0, c.1 + 1)]
  }

  /** One step: both cells on the map, orthogonally adjacent, and the target at
      most one higher. */
  predicate Step(g: Grid, a: Cell, b: Cell) {
    a in g && b in g && b in Neighbours(a) && g[b] <= g[a] + 1
  }

  // Reachability.

  /** A walk of single steps over the map. */
  ghost predicate IsPath(g: Grid, p: seq<Cell>) {
    |p| >= 1 && forall i :: 0 <= i < |p| - 1 ==> Step(g, p[i], p[i + 1])
  }

  /** A walk from some seed to `end`. */
  ghost predicate Route(g: Grid, seeds: set<Cell>, end: Cell, p: seq<Cell>) {
    IsPath(g, p) && p[0] in seeds && p[|p| - 1] == end
  }

  /** b is reachable from some seed in at most k steps. */
  ghost predicate Reach(g: Grid, seeds: set<Cell>, k: nat, b: Cell) {
    exists p :: Route(g, seeds, b, p) && |p| <= k + 1
  }

  /** Seeds are reachable in no steps, and only they are. */
  lemma ReachSeed(g: Grid, seeds: set<Cell>, b: Cell)
    ensures Reach(g, seeds, 0, b) <==> b in seeds
  {
    if b in seeds {
      assert Route(g, seeds, b, [b]);
    }
  }

  /** A step from a cell reachable in k steps reaches in k + 1. */
  lemma ReachStep(g: Grid, seeds: set<Cell>, k: nat, a: Cell, b: Cell)
    requires Reach(g, seeds, k, a) && Step(g, a, b)
    ensures Reach(g, seeds, k + 1, b)
  {
    var p :| Route(g, seeds, a, p) && |p| <= k + 1;
    var q := p + [b];
    assert forall i :: 0 <= i < |p| ==> q[i] == p[i];
    assert Route(g, seeds, b, q);
  }

  /** A cell first reached in k steps has a predecessor reached in k - 1. */
  lemma ReachPred(g: Grid, seeds: set<Cell>, k: nat, b: Cell) returns (a: Cell)
    requires k > 0 && Reach(g, seeds, k, b) && !Reach(g, seeds, k - 1, b)
    ensures Step(g, a, b) && Reach(g, seeds, k - 1, a)
  {
    var p :| Route(g, seeds, b, p) && |p| <= k + 1;
    var q := p[..|p| - 1];
    a := p[|p| - 2];
    assert forall i :: 0 <= i < |q| ==> q[i] == p[i];
    assert Route(g, seeds, a, q);
  }

  lemma ReachMono(g: Grid, seeds: set<Cell>, j: nat, k: nat, b: Cell)
    requires j <= k && Reach(g, seeds, j, b)
    ensures Reach(g, seeds, k, b)
  {
  }

  /** k steps is the fewest that reach v. */
  ghost predicate Optimal(g: Grid, seeds: set<Cell>, v: Cell, k: nat) {
    Reach(g, seeds, k, v) && (k > 0 ==> !Reach(g, seeds, k - 1, v))
  }

  /** No cell is reached in fewer steps than its optimum. */
  lemma CostBound(g: Grid, seeds: set<Cell>, v: Cell, k: nat, j: nat)
    requires Optimal(g, seeds, v, k) && Reach(g, seeds, j, v)
    ensures k <= j
  {
  }

  /** The optimum as walks: one walk of exactly k steps, and none shorter. */
  lemma OptimalRoutes(g: Grid, seeds: set<Cell>, end: Cell, k: nat)
    requires Optimal(g, seeds, end, k)
    ensures exists p :: Route(g, seeds, end, p) && |p| == k + 1
    ensures forall p :: Route(g, seeds, end, p) ==> |p| >= k + 1
  {
    var p :| Route(g, seeds, end, p) && |p| <= k + 1;
    assert |p| == k + 1;
  }

  lemma PathStart(g: Grid, p: seq<Cell>)
    requires IsPath(g, p) && |p| > 1
    ensures p[0] in g
  {
    assert Step(g, p[0], p[1]);
  }

  /** A seed missing from the map has nowhere to go. */
  lemma IsolatedSeed(g: Grid, seeds: set<Cell>, s: Cell, k: nat, b: Cell)
    requires seeds == {s} && s !in g
    ensures Reach(g, seeds, k, b) <==> b == s
  {
    if Reach(g, seeds, k, b) {
      var p :| Route(g, seeds, b, p) && |p| <= k + 1;
      if |p| > 1 {
        PathStart(g, p);
      }
    } else {
      ReachSeed(g, seeds, b);
    }
  }

  /** What the search answers: the fewest steps, or that the end is out of
      reach. */
  ghost predicate Answers(g: Grid, seeds: set<Cell>, end: Cell, r: Result<nat>) {
    && (r.Ok? ==> Optimal(g, seeds, end, r.value))
    && (r.Err? ==> forall k: nat :: !Reach(g, seeds, k, end))
  }

  lemma RouteReach(g: Grid, seeds: set<Cell>, end: Cell, p: seq<Cell>)
    requires Route(g, seeds, end, p)
    ensures Reach(g, seeds, |p| - 1, end)
  {
  }

  /** The answer as walks: a found count is the length of a shortest walk
      from a seed to the end, and an error means there is no such walk. */
  lemma AnswersRoutes(g: Grid, seeds: set<Cell>, end: Cell, r: Result<nat>)
    requires Answers(g, seeds, end, r)
    ensures r.Ok? ==> exists p :: Route(g, seeds, end, p) && |p| == r.value + 1
    ensures r.Ok? ==> forall p :: Route(g, seeds, end, p) ==> |p| >= r.value + 1
    ensures r.Err? ==> forall p :: !Route(g, seeds, end, p)
  {
    if r.Ok? {
      OptimalRoutes(g, seeds, end, r.value);
    } else {
      forall p
        ensures !Route(g, seeds, end, p)
      {
        if Route(g, seeds, end, p) {
          RouteReach(g, seeds, end, p);
        }
      }
    }
  }

  // The search invariant.

  /** The heap with entry i taken out. */
  function Remove(heap: seq<Entry>, i: nat): (r: seq<Entry>)
    requires i < |heap|
    ensures |r| == |heap| - 1
    ensures forall j :: 0 <= j < |heap| && j != i ==> heap[j] in r
  {
    assert forall j :: 0 <= j < i ==> heap[j] == heap[..i][j];
    assert forall j :: i < j < |heap| ==> heap[j] == heap[i + 1..][j - i - 1];
    heap[..i] + heap[i + 1..]
  }

  /** Seeds are visited, visited cells are on the map and have a cost, and
      the end has not been expanded. */
  ghost predicate Frame(g: Grid, seeds: set<Cell>, end: Cell, visited: set<Cell>,
                        cost: map<Cell, nat>, done: set<Cell>)
  {
    seeds <= visited && visited <= g.Keys && visited == cost.Keys
    && done <= visited && end !in done
  }

  /** Heap entries carry their cell's cost, between lo and lo + 1. */
  ghost predicate Costed(heap: seq<Entry>, visited: set<Cell>, cost: map<Cell, nat>, lo: nat)
    requires visited == cost.Keys
  {
    forall i :: 0 <= i < |heap| ==>
      heap[i].1 in visited && cost[heap[i].1] == heap[i].0 && lo <= heap[i].0 <= lo + 1
  }

  /** A visited cell neither expanded nor open is on the heap. */
  ghost predicate Queued(heap: seq<Entry>, visited: set<Cell>, done: set<Cell>, open: set<Cell>) {
    forall v :: v in visited && v !in done && v !in open ==>
      exists i :: 0 <= i < |heap| && heap[i].1 == v
  }

  /** The neighbours an expanded cell can step to are visited. */
  ghost predicate Closed(g: Grid, visited: set<Cell>, done: set<Cell>) {
    forall v, n :: v in done && Step(g, v, n) ==> n in visited
  }

  /** A cell with a cost is first reached in that many steps. */
  ghost predicate Exactly(g: Grid, seeds: set<Cell>, cost: map<Cell, nat>, v: Cell) {
    v in cost ==> Optimal(g, seeds, v, cost[v])
  }

  /** Every visited cell's cost is the fewest steps that reach it. */
  ghost predicate Exact(g: Grid, seeds: set<Cell>, cost: map<Cell, nat>) {
    forall v :: Exactly(g, seeds, cost, v)
  }

  /** Every cell reachable in fewer than lo steps is expanded. */
  ghost predicate Layered(g: Grid, seeds: set<Cell>, done: set<Cell>, lo: nat) {
    lo > 0 ==> forall x :: Reach(g, seeds, lo - 1, x) ==> x in done
  }

  /** The search invariant: `open` holds the cell being expanded, if any. */
  ghost predicate Inv(g: Grid, seeds: set<Cell>, end: Cell, heap: seq<Entry>,
                      visited: set<Cell>, cost: map<Cell, nat>, done: set<Cell>,
                      lo: nat, open: set<Cell>)
  {
    && Frame(g, seeds, end, visited, cost, done)
    && Costed(heap, visited, cost, lo)
    && Queued(heap, visited, done, open)
    && Closed(g, visited, done)
    && Exact(g, seeds, cost)
    && Layered(g, seeds, done, lo)
  }

  lemma InitInv(g: Grid, seeds: set<Cell>, end: Cell, heap: seq<Entry>)
    requires seeds <= g.Keys
    requires forall i :: 0 <= i < |heap| ==> heap[i].1 in seeds && heap[i].0 == 0
    requires forall v :: v in seeds ==> exists i :: 0 <= i < |heap| && heap[i].1 == v
    ensures Inv(g, seeds, end, heap, seeds, map v | v in seeds :: 0, {}, 0, {})
  {
    var cost: map<Cell, nat> := map v | v in seeds :: 0;
    forall v
      ensures Exactly(g, seeds, cost, v)
    {
      ReachSeed(g, seeds, v);
    }
  }

  /** A cell reachable in lo steps is visited, given those reachable in
      lo - 1 are expanded. */
  lemma ReachVisited(g: Grid, seeds: set<Cell>, visited: set<Cell>, done: set<Cell>,
                     lo: nat, x: Cell)
    requires seeds <= visited && done <= visited
    requires Closed(g, visited, done) && Layered(g, seeds, done, lo)
    requires Reach(g, seeds, lo, x)
    ensures x in visited
  {
    if lo == 0 {
      ReachSeed(g, seeds, x);
    } else if !Reach(g, seeds, lo - 1, x) {
      var a := ReachPred(g, seeds, lo, x);
    }
  }

  lemma PopQueued(heap: seq<Entry>, visited: set<Cell>, done: set<Cell>, i: nat)
    requires i < |heap| && Queued(heap, visited, done, {})
    ensures Queued(Remove(heap, i), visited, done, {heap[i].1})
  {
    var rest := Remove(heap, i);
    forall v | v in visited && v !in done && v != heap[i].1
      ensures exists j :: 0 <= j < |rest| && rest[j].1 == v
    {
      var j :| 0 <= j < |heap| && heap[j].1 == v;
      assert heap[j] in rest;
    }
  }

  lemma PopCosted(heap: seq<Entry>, visited: set<Cell>, cost: map<Cell, nat>, lo: nat, i: nat)
    requires visited == cost.Keys && Costed(heap, visited, cost, lo)
    requires i < |heap| && forall j :: 0 <= j < |heap| ==> heap[i].0 <= heap[j].0
    ensures Costed(Remove(heap, i), visited, cost, heap[i].0)
  {
    var rest := Remove(heap, i);
    assert forall j :: 0 <= j < |rest| ==> rest[j] in heap;
  }

  /** When the least cost rises past lo, every cell reachable in lo steps has
      been expanded. */
  lemma PopLayered(g: Grid, seeds: set<Cell>, end: Cell, heap: seq<Entry>,
                   visited: set<Cell>, cost: map<Cell, nat>, done: set<Cell>,
                   lo: nat, i: nat)
    requires Inv(g, seeds, end, heap, visited, cost, done, lo, {})
    requires i < |heap| && forall j :: 0 <= j < |heap| ==> heap[i].0 <= heap[j].0
    ensures Layered(g, seeds, done, heap[i].0)
  {
    var c := heap[i].0;
    if c > lo {
      forall x | Reach(g, seeds, c - 1, x)
        ensures x in done
      {
        ReachVisited(g, seeds, visited, done, lo, x);
        assert Exactly(g, seeds, cost, x);
        CostBound(g, seeds, x, cost[x], lo);
      }
    }
  }

  /** Popping a least entry keeps the invariant, its cell now open. */
  lemma PopStep(g: Grid, seeds: set<Cell>, end: Cell, heap: seq<Entry>,
                visited: set<Cell>, cost: map<Cell, nat>, done: set<Cell>,
                lo: nat, i: nat)
    requires Inv(g, seeds, end, heap, visited, cost, done, lo, {})
    requires i < |heap| && forall j :: 0 <= j < |heap| ==> heap[i].0 <= heap[j].0
    ensures Inv(g, seeds, end, Remove(heap, i), visited, cost, done, heap[i].0, {heap[i].1})
  {
    PopQueued(heap, visited, done, i);
    PopCosted(heap, visited, cost, lo, i);
    PopLayered(g, seeds, end, heap, visited, cost, done, lo, i);
  }

  /** The cell pushed from the open cell is first reached in lo + 1 steps. */
  lemma PushExact(g: Grid, seeds: set<Cell>, end: Cell, heap: seq<Entry>,
                  visited: set<Cell>, cost: map<Cell, nat>, done: set<Cell>,
                  lo: nat, u: Cell, w: Cell)
    requires Inv(g, seeds, end, heap, visited, cost, done, lo, {u})
    requires u in visited && cost[u] == lo && Step(g, u, w) && w !in visited
    ensures Exact(g, seeds, cost[w := lo + 1])
  {
    assert Exactly(g, seeds, cost, u);
    ReachStep(g, seeds, lo, u, w);
    if Reach(g, seeds, lo, w) {
      ReachVisited(g, seeds, visited, done, lo, w);
    }
    var cost' := cost[w := lo + 1];
    forall v
      ensures Exactly(g, seeds, cost', v)
    {
      if v != w {
        assert Exactly(g, seeds, cost, v);
      }
    }
  }

  lemma PushQueued(heap: seq<Entry>, visited: set<Cell>, done: set<Cell>, u: Cell, e: Entry)
    requires Queued(heap, visited, done, {u})
    ensures Queued(heap + [e], visited + {e.1}, done, {u})
  {
    var heap' := heap + [e];
    forall v | v in visited + {e.1} && v !in done && v != u
      ensures exists i :: 0 <= i < |heap'| && heap'[i].1 == v
    {
      if v != e.1 {
        var i :| 0 <= i < |heap| && heap[i].1 == v;
        assert heap'[i] == heap[i];
      } else {
        assert heap'[|heap|].1 == e.1;
      }
    }
  }

  /** Pushing an unvisited neighbour of the open cell keeps the invariant. */
  lemma PushStep(g: Grid, seeds: set<Cell>, end: Cell, heap: seq<Entry>,
                 visited: set<Cell>, cost: map<Cell, nat>, done: set<Cell>,
                 lo: nat, u: Cell, w: Cell)
    requires Inv(g, seeds, end, heap, visited, cost, done, lo, {u})
    requires u in visited && cost[u] == lo && Step(g, u, w) && w !in visited
    ensures Inv(g, seeds, end, heap + [(lo + 1, w)], visited + {w}, cost[w := lo + 1],
                done, lo, {u})
  {
    PushExact(g, seeds, end, heap, visited, cost, done, lo, u, w);
    PushQueued(heap, visited, done, u, (lo + 1, w));
  }

  /** Once all its neighbours are visited, the open cell counts as expanded. */
  lemma CloseStep(g: Grid, seeds: set<Cell>, end: Cell, heap: seq<Entry>,
                  visited: set<Cell>, cost: map<Cell, nat>, done: set<Cell>,
                  lo: nat, u: Cell)
    requires Inv(g, seeds, end, heap, visited, cost, done, lo, {u})
    requires u in visited && u != end
    requires forall n :: Step(g, u, n) ==> n in visited
    ensures Inv(g, seeds, end, heap, visited, cost, done + {u}, lo, {})
  {
  }

  lemma QueuedEmpty(visited: set<Cell>, done: set<Cell>)
    requires done <= visited && Queued([], visited, done, {})
    ensures visited == done
  {
    forall v | v in visited
      ensures v in done
    {
      assert v in visited && v !in {} ==> v in done;
    }
  }

  /** With the heap empty, every reachable cell has been expanded. */
  lemma {:induction false} Exhausted(g: Grid, seeds: set<Cell>, visited: set<Cell>,
                                     done: set<Cell>, k: nat, x: Cell)
    requires seeds <= visited && visited == done && Closed(g, visited, done)
    requires Reach(g, seeds, k, x)
    ensures x in done
  {
    if k == 0 {
      ReachSeed(g, seeds, x);
    } else {
      if Reach(g, seeds, k - 1, x) {
        Exhausted(g, seeds, visited, done, k - 1, x);
      } else {
        var a := ReachPred(g, seeds, k, x);
        Exhausted(g, seeds, visited, done, k - 1, a);
      }
    }
  }

  // The search.

  /** Lexicographic order on entries, the order the min-heap pops in. */
  predicate EntryLe(a: Entry, b: Entry) {
    a.0 < b.0 || (a.0 == b.0 && (a.1.0 < b.1.0 || (a.1.0 == b.1.0 && a.1.1 <= b.1.1)))
  }

  /** The position of the least entry, as `BinaryHeap::pop` on `Reverse`
      entries takes it. */
  method PopMin(heap: seq<Entry>) returns (i: nat)
    requires |heap| > 0
    ensures i < |heap| && forall j :: 0 <= j < |heap| ==> EntryLe(heap[i], heap[j])
  {
    i := 0;
    for j := 1 to |heap|
      invariant i < j && forall k :: 0 <= k < j ==> EntryLe(heap[i], heap[k])
    {
      if !EntryLe(heap[i], heap[j]) {
        i := j;
      }
    }
  }

  /** Every seed pushed at cost 0. */
  method SeedHeap(seeds: set<Cell>) returns (heap: seq<Entry>)
    ensures forall i :: 0 <= i < |heap| ==> heap[i].1 in seeds && heap[i].0 == 0
    ensures forall v :: v in seeds ==> exists i :: 0 <= i < |heap| && heap[i].1 == v
  {
    heap := [];
    var rest := seeds;
    while rest != {}
      invariant rest <= seeds
      invariant forall i :: 0 <= i < |heap| ==> heap[i].1 in seeds && heap[i].0 == 0
      invariant forall v :: v in seeds - rest ==> exists i :: 0 <= i < |heap| && heap[i].1 == v
      decreases |rest|
    {
      var s :| s in rest;
      var heap' := heap + [(0, s)];
      forall v | v in seeds - (rest - {s})
        ensures exists i :: 0 <= i < |heap'| && heap'[i].1 == v
      {
        if v == s {
          assert heap'[|heap|].1 == s;
        } else {
          assert v in seeds - rest;
          var i :| 0 <= i < |heap| && heap[i].1 == v;
          assert heap'[i] == heap[i];
        }
      }
      heap, rest := heap', rest - {s};
    }
    assert seeds - rest == seeds;
  }

  lemma FewerLeft(keys: set<Cell>, visited: set<Cell>, n: Cell)
    requires n in keys && n !in visited
    ensures |keys - (visited + {n})| < |keys - visited|
  {
    assert keys - (visited + {n}) == (keys - visited) - {n};
  }

  /** The cells of some heap entries. */
  function Cells(es: seq<Entry>): set<Cell> {
    set i | 0 <= i < |es| :: es[i].1
  }

  /** Entries pushed from u: one step further, each to a cell it can step to
      that was neither visited nor pushed before. */
  ghost predicate Pushes(g: Grid, u: Cell, steps: nat, visited: set<Cell>, pushed: seq<Entry>) {
    forall j :: 0 <= j < |pushed| ==>
      pushed[j].0 == steps + 1 && Step(g, u, pushed[j].1) && pushed[j].1 !in visited + Cells(pushed[..j])
  }

  lemma PushesSnoc(g: Grid, u: Cell, steps: nat, visited: set<Cell>, heap: seq<Entry>,
                   heap': seq<Entry>, n: Cell)
    requires |heap| <= |heap'| && heap'[..|heap|] == heap
    requires Pushes(g, u, steps, visited, heap'[|heap|..])
    requires Step(g, u, n) && n !in visited + Cells(heap'[|heap|..])
    ensures var heap'' := heap' + [(steps + 1, n)];
      && |heap| <= |heap''| && heap''[..|heap|] == heap
      && Pushes(g, u, steps, visited, heap''[|heap|..])
      && Cells(heap''[|heap|..]) == Cells(heap'[|heap|..]) + {n}
  {
    var heap'' := heap' + [(steps + 1, n)];
    var pushed, pushed' := heap'[|heap|..], heap''[|heap|..];
    assert pushed' == pushed + [(steps + 1, n)];
    assert heap''[..|heap|] == heap'[..|heap|];
    assert pushed'[..|pushed|] == pushed;
    forall j | 0 <= j < |pushed|
      ensures pushed'[..j] == pushed[..j]
    {
    }
    assert Cells(pushed') == Cells(pushed) + {n} by {
      forall c | c in Cells(pushed')
        ensures c in Cells(pushed) + {n}
      {
        var i :| 0 <= i < |pushed'| && pushed'[i].1 == c;
        if i < |pushed| {
          assert pushed[i].1 == c;
        }
      }
      forall c | c in Cells(pushed)
        ensures c in Cells(pushed')
      {
        var i :| 0 <= i < |pushed| && pushed[i].1 == c;
        assert pushed'[i].1 == c;
      }
      assert pushed'[|pushed|].1 == n;
    }
  }

  /** The heap and visited set grown from heap and visited by pushes from u. */
  ghost predicate Grown(g: Grid, u: Cell, steps: nat, heap: seq<Entry>, visited: set<Cell>,
                        heap': seq<Entry>, visited': set<Cell>)
  {
    && |heap| <= |heap'| && heap'[..|heap|] == heap
    && Pushes(g, u, steps, visited, heap'[|heap|..]) && visited' == visited + Cells(heap'[|heap|..])
  }

  /** The first k neighbours that u can step to are visited. */
  ghost predicate Tried(g: Grid, u: Cell, k: nat, visited: set<Cell>)
    requires k <= 4
  {
    forall j :: 0 <= j < k && Step(g, u, Neighbours(u)[j]) ==> Neighbours(u)[j] in visited
  }

  lemma GrownNone(g: Grid, u: Cell, steps: nat, heap: seq<Entry>, visited: set<Cell>)
    ensures Grown(g, u, steps, heap, visited, heap, visited)
  {
    assert heap[|heap|..] == [];
  }

  /** Growing only adds cells; adding none leaves the heap as it was, and
      adding some leaves fewer cells of the map unvisited. */
  lemma GrownMore(g: Grid, u: Cell, steps: nat, heap: seq<Entry>, visited: set<Cell>,
                  heap': seq<Entry>, visited': set<Cell>)
    requires Grown(g, u, steps, heap, visited, heap', visited') && visited' <= g.Keys
    ensures visited <= visited' && (visited' == visited ==> heap' == heap)
    ensures visited' != visited ==> |g.Keys - visited'| < |g.Keys - visited|
  {
    var pushed := heap'[|heap|..];
    if |pushed| > 0 {
      assert pushed[0].1 in Cells(pushed) && pushed[0].1 !in visited;
      assert pushed[0].1 in visited' - visited;
      assert g.Keys - visited' < g.Keys - visited;
    } else {
      assert heap' == heap'[..|heap|] + pushed;
    }
  }

  /** Pushing the k-th neighbour keeps the loop invariant of `Expand`. */
  lemma ExpandPush(g: Grid, seeds: set<Cell>, end: Cell, heap: seq<Entry>, visited: set<Cell>,
                   done: set<Cell>, steps: nat, u: Cell, k: nat,
                   heap': seq<Entry>, visited': set<Cell>, cost': map<Cell, nat>)
    requires Inv(g, seeds, end, heap', visited', cost', done, steps, {u})
    requires k < 4 && u in visited' && cost'[u] == steps
    requires Tried(g, u, k, visited') && Grown(g, u, steps, heap, visited, heap', visited')
    requires Step(g, u, Neighbours(u)[k]) && Neighbours(u)[k] !in visited'
    ensures var n := Neighbours(u)[k];
      && Inv(g, seeds, end, heap' + [(steps + 1, n)], visited' + {n}, cost'[n := steps + 1], done, steps, {u})
      && Tried(g, u, k + 1, visited' + {n})
      && Grown(g, u, steps, heap, visited, heap' + [(steps + 1, n)], visited' + {n})
  {
    var n := Neighbours(u)[k];
    PushStep(g, seeds, end, heap', visited', cost', done, steps, u, n);
    PushesSnoc(g, u, steps, visited, heap, heap', n);
  }

  /** Tries the four neighbours of the popped cell u, pushing each
      unvisited one on the map that is at most one higher, at one more step;
      afterwards every cell u can step to is visited. */
  method Expand(g: Grid, ghost seeds: set<Cell>, ghost end: Cell, heap: seq<Entry>,
                visited: set<Cell>, ghost cost: map<Cell, nat>, ghost done: set<Cell>,
                steps: nat, u: Cell)
      returns (heap': seq<Entry>, visited': set<Cell>, ghost cost': map<Cell, nat>)
    requires Inv(g, seeds, end, heap, visited, cost, done, steps, {u})
    requires u in visited && cost[u] == steps
    ensures Inv(g, seeds, end, heap', visited', cost', done, steps, {u})
    ensures forall n :: Step(g, u, n) ==> n in visited'
    ensures Grown(g, u, steps, heap, visited, heap', visited')
    ensures visited <= visited' && (visited' == visited ==> heap' == heap)
    ensures visited' != visited ==> |g.Keys - visited'| < |g.Keys - visited|
  {
    heap', visited', cost' := heap, visited, cost;
    GrownNone(g, u, steps, heap, visited);
    var here := g[u];
    var ns := Neighbours(u);
    for k := 0 to 4
      invariant Inv(g, seeds, end, heap', visited', cost', done, steps, {u})
      invariant u in visited' && cost'[u] == steps
      invariant Tried(g, u, k, visited') && Grown(g, u, steps, heap, visited, heap', visited')
    {
      var n := ns[k];
      if n !in visited' && n in g && here + 1 >= g[n] {
        ExpandPush(g, seeds, end, heap, visited, done, steps, u, k, heap', visited', cost');
        heap', visited', cost' := heap' + [(steps + 1, n)], visited' + {n}, cost'[n := steps + 1];
      }
    }
    GrownMore(g, u, steps, heap, visited, heap', visited');
  }

  /** `XMap::smallest_path` from a set of seeds on the map: the fewest steps
      to the end, or an error when the heap runs dry. */
  method Search(g: Grid, seeds: set<Cell>, end: Cell) returns (r: Result<nat>)
    requires seeds <= g.Keys
    ensures Answers(g, seeds, end, r)
  {
    var heap := SeedHeap(seeds);
    var visited := seeds;
    ghost var cost: map<Cell, nat> := map v | v in seeds :: 0;
    ghost var done: set<Cell> := {};
    ghost var lo: nat := 0;
    InitInv(g, seeds, end, heap);
    while heap != []
      invariant Inv(g, seeds, end, heap, visited, cost, done, lo, {})
      decreases |g.Keys - visited|, |heap|
    {
      var i := PopMin(heap);
      var steps, coords := heap[i].0, heap[i].1;
      PopStep(g, seeds, end, heap, visited, cost, done, lo, i);
      heap, lo := Remove(heap, i), steps;
      if coords == end {
        assert Exactly(g, seeds, cost, coords);
        return Ok(steps);
      }
      heap, visited, cost := Expand(g, seeds, end, heap, visited, cost, done, steps, coords);
      CloseStep(g, seeds, end, heap, visited, cost, done, lo, coords);
      done := done + {coords};
    }
    QueuedEmpty(visited, done);
    forall k: nat
      ensures !Reach(g, seeds, k, end)
    {
      if Reach(g, seeds, k, end) {
        Exhausted(g, seeds, visited, done, k, end);
      }
    }
    return Err("No solution found!");
  }

  // Parsing.

  /** The height of a map character: 'S' is an 'a', 'E' a 'z', and any other
      character its own code. */
  function Height(ch: char): (h: nat)
    ensures ch == 'S' ==> h == 'a' as nat
    ensures ch == 'E' ==> h == 'z' as nat
    ensures ch != 'S' && ch != 'E' ==> h == ch as nat
  {
    if ch == 'S' then 97 else if ch == 'E' then 122 else ch as nat
  }

  /** (col, row) is a character of the input lines. */
  predicate InGrid(lines: seq<string>, c: Cell) {
    0 <= c.1 < |lines| && 0 <= c.0 < |lines[c.1]|
  }

  function At(lines: seq<string>, c: Cell): char
    requires InGrid(lines, c)
  {
    lines[c.1][c.0]
  }

  /** a comes before b in reading order. */
  predicate Before(a: Cell, b: Cell) {
    a.1 < b.1 || (a.1 == b.1 && a.0 < b.0)
  }

  /** The grid holds exactly the cells read before b, with their heights. */
  ghost predicate Filled(lines: seq<string>, grid: Grid, b: Cell) {
    && (forall c :: c in grid <==> InGrid(lines, c) && Before(c, b))
    && (forall c :: c in grid ==> InGrid(lines, c) && grid[c] == Height(At(lines, c)))
  }

  ghost predicate MarkedBefore(lines: seq<string>, ch: char, c: Cell, b: Cell) {
    InGrid(lines, c) && At(lines, c) == ch && Before(c, b)
  }

  /** p is the last cell marked ch read before b, or (0, 0) if there is none. */
  ghost predicate LastBefore(lines: seq<string>, ch: char, p: Cell, b: Cell) {
    || (p == (0, 0) && forall c :: !MarkedBefore(lines, ch, c, b))
    || (MarkedBefore(lines, ch, p, b) && forall c :: MarkedBefore(lines, ch, c, b) ==> !Before(p, c))
  }

  /** The parsed map of the input lines: every character a cell, and the start
      and end the last 'S' and 'E' in reading order. */
  ghost predicate Parsed(lines: seq<string>, m: XMap) {
    ReadTo(lines, m.start, m.end, m.grid, (0, |lines|))
  }

  lemma LastNext(lines: seq<string>, ch: char, p: Cell, c: Cell)
    requires InGrid(lines, c) && LastBefore(lines, ch, p, c)
    ensures At(lines, c) == ch ==> LastBefore(lines, ch, c, (c.0 + 1, c.1))
    ensures At(lines, c) != ch ==> LastBefore(lines, ch, p, (c.0 + 1, c.1))
  {
    var c' := (c.0 + 1, c.1);
    forall q
      ensures MarkedBefore(lines, ch, q, c') <==> MarkedBefore(lines, ch, q, c) || (q == c && At(lines, c) == ch)
    {
    }
  }

  lemma LastRow(lines: seq<string>, ch: char, p: Cell, row: nat)
    requires row < |lines| && LastBefore(lines, ch, p, (|lines[row]|, row))
    ensures LastBefore(lines, ch, p, (0, row + 1))
  {
    var b, b' := (|lines[row]|, row), (0, row + 1);
    forall q
      ensures MarkedBefore(lines, ch, q, b') <==> MarkedBefore(lines, ch, q, b)
    {
    }
    if !(p == (0, 0) && forall c :: !MarkedBefore(lines, ch, c, b)) {
      assert MarkedBefore(lines, ch, p, b');
    }
  }

  lemma FilledNext(lines: seq<string>, grid: Grid, c: Cell)
    requires InGrid(lines, c) && Filled(lines, grid, c)
    ensures Filled(lines, grid[c := Height(At(lines, c))], (c.0 + 1, c.1))
  {
  }

  /** The state after reading the cells before b. */
  ghost predicate ReadTo(lines: seq<string>, start: Cell, end: Cell, grid: Grid, b: Cell) {
    Filled(lines, grid, b) && LastBefore(lines, 'S', start, b) && LastBefore(lines, 'E', end, b)
  }

  lemma ReadNext(lines: seq<string>, start: Cell, end: Cell, grid: Grid, c: Cell)
    requires InGrid(lines, c) && ReadTo(lines, start, end, grid, c)
    ensures var ch, c' := At(lines, c), (c.0 + 1, c.1);
      ReadTo(lines, if ch == 'S' then c else start, if ch != 'S' && ch == 'E' then c else end,
             grid[c := Height(ch)], c')
  {
    LastNext(lines, 'S', start, c);
    LastNext(lines, 'E', end, c);
    FilledNext(lines, grid, c);
  }

  lemma FilledRow(lines: seq<string>, grid: Grid, row: nat)
    requires row < |lines| && Filled(lines, grid, (|lines[row]|, row))
    ensures Filled(lines, grid, (0, row + 1))
  {
  }

  /** `XMap::from_str`: reads the lines left to right, top to bottom; 'S' and
      'E' set the start and end and every character becomes a cell. */
  method FromStr(st: string) returns (m: XMap)
    ensures Parsed(Text.Split(st, '\n'), m)
  {
    var lines := Text.Split(st, '\n');
    var start, end, grid: Grid := (0, 0), (0, 0), map[];
    for row := 0 to |lines|
      invariant ReadTo(lines, start, end, grid, (0, row))
    {
      var line := lines[row];
      for col := 0 to |line|
        invariant ReadTo(lines, start, end, grid, (col, row))
      {
        var ch := line[col];
        ReadNext(lines, start, end, grid, (col, row));
        if ch == 'S' {
          start := (col, row);
        } else if ch == 'E' {
          end := (col, row);
        }
        grid := grid[(col, row) := Height(ch)];
      }
      LastRow(lines, 'S', start, row);
      LastRow(lines, 'E', end, row);
      FilledRow(lines, grid, row);
    }
    m := XMap(start, end, grid);
  }

  // The solvers.

  /** The cells the search starts from: the start alone, or in part two every
      cell of height 'a'. */
  function Seeds(m: XMap, part2: bool): (s: set<Cell>)
    ensures part2 ==> forall c :: c in s <==> c in m.grid && m.grid[c] == 'a' as nat
    ensures !part2 ==> s == {m.start}
  {
    if part2 then set c | c in m.grid && m.grid[c] == 97 else {m.start}
  }

  /** `XMap::smallest_path`. In part one a start off the map is answered at
      once when it is the end, and is an error otherwise (the height lookup
      fails). */
  method SmallestPath(m: XMap, part2: bool) returns (r: Result<nat>)
    ensures Answers(m.grid, Seeds(m, part2), m.end, r)
  {
    var seeds := Seeds(m, part2);
    if !part2 && m.start !in m.grid {
      forall k: nat
        ensures Reach(m.grid, seeds, k, m.end) <==> m.end == m.start
      {
        IsolatedSeed(m.grid, seeds, m.start, k, m.end);
      }
      if m.start == m.end {
        return Ok(0);
      }
      return Err("The start is not on the map");
    }
    r := Search(m.grid, seeds, m.end);
  }

  /** `solve_part_one`: the fewest steps from the start to the end. */
  method SolvePartOne(data: string) returns (r: Result<nat>)
    ensures exists m :: Parsed(Text.Split(data, '\n'), m) && Answers(m.grid, {m.start}, m.end, r)
  {
    var m := FromStr(data);
    r := SmallestPath(m, false);
  }

  /** `solve_part_two`: the fewest steps from any cell of height 'a'. */
  method SolvePartTwo(data: string) returns (r: Result<nat>)
    ensures exists m :: Parsed(Text.Split(data, '\n'), m) && Answers(m.grid, Seeds(m, true), m.end, r)
  {
    var m := FromStr(data);
    r := SmallestPath(m, true);
  }
}
