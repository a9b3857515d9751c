/** Day 14: sand poured from (0, 500) into a cave of rock paths. Each grain
    falls straight down, else down-left, else down-right, and rests when all
    three are blocked. The program remembers, per cell, which of the three
    moves it has already found blocked, so later grains skip them. */
module Day14 {
  import Text
  import opened Wrappers

  /** A point as (y, x): row first, the way the program stores it. */
  type Point = (int, int)

  /** Where every grain enters. */
  const Source: Point := (0, 500)

  // Rock paths.

  function ParseNumber(s: string): (r: Result<int>)
    ensures r.Ok? <==> Text.ParseInt(s).Some?
    ensures r.Ok? ==> r.value == Text.ParseInt(s).value
  {
    match Text.ParseInt(s)
    case Some(v) => Ok(v)
    case None => Err("Not a number")
  }

  /** A node "x,y", stored as (y, x); numbers past the second are ignored. */
  function ParseNode(s: string): (r: Result<Point>)
  {
    match MapOk(Text.Split(s, ','), ParseNumber)
    case Ok(nums) => if |nums| >= 2 then Ok((nums[1], nums[0])) else Err("Missing coordinate")
    case Err(e) => Err(e)
  }

  /** A node written as the input writes it reads back as (y, x). */
  lemma ParseNodeShown(x: int, y: int)
    ensures ParseNode(Text.ShowInt(x) + "," + Text.ShowInt(y)) == Ok((y, x))
  {
    var a, b := Text.ShowInt(x), Text.ShowInt(y);
    SplitShown(x, y);
    Text.ParseShow(x);
    Text.ParseShow(y);
    var r := MapOk([a, b], ParseNumber);
    assert r.Ok?;
    assert r.value == [x, y];
  }

  /** The comma of a node written out separates its two numbers. */
  lemma SplitShown(x: int, y: int)
    ensures Text.Split(Text.ShowInt(x) + "," + Text.ShowInt(y), ',') == [Text.ShowInt(x), Text.ShowInt(y)]
  {
    var a, b := Text.ShowInt(x), Text.ShowInt(y);
    ShowIntNoComma(x);
    ShowIntNoComma(y);
    assert Text.Join([b], ',') == b;
    assert Text.Join([a, b], ',') == a + "," + b;
    Text.SplitJoin([a, b], ',');
  }

  lemma ShowIntNoComma(v: int)
    ensures ',' !in Text.ShowInt(v)
  {
    var digits := Text.ShowNat(if v < 0 then -v else v);
    Text.DigitsAvoid(digits, ',');
  }

  function ParsePath(line: string): Result<seq<Point>> {
    MapOk(Text.SplitOn(line, " -> "), ParseNode)
  }

  /** The paths of the trimmed input, one per line. */
  function ParsePaths(data: string): Result<seq<seq<Point>>> {
    MapOk(Text.Split(Text.Trim(data), '\n'), ParsePath)
  }

  function Min(a: int, b: int): int { if a <= b then a else b }
  function Max(a: int, b: int): int { if a <= b then b else a }

  /** The points between two consecutive nodes, both ends included: along the
      row when they share one, otherwise down the column of the first. */
  function Segment(a: Point, b: Point): set<Point> {
    if a.0 == b.0 then set v | Min(a.1, b.1) <= v <= Max(a.1, b.1) :: (a.0, v)
    else set v | Min(a.0, b.0) <= v <= Max(a.0, b.0) :: (v, a.1)
  }

  /** Both nodes of a horizontal or vertical segment are rock, and drawing
      it from either end gives the same points; of a slanted one only the
      first node is sure to be rock. */
  lemma SegmentEnds(a: Point, b: Point)
    ensures a in Segment(a, b)
    ensures b in Segment(a, b) <==> a.0 == b.0 || a.1 == b.1
    ensures a.0 == b.0 || a.1 == b.1 ==> Segment(a, b) == Segment(b, a)
  {
    if a.0 == b.0 {
      assert (a.0, a.1) == a && (a.0, b.1) == b;
    } else {
      assert (a.0, a.1) == a;
      if a.1 == b.1 {
        assert (b.0, a.1) == b;
      }
    }
  }

  /** The rock of one path: the union of its segments. */
  function PathPoints(nodes: seq<Point>): set<Point>
    decreases |nodes|
  {
    if |nodes| < 2 then {} else Segment(nodes[0], nodes[1]) + PathPoints(nodes[1..])
  }

  /** `trace_paths` on parsed paths: the rock of every path. */
  function Trace(paths: seq<seq<Point>>): set<Point>
    decreases |paths|
  {
    if |paths| == 0 then {} else PathPoints(paths[0]) + Trace(paths[1..])
  }

  ghost predicate InSegment(paths: seq<seq<Point>>, p: Point, i: int, j: int) {
    0 <= i < |paths| && 0 <= j < |paths[i]| - 1 && p in Segment(paths[i][j], paths[i][j + 1])
  }

  lemma {:induction false} PathPointsExact(nodes: seq<Point>, p: Point)
    ensures p in PathPoints(nodes) <==> exists j :: 0 <= j < |nodes| - 1 && p in Segment(nodes[j], nodes[j + 1])
    decreases |nodes|
  {
    if |nodes| >= 2 {
      PathPointsExact(nodes[1..], p);
      if p in PathPoints(nodes[1..]) {
        var j :| 0 <= j < |nodes| - 2 && p in Segment(nodes[1..][j], nodes[1..][j + 1]);
        assert p in Segment(nodes[j + 1], nodes[j + 2]);
      }
      forall j | 1 <= j < |nodes| - 1 && p in Segment(nodes[j], nodes[j + 1])
        ensures p in PathPoints(nodes[1..])
      {
        assert nodes[1..][j - 1] == nodes[j] && nodes[1..][j] == nodes[j + 1];
      }
    }
  }

  /** The rock is exactly the points of the segments between consecutive
      nodes of some path. */
  lemma {:induction false} TraceExact(paths: seq<seq<Point>>, p: Point)
    ensures p in Trace(paths) <==> exists i, j :: InSegment(paths, p, i, j)
    decreases |paths|
  {
    if |paths| > 0 {
      TraceExact(paths[1..], p);
      PathPointsExact(paths[0], p);
      if p in PathPoints(paths[0]) {
        var j :| 0 <= j < |paths[0]| - 1 && p in Segment(paths[0][j], paths[0][j + 1]);
        assert InSegment(paths, p, 0, j);
      } else if p in Trace(paths[1..]) {
        var i, j :| InSegment(paths[1..], p, i, j);
        assert InSegment(paths, p, i + 1, j);
      }
      if exists i, j :: InSegment(paths, p, i, j) {
        var i, j :| InSegment(paths, p, i, j);
        if i > 0 {
          assert InSegment(paths[1..], p, i - 1, j);
        }
      }
    }
  }

  /** `trace_paths`: the rock of the input, or the parse error that makes
      the program give up. */
  function TracePaths(data: string): Result<set<Point>> {
    match ParsePaths(data)
    case Ok(paths) => Ok(Trace(paths))
    case Err(e) => Err(e)
  }

  // One grain of sand.

  /** What the program knows of a cell: nothing yet (fall straight down),
      down is blocked (try down-left), down-left is blocked too (try
      down-right), all three are blocked (come to rest), or a grain rests
      here. */
  datatype SandState = Still | GoDown | GoLeft | GoRight | GoStill

  /** How far a state has advanced; a resting grain is the last stage. */
  function Rank(s: SandState): nat {
    match s
    case GoDown => 0
    case GoLeft => 1
    case GoRight => 2
    case GoStill => 3
    case Still => 4
  }

  /** A cell the map has never seen is `GoDown`. */
  function Get(states: map<Point, SandState>, p: Point): SandState {
    if p in states then states[p] else GoDown
  }

  function Down(p: Point): Point { (p.0 + 1, p.1) }
  function DownLeft(p: Point): Point { (p.0 + 1, p.1 - 1) }
  function DownRight(p: Point): Point { (p.0 + 1, p.1 + 1) }

  /** The cells where grains rest. */
  function Resting(states: map<Point, SandState>): set<Point> {
    set p | p in states && states[p] == Still
  }

  /** A grain cannot enter rock or a resting grain. */
  predicate Blocked(grid: set<Point>, rest: set<Point>, p: Point) {
    p in grid || p in rest
  }

  /** Where a grain starting at p stops, with `true` when it reaches the
      floor row first: the plain rule, without the program's memory. */
  function Settle(grid: set<Point>, rest: set<Point>, floor: int, p: Point): (Point, bool)
    decreases floor - p.0
  {
    if p.0 >= floor then (p, true)
    else if !Blocked(grid, rest, Down(p)) then Settle(grid, rest, floor, Down(p))
    else if !Blocked(grid, rest, DownLeft(p)) then Settle(grid, rest, floor, DownLeft(p))
    else if !Blocked(grid, rest, DownRight(p)) then Settle(grid, rest, floor, DownRight(p))
    else (p, false)
  }

  /** A grain only moves down, at most one column per row, never into a
      resting grain; when it rests, all three cells below are blocked. */
  lemma {:induction false} SettleWithin(grid: set<Point>, rest: set<Point>, floor: int, p: Point)
    ensures var (q, below) := Settle(grid, rest, floor, p);
      && p.0 <= q.0 && p.1 - (q.0 - p.0) <= q.1 <= p.1 + (q.0 - p.0)
      && (below <==> q.0 >= floor)
      && (q == p || q !in rest)
      && (!below ==> Blocked(grid, rest, Down(q)) && Blocked(grid, rest, DownLeft(q))
                     && Blocked(grid, rest, DownRight(q)))
    decreases floor - p.0
  {
    if p.0 < floor {
      SettleWithin(grid, rest, floor, Down(p));
      SettleWithin(grid, rest, floor, DownLeft(p));
      SettleWithin(grid, rest, floor, DownRight(p));
    }
  }

  /** A cell's state is right about what it records as blocked. */
  ghost predicate Knows(grid: set<Point>, states: map<Point, SandState>, p: Point) {
    var k, rest := Rank(Get(states, p)), Resting(states);
    && (k >= 1 ==> Blocked(grid, rest, Down(p)))
    && (k >= 2 ==> Blocked(grid, rest, DownLeft(p)))
    && (k >= 3 ==> Blocked(grid, rest, DownRight(p)))
  }

  ghost predicate Consistent(grid: set<Point>, states: map<Point, SandState>) {
    forall p :: Knows(grid, states, p)
  }

  ghost predicate AdvancedAt(states: map<Point, SandState>, states': map<Point, SandState>, p: Point) {
    Rank(Get(states, p)) <= Rank(Get(states', p))
  }

  /** No cell's state went back. */
  ghost predicate Advanced(states: map<Point, SandState>, states': map<Point, SandState>) {
    forall p :: AdvancedAt(states, states', p)
  }

  lemma AdvancedTrans(s0: map<Point, SandState>, s1: map<Point, SandState>, s2: map<Point, SandState>)
    requires Advanced(s0, s1) && Advanced(s1, s2)
    ensures Advanced(s0, s2)
  {
    forall p
      ensures AdvancedAt(s0, s2, p)
    {
      assert AdvancedAt(s0, s1, p) && AdvancedAt(s1, s2, p);
    }
  }

  /** Moving a cell that holds no grain on to a later state that is still
      not a grain, with the moves it now records blocked indeed. */
  lemma Mark(grid: set<Point>, states: map<Point, SandState>, c: Point, s: SandState)
    requires Consistent(grid, states)
    requires Get(states, c) != Still && s != Still && Rank(Get(states, c)) <= Rank(s)
    requires Rank(s) >= 1 ==> Blocked(grid, Resting(states), Down(c))
    requires Rank(s) >= 2 ==> Blocked(grid, Resting(states), DownLeft(c))
    requires Rank(s) >= 3 ==> Blocked(grid, Resting(states), DownRight(c))
    ensures Resting(states[c := s]) == Resting(states)
    ensures Consistent(grid, states[c := s]) && Advanced(states, states[c := s])
  {
    var states' := states[c := s];
    assert Resting(states') == Resting(states);
    forall p
      ensures Knows(grid, states', p) && AdvancedAt(states, states', p)
    {
      assert Knows(grid, states, p);
    }
  }

  /** A grain comes to rest at c, whose three cells below are blocked. */
  lemma Rest(grid: set<Point>, states: map<Point, SandState>, c: Point)
    requires Consistent(grid, states)
    requires Blocked(grid, Resting(states), Down(c)) && Blocked(grid, Resting(states), DownLeft(c))
    requires Blocked(grid, Resting(states), DownRight(c))
    ensures Resting(states[c := Still]) == Resting(states) + {c}
    ensures Consistent(grid, states[c := Still]) && Advanced(states, states[c := Still])
  {
    var states' := states[c := Still];
    assert Resting(states') == Resting(states) + {c};
    forall p
      ensures Knows(grid, states', p) && AdvancedAt(states, states', p)
    {
      assert Knows(grid, states, p);
    }
  }

  /** `drop_sand`: one grain from the source, following and extending the
      recorded states, until it rests or reaches the floor row. Finding a
      grain already resting at the source is the program's `unreachable!()`. */
  method DropSand(floor: int, grid: set<Point>, states: map<Point, SandState>)
      returns (r: Result<(Point, bool)>, states': map<Point, SandState>)
    requires Consistent(grid, states)
    ensures r.Err? <==> 0 < floor && Get(states, Source) == Still
    ensures r.Err? ==> states' == states
    ensures r.Ok? ==> r.value == Settle(grid, Resting(states), floor, Source)
    ensures r.Ok? ==> Resting(states') == Resting(states) + (if r.value.1 then {} else {r.value.0})
    ensures Consistent(grid, states') && Advanced(states, states')
  {
    states' := states;
    ghost var rest := Resting(states);
    var cods := Source;
    forall p
      ensures AdvancedAt(states, states', p)
    {
    }
    while cods.0 < floor
      invariant Consistent(grid, states') && Advanced(states, states') && Resting(states') == rest
      invariant Settle(grid, rest, floor, cods) == Settle(grid, rest, floor, Source)
      invariant Get(states, Source) == Still || Get(states', cods) == Still ==> cods == Source && states' == states
      decreases floor - cods.0, 4 - Rank(Get(states', cods))
    {
      assert Knows(grid, states', cods);
      match Get(states', cods)
      case GoDown =>
        var down := Down(cods);
        if down in grid || Get(states', down) == Still {
          Mark(grid, states', cods, GoLeft);
          AdvancedTrans(states, states', states'[cods := GoLeft]);
          states' := states'[cods := GoLeft];
        } else {
          Mark(grid, states', cods, GoDown);
          AdvancedTrans(states, states', states'[cods := GoDown]);
          states' := states'[cods := GoDown];
          cods := down;
        }
      case GoLeft =>
        var left := DownLeft(cods);
        if left in grid || Get(states', left) == Still {
          Mark(grid, states', cods, GoRight);
          AdvancedTrans(states, states', states'[cods := GoRight]);
          states' := states'[cods := GoRight];
        } else {
          cods := left;
        }
      case GoRight =>
        var right := DownRight(cods);
        if right in grid || Get(states', right) == Still {
          Mark(grid, states', cods, GoStill);
          AdvancedTrans(states, states', states'[cods := GoStill]);
          states' := states'[cods := GoStill];
        } else {
          cods := right;
        }
      case GoStill =>
        Rest(grid, states', cods);
        AdvancedTrans(states, states', states'[cods := Still]);
        states' := states'[cods := Still];
        return Ok((cods, false)), states';
      case Still =>
        return Err("Sand at rest where a grain is falling"), states';
    }
    return Ok((cods, true)), states';
  }

  // Pouring grain after grain.

  /** The resting grains after n grains, each settling on those before it;
      a grain that reaches the floor row adds nothing. */
  function Poured(grid: set<Point>, floor: int, n: nat): set<Point> {
    if n == 0 then {}
    else
      var rest := Poured(grid, floor, n - 1);
      var (p, below) := Settle(grid, rest, floor, Source);
      if below then rest else rest + {p}
  }

  /** The (n+1)-th grain, poured on the first n. */
  function Grain(grid: set<Point>, floor: int, n: nat): (Point, bool) {
    Settle(grid, Poured(grid, floor, n), floor, Source)
  }

  /** Grain n rests somewhere. */
  ghost predicate Rests(grid: set<Point>, floor: int, k: nat) {
    !Grain(grid, floor, k).1
  }

  /** Grain n is the first to reach the floor row: n grains rest before it. */
  ghost predicate FirstBelow(grid: set<Point>, floor: int, n: nat) {
    Grain(grid, floor, n).1 && forall k :: 0 <= k < n ==> Rests(grid, floor, k)
  }

  /** Grain k stops somewhere other than the source. */
  ghost predicate Away(grid: set<Point>, floor: int, k: nat) {
    Grain(grid, floor, k).0 != Source
  }

  /** The n-th grain (counting from one) is the first to stop at the source. */
  ghost predicate FirstAtSource(grid: set<Point>, floor: int, n: nat) {
    n >= 1 && Grain(grid, floor, n - 1).0 == Source && forall k :: 0 <= k < n - 1 ==> Away(grid, floor, k)
  }

  /** The grain poured on the first n, and the resting grains after it. */
  lemma PourNext(grid: set<Point>, floor: int, n: nat, g: (Point, bool))
    requires g == Settle(grid, Poured(grid, floor, n), floor, Source)
    ensures Grain(grid, floor, n) == g
    ensures Poured(grid, floor, n + 1) == Poured(grid, floor, n) + (if g.1 then {} else {g.0})
  {
  }

  /** The cells a grain can reach before the floor row. */
  ghost function Triangle(floor: int): set<Point> {
    set y: int, x: int | 0 <= y < floor && 500 - y <= x <= 500 + y :: (y, x)
  }

  /** The cells of the triangle no grain rests on yet. */
  ghost function Free(floor: int, rest: set<Point>): nat {
    |Triangle(floor) - rest|
  }

  /** A grain from the source that rests, not at the source itself, rests
      inside the triangle on a cell not yet taken. */
  lemma NewResting(grid: set<Point>, rest: set<Point>, floor: int)
    requires Source !in rest && !Settle(grid, rest, floor, Source).1
    ensures var q := Settle(grid, rest, floor, Source).0;
      q in Triangle(floor) && q !in rest && Free(floor, rest + {q}) < Free(floor, rest)
  {
    SettleWithin(grid, rest, floor, Source);
    var q := Settle(grid, rest, floor, Source).0;
    assert q in Triangle(floor);
    assert Triangle(floor) - (rest + {q}) == (Triangle(floor) - rest) - {q};
  }

  /** `y` is the deepest row holding rock. */
  ghost predicate Deepest(blocks: set<Point>, y: int) {
    (exists p :: p in blocks && p.0 == y) && forall p :: p in blocks ==> p.0 <= y
  }

  /** The deepest rock row, `blocks.iter().map(y).max()`. */
  method MaxRow(blocks: set<Point>) returns (y: int)
    requires blocks != {}
    ensures Deepest(blocks, y)
  {
    var p :| p in blocks;
    ghost var w := p;
    y := p.0;
    var rest := blocks - {p};
    while rest != {}
      invariant rest <= blocks && w in blocks && w.0 == y
      invariant forall q :: q in blocks - rest ==> q.0 <= y
      decreases |rest|
    {
      var q :| q in rest;
      if q.0 > y {
        y, w := q.0, q;
      }
      rest := rest - {q};
    }
    assert blocks - rest == blocks;
  }

  /** The floor row of part two: (y, x) for lo <= x <= hi. */
  ghost function FloorRow(y: int, lo: int, hi: int): set<Point> {
    set x | lo <= x <= hi :: (y, x)
  }

  /** Inserts the floor row into the rock. */
  method AddFloor(blocks: set<Point>, y: int, lo: int, hi: int) returns (b: set<Point>)
    ensures b == blocks + FloorRow(y, lo, hi)
  {
    b := blocks;
    var x := lo;
    while x <= hi
      invariant b == blocks + FloorRow(y, lo, x - 1)
      invariant x == lo || x <= hi + 1
      decreases hi - x
    {
      assert FloorRow(y, lo, x) == FloorRow(y, lo, x - 1) + {(y, x)};
      b := b + {(y, x)};
      x := x + 1;
    }
    if x == lo {
      assert FloorRow(y, lo, x - 1) == {} == FloorRow(y, lo, hi);
    }
  }

  /** Row `floor` of the grid is rock from one column left of the
      triangle to one column right of it. */
  ghost predicate FloorUnder(grid: set<Point>, floor: int) {
    forall x :: 500 - floor - 1 <= x <= 500 + floor + 1 ==> (floor, x) in grid
  }

  /** The rock with the floor row of `solve_part_two`, two rows under the
      deepest rock row y, reaching one column past the triangle each side. */
  ghost function WithFloor(rock: set<Point>, y: int): set<Point> {
    rock + FloorRow(y + 2, 500 - (y + 3), 500 + y + 3)
  }

  /** A floor row over [lo, hi] lies under the whole triangle when it
      reaches one column past it on each side. */
  lemma FloorRowUnder(rock: set<Point>, floor: int, lo: int, hi: int)
    requires lo <= 500 - floor - 1 && 500 + floor + 1 <= hi
    ensures FloorUnder(rock + FloorRow(floor, lo, hi), floor)
  {
    forall x | lo <= x <= hi
      ensures (floor, x) in FloorRow(floor, lo, hi)
    {
    }
  }

  /** With the floor row wide enough under the triangle, every grain that
      starts inside the triangle rests. */
  lemma {:induction false} FloorCatches(grid: set<Point>, rest: set<Point>, floor: int, p: Point)
    requires FloorUnder(grid, floor)
    requires 0 <= p.0 < floor && 500 - p.0 <= p.1 <= 500 + p.0
    ensures !Settle(grid, rest, floor, p).1
    decreases floor - p.0
  {
    if p.0 + 1 < floor {
      FloorCatches(grid, rest, floor, Down(p));
      FloorCatches(grid, rest, floor, DownLeft(p));
      FloorCatches(grid, rest, floor, DownRight(p));
    } else {
      assert Down(p) in grid && DownLeft(p) in grid && DownRight(p) in grid;
    }
  }

  /** Over such a floor row, every grain poured rests, unless the source is
      itself on or below the floor row. */
  lemma GrainCaught(grid: set<Point>, floor: int, n: nat)
    requires FloorUnder(grid, floor)
    ensures Rests(grid, floor, n) || Grain(grid, floor, n).0 == Source
  {
    if 0 < floor {
      FloorCatches(grid, Poured(grid, floor, n), floor, Source);
    }
  }

  /** `drop_sand` as the (n+1)-th grain poured on the first n: where it
      stops, the resting grains after it, and, when it rests, one cell fewer
      of the triangle left free. */
  method Pour(blocks: set<Point>, floor: int, states: map<Point, SandState>, ghost n: nat)
      returns (d: Result<(Point, bool)>, states': map<Point, SandState>)
    requires Consistent(blocks, states) && Resting(states) == Poured(blocks, floor, n)
    ensures d.Err? <==> 0 < floor && Source in Poured(blocks, floor, n)
    ensures d.Ok? ==> d.value == Grain(blocks, floor, n)
    ensures d.Ok? ==> Consistent(blocks, states') && Resting(states') == Poured(blocks, floor, n + 1)
    ensures d.Ok? && !d.value.1 ==> Free(floor, Resting(states')) < Free(floor, Resting(states))
  {
    d, states' := DropSand(floor, blocks, states);
    if d.Ok? {
      PourNext(blocks, floor, n, d.value);
      if !d.value.1 {
        NewResting(blocks, Resting(states), floor);
      }
    }
  }

  /** The loop of `solve_part_one`: grains are poured until one reaches the
      floor row; the answer is how many came to rest before it. A grain found
      resting at the source is the program's `unreachable!()`. */
  method PourUntilBelow(blocks: set<Point>, floor: int) returns (r: Result<nat>)
    ensures r.Ok? ==> FirstBelow(blocks, floor, r.value)
    ensures r.Err? ==> exists n :: Source in Poured(blocks, floor, n)
  {
    var states: map<Point, SandState> := map[];
    var n: nat := 0;
    assert Consistent(blocks, states) by {
      forall p
        ensures Knows(blocks, states, p)
      {
      }
    }
    while true
      invariant Consistent(blocks, states) && Resting(states) == Poured(blocks, floor, n)
      invariant forall k :: 0 <= k < n ==> Rests(blocks, floor, k)
      decreases Free(floor, Resting(states))
    {
      var d, states' := Pour(blocks, floor, states, n);
      if d.Err? {
        return Err(d.reason);
      }
      if d.value.1 {
        return Ok(n);
      }
      RestsSnoc(blocks, floor, n);
      states, n := states', n + 1;
    }
  }

  /** `solve_part_one`: the grains that rest before the first one passes the
      deepest rock row. */
  method SolvePartOne(data: string) returns (r: Result<nat>)
    ensures r.Err? ==> || TracePaths(data).Err? || TracePaths(data) == Ok({})
                       || exists y, n :: Deepest(TracePaths(data).value, y) && Source in Poured(TracePaths(data).value, y, n)
    ensures r.Ok? ==> TracePaths(data).Ok?
    ensures r.Ok? ==> exists y :: Deepest(TracePaths(data).value, y) && FirstBelow(TracePaths(data).value, y, r.value)
  {
    var t := TracePaths(data);
    if t.Err? {
      return Err(t.reason);
    }
    if t.value == {} {
      return Err("Floor Y");
    }
    var floor := MaxRow(t.value);
    r := PourUntilBelow(t.value, floor);
  }

  lemma RestsSnoc(grid: set<Point>, floor: int, n: nat)
    requires forall k :: 0 <= k < n ==> Rests(grid, floor, k)
    requires Rests(grid, floor, n)
    ensures forall k :: 0 <= k < n + 1 ==> Rests(grid, floor, k)
  {
  }

  /** The loop of `solve_part_two`: with a floor row under the triangle,
      grains are poured until one rests at the source; the answer counts it. */
  method PourUntilSource(blocks: set<Point>, floor: int) returns (n: nat)
    requires FloorUnder(blocks, floor)
    ensures FirstAtSource(blocks, floor, n)
  {
    var states: map<Point, SandState> := map[];
    var k: nat := 0;
    assert Consistent(blocks, states) by {
      forall p
        ensures Knows(blocks, states, p)
      {
      }
    }
    while true
      invariant Consistent(blocks, states) && Resting(states) == Poured(blocks, floor, k)
      invariant Source !in Resting(states)
      invariant forall j :: 0 <= j < k ==> Away(blocks, floor, j)
      decreases Free(floor, Resting(states))
    {
      var d, states' := Pour(blocks, floor, states, k);
      var cods := d.value.0;
      if cods == Source {
        return k + 1;
      }
      AwaySnoc(blocks, floor, k);
      GrainCaught(blocks, floor, k);
      states, k := states', k + 1;
    }
  }

  /** `solve_part_two`: a floor two rows under the deepest rock, wide enough
      to catch every grain, and the count of grains until one rests at the
      source. */
  method SolvePartTwo(data: string) returns (r: Result<nat>)
    ensures r.Err? ==> TracePaths(data).Err? || TracePaths(data) == Ok({})
    ensures r.Ok? ==> TracePaths(data).Ok?
    ensures r.Ok? ==> exists y :: var rock := TracePaths(data).value;
      Deepest(rock, y) && FirstAtSource(WithFloor(rock, y), y + 2, r.value)
  {
    var t := TracePaths(data);
    if t.Err? {
      return Err(t.reason);
    }
    if t.value == {} {
      return Err("Floor Y");
    }
    var floorY := MaxRow(t.value);
    var n := PourWithFloor(t.value, floorY);
    return Ok(n);
  }

  /** The rest of `solve_part_two` once the deepest rock row y is known: the
      floor row is added and grains are poured until one rests at the source. */
  method PourWithFloor(rock: set<Point>, y: int) returns (n: nat)
    ensures FirstAtSource(WithFloor(rock, y), y + 2, n)
  {
    var blocks := AddFloor(rock, y + 2, 500 - (y + 3), 500 + y + 3);
    assert blocks == WithFloor(rock, y);
    FloorRowUnder(rock, y + 2, 500 - (y + 3), 500 + y + 3);
    n := PourUntilSource(blocks, y + 2);
  }

  lemma AwaySnoc(grid: set<Point>, floor: int, n: nat)
    requires forall k :: 0 <= k < n ==> Away(grid, floor, k)
    requires Away(grid, floor, n)
    ensures forall k :: 0 <= k < n + 1 ==> Away(grid, floor, k)
  {
  }
}
