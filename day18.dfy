/** Day 18: the surface of a lava droplet made of unit cubes. Part one counts
    every cube face not shared with another cube; part two floods the air
    around the droplet inside its bounding box grown by one and counts the
    faces that air touches. */
module Day18 {
  import opened Wrappers
  import Text

  /** A unit cube, by its integer coordinates. */
  datatype Cube = Cube(x: int, y: int, z: int)

  /** The six face directions, in the order both parts try them. */
  function Offset(i: nat): Cube
    requires i < 6
  {
    if i == 0 then Cube(-1, 0, 0)
    else if i == 1 then Cube(1, 0, 0)
    else if i == 2 then Cube(0, -1, 0)
    else if i == 3 then Cube(0, 1, 0)
    else if i == 4 then Cube(0, 0, -1)
    else Cube(0, 0, 1)
  }

  /** The cube across face `i` of `c`. */
  function Side(c: Cube, i: nat): Cube
    requires i < 6
  {
    var o := Offset(i);
    Cube(c.x + o.x, c.y + o.y, c.z + o.z)
  }

  function Abs(v: int): nat {
    if v < 0 then -v else v
  }

  /** Two cubes share a face: they are one apart along exactly one axis. */
  predicate Adjacent(a: Cube, b: Cube) {
    Abs(a.x - b.x) + Abs(a.y - b.y) + Abs(a.z - b.z) == 1
  }

  /** The six directions reach exactly the face-adjacent cubes. */
  lemma AdjacentSides(a: Cube, b: Cube)
    ensures Adjacent(a, b) <==> exists i :: 0 <= i < 6 && Side(a, i) == b
  {
    if Adjacent(a, b) {
      var i := AdjacentSide(a, b);
    }
  }

  /** The direction in which an adjacent cube lies. */
  lemma AdjacentSide(a: Cube, b: Cube) returns (i: nat)
    requires Adjacent(a, b)
    ensures i < 6 && Side(a, i) == b
  {
    if b.x < a.x {
      i := 0;
    } else if b.x > a.x {
      i := 1;
    } else if b.y < a.y {
      i := 2;
    } else if b.y > a.y {
      i := 3;
    } else if b.z < a.z {
      i := 4;
    } else {
      i := 5;
    }
  }

  /** Different directions lead to different cubes. */
  lemma SidesDistinct(c: Cube, i: nat, j: nat)
    requires i < 6 && j < 6 && i != j
    ensures Side(c, i) != Side(c, j)
  {
  }

  // ---------------------------------------------------------------- faces

  /** The faces `(c, i)` of cubes of `r` whose neighbour across `i` is in
      `d`. */
  ghost function Faces(r: set<Cube>, d: set<Cube>): set<(Cube, nat)> {
    set c, i | c in r && 0 <= i < 6 && Side(c, i) in d :: (c, i)
  }

  /** The faces of `c` in the first `j` directions whose neighbour is in
      `d`. */
  ghost function FacesOf(c: Cube, d: set<Cube>, j: nat): set<(Cube, nat)>
    requires j <= 6
  {
    set i | 0 <= i < j && Side(c, i) in d :: (c, i)
  }

  /** One more direction adds its face when the neighbour there is in `d`. */
  lemma FacesOfNext(c: Cube, d: set<Cube>, j: nat)
    requires j < 6
    ensures |FacesOf(c, d, j + 1)| == |FacesOf(c, d, j)| + if Side(c, j) in d then 1 else 0
  {
    var extra: set<(Cube, nat)> := if Side(c, j) in d then {(c, j)} else {};
    forall f | f in FacesOf(c, d, j + 1)
      ensures f in FacesOf(c, d, j) + extra
    {
    }
    assert FacesOf(c, d, j + 1) == FacesOf(c, d, j) + extra;
    assert (c, j) !in FacesOf(c, d, j);
  }

  /** A cube not yet in `r` adds exactly its own touching faces. */
  lemma FacesAdd(r: set<Cube>, c: Cube, d: set<Cube>)
    requires c !in r
    ensures |Faces(r + {c}, d)| == |Faces(r, d)| + |FacesOf(c, d, 6)|
  {
    assert Faces(r + {c}, d) == Faces(r, d) + FacesOf(c, d, 6);
    assert Faces(r, d) !! FacesOf(c, d, 6);
  }

  /** The pairs of a cube of `r` and a face-adjacent cube of `d`. */
  ghost function Touching(r: set<Cube>, d: set<Cube>): set<(Cube, Cube)> {
    set a, b | a in r && b in d && Adjacent(a, b) :: (a, b)
  }

  /** The cubes of `d` adjacent to `c` across the first `j` directions. */
  ghost function TouchingOf(c: Cube, d: set<Cube>, j: nat): set<(Cube, Cube)>
    requires j <= 6
  {
    set i | 0 <= i < j && Side(c, i) in d :: (c, Side(c, i))
  }

  lemma TouchingOfNext(c: Cube, d: set<Cube>, j: nat)
    requires j < 6
    ensures |TouchingOf(c, d, j + 1)| == |TouchingOf(c, d, j)| + if Side(c, j) in d then 1 else 0
  {
    if Side(c, j) in d {
      forall i | 0 <= i < j
        ensures Side(c, i) != Side(c, j)
      {
        SidesDistinct(c, i, j);
      }
      assert TouchingOf(c, d, j + 1) == TouchingOf(c, d, j) + {(c, Side(c, j))};
    } else {
      assert TouchingOf(c, d, j + 1) == TouchingOf(c, d, j);
    }
  }

  /** Counting faces and counting adjacent cubes agree for one cube. */
  lemma {:induction false} FacesOfTouching(c: Cube, d: set<Cube>, j: nat)
    requires j <= 6
    ensures |FacesOf(c, d, j)| == |TouchingOf(c, d, j)|
    decreases j
  {
    if j > 0 {
      var k := j - 1;
      FacesOfTouching(c, d, k);
      FacesOfNext(c, d, k);
      TouchingOfNext(c, d, k);
    } else {
      assert FacesOf(c, d, j) == {};
      assert TouchingOf(c, d, j) == {};
    }
  }

  /** The touching pairs of one cube are those reached in the six
      directions. */
  lemma TouchingOfAll(c: Cube, d: set<Cube>)
    ensures TouchingOf(c, d, 6) == set b | b in d && Adjacent(c, b) :: (c, b)
  {
    forall b | b in d && Adjacent(c, b)
      ensures (c, b) in TouchingOf(c, d, 6)
    {
      var i := AdjacentSide(c, b);
    }
    forall i | 0 <= i < 6
      ensures Adjacent(c, Side(c, i))
    {
    }
  }

  /** Every touching face is one adjacent pair and the other way round, so
      the two counts agree. */
  lemma {:induction false} FacesTouching(r: set<Cube>, d: set<Cube>)
    ensures |Faces(r, d)| == |Touching(r, d)|
    decreases |r|
  {
    if r != {} {
      var c :| c in r;
      var rest := r - {c};
      FacesTouching(rest, d);
      FacesAdd(rest, c, d);
      assert rest + {c} == r;
      FacesOfTouching(c, d, 6);
      TouchingOfAll(c, d);
      assert Touching(r, d) == Touching(rest, d) + TouchingOf(c, d, 6);
      assert Touching(rest, d) !! TouchingOf(c, d, 6);
    } else {
      assert Faces(r, d) == {};
      assert Touching(r, d) == {};
    }
  }

  /** The faces of cubes of `r` whose neighbour is not in `d`. */
  ghost function Open(r: set<Cube>, d: set<Cube>): set<(Cube, nat)> {
    set c, i | c in r && 0 <= i < 6 && Side(c, i) !in d :: (c, i)
  }

  /** The faces of `c` in the first `j` directions whose neighbour is not
      in `d`. */
  ghost function OpenOf(c: Cube, d: set<Cube>, j: nat): set<(Cube, nat)>
    requires j <= 6
  {
    set i | 0 <= i < j && Side(c, i) !in d :: (c, i)
  }

  /** Each direction of a cube is either touching or open. */
  lemma {:induction false} FacesOfOpen(c: Cube, d: set<Cube>, j: nat)
    requires j <= 6
    ensures |FacesOf(c, d, j)| + |OpenOf(c, d, j)| == j
    decreases j
  {
    if j > 0 {
      var k := j - 1;
      FacesOfOpen(c, d, k);
      FacesOfNext(c, d, k);
      var extra: set<(Cube, nat)> := if Side(c, k) in d then {} else {(c, k)};
      forall f | f in OpenOf(c, d, j)
        ensures f in OpenOf(c, d, k) + extra
      {
      }
      assert OpenOf(c, d, j) == OpenOf(c, d, k) + extra;
      assert (c, k) !in OpenOf(c, d, k);
    } else {
      assert FacesOf(c, d, j) == {};
      assert OpenOf(c, d, j) == {};
    }
  }

  /** Every face of a cube of `r` is touching or open, so the two counts
      make up six faces per cube. */
  lemma {:induction false} FacesAndOpen(r: set<Cube>, d: set<Cube>)
    ensures |Faces(r, d)| + |Open(r, d)| == 6 * |r|
    decreases |r|
  {
    if r != {} {
      var c :| c in r;
      var rest := r - {c};
      FacesAndOpen(rest, d);
      FacesAdd(rest, c, d);
      assert rest + {c} == r;
      FacesOfOpen(c, d, 6);
      assert Open(r, d) == Open(rest, d) + OpenOf(c, d, 6);
      assert Open(rest, d) !! OpenOf(c, d, 6);
    } else {
      assert Faces(r, d) == {};
      assert Open(r, d) == {};
    }
  }

  /** The direction opposite to `i`. */
  function Opposite(i: nat): nat
    requires i < 6
  {
    if i % 2 == 0 then i + 1 else i - 1
  }

  /** The same face seen from the other side. */
  function Mirror(f: (Cube, nat)): (Cube, nat) {
    if f.1 < 6 then (Side(f.0, f.1), Opposite(f.1)) else f
  }

  /** Going across a face and back across the opposite face returns. */
  lemma MirrorBack(c: Cube, i: nat)
    requires i < 6
    ensures Opposite(i) < 6 && Side(Side(c, i), Opposite(i)) == c
  {
  }

  /** A set mapped one-to-one into another is no larger. */
  lemma {:induction false} InjectionBound<A, B>(s: set<A>, t: set<B>, f: A -> B)
    requires forall x :: x in s ==> f(x) in t
    requires forall x, y :: x in s && y in s && f(x) == f(y) ==> x == y
    ensures |s| <= |t|
    decreases |s|
  {
    if s != {} {
      var x :| x in s;
      InjectionBound(s - {x}, t - {f(x)}, f);
    }
  }

  /** A face of an air cube on the droplet is an open face of the droplet,
      seen from the other side. */
  lemma AirFacesOpen(a: set<Cube>, d: set<Cube>)
    requires a !! d
    ensures |Faces(a, d)| <= |Open(d, d)|
  {
    forall f | f in Faces(a, d)
      ensures Mirror(f) in Open(d, d)
    {
      MirrorBack(f.0, f.1);
    }
    forall f, g | f in Faces(a, d) && g in Faces(a, d) && Mirror(f) == Mirror(g)
      ensures f == g
    {
      MirrorBack(f.0, f.1);
      MirrorBack(g.0, g.1);
    }
    InjectionBound(Faces(a, d), Open(d, d), Mirror);
  }

  // ------------------------------------------------------------- part one

  /** The number of faces of the droplet that no other cube of it covers. */
  method SurfaceArea(droplets: set<Cube>) returns (area: nat)
    ensures area == 6 * |droplets| - |Faces(droplets, droplets)|
  {
    var connections: nat := 0;
    var remaining := droplets;
    ghost var done: set<Cube> := {};
    while remaining != {}
      invariant done + remaining == droplets && done !! remaining
      invariant connections == |Faces(done, droplets)| <= 6 * |done|
      decreases |remaining|
    {
      var drop :| drop in remaining;
      var count: nat := 0;
      for i := 0 to 6
        invariant count == |FacesOf(drop, droplets, i)| <= i
      {
        FacesOfNext(drop, droplets, i);
        var side := Side(drop, i);
        if side in droplets {
          count := count + 1;
        }
      }
      FacesAdd(done, drop, droplets);
      connections := connections + count;
      done := done + {drop};
      remaining := remaining - {drop};
    }
    area := 6 * |droplets| - connections;
  }

  // ------------------------------------------------------------- part two

  /** An inclusive box of cubes, from corner `lo` to corner `hi`. */
  datatype Box = Box(lo: Cube, hi: Cube)

  predicate InBox(b: Box, c: Cube) {
    b.lo.x <= c.x <= b.hi.x && b.lo.y <= c.y <= b.hi.y && b.lo.z <= c.z <= b.hi.z
  }

  /** All the cubes of a box. */
  ghost function BoxCells(b: Box): (r: set<Cube>)
    ensures forall c :: c in r <==> InBox(b, c)
  {
    var r := set x, y, z | b.lo.x <= x <= b.hi.x && b.lo.y <= y <= b.hi.y && b.lo.z <= z <= b.hi.z :: Cube(x, y, z);
    assert forall c :: InBox(b, c) ==> Cube(c.x, c.y, c.z) in r;
    r
  }

  /** A cube of the box that is not part of the droplet. */
  predicate Air(d: set<Cube>, b: Box, c: Cube) {
    InBox(b, c) && c !in d
  }

  /** A walk through air cubes, each face-adjacent to the next. */
  ghost predicate Walk(d: set<Cube>, b: Box, p: seq<Cube>) {
    |p| >= 1
    && (forall i :: 0 <= i < |p| ==> Air(d, b, p[i]))
    && (forall i :: 0 <= i < |p| - 1 ==> Adjacent(p[i], p[i + 1]))
  }

  /** The air reaches `c` from `start`. */
  ghost predicate Reaches(d: set<Cube>, b: Box, start: Cube, c: Cube) {
    exists p :: Walk(d, b, p) && p[0] == start && p[|p| - 1] == c
  }

  /** The air cubes of the box reachable from `start`. */
  ghost function Outside(d: set<Cube>, b: Box, start: Cube): (r: set<Cube>)
    ensures forall c :: c in r <==> Reaches(d, b, start, c)
  {
    var r := set c | c in BoxCells(b) && Reaches(d, b, start, c);
    forall c | Reaches(d, b, start, c)
      ensures c in r
    {
      ReachesAir(d, b, start, c);
    }
    r
  }

  lemma ReachesAir(d: set<Cube>, b: Box, start: Cube, c: Cube)
    requires Reaches(d, b, start, c)
    ensures Air(d, b, c)
  {
    var p :| Walk(d, b, p) && p[0] == start && p[|p| - 1] == c;
    assert Air(d, b, p[|p| - 1]);
  }

  lemma ReachesStart(d: set<Cube>, b: Box, start: Cube)
    requires Air(d, b, start)
    ensures Reaches(d, b, start, start)
  {
    assert Walk(d, b, [start]);
  }

  /** The air reached from a cube reaches its air neighbours too. */
  lemma ReachesSide(d: set<Cube>, b: Box, start: Cube, c: Cube, k: nat)
    requires k < 6 && Reaches(d, b, start, c) && Air(d, b, Side(c, k))
    ensures Reaches(d, b, start, Side(c, k))
  {
    var p :| Walk(d, b, p) && p[0] == start && p[|p| - 1] == c;
    var q := p + [Side(c, k)];
    assert q[|q| - 2] == c;
    assert Walk(d, b, q);
  }

  /** Every air neighbour of a cube of `done` has been seen. */
  ghost predicate Closed(d: set<Cube>, b: Box, done: set<Cube>, seen: set<Cube>) {
    forall c, k :: c in done && 0 <= k < 6 && Air(d, b, Side(c, k)) ==> Side(c, k) in seen
  }

  /** A set closed under the air steps holds every cube a walk from inside
      it reaches. */
  lemma {:induction false} WalkInside(d: set<Cube>, b: Box, seen: set<Cube>, p: seq<Cube>)
    requires Closed(d, b, seen, seen) && Walk(d, b, p) && p[0] in seen
    ensures p[|p| - 1] in seen
    decreases |p|
  {
    if |p| > 1 {
      var q := p[..|p| - 1];
      assert Walk(d, b, q);
      WalkInside(d, b, seen, q);
      var c, e := p[|p| - 2], p[|p| - 1];
      assert Adjacent(c, e);
      var k := AdjacentSide(c, e);
      assert Air(d, b, Side(c, k));
    }
  }

  /** Once the queue is empty, the seen cubes are exactly the outside. */
  lemma Exhausted(d: set<Cube>, b: Box, start: Cube, seen: set<Cube>)
    requires start in seen && Closed(d, b, seen, seen) && Sound(d, b, start, seen)
    ensures seen == Outside(d, b, start)
  {
    forall c | Reaches(d, b, start, c)
      ensures c in seen
    {
      var p :| Walk(d, b, p) && p[0] == start && p[|p| - 1] == c;
      WalkInside(d, b, seen, p);
    }
  }

  /** The queue holds the seen cubes not yet visited, each once. */
  ghost predicate Queued(seen: set<Cube>, done: set<Cube>, queue: seq<Cube>) {
    (forall c :: c in seen <==> c in done || c in queue)
    && (forall i :: 0 <= i < |queue| ==> queue[i] !in done)
    && (forall i, j :: 0 <= i < j < |queue| ==> queue[i] != queue[j])
  }

  /** Taking the head of the queue moves it to the visited cubes. */
  lemma QueuedPop(seen: set<Cube>, done: set<Cube>, queue: seq<Cube>)
    requires Queued(seen, done, queue) && queue != []
    ensures queue[0] in seen && queue[0] !in done
    ensures Queued(seen, done + {queue[0]}, queue[1..])
  {
    assert forall c :: c in queue <==> c == queue[0] || c in queue[1..];
  }

  /** A cube not seen before joins the back of the queue. */
  lemma QueuedPush(seen: set<Cube>, done: set<Cube>, queue: seq<Cube>, c: Cube)
    requires Queued(seen, done, queue) && c !in seen
    ensures Queued(seen + {c}, done, queue + [c])
  {
  }

  /** Every seen cube is reached by the air from `start`. */
  ghost predicate Sound(d: set<Cube>, b: Box, start: Cube, seen: set<Cube>) {
    forall c :: c in seen ==> Reaches(d, b, start, c)
  }

  /** The air neighbours of `here` in the first `k` directions are seen. */
  ghost predicate Around(d: set<Cube>, b: Box, here: Cube, k: nat, seen: set<Cube>)
    requires k <= 6
  {
    forall j :: 0 <= j < k && Air(d, b, Side(here, j)) ==> Side(here, j) in seen
  }

  /** Once all six directions of `here` are seen, `here` is closed too. */
  lemma ClosedAdd(d: set<Cube>, b: Box, done: set<Cube>, here: Cube, seen: set<Cube>)
    requires Closed(d, b, done, seen) && Around(d, b, here, 6, seen)
    ensures Closed(d, b, done + {here}, seen)
  {
  }

  /** Visits one air cube: counts its faces on the droplet and queues each
      air neighbour inside the box not seen before. */
  method Visit(droplets: set<Cube>, b: Box, ghost start: Cube, here: Cube, seen0: set<Cube>, process0: seq<Cube>,
               ghost closed: set<Cube>, ghost visited: set<Cube>)
    returns (seen: set<Cube>, process: seq<Cube>, count: nat)
    requires here in seen0 && Queued(seen0, visited, process0)
    requires Sound(droplets, b, start, seen0) && Closed(droplets, b, closed, seen0)
    ensures seen0 <= seen && Queued(seen, visited, process)
    ensures Sound(droplets, b, start, seen) && Closed(droplets, b, closed, seen)
    ensures Around(droplets, b, here, 6, seen)
    ensures count == |FacesOf(here, droplets, 6)|
  {
    seen, process, count := seen0, process0, 0;
    for k := 0 to 6
      invariant seen0 <= seen && Queued(seen, visited, process)
      invariant Sound(droplets, b, start, seen) && Closed(droplets, b, closed, seen)
      invariant Around(droplets, b, here, k, seen)
      invariant count == |FacesOf(here, droplets, k)|
    {
      FacesOfNext(here, droplets, k);
      var there := Side(here, k);
      if there in droplets {
        count := count + 1;
        continue;
      }
      if InBox(b, there) && there !in seen {
        ReachesSide(droplets, b, start, here, k);
        QueuedPush(seen, visited, process, there);
        seen := seen + {there};
        process := process + [there];
      }
    }
  }

  /** The outside air touches no more faces than the droplet has open. */
  lemma OutsideFacesOpen(d: set<Cube>, b: Box, start: Cube)
    ensures |Faces(Outside(d, b, start), d)| <= |Open(d, d)|
  {
    var a := Outside(d, b, start);
    forall c | c in a
      ensures c !in d
    {
      ReachesAir(d, b, start, c);
    }
    AirFacesOpen(a, d);
  }

  /** Counts the droplet faces touched by the air reachable from `start`,
      visiting each air cube once in breadth-first order. */
  method ExteriorSurface(droplets: set<Cube>, b: Box, start: Cube) returns (sides: nat)
    requires Air(droplets, b, start)
    ensures sides == |Faces(Outside(droplets, b, start), droplets)|
  {
    var seen := {start};
    var process := [start];
    ghost var done: set<Cube> := {};
    ReachesStart(droplets, b, start);
    sides := 0;
    while process != []
      invariant start in seen && Queued(seen, done, process)
      invariant Sound(droplets, b, start, seen) && Closed(droplets, b, done, seen)
      invariant sides == |Faces(done, droplets)|
      decreases BoxCells(b) - done
    {
      var here := process[0];
      QueuedPop(seen, done, process);
      process := process[1..];
      ghost var visited := done + {here};
      var found;
      seen, process, found := Visit(droplets, b, start, here, seen, process, done, visited);
      ClosedAdd(droplets, b, done, here, seen);
      FacesAdd(done, here, droplets);
      ReachesAir(droplets, b, start, here);
      sides := sides + found;
      done := visited;
    }
    assert seen == done;
    Exhausted(droplets, b, start, seen);
  }

  // --------------------------------------------------------------- input

  /** The range of Rust's `isize` on a 64-bit target. */
  const IsizeMin: int := -0x8000_0000_0000_0000
  const IsizeMax: int := 0x7fff_ffff_ffff_ffff

  /** One coordinate, parsed as an `isize`. */
  function ParseCoord(s: string): (r: Result<int>)
    ensures r.Ok? <==> Text.ParseInt(s).Some? && IsizeMin <= Text.ParseInt(s).value <= IsizeMax
    ensures r.Ok? ==> r.value == Text.ParseInt(s).value
  {
    match Text.ParseInt(s)
    case Some(v) => if IsizeMin <= v <= IsizeMax then Ok(v) else Err("valid coords")
    case None => Err("valid coords")
  }

  /** A line of comma-separated coordinates: every piece must parse, and
      the first three are the cube (the program indexes them). */
  function ParseCube(line: string): (r: Result<Cube>)
    ensures r.Ok? <==> MapOk(Text.Split(line, ','), ParseCoord).Ok? && |Text.Split(line, ',')| >= 3
    ensures r.Ok? ==> var parts := Text.Split(line, ',');
      r.value == Cube(ParseCoord(parts[0]).value, ParseCoord(parts[1]).value, ParseCoord(parts[2]).value)
  {
    match MapOk(Text.Split(line, ','), ParseCoord)
    case Err(e) => Err(e)
    case Ok(v) => if |v| < 3 then Err("index out of bounds") else Ok(Cube(v[0], v[1], v[2]))
  }

  function ShowCube(c: Cube): string {
    Text.Join([Text.ShowInt(c.x), Text.ShowInt(c.y), Text.ShowInt(c.z)], ',')
  }

  /** No number contains a comma. */
  lemma ShowIntPlain(v: int)
    ensures ',' !in Text.ShowInt(v)
  {
    var n := if v < 0 then -v else v;
    Text.DigitsAvoid(Text.ShowNat(n), ',');
  }

  /** Parsing a printed cube gives it back. */
  lemma ParseShowCube(c: Cube)
    requires IsizeMin <= c.x <= IsizeMax && IsizeMin <= c.y <= IsizeMax && IsizeMin <= c.z <= IsizeMax
    ensures ParseCube(ShowCube(c)) == Ok(c)
  {
    var parts := [Text.ShowInt(c.x), Text.ShowInt(c.y), Text.ShowInt(c.z)];
    ShowIntPlain(c.x);
    ShowIntPlain(c.y);
    ShowIntPlain(c.z);
    Text.SplitJoin(parts, ',');
    Text.ParseShow(c.x);
    Text.ParseShow(c.y);
    Text.ParseShow(c.z);
  }

  /** The cubes of the trimmed input, one per line. */
  function ParseDroplets(data: string): (r: Result<seq<Cube>>)
    ensures r.Ok? <==> forall i :: 0 <= i < |Text.Lines(Text.Trim(data))| ==> ParseCube(Text.Lines(Text.Trim(data))[i]).Ok?
    ensures r.Ok? ==> |r.value| == |Text.Lines(Text.Trim(data))| >= 1
  {
    MapOk(Text.Lines(Text.Trim(data)), ParseCube)
  }

  /** The droplet as a set of cubes; repeated lines count once. */
  function Droplet(cubes: seq<Cube>): (d: set<Cube>)
    ensures forall c :: c in d <==> c in cubes
  {
    set c | c in cubes
  }

  /** Part one: the surface of the droplet, 6 faces per cube less one for
      each pair of face-adjacent cubes (counted in both orders). */
  method SolvePartOne(data: string) returns (r: Result<nat>)
    ensures r.Ok? <==> ParseDroplets(data).Ok?
    ensures r.Ok? ==> var d := Droplet(ParseDroplets(data).value);
      r.value == 6 * |d| - |Touching(d, d)| && r.value == |Open(d, d)|
  {
    var parsed := ParseDroplets(data);
    if parsed.Err? {
      return Err(parsed.reason);
    }
    var droplets := Droplet(parsed.value);
    var area := SurfaceArea(droplets);
    FacesTouching(droplets, droplets);
    FacesAndOpen(droplets, droplets);
    r := Ok(area);
  }

  /** A coordinate of a cube: `x`, `y` or `z` for axis 0, 1 or 2. */
  function Coord(c: Cube, axis: nat): int
    requires axis < 3
  {
    if axis == 0 then c.x else if axis == 1 then c.y else c.z
  }

  /** The least coordinate along `axis` (`min` on the coordinates). */
  function Least(cs: seq<Cube>, axis: nat): (m: int)
    requires |cs| > 0 && axis < 3
    ensures forall i :: 0 <= i < |cs| ==> m <= Coord(cs[i], axis)
    ensures exists i :: 0 <= i < |cs| && Coord(cs[i], axis) == m
  {
    if |cs| == 1 then Coord(cs[0], axis)
    else
      var m := Least(cs[1..], axis);
      if Coord(cs[0], axis) <= m then Coord(cs[0], axis) else m
  }

  /** The greatest coordinate along `axis` (`max` on the coordinates). */
  function Most(cs: seq<Cube>, axis: nat): (m: int)
    requires |cs| > 0 && axis < 3
    ensures forall i :: 0 <= i < |cs| ==> Coord(cs[i], axis) <= m
    ensures exists i :: 0 <= i < |cs| && Coord(cs[i], axis) == m
  {
    if |cs| == 1 then Coord(cs[0], axis)
    else
      var m := Most(cs[1..], axis);
      if Coord(cs[0], axis) >= m then Coord(cs[0], axis) else m
  }

  /** The bounding box of the cubes grown by one on every side: the only
      place the flood fill explores. */
  function Grown(cs: seq<Cube>): (b: Box)
    requires |cs| > 0
  {
    Box(Cube(Least(cs, 0) - 1, Least(cs, 1) - 1, Least(cs, 2) - 1),
        Cube(Most(cs, 0) + 1, Most(cs, 1) + 1, Most(cs, 2) + 1))
  }

  /** The first air cube: below the lowest `y`, at the least `x` and `z`. */
  function Start(cs: seq<Cube>): Cube
    requires |cs| > 0
  {
    Cube(Least(cs, 0), Least(cs, 1) - 1, Least(cs, 2))
  }

  /** Every cube lies strictly inside the grown box, and the box has a layer
      of air on every side. */
  lemma GrownBox(cs: seq<Cube>, i: nat)
    requires i < |cs|
    ensures var b := Grown(cs);
      b.lo.x < cs[i].x < b.hi.x && b.lo.y < cs[i].y < b.hi.y && b.lo.z < cs[i].z < b.hi.z
  {
    assert Coord(cs[i], 0) == cs[i].x && Coord(cs[i], 1) == cs[i].y && Coord(cs[i], 2) == cs[i].z;
  }

  /** The flood fill starts in the air of the box, not on the droplet. */
  lemma StartIsAir(cs: seq<Cube>)
    requires |cs| > 0
    ensures Air(Droplet(cs), Grown(cs), Start(cs))
  {
    var x :| 0 <= x < |cs| && Coord(cs[x], 0) == Least(cs, 0);
    var z :| 0 <= z < |cs| && Coord(cs[z], 2) == Least(cs, 2);
    GrownBox(cs, x);
    GrownBox(cs, z);
  }

  /** Part two: the faces of the droplet that the outside air, flooding the
      grown box from its starting cube, reaches. */
  method SolvePartTwo(data: string) returns (r: Result<nat>)
    ensures r.Ok? <==> ParseDroplets(data).Ok?
    ensures r.Ok? ==> var cs := ParseDroplets(data).value;
      r.value == |Faces(Outside(Droplet(cs), Grown(cs), Start(cs)), Droplet(cs))|
    ensures r.Ok? ==> var d := Droplet(ParseDroplets(data).value);
      r.value <= |Open(d, d)|
  {
    var parsed := ParseDroplets(data);
    if parsed.Err? {
      return Err(parsed.reason);
    }
    var cubes := parsed.value;
    var droplets := Droplet(cubes);
    var b := Grown(cubes);
    var start := Start(cubes);
    StartIsAir(cubes);
    var sides := ExteriorSurface(droplets, b, start);
    OutsideFacesOpen(droplets, b, start);
    r := Ok(sides);
  }
}
