/** Day 15: sensors on a grid, each knowing the Manhattan distance to its
    closest beacon. Part one counts the cells of one row that some sensor
    rules out; part two walks the ring just outside every sensor's reach and
    keeps the single cell of the search square no sensor covers. */
module Day15 {
  import opened Wrappers

  /** A point as (y, x), the way the program builds its tuples. */
  type Point = (int, int)

  /** One parsed input line: a sensor and its closest beacon. */
  datatype Reading = Reading(sensorX: int, sensorY: int, beaconX: int, beaconY: int)

  /** A sensor and the distance to its closest beacon. */
  datatype Sensor = Sensor(y: int, x: int, radius: int)

  function Abs(v: int): int {
    if v < 0 then -v else v
  }

  /** `distance`: the Manhattan distance. */
  function Distance(a: Point, b: Point): (d: int)
    ensures d >= 0
    ensures d == 0 <==> a == b
  {
    Abs(a.0 - b.0) + Abs(a.1 - b.1)
  }

  lemma DistanceSymmetric(a: Point, b: Point)
    ensures Distance(a, b) == Distance(b, a)
  {
  }

  function Centre(s: Sensor): Point {
    (s.y, s.x)
  }

  /** A sensor built from a reading; its beacon lies exactly at its radius. */
  function SensorOf(r: Reading): (s: Sensor)
    ensures s.radius >= 0 && Distance(Centre(s), (r.beaconY, r.beaconX)) == s.radius
  {
    Sensor(r.sensorY, r.sensorX, Distance((r.sensorY, r.sensorX), (r.beaconY, r.beaconX)))
  }

  function Sensors(readings: seq<Reading>): (s: seq<Sensor>)
    ensures |s| == |readings|
    ensures forall i :: 0 <= i < |s| ==> s[i] == SensorOf(readings[i])
  {
    seq(|readings|, i requires 0 <= i < |readings| => SensorOf(readings[i]))
  }

  /** The beacons, as the set the program collects. */
  function Beacons(readings: seq<Reading>): set<Point> {
    set i | 0 <= i < |readings| :: (readings[i].beaconY, readings[i].beaconX)
  }

  /** Some sensor reaches p. */
  predicate Covered(sensors: seq<Sensor>, p: Point) {
    exists i :: 0 <= i < |sensors| && Distance(p, Centre(sensors[i])) <= sensors[i].radius
  }

  // Part one.

  /** The row part one scans. */
  const Row := 2000000

  function Min(a: int, b: int): int { if a <= b then a else b }
  function Max(a: int, b: int): int { if a >= b then a else b }

  /** The leftmost column any sensor reaches, `min(x - radius)`. */
  function MinLeft(sensors: seq<Sensor>): (m: int)
    requires |sensors| > 0
    ensures forall i :: 0 <= i < |sensors| ==> m <= sensors[i].x - sensors[i].radius
    ensures exists i :: 0 <= i < |sensors| && m == sensors[i].x - sensors[i].radius
  {
    if |sensors| == 1 then sensors[0].x - sensors[0].radius
    else
      var m' := MinLeft(sensors[1..]);
      assert forall i :: 1 <= i < |sensors| ==> sensors[i] == sensors[1..][i - 1];
      Min(sensors[0].x - sensors[0].radius, m')
  }

  /** The rightmost column any sensor reaches, `max(x + radius)`. */
  function MaxRight(sensors: seq<Sensor>): (m: int)
    requires |sensors| > 0
    ensures forall i :: 0 <= i < |sensors| ==> sensors[i].x + sensors[i].radius <= m
    ensures exists i :: 0 <= i < |sensors| && m == sensors[i].x + sensors[i].radius
  {
    if |sensors| == 1 then sensors[0].x + sensors[0].radius
    else
      var m' := MaxRight(sensors[1..]);
      assert forall i :: 1 <= i < |sensors| ==> sensors[i] == sensors[1..][i - 1];
      Max(sensors[0].x + sensors[0].radius, m')
  }

  /** A cell of row y that some sensor reaches and that holds no beacon. */
  predicate Excluded(sensors: seq<Sensor>, beacons: set<Point>, y: int, x: int) {
    Covered(sensors, (y, x)) && (y, x) !in beacons
  }

  /** The excluded cells of row y among the columns lo <= x < hi. */
  ghost function RowHits(sensors: seq<Sensor>, beacons: set<Point>, y: int, lo: int, hi: int): set<int> {
    set x | lo <= x < hi && Excluded(sensors, beacons, y, x)
  }

  lemma RowHitsNext(sensors: seq<Sensor>, beacons: set<Point>, y: int, lo: int, x: int)
    requires lo <= x
    ensures RowHits(sensors, beacons, y, lo, x + 1)
      == RowHits(sensors, beacons, y, lo, x) + (if Excluded(sensors, beacons, y, x) then {x} else {})
    ensures x !in RowHits(sensors, beacons, y, lo, x)
  {
  }

  /** The scan of `solve_part_one`: the excluded cells of row y between lo
      and hi inclusive. */
  method CountRow(sensors: seq<Sensor>, beacons: set<Point>, y: int, lo: int, hi: int) returns (count: nat)
    ensures count == |RowHits(sensors, beacons, y, lo, hi + 1)|
  {
    count := 0;
    var x := lo;
    while x <= hi
      invariant x == lo || x <= hi + 1
      invariant count == |RowHits(sensors, beacons, y, lo, x)|
      decreases hi - x
    {
      RowHitsNext(sensors, beacons, y, lo, x);
      if Covered(sensors, (y, x)) && (y, x) !in beacons {
        count := count + 1;
      }
      x := x + 1;
    }
    if x == lo {
      assert RowHits(sensors, beacons, y, lo, x) == {} == RowHits(sensors, beacons, y, lo, hi + 1);
    }
  }

  /** No sensor reaches past the scanned columns, so the scan misses no
      excluded cell of the row. */
  lemma ScanComplete(sensors: seq<Sensor>, beacons: set<Point>, y: int, x: int)
    requires |sensors| > 0 && Excluded(sensors, beacons, y, x)
    ensures x in RowHits(sensors, beacons, y, MinLeft(sensors), MaxRight(sensors) + 1)
  {
    var i :| 0 <= i < |sensors| && Distance((y, x), Centre(sensors[i])) <= sensors[i].radius;
    assert MinLeft(sensors) <= sensors[i].x - sensors[i].radius;
    assert sensors[i].x + sensors[i].radius <= MaxRight(sensors);
  }

  /** `solve_part_one`: the cells of row 2 000 000 where no beacon can be. An
      input without sensors is the program's "More than 0 sensors" panic. */
  method SolvePartOne(readings: seq<Reading>) returns (r: Result<nat>)
    ensures r.Err? <==> readings == []
    ensures r.Ok? ==> var sensors := Sensors(readings);
      r.value == |RowHits(sensors, Beacons(readings), Row, MinLeft(sensors), MaxRight(sensors) + 1)|
  {
    if readings == [] {
      return Err("More than 0 sensors");
    }
    var sensors := Sensors(readings);
    var minx := MinLeft(sensors);
    var maxx := MaxRight(sensors);
    var count := CountRow(sensors, Beacons(readings), Row, minx, maxx);
    return Ok(count);
  }

  // Part two.

  /** The side of the search square. */
  const Bound := 4000000

  /** One step past the sensor's reach. */
  predicate OnRing(s: Sensor, p: Point) {
    Distance(p, Centre(s)) == s.radius + 1
  }

  /** The four cells the loop at delta = d pushes, as written: the second
      and fourth rows move away from the sensor as d grows. */
  function EdgeStepAsWritten(s: Sensor, d: int): seq<Point> {
    [ (s.y - d, s.x - s.radius - 1 + d),
      (s.y - s.radius - 1 - d, s.x + d),
      (s.y + d, s.x + s.radius + 1 - d),
      (s.y + s.radius + 1 + d, s.x - d) ]
  }

  /** As written, the first and third cells lie on the ring, the second and
      fourth 2d further out. */
  lemma AsWrittenFamilies(s: Sensor, d: int)
    requires 0 <= d <= s.radius
    ensures OnRing(s, EdgeStepAsWritten(s, d)[0]) && OnRing(s, EdgeStepAsWritten(s, d)[2])
    ensures Distance(EdgeStepAsWritten(s, d)[1], Centre(s)) == s.radius + 1 + 2 * d
    ensures Distance(EdgeStepAsWritten(s, d)[3], Centre(s)) == s.radius + 1 + 2 * d
  {
  }

  /** A sensor at the origin with radius 1: at delta = 1 the program pushes
      (y, x) = (-3, 1), four steps away, and never pushes the ring cell (-1, 1). */
  lemma AsWrittenOffRing()
    ensures var s := Sensor(0, 0, 1);
      EdgeStepAsWritten(s, 1)[1] == (-3, 1) && !OnRing(s, (-3, 1)) && OnRing(s, (-1, 1))
      && forall d :: 0 <= d <= s.radius ==> (-1, 1) !in EdgeStepAsWritten(s, d)
  {
  }

  /** The four cells at delta = d with the ring walked as intended: from the
      left corner up, from the top corner right, from the right corner down
      and from the bottom corner left. */
  ghost predicate Pushed(s: Sensor, d: int, p: Point) {
    || p == (s.y - d, s.x - s.radius - 1 + d)
    || p == (s.y - s.radius - 1 + d, s.x + d)
    || p == (s.y + d, s.x + s.radius + 1 - d)
    || p == (s.y + s.radius + 1 - d, s.x - d)
  }

  /** The delta at which the walk reaches a ring cell: every ring cell
      belongs to exactly one of the four edges. */
  ghost function Reached(s: Sensor, p: Point): int {
    var dy, dx := p.0 - s.y, p.1 - s.x;
    if dx < 0 && dy <= 0 then -dy
    else if dy < 0 then dx
    else if dx > 0 then dy
    else -dx
  }

  /** The cells pushed at delta = d are exactly the ring cells reached at d. */
  lemma RingStep(s: Sensor, d: int, p: Point)
    requires 0 <= d <= s.radius
    ensures Pushed(s, d, p) <==> OnRing(s, p) && Reached(s, p) == d
  {
  }

  /** Every ring cell is reached at some delta between 0 and the radius. */
  lemma ReachedBound(s: Sensor, p: Point)
    requires s.radius >= 0 && OnRing(s, p)
    ensures 0 <= Reached(s, p) <= s.radius
  {
  }

  /** The inner loop of `solve_part_two`, with the ring walked as intended:
      it pushes every cell one step past the sensor's reach and no other. */
  method EdgePositions(s: Sensor) returns (poses: seq<Point>)
    requires s.radius >= 0
    ensures forall p :: p in poses <==> OnRing(s, p)
    ensures |poses| == 4 * (s.radius + 1)
  {
    poses := [];
    for delta := 0 to s.radius + 1
      invariant |poses| == 4 * delta
      invariant forall p :: p in poses <==> OnRing(s, p) && Reached(s, p) < delta
    {
      var next := [ (s.y - delta, s.x - s.radius - 1 + delta),
                    (s.y - s.radius - 1 + delta, s.x + delta),
                    (s.y + delta, s.x + s.radius + 1 - delta),
                    (s.y + s.radius + 1 - delta, s.x - delta) ];
      forall p
        ensures p in poses + next <==> OnRing(s, p) && Reached(s, p) < delta + 1
      {
        RingStep(s, delta, p);
      }
      poses := poses + next;
    }
    forall p | OnRing(s, p)
      ensures p in poses
    {
      ReachedBound(s, p);
    }
  }

  predicate InSquare(p: Point) {
    0 <= p.0 <= Bound && 0 <= p.1 <= Bound
  }

  /** No sensor reaches p. */
  predicate OutsideAll(sensors: seq<Sensor>, p: Point) {
    forall i :: 0 <= i < |sensors| ==> Distance(p, Centre(sensors[i])) > sensors[i].radius
  }

  /** p lies one step past the reach of one of the first n sensors. */
  ghost predicate NearOne(sensors: seq<Sensor>, n: int, p: Point) {
    exists k :: 0 <= k < n && k < |sensors| && OnRing(sensors[k], p)
  }

  /** A kept candidate: in the square, next to some sensor's reach and
      outside every sensor's reach. */
  ghost predicate Candidate(sensors: seq<Sensor>, p: Point) {
    InSquare(p) && OutsideAll(sensors, p) && NearOne(sensors, |sensors|, p)
  }

  /** p is the one and only candidate. */
  ghost predicate Sole(sensors: seq<Sensor>, p: Point) {
    Candidate(sensors, p) && forall q :: Candidate(sensors, q) ==> q == p
  }

  lemma NearOneNext(sensors: seq<Sensor>, n: int, p: Point)
    requires 0 <= n < |sensors|
    ensures NearOne(sensors, n + 1, p) <==> NearOne(sensors, n, p) || OnRing(sensors[n], p)
  {
    if NearOne(sensors, n + 1, p) && !OnRing(sensors[n], p) {
      var k :| 0 <= k < n + 1 && k < |sensors| && OnRing(sensors[k], p);
      assert k < n;
    }
  }

  /** The candidates of `solve_part_two`: the ring cells of every sensor
      that lie in the square and outside every sensor's reach. */
  method EdgeCases(sensors: seq<Sensor>) returns (cases: set<Point>)
    requires forall i :: 0 <= i < |sensors| ==> sensors[i].radius >= 0
    ensures forall p :: p in cases <==> Candidate(sensors, p)
  {
    cases := {};
    for i := 0 to |sensors|
      invariant forall p :: p in cases <==> InSquare(p) && OutsideAll(sensors, p) && NearOne(sensors, i, p)
    {
      var poses := EdgePositions(sensors[i]);
      var kept := set p | p in poses && InSquare(p) && OutsideAll(sensors, p);
      forall p
        ensures p in cases + kept <==> InSquare(p) && OutsideAll(sensors, p) && NearOne(sensors, i + 1, p)
      {
        NearOneNext(sensors, i, p);
      }
      cases := cases + kept;
    }
  }

  /** A set of one element holds nothing else. */
  lemma OnlyElement(cases: set<Point>, p: Point, q: Point)
    requires |cases| == 1 && p in cases && q in cases
    ensures q == p
  {
    assert |cases - {p}| == 0;
  }

  /** The set holds one element exactly when some candidate is the sole one. */
  lemma SingleCase(sensors: seq<Sensor>, cases: set<Point>)
    requires forall p :: p in cases <==> Candidate(sensors, p)
    ensures |cases| == 1 <==> exists p :: Sole(sensors, p)
  {
    if |cases| == 1 {
      var p :| p in cases;
      forall q | Candidate(sensors, q)
        ensures q == p
      {
        OnlyElement(cases, p, q);
      }
      assert Sole(sensors, p);
    }
    if p :| Sole(sensors, p) {
      assert cases == {p};
    }
  }

  /** `solve_part_two`: the tuning frequency x * 4 000 000 + y of the single
      candidate; any other number of candidates is the program's failed
      `assert_eq!`. */
  method SolvePartTwo(readings: seq<Reading>) returns (r: Result<nat>)
    ensures r.Ok? <==> exists p :: Sole(Sensors(readings), p)
    ensures r.Ok? ==> exists p :: Sole(Sensors(readings), p) && r.value == p.1 * Bound + p.0
  {
    var sensors := Sensors(readings);
    var cases := EdgeCases(sensors);
    SingleCase(sensors, cases);
    if |cases| != 1 {
      return Err("Expected exactly one distress position");
    }
    var p :| p in cases;
    forall q | Candidate(sensors, q)
      ensures q == p
    {
      OnlyElement(cases, p, q);
    }
    return Ok(p.1 * Bound + p.0);
  }
}
