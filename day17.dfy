/** Day 17: rocks of five shapes fall one after the other into a chamber seven
    units wide; before every step down, a jet of gas from a repeating pattern
    pushes the falling rock one unit left or right. */
module Day17 {
  import opened Wrappers
  import Arith

  datatype Jet = Left | Right

  /** A unit of space as (row, column); row 0 is the lowest row above the
      floor and column 0 the leftmost. */
  type Cell = (nat, nat)

  const Width: nat := 7

  /** The number of rock shapes. */
  const Pieces: nat := 5

  /** The rock shapes in the order they fall, as units relative to the lowest
      row and leftmost column of the shape. */
  function Tetrominos(): (r: seq<seq<Cell>>)
    ensures |r| == Pieces && forall p :: 0 <= p < Pieces ==> ShapeFits(r[p])
  {
    var r :=
      [ [(0, 0), (0, 1), (0, 2), (0, 3)],
        [(2, 1), (1, 0), (1, 1), (1, 2), (0, 1)],
        [(2, 2), (1, 2), (0, 0), (0, 1), (0, 2)],
        [(3, 0), (2, 0), (1, 0), (0, 0)],
        [(1, 0), (1, 1), (0, 0), (0, 1)] ];
    assert r[0][0] == (0, 0) && r[2][2] == (0, 0) && r[3][3] == (0, 0) && r[4][2] == (0, 0);
    assert r[1][4].0 == 0 && r[1][1].1 == 0;
    r
  }

  /** A shape at most four rows tall and five columns wide, touching its own
      lowest row and leftmost column. */
  predicate ShapeFits(shape: seq<Cell>) {
    |shape| > 0
    && (forall i :: 0 <= i < |shape| ==> shape[i].0 <= 3 && shape[i].1 <= 4)
    && (exists i :: 0 <= i < |shape| && shape[i].0 == 0)
    && (exists i :: 0 <= i < |shape| && shape[i].1 == 0)
  }

  // ---------------------------------------------------------------- parsing

  function ParseJet(c: char): (r: Result<Jet>)
    ensures r.Ok? <==> c == '<' || c == '>'
    ensures r.Ok? ==> ShowJet(r.value) == c
  {
    match c
    case '<' => Ok(Left)
    case '>' => Ok(Right)
    case _ => Err("unknown order character")
  }

  function ShowJet(j: Jet): char {
    if j == Left then '<' else '>'
  }

  /** One jet per character of the input. */
  function ParseJets(data: string): Result<seq<Jet>> {
    MapOk(data, ParseJet)
  }

  function ShowJets(jets: seq<Jet>): (s: string)
    ensures |s| == |jets|
  {
    seq(|jets|, i requires 0 <= i < |jets| => ShowJet(jets[i]))
  }

  lemma ParseShowJets(jets: seq<Jet>)
    ensures ParseJets(ShowJets(jets)) == Ok(jets)
  {
    var s := ShowJets(jets);
    var r := ParseJets(s);
    assert forall i :: 0 <= i < |s| ==> ParseJet(s[i]) == Ok(jets[i]);
    assert r.value == jets;
  }

  lemma ShowParseJets(data: string)
    requires ParseJets(data).Ok?
    ensures ShowJets(ParseJets(data).value) == data
  {
    var jets := ParseJets(data).value;
    assert forall i :: 0 <= i < |data| ==> ShowJets(jets)[i] == data[i];
  }

  // ------------------------------------------------------------ cell motion

  function Pushed(c: Cell, jet: Jet): Cell
    requires jet == Left ==> c.1 > 0
  {
    if jet == Left then (c.0, c.1 - 1) else (c.0, c.1 + 1)
  }

  predicate InChamber(rocks: seq<Cell>) {
    forall i :: 0 <= i < |rocks| ==> rocks[i].1 < Width
  }

  predicate Clear(rocks: seq<Cell>, memory: set<Cell>) {
    forall i :: 0 <= i < |rocks| ==> rocks[i] !in memory
  }

  /** One rock allows the jet: it is not against the wall the jet pushes
      towards, and the unit beside it is empty. */
  predicate RockApplies(c: Cell, jet: Jet, memory: set<Cell>) {
    !(jet == Left && c.1 == 0) && !(jet == Right && c.1 == Width - 1) && Pushed(c, jet) !in memory
  }

  predicate JetApplies(rocks: seq<Cell>, jet: Jet, memory: set<Cell>) {
    forall i :: 0 <= i < |rocks| ==> RockApplies(rocks[i], jet, memory)
  }

  /** One rock allows a step down: it is above the floor and the unit below it
      is empty. */
  predicate RockCanDrop(c: Cell, memory: set<Cell>) {
    c.0 != 0 && (c.0 - 1, c.1) !in memory
  }

  predicate CanDrop(rocks: seq<Cell>, memory: set<Cell>) {
    forall i :: 0 <= i < |rocks| ==> RockCanDrop(rocks[i], memory)
  }

  /** Two placements of one shape: the second is the first moved as a whole. */
  predicate SameShape(a: seq<Cell>, b: seq<Cell>) {
    |a| == |b| && |a| > 0
    && forall i :: 0 <= i < |a| ==>
      a[i].0 as int - a[0].0 == b[i].0 as int - b[0].0
      && a[i].1 as int - a[0].1 == b[i].1 as int - b[0].1
  }

  function Shift(rocks: seq<Cell>, jet: Jet): (r: seq<Cell>)
    requires forall i :: 0 <= i < |rocks| ==> jet == Left ==> rocks[i].1 > 0
    ensures |r| == |rocks|
  {
    seq(|rocks|, i requires 0 <= i < |rocks| => Pushed(rocks[i], jet))
  }

  /** The rock after the jet: pushed if the jet applies, else where it was.
      Either way it stays inside the chamber on the same rows. */
  function Blown(rocks: seq<Cell>, jet: Jet, memory: set<Cell>): (r: seq<Cell>)
    requires |rocks| > 0 && InChamber(rocks)
    ensures |r| == |rocks| && InChamber(r) && r[0].0 == rocks[0].0
  {
    if JetApplies(rocks, jet, memory) then Shift(rocks, jet) else rocks
  }

  /** The jet keeps the rock's shape and keeps it out of the fallen rocks. */
  lemma BlownSafe(rocks: seq<Cell>, jet: Jet, memory: set<Cell>)
    requires |rocks| > 0 && InChamber(rocks)
    ensures SameShape(rocks, Blown(rocks, jet, memory))
    ensures Clear(rocks, memory) ==> Clear(Blown(rocks, jet, memory), memory)
  {
  }

  function Drop(rocks: seq<Cell>): (r: seq<Cell>)
    requires forall i :: 0 <= i < |rocks| ==> rocks[i].0 > 0
    ensures |r| == |rocks|
  {
    seq(|rocks|, i requires 0 <= i < |rocks| => (rocks[i].0 - 1, rocks[i].1))
  }

  /** One step down where nothing is in the way keeps the rock's shape and
      keeps it out of the fallen rocks. */
  lemma DropSafe(rocks: seq<Cell>, memory: set<Cell>)
    requires |rocks| > 0 && InChamber(rocks) && CanDrop(rocks, memory)
    ensures InChamber(Drop(rocks)) && SameShape(rocks, Drop(rocks)) && Clear(Drop(rocks), memory)
    ensures Drop(rocks)[0].0 < rocks[0].0
  {
    assert forall i :: 0 <= i < |rocks| ==> RockCanDrop(rocks[i], memory);
  }

  /** A shape placed with its lowest row at `height` and its leftmost column
      at 2. */
  function Spawn(shape: seq<Cell>, height: nat): (r: seq<Cell>)
    ensures |r| == |shape|
  {
    seq(|shape|, i requires 0 <= i < |shape| => (shape[i].0 + height, shape[i].1 + 2))
  }

  lemma SpawnPlacement(shape: seq<Cell>, height: nat)
    requires ShapeFits(shape)
    ensures var r := Spawn(shape, height);
      |r| > 0 && InChamber(r)
      && (forall i :: 0 <= i < |r| ==> height <= r[i].0 <= height + 3 && 2 <= r[i].1)
      && (exists i :: 0 <= i < |r| && r[i].0 == height)
      && (exists i :: 0 <= i < |r| && r[i].1 == 2)
  {
    var r := Spawn(shape, height);
    var low :| 0 <= low < |shape| && shape[low].0 == 0;
    var left :| 0 <= left < |shape| && shape[left].1 == 0;
    assert r[low].0 == height && r[left].1 == 2;
  }

  /** Where a falling rock comes to rest, and the jet counter afterwards: a
      jet pushes it if it can, then it steps down if it can. */
  function Settle(jets: seq<Jet>, counter: nat, rocks: seq<Cell>, memory: set<Cell>): (r: (seq<Cell>, nat))
    requires counter < |jets| && |rocks| > 0 && InChamber(rocks)
    ensures r.1 < |jets| && |r.0| == |rocks| && InChamber(r.0)
    decreases rocks[0].0
  {
    var pushed := Blown(rocks, jets[counter], memory);
    var next := if counter + 1 == |jets| then 0 else counter + 1;
    if CanDrop(pushed, memory) then
      DropSafe(pushed, memory);
      Settle(jets, next, Drop(pushed), memory)
    else (pushed, next)
  }

  /** A settled rock has the shape it started with, has not risen, cannot step
      down any further, and never passes through a fallen rock. */
  lemma {:induction false} SettleRests(jets: seq<Jet>, counter: nat, rocks: seq<Cell>, memory: set<Cell>)
    requires counter < |jets| && |rocks| > 0 && InChamber(rocks)
    ensures var r := Settle(jets, counter, rocks, memory).0;
      SameShape(rocks, r) && r[0].0 <= rocks[0].0 && !CanDrop(r, memory)
      && (Clear(rocks, memory) ==> Clear(r, memory))
    decreases rocks[0].0
  {
    var pushed := Blown(rocks, jets[counter], memory);
    var next := if counter + 1 == |jets| then 0 else counter + 1;
    BlownSafe(rocks, jets[counter], memory);
    if CanDrop(pushed, memory) {
      DropSafe(pushed, memory);
      SettleRests(jets, next, Drop(pushed), memory);
    }
  }

  // ---------------------------------------------------------------- heights

  function MaxOf(s: seq<nat>): nat
    requires |s| > 0
  {
    if |s| == 1 then s[0]
    else
      var m := MaxOf(s[1..]);
      if s[0] >= m then s[0] else m
  }

  /** The maximum bounds every element and is one of them. */
  lemma {:induction false} MaxOfIsMax(s: seq<nat>)
    requires |s| > 0
    ensures forall i :: 0 <= i < |s| ==> s[i] <= MaxOf(s)
    ensures exists i :: 0 <= i < |s| && s[i] == MaxOf(s)
  {
    if |s| > 1 {
      MaxOfIsMax(s[1..]);
      assert forall i :: 1 <= i < |s| ==> s[i] == s[1..][i - 1];
      if s[0] < MaxOf(s[1..]) {
        var k :| 0 <= k < |s[1..]| && s[1..][k] == MaxOf(s[1..]);
        assert s[k + 1] == MaxOf(s);
      } else {
        assert s[0] == MaxOf(s);
      }
    }
  }

  function MinOf(s: seq<nat>): nat
    requires |s| > 0
  {
    if |s| == 1 then s[0]
    else
      var m := MinOf(s[1..]);
      if s[0] <= m then s[0] else m
  }

  /** The minimum is at most every element and is one of them. */
  lemma {:induction false} MinOfIsMin(s: seq<nat>)
    requires |s| > 0
    ensures forall i :: 0 <= i < |s| ==> MinOf(s) <= s[i]
    ensures exists i :: 0 <= i < |s| && s[i] == MinOf(s)
  {
    if |s| > 1 {
      MinOfIsMin(s[1..]);
      assert forall i :: 1 <= i < |s| ==> s[i] == s[1..][i - 1];
    }
    if |s| > 1 && s[0] > MinOf(s[1..]) {
      var k :| 0 <= k < |s[1..]| && s[1..][k] == MinOf(s[1..]);
      assert s[k + 1] == MinOf(s);
    } else {
      assert s[0] == MinOf(s);
    }
  }

  /** The heights with their minimum taken off. */
  function Normalized(h: seq<nat>): (r: seq<nat>)
    requires |h| > 0
    ensures |r| == |h|
  {
    MinOfIsMin(h);
    seq(|h|, i requires 0 <= i < |h| => h[i] - MinOf(h))
  }

  /** Normalizing keeps the skyline, the differences between columns, and
      rests it on its lowest column. */
  lemma NormalizedShape(h: seq<nat>)
    requires |h| > 0
    ensures exists i :: 0 <= i < |h| && Normalized(h)[i] == 0
    ensures forall i, j :: 0 <= i < |h| && 0 <= j < |h| ==> Normalized(h)[i] as int - Normalized(h)[j] == h[i] as int - h[j]
  {
    MinOfIsMin(h);
    var k :| 0 <= k < |h| && h[k] == MinOf(h);
    assert Normalized(h)[k] == 0;
  }

  /** Every column raised to just above each rock in it, one rock after the
      other. */
  function Raise(heights: seq<nat>, rocks: seq<Cell>): (r: seq<nat>)
    requires |heights| == Width && InChamber(rocks)
    ensures |r| == Width
    decreases |rocks|
  {
    if |rocks| == 0 then heights
    else
      var c := rocks[|rocks| - 1];
      var h := Raise(heights, rocks[..|rocks| - 1]);
      h[c.1 := if h[c.1] >= c.0 + 1 then h[c.1] else c.0 + 1]
  }

  /** Raising never lowers a column, leaves every column above each rock in
      it, and moves a column only to just above some rock in it. */
  lemma {:induction false} RaiseCovers(heights: seq<nat>, rocks: seq<Cell>)
    requires |heights| == Width && InChamber(rocks)
    ensures var r := Raise(heights, rocks);
      (forall x :: 0 <= x < Width ==> heights[x] <= r[x])
      && (forall i :: 0 <= i < |rocks| ==> rocks[i].0 < r[rocks[i].1])
      && (forall x :: 0 <= x < Width ==> r[x] == heights[x] || RaisedBy(rocks, x, r[x]))
    decreases |rocks|
  {
    if |rocks| > 0 {
      var init := rocks[..|rocks| - 1];
      var c := rocks[|rocks| - 1];
      RaiseCovers(heights, init);
      var h := Raise(heights, init);
      var r := Raise(heights, rocks);
      assert forall i :: 0 <= i < |init| ==> init[i] == rocks[i];
      forall x | 0 <= x < Width && r[x] != heights[x]
        ensures RaisedBy(rocks, x, r[x])
      {
        if r[x] == h[x] {
          var i :| 0 <= i < |init| && init[i].1 == x && init[i].0 + 1 == h[x];
          assert rocks[i] == init[i];
        } else {
          assert rocks[|rocks| - 1] == c;
        }
      }
    }
  }

  /** Some rock in column x has its top at `top`. */
  predicate RaisedBy(rocks: seq<Cell>, x: nat, top: nat) {
    exists i :: 0 <= i < |rocks| && rocks[i].1 == x && rocks[i].0 + 1 == top
  }

  function Cells(rocks: seq<Cell>): set<Cell> {
    set i | 0 <= i < |rocks| :: rocks[i]
  }

  lemma CellsSnoc(rocks: seq<Cell>, c: Cell)
    ensures Cells(rocks + [c]) == Cells(rocks) + {c}
  {
    var s := rocks + [c];
    assert forall i :: 0 <= i < |rocks| ==> s[i] == rocks[i];
    assert s[|rocks|] == c;
  }

  // ------------------------------------------------------------ the chamber

  /** The state of the chamber: the height of every column, the next shape,
      the next jet, the number of fallen rocks and the occupied units. */
  datatype Board = Board(heights: seq<nat>, nextPiece: nat, jetCounter: nat, felled: nat,
                         shapes: seq<seq<Cell>>, memory: set<Cell>)

  /** Shape and jet counters in range, every shape fitting, and every
      occupied unit inside the chamber, below the height recorded for its
      column. */
  ghost predicate WellFormed(jets: seq<Jet>, b: Board) {
    |b.heights| == Width && b.nextPiece < Pieces
    && |b.shapes| == Pieces && (forall p :: 0 <= p < Pieces ==> ShapeFits(b.shapes[p]))
    && (b.jetCounter < |jets| || b.jetCounter == 0)
    && forall c {:trigger Below(b, c)} :: c in b.memory ==> Below(b, c)
  }

  /** Moving the jet counter keeps a board well formed. */
  lemma CounterMoved(jets: seq<Jet>, b: Board, counter: nat)
    requires WellFormed(jets, b) && counter < |jets|
    ensures WellFormed(jets, b.(jetCounter := counter))
  {
    forall c | c in b.memory
      ensures Below(b.(jetCounter := counter), c)
    {
      assert Below(b, c);
    }
  }

  /** The unit lies inside the chamber, below the height of its column. */
  predicate Below(b: Board, c: Cell) {
    c.1 < Width && c.1 < |b.heights| && c.0 < b.heights[c.1]
  }

  function Initial(): Board {
    Board(seq(Width, _ => 0), 0, 0, 0, Tetrominos(), {})
  }

  lemma InitialWellFormed(jets: seq<Jet>)
    ensures WellFormed(jets, Initial())
    ensures TowerHeight(Initial()) == 0
  {
    MaxOfIsMax(Initial().heights);
    assert Initial().heights[0] == 0;
  }

  function TowerHeight(b: Board): nat
    requires |b.heights| > 0
  {
    MaxOf(b.heights)
  }

  /** The rock that falls next appears three rows above the tower. */
  function Spawned(b: Board): (r: seq<Cell>)
    requires |b.heights| > 0 && b.nextPiece < |b.shapes|
  {
    Spawn(b.shapes[b.nextPiece], TowerHeight(b) + 3)
  }

  /** The next rock appears three rows above the tower, with its leftmost
      unit in column 2. */
  lemma SpawnedPlacement(b: Board)
    requires |b.heights| > 0 && b.nextPiece < |b.shapes| && ShapeFits(b.shapes[b.nextPiece])
    ensures |Spawned(b)| > 0 && InChamber(Spawned(b))
    ensures forall i :: 0 <= i < |Spawned(b)| ==>
      TowerHeight(b) + 3 <= Spawned(b)[i].0 <= TowerHeight(b) + 6 && 2 <= Spawned(b)[i].1
    ensures exists i :: 0 <= i < |Spawned(b)| && Spawned(b)[i].0 == TowerHeight(b) + 3
    ensures exists i :: 0 <= i < |Spawned(b)| && Spawned(b)[i].1 == 2
  {
    SpawnPlacement(b.shapes[b.nextPiece], TowerHeight(b) + 3);
  }

  /** A new rock never appears inside the rocks already fallen. */
  lemma SpawnedClear(jets: seq<Jet>, b: Board)
    requires WellFormed(jets, b)
    ensures Clear(Spawned(b), b.memory)
  {
    var h := TowerHeight(b);
    MaxOfIsMax(b.heights);
    SpawnedPlacement(b);
    forall c | c in b.memory
      ensures c.0 < h
    {
      assert Below(b, c);
    }
  }

  /** Where the next rock comes to rest. */
  function Landing(jets: seq<Jet>, b: Board): (r: (seq<Cell>, nat))
    requires WellFormed(jets, b) && |jets| > 0
    ensures r.1 < |jets| && InChamber(r.0)
  {
    SpawnedPlacement(b);
    Settle(jets, b.jetCounter, Spawned(b), b.memory)
  }

  /** The next rock lands in the shape it appeared in, at rest, and outside
      the rocks already fallen. */
  lemma LandingRests(jets: seq<Jet>, b: Board)
    requires WellFormed(jets, b) && |jets| > 0
    ensures SameShape(Spawned(b), Landing(jets, b).0)
    ensures Clear(Landing(jets, b).0, b.memory) && !CanDrop(Landing(jets, b).0, b.memory)
  {
    SpawnedPlacement(b);
    SpawnedClear(jets, b);
    SettleRests(jets, b.jetCounter, Spawned(b), b.memory);
  }

  /** The board once `landed` is frozen: the columns raised over it, its
      units occupied, and the counters moved on. */
  function Frozen(b: Board, landed: seq<Cell>, counter: nat): Board
    requires |b.heights| == Width && InChamber(landed)
  {
    Board(Raise(b.heights, landed), (b.nextPiece + 1) % 5, counter, b.felled + 1,
          b.shapes, b.memory + Cells(landed))
  }

  lemma FrozenWellFormed(jets: seq<Jet>, b: Board, landed: seq<Cell>, counter: nat)
    requires WellFormed(jets, b) && InChamber(landed) && counter < |jets|
    ensures WellFormed(jets, Frozen(b, landed, counter))
    ensures TowerHeight(b) <= TowerHeight(Frozen(b, landed, counter))
  {
    var r := Frozen(b, landed, counter);
    RaiseCovers(b.heights, landed);
    forall c | c in r.memory
      ensures Below(r, c)
    {
      if c in b.memory {
        assert Below(b, c);
      } else {
        var i :| 0 <= i < |landed| && landed[i] == c;
      }
    }
    MaxOfIsMax(b.heights);
    MaxOfIsMax(r.heights);
    var x :| 0 <= x < Width && b.heights[x] == TowerHeight(b);
    assert b.heights[x] <= r.heights[x];
  }

  /** One rock falls and freezes where it lands. */
  function AfterFall(jets: seq<Jet>, b: Board): (r: Board)
    requires WellFormed(jets, b) && |jets| > 0
    ensures WellFormed(jets, r)
  {
    var landing := Landing(jets, b);
    FrozenWellFormed(jets, b, landing.0, landing.1);
    Frozen(b, landing.0, landing.1)
  }

  /** Each fall counts one more rock and moves the shape counter on
      cyclically. */
  lemma FallCounts(jets: seq<Jet>, b: Board)
    requires WellFormed(jets, b) && |jets| > 0
    ensures AfterFall(jets, b).felled == b.felled + 1
    ensures AfterFall(jets, b).nextPiece == (b.nextPiece + 1) % 5
    ensures AfterFall(jets, b).jetCounter == Landing(jets, b).1
  {
  }

  /** Each fall occupies exactly the units of the landed rock, all of which
      were empty. */
  lemma FallFreezes(jets: seq<Jet>, b: Board)
    requires WellFormed(jets, b) && |jets| > 0
    ensures AfterFall(jets, b).memory == b.memory + Cells(Landing(jets, b).0)
    ensures b.memory !! Cells(Landing(jets, b).0)
  {
    var landing := Landing(jets, b);
    LandingRests(jets, b);
    forall c | c in Cells(landing.0)
      ensures c !in b.memory
    {
      var i :| 0 <= i < |landing.0| && landing.0[i] == c;
    }
  }

  /** A fall never lowers the tower. */
  lemma FallMonotone(jets: seq<Jet>, b: Board)
    requires WellFormed(jets, b) && |jets| > 0
    ensures TowerHeight(b) <= TowerHeight(AfterFall(jets, b))
  {
    var landing := Landing(jets, b);
    FrozenWellFormed(jets, b, landing.0, landing.1);
  }

  /** A rock at rest has a unit on the floor or on a fallen rock, so no
      higher than the tower was. */
  lemma RestsLow(jets: seq<Jet>, b: Board, landed: seq<Cell>) returns (low: nat)
    requires WellFormed(jets, b) && !CanDrop(landed, b.memory)
    ensures low < |landed| && landed[low].0 <= TowerHeight(b)
  {
    MaxOfIsMax(b.heights);
    low :| 0 <= low < |landed| && !RockCanDrop(landed[low], b.memory);
    if landed[low].0 != 0 {
      var below := (landed[low].0 - 1, landed[low].1);
      assert below in b.memory;
      assert Below(b, below);
    }
  }

  /** Moving a shape keeps the distance between its rows. */
  lemma SpanKept(a: seq<Cell>, b: seq<Cell>, lo: nat, low: nat)
    requires SameShape(a, b) && low < |a|
    requires forall i :: 0 <= i < |a| ==> lo <= a[i].0 <= lo + 3
    ensures forall i :: 0 <= i < |b| ==> b[i].0 <= b[low].0 + 3
  {
    forall i | 0 <= i < |b|
      ensures b[i].0 <= b[low].0 + 3
    {
      assert a[i].0 as int - a[0].0 == b[i].0 as int - b[0].0;
      assert a[low].0 as int - a[0].0 == b[low].0 as int - b[0].0;
    }
  }

  /** No column rises above a bound that the rocks and the old heights stay
      below. */
  lemma RaiseBelow(heights: seq<nat>, rocks: seq<Cell>, bound: nat)
    requires |heights| == Width && InChamber(rocks)
    requires forall x :: 0 <= x < Width ==> heights[x] <= bound
    requires forall i :: 0 <= i < |rocks| ==> rocks[i].0 < bound
    ensures forall x :: 0 <= x < Width ==> Raise(heights, rocks)[x] <= bound
  {
    var r := Raise(heights, rocks);
    RaiseCovers(heights, rocks);
    forall x | 0 <= x < Width
      ensures r[x] <= bound
    {
      if r[x] != heights[x] {
        var i :| 0 <= i < |rocks| && rocks[i].1 == x && rocks[i].0 + 1 == r[x];
      }
    }
  }

  /** The tower grows by at most four rows, the height of the tallest shape,
      with each rock. */
  lemma FallGrowth(jets: seq<Jet>, b: Board)
    requires WellFormed(jets, b) && |jets| > 0
    ensures TowerHeight(AfterFall(jets, b)) <= TowerHeight(b) + 4
  {
    var h := TowerHeight(b);
    var landed := Landing(jets, b).0;
    SpawnedPlacement(b);
    LandingRests(jets, b);
    var low := RestsLow(jets, b, landed);
    SpanKept(Spawned(b), landed, h + 3, low);
    MaxOfIsMax(b.heights);
    RaiseBelow(b.heights, landed, h + 4);
    var r := AfterFall(jets, b);
    MaxOfIsMax(r.heights);
    var x :| 0 <= x < Width && r.heights[x] == TowerHeight(r);
  }

  /** `n` rocks fall one after the other: `n` more rocks are at rest and
      the tower has grown by at most four rows for each rock. */
  function Run(jets: seq<Jet>, b: Board, n: nat): (r: Board)
    requires WellFormed(jets, b) && |jets| > 0
    ensures WellFormed(jets, r) && r.felled == b.felled + n
    ensures TowerHeight(b) <= TowerHeight(r) <= TowerHeight(b) + 4 * n
    decreases n
  {
    if n == 0 then b
    else
      var prev := Run(jets, b, n - 1);
      FallCounts(jets, prev);
      FallMonotone(jets, prev);
      FallGrowth(jets, prev);
      AfterFall(jets, prev)
  }

  // ------------------------------------------------------------- the screen

  /** The chamber of the program, updated in place by every fall. */
  class Screen {
    const heights: array<nat>
    var nextPiece: nat
    const jets: seq<Jet>
    const jetLen: nat
    var jetCounter: nat
    var felled: nat
    const tetrominos: seq<seq<Cell>>
    var memory: set<Cell>

    ghost predicate Valid()
      reads this, heights
    {
      heights.Length == Width && jetLen == |jets|
      && WellFormed(jets, Model())
    }

    function Model(): Board
      reads this, heights
    {
      Board(heights[..], nextPiece, jetCounter, felled, tetrominos, memory)
    }

    constructor (jets: seq<Jet>)
      ensures Valid() && fresh(heights)
      ensures this.jets == jets && Model() == Initial()
    {
      heights := new nat[Width](_ => 0);
      nextPiece := 0;
      this.jets := jets;
      jetLen := |jets|;
      jetCounter := 0;
      felled := 0;
      tetrominos := Tetrominos();
      memory := {};
      new;
      assert heights[..] == Initial().heights;
      InitialWellFormed(jets);
    }

    /** The heights with their minimum taken off. */
    function NormalizedHeights(): (r: seq<nat>)
      reads this, heights
      requires Valid()
      ensures |r| == Width && exists x :: 0 <= x < Width && r[x] == 0
      ensures forall x, y :: 0 <= x < Width && 0 <= y < Width ==> r[x] as int - r[y] == heights[x] as int - heights[y]
    {
      NormalizedShape(heights[..]);
      Normalized(heights[..])
    }

    /** The height of the tower: the highest column. */
    function Height(): (h: nat)
      reads this, heights
      requires Valid()
      ensures forall x :: 0 <= x < Width ==> heights[x] <= h
      ensures exists x :: 0 <= x < Width && heights[x] == h
      ensures h == TowerHeight(Model())
    {
      MaxOfIsMax(heights[..]);
      MaxOf(heights[..])
    }

    method JetApplicable(rocks: seq<Cell>, order: Jet) returns (applicable: bool)
      ensures applicable == JetApplies(rocks, order, memory)
    {
      applicable := true;
      for i := 0 to |rocks|
        invariant forall k :: 0 <= k < i ==> RockApplies(rocks[k], order, memory)
      {
        var rock := rocks[i];
        if order == Left && rock.1 == 0 {
          applicable := false;
          break;
        }
        if order == Right && rock.1 == Width - 1 {
          applicable := false;
          break;
        }
        var applied := (rock.0, if order == Left then rock.1 - 1 else rock.1 + 1);
        if applied in memory {
          applicable := false;
          break;
        }
      }
    }

    method CanGoDown(rocks: seq<Cell>) returns (goDown: bool)
      ensures goDown == CanDrop(rocks, memory)
    {
      goDown := true;
      for i := 0 to |rocks|
        invariant forall k :: 0 <= k < i ==> RockCanDrop(rocks[k], memory)
      {
        var rock := rocks[i];
        if rock.0 == 0 {
          goDown := false;
          break;
        }
        var dropped := (rock.0 - 1, rock.1);
        if dropped in memory {
          goDown := false;
          break;
        }
      }
    }

    /** The rock after one jet: pushed if every unit of it can move. */
    method Push(rocks: seq<Cell>, order: Jet) returns (pushed: seq<Cell>)
      requires |rocks| > 0 && InChamber(rocks)
      ensures pushed == Blown(rocks, order, memory)
    {
      pushed := rocks;
      var applicable := JetApplicable(rocks, order);
      if applicable {
        pushed := ShiftAll(rocks, order);
      }
    }

    /** Records a rock that has come to rest. */
    method Freeze(rocks: seq<Cell>)
      requires heights.Length == Width && InChamber(rocks)
      modifies this, heights
      ensures heights[..] == Raise(old(heights[..]), rocks)
      ensures memory == old(memory) + Cells(rocks)
      ensures nextPiece == old(nextPiece) && jetCounter == old(jetCounter) && felled == old(felled)
    {
      for i := 0 to |rocks|
        invariant heights[..] == Raise(old(heights[..]), rocks[..i])
        invariant memory == old(memory) + Cells(rocks[..i])
        invariant nextPiece == old(nextPiece) && jetCounter == old(jetCounter) && felled == old(felled)
      {
        var rock := rocks[i];
        var x := rock.1;
        assert rocks[..i + 1] == rocks[..i] + [rock];
        assert rocks[..i + 1][..i] == rocks[..i];
        heights[x] := if heights[x] >= rock.0 + 1 then heights[x] else rock.0 + 1;
        CellsSnoc(rocks[..i], rock);
        memory := memory + {rock};
      }
      assert rocks[..|rocks|] == rocks;
    }

    /** Moves a falling rock, jet after jet, until it cannot step down; only
        the jet counter changes. */
    method DropRock(rocks: seq<Cell>) returns (landed: seq<Cell>)
      requires Valid() && |jets| > 0 && |rocks| > 0 && InChamber(rocks)
      modifies this
      ensures Valid() && (landed, jetCounter) == Settle(jets, old(jetCounter), rocks, memory)
      ensures Model() == old(Model()).(jetCounter := jetCounter)
    {
      landed := rocks;
      while true
        invariant |landed| > 0 && InChamber(landed) && jetCounter < jetLen
        invariant Settle(jets, jetCounter, landed, memory) == Settle(jets, old(jetCounter), rocks, memory)
        invariant Model() == old(Model()).(jetCounter := jetCounter)
        decreases landed[0].0
      {
        var order := jets[jetCounter];
        jetCounter := if jetCounter + 1 == jetLen then 0 else jetCounter + 1;
        landed := Push(landed, order);
        var goDown := CanGoDown(landed);
        if !goDown {
          CounterMoved(jets, old(Model()), jetCounter);
          return;
        }
        DropSafe(landed, memory);
        landed := DropAll(landed);
      }
    }

    /** `n` rocks fall one after the other. */
    method Simulate(n: nat)
      requires Valid() && |jets| > 0
      modifies this, heights
      ensures Valid() && Model() == Run(jets, old(Model()), n)
    {
      for i := 0 to n
        invariant Valid() && Model() == Run(jets, old(Model()), i)
      {
        Fall();
      }
    }

    /** Drops the next rock until it comes to rest, and freezes it there. */
    method Fall()
      requires Valid() && |jets| > 0
      modifies this, heights
      ensures Valid() && Model() == AfterFall(jets, old(Model()))
    {
      ghost var b := Model();
      var height := Height() + 3;
      var rocks := Spawn(tetrominos[nextPiece], height);
      assert rocks == Spawned(b);
      SpawnedPlacement(b);
      rocks := DropRock(rocks);
      ghost var landing := (rocks, jetCounter);
      assert landing == Landing(jets, b);
      Freeze(rocks);
      nextPiece := (nextPiece + 1) % 5;
      felled := felled + 1;
      assert Model() == Frozen(b, landing.0, landing.1);
      FrozenWellFormed(jets, b, landing.0, landing.1);
    }
  }

  /** Pushes every rock one unit sideways, in place. */
  method ShiftAll(rocks: seq<Cell>, order: Jet) returns (moved: seq<Cell>)
    requires forall i :: 0 <= i < |rocks| ==> order == Left ==> rocks[i].1 > 0
    ensures moved == Shift(rocks, order)
  {
    moved := rocks;
    for i := 0 to |moved|
      invariant |moved| == |rocks|
      invariant forall k :: 0 <= k < i ==> moved[k] == Pushed(rocks[k], order)
      invariant forall k :: i <= k < |rocks| ==> moved[k] == rocks[k]
    {
      var rock := moved[i];
      if order == Left {
        moved := moved[i := (rock.0, rock.1 - 1)];
      } else {
        moved := moved[i := (rock.0, rock.1 + 1)];
      }
    }
  }

  /** Moves every rock one unit down, in place. */
  method DropAll(rocks: seq<Cell>) returns (moved: seq<Cell>)
    requires forall i :: 0 <= i < |rocks| ==> rocks[i].0 > 0
    ensures moved == Drop(rocks)
  {
    moved := rocks;
    for i := 0 to |moved|
      invariant |moved| == |rocks|
      invariant forall k :: 0 <= k < i ==> moved[k] == (rocks[k].0 - 1, rocks[k].1)
      invariant forall k :: i <= k < |rocks| ==> moved[k] == rocks[k]
    {
      moved := moved[i := (moved[i].0 - 1, moved[i].1)];
    }
  }

  // ------------------------------------------------------------- part one

  /** The height of the tower after 2022 rocks (an empty pattern makes the
      program index an empty jet list). */
  method SolvePartOne(data: string) returns (r: Result<nat>)
    ensures r.Ok? <==> ParseJets(data).Ok? && |ParseJets(data).value| > 0
    ensures r.Ok? ==> r.value == TowerHeight(Run(ParseJets(data).value, Initial(), 2022))
  {
    var parsed := ParseJets(data);
    if parsed.Err? {
      return Err(parsed.reason);
    }
    var jets := parsed.value;
    if |jets| == 0 {
      return Err("no jets");
    }
    var screen := new Screen(jets);
    screen.Simulate(2022);
    r := Ok(screen.Height());
  }

  // ----------------------------------------------------------------- cycles

  /** `d` is a positive divisor of `n`. */
  predicate Divides(d: nat, n: nat) {
    d > 0 && n % d == 0
  }

  /** A step of Euclid's algorithm keeps the common divisors. */
  lemma CommonDivisorsRem(a: nat, b: nat, d: nat)
    requires a > 0
    ensures (Divides(d, a) && Divides(d, b)) <==> (Divides(d, b % a) && Divides(d, a))
  {
    if d > 0 && a % d == 0 {
      var k := a / d;
      assert a == d * k;
      assert b == a * (b / a) + b % a;
      assert b == d * (k * (b / a)) + b % a;
      Arith.ModShift(b % a, d, k * (b / a));
    }
  }

  /** Euclid's algorithm: the greatest common divisor, which every common
      divisor divides; zero only when both are zero. */
  method Gcd(a0: nat, b0: nat) returns (g: nat)
    ensures g == 0 <==> a0 == 0 && b0 == 0
    ensures g > 0 ==> Divides(g, a0) && Divides(g, b0)
    ensures forall d :: Divides(d, a0) && Divides(d, b0) ==> Divides(d, g)
  {
    var a, b := a0, b0;
    while a != 0
      invariant (a == 0 && b == 0) <==> (a0 == 0 && b0 == 0)
      invariant forall d :: Divides(d, a) && Divides(d, b) <==> Divides(d, a0) && Divides(d, b0)
      decreases a
    {
      forall d
        ensures Divides(d, a) && Divides(d, b) <==> Divides(d, b % a) && Divides(d, a)
      {
        CommonDivisorsRem(a, b, d);
      }
      var prev := a;
      a := b % a;
      b := prev;
    }
    g := b;
    if g > 0 {
      assert Divides(g, a) && Divides(g, b);
    }
  }

  /** Five is prime: its greatest common divisor with a positive number is 5
      when 5 divides the number and 1 otherwise. */
  lemma GcdWithFive(n: nat, g: nat)
    requires n > 0 && Divides(g, n) && Divides(g, 5)
    requires forall d :: Divides(d, n) && Divides(d, 5) ==> Divides(d, g)
    ensures g == if n % 5 == 0 then 5 else 1
  {
    assert g <= 5;
    if n % 5 == 0 {
      assert Divides(5, n) && Divides(5, 5);
    }
  }

  /** The least common multiple of the pattern length and the number of
      shapes. */
  function MinimalCycle(n: nat): nat {
    if n % 5 == 0 then n else 5 * n
  }

  /** The minimal cycle is a multiple of both the pattern length and 5. */
  lemma MinimalCycleMultiple(n: nat)
    requires n > 0
    ensures MinimalCycle(n) > 0 && MinimalCycle(n) % n == 0 && MinimalCycle(n) % 5 == 0
  {
    if n % 5 != 0 {
      Arith.ModShift(0, n, 5);
      Arith.ModShift(0, 5, n);
    }
  }

  /** No smaller positive number is a multiple of both. */
  lemma MinimalCycleLeast(n: nat, m: nat)
    requires n > 0 && m > 0 && m % n == 0 && m % 5 == 0
    ensures MinimalCycle(n) <= m
  {
    var k := m / n;
    assert m == n * k;
    if k == 0 {
      assert false;
    }
    if n % 5 == 0 {
      Arith.MulAtLeast(n, k);
    } else {
      Arith.ModMul(n, k, 5);
      ProductModFive(n % 5, k % 5);
      assert k >= 5;
      Arith.MulNonNegative(n, k - 5);
      assert n * k == n * (k - 5) + 5 * n;
    }
  }

  /** The product of two residues modulo 5 is zero only if one of them is. */
  lemma ProductModFive(x: nat, y: nat)
    requires x < 5 && y < 5
    ensures (x * y) % 5 == 0 ==> x == 0 || y == 0
  {
  }

  /** The program's `(len * 5) / gcd(len, 5)` is the minimal cycle. */
  lemma MinimalCycleFromGcd(n: nat, g: nat)
    requires n > 0 && g == if n % 5 == 0 then 5 else 1
    ensures (n * 5) / g == MinimalCycle(n)
  {
    if g == 5 {
      Arith.DivUnique(n * 5, 5, n, 0);
    }
  }

  /** The board after the first minimal cycle of rocks. */
  ghost function FirstCycle(jets: seq<Jet>): (r: Board)
    requires |jets| > 0
    ensures WellFormed(jets, r) && r.felled == MinimalCycle(|jets|)
  {
    Run(jets, Initial(), MinimalCycle(|jets|))
  }

  /** `k` more minimal cycles of rocks fall after `b`. */
  ghost function Cycles(jets: seq<Jet>, b: Board, k: nat): (r: Board)
    requires WellFormed(jets, b) && |jets| > 0
    ensures WellFormed(jets, r) && r.felled == b.felled + Arith.Times(k, MinimalCycle(|jets|))
    ensures TowerHeight(b) <= TowerHeight(r)
    decreases k
  {
    if k == 0 then b
    else
      Run(jets, Cycles(jets, b, k - 1), MinimalCycle(|jets|))
  }

  /** Two boards show the same skyline, seen from their lowest columns. */
  ghost predicate SameSkyline(b: Board, c: Board)
    requires |b.heights| > 0 && |c.heights| > 0
  {
    Normalized(b.heights) == Normalized(c.heights)
  }

  /** After `k` more minimal cycles the skyline is the one after the first. */
  ghost predicate Repeats(jets: seq<Jet>, k: nat)
    requires |jets| > 0
  {
    SameSkyline(Cycles(jets, FirstCycle(jets), k), FirstCycle(jets))
  }

  /** `rc` is the first repeat that the program looks for, and `rc` cycles
      after the first fit in `total` rocks. */
  ghost predicate FirstRepeat(jets: seq<Jet>, total: nat, rc: nat)
    requires |jets| > 0
  {
    var mc := MinimalCycle(|jets|);
    FirstFound(jets, rc) && rc < total / mc && mc + CyclePieces(|jets|, rc) <= total
  }

  /** How many further repeats of a cycle of `cycle` rocks are skipped: all
      that fit after the first `first` rocks and the simulated repeat. */
  function Skipped(total: nat, first: nat, cycle: nat): (r: nat)
    requires cycle > 0 && first + cycle <= total
    ensures first + cycle + Arith.Rem(total - first, cycle) + Arith.Times(r, cycle) == total
  {
    Arith.QuotRem(total - first, cycle);
    Arith.Quot(total - first, cycle) - 1
  }

  /** The rocks in `rc` minimal cycles. */
  function CyclePieces(n: nat, rc: nat): (r: nat)
    requires n > 0 && rc > 0
    ensures r >= MinimalCycle(n) > 0
  {
    MinimalCycleMultiple(n);
    Arith.TimesAtLeast(rc, MinimalCycle(n));
    Arith.Times(rc, MinimalCycle(n))
  }

  /** The board the program reaches: the first cycle, one repeat of `rc`
      cycles, and the rocks of the remainder. */
  ghost function Simulated(jets: seq<Jet>, total: nat, rc: nat): (r: Board)
    requires |jets| > 0 && rc > 0 && MinimalCycle(|jets|) + CyclePieces(|jets|, rc) <= total
    ensures WellFormed(jets, r)
  {
    var mc := MinimalCycle(|jets|);
    Run(jets, Cycles(jets, FirstCycle(jets), rc), Arith.Rem(total - mc, CyclePieces(|jets|, rc)))
  }

  /** The simulated board holds the first cycle, one repeat and the
      remainder. */
  lemma SimulatedFelled(jets: seq<Jet>, total: nat, rc: nat)
    requires |jets| > 0 && rc > 0 && MinimalCycle(|jets|) + CyclePieces(|jets|, rc) <= total
    ensures Simulated(jets, total, rc).felled == MinimalCycle(|jets|) + CyclePieces(|jets|, rc)
      + Arith.Rem(total - MinimalCycle(|jets|), CyclePieces(|jets|, rc))
  {
  }

  /** The answer the program extrapolates when the skyline first repeats
      after `rc` cycles: the height of the simulated board, plus the height
      of one repeat for every repeat that is skipped. */
  ghost function Estimate(jets: seq<Jet>, total: nat, rc: nat): nat
    requires |jets| > 0 && rc > 0 && MinimalCycle(|jets|) + CyclePieces(|jets|, rc) <= total
  {
    var b1 := FirstCycle(jets);
    var b2 := Cycles(jets, FirstCycle(jets), rc);
    Extrapolate(TowerHeight(b1), TowerHeight(b2), TowerHeight(Simulated(jets, total, rc)),
      Skipped(total, MinimalCycle(|jets|), CyclePieces(|jets|, rc)))
  }

  /** A height `h3` plus the growth from `h1` to `h2` once for every one of
      `skipped` repeats. */
  function Extrapolate(h1: nat, h2: nat, h3: nat, skipped: nat): nat
    requires h1 <= h2
  {
    if skipped == 0 then h3 else Extrapolate(h1, h2, h3, skipped - 1) + (h2 - h1)
  }

  /** A repeat of `rc` cycles holds `CyclePieces` rocks. */
  lemma RepeatFelled(jets: seq<Jet>, rc: nat)
    requires |jets| > 0 && rc > 0
    ensures Cycles(jets, FirstCycle(jets), rc).felled == FirstCycle(jets).felled + CyclePieces(|jets|, rc)
  {
  }

  /** The rocks simulated and those skipped account for all `total` of them. */
  lemma EstimateAccounts(jets: seq<Jet>, total: nat, rc: nat)
    requires |jets| > 0 && rc > 0 && MinimalCycle(|jets|) + CyclePieces(|jets|, rc) <= total
    ensures Simulated(jets, total, rc).felled
      + Arith.Times(Skipped(total, MinimalCycle(|jets|), CyclePieces(|jets|, rc)), CyclePieces(|jets|, rc)) == total
  {
    SimulatedFelled(jets, total, rc);
  }

  /** Fewer than two repeats are simulated after the first cycle. */
  lemma SimulatedFewer(jets: seq<Jet>, total: nat, rc: nat)
    requires |jets| > 0 && rc > 0 && MinimalCycle(|jets|) + CyclePieces(|jets|, rc) <= total
    ensures Simulated(jets, total, rc).felled < MinimalCycle(|jets|) + 2 * CyclePieces(|jets|, rc)
  {
    SimulatedFelled(jets, total, rc);
  }

  /** A repeat of `rc` cycles that the program tries fits, with the first
      cycle, in `total` rocks. */
  lemma CycleFits(n: nat, total: nat, rc: nat)
    requires n > 0 && 1 <= rc < total / MinimalCycle(n)
    ensures MinimalCycle(n) + CyclePieces(n, rc) <= total
  {
    var mc := MinimalCycle(n);
    MinimalCycleMultiple(n);
    Arith.TimesMul(rc, mc);
    var q := total / mc;
    assert total == mc * q + total % mc;
    Arith.MulAtLeast(mc, q - rc);
    assert mc * q == mc * (q - rc) + mc * rc;
  }

  /** The program's product, quotient and remainder for a repeat of `rc`
      cycles are the model's. */
  lemma CycleDivision(n: nat, total: nat, rc: nat)
    requires n > 0 && rc >= 1 && MinimalCycle(n) + CyclePieces(n, rc) <= total
    ensures rc * MinimalCycle(n) == CyclePieces(n, rc)
    ensures (total - MinimalCycle(n)) / CyclePieces(n, rc) == Skipped(total, MinimalCycle(n), CyclePieces(n, rc)) + 1
    ensures (total - MinimalCycle(n)) % CyclePieces(n, rc) == Arith.Rem(total - MinimalCycle(n), CyclePieces(n, rc))
  {
    Arith.TimesMul(rc, MinimalCycle(n));
    Arith.QuotRem(total - MinimalCycle(n), CyclePieces(n, rc));
  }

  /** The program's `(len * 5) / gcd(len, 5)`: the minimal cycle, and 0 for an
      empty pattern. */
  method MinimalCycleOf(orderCycle: nat) returns (minimalCycle: nat)
    ensures minimalCycle == if orderCycle == 0 then 0 else MinimalCycle(orderCycle)
  {
    var g := Gcd(orderCycle, 5);
    minimalCycle := (orderCycle * 5) / g;
    if orderCycle > 0 {
      GcdWithFive(orderCycle, g);
      MinimalCycleFromGcd(orderCycle, g);
    }
  }

  /** How many repeats of `realCycle` cycles fit after the first cycle, and
      how many rocks are left over. */
  method CycleSplit(n: nat, total: nat, realCycle: nat) returns (howManyFullCycles: nat, remainder: nat)
    requires n > 0 && realCycle >= 1 && MinimalCycle(n) + CyclePieces(n, realCycle) <= total
    ensures howManyFullCycles == Skipped(total, MinimalCycle(n), CyclePieces(n, realCycle)) + 1
    ensures remainder == Arith.Rem(total - MinimalCycle(n), CyclePieces(n, realCycle))
    ensures Arith.Times(howManyFullCycles, CyclePieces(n, realCycle)) + remainder == total - MinimalCycle(n)
  {
    var minimalCycle := MinimalCycle(n);
    CycleDivision(n, total, realCycle);
    Arith.QuotRem(total - minimalCycle, CyclePieces(n, realCycle));
    howManyFullCycles := (total - minimalCycle) / (realCycle * minimalCycle);
    remainder := (total - minimalCycle) % (realCycle * minimalCycle);
  }

  /** The estimate, from the heights of the three boards it is made of. */
  lemma EstimateOf(jets: seq<Jet>, total: nat, rc: nat, h1: nat, h2: nat, h3: nat, skipped: nat, value: nat)
    requires |jets| > 0 && rc > 0 && MinimalCycle(|jets|) + CyclePieces(|jets|, rc) <= total
    requires h1 == TowerHeight(FirstCycle(jets)) && h2 == TowerHeight(Cycles(jets, FirstCycle(jets), rc))
    requires h3 == TowerHeight(Simulated(jets, total, rc))
    requires skipped == Skipped(total, MinimalCycle(|jets|), CyclePieces(|jets|, rc))
    requires h1 <= h2 && value == Extrapolate(h1, h2, h3, skipped)
    ensures value == Estimate(jets, total, rc)
  {
  }

  /** The program's sum of the remainder height, the first cycle's height and
      `count` times a repeat's height is the extrapolation. */
  lemma {:induction false} ExtrapolationSum(first: nat, cycle: nat, rest: nat, count: nat)
    requires count >= 1
    ensures rest + first + cycle * count == Extrapolate(first, first + cycle, first + cycle + rest, count - 1)
    decreases count
  {
    if count > 1 {
      ExtrapolationSum(first, cycle, rest, count - 1);
      assert cycle * count == cycle * (count - 1) + cycle;
    }
  }

  /** The program's final sum: the remainder's height, the first cycle's
      height and `count` times the height of one repeat, which is the
      extrapolation from heights `first`, `h2` and `h3` over `skipped` repeats. */
  method Combine(first: nat, cycle: nat, rest: nat, count: nat, ghost h2: nat, ghost h3: nat, ghost skipped: nat)
    returns (value: nat)
    requires h2 == first + cycle && h3 == h2 + rest && count == skipped + 1
    ensures first <= h2 && value == Extrapolate(first, h2, h3, skipped)
  {
    value := rest + first + cycle * count;
    ExtrapolationSum(first, cycle, rest, count);
  }

  /** One more minimal cycle of rocks after `k` cycles gives `k + 1` cycles. */
  lemma CyclesStep(jets: seq<Jet>, k: nat, before: Board, after: Board)
    requires |jets| > 0 && before == Cycles(jets, FirstCycle(jets), k)
    requires after == Run(jets, before, MinimalCycle(|jets|))
    ensures after == Cycles(jets, FirstCycle(jets), k + 1)
  {
  }

  lemma CyclesNext(jets: seq<Jet>, k: nat, next: nat, before: Board, after: Board)
    requires |jets| > 0 && next == k + 1 && before == Cycles(jets, FirstCycle(jets), k)
    requires after == Run(jets, before, MinimalCycle(|jets|))
    ensures after == Cycles(jets, FirstCycle(jets), next)
  {
    CyclesStep(jets, k, before, after);
  }

  /** The skyline after `k` cycles repeats exactly when the normalized
      heights of the board equal those of the first cycle. */
  lemma RepeatsWhen(jets: seq<Jet>, k: nat, b: Board, seen: seq<nat>, first: seq<nat>)
    requires |jets| > 0 && b == Cycles(jets, FirstCycle(jets), k)
    requires seen == Normalized(b.heights) && first == Normalized(FirstCycle(jets).heights)
    ensures Repeats(jets, k) <==> seen == first
  {
  }

  /** Simulates whole minimal cycles after the first, for at most `rounds` of
      them, until the skyline repeats; 0 when it does not. */
  method FindCycle(screen: Screen, minimalCycle: nat, rounds: nat, first: seq<nat>) returns (realCycle: nat)
    requires screen.Valid() && |screen.jets| > 0 && minimalCycle == MinimalCycle(|screen.jets|)
    requires screen.Model() == FirstCycle(screen.jets) && first == Normalized(FirstCycle(screen.jets).heights)
    modifies screen, screen.heights
    ensures screen.Valid() && realCycle <= rounds
    ensures realCycle == 0 ==> forall k :: 1 <= k <= rounds ==> !Repeats(screen.jets, k)
    ensures realCycle > 0 ==> FirstFound(screen.jets, realCycle) && screen.Model() == Cycles(screen.jets, FirstCycle(screen.jets), realCycle)
  {
    ghost var jets := screen.jets;
    realCycle := 0;
    for a := 0 to rounds
      invariant screen.Valid() && realCycle == 0
      invariant screen.Model() == Cycles(jets, FirstCycle(jets), a)
      invariant forall k :: 1 <= k <= a ==> !Repeats(jets, k)
    {
      var next := a + 1;
      ghost var before := screen.Model();
      screen.Simulate(minimalCycle);
      ghost var after := screen.Model();
      CyclesNext(jets, a, next, before, after);
      var seen := screen.NormalizedHeights();
      RepeatsWhen(jets, next, after, seen, first);
      if seen == first {
        realCycle := next;
        return;
      }
      forall k | 1 <= k <= next
        ensures !Repeats(jets, k)
      {
        if k == next {
        }
      }
    }
  }

  /** After `rc` cycles the skyline repeats for the first time. */
  ghost predicate FirstFound(jets: seq<Jet>, rc: nat)
    requires |jets| > 0
  {
    rc >= 1 && Repeats(jets, rc) && forall k :: 1 <= k < rc ==> !Repeats(jets, k)
  }

  /** Some repeat of the skyline is found before the cycles run out. */
  ghost predicate Extrapolable(jets: seq<Jet>, total: nat) {
    |jets| > 0 && exists rc :: 1 <= rc < total / MinimalCycle(|jets|) && Repeats(jets, rc)
  }

  /** From the board after the first repeat, simulates the remainder and
      extrapolates the skipped cycles. */
  method Extrapolation(screen: Screen, total: nat, realCycle: nat, firstCycleHeight: nat) returns (value: nat)
    requires screen.Valid() && |screen.jets| > 0 && realCycle >= 1
    requires MinimalCycle(|screen.jets|) + CyclePieces(|screen.jets|, realCycle) <= total
    requires screen.Model() == Cycles(screen.jets, FirstCycle(screen.jets), realCycle)
    requires firstCycleHeight == TowerHeight(FirstCycle(screen.jets))
    modifies screen, screen.heights
    ensures value == Estimate(screen.jets, total, realCycle)
  {
    ghost var b2 := screen.Model();
    var fullCycleHeight := screen.Height() - firstCycleHeight;
    assert fullCycleHeight + firstCycleHeight == TowerHeight(b2);
    var howManyFullCycles, remainder := CycleSplit(|screen.jets|, total, realCycle);
    screen.Simulate(remainder);
    ghost var b3 := screen.Model();
    assert b3 == Simulated(screen.jets, total, realCycle);
    assert TowerHeight(b2) <= TowerHeight(b3);
    var h3 := screen.Height();
    var remainderHeight := h3 - (fullCycleHeight + firstCycleHeight);
    ghost var h2, skipped := firstCycleHeight + fullCycleHeight, howManyFullCycles - 1;
    value := Combine(firstCycleHeight, fullCycleHeight, remainderHeight, howManyFullCycles, h2, h3, skipped);
    EstimateOf(screen.jets, total, realCycle, firstCycleHeight, h2, h3, skipped, value);
  }

  /** Without a repeat in any of the cycles that fit, nothing can be
      extrapolated. */
  lemma NoRepeatFound(jets: seq<Jet>, total: nat, rounds: nat)
    requires |jets| > 0 && rounds + 1 == total / MinimalCycle(|jets|)
    requires forall k :: 1 <= k <= rounds ==> !Repeats(jets, k)
    ensures !Extrapolable(jets, total)
  {
  }

  /** When not even one whole cycle fits, nothing can be extrapolated. */
  lemma NoCycleFits(jets: seq<Jet>, total: nat, minimalCycle: nat)
    requires |jets| > 0 && minimalCycle == MinimalCycle(|jets|) && total / minimalCycle == 0
    ensures !Extrapolable(jets, total)
  {
  }

  /** A first repeat that fits makes the height extrapolable. */
  lemma RepeatFound(jets: seq<Jet>, total: nat, rc: nat)
    requires |jets| > 0 && FirstRepeat(jets, total, rc)
    ensures Extrapolable(jets, total)
  {
  }

  /** The first half of the cyclical solution: a new screen after one
      minimal cycle, with its normalized skyline and its height. */
  method FirstCycleScreen(jets: seq<Jet>, minimalCycle: nat) returns (screen: Screen, firstHeights: seq<nat>, firstCycleHeight: nat)
    requires |jets| > 0 && minimalCycle == MinimalCycle(|jets|)
    ensures fresh(screen) && fresh(screen.heights) && screen.Valid() && screen.jets == jets
    ensures screen.Model() == FirstCycle(jets) && firstHeights == Normalized(FirstCycle(jets).heights)
    ensures firstCycleHeight == TowerHeight(FirstCycle(jets))
  {
    screen := new Screen(jets);
    screen.Simulate(minimalCycle);
    assert screen.Model() == FirstCycle(jets);
    firstHeights := screen.NormalizedHeights();
    firstCycleHeight := screen.Height();
  }

  /** The second half of the cyclical solution: from a screen holding the
      first cycle, searches the repeat and extrapolates from it. */
  method ExtrapolateFrom(ghost jets: seq<Jet>, screen: Screen, total: nat, minimalCycle: nat, rounds: nat, firstHeights: seq<nat>, firstCycleHeight: nat)
    returns (r: Result<nat>)
    requires screen.Valid() && screen.jets == jets && |jets| > 0 && minimalCycle == MinimalCycle(|jets|)
    requires rounds + 1 == total / minimalCycle
    requires screen.Model() == FirstCycle(jets) && firstHeights == Normalized(FirstCycle(jets).heights)
    requires firstCycleHeight == TowerHeight(FirstCycle(jets))
    modifies screen, screen.heights
    ensures r.Ok? <==> Extrapolable(jets, total)
    ensures r.Ok? ==> |jets| > 0 && exists rc :: FirstRepeat(jets, total, rc) && r.value == Estimate(jets, total, rc)
  {
    var realCycle := FindCycle(screen, minimalCycle, rounds, firstHeights);
    if realCycle == 0 {
      NoRepeatFound(jets, total, rounds);
      return Err("attempt to divide by zero");
    }
    CycleFits(|jets|, total, realCycle);
    var value := Extrapolation(screen, total, realCycle, firstCycleHeight);
    r := Ok(value);
    assert FirstRepeat(jets, total, realCycle);
    RepeatFound(jets, total, realCycle);
  }

  /** Extrapolates the height after `total` rocks from the first repeat of the
      skyline; the program divides by zero when the pattern is empty or no
      repeat is found, and underflows when not even one minimal cycle fits. */
  method SolveCyclical(jets: seq<Jet>, total: nat) returns (r: Result<nat>)
    ensures r.Ok? <==> Extrapolable(jets, total)
    ensures r.Ok? ==> |jets| > 0 && exists rc :: FirstRepeat(jets, total, rc) && r.value == Estimate(jets, total, rc)
  {
    var minimalCycle := MinimalCycleOf(|jets|);
    if minimalCycle == 0 {
      return Err("attempt to divide by zero");
    }
    var howManyCycles := total / minimalCycle;
    if howManyCycles == 0 {
      NoCycleFits(jets, total, minimalCycle);
      return Err("attempt to subtract with overflow");
    }
    var rounds: nat := howManyCycles - 1;
    var screen, firstHeights, firstCycleHeight := FirstCycleScreen(jets, minimalCycle);
    r := ExtrapolateFrom(jets, screen, total, minimalCycle, rounds, firstHeights, firstCycleHeight);
  }

  /** Part two: the height after a trillion rocks. */
  method SolvePartTwo(data: string) returns (r: Result<nat>)
    ensures r.Ok? <==> ParseJets(data).Ok? && Extrapolable(ParseJets(data).value, 1_000_000_000_000)
    ensures r.Ok? ==> exists rc ::
      FirstRepeat(ParseJets(data).value, 1_000_000_000_000, rc) && r.value == Estimate(ParseJets(data).value, 1_000_000_000_000, rc)
  {
    var parsed := ParseJets(data);
    if parsed.Err? {
      return Err(parsed.reason);
    }
    r := SolveCyclical(parsed.value, 1_000_000_000_000);
  }
}
