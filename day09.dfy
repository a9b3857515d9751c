/** Day 9: a rope of knots on the integer plane. The head moves one unit at a
    time; every other knot follows the one before it whenever they stop
    touching; the positions the last knot has visited are counted. */
module Day09 {
  import Text
  import opened Wrappers

  /** A position as (x, y). */
  type Pos = (int, int)

  datatype Move = Up | Down | Left | Right

  /** "U", "D", "L" and "R" are the only moves. */
  function ParseMove(s: string): (r: Option<Move>)
    ensures r.Some? <==> s in {"U", "D", "L", "R"}
  {
    if s == "U" then Some(Up)
    else if s == "D" then Some(Down)
    else if s == "L" then Some(Left)
    else if s == "R" then Some(Right)
    else None
  }

  function ShowMove(m: Move): string {
    match m
    case Up => "U"
    case Down => "D"
    case Left => "L"
    case Right => "R"
  }

  lemma ParseShowMove(m: Move)
    ensures ParseMove(ShowMove(m)) == Some(m)
  {
  }

  /** The head's new position: U is +y, D is -y, L is -x, R is +x. */
  function MoveHead(h: Pos, m: Move): Pos {
    match m
    case Up => (h.0, h.1 + 1)
    case Down => (h.0, h.1 - 1)
    case Left => (h.0 - 1, h.1)
    case Right => (h.0 + 1, h.1)
  }

  function Abs(v: int): nat {
    if v < 0 then -v else v
  }

  /** `signum`. */
  function Sign(v: int): int {
    if v > 0 then 1 else if v < 0 then -1 else 0
  }

  /** Two knots touch when they are at most one apart on both axes. */
  predicate Touching(a: Pos, b: Pos) {
    Abs(a.0 - b.0) <= 1 && Abs(a.1 - b.1) <= 1
  }

  /** Where knot t goes when the knot before it is at h: nowhere while they
      touch, otherwise one step towards h on each axis where they differ. */
  function Follow(h: Pos, t: Pos): Pos {
    if Abs(h.0 - t.0) > 1 || Abs(h.1 - t.1) > 1 then
      (t.0 + Sign(h.0 - t.0), t.1 + Sign(h.1 - t.1))
    else
      t
  }

  /** A knot moves at most one step, and when it was at most two away from its
      leader on each axis it ends up touching it. */
  lemma FollowCloses(h: Pos, t: Pos)
    ensures Touching(t, Follow(h, t))
    ensures Follow(h, t) == t <==> Touching(h, t)
    ensures Abs(h.0 - t.0) <= 2 && Abs(h.1 - t.1) <= 2 ==> Touching(h, Follow(h, t))
  {
  }

  /** The knots after `lead`, each following the newly placed one before it. */
  function Chain(lead: Pos, rest: seq<Pos>): (r: seq<Pos>)
    ensures |r| == |rest|
    decreases |rest|
  {
    if |rest| == 0 then []
    else
      var t := Follow(lead, rest[0]);
      [t] + Chain(t, rest[1..])
  }

  /** One move of the whole rope: the head, then every knot in order. */
  function Step(knots: seq<Pos>, m: Move): (r: seq<Pos>)
    requires |knots| >= 1
    ensures |r| == |knots|
  {
    var h := MoveHead(knots[0], m);
    [h] + Chain(h, knots[1..])
  }

  lemma {:induction false} ChainAt(lead: Pos, rest: seq<Pos>, j: int)
    requires 0 <= j < |rest|
    ensures Chain(lead, rest)[j] == Follow(if j == 0 then lead else Chain(lead, rest)[j - 1], rest[j])
    decreases |rest|
  {
    if j > 0 {
      ChainAt(Follow(lead, rest[0]), rest[1..], j - 1);
    }
  }

  /** Knot i + 1 follows the already moved knot i. */
  lemma StepAt(knots: seq<Pos>, m: Move, i: int)
    requires 0 <= i < |knots| - 1
    ensures Step(knots, m)[0] == MoveHead(knots[0], m)
    ensures Step(knots, m)[i + 1] == Follow(Step(knots, m)[i], knots[i + 1])
  {
    ChainAt(MoveHead(knots[0], m), knots[1..], i);
  }

  /** The rope once the knots up to i have been moved. */
  function Pulled(knots: seq<Pos>, m: Move, i: int): (r: seq<Pos>)
    requires 0 <= i < |knots|
    ensures |r| == |knots|
  {
    Step(knots, m)[..i + 1] + knots[i + 1..]
  }

  /** Moving knot i + 1 after knot i extends the moved part by one. */
  lemma PulledStep(knots: seq<Pos>, m: Move, i: int)
    requires 0 <= i < |knots| - 1
    ensures var p := Pulled(knots, m, i);
      Pulled(knots, m, i + 1) == p[i + 1 := Follow(p[i], p[i + 1])]
  {
    StepAt(knots, m, i);
    var p := Pulled(knots, m, i);
    assert p[i] == Step(knots, m)[i] && p[i + 1] == knots[i + 1];
  }

  /** Every knot touches the next. */
  predicate Taut(knots: seq<Pos>) {
    forall i :: 0 <= i < |knots| - 1 ==> Touching(knots[i], knots[i + 1])
  }

  /** A leader that moved at most one step from a position touching the rest
      of a taut rope drags it into a taut rope again. */
  lemma {:induction false} ChainTaut(was: Pos, lead: Pos, rest: seq<Pos>)
    requires Touching(was, lead) && Taut([was] + rest)
    ensures Taut([lead] + Chain(lead, rest))
    decreases |rest|
  {
    if |rest| > 0 {
      var t := Follow(lead, rest[0]);
      assert Touching(was, rest[0]) by {
        assert ([was] + rest)[0] == was && ([was] + rest)[1] == rest[0];
      }
      FollowCloses(lead, rest[0]);
      assert Taut([rest[0]] + rest[1..]) by {
        assert [rest[0]] + rest[1..] == ([was] + rest)[1..];
      }
      ChainTaut(rest[0], t, rest[1..]);
      var s := [lead] + Chain(lead, rest);
      assert s == [lead] + ([t] + Chain(t, rest[1..]));
      assert s[1..] == [t] + Chain(t, rest[1..]);
      forall i | 0 <= i < |s| - 1
        ensures Touching(s[i], s[i + 1])
      {
        if i > 0 {
          assert s[i] == s[1..][i - 1] && s[i + 1] == s[1..][i];
        }
      }
    }
  }

  /** A move keeps the rope taut. */
  lemma StepTaut(knots: seq<Pos>, m: Move)
    requires |knots| >= 1 && Taut(knots)
    ensures Taut(Step(knots, m))
  {
    assert knots == [knots[0]] + knots[1..];
    ChainTaut(knots[0], MoveHead(knots[0], m), knots[1..]);
  }

  /** The rope and the tail positions seen so far. */
  datatype Rope = Rope(knots: seq<Pos>, visited: set<Pos>)

  function Tail(knots: seq<Pos>): Pos
    requires |knots| >= 1
  {
    knots[|knots| - 1]
  }

  /** `new(k)`: k + 1 knots at the origin, nothing visited yet. */
  function Start(followers: nat): (r: Rope)
    ensures |r.knots| == followers + 1 && r.visited == {}
    ensures forall i :: 0 <= i < |r.knots| ==> r.knots[i] == (0, 0)
  {
    Rope(seq(followers + 1, _ => (0, 0)), {})
  }

  /** `apply`: one move, then the tail's position is recorded. */
  function StepRope(r: Rope, m: Move): Rope
    requires |r.knots| >= 1
  {
    var k := Step(r.knots, m);
    Rope(k, r.visited + {Tail(k)})
  }

  /** `apply_all`: n moves in the same direction. */
  function Repeat(r: Rope, m: Move, n: nat): (s: Rope)
    requires |r.knots| >= 1
    ensures |s.knots| == |r.knots|
  {
    if n == 0 then r else StepRope(Repeat(r, m, n - 1), m)
  }

  /** The moves of the input, one line each, in order. */
  function Run(r: Rope, moves: seq<(Move, nat)>): (s: Rope)
    requires |r.knots| >= 1
    ensures |s.knots| == |r.knots|
  {
    if |moves| == 0 then r
    else
      var last := moves[|moves| - 1];
      Repeat(Run(r, moves[..|moves| - 1]), last.0, last.1)
  }

  /** Recording only adds positions, and the current tail is always among
      them. */
  lemma StepRecords(r: Rope, m: Move)
    requires |r.knots| >= 1
    ensures r.visited <= StepRope(r, m).visited
    ensures Tail(StepRope(r, m).knots) in StepRope(r, m).visited
    ensures StepRope(r, m).visited - r.visited <= {Tail(StepRope(r, m).knots)}
  {
  }

  lemma {:induction false} RepeatRecords(r: Rope, m: Move, n: nat)
    requires |r.knots| >= 1
    ensures r.visited <= Repeat(r, m, n).visited
    ensures n > 0 ==> Tail(Repeat(r, m, n).knots) in Repeat(r, m, n).visited
    ensures Taut(r.knots) ==> Taut(Repeat(r, m, n).knots)
  {
    if n > 0 {
      RepeatRecords(r, m, n - 1);
      var before := Repeat(r, m, n - 1);
      StepRecords(before, m);
      if Taut(r.knots) {
        StepTaut(before.knots, m);
      }
    }
  }

  /** Over a whole run the rope stays taut, the record only grows, and once a
      move has been made the tail's position is recorded. */
  lemma {:induction false} RunRecords(r: Rope, moves: seq<(Move, nat)>)
    requires |r.knots| >= 1
    ensures r.visited <= Run(r, moves).visited
    ensures Taut(r.knots) ==> Taut(Run(r, moves).knots)
    ensures (exists i :: 0 <= i < |moves| && moves[i].1 > 0) ==> Tail(Run(r, moves).knots) in Run(r, moves).visited
    decreases |moves|
  {
    if |moves| > 0 {
      var init := moves[..|moves| - 1];
      var last := moves[|moves| - 1];
      RunRecords(r, init);
      RepeatRecords(Run(r, init), last.0, last.1);
      if last.1 == 0 && exists i :: 0 <= i < |moves| && moves[i].1 > 0 {
        var i :| 0 <= i < |moves| && moves[i].1 > 0;
        assert init[i] == moves[i];
      }
    }
  }

  /** The rope of the program: the knots and the set of tail positions, updated
      in place. */
  class RopeModel {
    var knots: seq<Pos>
    var visited: set<Pos>

    ghost predicate Valid()
      reads this
    {
      |knots| >= 1 && Taut(knots)
    }

    function Model(): Rope
      reads this
    {
      Rope(knots, visited)
    }

    constructor (followers: nat)
      ensures Valid() && Model() == Start(followers)
    {
      knots := seq(followers + 1, _ => (0, 0));
      visited := {};
    }

    /** Moves the head, lets each knot follow in turn, records the tail. */
    method Apply(m: Move)
      modifies this
      requires Valid()
      ensures Valid() && Model() == StepRope(old(Model()), m)
    {
      ghost var was := knots;
      var ks := knots;
      var head := ks[0];
      head := match m
        case Up => (head.0, head.1 + 1)
        case Down => (head.0, head.1 - 1)
        case Left => (head.0 - 1, head.1)
        case Right => (head.0 + 1, head.1);
      ks := ks[0 := head];
      assert ks == Pulled(was, m, 0);
      for idx := 0 to |ks| - 1
        invariant ks == Pulled(was, m, idx)
        invariant unchanged(this)
      {
        var h := ks[idx];
        var t := ks[idx + 1];
        PulledStep(was, m, idx);
        if Abs(h.0 - t.0) > 1 || Abs(h.1 - t.1) > 1 {
          var fix := (Sign(h.0 - t.0), Sign(h.1 - t.1));
          ks := ks[idx + 1 := (t.0 + fix.0, t.1 + fix.1)];
        }
      }
      assert ks == Step(was, m);
      StepTaut(was, m);
      knots := ks;
      visited := visited + {knots[|knots| - 1]};
    }

    method ApplyAll(m: Move, count: nat)
      modifies this
      requires Valid()
      ensures Valid() && Model() == Repeat(old(Model()), m, count)
    {
      for i := 0 to count
        invariant Valid() && Model() == Repeat(old(Model()), m, i)
      {
        Apply(m);
      }
    }

    function TailPositions(): set<Pos>
      reads this
    {
      visited
    }
  }

  /** One input line: a move and a count separated by a space; anything after
      a second space is ignored. */
  function ParseLine(line: string): (r: Result<(Move, nat)>)
    ensures r.Ok? ==> exists rest :: line == ShowMove(r.value.0) + " " + rest
  {
    var parts := Text.Split(line, ' ');
    if |parts| < 2 then Err("missing count")
    else match (ParseMove(parts[0]), Text.ParseNat(parts[1]))
      case (None, _) => Err("bad move")
      case (_, None) => Err("bad count")
      case (Some(m), Some(n)) =>
        assert line == parts[0] + " " + Text.Join(parts[1..], ' ') by {
          Text.JoinSplit(line, ' ');
        }
        assert parts[0] == ShowMove(m);
        Ok((m, n))
  }

  /** The input line of `count` moves in direction m. */
  function ShowLine(m: Move, count: nat): string {
    ShowMove(m) + " " + Text.ShowNat(count)
  }

  /** Parsing a written line reads back its move and count. */
  lemma ParseShowLine(m: Move, count: nat)
    ensures ParseLine(ShowLine(m, count)) == Ok((m, count))
  {
    var parts := [ShowMove(m), Text.ShowNat(count)];
    Text.DigitsAvoid(parts[1], ' ');
    assert Text.Join(parts, ' ') == ShowLine(m, count);
    Text.SplitJoin(parts, ' ');
    ParseShowMove(m);
    Text.ParseShow(count);
  }

  /** Every line of the input (there is no trimming: an empty last line is an
      error). */
  function ParseMoves(data: string): Result<seq<(Move, nat)>> {
    MapOk(Text.Split(data, '\n'), ParseLine)
  }

  lemma RunSnoc(r: Rope, moves: seq<(Move, nat)>, i: int)
    requires |r.knots| >= 1 && 0 <= i < |moves|
    ensures Run(r, moves[..i + 1]) == Repeat(Run(r, moves[..i]), moves[i].0, moves[i].1)
  {
    assert moves[..i + 1][..i] == moves[..i];
  }

  /** The number of positions the last of `followers` knots visits. */
  method Solve(data: string, followers: nat) returns (r: Result<nat>)
    ensures r.Ok? <==> ParseMoves(data).Ok?
    ensures r.Ok? ==> r.value == |Run(Start(followers), ParseMoves(data).value).visited|
  {
    var parsed := ParseMoves(data);
    if parsed.Err? {
      return Err(parsed.reason);
    }
    var moves := parsed.value;
    var model := new RopeModel(followers);
    for i := 0 to |moves|
      invariant model.Valid() && model.Model() == Run(Start(followers), moves[..i])
    {
      RunSnoc(Start(followers), moves, i);
      model.ApplyAll(moves[i].0, moves[i].1);
    }
    assert moves[..|moves|] == moves;
    r := Ok(|model.TailPositions()|);
  }

  method SolvePartOne(data: string) returns (r: Result<nat>)
    ensures r.Ok? <==> ParseMoves(data).Ok?
    ensures r.Ok? ==> r.value == |Run(Start(1), ParseMoves(data).value).visited|
  {
    r := Solve(data, 1);
  }

  method SolvePartTwo(data: string) returns (r: Result<nat>)
    ensures r.Ok? <==> ParseMoves(data).Ok?
    ensures r.Ok? ==> r.value == |Run(Start(9), ParseMoves(data).value).visited|
  {
    r := Solve(data, 9);
  }
}
