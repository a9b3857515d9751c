/** Day 8: a rectangular grid of tree heights. Part one counts the trees visible
    from outside the grid, walking from each interior tree towards each edge
    and reusing what earlier trees learned; part two finds the best scenic
    score, the product of the four viewing distances. */
module Day08 {
  import Text
  import opened Wrappers

  /** A position as (row, column). */
  type Pos = (int, int)

  /** What the grid keeps per tree: its height, whether it is known to be
      visible (None until decided) and the code of the direction it was seen
      from (0 when none was recorded). */
  datatype Cell = Cell(height: nat, status: Option<bool>, from: nat)

  datatype Dir = Up | Left | Down | Right

  /** The bit each direction is recorded under. */
  function Code(d: Dir): nat {
    match d
    case Up => 1
    case Left => 2
    case Down => 4
    case Right => 8
  }

  /** The order in which part one tries the directions. */
  const Tried: seq<Dir> := [Up, Left, Down, Right]

  /** The order in which part two multiplies the viewing distances. */
  const Around: seq<Dir> := [Up, Left, Right, Down]

  /** The number of columns, taken from the first row as `lines[0].len()`
      does. */
  function Width(rows: seq<seq<nat>>): int {
    if |rows| == 0 then 0 else |rows[0]|
  }

  /** Every row is as long as the first. */
  predicate Rectangular(rows: seq<seq<nat>>) {
    forall r :: 0 <= r < |rows| ==> |rows[r]| == Width(rows)
  }

  predicate Square(rows: seq<seq<nat>>) {
    forall r :: 0 <= r < |rows| ==> |rows[r]| == |rows|
  }

  /** p lies in a grid of h rows and w columns. */
  predicate InGrid(h: int, w: int, p: Pos) {
    0 <= p.0 < h && 0 <= p.1 < w
  }

  predicate Interior(h: int, w: int, p: Pos) {
    1 <= p.0 < h - 1 && 1 <= p.1 < w - 1
  }

  function Positions(h: nat, w: nat): (r: set<Pos>)
    ensures forall p :: p in r <==> InGrid(h, w, p)
  {
    var r := set y, x | 0 <= y < h && 0 <= x < w :: (y, x);
    assert forall p :: InGrid(h, w, p) ==> (p.0, p.1) in r;
    r
  }

  /** The position i steps from p in direction d. */
  function Ahead(p: Pos, d: Dir, i: int): Pos {
    match d
    case Up => (p.0 - i, p.1)
    case Left => (p.0, p.1 - i)
    case Down => (p.0 + i, p.1)
    case Right => (p.0, p.1 + i)
  }

  /** How many trees lie between p and the edge in direction d. */
  function Reach(h: int, w: int, p: Pos, d: Dir): int {
    match d
    case Up => p.0
    case Left => p.1
    case Down => h - 1 - p.0
    case Right => w - 1 - p.1
  }

  /** The steps ahead of a tree stay in the grid exactly up to the edge. */
  lemma AheadInGrid(h: int, w: int, p: Pos, d: Dir, i: int)
    requires InGrid(h, w, p) && i >= 1
    ensures InGrid(h, w, Ahead(p, d, i)) <==> i <= Reach(h, w, p, d)
  {
  }

  /** The height of the tree at p (0 off the grid). */
  function Height(rows: seq<seq<nat>>, p: Pos): nat {
    if 0 <= p.0 < |rows| && 0 <= p.1 < |rows[p.0]| then rows[p.0][p.1] else 0
  }

  /** Every tree between p and the edge in direction d is shorter than p. */
  predicate VisibleFrom(rows: seq<seq<nat>>, p: Pos, d: Dir) {
    forall i :: 1 <= i <= Reach(|rows|, Width(rows), p, d) ==> Height(rows, Ahead(p, d, i)) < Height(rows, p)
  }

  predicate Visible(rows: seq<seq<nat>>, p: Pos) {
    VisibleFrom(rows, p, Up) || VisibleFrom(rows, p, Left)
    || VisibleFrom(rows, p, Down) || VisibleFrom(rows, p, Right)
  }

  /** The trees on the edge are all visible. */
  lemma EdgeVisible(rows: seq<seq<nat>>, p: Pos)
    requires InGrid(|rows|, Width(rows), p) && !Interior(|rows|, Width(rows), p)
    ensures Visible(rows, p)
  {
    var h, w := |rows|, Width(rows);
    var d := if p.0 == 0 then Up else if p.1 == 0 then Left else if p.0 == h - 1 then Down else Right;
    assert Reach(h, w, p, d) == 0;
  }

  /** The answer to part one: how many trees are visible from outside. */
  function VisibleCount(rows: seq<seq<nat>>): nat {
    |set p | p in Positions(|rows|, Width(rows)) && Visible(rows, p)|
  }

  /** A tree is seen from d when a tree that is already known to be seen from d
      stands i steps ahead, is shorter, and everything in between is shorter. */
  lemma {:induction false} SeenThrough(rows: seq<seq<nat>>, p: Pos, d: Dir, i: int)
    requires 1 <= i <= Reach(|rows|, Width(rows), p, d)
    requires forall j :: 1 <= j < i ==> Height(rows, Ahead(p, d, j)) < Height(rows, p)
    requires VisibleFrom(rows, Ahead(p, d, i), d)
    requires Height(rows, Ahead(p, d, i)) < Height(rows, p)
    ensures VisibleFrom(rows, p, d)
  {
    var h, w := |rows|, Width(rows);
    var q := Ahead(p, d, i);
    assert Reach(h, w, q, d) == Reach(h, w, p, d) - i;
    forall j | 1 <= j <= Reach(h, w, p, d)
      ensures Height(rows, Ahead(p, d, j)) < Height(rows, p)
    {
      if j > i {
        assert Ahead(p, d, j) == Ahead(q, d, j - i);
      }
    }
  }

  /** The grid: every tree by position, with what has been decided
      about it so far. */
  class Grid {
    var cells: map<Pos, Cell>
    var width: int
    var height: int
    ghost const rows: seq<seq<nat>>

    ghost predicate Valid()
      reads this
    {
      && Rectangular(rows) && width == Width(rows) && height == |rows|
      && (forall p :: p in cells <==> InGrid(|rows|, Width(rows), p))
      && (forall p :: p in cells ==> cells[p].height == Height(rows, p))
    }

    /** Edge trees start visible, interior ones undecided. */
    constructor (rows: seq<seq<nat>>)
      requires Rectangular(rows) && |rows| >= 1
      ensures Valid() && this.rows == rows
      ensures forall p :: p in cells ==> cells[p].from == 0
      ensures forall p :: p in cells ==>
        cells[p].status == if Interior(|rows|, Width(rows), p) then None else Some(true)
    {
      var h, w := |rows|, |rows[0]|;
      this.rows := rows;
      cells := map p | p in Positions(h, w) ::
        Cell(rows[p.0][p.1], if p.0 == 0 || p.1 == 0 || p.0 == h - 1 || p.1 == w - 1 then Some(true) else None, 0);
      width := w;
      height := h;
    }

    function At(p: Pos): Cell
      reads this
      requires Valid() && InGrid(|rows|, Width(rows), p)
    {
      cells[p]
    }

    /** Marks the tree at p as hidden; a position off the grid is ignored. */
    method Hide(p: Pos)
      modifies this
      requires Valid()
      ensures Valid()
      ensures cells == if p in old(cells) then old(cells)[p := old(cells)[p].(status := Some(false))] else old(cells)
    {
      if p in cells {
        cells := cells[p := cells[p].(status := Some(false))];
      }
    }

    /** Marks the tree at p as visible, seen from the direction coded `from`. */
    method MarkVisible(p: Pos, from: nat)
      modifies this
      requires Valid()
      ensures Valid()
      ensures cells == if p in old(cells) then old(cells)[p := old(cells)[p].(status := Some(true), from := from)] else old(cells)
    {
      if p in cells {
        cells := cells[p := cells[p].(status := Some(true), from := from)];
      }
    }

    /** How many trees are marked visible. */
    function CountVisible(): nat
      reads this
    {
      |set p | p in cells && cells[p].status == Some(true)|
    }
  }

  /** Every recorded direction is one the tree really is seen from. */
  ghost predicate FromSound(g: Grid)
    reads g
  {
    Sound(g.rows, g.cells)
  }

  ghost predicate Sound(rows: seq<seq<nat>>, cells: map<Pos, Cell>) {
    forall q, d :: q in cells && cells[q].status == Some(true) && cells[q].from == Code(d)
      ==> VisibleFrom(rows, q, d)
  }

  /** Column-by-column order: (row, col) comes before (ypos, xpos). */
  predicate Before(q: Pos, xpos: int, ypos: int) {
    q.1 < xpos || (q.1 == xpos && q.0 < ypos)
  }

  /** The interior trees before (ypos, xpos) are decided correctly, the rest
      are undecided, the edge trees are visible. */
  ghost predicate Scanned(g: Grid, xpos: int, ypos: int)
    reads g
  {
    Decided(g.rows, g.cells, xpos, ypos)
  }

  ghost predicate Decided(rows: seq<seq<nat>>, cells: map<Pos, Cell>, xpos: int, ypos: int) {
    forall q :: q in cells ==> cells[q].status == Expected(rows, q, xpos, ypos)
  }

  /** What the scan has decided about q when it is at (ypos, xpos). */
  ghost function Expected(rows: seq<seq<nat>>, q: Pos, xpos: int, ypos: int): Option<bool> {
    if !Interior(|rows|, Width(rows), q) then Some(true)
    else if Before(q, xpos, ypos) then Some(Visible(rows, q))
    else None
  }

  /** The walk from p towards the edge in direction d: it stops at a taller or
      equal tree, at the edge, or at a shorter tree already seen from d. */
  method Look(g: Grid, p: Pos, d: Dir) returns (seen: bool)
    requires g.Valid() && Square(g.rows) && FromSound(g) && Interior(|g.rows|, Width(g.rows), p)
    ensures seen <==> VisibleFrom(g.rows, p, d)
  {
    ghost var rows := g.rows;
    ghost var reach := Reach(|rows|, Width(rows), p, d);
    var my := g.At(p).height;
    assert my == Height(rows, p);
    var i := 1;
    var q := Ahead(p, d, 1);
    while true
      invariant 1 <= i <= reach && q == Ahead(p, d, i)
      invariant forall j :: 1 <= j < i ==> Height(rows, Ahead(p, d, j)) < my
      decreases reach - i
    {
      AheadInGrid(|rows|, Width(rows), p, d, i);
      var cell := g.At(q);
      assert cell.height == Height(rows, q);
      if cell.status == Some(true) && cell.from == Code(d) && my > cell.height {
        SoundAt(rows, g.cells, q, d);
        SeenThrough(rows, p, d, i);
        return true;
      }
      if cell.height >= my {
        BlockedAt(rows, p, d, i);
        return false;
      }
      EdgeReached(|rows|, p, d, i);
      if q.0 == 0 || q.1 == 0 || q.0 == g.width - 1 || q.1 == g.height - 1 {
        ClearToEdge(rows, p, d, i);
        return true;
      }
      AheadStep(p, d, i);
      i := i + 1;
      q := Ahead(q, d, 1);
    }
  }

  lemma AheadStep(p: Pos, d: Dir, i: int)
    ensures Ahead(Ahead(p, d, i), d, 1) == Ahead(p, d, i + 1)
  {
  }

  /** A tree at least as tall ahead hides p from d. */
  lemma BlockedAt(rows: seq<seq<nat>>, p: Pos, d: Dir, i: int)
    requires 1 <= i <= Reach(|rows|, Width(rows), p, d) && Height(rows, Ahead(p, d, i)) >= Height(rows, p)
    ensures !VisibleFrom(rows, p, d)
  {
  }

  /** Shorter trees all the way to the edge make p seen from d. */
  lemma ClearToEdge(rows: seq<seq<nat>>, p: Pos, d: Dir, i: int)
    requires i == Reach(|rows|, Width(rows), p, d)
    requires forall j :: 1 <= j < i ==> Height(rows, Ahead(p, d, j)) < Height(rows, p)
    requires Height(rows, Ahead(p, d, i)) < Height(rows, p)
    ensures VisibleFrom(rows, p, d)
  {
  }

  /** Walking from an interior tree, the first edge met is the one ahead. */
  lemma EdgeReached(n: int, p: Pos, d: Dir, i: int)
    requires Interior(n, n, p) && 1 <= i <= Reach(n, n, p, d)
    ensures var q := Ahead(p, d, i);
      q.0 == 0 || q.1 == 0 || q.0 == n - 1 || q.1 == n - 1 <==> i == Reach(n, n, p, d)
  {
  }

  /** What the recorded direction of a visible tree promises. */
  lemma SoundAt(rows: seq<seq<nat>>, cells: map<Pos, Cell>, q: Pos, d: Dir)
    requires Sound(rows, cells) && q in cells
    requires cells[q].status == Some(true) && cells[q].from == Code(d)
    ensures VisibleFrom(rows, q, d)
  {
  }

  /** Recording a true direction, or hiding a tree, keeps the records sound. */
  lemma SoundUpdate(rows: seq<seq<nat>>, cells: map<Pos, Cell>, p: Pos, c: Cell)
    requires Sound(rows, cells)
    requires c.status == Some(true) ==> forall d :: c.from == Code(d) ==> VisibleFrom(rows, p, d)
    ensures Sound(rows, cells[p := c])
  {
  }

  /** Decides the tree at p: tries the directions in order and records the
      first one it is seen from, or hides it. */
  method Decide(g: Grid, p: Pos)
    modifies g
    requires g.Valid() && Square(g.rows) && FromSound(g) && Interior(|g.rows|, Width(g.rows), p)
    ensures g.Valid() && FromSound(g)
    ensures g.cells == old(g.cells)[p := g.cells[p]]
    ensures g.cells[p].status == Some(Visible(g.rows, p))
  {
    ghost var rows := g.rows;
    var seen := false;
    var whence := 0;
    for k := 0 to 4
      invariant !seen
      invariant forall j :: 0 <= j < k ==> !VisibleFrom(rows, p, Tried[j])
      invariant unchanged(g)
    {
      var d := Tried[k];
      seen := Look(g, p, d);
      if seen {
        whence := Code(d);
        SoundUpdate(rows, g.cells, p, g.cells[p].(status := Some(true), from := whence));
        g.MarkVisible(p, whence);
        return;
      }
    }
    assert !VisibleFrom(rows, p, Tried[0]) && !VisibleFrom(rows, p, Tried[1]);
    assert !VisibleFrom(rows, p, Tried[2]) && !VisibleFrom(rows, p, Tried[3]);
    SoundUpdate(rows, g.cells, p, g.cells[p].(status := Some(false)));
    g.Hide(p);
  }

  /** The nested loops of part one, column by column, then the count. */
  method Scan(g: Grid) returns (count: nat)
    modifies g
    requires g.Valid() && Square(g.rows) && |g.rows| >= 1
    requires forall p :: p in g.cells ==> g.cells[p].from == 0
    requires Scanned(g, 1, 1)
    ensures count == VisibleCount(g.rows)
  {
    var n := g.height;
    var xpos := 1;
    while xpos < n - 1
      invariant g.Valid() && FromSound(g)
      invariant 1 <= xpos && (n >= 2 ==> xpos <= n - 1)
      invariant Scanned(g, xpos, 1)
    {
      var ypos := 1;
      while ypos < g.width - 1
        invariant g.Valid() && FromSound(g)
        invariant 1 <= ypos <= n - 1
        invariant Scanned(g, xpos, ypos)
      {
        ghost var before := g.cells;
        Decide(g, (ypos, xpos));
        DecidedStep(g.rows, before, xpos, ypos, g.cells[(ypos, xpos)]);
        ypos := ypos + 1;
      }
      DecidedColumn(g.rows, g.cells, xpos);
      xpos := xpos + 1;
    }
    AllDecided(g, xpos);
    count := g.CountVisible();
  }

  /** Deciding (ypos, xpos) moves the scan one tree on. */
  lemma DecidedStep(rows: seq<seq<nat>>, cells: map<Pos, Cell>, xpos: int, ypos: int, c: Cell)
    requires Interior(|rows|, Width(rows), (ypos, xpos)) && Decided(rows, cells, xpos, ypos)
    requires c.status == Some(Visible(rows, (ypos, xpos)))
    ensures Decided(rows, cells[(ypos, xpos) := c], xpos, ypos + 1)
  {
    var after := cells[(ypos, xpos) := c];
    forall q | q in after
      ensures after[q].status == Expected(rows, q, xpos, ypos + 1)
    {
      if q != (ypos, xpos) {
        assert after[q] == cells[q];
      }
    }
  }

  /** The end of a column is the start of the next. */
  lemma DecidedColumn(rows: seq<seq<nat>>, cells: map<Pos, Cell>, xpos: int)
    requires Decided(rows, cells, xpos, |rows| - 1)
    ensures Decided(rows, cells, xpos + 1, 1)
  {
  }

  /** Once every column is done, the marked trees are the visible ones. */
  lemma AllDecided(g: Grid, xpos: int)
    requires g.Valid() && Square(g.rows) && xpos >= |g.rows| - 1 && Scanned(g, xpos, 1)
    ensures g.CountVisible() == VisibleCount(g.rows)
  {
    var n := |g.rows|;
    var marked := set p | p in g.cells && g.cells[p].status == Some(true);
    var visible := set p | p in Positions(n, n) && Visible(g.rows, p);
    forall p | p in Positions(n, n)
      ensures p in marked <==> p in visible
    {
      if !Interior(n, n, p) {
        EdgeVisible(g.rows, p);
      }
    }
    assert marked == visible;
  }

  predicate IsDigitRow(line: string) {
    forall i :: 0 <= i < |line| ==> Text.IsDigit(line[i])
  }

  function DigitOf(c: char): Result<nat> {
    if Text.IsDigit(c) then Ok((c - '0') as nat) else Err("not a digit")
  }

  /** One line of digits (`to_digit(10).unwrap()` on each character). */
  function Digits(line: string): (r: Result<seq<nat>>)
    ensures r.Ok? <==> IsDigitRow(line)
    ensures r.Ok? ==> |r.value| == |line|
    ensures r.Ok? ==> forall i :: 0 <= i < |line| ==> r.value[i] < 10 && r.value[i] as int == line[i] as int - '0' as int
  {
    MapOk(line, DigitOf)
  }

  /** The heights, row by row, of the trimmed input's lines. */
  function ParseGrid(data: string): (r: Result<seq<seq<nat>>>)
    ensures r.Ok? <==> forall i :: 0 <= i < |Text.Lines(Text.Trim(data))| ==> IsDigitRow(Text.Lines(Text.Trim(data))[i])
    ensures r.Ok? ==> |r.value| >= 1
  {
    MapOk(Text.Lines(Text.Trim(data)), Digits)
  }

  /** The input text a grid of heights is written as. */
  function ShowRow(hs: seq<nat>): (s: string)
    requires forall i :: 0 <= i < |hs| ==> hs[i] < 10
  {
    seq(|hs|, i requires 0 <= i < |hs| => ('0' as int + hs[i]) as char)
  }

  lemma DigitsShow(hs: seq<nat>)
    requires forall i :: 0 <= i < |hs| ==> hs[i] < 10
    ensures Digits(ShowRow(hs)) == Ok(hs)
  {
    var line := ShowRow(hs);
    assert IsDigitRow(line);
    var r := Digits(line).value;
    forall i | 0 <= i < |hs|
      ensures r[i] == hs[i]
    {
      assert line[i] as int == '0' as int + hs[i];
    }
    assert r == hs;
  }

  function ShownRows(rows: seq<seq<nat>>): (lines: seq<string>)
    requires forall r, i :: 0 <= r < |rows| && 0 <= i < |rows[r]| ==> rows[r][i] < 10
    ensures |lines| == |rows|
    ensures forall r :: 0 <= r < |rows| ==> lines[r] == ShowRow(rows[r])
  {
    seq(|rows|, r requires 0 <= r < |rows| => ShowRow(rows[r]))
  }

  function ShowGrid(rows: seq<seq<nat>>): string
    requires |rows| >= 1 && forall r, i :: 0 <= r < |rows| && 0 <= i < |rows[r]| ==> rows[r][i] < 10
  {
    Text.Join(ShownRows(rows), '\n')
  }

  /** Parsing reads back a rectangular grid of digits. */
  lemma ParseShowGrid(rows: seq<seq<nat>>)
    requires |rows| >= 1 && Width(rows) >= 1 && Rectangular(rows)
    requires forall r, i :: 0 <= r < |rows| && 0 <= i < |rows[r]| ==> rows[r][i] < 10
    ensures ParseGrid(ShowGrid(rows)) == Ok(rows)
  {
    var lines := ShownRows(rows);
    forall r | 0 <= r < |rows|
      ensures Digits(lines[r]) == Ok(rows[r])
    {
      DigitsShow(rows[r]);
    }
    var parsed := MapOk(lines, Digits);
    assert parsed.Ok?;
    assert parsed.value == rows;
    ShownLines(rows);
  }

  /** The trimmed text of a grid splits back into its rows' lines. */
  lemma ShownLines(rows: seq<seq<nat>>)
    requires |rows| >= 1 && Width(rows) >= 1 && Rectangular(rows)
    requires forall r, i :: 0 <= r < |rows| && 0 <= i < |rows[r]| ==> rows[r][i] < 10
    ensures Text.Lines(Text.Trim(ShowGrid(rows))) == ShownRows(rows)
  {
    var lines := ShownRows(rows);
    var text := ShowGrid(rows);
    JoinEnds(lines);
    var last := lines[|lines| - 1];
    assert Text.IsDigit(lines[0][0]) && Text.IsDigit(last[|last| - 1]);
    Text.TrimUnchanged(text);
    Text.SplitJoin(lines, '\n');
  }

  /** Joined lines start with the first line and end with the last. */
  lemma {:induction false} JoinEnds(lines: seq<string>)
    requires |lines| >= 1 && forall r :: 0 <= r < |lines| ==> |lines[r]| >= 1
    ensures var t := Text.Join(lines, '\n');
      |t| >= 1 && t[0] == lines[0][0] && t[|t| - 1] == lines[|lines| - 1][|lines[|lines| - 1]| - 1]
    decreases |lines|
  {
    if |lines| > 1 {
      JoinEnds(lines[1..]);
    }
  }

  /** Part one: the number of trees visible from outside the grid. The model
      only takes square grids, where the source's mixing of width and height
      does not matter. */
  method SolvePartOne(data: string) returns (r: Result<nat>)
    ensures r.Ok? <==> ParseGrid(data).Ok? && Square(ParseGrid(data).value)
    ensures r.Ok? ==> r.value == VisibleCount(ParseGrid(data).value)
  {
    var parsed := ParseGrid(data);
    if parsed.Err? {
      return Err(parsed.reason);
    }
    var rows := parsed.value;
    if !Square(rows) {
      return Err("the grid is not square");
    }
    var grid := new Grid(rows);
    var count := Scan(grid);
    r := Ok(count);
  }

  /** How many trees p sees in direction d, looking from the i-th on: up to
      and including the first one at least as tall, or up to the edge. */
  function Sight(rows: seq<seq<nat>>, p: Pos, d: Dir, i: int): nat
    requires 1 <= i <= Reach(|rows|, Width(rows), p, d) + 1
    decreases Reach(|rows|, Width(rows), p, d) + 1 - i
  {
    if i > Reach(|rows|, Width(rows), p, d) then Reach(|rows|, Width(rows), p, d)
    else if Height(rows, Ahead(p, d, i)) >= Height(rows, p) then i
    else Sight(rows, p, d, i + 1)
  }

  function ViewingDistance(rows: seq<seq<nat>>, p: Pos, d: Dir): nat
    requires InGrid(|rows|, Width(rows), p)
  {
    Sight(rows, p, d, 1)
  }

  lemma {:induction false} SightBounds(rows: seq<seq<nat>>, p: Pos, d: Dir, i: int)
    requires 1 <= i <= Reach(|rows|, Width(rows), p, d) + 1
    ensures var k := Sight(rows, p, d, i);
      && i - 1 <= k <= Reach(|rows|, Width(rows), p, d)
      && (forall j :: i <= j < k ==> Height(rows, Ahead(p, d, j)) < Height(rows, p))
      && (k < Reach(|rows|, Width(rows), p, d) ==> k >= i && Height(rows, Ahead(p, d, k)) >= Height(rows, p))
    decreases Reach(|rows|, Width(rows), p, d) + 1 - i
  {
    if i <= Reach(|rows|, Width(rows), p, d) && Height(rows, Ahead(p, d, i)) < Height(rows, p) {
      SightBounds(rows, p, d, i + 1);
    }
  }

  /** The viewing distance is the distance to the first tree at least as tall,
      or to the edge when there is none. */
  lemma ViewingDistanceMeaning(rows: seq<seq<nat>>, p: Pos, d: Dir)
    requires InGrid(|rows|, Width(rows), p)
    ensures var k := ViewingDistance(rows, p, d);
      && k <= Reach(|rows|, Width(rows), p, d)
      && (Reach(|rows|, Width(rows), p, d) >= 1 ==> k >= 1)
      && (forall j :: 1 <= j < k ==> Height(rows, Ahead(p, d, j)) < Height(rows, p))
      && (k < Reach(|rows|, Width(rows), p, d) ==> Height(rows, Ahead(p, d, k)) >= Height(rows, p))
  {
    SightBounds(rows, p, d, 1);
  }

  /** The product of the viewing distances along ds, last one first as the
      source's fold does. */
  function ScoreAlong(rows: seq<seq<nat>>, p: Pos, ds: seq<Dir>): nat
    requires InGrid(|rows|, Width(rows), p)
  {
    if |ds| == 0 then 1 else ViewingDistance(rows, p, ds[|ds| - 1]) * ScoreAlong(rows, p, ds[..|ds| - 1])
  }

  function Score(rows: seq<seq<nat>>, p: Pos): nat
    requires InGrid(|rows|, Width(rows), p)
  {
    ScoreAlong(rows, p, Around)
  }

  /** One more direction multiplies the score by its distance. */
  lemma ScoreAlongStep(rows: seq<seq<nat>>, p: Pos, k: int)
    requires InGrid(|rows|, Width(rows), p) && 0 <= k < |Around|
    ensures ScoreAlong(rows, p, Around[..k + 1]) == ViewingDistance(rows, p, Around[k]) * ScoreAlong(rows, p, Around[..k])
  {
    assert Around[..k + 1][..k] == Around[..k];
  }

  /** The score written out as the fold computes it. */
  lemma ScoreProduct(rows: seq<seq<nat>>, p: Pos)
    requires InGrid(|rows|, Width(rows), p)
    ensures Score(rows, p) == ViewingDistance(rows, p, Down) * (ViewingDistance(rows, p, Right)
      * (ViewingDistance(rows, p, Left) * (ViewingDistance(rows, p, Up) * 1)))
  {
    assert Around[..0] == [];
    ScoreAlongStep(rows, p, 0);
    ScoreAlongStep(rows, p, 1);
    ScoreAlongStep(rows, p, 2);
    ScoreAlongStep(rows, p, 3);
    assert Around[..4] == Around;
  }

  /** A tree sees at least one tree in d exactly when it is not on that edge. */
  lemma DistanceSign(rows: seq<seq<nat>>, p: Pos, d: Dir)
    requires InGrid(|rows|, Width(rows), p)
    ensures ViewingDistance(rows, p, d) > 0 <==> Reach(|rows|, Width(rows), p, d) > 0
  {
    ViewingDistanceMeaning(rows, p, d);
  }

  /** The score is positive inside the grid and zero on its edge. */
  lemma ScoreSign(rows: seq<seq<nat>>, p: Pos)
    requires InGrid(|rows|, Width(rows), p)
    ensures Interior(|rows|, Width(rows), p) <==> Score(rows, p) > 0
  {
    ScoreProduct(rows, p);
    DistanceSign(rows, p, Up);
    DistanceSign(rows, p, Left);
    DistanceSign(rows, p, Right);
    DistanceSign(rows, p, Down);
    ProductSign(ViewingDistance(rows, p, Up), ViewingDistance(rows, p, Left),
      ViewingDistance(rows, p, Right), ViewingDistance(rows, p, Down));
  }

  lemma ProductSign(a: nat, b: nat, c: nat, d: nat)
    ensures d * (c * (b * (a * 1))) > 0 <==> a > 0 && b > 0 && c > 0 && d > 0
  {
    if a > 0 && b > 0 && c > 0 && d > 0 {
      assert b * (a * 1) > 0;
      assert c * (b * (a * 1)) > 0;
    }
  }

  /** The while loop of part two: count trees until one at least as tall or
      the edge. */
  method Distance(g: Grid, p: Pos, d: Dir) returns (count: nat)
    requires g.Valid() && InGrid(|g.rows|, Width(g.rows), p)
    ensures count == ViewingDistance(g.rows, p, d)
  {
    ghost var rows := g.rows;
    ghost var reach := Reach(|rows|, Width(rows), p, d);
    var my := g.At(p).height;
    assert my == Height(rows, p);
    var q := Ahead(p, d, 1);
    count := 0;
    AheadInGrid(|rows|, Width(rows), p, d, 1);
    while q.0 >= 0 && q.1 >= 0 && q.0 < g.height && q.1 < g.width
      invariant 0 <= count <= reach && q == Ahead(p, d, count + 1)
      invariant InGrid(|rows|, Width(rows), q) <==> count + 1 <= reach
      invariant Shorter(rows, p, d, count, my)
      decreases reach - count
    {
      var cell := g.At(q);
      assert cell.height == Height(rows, q);
      count := count + 1;
      if cell.height >= my {
        FirstBlocked(rows, p, d, count);
        return;
      }
      ShorterStep(rows, p, d, count - 1, my);
      AheadStep(p, d, count);
      q := Ahead(q, d, 1);
      AheadInGrid(|rows|, Width(rows), p, d, count + 1);
    }
    FirstBlocked(rows, p, d, count);
  }

  /** The first k trees ahead of p in d are all shorter than h. */
  predicate Shorter(rows: seq<seq<nat>>, p: Pos, d: Dir, k: int, h: nat) {
    forall j :: 1 <= j <= k ==> Height(rows, Ahead(p, d, j)) < h
  }

  lemma ShorterStep(rows: seq<seq<nat>>, p: Pos, d: Dir, k: int, h: nat)
    requires Shorter(rows, p, d, k, h) && Height(rows, Ahead(p, d, k + 1)) < h
    ensures Shorter(rows, p, d, k + 1, h)
  {
  }

  /** The viewing distance is the only k that counts shorter trees up to a
      blocking one or to the edge. */
  lemma FirstBlocked(rows: seq<seq<nat>>, p: Pos, d: Dir, k: int)
    requires InGrid(|rows|, Width(rows), p) && 0 <= k <= Reach(|rows|, Width(rows), p, d)
    requires forall j :: 1 <= j < k ==> Height(rows, Ahead(p, d, j)) < Height(rows, p)
    requires k == Reach(|rows|, Width(rows), p, d) || (1 <= k && Height(rows, Ahead(p, d, k)) >= Height(rows, p))
    ensures ViewingDistance(rows, p, d) == k
  {
    ViewingDistanceMeaning(rows, p, d);
    var v := ViewingDistance(rows, p, d);
    assert 1 <= v < k ==> Height(rows, Ahead(p, d, v)) < Height(rows, p);
    assert 1 <= k < v ==> Height(rows, Ahead(p, d, k)) < Height(rows, p);
  }

  /** The scenic score of p: the distances folded into a product. */
  method ScenicScore(g: Grid, p: Pos) returns (score: nat)
    requires g.Valid() && InGrid(|g.rows|, Width(g.rows), p)
    ensures score == Score(g.rows, p)
  {
    score := 1;
    for k := 0 to 4
      invariant score == ScoreAlong(g.rows, p, Around[..k])
    {
      var v := Distance(g, p, Around[k]);
      ScoreAlongStep(g.rows, p, k);
      score := v * score;
    }
    assert Around[..4] == Around;
  }

  /** The scores of every interior tree, row by row. */
  method Scores(g: Grid) returns (scores: map<Pos, nat>)
    requires g.Valid()
    ensures forall q :: q in scores <==> Interior(|g.rows|, Width(g.rows), q)
    ensures forall q :: q in scores ==> InGrid(|g.rows|, Width(g.rows), q) && scores[q] == Score(g.rows, q)
  {
    var h, w := g.height, g.width;
    scores := map[];
    var ypos := 1;
    while ypos < h - 1
      invariant 1 <= ypos && (h >= 2 ==> ypos <= h - 1)
      invariant forall q :: q in scores <==> Interior(h, w, q) && q.0 < ypos
      invariant forall q :: q in scores ==> scores[q] == Score(g.rows, q)
    {
      var xpos := 1;
      while xpos < w - 1
        invariant 1 <= xpos && (w >= 2 ==> xpos <= w - 1)
        invariant forall q :: q in scores <==> Interior(h, w, q) && (q.0 < ypos || (q.0 == ypos && q.1 < xpos))
        invariant forall q :: q in scores ==> scores[q] == Score(g.rows, q)
      {
        var s := ScenicScore(g, (ypos, xpos));
        scores := scores[(ypos, xpos) := s];
        xpos := xpos + 1;
      }
      ypos := ypos + 1;
    }
  }

  /** The largest value of the map (`values().max()`), None when it is empty. */
  method MaxValue(scores: map<Pos, nat>) returns (r: Option<nat>)
    ensures r.None? <==> scores == map[]
    ensures r.Some? ==> exists q :: q in scores && scores[q] == r.value
    ensures r.Some? ==> forall q :: q in scores ==> scores[q] <= r.value
  {
    r := None;
    var left := scores.Keys;
    while left != {}
      invariant left <= scores.Keys
      invariant r.None? <==> left == scores.Keys
      invariant r.Some? ==> exists q :: q in scores && scores[q] == r.value
      invariant r.Some? ==> forall q :: q in scores && q !in left ==> scores[q] <= r.value
      decreases |left|
    {
      var k :| k in left;
      if r.None? || scores[k] > r.value {
        r := Some(scores[k]);
      }
      left := left - {k};
    }
    if r.None? {
      assert scores.Keys == {};
    }
  }

  /** v is the best scenic score of the grid. */
  ghost predicate BestScore(rows: seq<seq<nat>>, v: nat) {
    && (exists p :: Interior(|rows|, Width(rows), p) && Score(rows, p) == v)
    && (forall p :: InGrid(|rows|, Width(rows), p) ==> Score(rows, p) <= v)
  }

  /** The largest interior score is the best score of the grid: edge trees
      score zero. */
  lemma BestOfScores(rows: seq<seq<nat>>, scores: map<Pos, nat>, v: nat)
    requires forall q :: q in scores <==> Interior(|rows|, Width(rows), q)
    requires forall q :: q in scores ==> InGrid(|rows|, Width(rows), q) && scores[q] == Score(rows, q)
    requires exists q :: q in scores && scores[q] == v
    requires forall q :: q in scores ==> scores[q] <= v
    ensures BestScore(rows, v) && |rows| >= 3 && Width(rows) >= 3
  {
    forall p | InGrid(|rows|, Width(rows), p)
      ensures Score(rows, p) <= v
    {
      if !Interior(|rows|, Width(rows), p) {
        ScoreSign(rows, p);
      } else {
        assert p in scores;
      }
    }
  }

  /** Part two: the highest scenic score; the source's `unwrap` fails when
      the grid has no interior tree, that is when it has fewer than three
      rows or columns. */
  method SolvePartTwo(data: string) returns (r: Result<nat>)
    ensures r.Ok? <==>
      ParseGrid(data).Ok? && Rectangular(ParseGrid(data).value)
      && |ParseGrid(data).value| >= 3 && Width(ParseGrid(data).value) >= 3
    ensures r.Ok? ==> BestScore(ParseGrid(data).value, r.value)
  {
    var parsed := ParseGrid(data);
    if parsed.Err? {
      return Err(parsed.reason);
    }
    var rows := parsed.value;
    if !Rectangular(rows) {
      return Err("the lines differ in length");
    }
    var grid := new Grid(rows);
    var scores := Scores(grid);
    var best := MaxValue(scores);
    if best.None? {
      assert (1, 1) !in scores;
      return Err("no interior tree");
    }
    BestOfScores(rows, scores, best.value);
    r := Ok(best.value);
  }
}
