/** Day 4: pairs of section ranges "a-b,c-d"; part one counts the pairs where
    one range contains the other, part two the pairs that overlap at all. */
module Day04 {
  import opened Wrappers
  import Text

  datatype Range = Range(start: nat, end: nat)

  ghost predicate WellFormed(r: Range) {
    r.start <= r.end
  }

  ghost predicate Covers(r: Range, x: nat) {
    r.start <= x <= r.end
  }

  /** "a-b": the first two pieces split on '-' (later pieces are ignored),
      both numbers. */
  function ParseRange(s: string): (r: Result<Range>)
    ensures var parts := Text.Split(s, '-');
      r.Ok? <==> |parts| >= 2 && Text.ParseNat(parts[0]).Some? && Text.ParseNat(parts[1]).Some?
    ensures r.Ok? ==> var parts := Text.Split(s, '-');
      |parts| >= 2 && Text.ParseNat(parts[0]) == Some(r.value.start) && Text.ParseNat(parts[1]) == Some(r.value.end)
  {
    var parts := Text.Split(s, '-');
    if |parts| < 2 then Err("missing '-'")
    else match (Text.ParseNat(parts[0]), Text.ParseNat(parts[1]))
      case (Some(a), Some(b)) => Ok(Range(a, b))
      case _ => Err("not a number")
  }

  /** "a-b,c-d": the first two pieces split on ','. */
  function ParsePair(line: string): (r: Result<(Range, Range)>)
    ensures var parts := Text.Split(line, ',');
      r.Ok? <==> |parts| >= 2 && ParseRange(parts[0]).Ok? && ParseRange(parts[1]).Ok?
    ensures r.Ok? ==> var parts := Text.Split(line, ',');
      |parts| >= 2 && ParseRange(parts[0]) == Ok(r.value.0) && ParseRange(parts[1]) == Ok(r.value.1)
  {
    var parts := Text.Split(line, ',');
    if |parts| < 2 then Err("missing ','")
    else match (ParseRange(parts[0]), ParseRange(parts[1]))
      case (Ok(a), Ok(b)) => Ok((a, b))
      case (Err(e), _) => Err(e)
      case (_, Err(e)) => Err(e)
  }

  /** A pair printed the way the puzzle writes it. */
  function ShowPair(p: (Range, Range)): string {
    Text.Join([ShowRange(p.0), ShowRange(p.1)], ',')
  }

  function ShowRange(r: Range): string {
    Text.Join([Text.ShowNat(r.start), Text.ShowNat(r.end)], '-')
  }

  /** Parsing a printed range gives it back. */
  lemma ParseShowRange(r: Range)
    ensures ParseRange(ShowRange(r)) == Ok(r)
    ensures ',' !in ShowRange(r)
  {
    var parts := [Text.ShowNat(r.start), Text.ShowNat(r.end)];
    Text.DigitsAvoid(parts[0], '-');
    Text.DigitsAvoid(parts[1], '-');
    Text.DigitsAvoid(parts[0], ',');
    Text.DigitsAvoid(parts[1], ',');
    Text.SplitJoin(parts, '-');
    Text.ParseShow(r.start);
    Text.ParseShow(r.end);
  }

  /** Parsing a printed pair gives it back. */
  lemma ParseShowPair(p: (Range, Range))
    ensures ParsePair(ShowPair(p)) == Ok(p)
  {
    ParseShowRange(p.0);
    ParseShowRange(p.1);
    Text.SplitJoin([ShowRange(p.0), ShowRange(p.1)], ',');
  }

  /** The containment test of part one, in either direction. */
  predicate OneContainsOther(a: Range, b: Range) {
    (a.start <= b.start && b.end <= a.end) || (b.start <= a.start && a.end <= b.end)
  }

  /** The overlap test of part two: the range that starts first (the first one
      on a tie) must reach the other's start. */
  predicate Overlaps(a: Range, b: Range) {
    if a.start <= b.start then a.end >= b.start else b.end >= a.start
  }

  /** For well-formed ranges, containment means every section of the inner
      range is in the outer one. */
  lemma ContainsMeaning(a: Range, b: Range)
    requires WellFormed(a) && WellFormed(b)
    ensures OneContainsOther(a, b) <==>
      (forall x: nat :: Covers(b, x) ==> Covers(a, x)) || (forall x: nat :: Covers(a, x) ==> Covers(b, x))
  {
    if (forall x: nat :: Covers(b, x) ==> Covers(a, x)) {
      assert Covers(b, b.start) && Covers(b, b.end);
    }
    if (forall x: nat :: Covers(a, x) ==> Covers(b, x)) {
      assert Covers(a, a.start) && Covers(a, a.end);
    }
  }

  /** For well-formed ranges, the overlap test holds exactly when some
      section is in both. */
  lemma OverlapsMeaning(a: Range, b: Range)
    requires WellFormed(a) && WellFormed(b)
    ensures Overlaps(a, b) <==> exists x: nat :: Covers(a, x) && Covers(b, x)
  {
    if Overlaps(a, b) {
      var x := if a.start <= b.start then b.start else a.start;
      assert Covers(a, x) && Covers(b, x);
    }
  }

  /** For well-formed ranges, the overlap test is symmetric and containment
      implies overlap. */
  lemma OverlapLaws(a: Range, b: Range)
    requires WellFormed(a) && WellFormed(b)
    ensures Overlaps(a, b) == Overlaps(b, a)
    ensures OneContainsOther(a, b) ==> Overlaps(a, b)
  {
    OverlapsMeaning(a, b);
    OverlapsMeaning(b, a);
    if OneContainsOther(a, b) {
      var x := if a.start <= b.start then b.start else a.start;
      assert Covers(a, x) && Covers(b, x);
    }
  }

  function CountIf(line: string, test: (Range, Range) -> bool): Result<nat> {
    match ParsePair(line)
    case Ok(p) => Ok(if test(p.0, p.1) then 1 else 0)
    case Err(e) => Err(e)
  }

  function ContainsCount(line: string): Result<nat> {
    CountIf(line, OneContainsOther)
  }

  function OverlapCount(line: string): Result<nat> {
    CountIf(line, Overlaps)
  }

  /** Part one: how many lines hold a pair where one range contains the
      other; a line that is not a pair fails. */
  function SolvePartOne(data: string): (r: Result<nat>)
    ensures var lines := Text.Lines(Text.Trim(data));
      r.Ok? <==> forall i :: 0 <= i < |lines| ==> ParsePair(lines[i]).Ok?
    ensures r.Ok? ==> r.value <= |Text.Lines(Text.Trim(data))|
  {
    var lines := Text.Lines(Text.Trim(data));
    assert forall i :: 0 <= i < |lines| ==> (ContainsCount(lines[i]).Ok? <==> ParsePair(lines[i]).Ok?);
    var total := SumOk(lines, ContainsCount);
    if total.Ok? then SumOkBounds(lines, ContainsCount, 0, 1); total else total
  }

  /** Part two: how many lines hold a pair of overlapping ranges. */
  function SolvePartTwo(data: string): (r: Result<nat>)
    ensures var lines := Text.Lines(Text.Trim(data));
      r.Ok? <==> forall i :: 0 <= i < |lines| ==> ParsePair(lines[i]).Ok?
    ensures r.Ok? ==> r.value <= |Text.Lines(Text.Trim(data))|
  {
    var lines := Text.Lines(Text.Trim(data));
    assert forall i :: 0 <= i < |lines| ==> (OverlapCount(lines[i]).Ok? <==> ParsePair(lines[i]).Ok?);
    var total := SumOk(lines, OverlapCount);
    if total.Ok? then SumOkBounds(lines, OverlapCount, 0, 1); total else total
  }

  ghost predicate AllWellFormed(lines: seq<string>) {
    forall i :: 0 <= i < |lines| ==>
      ParsePair(lines[i]).Ok? && WellFormed(ParsePair(lines[i]).value.0) && WellFormed(ParsePair(lines[i]).value.1)
  }

  lemma {:induction false} CountsOrdered(lines: seq<string>)
    requires AllWellFormed(lines)
    ensures SumOk(lines, ContainsCount).Ok?
    ensures SumOk(lines, OverlapCount).Ok?
    ensures SumOk(lines, ContainsCount).value
         <= SumOk(lines, OverlapCount).value
  {
    if |lines| > 0 {
      CountsOrdered(lines[1..]);
      var p := ParsePair(lines[0]).value;
      OverlapLaws(p.0, p.1);
    }
  }

  /** With well-formed ranges on every line, part one never exceeds part two. */
  lemma PartOneAtMostPartTwo(data: string)
    requires AllWellFormed(Text.Lines(Text.Trim(data)))
    ensures SolvePartOne(data).Ok? && SolvePartTwo(data).Ok?
    ensures SolvePartOne(data).value <= SolvePartTwo(data).value
  {
    CountsOrdered(Text.Lines(Text.Trim(data)));
  }
}
