/** Day 2: rock, paper, scissors. Each line holds the opponent's hand and a
    second code; the score of a round is the outcome (0, 3 or 6) plus the hand
    played (1, 2 or 3). */
module Day02 {
  import opened Wrappers
  import opened Orderings
  import Text

  datatype Hand = Rock | Paper | Scissors

  /** 'A'/'X' are rock, 'B'/'Y' paper, 'C'/'Z' scissors; any other letter is
      unreachable in the program, an error here. */
  function NewHand(code: char): (r: Option<Hand>)
    ensures r.None? <==> code !in "ABCXYZ"
  {
    match code
    case 'X' => Some(Rock)
    case 'A' => Some(Rock)
    case 'Y' => Some(Paper)
    case 'B' => Some(Paper)
    case 'Z' => Some(Scissors)
    case 'C' => Some(Scissors)
    case _ => None
  }

  /** The opponent's letter for a hand. */
  function Code(h: Hand): char {
    match h
    case Rock => 'A'
    case Paper => 'B'
    case Scissors => 'C'
  }

  lemma NewHandCode(h: Hand)
    ensures NewHand(Code(h)) == Some(h)
    ensures NewHand((Code(h) as int + 23) as char) == Some(h)
  {
  }

  /** The hand that beats h. */
  function WinnerOver(h: Hand): (r: Hand)
    ensures Compare(r, h) == Greater
  {
    match h
    case Rock => Paper
    case Paper => Scissors
    case Scissors => Rock
  }

  /** The hand that h beats. */
  function LoserOver(h: Hand): (r: Hand)
    ensures Compare(r, h) == Less
  {
    match h
    case Rock => Scissors
    case Paper => Rock
    case Scissors => Paper
  }

  /** `partial_cmp`: scissors beat paper, paper beats rock, rock beats
      scissors; always defined. */
  function Compare(mine: Hand, theirs: Hand): Ordering {
    match (mine, theirs)
    case (Rock, Paper) => Less
    case (Rock, Scissors) => Greater
    case (Paper, Rock) => Greater
    case (Paper, Scissors) => Less
    case (Scissors, Rock) => Less
    case (Scissors, Paper) => Greater
    case _ => Equal
  }

  /** Each hand is equal only to itself, the order is antisymmetric, and
      the winner and loser of a hand are mutual inverses. */
  lemma CompareLaws(a: Hand, b: Hand)
    ensures Compare(a, b) == Equal <==> a == b
    ensures Compare(b, a) == Compare(a, b).Reverse()
    ensures Compare(a, b) == Greater <==> a == WinnerOver(b)
    ensures Compare(a, b) == Less <==> a == LoserOver(b)
    ensures WinnerOver(LoserOver(a)) == a && LoserOver(WinnerOver(a)) == a
  {
  }

  function OutcomeScore(o: Ordering): nat {
    match o
    case Less => 0
    case Equal => 3
    case Greater => 6
  }

  function HandScore(h: Hand): nat {
    match h
    case Rock => 1
    case Paper => 2
    case Scissors => 3
  }

  /** The score of one round from my side. */
  function RoundScore(mine: Hand, theirs: Hand): (r: nat)
    ensures 1 <= r <= 9
    ensures r % 3 == HandScore(mine) % 3
  {
    OutcomeScore(Compare(mine, theirs)) + HandScore(mine)
  }

  /** Part one's reading of a line: "T M" with both letters hands. */
  function ScorePartOne(line: string): (r: Result<nat>)
    ensures r.Ok? <==> |line| >= 3 && NewHand(line[0]).Some? && NewHand(line[2]).Some?
    ensures r.Ok? ==> r.value == RoundScore(NewHand(line[2]).value, NewHand(line[0]).value)
  {
    if |line| < 3 then Err("line too short")
    else match (NewHand(line[0]), NewHand(line[2]))
      case (Some(theirs), Some(mine)) => Ok(RoundScore(mine, theirs))
      case _ => Err("not a hand")
  }

  /** The outcome asked for by 'X' (lose), 'Y' (draw) or 'Z' (win). */
  function Wanted(code: char): Option<Ordering> {
    match code
    case 'X' => Some(Less)
    case 'Y' => Some(Equal)
    case 'Z' => Some(Greater)
    case _ => None
  }

  /** The hand to play against theirs for the wanted outcome. */
  function Planned(theirs: Hand, wanted: Ordering): (mine: Hand)
    ensures Compare(mine, theirs) == wanted
  {
    match wanted
    case Less => LoserOver(theirs)
    case Equal => theirs
    case Greater => WinnerOver(theirs)
  }

  /** The planned hand is the only one with the wanted outcome. */
  lemma PlannedUnique(theirs: Hand, wanted: Ordering, mine: Hand)
    requires Compare(mine, theirs) == wanted
    ensures mine == Planned(theirs, wanted)
  {
    CompareLaws(mine, theirs);
  }

  /** Part two's reading of a line: "T W" with W the wanted outcome. */
  function ScorePartTwo(line: string): (r: Result<nat>)
    ensures r.Ok? <==> |line| >= 3 && NewHand(line[0]).Some? && Wanted(line[2]).Some?
    ensures r.Ok? ==> r.value == OutcomeScore(Wanted(line[2]).value)
                                 + HandScore(Planned(NewHand(line[0]).value, Wanted(line[2]).value))
  {
    if |line| < 3 then Err("line too short")
    else match (NewHand(line[0]), Wanted(line[2]))
      case (Some(theirs), Some(wanted)) => Ok(RoundScore(Planned(theirs, wanted), theirs))
      case _ => Err("not a hand or an outcome")
  }

  /** Part one: the total of the guide's rounds read as two hands. Each
      round scores between 1 and 9, so a guide of n rounds totals between n
      and 9n. */
  function SolvePartOne(data: string): (r: Result<nat>)
    ensures var lines := Text.Lines(Text.Trim(data));
      r.Ok? <==> forall i :: 0 <= i < |lines| ==> ScorePartOne(lines[i]).Ok?
    ensures r.Ok? ==> var n := |Text.Lines(Text.Trim(data))|; n <= r.value <= 9 * n
  {
    var lines := Text.Lines(Text.Trim(data));
    if SumOk(lines, ScorePartOne).Err? then SumOk(lines, ScorePartOne)
    else
      SumOkBounds(lines, ScorePartOne, 1, 9);
      SumOk(lines, ScorePartOne)
  }

  /** Part two: the total of the rounds read as a hand and a wanted outcome,
      again between n and 9n for n rounds. */
  function SolvePartTwo(data: string): (r: Result<nat>)
    ensures var lines := Text.Lines(Text.Trim(data));
      r.Ok? <==> forall i :: 0 <= i < |lines| ==> ScorePartTwo(lines[i]).Ok?
    ensures r.Ok? ==> var n := |Text.Lines(Text.Trim(data))|; n <= r.value <= 9 * n
  {
    var lines := Text.Lines(Text.Trim(data));
    if SumOk(lines, ScorePartTwo).Err? then SumOk(lines, ScorePartTwo)
    else
      SumOkBounds(lines, ScorePartTwo, 1, 9);
      SumOk(lines, ScorePartTwo)
  }
}
