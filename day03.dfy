/** Day 3: rucksacks. Each line is a rucksack whose two halves are its two
    pockets; part one scores the item found in both pockets, part two the
    badge common to each group of three rucksacks. */
module Day03 {
  import opened Wrappers
  import Text

  /** The priority of an item: 'a'..'z' are 1..26, 'A'..'Z' are 27..52. */
  function CharScore(c: char): (r: Option<nat>)
    ensures 'a' <= c <= 'z' ==> r == Some((c as int - 'a' as int + 1) as nat)
    ensures 'A' <= c <= 'Z' ==> r == Some((c as int - 'A' as int + 27) as nat)
    ensures r.None? <==> !('a' <= c <= 'z' || 'A' <= c <= 'Z')
  {
    if 'a' <= c <= 'z' then Some(c as nat - 96)
    else if 'A' <= c <= 'Z' then Some(c as nat - (65 - 27))
    else None
  }

  /** The item with priority k. */
  function ItemOf(k: nat): char
    requires 1 <= k <= 52
  {
    if k <= 26 then (96 + k) as char else (38 + k) as char
  }

  /** Scores are 1..52 and tell items apart: ItemOf inverts CharScore. */
  lemma CharScoreInverse(c: char, k: nat)
    requires 1 <= k <= 52
    ensures CharScore(ItemOf(k)) == Some(k)
    ensures CharScore(c).Some? ==> 1 <= CharScore(c).value <= 52 && ItemOf(CharScore(c).value) == c
  {
  }

  datatype Rucksack = Rucksack(first: set<char>, second: set<char>)

  /** Where `line[..len / 2]` cuts a line: the character position at half
      its length in bytes, which is what `str::len` and slicing count. None
      when that length is odd, or when its half falls inside a character. */
  function Middle(line: string): (k: Option<nat>)
    ensures k.Some? <==>
      Text.ByteLen(line) % 2 == 0
      && exists j :: 0 <= j <= |line| && 2 * Text.ByteLen(line[..j]) == Text.ByteLen(line)
    ensures k.Some? ==> k.value <= |line| && 2 * Text.ByteLen(line[..k.value]) == Text.ByteLen(line)
  {
    var n := Text.ByteLen(line);
    if n % 2 == 1 then None else Text.Boundary(line, n / 2)
  }

  /** Trims the line and cuts it in two halves of equal byte length. An odd
      byte length is the parse error; a half inside a character is the
      slice's panic. */
  function ParseRucksack(s: string): (r: Result<Rucksack>)
    ensures r.Ok? <==> Middle(Text.Trim(s)).Some?
    ensures r.Ok? ==> var line, k := Text.Trim(s), Middle(Text.Trim(s)).value;
      && r.value.first == Text.Chars(line[..k])
      && r.value.second == Text.Chars(line[k..])
  {
    var line := Text.Trim(s);
    if Text.ByteLen(line) % 2 == 1 then Err("odd length")
    else match Middle(line)
      case None => Err("half inside a character")
      case Some(k) => Ok(Rucksack(Text.Chars(line[..k]), Text.Chars(line[k..])))
  }

  /** On an ASCII line bytes are characters: the line parses exactly when
      its length is even, and is cut in the middle. */
  lemma ParseRucksackAscii(s: string)
    requires forall i :: 0 <= i < |Text.Trim(s)| ==> Text.IsAscii(Text.Trim(s)[i])
    ensures var line := Text.Trim(s);
      ParseRucksack(s).Ok? <==> |line| % 2 == 0
    ensures var line := Text.Trim(s);
      ParseRucksack(s).Ok? ==>
        && ParseRucksack(s).value.first == Text.Chars(line[..|line| / 2])
        && ParseRucksack(s).value.second == Text.Chars(line[|line| / 2..])
  {
    var line := Text.Trim(s);
    Text.ByteLenAscii(line);
    if |line| % 2 == 0 {
      Text.BoundaryAscii(line, |line| / 2);
    }
  }

  /** "aéba" has four characters but five bytes, so it is refused. */
  lemma OddBytesRefused()
    ensures ParseRucksack("aéba").Err?
  {
    Text.TrimUnchanged("aéba");
    assert Text.ByteLen("aéba") == 5 by {
      assert Text.ByteLen(['a']) == 1;
      assert Text.ByteLen(['b', 'a']) == 2 by { assert ['b', 'a'][1..] == ['a']; }
      assert Text.ByteLen(['é', 'b', 'a']) == 4 by { assert ['é', 'b', 'a'][1..] == ['b', 'a']; }
      assert "aéba"[1..] == ['é', 'b', 'a'];
    }
  }

  /** "aéa" has four bytes, and their half falls inside 'é'. */
  lemma HalfInsideCharacter()
    ensures ParseRucksack("aéa").Err?
  {
    Text.TrimUnchanged("aéa");
    assert Text.ByteLen("aéa") == 4;
    assert Text.ByteLen("aéa"[..0]) == 0;
    assert Text.ByteLen("aéa"[..1]) == 1;
    assert Text.ByteLen("aéa"[..2]) == 3;
    assert Text.ByteLen("aéa"[..3]) == 4;
  }

  /** The two pockets together hold every item of the trimmed line. */
  lemma PocketsCover(s: string)
    requires ParseRucksack(s).Ok?
    ensures var r, line := ParseRucksack(s).value, Text.Trim(s);
            Merge(r) == Text.Chars(line)
  {
    var line := Text.Trim(s);
    var k := Middle(line).value;
    var r := ParseRucksack(s).value;
    assert r.first == Text.Chars(line[..k]) && r.second == Text.Chars(line[k..]);
    CharsConcat(line[..k], line[k..]);
    assert line[..k] + line[k..] == line;
  }

  lemma CharsConcat(a: string, b: string)
    ensures Text.Chars(a + b) == Text.Chars(a) + Text.Chars(b)
  {
    var ab := a + b;
    forall c | c in Text.Chars(a) ensures c in Text.Chars(ab) {
      var i :| 0 <= i < |a| && a[i] == c;
      assert ab[i] == c;
    }
    forall c | c in Text.Chars(b) ensures c in Text.Chars(ab) {
      var i :| 0 <= i < |b| && b[i] == c;
      assert ab[|a| + i] == c;
    }
  }

  /** Some item found in both pockets (the hash set's iteration order picks
      one; any choice is allowed here). */
  ghost function CommonItem(r: Rucksack): (c: Option<char>)
    ensures c.Some? <==> r.first * r.second != {}
    ensures c.Some? ==> c.value in r.first && c.value in r.second
  {
    if r.first * r.second == {} then None
    else
      var x :| x in r.first * r.second;
      Some(x)
  }

  /** Both pockets together; PocketsCover shows they hold the line's items. */
  function Merge(r: Rucksack): set<char> {
    r.first + r.second
  }

  /** Some element of a set, or None when it is empty. */
  ghost function AnyOf(s: set<char>): (c: Option<char>)
    ensures c.Some? <==> s != {}
    ensures c.Some? ==> c.value in s
  {
    if s == {} then None else var x :| x in s; Some(x)
  }

  /** Part one's score of a line: the priority of the item in both pockets. */
  ghost function ScoreLine(line: string): (r: Result<nat>)
    ensures r.Ok? <==> (ParseRucksack(line).Ok?
      && CommonItem(ParseRucksack(line).value).Some?
      && CharScore(CommonItem(ParseRucksack(line).value).value).Some?)
    ensures r.Ok? ==> 1 <= r.value <= 52
    ensures r.Ok? ==> var sack := ParseRucksack(line).value;
      exists c :: c in sack.first && c in sack.second && CharScore(c) == Some(r.value)
  {
    match ParseRucksack(line)
    case Err(e) => Err(e)
    case Ok(sack) =>
      match CommonItem(sack)
      case None => Err("no intersection")
      case Some(c) =>
        match CharScore(c)
        case None => Err("invalid char")
        case Some(k) => Ok(k)
  }

  /** Part one: the sum of the lines' scores, each between 1 and 52. */
  ghost function SolvePartOne(data: string): (r: Result<nat>)
    ensures var lines := Text.Lines(Text.Trim(data));
      r.Ok? <==> forall i :: 0 <= i < |lines| ==> ScoreLine(lines[i]).Ok?
    ensures r.Ok? ==> var n := |Text.Lines(Text.Trim(data))|; n <= r.value <= 52 * n
  {
    var lines := Text.Lines(Text.Trim(data));
    if SumOk(lines, ScoreLine).Err? then SumOk(lines, ScoreLine)
    else
      SumOkBounds(lines, ScoreLine, 1, 52);
      SumOk(lines, ScoreLine)
  }

  /** `windows(3).step_by(3)`: the consecutive, non-overlapping triples from
      the start; up to two trailing rucksacks belong to no group. */
  function Triples<T>(s: seq<T>): (r: seq<seq<T>>)
    ensures |r| == |s| / 3
    ensures forall k :: 0 <= k < |r| ==> r[k] == s[3 * k..3 * k + 3]
    decreases |s|
  {
    if |s| < 3 then [] else [s[..3]] + Triples(s[3..])
  }

  /** The badge of a group: an item in all three rucksacks, scored. */
  ghost function ScoreGroup(group: seq<Rucksack>): (r: Result<nat>)
    requires |group| == 3
    ensures r.Ok? <==> (var common := Merge(group[0]) * Merge(group[1]) * Merge(group[2]);
      common != {} && CharScore(AnyOf(common).value).Some?)
    ensures r.Ok? ==> exists c :: (c in Merge(group[0]) && c in Merge(group[1]) && c in Merge(group[2])
      && CharScore(c) == Some(r.value))
  {
    var common := Merge(group[0]) * Merge(group[1]) * Merge(group[2]);
    match AnyOf(common)
    case None => Err("no badge")
    case Some(c) =>
      match CharScore(c)
      case None => Err("invalid char")
      case Some(k) => Ok(k)
  }

  /** The score of a group of three rucksacks, as part two sums it. */
  ghost function GroupScore(g: seq<Rucksack>): Result<nat> {
    if |g| == 3 then ScoreGroup(g) else Err("short group")
  }

  /** Every group of three rucksacks has a badge with a priority. */
  ghost predicate AllBadges(sacks: seq<Rucksack>) {
    var groups := Triples(sacks);
    forall k :: 0 <= k < |groups| ==> ScoreGroup(groups[k]).Ok?
  }

  /** The sum of the badges of the |sacks| / 3 groups, each between 1 and
      52; it fails when a group has no scored badge. */
  ghost function BadgeTotal(sacks: seq<Rucksack>): (r: Result<nat>)
    ensures r.Ok? <==> AllBadges(sacks)
    ensures r.Ok? ==> |sacks| / 3 <= r.value <= 52 * (|sacks| / 3)
  {
    var groups := Triples(sacks);
    assert forall k :: 0 <= k < |groups| ==> |groups[k]| == 3;
    assert forall k :: 0 <= k < |groups| ==> GroupScore(groups[k]) == ScoreGroup(groups[k]);
    var total := SumOk(groups, GroupScore);
    if total.Ok? then SumOkBounds(groups, GroupScore, 1, 52); total else total
  }

  /** Part two: a line that is not a rucksack fails, and so does a group of
      three without a scored badge; otherwise the badges of the |lines| / 3
      groups are summed. */
  ghost function SolvePartTwo(data: string): (r: Result<nat>)
    ensures MapOk(Text.Lines(Text.Trim(data)), ParseRucksack).Err? ==> r.Err?
    ensures var sacks := MapOk(Text.Lines(Text.Trim(data)), ParseRucksack);
      r.Ok? <==> sacks.Ok? && AllBadges(sacks.value)
    ensures r.Ok? ==> var g := |Text.Lines(Text.Trim(data))| / 3; g <= r.value <= 52 * g
  {
    var sacks := MapOk(Text.Lines(Text.Trim(data)), ParseRucksack);
    if sacks.Err? then Err(sacks.reason)
    else
      var total := BadgeTotal(sacks.value);
      total
  }

  /** A rucksack list shorter than three has no group, so part two gives 0. */
  lemma FewSacksScoreZero(data: string)
    requires MapOk(Text.Lines(Text.Trim(data)), ParseRucksack).Ok?
    requires |Text.Lines(Text.Trim(data))| < 3
    ensures SolvePartTwo(data) == Ok(0)
  {
  }
}
