/** Day 1: calorie counts, one per line, in groups separated by blank lines;
    the largest group total, and the sum of the three largest. */
module Day01 {
  import opened Wrappers
  import Text

  function Sum(s: seq<nat>): nat {
    if |s| == 0 then 0 else Sum(s[..|s| - 1]) + s[|s| - 1]
  }

  lemma {:induction false} SumAppend(s: seq<nat>, t: seq<nat>)
    ensures Sum(s + t) == Sum(s) + Sum(t)
    decreases |t|
  {
    if |t| == 0 {
      assert s + t == s;
    } else {
      SumAppend(s, t[..|t| - 1]);
      assert (s + t)[..|s + t| - 1] == s + t[..|t| - 1];
    }
  }

  /** Every line parsed as a number, or None if one of them is not. */
  function ParseAll(lines: seq<string>): (r: Option<seq<nat>>)
    ensures r.Some? ==> (|r.value| == |lines|
      && forall i :: 0 <= i < |lines| ==> Text.ParseNat(lines[i]) == Some(r.value[i]))
    ensures r.None? ==> exists i :: 0 <= i < |lines| && Text.ParseNat(lines[i]).None?
  {
    if |lines| == 0 then Some([])
    else
      match (ParseAll(lines[..|lines| - 1]), Text.ParseNat(lines[|lines| - 1]))
      case (Some(front), Some(n)) => Some(front + [n])
      case (None, _) => None
      case (_, None) => None
  }

  /** The text groups are cut from: their lines joined by "\n", the groups
      joined by "\n\n". */
  function Unsplit(groups: seq<seq<string>>): string
    requires |groups| >= 1 && forall i :: 0 <= i < |groups| ==> |groups[i]| >= 1
  {
    Text.JoinOn(seq(|groups|, i requires 0 <= i < |groups| => Text.Join(groups[i], '\n')), "\n\n")
  }

  /** The groups of the trimmed input, cut at each "\n\n", as lists of
      lines: no line holds a line break, and putting the breaks back gives
      the trimmed input. */
  function Groups(data: string): (r: seq<seq<string>>)
    ensures |r| >= 1
    ensures forall i :: 0 <= i < |r| ==> |r[i]| >= 1 && forall j :: 0 <= j < |r[i]| ==> '\n' !in r[i][j]
    ensures Unsplit(r) == Text.Trim(data)
  {
    var parts := Text.SplitOn(Text.Trim(data), "\n\n");
    var r := seq(|parts|, i requires 0 <= i < |parts| => Text.Split(parts[i], '\n'));
    RejoinLines(parts, r);
    Text.SplitOnJoin(Text.Trim(data), "\n\n");
    r
  }

  /** Joining each part's lines again gives the parts back. */
  lemma RejoinLines(parts: seq<string>, r: seq<seq<string>>)
    requires |r| == |parts| && forall i :: 0 <= i < |r| ==> r[i] == Text.Split(parts[i], '\n') && |r[i]| >= 1
    ensures seq(|r|, i requires 0 <= i < |r| => Text.Join(r[i], '\n')) == parts
  {
    forall i | 0 <= i < |r|
      ensures Text.Join(r[i], '\n') == parts[i]
    {
      Text.JoinSplit(parts[i], '\n');
    }
  }

  /** Each group's total, or an error if some line is not a number. */
  function GroupSums(groups: seq<seq<string>>): (r: Result<seq<nat>>)
    ensures r.Ok? <==> forall i :: 0 <= i < |groups| ==> ParseAll(groups[i]).Some?
    ensures r.Ok? ==> (|r.value| == |groups|
      && forall i :: 0 <= i < |groups| ==> r.value[i] == Sum(ParseAll(groups[i]).value))
  {
    MapOk(groups, GroupSum)
  }

  /** One group's total. */
  function GroupSum(group: seq<string>): Result<nat> {
    var cals := ParseAll(group);
    if cals.None? then Err("not a number") else Ok(Sum(cals.value))
  }

  function Max(s: seq<nat>): (m: nat)
    requires |s| > 0
    ensures m in s && forall i :: 0 <= i < |s| ==> s[i] <= m
  {
    if |s| == 1 then s[0]
    else
      var m := Max(s[..|s| - 1]);
      if s[|s| - 1] > m then s[|s| - 1] else m
  }

  /** Part one: the largest group total. */
  function SolvePartOne(data: string): (r: Result<nat>)
    ensures r.Ok? <==> GroupSums(Groups(data)).Ok?
    ensures r.Ok? ==> var sums := GroupSums(Groups(data)).value;
      r.value in sums && forall i :: 0 <= i < |sums| ==> sums[i] <= r.value
  {
    match GroupSums(Groups(data))
    case Ok(sums) => Ok(Max(sums))
    case Err(e) => Err(e)
  }

  ghost predicate SortedDesc(s: seq<nat>) {
    forall p, q :: 0 <= p < q < |s| ==> s[p] >= s[q]
  }

  /** `sort_by` with the comparison reversed: sorts the array from largest to
      smallest, in place. */
  method SortDescending(a: array<nat>)
    modifies a
    ensures SortedDesc(a[..]) && multiset(a[..]) == multiset(old(a[..]))
  {
    if a.Length == 0 { return; }
    var i := 1;
    while i < a.Length
      invariant 1 <= i <= a.Length
      invariant SortedDesc(a[..i])
      invariant multiset(a[..]) == multiset(old(a[..]))
    {
      Sink(a, i);
      i := i + 1;
    }
    assert a[..a.Length] == a[..];
  }

  /** Moves a[i] down into the sorted prefix a[..i] by adjacent swaps. */
  method Sink(a: array<nat>, i: nat)
    requires i < a.Length && SortedDesc(a[..i])
    modifies a
    ensures SortedDesc(a[..i + 1]) && multiset(a[..]) == multiset(old(a[..]))
    ensures a[i + 1..] == old(a[i + 1..])
  {
    var j := i;
    while j > 0 && a[j - 1] < a[j]
      invariant 0 <= j <= i
      invariant forall p, q :: 0 <= p < q <= i && q != j ==> a[p] >= a[q]
      invariant 0 < j < i ==> a[j - 1] >= a[j + 1]
      invariant multiset(a[..]) == multiset(old(a[..]))
      invariant a[i + 1..] == old(a[i + 1..])
    {
      Swap(a, j - 1);
      j := j - 1;
    }
  }

  /** Exchanges a[k] and a[k + 1]. */
  method Swap(a: array<nat>, k: nat)
    requires k + 1 < a.Length
    modifies a
    ensures a[k] == old(a[k + 1]) && a[k + 1] == old(a[k])
    ensures forall p :: 0 <= p < a.Length && p != k && p != k + 1 ==> a[p] == old(a[p])
    ensures multiset(a[..]) == multiset(old(a[..]))
  {
    ghost var before := a[..];
    SwapKeepsMultiset(before, k);
    a[k], a[k + 1] := a[k + 1], a[k];
    assert a[..] == before[k := before[k + 1]][k + 1 := before[k]];
  }

  lemma SwapKeepsMultiset(s: seq<nat>, k: nat)
    requires k + 1 < |s|
    ensures multiset(s[k := s[k + 1]][k + 1 := s[k]]) == multiset(s)
  {
    var u := s[k := s[k + 1]];
    assert multiset(u) == multiset(s) - multiset{s[k]} + multiset{s[k + 1]};
    assert multiset(u[k + 1 := s[k]]) == multiset(u) - multiset{u[k + 1]} + multiset{s[k]};
  }

  /** The first min(3, |s|) entries. */
  function TopThree(s: seq<nat>): seq<nat> {
    if |s| <= 3 then s else s[..3]
  }

  /** Part two: sorts the group totals from largest to smallest and adds up
      the first three (all of them when there are fewer). */
  method SolvePartTwo(data: string) returns (r: Result<nat>)
    ensures r.Ok? <==> GroupSums(Groups(data)).Ok?
    ensures r.Ok? ==> exists sorted: seq<nat> ::
              && SortedDesc(sorted)
              && multiset(sorted) == multiset(GroupSums(Groups(data)).value)
              && r.value == Sum(TopThree(sorted))
  {
    var sums := GroupSums(Groups(data));
    if sums.Err? {
      return Err(sums.reason);
    }
    var top := ToArray(sums.value);
    SortDescending(top);
    var sorted := top[..];
    r := Ok(Sum(TopThree(sorted)));
  }

  /** A fresh array holding s. */
  method ToArray(s: seq<nat>) returns (a: array<nat>)
    ensures fresh(a) && a[..] == s
  {
    a := new nat[|s|](i requires 0 <= i < |s| => s[i]);
  }

  /** The largest of the sorted totals comes first. */
  lemma FirstIsMax(sorted: seq<nat>, sums: seq<nat>)
    requires SortedDesc(sorted) && multiset(sorted) == multiset(sums) && |sums| > 0
    ensures sorted[0] == Max(sums)
  {
    var m := Max(sums);
    assert m in multiset(sorted);
    assert sorted[0] in multiset(sums);
    var k :| 0 <= k < |sorted| && sorted[k] == m;
  }

  /** Part two is at least part one: the first of the three is the maximum. */
  lemma PartTwoAtLeastPartOne(sorted: seq<nat>, sums: seq<nat>)
    requires SortedDesc(sorted) && multiset(sorted) == multiset(sums) && |sums| > 0
    ensures Sum(TopThree(sorted)) >= Max(sums)
  {
    FirstIsMax(sorted, sums);
    var t := TopThree(sorted);
    assert t == [t[0]] + t[1..];
    SumAppend([t[0]], t[1..]);
    assert Sum([t[0]]) == t[0] by { assert [t[0]][..0] == []; }
  }
}
