/** Day 6: the start-of-packet marker is the end of the first window of 4
    pairwise different characters; the start-of-message marker, of the first
    window of 14. */
module Day06 {
  import Text
  import opened Wrappers

  /** Part one's test: six explicit comparisons. */
  predicate FourDistinct(w: string)
    requires |w| == 4
  {
    w[0] != w[1] && w[0] != w[2] && w[0] != w[3] && w[1] != w[2] && w[1] != w[3] && w[2] != w[3]
  }

  /** Part two's test: the window's characters form a set of full size. */
  predicate AllDistinct(w: string) {
    |Text.Chars(w)| == |w|
  }

  ghost predicate Pairwise(w: string) {
    forall i, j :: 0 <= i < j < |w| ==> w[i] != w[j]
  }

  /** A set of full size means no character repeats. */
  lemma {:induction false} AllDistinctPairwise(w: string)
    ensures AllDistinct(w) <==> Pairwise(w)
  {
    if |w| > 0 {
      var t := w[..|w| - 1];
      var c := w[|w| - 1];
      AllDistinctPairwise(t);
      PairwiseSnoc(w);
      assert Text.Chars(w) == Text.Chars(t) + {c};
      if c in Text.Chars(t) {
        CardBound(t);
        assert Text.Chars(w) == Text.Chars(t);
      } else {
        assert |Text.Chars(w)| == |Text.Chars(t)| + 1;
      }
    }
  }

  /** A window has no repeat when its front has none and its last character
      is not in the front. */
  lemma PairwiseSnoc(w: string)
    requires |w| > 0
    ensures Pairwise(w) <==> Pairwise(w[..|w| - 1]) && w[|w| - 1] !in w[..|w| - 1]
  {
    var t, c := w[..|w| - 1], w[|w| - 1];
    if Pairwise(t) && c !in t {
      forall i, j | 0 <= i < j < |w| ensures w[i] != w[j] {
        assert w[i] == t[i];
        if j < |w| - 1 { assert w[j] == t[j]; }
      }
    }
    if Pairwise(w) {
      forall i, j | 0 <= i < j < |t| ensures t[i] != t[j] {
        assert w[i] == t[i] && w[j] == t[j];
      }
      forall i | 0 <= i < |t| ensures t[i] != c {
        assert w[i] == t[i];
      }
    }
  }

  lemma {:induction false} CardBound(w: string)
    ensures |Text.Chars(w)| <= |w|
  {
    if |w| > 0 {
      var t := w[..|w| - 1];
      CardBound(t);
      assert Text.Chars(w) == Text.Chars(t) + {w[|w| - 1]};
    }
  }

  /** The two tests agree on windows of four. */
  lemma FourDistinctIsAllDistinct(w: string)
    requires |w| == 4
    ensures FourDistinct(w) <==> AllDistinct(w)
  {
    AllDistinctPairwise(w);
  }

  function Window(s: string, k: nat, width: nat): string
    requires k + width <= |s|
  {
    s[k..k + width]
  }

  /** `windows(width).enumerate().find_map(..)`: the end of the first window,
      from position `from` on, that passes the test. */
  function FirstMarker(s: string, width: nat, test: string -> bool, from: nat): (r: Option<nat>)
    requires width > 0
    ensures r.Some? ==> from + width <= r.value <= |s| && test(Window(s, r.value - width, width))
    ensures r.Some? ==> forall k :: from <= k < r.value - width ==> !test(Window(s, k, width))
    ensures r.None? ==> forall k :: from <= k <= |s| - width ==> !test(Window(s, k, width))
    decreases |s| - from
  {
    if from + width > |s| then None
    else if test(Window(s, from, width)) then Some(from + width)
    else FirstMarker(s, width, test, from + 1)
  }

  predicate Marker4(w: string) {
    |w| == 4 && FourDistinct(w)
  }

  /** Part one: the position after the first window of four different
      characters; the program panics when there is none. */
  function SolvePartOne(data: string): (r: Result<nat>)
    ensures var s := Text.Trim(data);
      r.Ok? <==> exists k :: 0 <= k <= |s| - 4 && Marker4(Window(s, k, 4))
    ensures r.Ok? ==> var s := Text.Trim(data);
      4 <= r.value <= |s| && Marker4(Window(s, r.value - 4, 4))
  {
    var s := Text.Trim(data);
    match FirstMarker(s, 4, Marker4, 0)
    case Some(k) => Ok(k)
    case None => Err("no marker")
  }

  /** Part two: the same with windows of fourteen, checked by set size. */
  function SolvePartTwo(data: string): (r: Result<nat>)
    ensures var s := Text.Trim(data);
      r.Ok? <==> exists k :: 0 <= k <= |s| - 14 && AllDistinct(Window(s, k, 14))
    ensures r.Ok? ==> var s := Text.Trim(data);
      14 <= r.value <= |s| && AllDistinct(Window(s, r.value - 14, 14))
  {
    var s := Text.Trim(data);
    match FirstMarker(s, 14, AllDistinct, 0)
    case Some(k) => Ok(k)
    case None => Err("no marker")
  }

  /** Part one finds the first window of four pairwise different characters. */
  lemma PartOneMeaning(data: string)
    ensures var s := Text.Trim(data);
      && (SolvePartOne(data).Ok? ==> var k := SolvePartOne(data).value;
            && 4 <= k <= |s| && Pairwise(Window(s, k - 4, 4))
            && forall j :: 0 <= j < k - 4 ==> !Pairwise(Window(s, j, 4)))
      && (SolvePartOne(data).Err? ==> forall j :: 0 <= j <= |s| - 4 ==> !Pairwise(Window(s, j, 4)))
  {
    var s := Text.Trim(data);
    forall j | 0 <= j <= |s| - 4 ensures Pairwise(Window(s, j, 4)) <==> Marker4(Window(s, j, 4)) {
      FourDistinctIsAllDistinct(Window(s, j, 4));
      AllDistinctPairwise(Window(s, j, 4));
    }
  }

  /** Part two finds the first window of fourteen pairwise different
      characters. */
  lemma PartTwoMeaning(data: string)
    ensures var s := Text.Trim(data);
      && (SolvePartTwo(data).Ok? ==> var k := SolvePartTwo(data).value;
            && 14 <= k <= |s| && Pairwise(Window(s, k - 14, 14))
            && forall j :: 0 <= j < k - 14 ==> !Pairwise(Window(s, j, 14)))
      && (SolvePartTwo(data).Err? ==> forall j :: 0 <= j <= |s| - 14 ==> !Pairwise(Window(s, j, 14)))
  {
    var s := Text.Trim(data);
    forall j | 0 <= j <= |s| - 14 ensures Pairwise(Window(s, j, 14)) <==> AllDistinct(Window(s, j, 14)) {
      AllDistinctPairwise(Window(s, j, 14));
    }
  }

  const Example1 := "mjqjpqmgbljsphdztnvjfqwrcgsmlb"

  lemma Example1Trimmed()
    ensures Text.Trim(Example1) == Example1
  {
    var s := Example1;
    assert s[0] == 'm' && s[|s| - 1] == 'b';
    Text.TrimUnchanged(s);
  }

  lemma Example1Marker()
    ensures FirstMarker(Example1, 4, Marker4, 0) == Some(7)
  {
    var s := Example1;
    assert s[0] == 'm' && s[1] == 'j' && s[2] == 'q' && s[3] == 'j';
    assert s[4] == 'p' && s[5] == 'q' && s[6] == 'm';
    assert Marker4(Window(s, 3, 4));
    assert !Marker4(Window(s, 2, 4));
    assert !Marker4(Window(s, 1, 4));
    assert !Marker4(Window(s, 0, 4));
  }

  /** Part one on the first example of the puzzle: the marker ends at 7. */
  lemma PartOneExample()
    ensures SolvePartOne(Example1) == Ok(7)
  {
    Example1Trimmed();
    Example1Marker();
  }
}
