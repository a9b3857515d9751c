/** Day 5: stacks of crates rearranged by a crane. The input is a drawing of
    the stacks, a blank line, and a list of "move N from S to D" orders. */
module Day05 {
  import opened Wrappers
  import Text

  /** A stack of crate letters, bottom crate first, so the top crate is last. */
  type Stack = seq<char>

  /** "move count from src to dst", with the stacks numbered from 1. */
  datatype Order = Order(count: nat, src: nat, dst: nat)

  /** Part one's crane moves one crate at a time; part two's lifts the whole
      block at once. */
  datatype Crane = CrateMover9000 | CrateMover9001

  /** The number of crates over all stacks. */
  function Total(stacks: seq<Stack>): nat {
    if |stacks| == 0 then 0 else |stacks[0]| + Total(stacks[1..])
  }

  lemma {:induction false} TotalUpdate(stacks: seq<Stack>, i: nat, s: Stack)
    requires i < |stacks|
    ensures Total(stacks[i := s]) + |stacks[i]| == Total(stacks) + |s|
    decreases |stacks|
  {
    if i == 0 {
      assert stacks[i := s][1..] == stacks[1..];
    } else {
      assert stacks[i := s][1..] == stacks[1..][i - 1 := s];
      TotalUpdate(stacks[1..], i - 1, s);
    }
  }

  /** What carrying out an order needs: two different existing stacks (the
      split_at_mut indexing fails otherwise) and at least `count` crates on
      the source (each pop is unwrapped). */
  predicate Applicable(stacks: seq<Stack>, o: Order) {
    && 1 <= o.src <= |stacks| && 1 <= o.dst <= |stacks| && o.src != o.dst
    && o.count <= |stacks[o.src - 1]|
  }

  /** The stacks after an order: the top `count` crates leave the source and
      land on the destination, upside down for the one-at-a-time crane and in
      their own order for the block crane. */
  function Move(stacks: seq<Stack>, o: Order, crane: Crane): seq<Stack>
    requires Applicable(stacks, o)
  {
    var s := stacks[o.src - 1];
    var block := s[|s| - o.count..];
    stacks[o.src - 1 := s[..|s| - o.count]][o.dst - 1 := stacks[o.dst - 1] + Landed(block, crane)]
  }

  /** What lands on the destination: the block as it was on the source for
      the block crane, upside down for the one-at-a-time crane. */
  function Landed(block: seq<char>, crane: Crane): seq<char> {
    if crane == CrateMover9000 then Text.Reversed(block) else block
  }

  /** An order shrinks the source by `count`, puts the block on top of the
      destination and leaves the other stacks alone. */
  lemma MoveAt(stacks: seq<Stack>, o: Order, crane: Crane)
    requires Applicable(stacks, o)
    ensures var r := Move(stacks, o, crane);
      var s := stacks[o.src - 1];
      && |r| == |stacks|
      && r[o.src - 1] == s[..|s| - o.count]
      && r[o.dst - 1] == stacks[o.dst - 1] + Landed(s[|s| - o.count..], crane)
      && (forall i :: 0 <= i < |stacks| && i != o.src - 1 && i != o.dst - 1 ==> r[i] == stacks[i])
  {
  }

  /** An order moves `count` crates from the source to the top of the
      destination and keeps the number of crates. */
  lemma MoveConserves(stacks: seq<Stack>, o: Order, crane: Crane)
    requires Applicable(stacks, o)
    ensures var r := Move(stacks, o, crane);
      && |r| == |stacks|
      && |r[o.src - 1]| == |stacks[o.src - 1]| - o.count
      && |r[o.dst - 1]| == |stacks[o.dst - 1]| + o.count
      && r[o.dst - 1][..|stacks[o.dst - 1]|] == stacks[o.dst - 1]
      && Total(r) == Total(stacks)
  {
    MoveAt(stacks, o, crane);
    var d := stacks[o.dst - 1];
    var landed := Landed(stacks[o.src - 1][|stacks[o.src - 1]| - o.count..], crane);
    assert (d + landed)[..|d|] == d;
    MoveTotal(stacks, o, crane);
  }

  lemma MoveTotal(stacks: seq<Stack>, o: Order, crane: Crane)
    requires Applicable(stacks, o)
    ensures Total(Move(stacks, o, crane)) == Total(stacks)
  {
    var s, d := stacks[o.src - 1], stacks[o.dst - 1];
    var a, b := s[..|s| - o.count], d + Landed(s[|s| - o.count..], crane);
    assert Move(stacks, o, crane) == stacks[o.src - 1 := a][o.dst - 1 := b];
    assert |a| == |s| - o.count && |b| == |d| + o.count;
    TotalUpdateTwo(stacks, o.src - 1, o.dst - 1, a, b);
  }

  lemma TotalUpdateTwo(stacks: seq<Stack>, i: nat, j: nat, a: Stack, b: Stack)
    requires i < |stacks| && j < |stacks| && i != j
    ensures Total(stacks[i := a][j := b]) + |stacks[i]| + |stacks[j]| == Total(stacks) + |a| + |b|
  {
    var mid := stacks[i := a];
    assert mid[j] == stacks[j];
    TotalUpdate(stacks, i, a);
    TotalUpdate(mid, j, b);
  }

  /** The two cranes only differ when an order moves more than one crate. */
  lemma CranesAgreeOnSingleCrates(stacks: seq<Stack>, o: Order)
    requires Applicable(stacks, o) && o.count <= 1
    ensures Move(stacks, o, CrateMover9000) == Move(stacks, o, CrateMover9001)
  {
    var s := stacks[o.src - 1];
    var block := s[|s| - o.count..];
    Text.ReversedAt(block);
    assert Text.Reversed(block) == block;
  }

  /** Part one's crane: pops a crate off the source and pushes it onto the
      destination, `count` times. */
  method MoveOneByOne(stacks: array<Stack>, o: Order)
    requires Applicable(stacks[..], o)
    modifies stacks
    ensures stacks[..] == Move(old(stacks[..]), o, CrateMover9000)
  {
    ghost var start := stacks[..];
    Transfer(stacks, o.src - 1, o.dst - 1, o.count);
    Moved(start, stacks[..], o, CrateMover9000);
  }

  /** The pop/push loop of part one's crane. */
  method Transfer(stacks: array<Stack>, src: nat, dst: nat, count: nat)
    requires src < stacks.Length && dst < stacks.Length && src != dst
    requires count <= |stacks[src]|
    modifies stacks
    ensures var s := old(stacks[src]);
      && stacks[src] == s[..|s| - count]
      && stacks[dst] == old(stacks[dst]) + Text.Reversed(s[|s| - count..])
    ensures forall j :: 0 <= j < stacks.Length && j != src && j != dst ==> stacks[j] == old(stacks[j])
  {
    ghost var s, d := stacks[src], stacks[dst];
    var i := 0;
    assert s[|s|..] == [] && s[..|s|] == s && d + [] == d;
    while i < count
      invariant 0 <= i <= count
      invariant stacks[src] == s[..|s| - i]
      invariant stacks[dst] == d + Text.Reversed(s[|s| - i..])
      invariant forall j :: 0 <= j < stacks.Length && j != src && j != dst ==> stacks[j] == old(stacks[j])
    {
      TransferStep(s, d, i, stacks[src], stacks[dst]);
      MoveTop(stacks, src, dst);
      i := i + 1;
    }
  }

  /** One more crate of the pop/push loop. */
  lemma TransferStep(s: Stack, d: Stack, i: nat, top: Stack, bottom: Stack)
    requires i < |s| && top == s[..|s| - i] && bottom == d + Text.Reversed(s[|s| - i..])
    ensures |top| > 0 && top[..|top| - 1] == s[..|s| - (i + 1)]
    ensures bottom + [top[|top| - 1]] == d + Text.Reversed(s[|s| - (i + 1)..])
  {
    var k := |s| - i - 1;
    Text.ReversedSuffix(s, k);
    assert top[..|top| - 1] == s[..k];
  }

  /** One pop off the source and one push onto the destination. */
  method MoveTop(stacks: array<Stack>, src: nat, dst: nat)
    requires src < stacks.Length && dst < stacks.Length && src != dst && |stacks[src]| > 0
    modifies stacks
    ensures var s := old(stacks[src]);
      stacks[src] == s[..|s| - 1] && stacks[dst] == old(stacks[dst]) + [s[|s| - 1]]
    ensures forall j :: 0 <= j < stacks.Length && j != src && j != dst ==> stacks[j] == old(stacks[j])
  {
    var top := stacks[src][|stacks[src]| - 1];
    stacks[src] := stacks[src][..|stacks[src]| - 1];
    stacks[dst] := stacks[dst] + [top];
  }

  /** The stacks are those after the order when the source, the destination
      and every other stack are. */
  lemma Moved(start: seq<Stack>, now: seq<Stack>, o: Order, crane: Crane)
    requires Applicable(start, o) && |now| == |start|
    requires var s := start[o.src - 1];
      && now[o.src - 1] == s[..|s| - o.count]
      && now[o.dst - 1] == start[o.dst - 1] + Landed(s[|s| - o.count..], crane)
    requires forall j :: 0 <= j < |now| && j != o.src - 1 && j != o.dst - 1 ==> now[j] == start[j]
    ensures now == Move(start, o, crane)
  {
    MoveAt(start, o, crane);
  }

  /** Part two's crane: pops `count` crates into a buffer, then pops the
      buffer onto the destination, which puts the block back in its order. */
  method MoveBlock(stacks: array<Stack>, o: Order)
    requires Applicable(stacks[..], o)
    modifies stacks
    ensures stacks[..] == Move(old(stacks[..]), o, CrateMover9001)
  {
    ghost var start := stacks[..];
    ghost var s := start[o.src - 1];
    var buffer := Unstack(stacks, o.src - 1, o.count);
    Restack(stacks, o.dst - 1, buffer);
    Text.ReversedTwice(s[|s| - o.count..]);
    Moved(start, stacks[..], o, CrateMover9001);
  }

  /** The first half of part two's crane: the top `count` crates popped into
      a buffer, which then holds them top crate first. */
  method Unstack(stacks: array<Stack>, src: nat, count: nat) returns (buffer: seq<char>)
    requires src < stacks.Length && count <= |stacks[src]|
    modifies stacks
    ensures var s := old(stacks[src]);
      stacks[src] == s[..|s| - count] && buffer == Text.Reversed(s[|s| - count..])
    ensures forall j :: 0 <= j < stacks.Length && j != src ==> stacks[j] == old(stacks[j])
  {
    ghost var s := stacks[src];
    buffer := [];
    var i := 0;
    assert s[|s|..] == [] && s[..|s|] == s;
    while i < count
      invariant 0 <= i <= count
      invariant buffer == Text.Reversed(s[|s| - i..])
      invariant stacks[src] == s[..|s| - i]
      invariant forall j :: 0 <= j < stacks.Length && j != src ==> stacks[j] == old(stacks[j])
    {
      var empty: Stack := [];
      assert buffer == empty + Text.Reversed(s[|s| - i..]);
      TransferStep(s, empty, i, stacks[src], buffer);
      var top := PopTop(stacks, src);
      buffer := buffer + [top];
      i := i + 1;
    }
  }

  /** The top crate of one stack, taken off it. */
  method PopTop(stacks: array<Stack>, src: nat) returns (top: char)
    requires src < stacks.Length && |stacks[src]| > 0
    modifies stacks
    ensures var s := old(stacks[src]); stacks[src] == s[..|s| - 1] && top == s[|s| - 1]
    ensures forall j :: 0 <= j < stacks.Length && j != src ==> stacks[j] == old(stacks[j])
  {
    top := stacks[src][|stacks[src]| - 1];
    stacks[src] := stacks[src][..|stacks[src]| - 1];
  }

  /** The second half of part two's crane: the buffer popped onto the
      destination, which gets the block back in its original order. */
  method Restack(stacks: array<Stack>, dst: nat, buffer: seq<char>)
    requires dst < stacks.Length
    modifies stacks
    ensures stacks[dst] == old(stacks[dst]) + Text.Reversed(buffer)
    ensures forall j :: 0 <= j < stacks.Length && j != dst ==> stacks[j] == old(stacks[j])
  {
    var rest := buffer;
    while |rest| > 0
      invariant stacks[dst] + Text.Reversed(rest) == old(stacks[dst]) + Text.Reversed(buffer)
      invariant forall j :: 0 <= j < stacks.Length && j != dst ==> stacks[j] == old(stacks[j])
      decreases |rest|
    {
      var top := rest[|rest| - 1];
      assert rest == rest[..|rest| - 1] + [top];
      Text.ReversedSnoc(rest[..|rest| - 1], top);
      rest := rest[..|rest| - 1];
      stacks[dst] := stacks[dst] + [top];
    }
  }

  /** All orders in turn; an order that cannot be carried out is an error. */
  function Run(stacks: seq<Stack>, orders: seq<Order>, crane: Crane): Result<seq<Stack>>
    decreases |orders|
  {
    if |orders| == 0 then Ok(stacks)
    else if !Applicable(stacks, orders[0]) then Err("Incident")
    else Run(Move(stacks, orders[0], crane), orders[1..], crane)
  }

  lemma RunStep(stacks: seq<Stack>, orders: seq<Order>, crane: Crane)
    requires |orders| > 0
    ensures !Applicable(stacks, orders[0]) ==> Run(stacks, orders, crane) == Err("Incident")
    ensures Applicable(stacks, orders[0]) ==>
      Run(stacks, orders, crane) == Run(Move(stacks, orders[0], crane), orders[1..], crane)
  {
  }

  /** A run keeps the number of stacks and the number of crates. */
  lemma {:induction false} RunConserves(stacks: seq<Stack>, orders: seq<Order>, crane: Crane)
    requires Run(stacks, orders, crane).Ok?
    ensures |Run(stacks, orders, crane).value| == |stacks|
    ensures Total(Run(stacks, orders, crane).value) == Total(stacks)
    decreases |orders|
  {
    if |orders| > 0 {
      MoveConserves(stacks, orders[0], crane);
      RunConserves(Move(stacks, orders[0], crane), orders[1..], crane);
    }
  }

  /** When no order moves more than one crate, both cranes end the same. */
  lemma {:induction false} RunsAgreeOnSingleCrates(stacks: seq<Stack>, orders: seq<Order>)
    requires forall k :: 0 <= k < |orders| ==> orders[k].count <= 1
    ensures Run(stacks, orders, CrateMover9000) == Run(stacks, orders, CrateMover9001)
    decreases |orders|
  {
    if |orders| > 0 && Applicable(stacks, orders[0]) {
      CranesAgreeOnSingleCrates(stacks, orders[0]);
      RunsAgreeOnSingleCrates(Move(stacks, orders[0], CrateMover9000), orders[1..]);
    }
  }

  /** The top crate of every stack, in stack order; an empty stack is an
      error. */
  function Tops(stacks: seq<Stack>): (r: Result<string>)
    ensures r.Ok? <==> forall i :: 0 <= i < |stacks| ==> |stacks[i]| > 0
    ensures r.Ok? ==> (|r.value| == |stacks|
      && forall i :: 0 <= i < |stacks| ==> r.value[i] == stacks[i][|stacks[i]| - 1])
  {
    MapOk(stacks, (s: Stack) => if |s| == 0 then Err("empty stack") else Ok(s[|s| - 1]))
  }

  // ---- The drawing of the stacks ----

  /** From character idx on, every '[' at a byte offset b has a byte after
      it to read the letter from, and b / 4 names one of n stacks. */
  predicate Readable(n: nat, line: string, idx: nat)
    requires idx <= |line|
  {
    forall p :: idx <= p < |line| && line[p] == '[' ==>
      Text.ByteLen(line[..p]) + 1 < |line| && Text.ByteLen(line[..p]) / 4 < n
  }

  /** Crate letters from character `idx` of a drawing line onwards. The
      program finds each '[' by `match_indices`, whose offset b counts UTF-8
      bytes; the letter is `chars().nth(b + 1)`, counted in characters, and
      goes into stack b / 4, pushed under the crates already read. A missing
      letter, or a stack number past the label count, is an error. */
  function FillLine(cols: seq<Stack>, line: string, idx: nat): (r: Result<seq<Stack>>)
    requires idx <= |line|
    ensures r.Ok? <==> Readable(|cols|, line, idx)
    ensures r.Ok? ==> |r.value| == |cols|
    decreases |line| - idx
  {
    if idx == |line| then Ok(cols)
    else
      var b := Text.ByteLen(line[..idx]);
      if line[idx] != '[' then FillLine(cols, line, idx + 1)
      else if b + 1 >= |line| then Err("no letter after '['")
      else if b / 4 >= |cols| then Err("stack out of range")
      else FillLine(cols[b / 4 := [line[b + 1]] + cols[b / 4]], line, idx + 1)
  }

  /** On an ASCII line byte offsets are positions: the line reads exactly
      when every '[' at a position p has a letter after it and p / 4 names a
      stack. */
  lemma FillLineAscii(cols: seq<Stack>, line: string)
    requires forall i :: 0 <= i < |line| ==> Text.IsAscii(line[i])
    ensures FillLine(cols, line, 0).Ok? <==>
      forall p :: 0 <= p < |line| && line[p] == '[' ==> p + 1 < |line| && p / 4 < |cols|
  {
    Text.OffsetsAscii(line);
  }

  /** In "[é] [b]" the second '[' is character 4 but byte 5, so stack 1
      gets `chars().nth(6)`: the closing ']', not the 'b'. */
  lemma WideLetterShiftsStacks()
    ensures FillLine(["", ""], "[é] [b]", 0) == Ok(["é", "]"])
  {
    WideStep1(); WideStep2(); WideStep3(); WideStep4();
  }

  /** The steps of WideLetterShiftsStacks: the '[' at character 0, the
      characters up to the next '[', that '[' at byte 5, and the rest. */
  lemma WideStep1()
    ensures FillLine(["", ""], "[é] [b]", 0) == FillLine(["é", ""], "[é] [b]", 1)
  {
    var line := "[é] [b]";
    var empty, one: seq<Stack> := ["", ""], ["é", ""];
    assert line[0] == '[' && line[1] == 'é' && line[..0] == [];
    assert [line[1]] + empty[0] == one[0] && empty[0 := one[0]] == one;
    PushedAt(empty, line, 0, one);
  }

  lemma WideStep2()
    ensures FillLine(["é", ""], "[é] [b]", 1) == FillLine(["é", ""], "[é] [b]", 4)
  {
    var line := "[é] [b]";
    assert line[1] != '[' && line[2] != '[' && line[3] != '[';
    SkippedTo(["é", ""], line, 1, 4);
  }

  lemma WideStep3()
    ensures FillLine(["é", ""], "[é] [b]", 4) == FillLine(["é", "]"], "[é] [b]", 5)
  {
    var line := "[é] [b]";
    var one, two: seq<Stack> := ["é", ""], ["é", "]"];
    assert line[4] == '[' && line[6] == ']';
    assert Text.ByteLen(line[..4]) == 5 by {
      var q := line[..4];
      assert q == ['[', 'é', ']', ' '];
      assert Text.ByteLen([' ']) == 1;
      assert Text.ByteLen([']', ' ']) == 2 by { assert [']', ' '][1..] == [' ']; }
      assert Text.ByteLen(['é', ']', ' ']) == 4 by { assert ['é', ']', ' '][1..] == [']', ' ']; }
      assert q[1..] == ['é', ']', ' '];
    }
    assert [line[6]] + one[1] == two[1] && one[1 := two[1]] == two;
    PushedAt(one, line, 4, two);
  }

  lemma WideStep4()
    ensures FillLine(["é", "]"], "[é] [b]", 5) == Ok(["é", "]"])
  {
    var line := "[é] [b]";
    assert line[5] != '[' && line[6] != '[';
    SkippedTo(["é", "]"], line, 5, 7);
  }

  /** Characters other than '[' from idx to j leave the stacks alone. */
  lemma {:induction false} SkippedTo(cols: seq<Stack>, line: string, idx: nat, j: nat)
    requires idx <= j <= |line| && forall p :: idx <= p < j ==> line[p] != '['
    ensures FillLine(cols, line, idx) == FillLine(cols, line, j)
    decreases j - idx
  {
    if idx < j {
      SkippedTo(cols, line, idx + 1, j);
    }
  }

  /** One character of a drawing line: a '[' at byte offset b pushes the
      letter after byte b onto stack b / 4, or fails; anything else is
      skipped. The next character starts after this one's bytes. */
  lemma FillStep(cols: seq<Stack>, line: string, idx: nat, b: nat)
    requires idx < |line| && b == Text.ByteLen(line[..idx])
    ensures Text.ByteLen(line[..idx + 1]) == b + Text.Utf8Len(line[idx])
    ensures FillLine(cols, line, idx) ==
      if line[idx] != '[' then FillLine(cols, line, idx + 1)
      else if b + 1 >= |line| then Err("no letter after '['")
      else if b / 4 >= |cols| then Err("stack out of range")
      else FillLine(cols[b / 4 := [line[b + 1]] + cols[b / 4]], line, idx + 1)
  {
    Text.ByteLenSnoc(line, idx);
  }

  /** A '[' at idx pushes the letter after its byte offset to its stack. */
  lemma PushedAt(cols: seq<Stack>, line: string, idx: nat, next: seq<Stack>)
    requires idx < |line| && line[idx] == '['
    requires var b := Text.ByteLen(line[..idx]);
      b + 1 < |line| && b / 4 < |cols| && next == cols[b / 4 := [line[b + 1]] + cols[b / 4]]
    ensures FillLine(cols, line, idx) == FillLine(next, line, idx + 1)
  {
  }

  /** The drawing lines, top line first. */
  function FillLines(cols: seq<Stack>, lines: seq<string>): Result<seq<Stack>>
    decreases |lines|, 0
  {
    if |lines| == 0 then Ok(cols) else Continue(FillLine(cols, lines[0], 0), lines[1..])
  }

  function Continue(line: Result<seq<Stack>>, rest: seq<string>): Result<seq<Stack>>
    decreases |rest|, 1
  {
    match line
    case Err(e) => Err(e)
    case Ok(cols) => FillLines(cols, rest)
  }

  /** The letters of stack c on one line from character idx on, left to
      right: the letter after each '[' whose byte offset b has b / 4 == c. */
  function Crates(line: string, idx: nat, c: nat): seq<char>
    requires idx <= |line|
    decreases |line| - idx
  {
    if idx == |line| then []
    else
      var b := Text.ByteLen(line[..idx]);
      if line[idx] == '[' && b + 1 < |line| && b / 4 == c then
        [line[b + 1]] + Crates(line, idx + 1, c)
      else Crates(line, idx + 1, c)
  }

  /** The letters of stack c in a drawing, read from the top line down. */
  function Column(lines: seq<string>, c: nat): seq<char> {
    if |lines| == 0 then [] else Crates(lines[0], 0, c) + Column(lines[1..], c)
  }

  /** Reading a line pushes its letters under each stack, so a stack holds
      its letters in the reverse of reading order. */
  lemma {:induction false} FillLineCrates(cols: seq<Stack>, line: string, idx: nat)
    requires idx <= |line| && FillLine(cols, line, idx).Ok?
    ensures forall c :: 0 <= c < |cols| ==>
      FillLine(cols, line, idx).value[c] == Text.Reversed(Crates(line, idx, c)) + cols[c]
    decreases |line| - idx
  {
    if idx < |line| {
      var b := Text.ByteLen(line[..idx]);
      if line[idx] != '[' {
        FillLineCrates(cols, line, idx + 1);
      } else {
        var c0, v := b / 4, line[b + 1];
        var next := cols[c0 := [v] + cols[c0]];
        FillLineCrates(next, line, idx + 1);
        forall c | 0 <= c < |cols|
          ensures FillLine(cols, line, idx).value[c] == Text.Reversed(Crates(line, idx, c)) + cols[c]
        {
          if c == c0 {
            var rest := Crates(line, idx + 1, c);
            assert Crates(line, idx, c) == [v] + rest;
            assert ([v] + rest)[1..] == rest;
            assert Text.Reversed([v] + rest) == Text.Reversed(rest) + [v];
          }
        }
      }
    }
  }

  /** Reading the whole drawing leaves every stack bottom crate first: its
      letters are those of its column read from the bottom line up. */
  lemma {:induction false} FillLinesColumns(cols: seq<Stack>, lines: seq<string>)
    requires FillLines(cols, lines).Ok?
    ensures |FillLines(cols, lines).value| == |cols|
    ensures forall c :: 0 <= c < |cols| ==>
      FillLines(cols, lines).value[c] == Text.Reversed(Column(lines, c)) + cols[c]
    decreases |lines|
  {
    if |lines| > 0 {
      var first := FillLine(cols, lines[0], 0);
      FillLineCrates(cols, lines[0], 0);
      FillLinesColumns(first.value, lines[1..]);
      forall c | 0 <= c < |cols|
        ensures FillLines(cols, lines).value[c] == Text.Reversed(Column(lines, c)) + cols[c]
      {
        Text.ReversedConcat(Crates(lines[0], 0, c), Column(lines[1..], c));
      }
    }
  }

  /** The number of stacks: the last label of the last drawing line. */
  function StackCount(lines: seq<string>): Option<nat>
    requires |lines| >= 1
  {
    var labels := Text.Split(lines[|lines| - 1], ' ');
    Text.ParseNat(labels[|labels| - 1])
  }

  /** The stacks of a drawing, bottom crate first. */
  function Diagram(diagram: string): (r: Result<seq<Stack>>)
    ensures var lines := Text.Split(diagram, '\n');
      r.Ok? ==> StackCount(lines).Some? && |r.value| == StackCount(lines).value
  {
    var lines := Text.Split(diagram, '\n');
    match StackCount(lines)
    case None => Err("Invalid column count!")
    case Some(n) =>
      var empty := seq(n, _ => []);
      var r := FillLines(empty, lines[..|lines| - 1]);
      if r.Ok? then FillLinesColumns(empty, lines[..|lines| - 1]); r else r
  }

  /** Every stack of a parsed drawing holds the letters of its column, from
      the bottom line up. */
  lemma DiagramColumns(diagram: string)
    requires Diagram(diagram).Ok?
    ensures var lines := Text.Split(diagram, '\n');
      forall c :: 0 <= c < |Diagram(diagram).value| ==>
        Diagram(diagram).value[c] == Text.Reversed(Column(lines[..|lines| - 1], c))
  {
    var lines := Text.Split(diagram, '\n');
    var n := StackCount(lines).value;
    var empty: seq<Stack> := seq(n, _ => []);
    FillLinesColumns(empty, lines[..|lines| - 1]);
    forall c | 0 <= c < n
      ensures Diagram(diagram).value[c] == Text.Reversed(Column(lines[..|lines| - 1], c))
    {
      assert empty[c] == [];
    }
  }

  /** Inserts a crate at the bottom of one stack in place. */
  method Push(columns: array<Stack>, column: nat, crate: char)
    requires column < columns.Length
    modifies columns
    ensures columns[..] == old(columns[..])[column := [crate] + old(columns[column])]
  {
    columns[column] := [crate] + columns[column];
  }

  /** One drawing line pushed onto the stacks in place; the error, if the
      line does not read. idx counts characters and at the bytes before
      them: `match_indices` gives byte offsets, `chars().nth` counts
      characters. */
  method FillRow(columns: array<Stack>, line: string) returns (failure: Option<string>)
    modifies columns
    ensures failure.None? ==> FillLine(old(columns[..]), line, 0) == Ok(columns[..])
    ensures failure.Some? ==> FillLine(old(columns[..]), line, 0) == Err(failure.value)
  {
    ghost var start := columns[..];
    var idx, at := 0, 0;
    while idx < |line|
      invariant 0 <= idx <= |line| && at == Text.ByteLen(line[..idx])
      invariant FillLine(columns[..], line, idx) == FillLine(start, line, 0)
    {
      FillStep(columns[..], line, idx, at);
      if line[idx] == '[' {
        if at + 1 >= |line| {
          return Some("no letter after '['");
        }
        var column := at / 4;
        if column >= columns.Length {
          return Some("stack out of range");
        }
        Push(columns, column, line[at + 1]);
      }
      at := at + Text.Utf8Len(line[idx]);
      idx := idx + 1;
    }
    return None;
  }

  /** Reads the drawing line by line, inserting each letter at the bottom of
      its stack. */
  method ParseDiagram(diagram: string) returns (r: Result<seq<Stack>>)
    ensures r == Diagram(diagram)
  {
    var lines := Text.Split(diagram, '\n');
    var count := StackCount(lines);
    if count.None? {
      return Err("Invalid column count!");
    }
    var columns := new Stack[count.value](_ => []);
    ghost var body := lines[..|lines| - 1];
    assert columns[..] == seq(count.value, _ => []);
    var li := 0;
    while li < |lines| - 1
      invariant 0 <= li <= |lines| - 1
      invariant columns.Length == count.value
      invariant FillLines(columns[..], body[li..]) == Diagram(diagram)
    {
      assert body[li..][1..] == body[li + 1..];
      var failure := FillRow(columns, lines[li]);
      if failure.Some? {
        return Err(failure.value);
      }
      li := li + 1;
    }
    r := Ok(columns[..]);
  }

  // ---- The orders ----

  /** The number at the start of s, up to the first space. */
  function LeadingNumber(s: string): Option<nat> {
    Text.ParseNat(Text.UpTo(s, ' '))
  }

  /** "move N from S to D": N after the first five bytes (`line[5..]`, a
      panic when the line is shorter or byte 5 falls inside a character), S
      after the first "from " and D after the first "to ". Those two are
      found and sliced at byte offsets too, which land on the same text as
      their character positions. */
  function ParseOrder(line: string): Result<Order> {
    match Text.Boundary(line, 5)
    case None => Err("order too short")
    case Some(k) =>
      var f, t := Text.Find(line, "from "), Text.Find(line, "to ");
      if f.None? || t.None? then Err("bad order")
      else Located(line, k, f.value, t.value)
  }

  /** The three numbers of an order, given where the count, "from " and
      "to " start. */
  function Located(line: string, k: nat, f: nat, t: nat): Result<Order>
    requires k <= |line| && f + 5 <= |line| && t + 3 <= |line|
  {
    Fields(NumberAt(line, k), NumberAt(line, f + 5), NumberAt(line, t + 3))
  }

  /** The order made of three numbers, if all three were read. */
  function Fields(count: Option<nat>, src: Option<nat>, dst: Option<nat>): Result<Order> {
    if count.None? then Err("bad order")
    else if src.None? || dst.None? then Err("bad stack number")
    else Ok(Order(count.value, src.value, dst.value))
  }

  /** The number starting at position `at` of a line, up to the next space. */
  function NumberAt(line: string, at: nat): Option<nat>
    requires at <= |line|
    decreases at
  {
    if at == 0 then LeadingNumber(line) else NumberAt(line[1..], at - 1)
  }

  lemma {:induction false} NumberAtDrop(line: string, at: nat)
    requires at <= |line|
    ensures NumberAt(line, at) == LeadingNumber(line[at..])
    decreases at
  {
    if at > 0 {
      NumberAtDrop(line[1..], at - 1);
      assert line[1..][at - 1..] == line[at..];
    }
  }

  function ShowOrder(o: Order): string {
    "move " + Text.ShowNat(o.count) + " from " + Text.ShowNat(o.src) + " to " + Text.ShowNat(o.dst)
  }

  /** A number followed by a space-led rest reads back as that number. */
  lemma LeadingShown(n: nat, rest: string)
    requires |rest| == 0 || rest[0] == ' '
    ensures LeadingNumber(Text.ShowNat(n) + rest) == Some(n)
  {
    var s := Text.ShowNat(n);
    assert ' ' !in s by {
      assert forall i :: 0 <= i < |s| ==> Text.IsDigit(s[i]);
    }
    Text.UpToPrefix(s, rest, ' ');
    Text.ParseShow(n);
  }

  /** Parsing an order reads back the order as written. */
  lemma ParseShowOrder(o: Order)
    ensures ParseOrder(ShowOrder(o)) == Ok(o)
  {
    var line := ShowOrder(o);
    var f := FindsFrom(o);
    var t := FindsTo(o);
    CountShown(o);
    SourceShown(o, f);
    TargetShown(o, t);
    ParseOrderOf(line, f, t, o);
  }

  lemma ParseOrderOf(line: string, f: nat, t: nat, o: Order)
    requires Text.Boundary(line, 5) == Some(5) && NumberAt(line, 5) == Some(o.count)
    requires Text.Find(line, "from ") == Some(f) && Text.Find(line, "to ") == Some(t)
    requires f + 5 <= |line| && t + 3 <= |line|
    requires NumberAt(line, f + 5) == Some(o.src) && NumberAt(line, t + 3) == Some(o.dst)
    ensures ParseOrder(line) == Ok(o)
  {
    assert ParseOrder(line) == Located(line, 5, f, t);
    LocatedOf(line, 5, f, t, o);
  }

  lemma LocatedOf(line: string, k: nat, f: nat, t: nat, o: Order)
    requires k <= |line| && NumberAt(line, k) == Some(o.count)
    requires f + 5 <= |line| && t + 3 <= |line|
    requires NumberAt(line, f + 5) == Some(o.src) && NumberAt(line, t + 3) == Some(o.dst)
    ensures Located(line, k, f, t) == Ok(o)
  {
    var a, b, c := NumberAt(line, k), NumberAt(line, f + 5), NumberAt(line, t + 3);
    assert Located(line, k, f, t) == Fields(a, b, c);
    assert Fields(a, b, c) == Ok(Order(a.value, b.value, c.value));
    assert o == Order(o.count, o.src, o.dst);
  }

  /** The count of a written order is read after "move ", five bytes in. */
  lemma CountShown(o: Order)
    ensures Text.Boundary(ShowOrder(o), 5) == Some(5) && NumberAt(ShowOrder(o), 5) == Some(o.count)
  {
    var c, s, d := Text.ShowNat(o.count), Text.ShowNat(o.src), Text.ShowNat(o.dst);
    var rest := " from " + s + " to " + d;
    assert ShowOrder(o) == "move " + (c + rest);
    assert forall i :: 0 <= i < 5 ==> ShowOrder(o)[i] == "move "[i];
    Text.BoundaryAscii(ShowOrder(o), 5);
    Text.DropPrefix("move ", c + rest);
    LeadingShown(o.count, rest);
    NumberAtDrop(ShowOrder(o), 5);
  }

  /** The source of a written order is read after its first "from ". */
  lemma SourceShown(o: Order, f: nat)
    requires f + 5 == |"move " + Text.ShowNat(o.count) + " from "|
    ensures f + 5 <= |ShowOrder(o)| && NumberAt(ShowOrder(o), f + 5) == Some(o.src)
  {
    var c, s, d := Text.ShowNat(o.count), Text.ShowNat(o.src), Text.ShowNat(o.dst);
    var p := "move " + c + " from ";
    assert ShowOrder(o) == p + (s + (" to " + d));
    Text.DropPrefix(p, s + (" to " + d));
    LeadingShown(o.src, " to " + d);
    NumberAtDrop(ShowOrder(o), f + 5);
  }

  /** The target of a written order is read after its first "to ". */
  lemma TargetShown(o: Order, t: nat)
    requires t + 3 == |"move " + Text.ShowNat(o.count) + " from " + Text.ShowNat(o.src) + " to "|
    ensures t + 3 <= |ShowOrder(o)| && NumberAt(ShowOrder(o), t + 3) == Some(o.dst)
  {
    var c, s, d := Text.ShowNat(o.count), Text.ShowNat(o.src), Text.ShowNat(o.dst);
    var p := "move " + c + " from " + s + " to ";
    assert ShowOrder(o) == p + d;
    Text.DropPrefix(p, d);
    assert d + "" == d;
    LeadingShown(o.dst, "");
    NumberAtDrop(ShowOrder(o), t + 3);
  }

  /** The first "from " of a written order follows the count. */
  lemma FindsFrom(o: Order) returns (f: nat)
    ensures f + 5 == |"move " + Text.ShowNat(o.count) + " from "|
    ensures Text.Find(ShowOrder(o), "from ") == Some(f)
  {
    var c, s, d := Text.ShowNat(o.count), Text.ShowNat(o.src), Text.ShowNat(o.dst);
    var p := "move " + c + " ";
    assert 'f' !in p by {
      assert forall i :: 0 <= i < |c| ==> Text.IsDigit(c[i]);
    }
    assert ShowOrder(o) == p + "from " + (s + (" to " + d));
    Text.FindAfter(p, "from ", s + (" to " + d));
    f := |p|;
  }

  /** The first "to " of a written order follows the source stack. */
  lemma FindsTo(o: Order) returns (t: nat)
    ensures t + 3 == |"move " + Text.ShowNat(o.count) + " from " + Text.ShowNat(o.src) + " to "|
    ensures Text.Find(ShowOrder(o), "to ") == Some(t)
  {
    var c, s, d := Text.ShowNat(o.count), Text.ShowNat(o.src), Text.ShowNat(o.dst);
    var p := "move " + c + " from " + s + " ";
    assert 't' !in p by {
      assert forall i :: 0 <= i < |c| ==> Text.IsDigit(c[i]);
      assert forall i :: 0 <= i < |s| ==> Text.IsDigit(s[i]);
    }
    assert ShowOrder(o) == p + "to " + d;
    Text.FindAfter(p, "to ", d);
    t := |p|;
  }

  /** The order section, trimmed and read line by line. */
  function ParseOrders(orders: string): Result<seq<Order>> {
    MapOk(Text.Split(Text.Trim(orders), '\n'), ParseOrder)
  }

  // ---- The puzzle ----

  /** The top crates once all orders are carried out by the given crane. */
  function Solution(data: string, crane: Crane): Result<string> {
    var boundary := Text.Find(data, "\n\n");
    if boundary.None? then Err("Invalid input!")
    else
      var b := boundary.value;
      var stacks := Diagram(Text.TrimEnd(data[..b]));
      var orders := ParseOrders(data[b + 2..]);
      if stacks.Err? then Err(stacks.reason)
      else if orders.Err? then Err(orders.reason)
      else
        var final := Run(stacks.value, orders.value, crane);
        if final.Err? then Err(final.reason) else Tops(final.value)
  }

  /** Both parts: the drawing is read into stacks, every order is carried out
      in place by the crane, and the top crates are read off. */
  method Solve(data: string, crane: Crane) returns (r: Result<string>)
    ensures r == Solution(data, crane)
  {
    var boundary := Text.Find(data, "\n\n");
    if boundary.None? {
      return Err("Invalid input!");
    }
    var b := boundary.value;
    var diagram := ParseDiagram(Text.TrimEnd(data[..b]));
    if diagram.Err? {
      return Err(diagram.reason);
    }
    var orders := ParseOrders(data[b + 2..]);
    if orders.Err? {
      return Err(orders.reason);
    }
    var stacks := Rearrange(diagram.value, orders.value, crane);
    if stacks.Err? {
      return Err(stacks.reason);
    }
    r := Tops(stacks.value);
  }

  /** Carries out the orders in place on the stacks, one after the other,
      stopping at the first one that cannot be carried out. */
  method Rearrange(initial: seq<Stack>, orders: seq<Order>, crane: Crane) returns (r: Result<seq<Stack>>)
    ensures r == Run(initial, orders, crane)
  {
    var stacks := ToArray(initial);
    var k := 0;
    while k < |orders|
      invariant 0 <= k <= |orders|
      invariant Run(stacks[..], orders[k..], crane) == Run(initial, orders, crane)
    {
      var o := orders[k];
      ghost var before := stacks[..];
      if !Applicable(stacks[..], o) {
        RunAt(before, orders, k, crane);
        return Err("Incident");
      }
      Carry(stacks, o, crane);
      RunAt(before, orders, k, crane);
      k := k + 1;
    }
    assert orders[k..] == [];
    r := Ok(stacks[..]);
  }

  /** A fresh array holding the stacks. */
  method ToArray(initial: seq<Stack>) returns (stacks: array<Stack>)
    ensures fresh(stacks) && stacks[..] == initial
  {
    stacks := new Stack[|initial|](i requires 0 <= i < |initial| => initial[i]);
  }

  /** One order carried out by the given crane. */
  method Carry(stacks: array<Stack>, o: Order, crane: Crane)
    requires Applicable(stacks[..], o)
    modifies stacks
    ensures stacks[..] == Move(old(stacks[..]), o, crane)
  {
    if crane == CrateMover9000 {
      MoveOneByOne(stacks, o);
    } else {
      MoveBlock(stacks, o);
    }
  }

  /** The run from order k on, one step at a time. */
  lemma RunAt(stacks: seq<Stack>, orders: seq<Order>, k: nat, crane: Crane)
    requires k < |orders|
    ensures !Applicable(stacks, orders[k]) ==> Run(stacks, orders[k..], crane) == Err("Incident")
    ensures Applicable(stacks, orders[k]) ==>
      Run(stacks, orders[k..], crane) == Run(Move(stacks, orders[k], crane), orders[k + 1..], crane)
  {
    RunStep(stacks, orders[k..], crane);
    assert orders[k..][1..] == orders[k + 1..];
  }

  /** One order of the example, carried out. */
  lemma ExampleStep(s0: seq<Stack>, o: Order, c: Crane, s1: seq<Stack>)
    requires |s0| == 3 == |s1| && Applicable(s0, o)
    requires var s := s0[o.src - 1];
      && s1[o.src - 1] == s[..|s| - o.count]
      && s1[o.dst - 1] == s0[o.dst - 1] + Landed(s[|s| - o.count..], c)
    requires forall j :: 0 <= j < 3 && j != o.src - 1 && j != o.dst - 1 ==> s1[j] == s0[j]
    ensures Move(s0, o, c) == s1
  {
    Moved(s0, s1, o, c);
  }

  lemma ExampleFirst(c: Crane)
    ensures Applicable(["ZN", "MCD", "P"], Order(1, 2, 1))
    ensures Move(["ZN", "MCD", "P"], Order(1, 2, 1), c) == ["ZND", "MC", "P"]
  {
    var s0: seq<Stack> := ["ZN", "MCD", "P"];
    assert s0[1][..2] == "MC" && s0[1][2..] == "D";
    Text.ReversedAt("D");
    assert Text.Reversed("D") == "D";
    ExampleStep(s0, Order(1, 2, 1), c, ["ZND", "MC", "P"]);
  }

  lemma ExampleOneByOne2()
    ensures Applicable(["ZND", "MC", "P"], Order(3, 1, 3))
    ensures Move(["ZND", "MC", "P"], Order(3, 1, 3), CrateMover9000) == ["", "MC", "PDNZ"]
  {
    var s0: seq<Stack> := ["ZND", "MC", "P"];
    assert s0[0][..0] == "" && s0[0][0..] == "ZND";
    Text.ReversedAt("ZND");
    assert Text.Reversed("ZND") == "DNZ";
    ExampleStep(s0, Order(3, 1, 3), CrateMover9000, ["", "MC", "PDNZ"]);
  }

  lemma ExampleOneByOne3()
    ensures Applicable(["", "MC", "PDNZ"], Order(2, 2, 1))
    ensures Move(["", "MC", "PDNZ"], Order(2, 2, 1), CrateMover9000) == ["CM", "", "PDNZ"]
  {
    var s0: seq<Stack> := ["", "MC", "PDNZ"];
    assert s0[1][..0] == "" && s0[1][0..] == "MC";
    Text.ReversedAt("MC");
    assert Text.Reversed("MC") == "CM";
    ExampleStep(s0, Order(2, 2, 1), CrateMover9000, ["CM", "", "PDNZ"]);
  }

  lemma ExampleOneByOne4()
    ensures Applicable(["CM", "", "PDNZ"], Order(1, 1, 2))
    ensures Move(["CM", "", "PDNZ"], Order(1, 1, 2), CrateMover9000) == ["C", "M", "PDNZ"]
  {
    var s0: seq<Stack> := ["CM", "", "PDNZ"];
    assert s0[0][..1] == "C" && s0[0][1..] == "M";
    Text.ReversedAt("M");
    assert Text.Reversed("M") == "M";
    ExampleStep(s0, Order(1, 1, 2), CrateMover9000, ["C", "M", "PDNZ"]);
  }

  lemma ExampleBlock2()
    ensures Applicable(["ZND", "MC", "P"], Order(3, 1, 3))
    ensures Move(["ZND", "MC", "P"], Order(3, 1, 3), CrateMover9001) == ["", "MC", "PZND"]
  {
    var s0: seq<Stack> := ["ZND", "MC", "P"];
    assert s0[0][..0] == "" && s0[0][0..] == "ZND";
    ExampleStep(s0, Order(3, 1, 3), CrateMover9001, ["", "MC", "PZND"]);
  }

  lemma ExampleBlock3()
    ensures Applicable(["", "MC", "PZND"], Order(2, 2, 1))
    ensures Move(["", "MC", "PZND"], Order(2, 2, 1), CrateMover9001) == ["MC", "", "PZND"]
  {
    var s0: seq<Stack> := ["", "MC", "PZND"];
    assert s0[1][..0] == "" && s0[1][0..] == "MC";
    ExampleStep(s0, Order(2, 2, 1), CrateMover9001, ["MC", "", "PZND"]);
  }

  lemma ExampleBlock4()
    ensures Applicable(["MC", "", "PZND"], Order(1, 1, 2))
    ensures Move(["MC", "", "PZND"], Order(1, 1, 2), CrateMover9001) == ["M", "C", "PZND"]
  {
    var s0: seq<Stack> := ["MC", "", "PZND"];
    assert s0[0][..1] == "M" && s0[0][1..] == "C";
    ExampleStep(s0, Order(1, 1, 2), CrateMover9001, ["M", "C", "PZND"]);
  }

  /** The top crates of three non-empty stacks. */
  lemma TopsOfThree(stacks: seq<Stack>)
    requires |stacks| == 3 && |stacks[0]| > 0 && |stacks[1]| > 0 && |stacks[2]| > 0
    ensures Tops(stacks) == Ok([stacks[0][|stacks[0]| - 1], stacks[1][|stacks[1]| - 1], stacks[2][|stacks[2]| - 1]])
  {
    var t := Tops(stacks);
    assert t.Ok? && |t.value| == 3;
    assert t.value[0] == stacks[0][|stacks[0]| - 1];
    assert t.value[1] == stacks[1][|stacks[1]| - 1];
    assert t.value[2] == stacks[2][|stacks[2]| - 1];
    var e := [stacks[0][|stacks[0]| - 1], stacks[1][|stacks[1]| - 1], stacks[2][|stacks[2]| - 1]];
    assert t.value == e;
    assert t == Ok(e);
  }

  /** Carrying out an order and then the rest. */
  lemma RunThen(s0: seq<Stack>, o: Order, rest: seq<Order>, crane: Crane, s1: seq<Stack>, r: Result<seq<Stack>>)
    requires Applicable(s0, o) && Move(s0, o, crane) == s1 && Run(s1, rest, crane) == r
    ensures Run(s0, [o] + rest, crane) == r
  {
    RunStep(s0, [o] + rest, crane);
    assert ([o] + rest)[1..] == rest;
  }

  lemma ExampleOneByOneRun()
    ensures Run(["ZN", "MCD", "P"], [Order(1, 2, 1), Order(3, 1, 3), Order(2, 2, 1), Order(1, 1, 2)], CrateMover9000)
      == Ok(["C", "M", "PDNZ"])
  {
    var c, r: Result<seq<Stack>> := CrateMover9000, Ok(["C", "M", "PDNZ"]);
    ExampleOneByOne4();
    RunThen(["CM", "", "PDNZ"], Order(1, 1, 2), [], c, ["C", "M", "PDNZ"], r);
    ExampleOneByOne3();
    RunThen(["", "MC", "PDNZ"], Order(2, 2, 1), [Order(1, 1, 2)], c, ["CM", "", "PDNZ"], r);
    ExampleOneByOne2();
    RunThen(["ZND", "MC", "P"], Order(3, 1, 3), [Order(2, 2, 1), Order(1, 1, 2)], c, ["", "MC", "PDNZ"], r);
    ExampleFirst(c);
    RunThen(["ZN", "MCD", "P"], Order(1, 2, 1), [Order(3, 1, 3), Order(2, 2, 1), Order(1, 1, 2)], c, ["ZND", "MC", "P"], r);
  }

  lemma ExampleBlockRun()
    ensures Run(["ZN", "MCD", "P"], [Order(1, 2, 1), Order(3, 1, 3), Order(2, 2, 1), Order(1, 1, 2)], CrateMover9001)
      == Ok(["M", "C", "PZND"])
  {
    var c, r: Result<seq<Stack>> := CrateMover9001, Ok(["M", "C", "PZND"]);
    ExampleBlock4();
    RunThen(["MC", "", "PZND"], Order(1, 1, 2), [], c, ["M", "C", "PZND"], r);
    ExampleBlock3();
    RunThen(["", "MC", "PZND"], Order(2, 2, 1), [Order(1, 1, 2)], c, ["MC", "", "PZND"], r);
    ExampleBlock2();
    RunThen(["ZND", "MC", "P"], Order(3, 1, 3), [Order(2, 2, 1), Order(1, 1, 2)], c, ["", "MC", "PZND"], r);
    ExampleFirst(c);
    RunThen(["ZN", "MCD", "P"], Order(1, 2, 1), [Order(3, 1, 3), Order(2, 2, 1), Order(1, 1, 2)], c, ["ZND", "MC", "P"], r);
  }

  /** The puzzle's example, already read: the top crates end as "CMZ" with
      the one-at-a-time crane and as "MCD" with the block crane. */
  lemma Example()
    ensures var stacks := ["ZN", "MCD", "P"];
      var orders := [Order(1, 2, 1), Order(3, 1, 3), Order(2, 2, 1), Order(1, 1, 2)];
      && Run(stacks, orders, CrateMover9000).Ok?
      && Tops(Run(stacks, orders, CrateMover9000).value) == Ok("CMZ")
      && Run(stacks, orders, CrateMover9001).Ok?
      && Tops(Run(stacks, orders, CrateMover9001).value) == Ok("MCD")
  {
    ExampleOneByOneRun();
    TopsOfThree(["C", "M", "PDNZ"]);
    ExampleBlockRun();
    TopsOfThree(["M", "C", "PZND"]);
  }
}
