/** Day 10: a device with one register and a clock. `noop` takes one cycle,
    `addx n` takes two and then adds n to the register. Part one samples the
    signal strength (register times cycle number) at cycle 20 and every 40
    cycles after; part two drives a 40-column screen whose beam lights the
    pixel it sweeps whenever the three-pixel sprite centred on the register
    covers it. */
module Day10 {
  import Text
  import Arith
  import opened Wrappers

  datatype Instr = Noop | AddX(n: int)

  function Abs(v: int): nat {
    if v < 0 then -v else v
  }

  function Sum(s: seq<int>): int {
    if |s| == 0 then 0 else Sum(s[..|s| - 1]) + s[|s| - 1]
  }

  /** The whole state of the device. Screen keys are (row, column). */
  datatype Cpu = Cpu(every: int, howmany: nat, cycle: nat, value: int,
                     screen: map<(int, int), bool>, record: bool,
                     strengths: seq<int>, start: int)

  /** `Device::new`: register 1, no cycle passed, first sample at cycle 20. */
  function Fresh(every: int, howmany: nat, record: bool): Cpu {
    Cpu(every, howmany, 0, 1, map[], record, [], 20)
  }

  /** `pass_cycle`: one more cycle; a counting device appends value times
      cycle on the sampled cycles while it holds at most `howmany`. */
  function Tick(c: Cpu): Cpu
    requires c.every != 0
  {
    var n := c.cycle + 1;
    if c.record || n < c.start then c.(cycle := n)
    else if (n - c.start) % c.every == 0 && |c.strengths| <= c.howmany then
      c.(cycle := n, strengths := c.strengths + [c.value * n])
    else c.(cycle := n)
  }

  /** The pixel position swept after `cycle` cycles. */
  function Beam(cycle: nat): (int, int) {
    (cycle / 40, cycle % 40)
  }

  /** `update_screen`. */
  function Draw(c: Cpu): Cpu {
    if Abs(c.value - c.cycle % 40) <= 1 then
      c.(screen := c.screen[Beam(c.cycle) := true])
    else c
  }

  /** `addx`: both cycles see the old register; a recording device draws
      after each of them. */
  function Add(c: Cpu, n: int): Cpu
    requires c.every != 0
  {
    var a := Tick(c);
    var b := if c.record then Draw(a) else a;
    var d := Tick(b);
    var e := d.(value := d.value + n);
    if c.record then Draw(e) else e
  }

  /** What the solvers do with one instruction: part two, the only one with
      a recording device, also draws after a `noop`. */
  function Exec(c: Cpu, i: Instr): Cpu
    requires c.every != 0
  {
    match i
    case Noop => if c.record then Draw(Tick(c)) else Tick(c)
    case AddX(n) => Add(c, n)
  }

  function Run(c: Cpu, prog: seq<Instr>): (r: Cpu)
    requires c.every != 0
    ensures r.every == c.every
  {
    if |prog| == 0 then c
    else Exec(Run(c, prog[..|prog| - 1]), prog[|prog| - 1])
  }

  lemma RunSnoc(c: Cpu, prog: seq<Instr>, i: int)
    requires c.every != 0 && 0 <= i < |prog|
    ensures Run(c, prog[..i + 1]) == Exec(Run(c, prog[..i]), prog[i])
  {
    assert prog[..i + 1][..i] == prog[..i];
  }

  /** The device of the source, one field per field. */
  class Device {
    var every: int
    var howmany: nat
    var cyclecount: nat
    var value: int
    var screen: map<(int, int), bool>
    var record: bool
    var strengths: seq<int>
    var start: int

    function Model(): Cpu
      reads this
    {
      Cpu(every, howmany, cyclecount, value, screen, record, strengths, start)
    }

    constructor (every: int, howmany: nat, record: bool)
      ensures Model() == Fresh(every, howmany, record)
    {
      this.every := every;
      this.howmany := howmany;
      this.record := record;
      cyclecount := 0;
      value := 1;
      screen := map[];
      strengths := [];
      start := 20;
    }

    /** Tries the three sprite offsets against the beam's column. */
    method UpdateScreen()
      modifies this
      ensures Model() == Draw(old(Model()))
    {
      var beam := cyclecount % 40;
      var sc := screen;
      for i := 0 to 3
        invariant unchanged(this)
        invariant sc == if Abs(value - beam) <= 1 && beam - value < i - 1
                        then screen[Beam(cyclecount) := true] else screen
      {
        var dx := i - 1;
        if value + dx == beam {
          sc := sc[(cyclecount / 40, value + dx) := true];
        }
      }
      screen := sc;
    }

    method PassCycle()
      modifies this
      requires every != 0
      ensures Model() == Tick(old(Model()))
    {
      cyclecount := cyclecount + 1;
      if record || cyclecount < start {
        return;
      }
      if (cyclecount - start) % every == 0 && |strengths| <= howmany {
        strengths := strengths + [value * cyclecount];
      }
    }

    method AddX(howmuch: int)
      modifies this
      requires every != 0
      ensures Model() == Add(old(Model()), howmuch)
    {
      PassCycle();
      if record {
        UpdateScreen();
      }
      PassCycle();
      value := value + howmuch;
      if record {
        UpdateScreen();
      }
    }

    /** `spit`: the sum of the strengths, which must fit a `usize`. */
    function Spit(): (r: Result<nat>)
      reads this
      ensures r.Ok? <==> Sum(strengths) >= 0
      ensures r.Ok? ==> r.value == Sum(strengths)
    {
      var total := Sum(strengths);
      if total < 0 then Err("negative sum") else Ok(total)
    }
  }

  /** `print_map`: six rows of 40 pixels, '#' lit and '.' dark. */
  function Pixel(sc: map<(int, int), bool>, y: int, x: int): char {
    if (y, x) in sc && sc[(y, x)] then '#' else '.'
  }

  function Row(sc: map<(int, int), bool>, y: int): string {
    seq(40, x => Pixel(sc, y, x))
  }

  function PrintMap(sc: map<(int, int), bool>): string {
    Text.Join(seq(6, y => Row(sc, y)), '\n')
  }

  /** The rendering has six lines of 40 characters, '#' exactly where the
      screen holds a lit pixel. */
  lemma PrintMapRows(sc: map<(int, int), bool>)
    ensures |Text.Split(PrintMap(sc), '\n')| == 6
    ensures forall y :: 0 <= y < 6 ==> |Text.Split(PrintMap(sc), '\n')[y]| == 40
    ensures forall y, x :: 0 <= y < 6 && 0 <= x < 40 ==>
      (Text.Split(PrintMap(sc), '\n')[y][x] == '#' <==> (y, x) in sc && sc[(y, x)])
  {
    var rows := seq(6, y => Row(sc, y));
    forall y | 0 <= y < 6
      ensures '\n' !in rows[y]
    {
      assert forall x :: 0 <= x < 40 ==> rows[y][x] == Pixel(sc, y, x);
    }
    Text.SplitJoin(rows, '\n');
  }

  // The meaning of a program, independently of the device.

  /** The register after the whole program: 1 plus every addx. */
  function Final(prog: seq<Instr>): int {
    if |prog| == 0 then 1
    else
      Final(prog[..|prog| - 1])
      + match prog[|prog| - 1] case Noop => 0 case AddX(n) => n
  }

  /** Trace(prog)[k] is the register during cycle k + 1: each instruction
      holds the value the earlier ones left for all of its cycles. */
  function Trace(prog: seq<Instr>): seq<int> {
    if |prog| == 0 then []
    else
      var p := prog[..|prog| - 1];
      Trace(p) + match prog[|prog| - 1]
        case Noop => [Final(p)]
        case AddX(_) => [Final(p), Final(p)]
  }

  /** The pixels lit when pixel p is drawn with xs[p] in the register. */
  function LitMap(xs: seq<int>): map<(int, int), bool> {
    if |xs| == 0 then map[]
    else
      var p := |xs| - 1;
      var m := LitMap(xs[..p]);
      if Abs(xs[p] - p % 40) <= 1 then m[Beam(p) := true] else m
  }

  /** Pixel (y, x) is lit exactly when it is one of the first |xs| pixels and
      the sprite covered column x while it was drawn. */
  lemma {:induction false} LitMapMeaning(xs: seq<int>, y: int, x: int)
    ensures (y, x) in LitMap(xs) <==>
      0 <= y && 0 <= x < 40 && 40 * y + x < |xs| && Abs(xs[40 * y + x] - x) <= 1
    ensures (y, x) in LitMap(xs) ==> LitMap(xs)[(y, x)]
    decreases |xs|
  {
    if |xs| > 0 {
      var p := |xs| - 1;
      LitMapMeaning(xs[..p], y, x);
      if 0 <= y && 0 <= x < 40 && 40 * y + x < p {
        assert xs[..p][40 * y + x] == xs[40 * y + x];
      }
      assert (y, x) == Beam(p) <==> 0 <= y && 0 <= x < 40 && 40 * y + x == p;
    }
  }

  lemma LitMapSnoc(xs: seq<int>, x: int)
    ensures LitMap(xs + [x]) == if Abs(x - |xs| % 40) <= 1
      then LitMap(xs)[Beam(|xs|) := true] else LitMap(xs)
  {
    assert (xs + [x])[..|xs|] == xs;
  }

  /** The state of a recording device that has run a program with trace tr
      and final register f. */
  function Recorded(every: int, howmany: nat, tr: seq<int>, f: int): Cpu {
    Cpu(every, howmany, |tr|, f, LitMap(tr + [f]), true, [], 20)
  }

  lemma RecordingStep(every: int, howmany: nat, tr: seq<int>, f: int, i: Instr)
    requires every != 0
    ensures Exec(Recorded(every, howmany, tr, f), i) == match i
      case Noop => Recorded(every, howmany, tr + [f], f)
      case AddX(n) => Recorded(every, howmany, tr + [f, f], f + n)
  {
    LitMapSnoc(tr + [f], f);
    assert tr + [f] + [f] == tr + [f, f];
    match i
    case Noop =>
    case AddX(n) =>
      LitMapSnoc(tr + [f, f], f + n);
      assert tr + [f, f] + [f + n] == tr + [f, f, f + n];
      assert (tr + [f, f]) + [f + n] == tr + [f, f, f + n];
  }

  /** A recording device (part two, drawn once before the first instruction)
      only counts cycles, holds the register of the trace, and has lit
      exactly the pixels of the trace followed by the final register. */
  lemma {:induction false} RunRecording(every: int, howmany: nat, prog: seq<Instr>)
    requires every != 0
    ensures Run(Draw(Fresh(every, howmany, true)), prog)
      == Recorded(every, howmany, Trace(prog), Final(prog))
    decreases |prog|
  {
    if |prog| == 0 {
      LitMapSnoc([], 1);
    } else {
      var p := prog[..|prog| - 1];
      RunRecording(every, howmany, p);
      RecordingStep(every, howmany, Trace(p), Final(p), prog[|prog| - 1]);
    }
  }

  /** The capped sampling of a counting device over the cycles of tr. */
  function Sampled(tr: seq<int>, every: int, howmany: nat): seq<int>
    requires every != 0
  {
    if |tr| == 0 then []
    else
      var n := |tr|;
      var s := Sampled(tr[..n - 1], every, howmany);
      if n >= 20 && (n - 20) % every == 0 && |s| <= howmany then s + [tr[n - 1] * n]
      else s
  }

  lemma SampledSnoc(tr: seq<int>, x: int, every: int, howmany: nat)
    requires every != 0
    ensures var n := |tr| + 1; var s := Sampled(tr, every, howmany);
      Sampled(tr + [x], every, howmany)
        == if n >= 20 && (n - 20) % every == 0 && |s| <= howmany then s + [x * n] else s
  {
    assert (tr + [x])[..|tr|] == tr;
  }

  /** The state of a counting device that has run a program with trace tr
      and final register f. */
  function Counted(every: int, howmany: nat, tr: seq<int>, f: int): Cpu
    requires every != 0
  {
    Cpu(every, howmany, |tr|, f, map[], false, Sampled(tr, every, howmany), 20)
  }

  lemma CountingStep(every: int, howmany: nat, tr: seq<int>, f: int, i: Instr)
    requires every != 0
    ensures Exec(Counted(every, howmany, tr, f), i) == match i
      case Noop => Counted(every, howmany, tr + [f], f)
      case AddX(n) => Counted(every, howmany, tr + [f, f], f + n)
  {
    SampledSnoc(tr, f, every, howmany);
    match i
    case Noop =>
    case AddX(n) =>
      SampledSnoc(tr + [f], f, every, howmany);
      assert tr + [f] + [f] == tr + [f, f];
  }

  /** A counting device (part one) holds the trace's cycle count and final
      register, draws nothing, and has sampled the trace. */
  lemma {:induction false} RunCounting(every: int, howmany: nat, prog: seq<Instr>)
    requires every != 0
    ensures Run(Fresh(every, howmany, false), prog)
      == Counted(every, howmany, Trace(prog), Final(prog))
    decreases |prog|
  {
    if |prog| > 0 {
      var p := prog[..|prog| - 1];
      RunCounting(every, howmany, p);
      CountingStep(every, howmany, Trace(p), Final(p), prog[|prog| - 1]);
    }
  }

  /** How many of the cycles 20, 20 + every, 20 + 2 * every, ... are among
      the first n. */
  function Due(n: nat, every: int): nat
    requires every > 0
  {
    if n < 20 then 0 else (n - 20) / every + 1
  }

  /** The strength on cycle c of a trace: the register during c times c. */
  function StrengthAt(tr: seq<int>, c: int): int {
    if 1 <= c <= |tr| then tr[c - 1] * c else 0
  }

  /** The strengths at every sampled cycle of the trace, uncapped. */
  function Signals(tr: seq<int>, every: int): (r: seq<int>)
    requires every > 0
    ensures |r| == Due(|tr|, every)
  {
    seq(Due(|tr|, every), k => StrengthAt(tr, 20 + k * every))
  }

  function Take(s: seq<int>, k: nat): (r: seq<int>)
    ensures |r| <= k && |r| <= |s| && r == s[..|r|]
    ensures |s| <= k ==> r == s
  {
    if |s| <= k then s else s[..k]
  }

  /** Exactly the cycles Due counts lie in the first n: the k-th of them is
      within n for k < Due(n), and the next one is past n. */
  lemma DueBound(n: nat, every: int, k: nat)
    requires every > 0
    ensures k < Due(n, every) ==> 20 + k * every <= n
    ensures n < 20 + Due(n, every) * every
  {
    if n >= 20 {
      var q := (n - 20) / every;
      assert n - 20 == every * q + (n - 20) % every;
      if k < Due(n, every) {
        assert k * every <= q * every;
      }
    }
  }

  /** Passing cycle n adds one sampled cycle, n itself, exactly when n is
      20 plus a multiple of every. */
  lemma DueStep(n: nat, every: int)
    requires every > 0 && n >= 1
    ensures n >= 20 && (n - 20) % every == 0 ==>
      Due(n, every) == Due(n - 1, every) + 1 && 20 + Due(n - 1, every) * every == n
    ensures !(n >= 20 && (n - 20) % every == 0) ==> Due(n, every) == Due(n - 1, every)
  {
    if n > 20 {
      var q, r := (n - 20) / every, (n - 20) % every;
      assert n - 20 == every * q + r;
      if r == 0 {
        Arith.DivUnique(n - 21, every, q - 1, every - 1);
        assert 20 + (q - 1 + 1) * every == n;
      } else {
        Arith.DivUnique(n - 21, every, q, r - 1);
      }
    }
  }

  lemma SignalsSnoc(tr: seq<int>, x: int, every: int)
    requires every > 0
    ensures var n := |tr| + 1;
      Signals(tr + [x], every)
        == if n >= 20 && (n - 20) % every == 0 then Signals(tr, every) + [x * n]
           else Signals(tr, every)
  {
    var n := |tr| + 1;
    var t := tr + [x];
    DueStep(n, every);
    forall k | 0 <= k < Due(|tr|, every)
      ensures Signals(t, every)[k] == Signals(tr, every)[k]
    {
      DueBound(|tr|, every, k);
    }
  }

  /** The capped sampling keeps the first howmany + 1 strengths of the
      sampled cycles. */
  lemma {:induction false} SampledMeaning(tr: seq<int>, every: int, howmany: nat)
    requires every > 0
    ensures Sampled(tr, every, howmany) == Take(Signals(tr, every), howmany + 1)
    decreases |tr|
  {
    if |tr| > 0 {
      var n := |tr|;
      var t := tr[..n - 1];
      assert tr == t + [tr[n - 1]];
      SampledMeaning(t, every, howmany);
      SignalsSnoc(t, tr[n - 1], every);
    }
  }

  // Parsing.

  /** One line: "noop", or anything else followed by a space and a number
      (only "noop" is checked; any other first word adds). */
  function ParseInstr(line: string): (r: Result<Instr>)
    ensures Text.Split(line, ' ')[0] == "noop" ==> r == Ok(Noop)
    ensures Text.Split(line, ' ')[0] != "noop" ==>
      (r.Ok? <==> |Text.Split(line, ' ')| >= 2 && Text.ParseInt(Text.Split(line, ' ')[1]).Some?)
  {
    var parts := Text.Split(line, ' ');
    if parts[0] == "noop" then Ok(Noop)
    else if |parts| < 2 then Err("missing count")
    else match Text.ParseInt(parts[1])
      case None => Err("bad count")
      case Some(n) => Ok(AddX(n))
  }

  function ShowInstr(i: Instr): string {
    match i
    case Noop => "noop"
    case AddX(n) => "addx " + Text.ShowInt(n)
  }

  lemma ParseShowInstr(i: Instr)
    ensures ParseInstr(ShowInstr(i)) == Ok(i)
  {
    match i
    case Noop =>
      assert ' ' !in "noop";
      assert Text.Split("noop", ' ') == ["noop"] by {
        Text.SplitJoin(["noop"], ' ');
      }
    case AddX(n) =>
      var s := Text.ShowInt(n);
      assert ' ' !in s;
      Text.SplitJoin(["addx", s], ' ');
      assert Text.Join(["addx", s], ' ') == ShowInstr(i);
      Text.ParseShow(n);
  }

  /** Every line of the input; there is no trimming, so an empty last line
      is an error. */
  function ParseProgram(data: string): Result<seq<Instr>> {
    MapOk(Text.Split(data, '\n'), ParseInstr)
  }

  /** Runs a program on a device, one instruction after another, as the
      solvers' line loops do. */
  method Execute(cpu: Device, prog: seq<Instr>)
    modifies cpu
    requires cpu.every != 0
    ensures cpu.Model() == Run(old(cpu.Model()), prog)
  {
    ghost var init := cpu.Model();
    for i := 0 to |prog|
      invariant cpu.every == init.every
      invariant cpu.Model() == Run(init, prog[..i])
    {
      RunSnoc(init, prog, i);
      match prog[i]
      case Noop =>
        cpu.PassCycle();
        if cpu.record {
          cpu.UpdateScreen();
        }
      case AddX(n) =>
        cpu.AddX(n);
    }
    assert prog[..|prog|] == prog;
  }

  /** The total strength of the first seven sampled cycles (20, 60, 100, ...)
      the program reaches. */
  method SolvePartOne(data: string) returns (r: Result<nat>)
    ensures r.Ok? ==> (ParseProgram(data).Ok?
      && r.value == Sum(Take(Signals(Trace(ParseProgram(data).value), 40), 7)))
    ensures ParseProgram(data).Ok? ==>
      (r.Ok? <==> Sum(Take(Signals(Trace(ParseProgram(data).value), 40), 7)) >= 0)
  {
    var parsed := ParseProgram(data);
    if parsed.Err? {
      return Err(parsed.reason);
    }
    var cpu := new Device(40, 6, false);
    Execute(cpu, parsed.value);
    RunCounting(40, 6, parsed.value);
    SampledMeaning(Trace(parsed.value), 40, 6);
    r := cpu.Spit();
  }

  /** Pixel x of line y is lit when the sprite covered column x while pixel
      40 * y + x was drawn with the register xs[40 * y + x]. */
  predicate Lit(xs: seq<int>, y: int, x: int) {
    0 <= y && 0 <= x < 40 && 40 * y + x < |xs| && Abs(xs[40 * y + x] - x) <= 1
  }

  /** out shows six lines of 40 pixels, '#' exactly at the lit ones. */
  ghost predicate Shows(out: string, xs: seq<int>) {
    var rows := Text.Split(out, '\n');
    |rows| == 6
    && (forall y :: 0 <= y < 6 ==> |rows[y]| == 40)
    && forall y, x :: 0 <= y < 6 && 0 <= x < 40 ==> (rows[y][x] == '#' <==> Lit(xs, y, x))
  }

  lemma LitPixels(xs: seq<int>)
    ensures forall y, x :: (y, x) in LitMap(xs) && LitMap(xs)[(y, x)] <==> Lit(xs, y, x)
  {
    forall y, x
      ensures (y, x) in LitMap(xs) && LitMap(xs)[(y, x)] <==> Lit(xs, y, x)
    {
      LitMapMeaning(xs, y, x);
    }
  }

  lemma ShowsLit(xs: seq<int>)
    ensures Shows(PrintMap(LitMap(xs)), xs)
  {
    PrintMapRows(LitMap(xs));
    LitPixels(xs);
  }

  /** The screen after the program, with pixel p drawn while the register
      held the value of cycle p + 1, or the final value for the pixel just
      after the last cycle. */
  method SolvePartTwo(data: string) returns (r: Result<string>)
    ensures r.Ok? <==> ParseProgram(data).Ok?
    ensures r.Ok? ==> Shows(r.value,
      Trace(ParseProgram(data).value) + [Final(ParseProgram(data).value)])
  {
    var parsed := ParseProgram(data);
    if parsed.Err? {
      return Err(parsed.reason);
    }
    var prog := parsed.value;
    var cpu := new Device(20, 20, true);
    cpu.UpdateScreen();
    Execute(cpu, prog);
    RunRecording(20, 20, prog);
    ShowsLit(Trace(prog) + [Final(prog)]);
    r := Ok(PrintMap(cpu.screen));
  }
}
