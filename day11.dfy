/** Day 11: monkeys throwing items. On its turn a monkey inspects each item it
    holds, in order: the item's worry level goes through the monkey's
    operation, is then relieved (divided by three in part one, reduced
    modulo the product of the distinct divisors in part two) and the item is
    thrown to one of two monkeys depending on whether the level is divisible
    by the monkey's divisor. The answer is the product of the two largest
    numbers of inspections. */
module Day11 {
  import Text
  import Arith
  import Day01
  import opened Wrappers

  datatype Operator = Add | Mul | Sub
  datatype Operand = Val(v: nat) | Old
  datatype Operation = Operation(oper: Operator, operand: Operand)

  /** `Operation::apply` on unsigned integers; subtracting below zero is the
      overflow panic. */
  function Apply(op: Operation, x: nat): (r: Option<nat>)
    ensures r.None? <==> op.oper == Sub && op.operand.Val? && x < op.operand.v
  {
    match op.operand
    case Old =>
      (match op.oper
       case Add => Some(x * 2)
       case Sub => Some(0)
       case Mul => Some(x * x))
    case Val(v) =>
      (match op.oper
       case Add => Some(x + v)
       case Sub => if x < v then None else Some(x - v)
       case Mul => Some(x * v))
  }

  /** `old` as the operand stands for the item's own level. */
  lemma ApplyOld(o: Operator, x: nat)
    ensures Apply(Operation(o, Old), x) == Apply(Operation(o, Val(x)), x)
  {
  }

  /** What happens to a level after the operation: part one divides by
      three, part two takes the remainder modulo m. `Keep` leaves it alone:
      no solver uses it; it gives the exact levels part two stands for. */
  datatype Relief = Third | Modulo(m: nat) | Keep

  function Worry(op: Operation, relief: Relief, x: nat): (r: Result<nat>)
    ensures r.Ok? <==> Apply(op, x).Some? && relief != Modulo(0)
  {
    match Apply(op, x)
    case None => Err("subtraction below zero")
    case Some(w) =>
      match relief
      case Third => Ok(w / 3)
      case Modulo(m) => if m == 0 then Err("remainder by zero") else Ok(w % m)
      case Keep => Ok(w)
  }

  /** `targets` are the monkeys for a divisible and for an indivisible
      level; `count` is the number of inspections so far. */
  datatype Monkey = Monkey(items: seq<nat>, targets: (nat, nat), op: Operation,
                           cond: nat, count: nat)

  /** The monkey an item of level w goes to; a zero divisor panics. */
  function Target(m: Monkey, w: nat): (r: Result<nat>)
    ensures r.Ok? <==> m.cond > 0
    ensures r.Ok? ==> r.value == if w % m.cond == 0 then m.targets.0 else m.targets.1
  {
    if m.cond == 0 then Err("remainder by zero")
    else if w % m.cond == 0 then Ok(m.targets.0)
    else Ok(m.targets.1)
  }

  /** One item: where it goes and with what level. */
  function Inspect(m: Monkey, relief: Relief, x: nat): Result<(nat, nat)> {
    match Worry(m.op, relief, x)
    case Err(e) => Err(e)
    case Ok(w) =>
      match Target(m, w)
      case Err(e) => Err(e)
      case Ok(t) => Ok((t, w))
  }

  /** The list of throws for the items xs, in their order. */
  function Thrown(m: Monkey, relief: Relief, xs: seq<nat>): (r: Result<seq<(nat, nat)>>)
    ensures r.Ok? ==> |r.value| == |xs|
  {
    if |xs| == 0 then Ok([])
    else
      match Thrown(m, relief, xs[..|xs| - 1])
      case Err(e) => Err(e)
      case Ok(o) =>
        match Inspect(m, relief, xs[|xs| - 1])
        case Err(e) => Err(e)
        case Ok(t) => Ok(o + [t])
  }

  /** Throwing succeeds exactly when every item can be inspected, and the
      j-th throw is the inspection of the j-th item. */
  lemma {:induction false} ThrownAt(m: Monkey, relief: Relief, xs: seq<nat>)
    ensures Thrown(m, relief, xs).Ok? <==> forall j :: 0 <= j < |xs| ==> Inspect(m, relief, xs[j]).Ok?
    ensures Thrown(m, relief, xs).Ok? ==>
      forall j :: 0 <= j < |xs| ==> Thrown(m, relief, xs).value[j] == Inspect(m, relief, xs[j]).value
    decreases |xs|
  {
    if |xs| > 0 {
      var p := xs[..|xs| - 1];
      assert forall j :: 0 <= j < |p| ==> p[j] == xs[j];
      ThrownAt(m, relief, p);
    }
  }

  /** The throws appended to the back of their targets' queues, in order; a
      target that does not exist panics. */
  function Deliver(ms: seq<Monkey>, out: seq<(nat, nat)>): (r: Result<seq<Monkey>>)
    ensures r.Ok? ==> |r.value| == |ms|
  {
    if |out| == 0 then Ok(ms)
    else
      match Deliver(ms, out[..|out| - 1])
      case Err(e) => Err(e)
      case Ok(d) =>
        var t := out[|out| - 1].0;
        if t < |d| then Ok(d[t := d[t].(items := d[t].items + [out[|out| - 1].1])])
        else Err("no such monkey")
  }

  /** Monkey idx's turn: it counts the items it holds, throws all of them,
      and the throws are delivered afterwards. */
  function TurnOf(ms: seq<Monkey>, idx: nat, relief: Relief): (r: Result<seq<Monkey>>)
    requires idx < |ms|
    ensures r.Ok? ==> |r.value| == |ms|
  {
    var m := ms[idx];
    match Thrown(m, relief, m.items)
    case Err(e) => Err(e)
    case Ok(out) => Deliver(ms[idx := m.(items := [], count := m.count + |m.items|)], out)
  }

  /** The first k turns of a round. */
  function Turns(ms: seq<Monkey>, relief: Relief, k: nat): (r: Result<seq<Monkey>>)
    requires k <= |ms|
    ensures r.Ok? ==> |r.value| == |ms|
  {
    if k == 0 then Ok(ms)
    else
      match Turns(ms, relief, k - 1)
      case Err(e) => Err(e)
      case Ok(s) => TurnOf(s, k - 1, relief)
  }

  function RoundOf(ms: seq<Monkey>, relief: Relief): (r: Result<seq<Monkey>>)
    ensures r.Ok? ==> |r.value| == |ms|
  {
    Turns(ms, relief, |ms|)
  }

  function RoundsOf(ms: seq<Monkey>, relief: Relief, n: nat): (r: Result<seq<Monkey>>)
    ensures r.Ok? ==> |r.value| == |ms|
  {
    if n == 0 then Ok(ms)
    else
      match RoundsOf(ms, relief, n - 1)
      case Err(e) => Err(e)
      case Ok(s) => RoundOf(s, relief)
  }

  // The solver's loops.

  lemma ThrownSnoc(m: Monkey, relief: Relief, xs: seq<nat>, k: nat)
    requires k < |xs|
    ensures Thrown(m, relief, xs[..k + 1]) == match Thrown(m, relief, xs[..k])
      case Err(e) => Err(e)
      case Ok(o) =>
        match Inspect(m, relief, xs[k])
        case Err(e) => Err(e)
        case Ok(t) => Ok(o + [t])
  {
    assert xs[..k + 1][..k] == xs[..k];
  }

  lemma DeliverSnoc(ms: seq<Monkey>, out: seq<(nat, nat)>, k: nat)
    requires k < |out|
    ensures Deliver(ms, out[..k + 1]) == match Deliver(ms, out[..k])
      case Err(e) => Err(e)
      case Ok(d) =>
        var t := out[k].0;
        if t < |d| then Ok(d[t := d[t].(items := d[t].items + [out[k].1])])
        else Err("no such monkey")
  {
    assert out[..k + 1][..k] == out[..k];
  }

  /** Pops the held items one by one into a list of throws. */
  method ThrowAll(m: Monkey, relief: Relief) returns (r: Result<seq<(nat, nat)>>)
    ensures r.Ok? <==> Thrown(m, relief, m.items).Ok?
    ensures r.Ok? ==> r.value == Thrown(m, relief, m.items).value
  {
    var items := m.items;
    var outList: seq<(nat, nat)> := [];
    for k := 0 to |m.items|
      invariant items == m.items[k..]
      invariant Thrown(m, relief, m.items[..k]) == Ok(outList)
    {
      var x := items[0];
      items := items[1..];
      ThrownSnoc(m, relief, m.items, k);
      var w := Worry(m.op, relief, x);
      if w.Err? {
        ThrownAt(m, relief, m.items);
        return Err(w.reason);
      }
      if m.cond == 0 {
        ThrownAt(m, relief, m.items);
        return Err("remainder by zero");
      }
      var outMonkey := if w.value % m.cond == 0 then m.targets.0 else m.targets.1;
      outList := outList + [(outMonkey, w.value)];
    }
    assert m.items[..|m.items|] == m.items;
    r := Ok(outList);
  }

  /** Pushes each throw onto the back of its target's queue. */
  method DeliverAll(monkeys: seq<Monkey>, outList: seq<(nat, nat)>) returns (r: Result<seq<Monkey>>)
    ensures r.Ok? <==> Deliver(monkeys, outList).Ok?
    ensures r.Ok? ==> r.value == Deliver(monkeys, outList).value
  {
    var ms := monkeys;
    for j := 0 to |outList|
      invariant Deliver(monkeys, outList[..j]) == Ok(ms)
    {
      DeliverSnoc(monkeys, outList, j);
      var target := outList[j].0;
      if target >= |ms| {
        DeliverMeaning(monkeys, outList);
        return Err("no such monkey");
      }
      ms := ms[target := ms[target].(items := ms[target].items + [outList[j].1])];
    }
    assert outList[..|outList|] == outList;
    r := Ok(ms);
  }

  /** Counts the items the monkey holds, throws them all, then delivers. */
  method Turn(monkeys: seq<Monkey>, idx: nat, relief: Relief) returns (r: Result<seq<Monkey>>)
    requires idx < |monkeys|
    ensures r.Ok? <==> TurnOf(monkeys, idx, relief).Ok?
    ensures r.Ok? ==> r.value == TurnOf(monkeys, idx, relief).value
  {
    var base := monkeys[idx];
    var outList := ThrowAll(base, relief);
    if outList.Err? {
      return Err(outList.reason);
    }
    base := base.(items := [], count := base.count + |base.items|);
    r := DeliverAll(monkeys[idx := base], outList.value);
  }

  /** Once a turn fails, the rest of the round fails too. */
  lemma {:induction false} TurnsStuck(ms: seq<Monkey>, relief: Relief, k: nat, l: nat)
    requires k <= l <= |ms| && Turns(ms, relief, k).Err?
    ensures Turns(ms, relief, l).Err?
    decreases l
  {
    if l > k {
      TurnsStuck(ms, relief, k, l - 1);
    }
  }

  lemma {:induction false} RoundsStuck(ms: seq<Monkey>, relief: Relief, k: nat, l: nat)
    requires k <= l && RoundsOf(ms, relief, k).Err?
    ensures RoundsOf(ms, relief, l).Err?
    decreases l
  {
    if l > k {
      RoundsStuck(ms, relief, k, l - 1);
    }
  }

  lemma TurnsNext(ms: seq<Monkey>, relief: Relief, k: nat, s: seq<Monkey>)
    requires k < |ms| && Turns(ms, relief, k) == Ok(s)
    ensures |s| == |ms|
    ensures Turns(ms, relief, k + 1) == TurnOf(s, k, relief)
  {
  }

  /** Every monkey takes its turn, first to last. */
  method Round(monkeys: seq<Monkey>, relief: Relief) returns (r: Result<seq<Monkey>>)
    ensures r.Ok? <==> RoundOf(monkeys, relief).Ok?
    ensures r.Ok? ==> r.value == RoundOf(monkeys, relief).value
  {
    var ms := monkeys;
    for idx := 0 to |monkeys|
      invariant |ms| == |monkeys|
      invariant Turns(monkeys, relief, idx) == Ok(ms)
    {
      TurnsNext(monkeys, relief, idx, ms);
      var t := Turn(ms, idx, relief);
      if t.Err? {
        TurnsStuck(monkeys, relief, idx + 1, |monkeys|);
        return Err(t.reason);
      }
      ms := t.value;
    }
    r := Ok(ms);
  }

  method Rounds(monkeys: seq<Monkey>, relief: Relief, n: nat) returns (r: Result<seq<Monkey>>)
    ensures r.Ok? <==> RoundsOf(monkeys, relief, n).Ok?
    ensures r.Ok? ==> r.value == RoundsOf(monkeys, relief, n).value
  {
    var ms := monkeys;
    for i := 0 to n
      invariant RoundsOf(monkeys, relief, i) == Ok(ms)
    {
      var next := Round(ms, relief);
      if next.Err? {
        RoundsStuck(monkeys, relief, i + 1, n);
        return Err(next.reason);
      }
      ms := next.value;
    }
    r := Ok(ms);
  }

  // What a turn does.

  /** The levels thrown to monkey t, in the order they were thrown. */
  function Bound(out: seq<(nat, nat)>, t: nat): seq<nat> {
    if |out| == 0 then []
    else
      Bound(out[..|out| - 1], t)
      + if out[|out| - 1].0 == t then [out[|out| - 1].1] else []
  }

  /** Delivering succeeds exactly when every target exists, and each monkey
      then holds its old queue followed by the items thrown to it. */
  lemma {:induction false} DeliverMeaning(ms: seq<Monkey>, out: seq<(nat, nat)>)
    ensures Deliver(ms, out).Ok? <==> forall j :: 0 <= j < |out| ==> out[j].0 < |ms|
    ensures Deliver(ms, out).Ok? ==> forall t :: 0 <= t < |ms| ==>
      Deliver(ms, out).value[t] == ms[t].(items := ms[t].items + Bound(out, t))
    decreases |out|
  {
    if |out| > 0 {
      var p := out[..|out| - 1];
      assert forall j :: 0 <= j < |p| ==> p[j] == out[j];
      DeliverMeaning(ms, p);
    }
  }

  /** out is what monkey m throws: one entry per item x it holds, in order,
      giving the level w the item got and the first target exactly when w
      is divisible by the divisor. */
  ghost predicate Throws(m: Monkey, relief: Relief, out: seq<(nat, nat)>) {
    && |out| == |m.items|
    && forall j :: 0 <= j < |m.items| ==>
         Worry(m.op, relief, m.items[j]).Ok? && m.cond > 0
         && out[j].1 == Worry(m.op, relief, m.items[j]).value
         && out[j].0 == if out[j].1 % m.cond == 0 then m.targets.0 else m.targets.1
  }

  lemma ThrownMeaning(m: Monkey, relief: Relief)
    requires Thrown(m, relief, m.items).Ok?
    ensures Throws(m, relief, Thrown(m, relief, m.items).value)
  {
    var out := Thrown(m, relief, m.items).value;
    ThrownAt(m, relief, m.items);
    forall j | 0 <= j < |m.items|
      ensures Worry(m.op, relief, m.items[j]).Ok? && m.cond > 0
      ensures out[j].1 == Worry(m.op, relief, m.items[j]).value
      ensures out[j].0 == if out[j].1 % m.cond == 0 then m.targets.0 else m.targets.1
    {
      assert Inspect(m, relief, m.items[j]).Ok?;
    }
  }

  /** after is ms after monkey idx threw out: idx has no items left and has
      counted the ones it held; every monkey, idx included, holds its queue
      from before (empty for idx) followed by the levels thrown to it;
      nothing else changes. */
  ghost predicate Routed(ms: seq<Monkey>, idx: nat, out: seq<(nat, nat)>, after: seq<Monkey>)
    requires idx < |ms|
  {
    && |after| == |ms|
    && forall t :: 0 <= t < |ms| ==>
         after[t] == ms[t].(items := (if t == idx then [] else ms[t].items) + Bound(out, t),
                            count := if t == idx then ms[idx].count + |ms[idx].items|
                                     else ms[t].count)
  }

  /** A turn that succeeds has monkey idx throw every item it holds and
      routes each throw to the back of its target's queue. */
  lemma TurnMeaning(ms: seq<Monkey>, idx: nat, relief: Relief)
    requires idx < |ms| && TurnOf(ms, idx, relief).Ok?
    ensures Thrown(ms[idx], relief, ms[idx].items).Ok?
    ensures Throws(ms[idx], relief, Thrown(ms[idx], relief, ms[idx].items).value)
    ensures Routed(ms, idx, Thrown(ms[idx], relief, ms[idx].items).value,
                   TurnOf(ms, idx, relief).value)
  {
    var m := ms[idx];
    ThrownMeaning(m, relief);
    DeliverMeaning(ms[idx := m.(items := [], count := m.count + |m.items|)],
                   Thrown(m, relief, m.items).value);
  }

  // Conservation of items.

  function Total(ms: seq<Monkey>): nat {
    if |ms| == 0 then 0 else Total(ms[..|ms| - 1]) + |ms[|ms| - 1].items|
  }

  lemma {:induction false} TotalUpdate(ms: seq<Monkey>, i: nat, m: Monkey)
    requires i < |ms|
    ensures Total(ms[i := m]) == Total(ms) - |ms[i].items| + |m.items|
    decreases |ms|
  {
    var n := |ms| - 1;
    if i == n {
      assert ms[i := m][..n] == ms[..n];
    } else {
      assert ms[i := m][..n] == ms[..n][i := m];
      TotalUpdate(ms[..n], i, m);
    }
  }

  lemma {:induction false} DeliverTotal(ms: seq<Monkey>, out: seq<(nat, nat)>)
    requires Deliver(ms, out).Ok?
    ensures Total(Deliver(ms, out).value) == Total(ms) + |out|
    decreases |out|
  {
    if |out| > 0 {
      var p := out[..|out| - 1];
      DeliverTotal(ms, p);
      var d := Deliver(ms, p).value;
      var t := out[|out| - 1].0;
      TotalUpdate(d, t, d[t].(items := d[t].items + [out[|out| - 1].1]));
    }
  }

  /** A turn moves items between queues and neither makes nor loses any. */
  lemma TurnConserves(ms: seq<Monkey>, idx: nat, relief: Relief)
    requires idx < |ms| && TurnOf(ms, idx, relief).Ok?
    ensures Total(TurnOf(ms, idx, relief).value) == Total(ms)
  {
    var m := ms[idx];
    var emptied := ms[idx := m.(items := [], count := m.count + |m.items|)];
    TotalUpdate(ms, idx, m.(items := [], count := m.count + |m.items|));
    DeliverTotal(emptied, Thrown(m, relief, m.items).value);
  }

  lemma {:induction false} TurnsConserve(ms: seq<Monkey>, relief: Relief, k: nat)
    requires k <= |ms| && Turns(ms, relief, k).Ok?
    ensures Total(Turns(ms, relief, k).value) == Total(ms)
    decreases k
  {
    if k > 0 {
      TurnsConserve(ms, relief, k - 1);
      TurnConserves(Turns(ms, relief, k - 1).value, k - 1, relief);
    }
  }

  /** Any number of rounds keeps the number of items. */
  lemma {:induction false} RoundsConserve(ms: seq<Monkey>, relief: Relief, n: nat)
    requires RoundsOf(ms, relief, n).Ok?
    ensures Total(RoundsOf(ms, relief, n).value) == Total(ms)
    decreases n
  {
    if n > 0 {
      var s := RoundsOf(ms, relief, n - 1).value;
      assert RoundsOf(ms, relief, n) == Turns(s, relief, |s|);
      RoundsConserve(ms, relief, n - 1);
      TurnsConserve(s, relief, |s|);
    }
  }

  // Part two's modulus.

  function Divisors(ms: seq<Monkey>): (r: seq<nat>)
    ensures |r| == |ms| && forall i :: 0 <= i < |ms| ==> r[i] == ms[i].cond
  {
    seq(|ms|, i requires 0 <= i < |ms| => ms[i].cond)
  }

  /** The product of the distinct values of ds (the source collects them
      into a set first), each counted once. */
  function DistinctProduct(ds: seq<nat>): nat {
    if |ds| == 0 then 1
    else
      var p := ds[..|ds| - 1];
      DistinctProduct(p) * if ds[|ds| - 1] in p then 1 else ds[|ds| - 1]
  }

  lemma ScaledDivides(q: nat, f: nat, d: nat)
    requires d > 0 && q % d == 0
    ensures (q * f) % d == 0
  {
    var k := q / d;
    assert q == d * k;
    assert q * f == d * (k * f);
    Arith.ModShift(0, d, k * f);
  }

  lemma ScaledBy(q: nat, d: nat)
    requires d > 0
    ensures (q * d) % d == 0
  {
    assert q * d == d * q;
    Arith.ModShift(0, d, q);
  }

  /** With positive divisors the product is positive and each of them
      divides it. */
  lemma {:induction false} DistinctProductDivides(ds: seq<nat>)
    requires forall i :: 0 <= i < |ds| ==> ds[i] > 0
    ensures DistinctProduct(ds) > 0
    ensures forall i :: 0 <= i < |ds| ==> DistinctProduct(ds) % ds[i] == 0
    decreases |ds|
  {
    if |ds| > 0 {
      var p := ds[..|ds| - 1];
      var last := ds[|ds| - 1];
      var f := if last in p then 1 else last;
      DistinctProductDivides(p);
      var q := DistinctProduct(p);
      assert DistinctProduct(ds) == q * f;
      Arith.MulAtLeast(q, f);
      forall i | 0 <= i < |p|
        ensures (q * f) % ds[i] == 0
      {
        assert p[i] == ds[i];
        ScaledDivides(q, f, ds[i]);
      }
      if last in p {
        var j :| 0 <= j < |p| && p[j] == last;
        ScaledDivides(q, f, p[j]);
      } else {
        ScaledBy(q, last);
      }
    }
  }

  // Part two computes what exact levels would give.

  /** Monkeys a and b have the same rules and counts, a's rules fit the
      modulus L (no subtraction, a positive divisor dividing L), and their
      queues agree item by item modulo L. */
  predicate Same(a: Monkey, b: Monkey, L: nat)
    requires L > 0
  {
    && a.targets == b.targets && a.op == b.op && a.cond == b.cond && a.count == b.count
    && a.op.oper != Sub && a.cond > 0 && L % a.cond == 0
    && |a.items| == |b.items|
    && forall j :: 0 <= j < |a.items| ==> a.items[j] % L == b.items[j] % L
  }

  predicate Alike(a: seq<Monkey>, b: seq<Monkey>, L: nat) {
    L > 0 && |a| == |b| && forall i :: 0 <= i < |a| ==> Same(a[i], b[i], L)
  }

  predicate OutAlike(a: seq<(nat, nat)>, b: seq<(nat, nat)>, L: nat)
    requires L > 0
  {
    |a| == |b| && forall j :: 0 <= j < |a| ==> a[j].0 == b[j].0 && a[j].1 % L == b[j].1 % L
  }

  lemma ApplyCongruent(op: Operation, x: nat, y: nat, L: nat)
    requires L > 0 && op.oper != Sub && x % L == y % L
    ensures Apply(op, x).Some? && Apply(op, y).Some?
    ensures Apply(op, x).value % L == Apply(op, y).value % L
  {
    match op.operand
    case Old =>
      match op.oper {
        case Add =>
          Arith.ModMul(x, 2, L);
          Arith.ModMul(y, 2, L);
        case Mul =>
          Arith.ModMul(x, x, L);
          Arith.ModMul(y, y, L);
      }
    case Val(v) =>
      match op.oper {
        case Add =>
          Arith.ModAdd(x, v, L);
          Arith.ModAdd(y, v, L);
        case Mul =>
          Arith.ModMul(x, v, L);
          Arith.ModMul(y, v, L);
      }
  }

  /** An item inspected with part two's reduction goes where the exact level
      would send it, and its level stays congruent to the exact one. */
  lemma InspectCongruent(a: Monkey, b: Monkey, x: nat, y: nat, L: nat)
    requires L > 0 && Same(a, b, L) && x % L == y % L
    ensures Inspect(a, Modulo(L), x).Ok? && Inspect(b, Keep, y).Ok?
    ensures Inspect(a, Modulo(L), x).value.0 == Inspect(b, Keep, y).value.0
    ensures Inspect(a, Modulo(L), x).value.1 % L == Inspect(b, Keep, y).value.1 % L
  {
    ApplyCongruent(a.op, x, y, L);
    var u, v := Apply(a.op, x).value, Apply(a.op, y).value;
    Arith.ModOfMultiple(u, L, a.cond);
    Arith.ModOfMultiple(v, L, a.cond);
    Arith.ModOfMultiple(u, L, L);
    assert (u % L) % a.cond == v % a.cond by {
      Arith.ModOfMultiple(v % L, L, a.cond);
      Arith.ModOfMultiple(v, L, L);
    }
  }

  lemma ThrownCongruent(a: Monkey, b: Monkey, L: nat)
    requires L > 0 && Same(a, b, L)
    ensures Thrown(a, Modulo(L), a.items).Ok? && Thrown(b, Keep, b.items).Ok?
    ensures OutAlike(Thrown(a, Modulo(L), a.items).value, Thrown(b, Keep, b.items).value, L)
  {
    ThrownAt(a, Modulo(L), a.items);
    ThrownAt(b, Keep, b.items);
    forall j | 0 <= j < |a.items|
      ensures Inspect(a, Modulo(L), a.items[j]).Ok? && Inspect(b, Keep, b.items[j]).Ok?
      ensures Inspect(a, Modulo(L), a.items[j]).value.0 == Inspect(b, Keep, b.items[j]).value.0
      ensures Inspect(a, Modulo(L), a.items[j]).value.1 % L
           == Inspect(b, Keep, b.items[j]).value.1 % L
    {
      InspectCongruent(a, b, a.items[j], b.items[j], L);
    }
  }

  lemma SameAppend(a: Monkey, b: Monkey, x: nat, y: nat, L: nat)
    requires L > 0 && Same(a, b, L) && x % L == y % L
    ensures Same(a.(items := a.items + [x]), b.(items := b.items + [y]), L)
  {
  }

  lemma {:induction false} DeliverCongruent(a: seq<Monkey>, b: seq<Monkey>,
                                            oa: seq<(nat, nat)>, ob: seq<(nat, nat)>, L: nat)
    requires Alike(a, b, L) && OutAlike(oa, ob, L)
    ensures Deliver(a, oa).Ok? <==> Deliver(b, ob).Ok?
    ensures Deliver(a, oa).Ok? ==> Alike(Deliver(a, oa).value, Deliver(b, ob).value, L)
    decreases |oa|
  {
    if |oa| > 0 {
      var n := |oa| - 1;
      DeliverCongruent(a, b, oa[..n], ob[..n], L);
      if Deliver(a, oa[..n]).Ok? {
        var da, db := Deliver(a, oa[..n]).value, Deliver(b, ob[..n]).value;
        var t := oa[n].0;
        if t < |da| {
          SameAppend(da[t], db[t], oa[n].1, ob[n].1, L);
        }
      }
    }
  }

  lemma TurnCongruent(a: seq<Monkey>, b: seq<Monkey>, idx: nat, L: nat)
    requires Alike(a, b, L) && idx < |a|
    ensures TurnOf(a, idx, Modulo(L)).Ok? <==> TurnOf(b, idx, Keep).Ok?
    ensures TurnOf(a, idx, Modulo(L)).Ok? ==>
      Alike(TurnOf(a, idx, Modulo(L)).value, TurnOf(b, idx, Keep).value, L)
  {
    var ma, mb := a[idx], b[idx];
    assert Same(ma, mb, L);
    ThrownCongruent(ma, mb, L);
    var ea := a[idx := ma.(items := [], count := ma.count + |ma.items|)];
    var eb := b[idx := mb.(items := [], count := mb.count + |mb.items|)];
    assert Alike(ea, eb, L);
    DeliverCongruent(ea, eb, Thrown(ma, Modulo(L), ma.items).value,
                     Thrown(mb, Keep, mb.items).value, L);
  }

  lemma {:induction false} TurnsCongruent(a: seq<Monkey>, b: seq<Monkey>, k: nat, L: nat)
    requires Alike(a, b, L) && k <= |a|
    ensures Turns(a, Modulo(L), k).Ok? <==> Turns(b, Keep, k).Ok?
    ensures Turns(a, Modulo(L), k).Ok? ==>
      Alike(Turns(a, Modulo(L), k).value, Turns(b, Keep, k).value, L)
    decreases k
  {
    if k > 0 {
      TurnsCongruent(a, b, k - 1, L);
      var ta, tb := Turns(a, Modulo(L), k - 1), Turns(b, Keep, k - 1);
      if ta.Ok? {
        assert Turns(a, Modulo(L), k) == TurnOf(ta.value, k - 1, Modulo(L));
        assert Turns(b, Keep, k) == TurnOf(tb.value, k - 1, Keep);
        TurnCongruent(ta.value, tb.value, k - 1, L);
      }
    }
  }

  /** Rounds with part two's reduction and rounds with exact levels fail
      together, and otherwise agree on every count and every rule, with
      levels congruent modulo L. */
  lemma {:induction false} RoundsCongruent(a: seq<Monkey>, b: seq<Monkey>, n: nat, L: nat)
    requires Alike(a, b, L)
    ensures RoundsOf(a, Modulo(L), n).Ok? <==> RoundsOf(b, Keep, n).Ok?
    ensures RoundsOf(a, Modulo(L), n).Ok? ==>
      Alike(RoundsOf(a, Modulo(L), n).value, RoundsOf(b, Keep, n).value, L)
    decreases n
  {
    if n > 0 {
      RoundsCongruent(a, b, n - 1, L);
      if RoundsOf(a, Modulo(L), n - 1).Ok? {
        var sa := RoundsOf(a, Modulo(L), n - 1).value;
        TurnsCongruent(sa, RoundsOf(b, Keep, n - 1).value, |sa|, L);
      }
    }
  }

  /** Rules the reduction suits: no subtraction and positive divisors. */
  predicate Reducible(ms: seq<Monkey>) {
    forall i :: 0 <= i < |ms| ==> ms[i].op.oper != Sub && ms[i].cond > 0
  }

  function Modulus(ms: seq<Monkey>): nat {
    DistinctProduct(Divisors(ms))
  }

  /** The product of the distinct divisors is a modulus under which part
      two's rounds keep the counts of exact rounds. */
  lemma ReducedIsExact(ms: seq<Monkey>, n: nat)
    requires Reducible(ms)
    ensures Modulus(ms) > 0
    ensures RoundsOf(ms, Modulo(Modulus(ms)), n).Ok? <==> RoundsOf(ms, Keep, n).Ok?
    ensures RoundsOf(ms, Modulo(Modulus(ms)), n).Ok? ==>
      Counts(RoundsOf(ms, Modulo(Modulus(ms)), n).value) == Counts(RoundsOf(ms, Keep, n).value)
  {
    var L := Modulus(ms);
    DistinctProductDivides(Divisors(ms));
    assert Alike(ms, ms, L);
    RoundsCongruent(ms, ms, n, L);
  }

  // Monkey business.

  function Counts(ms: seq<Monkey>): (r: seq<nat>)
    ensures |r| == |ms| && forall i :: 0 <= i < |ms| ==> r[i] == ms[i].count
  {
    seq(|ms|, i requires 0 <= i < |ms| => ms[i].count)
  }

  /** v is the product of the two largest counts: two entries a >= b of
      counts, every other entry at most b. */
  ghost predicate TopTwoProduct(counts: seq<nat>, v: nat) {
    exists a: nat, b: nat ::
      && v == a * b && a >= b
      && multiset{a, b} <= multiset(counts)
      && forall c :: c in multiset(counts) - multiset{a, b} ==> c <= b
  }

  lemma SortedTopTwo(sorted: seq<nat>, counts: seq<nat>)
    requires Day01.SortedDesc(sorted) && multiset(sorted) == multiset(counts)
    requires |sorted| >= 2
    ensures TopTwoProduct(counts, sorted[0] * sorted[1])
  {
    var a, b := sorted[0], sorted[1];
    var rest := sorted[2..];
    assert sorted == [a, b] + rest;
    assert multiset(sorted) == multiset{a, b} + multiset(rest);
    forall c | c in multiset(counts) - multiset{a, b}
      ensures c <= b
    {
      assert c in multiset(rest);
      var k :| 0 <= k < |rest| && rest[k] == c;
      assert sorted[k + 2] == c;
    }
  }

  /** Sorts the counts from largest to smallest and multiplies the first
      two; fewer than two monkeys panic. */
  method Business(ms: seq<Monkey>) returns (r: Result<nat>)
    ensures r.Ok? <==> |ms| >= 2
    ensures r.Ok? ==> TopTwoProduct(Counts(ms), r.value)
  {
    ghost var cs := Counts(ms);
    var counts := Day01.ToArray(Counts(ms));
    Day01.SortDescending(counts);
    if counts.Length < 2 {
      return Err("fewer than two monkeys");
    }
    ghost var sorted := counts[..];
    var first, second := counts[0], counts[1];
    assert sorted[0] == first && sorted[1] == second;
    SortedTopTwo(sorted, cs);
    Arith.MulNonNegative(first, second);
    r := Ok(first * second);
  }

  // Parsing.

  /** The second piece, as Rust's `nth(1)` gives it. */
  function Second(pieces: seq<string>): Result<string> {
    if |pieces| < 2 then Err("missing field") else Ok(pieces[1])
  }

  function Number(s: string): (r: Result<nat>)
    ensures r.Ok? <==> Text.ParseNat(s).Some?
    ensures r.Ok? ==> r.value == Text.ParseNat(s).value
  {
    match Text.ParseNat(s)
    case None => Err("bad number")
    case Some(n) => Ok(n)
  }

  function ParseOperator(t: string): Result<Operator> {
    if t == "+" then Ok(Add)
    else if t == "-" then Ok(Sub)
    else if t == "*" then Ok(Mul)
    else Err("unknown operator")
  }

  function ParseOperand(t: string): Result<Operand> {
    if t == "old" then Ok(Old)
    else match Number(t)
      case Err(e) => Err(e)
      case Ok(n) => Ok(Val(n))
  }

  /** "new = old <op> <operand>": the word before the operator is skipped. */
  function ParseOperation(s: string): Result<Operation> {
    var toks := Text.Split(s, ' ');
    if |toks| < 3 then Err("short operation")
    else
      match (ParseOperator(toks[1]), ParseOperand(toks[2]))
      case (Ok(o), Ok(v)) => Ok(Operation(o, v))
      case (Err(e), _) => Err(e)
      case (_, Err(e)) => Err(e)
  }

  /** The text after `marker` on a line, read as a number. */
  function NumberAfter(line: string, marker: string): Result<nat>
    requires |marker| > 0
  {
    match Second(Text.SplitOn(line, marker))
    case Err(e) => Err(e)
    case Ok(t) => Number(t)
  }

  /** `Monkey::from_str`: after the header line, in fixed order, the items,
      the operation, the divisor and the two targets; a new monkey has
      inspected nothing. */
  function ParseMonkey(block: string): (r: Result<Monkey>)
    ensures r.Ok? ==> r.value.count == 0
  {
    var lines := Text.Split(block, '\n');
    if |lines| < 6 then Err("short block")
    else
      var items := match Second(Text.SplitOn(lines[1], ": "))
        case Err(e) => Err(e)
        case Ok(t) => MapOk(Text.SplitOn(t, ", "), Number);
      var op := match Second(Text.SplitOn(lines[2], "new = "))
        case Err(e) => Err(e)
        case Ok(t) => ParseOperation(t);
      var div := NumberAfter(lines[3], " by ");
      var yes := NumberAfter(lines[4], "monkey ");
      var no := NumberAfter(lines[5], "monkey ");
      if items.Err? then Err(items.reason)
      else if op.Err? then Err(op.reason)
      else if div.Err? then Err(div.reason)
      else if yes.Err? then Err(yes.reason)
      else if no.Err? then Err(no.reason)
      else Ok(Monkey(items.value, (yes.value, no.value), op.value, div.value, 0))
  }

  /** Blocks are separated by a blank line. */
  function ParseMonkeys(data: string): Result<seq<Monkey>> {
    MapOk(Text.SplitOn(data, "\n\n"), ParseMonkey)
  }

  // Printing, the partner of parsing.

  function OperatorText(o: Operator): string {
    match o
    case Add => "+"
    case Sub => "-"
    case Mul => "*"
  }

  function OperandText(v: Operand): string {
    match v
    case Old => "old"
    case Val(n) => Text.ShowNat(n)
  }

  /** What follows "new = " on an operation line. */
  function OperationText(op: Operation): string {
    "old " + OperatorText(op.oper) + " " + OperandText(op.operand)
  }

  function ShowAll(xs: seq<nat>): (r: seq<string>)
    ensures |r| == |xs|
    ensures forall i :: 0 <= i < |xs| ==> r[i] == Text.ShowNat(xs[i])
  {
    seq(|xs|, i requires 0 <= i < |xs| => Text.ShowNat(xs[i]))
  }

  function HeaderLine(index: nat): string {
    "Monkey " + Text.ShowNat(index) + ":"
  }

  function ItemsLine(items: seq<nat>): string
    requires |items| >= 1
  {
    "  Starting items" + ": " + Text.JoinOn(ShowAll(items), ", ")
  }

  function OperationLine(op: Operation): string {
    "  Operation: " + "new = " + OperationText(op)
  }

  function DivisorLine(cond: nat): string {
    "  Test: divisible" + " by " + Text.ShowNat(cond)
  }

  function TargetLine(yes: bool, target: nat): string {
    (if yes then "    If true: throw to " else "    If false: throw to ")
      + "monkey " + Text.ShowNat(target)
  }

  /** The six lines of a monkey's block, as the puzzle input writes them. */
  function MonkeyLines(index: nat, m: Monkey): seq<string>
    requires |m.items| >= 1
  {
    [HeaderLine(index), ItemsLine(m.items), OperationLine(m.op), DivisorLine(m.cond),
     TargetLine(true, m.targets.0), TargetLine(false, m.targets.1)]
  }

  function ShowMonkey(index: nat, m: Monkey): string
    requires |m.items| >= 1
  {
    Text.Join(MonkeyLines(index, m), '\n')
  }

  /** The field after the separator on a line `lead + rest + sep + q`: the
      separator's element at |lead| is missing from `rest` and from the
      separator's own first |lead| elements, and q lacks its first element. */
  lemma FieldAfter(lead: string, rest: string, sep: string, q: string)
    requires |lead| < |sep| && sep[|lead|] !in rest && sep[|lead|] !in sep[..|lead|]
    requires sep[0] !in q
    ensures Second(Text.SplitOn(lead + rest + sep + q, sep)) == Ok(q)
  {
    var p := lead + rest;
    var j := |lead|;
    var s := p + sep + q;
    assert s[j..|p| + j] == rest + sep[..j];
    Text.ClearBy(s, sep, |p|, j);
    Text.SplitOnAfter(p, sep, q);
    assert q[0..|q|] == q;
    Text.ClearBy(q, sep, |q|, 0);
    Text.SplitOnNone(q, sep);
  }

  lemma NumberAfterShown(lead: string, rest: string, sep: string, n: nat)
    requires |lead| < |sep| && sep[|lead|] !in rest && sep[|lead|] !in sep[..|lead|]
    requires !Text.IsDigit(sep[0])
    ensures NumberAfter(lead + rest + sep + Text.ShowNat(n), sep) == Ok(n)
  {
    Text.DigitsAvoid(Text.ShowNat(n), sep[0]);
    FieldAfter(lead, rest, sep, Text.ShowNat(n));
    Text.ParseShow(n);
  }

  lemma {:induction false} ItemsShown(items: seq<nat>)
    requires |items| >= 1
    ensures MapOk(Text.SplitOn(Text.JoinOn(ShowAll(items), ", "), ", "), Number) == Ok(items)
  {
    var parts := ShowAll(items);
    forall i | 0 <= i < |parts|
      ensures ',' !in parts[i]
      ensures Number(parts[i]) == Ok(items[i])
    {
      Text.DigitsAvoid(parts[i], ',');
      Text.ParseShow(items[i]);
    }
    Text.SplitOnJoinOn(parts, ", ");
    var r := MapOk(parts, Number);
    assert r.Ok?;
    assert r.value == items;
  }

  lemma OperatorShown(o: Operator)
    ensures ParseOperator(OperatorText(o)) == Ok(o)
  {
  }

  lemma OperandShown(v: Operand)
    ensures ParseOperand(OperandText(v)) == Ok(v)
  {
    if v.Val? {
      Text.ParseShow(v.v);
      assert OperandText(v) != "old" by {
        assert !Text.IsDigit("old"[0]);
      }
    }
  }

  lemma OperationShown(op: Operation)
    ensures ParseOperation(OperationText(op)) == Ok(op)
  {
    var parts := ["old", OperatorText(op.oper), OperandText(op.operand)];
    if op.operand.Val? {
      Text.DigitsAvoid(OperandText(op.operand), ' ');
    }
    assert parts[1..][1..] == [OperandText(op.operand)];
    assert Text.Join(parts[1..], ' ') == OperatorText(op.oper) + " " + OperandText(op.operand);
    assert Text.Join(parts, ' ') == OperationText(op);
    Text.SplitJoin(parts, ' ');
    OperatorShown(op.oper);
    OperandShown(op.operand);
  }

  lemma HeaderLineFlat(index: nat)
    ensures '\n' !in HeaderLine(index)
  {
    Text.DigitsAvoid(Text.ShowNat(index), '\n');
  }

  lemma ItemsLineFlat(items: seq<nat>)
    requires |items| >= 1
    ensures '\n' !in ItemsLine(items)
  {
    var ns := ShowAll(items);
    forall j | 0 <= j < |ns|
      ensures '\n' !in ns[j]
    {
      Text.DigitsAvoid(ns[j], '\n');
    }
    Text.NotInJoinOn(ns, ", ", '\n');
  }

  lemma OperationLineFlat(op: Operation)
    ensures '\n' !in OperationLine(op)
  {
    if op.operand.Val? {
      Text.DigitsAvoid(OperandText(op.operand), '\n');
    }
  }

  lemma DivisorLineFlat(cond: nat)
    ensures '\n' !in DivisorLine(cond)
  {
    Text.DigitsAvoid(Text.ShowNat(cond), '\n');
  }

  lemma TargetLineFlat(yes: bool, target: nat)
    ensures '\n' !in TargetLine(yes, target)
  {
    Text.DigitsAvoid(Text.ShowNat(target), '\n');
  }

  lemma ItemsLineShown(items: seq<nat>)
    requires |items| >= 1
    ensures Second(Text.SplitOn(ItemsLine(items), ": ")) == Ok(Text.JoinOn(ShowAll(items), ", "))
  {
    var ns := ShowAll(items);
    forall j | 0 <= j < |ns|
      ensures ':' !in ns[j]
    {
      Text.DigitsAvoid(ns[j], ':');
    }
    Text.NotInJoinOn(ns, ", ", ':');
    assert "" + "  Starting items" == "  Starting items";
    FieldAfter("", "  Starting items", ": ", Text.JoinOn(ns, ", "));
  }

  lemma OperationLineShown(op: Operation)
    ensures Second(Text.SplitOn(OperationLine(op), "new = ")) == Ok(OperationText(op))
  {
    if op.operand.Val? {
      Text.DigitsAvoid(OperandText(op.operand), 'n');
    }
    assert "  " + "Operation: " == "  Operation: ";
    FieldAfter("  ", "Operation: ", "new = ", OperationText(op));
  }

  lemma DivisorLineShown(cond: nat)
    ensures NumberAfter(DivisorLine(cond), " by ") == Ok(cond)
  {
    assert "  " + "Test: divisible" == "  Test: divisible";
    NumberAfterShown("  ", "Test: divisible", " by ", cond);
  }

  lemma TargetLineShown(yes: bool, target: nat)
    ensures NumberAfter(TargetLine(yes, target), "monkey ") == Ok(target)
  {
    var lead := if yes then "    If true: throw to " else "    If false: throw to ";
    assert "" + lead == lead;
    NumberAfterShown("", lead, "monkey ", target);
  }

  /** Reading a printed monkey gives it back, with nothing inspected yet. */
  lemma ParseShowMonkey(index: nat, m: Monkey)
    requires |m.items| >= 1
    ensures ParseMonkey(ShowMonkey(index, m)) == Ok(m.(count := 0))
  {
    var lines := MonkeyLines(index, m);
    HeaderLineFlat(index);
    ItemsLineFlat(m.items);
    OperationLineFlat(m.op);
    DivisorLineFlat(m.cond);
    TargetLineFlat(true, m.targets.0);
    TargetLineFlat(false, m.targets.1);
    Text.SplitJoin(lines, '\n');
    ItemsLineShown(m.items);
    ItemsShown(m.items);
    OperationLineShown(m.op);
    OperationShown(m.op);
    DivisorLineShown(m.cond);
    TargetLineShown(true, m.targets.0);
    TargetLineShown(false, m.targets.1);
  }

  // Solving.

  /** Twenty rounds, each level divided by three after the operation. */
  method SolvePartOne(data: string) returns (r: Result<nat>)
    ensures r.Ok? <==> (ParseMonkeys(data).Ok?
      && RoundsOf(ParseMonkeys(data).value, Third, 20).Ok?
      && |ParseMonkeys(data).value| >= 2)
    ensures r.Ok? ==>
      TopTwoProduct(Counts(RoundsOf(ParseMonkeys(data).value, Third, 20).value), r.value)
  {
    var parsed := ParseMonkeys(data);
    if parsed.Err? {
      return Err(parsed.reason);
    }
    var monkeys := Rounds(parsed.value, Third, 20);
    if monkeys.Err? {
      return Err(monkeys.reason);
    }
    r := Business(monkeys.value);
  }

  /** Ten thousand rounds with levels reduced modulo the product of the
      distinct divisors; when the rules allow the reduction, the answer is
      the one exact levels give. */
  method SolvePartTwo(data: string) returns (r: Result<nat>)
    ensures r.Ok? ==> ParseMonkeys(data).Ok?
    ensures ParseMonkeys(data).Ok? && Reducible(ParseMonkeys(data).value) ==>
      var ms := ParseMonkeys(data).value;
      && (r.Ok? <==> RoundsOf(ms, Keep, 10000).Ok? && |ms| >= 2)
      && (r.Ok? ==> TopTwoProduct(Counts(RoundsOf(ms, Keep, 10000).value), r.value))
  {
    var parsed := ParseMonkeys(data);
    if parsed.Err? {
      return Err(parsed.reason);
    }
    var ms := parsed.value;
    var lcm := Modulus(ms);
    var monkeys := Rounds(ms, Modulo(lcm), 10000);
    if Reducible(ms) {
      ReducedIsExact(ms, 10000);
    }
    if monkeys.Err? {
      return Err(monkeys.reason);
    }
    r := Business(monkeys.value);
  }
}
