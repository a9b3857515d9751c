/** Day 13: distress-signal packets. A packet is a list whose items are
    integers or packets; two packets are compared item by item, an integer
    facing a list being promoted to the one-element list holding it. */
module Day13 {
  import opened Wrappers
  import opened Orderings
  import Text

  datatype Packet = Packet(data: seq<Item>)
  datatype Item = Int(n: nat) | Sub(p: Packet)

  /** The packet holding just one integer (`Packet::from_int`). */
  function FromInt(v: nat): Packet {
    Packet([Int(v)])
  }

  /** The packet holding just one packet (`Packet::from_packet`). */
  function FromPacket(q: Packet): Packet {
    Packet([Sub(q)])
  }

  /** Number of nodes, the measure that the promotion of an integer into a
      list still makes decrease. */
  function ISize(x: Item): (r: nat)
    ensures r >= 1
    decreases x
  {
    match x
    case Int(_) => 1
    case Sub(p) => 1 + SSize(p.data)
  }

  function SSize(xs: seq<Item>): (r: nat)
    ensures |xs| == 1 ==> r == ISize(xs[0])
    decreases xs
  {
    if xs == [] then 0 else ISize(xs[0]) + SSize(xs[1..])
  }

  lemma {:induction false} ItemSizeBound(xs: seq<Item>, i: nat)
    requires i < |xs|
    ensures ISize(xs[i]) <= SSize(xs)
    decreases i
  {
    assert SSize(xs) == ISize(xs[0]) + SSize(xs[1..]);
    if i > 0 {
      ItemSizeBound(xs[1..], i - 1);
      assert xs[1..][i - 1] == xs[i];
    }
  }

  /** `PartialEq for Packet`: the same length and pairwise equal items. */
  function ItemsEq(xs: seq<Item>, ys: seq<Item>): bool
    decreases SSize(xs) + SSize(ys), 1
  {
    if xs == [] || ys == [] then xs == [] && ys == []
    else ItemEq(xs[0], ys[0]) && ItemsEq(xs[1..], ys[1..])
  }

  /** `PartialEq for PacketItem`: an integer equals the list of just itself. */
  function ItemEq(x: Item, y: Item): bool
    decreases ISize(x) + ISize(y), 0
  {
    match (x, y)
    case (Int(a), Int(b)) => a == b
    case (Sub(a), Sub(b)) => ItemsEq(a.data, b.data)
    case (Sub(a), Int(b)) => ItemsEq(a.data, FromInt(b).data)
    case (Int(a), Sub(b)) => ItemsEq(FromInt(a).data, b.data)
  }

  /** The order `Packet::partial_cmp` computes: the first pair of items that
      are not equal decides; if there is none the shorter list is smaller. */
  function ItemsCmp(xs: seq<Item>, ys: seq<Item>): Ordering
    decreases SSize(xs) + SSize(ys), 1
  {
    if xs == [] || ys == [] then CompareInt(|xs|, |ys|)
    else if ItemEq(xs[0], ys[0]) then ItemsCmp(xs[1..], ys[1..])
    else ItemCmp(xs[0], ys[0])
  }

  /** `PartialOrd for PacketItem`. */
  function ItemCmp(x: Item, y: Item): Ordering
    decreases ISize(x) + ISize(y), 0
  {
    match (x, y)
    case (Int(a), Int(b)) => CompareInt(a, b)
    case (Sub(a), Sub(b)) => ItemsCmp(a.data, b.data)
    case (Sub(a), Int(b)) => ItemsCmp(a.data, FromInt(b).data)
    case (Int(a), Sub(b)) => ItemsCmp(FromInt(a).data, b.data)
  }

  // Laws of the equality.

  lemma {:induction false} ItemsEqReflexive(xs: seq<Item>)
    ensures ItemsEq(xs, xs)
    decreases SSize(xs), 1
  {
    if xs != [] {
      ItemEqReflexive(xs[0]);
      ItemsEqReflexive(xs[1..]);
    }
  }

  lemma {:induction false} ItemEqReflexive(x: Item)
    ensures ItemEq(x, x)
    decreases ISize(x), 0
  {
    if x.Sub? {
      ItemsEqReflexive(x.p.data);
    }
  }

  lemma {:induction false} ItemsEqSymmetric(xs: seq<Item>, ys: seq<Item>)
    ensures ItemsEq(xs, ys) == ItemsEq(ys, xs)
    decreases SSize(xs) + SSize(ys), 1
  {
    if xs != [] && ys != [] {
      ItemEqSymmetric(xs[0], ys[0]);
      ItemsEqSymmetric(xs[1..], ys[1..]);
    }
  }

  lemma {:induction false} ItemEqSymmetric(x: Item, y: Item)
    ensures ItemEq(x, y) == ItemEq(y, x)
    decreases ISize(x) + ISize(y), 0
  {
    match (x, y)
    case (Int(a), Int(b)) =>
    case (Sub(a), Sub(b)) => ItemsEqSymmetric(a.data, b.data);
    case (Sub(a), Int(b)) => ItemsEqSymmetric(a.data, FromInt(b).data);
    case (Int(a), Sub(b)) => ItemsEqSymmetric(FromInt(a).data, b.data);
  }

  // Laws of the order.

  /** The comparison answers Equal exactly for equal packets, so `Ord` and
      `PartialEq` agree. */
  lemma {:induction false} ItemsCmpEqual(xs: seq<Item>, ys: seq<Item>)
    ensures ItemsCmp(xs, ys) == Equal <==> ItemsEq(xs, ys)
    decreases SSize(xs) + SSize(ys), 1
  {
    if xs != [] && ys != [] {
      ItemCmpEqual(xs[0], ys[0]);
      ItemsCmpEqual(xs[1..], ys[1..]);
    }
  }

  lemma {:induction false} ItemCmpEqual(x: Item, y: Item)
    ensures ItemCmp(x, y) == Equal <==> ItemEq(x, y)
    decreases ISize(x) + ISize(y), 0
  {
    match (x, y)
    case (Int(a), Int(b)) =>
    case (Sub(a), Sub(b)) => ItemsCmpEqual(a.data, b.data);
    case (Sub(a), Int(b)) => ItemsCmpEqual(a.data, FromInt(b).data);
    case (Int(a), Sub(b)) => ItemsCmpEqual(FromInt(a).data, b.data);
  }

  /** Exchanging the operands reverses the answer. */
  lemma {:induction false} ItemsCmpSwap(xs: seq<Item>, ys: seq<Item>)
    ensures ItemsCmp(ys, xs) == ItemsCmp(xs, ys).Reverse()
    decreases SSize(xs) + SSize(ys), 1
  {
    if xs != [] && ys != [] {
      ItemEqSymmetric(xs[0], ys[0]);
      ItemCmpSwap(xs[0], ys[0]);
      ItemsCmpSwap(xs[1..], ys[1..]);
    } else {
      CompareIntReverse(|xs|, |ys|);
    }
  }

  lemma {:induction false} ItemCmpSwap(x: Item, y: Item)
    ensures ItemCmp(y, x) == ItemCmp(x, y).Reverse()
    decreases ISize(x) + ISize(y), 0
  {
    match (x, y)
    case (Int(a), Int(b)) => CompareIntReverse(a, b);
    case (Sub(a), Sub(b)) => ItemsCmpSwap(a.data, b.data);
    case (Sub(a), Int(b)) => ItemsCmpSwap(a.data, FromInt(b).data);
    case (Int(a), Sub(b)) => ItemsCmpSwap(FromInt(a).data, b.data);
  }

  /** A common prefix of equal items does not affect the comparison. */
  lemma {:induction false} ItemsCmpSkip(xs: seq<Item>, ys: seq<Item>, k: nat)
    requires k <= |xs| && k <= |ys|
    requires forall i :: 0 <= i < k ==> ItemEq(xs[i], ys[i])
    ensures ItemsCmp(xs, ys) == ItemsCmp(xs[k..], ys[k..])
    decreases k
  {
    if k > 0 {
      assert ItemEq(xs[0], ys[0]);
      ItemsCmpSkip(xs[1..], ys[1..], k - 1);
      assert xs[1..][k - 1..] == xs[k..] && ys[1..][k - 1..] == ys[k..];
    }
  }

  /** The comparison is lexicographic: after a common prefix of k equal
      items, the first unequal pair decides, and a list that runs out first
      is the smaller. */
  lemma Lexicographic(xs: seq<Item>, ys: seq<Item>, k: nat)
    requires k <= |xs| && k <= |ys|
    requires forall i :: 0 <= i < k ==> ItemEq(xs[i], ys[i])
    ensures k < |xs| && k < |ys| && !ItemEq(xs[k], ys[k]) ==> ItemsCmp(xs, ys) == ItemCmp(xs[k], ys[k])
    ensures k == |xs| || k == |ys| ==> ItemsCmp(xs, ys) == CompareInt(|xs|, |ys|)
  {
    ItemsCmpSkip(xs, ys, k);
  }

  /** An integer and the one-element list holding it are interchangeable on
      either side of the comparison and of the equality. */
  lemma Promotion(a: nat, y: Item)
    ensures ItemCmp(Int(a), y) == ItemCmp(Sub(FromInt(a)), y)
    ensures ItemCmp(y, Int(a)) == ItemCmp(y, Sub(FromInt(a)))
    ensures ItemEq(Int(a), y) == ItemEq(Sub(FromInt(a)), y)
    ensures ItemEq(y, Int(a)) == ItemEq(y, Sub(FromInt(a)))
  {
    if y.Int? {
      assert ItemsCmp([], []) == Equal && ItemsEq([], []);
      assert [Int(a)][1..] == [] && [y][1..] == [];
    }
  }

  /** The two items of each position, in order (`zip`). */
  function Zip(xs: seq<Item>, ys: seq<Item>): (r: seq<(Item, Item)>)
    ensures |r| == if |xs| < |ys| then |xs| else |ys|
    ensures forall i :: 0 <= i < |r| ==> r[i] == (xs[i], ys[i])
  {
    if xs == [] || ys == [] then [] else [(xs[0], ys[0])] + Zip(xs[1..], ys[1..])
  }

  /** `Packet::partial_cmp`: drains a worklist of the zipped item pairs,
      skipping equal pairs and returning the comparison of the first unequal
      one; when the worklist is empty the lengths decide. */
  method ComparePackets(a: Packet, b: Packet) returns (o: Ordering)
    ensures o == ItemsCmp(a.data, b.data)
    decreases SSize(a.data) + SSize(b.data)
  {
    var stack := Zip(a.data, b.data);
    ghost var i := 0;
    while stack != []
      invariant 0 <= i <= |a.data| && i <= |b.data|
      invariant stack == Zip(a.data[i..], b.data[i..])
      invariant ItemsCmp(a.data, b.data) == ItemsCmp(a.data[i..], b.data[i..])
      decreases |stack|
    {
      ghost var xs, ys := a.data[i..], b.data[i..];
      assert xs[1..] == a.data[i + 1..] && ys[1..] == b.data[i + 1..];
      var left, right := stack[0].0, stack[0].1;
      stack := stack[1..];
      ItemSizeBound(a.data, i);
      ItemSizeBound(b.data, i);
      match (left, right) {
        case (Int(x), Int(y)) =>
          if x == y {
            i := i + 1;
            continue;
          }
          return CompareInt(x, y);
        case (Sub(pa), Sub(pb)) =>
          if ItemsEq(pa.data, pb.data) {
            i := i + 1;
            continue;
          }
          o := ComparePackets(pa, pb);
          return;
        case (Sub(pa), Int(y)) =>
          var pb := FromInt(y);
          if ItemsEq(pa.data, pb.data) {
            i := i + 1;
            continue;
          }
          o := ComparePackets(pa, pb);
          return;
        case (Int(x), Sub(pb)) =>
          var pa := FromInt(x);
          if ItemsEq(pa.data, pb.data) {
            i := i + 1;
            continue;
          }
          o := ComparePackets(pa, pb);
          return;
      }
    }
    o := CompareInt(|a.data|, |b.data|);
  }

  // Reading packets (`FromStr for Packet`).

  /** Scanning s from index i with `count` brackets open, the index just past
      the bracket that closes the last of them; None when s ends first. */
  function Closing(s: string, i: nat, count: nat): (r: Option<nat>)
    requires i <= |s| && count >= 1
    ensures r.Some? ==> i < r.value <= |s|
    decreases |s| - i
  {
    if i == |s| then None
    else
      var c := if s[i] == '[' then count + 1 else if s[i] == ']' then count - 1 else count;
      if c == 0 then Some(i + 1) else Closing(s, i + 1, c)
  }

  /** The item list with the pending digits, if any, pushed as a number. */
  function Flush(buf: string, acc: seq<Item>): seq<Item>
    requires Text.AllDigits(buf)
  {
    if buf == [] then acc else acc + [Int(Text.DigitsValue(buf))]
  }

  /** The items read from the rest s of a packet's inside, given the digits
      buf read so far and the items acc pushed so far. A digit extends buf; a
      comma ends a pending number; '[' takes everything up to its matching
      ']' as a nested packet (failing if there is none); anything else is
      skipped. */
  function Items(s: string, buf: string, acc: seq<Item>): Result<seq<Item>>
    requires Text.AllDigits(buf)
    decreases |s|, 1
  {
    if s == [] then Ok(Flush(buf, acc))
    else if Text.IsDigit(s[0]) then Items(s[1..], buf + [s[0]], acc)
    else if s[0] == ',' && buf != [] then Items(s[1..], [], acc + [Int(Text.DigitsValue(buf))])
    else if s[0] == '[' then
      match Closing(s, 1, 1)
      case None => Err("No next")
      case Some(j) =>
        match Parse(s[..j])
        case Err(e) => Err(e)
        case Ok(q) => Items(s[j..], buf, acc + [Sub(q)])
    else Items(s[1..], buf, acc)
  }

  /** A packet read from text: its first and last characters are dropped,
      whatever they are, and the rest is read by Items. */
  function Parse(st: string): Result<Packet>
    decreases |st|, 0
  {
    if |st| <= 2 then Ok(Packet([]))
    else
      match Items(st[1..|st| - 1], [], [])
      case Err(e) => Err(e)
      case Ok(data) => Ok(Packet(data))
  }

  /** `Packet::from_str`, reading the characters one at a time. */
  method ParsePacket(st: string) returns (r: Result<Packet>)
    ensures r == Parse(st)
    decreases |st|
  {
    var lo := if |st| == 0 then 0 else 1;
    var hi := if |st| <= 1 then lo else |st| - 1;
    var pos := lo;
    var data: seq<Item> := [];
    var buf := "";
    while pos < hi
      invariant lo <= pos <= hi <= |st| && Text.AllDigits(buf)
      invariant Items(st[pos..hi], buf, data) == Items(st[lo..hi], [], [])
    {
      var t := st[pos..hi];
      assert t[0] == st[pos] && t[1..] == st[pos + 1..hi];
      var c := st[pos];
      pos := pos + 1;
      if Text.IsDigit(c) {
        buf := buf + [c];
      } else if c == ',' && buf != [] {
        data := data + [Int(Text.DigitsValue(buf))];
        buf := "";
      } else if c == '[' {
        var packetBuffer, next, complete := CollectNested(st, pos - 1, hi);
        if !complete {
          return Err("No next");
        }
        assert packetBuffer == st[pos - 1..next];
        assert t[..next - (pos - 1)] == st[pos - 1..next];
        assert t[next - (pos - 1)..] == st[next..hi];
        pos := next;
        var nested := ParsePacket(packetBuffer);
        if nested.Err? {
          return Err(nested.reason);
        }
        data := data + [Sub(nested.value)];
      }
    }
    if buf != [] {
      data := data + [Int(Text.DigitsValue(buf))];
    }
    r := Ok(Packet(data));
  }

  /** The inner loop of `from_str`: from the '[' at `start`, takes
      characters until the brackets balance, into `packetBuffer`; `complete`
      is false when the text ends first ("No next"). */
  method CollectNested(st: string, start: nat, hi: nat) returns (packetBuffer: string, pos: nat, complete: bool)
    requires start < hi <= |st| && st[start] == '['
    ensures complete <==> Closing(st[start..hi], 1, 1).Some?
    ensures complete ==> (Closing(st[start..hi], 1, 1) == Some(pos - start)
      && start < pos <= hi && packetBuffer == st[start..pos])
  {
    ghost var t := st[start..hi];
    packetBuffer := "[";
    pos := start + 1;
    var count := 1;
    while count > 0
      invariant start < pos <= hi && packetBuffer == st[start..pos]
      invariant count > 0 ==> Closing(t, 1, 1) == Closing(t, pos - start, count)
      invariant count == 0 ==> Closing(t, 1, 1) == Some(pos - start)
      decreases hi - pos, count
    {
      if pos == hi {
        return packetBuffer, pos, false;
      }
      var k := st[pos];
      assert t[pos - start] == k;
      pos := pos + 1;
      if k == '[' {
        count := count + 1;
      } else if k == ']' {
        count := count - 1;
      }
      packetBuffer := packetBuffer + [k];
    }
    complete := true;
  }

  // Writing packets, the notation the puzzle input uses.

  function ShowPacket(p: Packet): string
    decreases p
  {
    "[" + ShowItems(p.data) + "]"
  }

  function ShowItems(xs: seq<Item>): string
    decreases xs
  {
    if xs == [] then ""
    else if |xs| == 1 then ShowItem(xs[0])
    else ShowItem(xs[0]) + "," + ShowItems(xs[1..])
  }

  function ShowItem(x: Item): (r: string)
    ensures |r| >= 1
    decreases x
  {
    match x
    case Int(n) => Text.ShowNat(n)
    case Sub(q) => ShowPacket(q)
  }

  /** The bracket depth after reading w from depth d, or None if a ']'
      closes a bracket that was never opened. */
  function Walk(w: string, d: nat): Option<nat>
    decreases |w|
  {
    if w == [] then Some(d)
    else if w[0] == '[' then Walk(w[1..], d + 1)
    else if w[0] == ']' then (if d == 0 then None else Walk(w[1..], d - 1))
    else Walk(w[1..], d)
  }

  lemma {:induction false} WalkConcat(u: string, v: string, d: nat)
    ensures Walk(u + v, d) == match Walk(u, d) case None => None case Some(e) => Walk(v, e)
    decreases |u|
  {
    if u == [] {
      assert u + v == v;
    } else {
      assert (u + v)[0] == u[0] && (u + v)[1..] == u[1..] + v;
      if u[0] == '[' {
        WalkConcat(u[1..], v, d + 1);
      } else if u[0] == ']' {
        if d > 0 {
          WalkConcat(u[1..], v, d - 1);
        }
      } else {
        WalkConcat(u[1..], v, d);
      }
    }
  }

  /** Text in which every bracket read from depth c - 1 stays open, i.e. the
      count of open brackets never drops below one, is skipped by the scan. */
  lemma {:induction false} ClosingWalk(s: string, i: nat, c: nat, w: string, e: nat)
    requires c >= 1 && i + |w| <= |s| && s[i..i + |w|] == w && Walk(w, c - 1) == Some(e)
    ensures Closing(s, i, c) == Closing(s, i + |w|, e + 1)
    decreases |w|
  {
    if w != [] {
      assert s[i] == w[0] && s[i + 1..i + |w|] == w[1..];
      if w[0] == '[' {
        ClosingWalk(s, i + 1, c + 1, w[1..], e);
      } else if w[0] == ']' {
        ClosingWalk(s, i + 1, c - 1, w[1..], e);
      } else {
        ClosingWalk(s, i + 1, c, w[1..], e);
      }
    }
  }

  lemma {:induction false} WalkDigits(w: string, d: nat)
    requires Text.AllDigits(w)
    ensures Walk(w, d) == Some(d)
    decreases |w|
  {
    if w != [] {
      WalkDigits(w[1..], d);
    }
  }

  /** A written item list closes every bracket it opens. */
  lemma {:induction false} WalkShowItems(xs: seq<Item>, d: nat)
    ensures Walk(ShowItems(xs), d) == Some(d)
    decreases xs
  {
    if xs != [] {
      WalkShowItem(xs[0], d);
      if |xs| > 1 {
        var t := ShowItems(xs[1..]);
        WalkShowItems(xs[1..], d);
        assert ShowItems(xs) == ShowItem(xs[0]) + ([','] + t);
        WalkConcat(ShowItem(xs[0]), [','] + t, d);
        assert ([','] + t)[1..] == t;
      }
    }
  }

  lemma {:induction false} WalkShowItem(x: Item, d: nat)
    ensures Walk(ShowItem(x), d) == Some(d)
    decreases x
  {
    match x
    case Int(n) =>
      WalkDigits(Text.ShowNat(n), d);
    case Sub(q) =>
      var t := ShowItems(q.data);
      WalkShowItems(q.data, d + 1);
      assert ShowItem(x) == ['['] + (t + [']']);
      assert (['['] + (t + [']']))[1..] == t + [']'];
      WalkConcat(t, [']'], d + 1);
  }

  /** Reading a text that starts with a written packet, the bracket after
      its opening one is matched exactly at its end. */
  lemma ClosingShowPacket(s: string, p: Packet)
    requires |ShowPacket(p)| <= |s| && s[..|ShowPacket(p)|] == ShowPacket(p)
    ensures Closing(s, 1, 1) == Some(|ShowPacket(p)|)
  {
    var t := ShowItems(p.data);
    assert s[1..1 + |t|] == t;
    WalkShowItems(p.data, 0);
    ClosingWalk(s, 1, 1, t, 0);
    assert s[1 + |t|] == ']';
  }

  /** A run of digits only extends the pending number. */
  lemma {:induction false} ItemsOverDigits(d: string, rest: string, buf: string, acc: seq<Item>)
    requires Text.AllDigits(d) && Text.AllDigits(buf)
    ensures Items(d + rest, buf, acc) == Items(rest, buf + d, acc)
    decreases |d|
  {
    if |d| > 0 {
      assert (d + rest)[0] == d[0] && (d + rest)[1..] == d[1..] + rest;
      ItemsOverDigits(d[1..], rest, buf + [d[0]], acc);
      assert buf + [d[0]] + d[1..] == buf + d;
    } else {
      assert d + rest == rest && buf + d == buf;
    }
  }

  /** Reading a written item list gives back its items. */
  lemma {:induction false} ItemsShow(xs: seq<Item>, acc: seq<Item>)
    ensures Items(ShowItems(xs), [], acc) == Ok(acc + xs)
    decreases SSize(xs), 0
  {
    if xs == [] {
      assert acc + xs == acc;
      return;
    }
    var rest := xs[1..];
    assert xs == [xs[0]] + rest;
    assert acc + [xs[0]] + rest == acc + xs;
    assert SSize(xs) == ISize(xs[0]) + SSize(rest);
    if rest != [] {
      ItemsShow(rest, acc + [xs[0]]);
    }
    match xs[0]
    case Int(n) =>
      ItemsShowNumber(n, rest, acc);
    case Sub(q) =>
      ParseShow(q);
      ItemsShowNested(q, rest, acc);
  }

  lemma ItemsShowNumber(n: nat, rest: seq<Item>, acc: seq<Item>)
    requires rest != [] ==> Items(ShowItems(rest), [], acc + [Int(n)]) == Ok(acc + [Int(n)] + rest)
    ensures Items(ShowItems([Int(n)] + rest), [], acc) == Ok(acc + [Int(n)] + rest)
  {
    var d := Text.ShowNat(n);
    var tail := if rest == [] then "" else "," + ShowItems(rest);
    ShowItemsCons(Int(n), rest);
    Text.ShowNatValue(n);
    ItemsOverDigits(d, tail, [], acc);
    assert [] + d == d;
    if rest != [] {
      NumberThenComma(d, ShowItems(rest), acc);
    } else {
      NumberAtEnd(d, acc);
      assert acc + [Int(n)] + rest == acc + [Int(n)];
    }
  }

  lemma ShowItemsCons(x: Item, rest: seq<Item>)
    ensures ShowItems([x] + rest) == ShowItem(x) + if rest == [] then "" else "," + ShowItems(rest)
  {
    var xs := [x] + rest;
    assert xs[0] == x && xs[1..] == rest;
  }

  lemma NumberThenComma(d: string, t: string, acc: seq<Item>)
    requires |d| >= 1 && Text.AllDigits(d)
    ensures Items("," + t, d, acc) == Items(t, [], acc + [Int(Text.DigitsValue(d))])
  {
    assert ("," + t)[0] == ',' && ("," + t)[1..] == t;
  }

  lemma NumberAtEnd(d: string, acc: seq<Item>)
    requires |d| >= 1 && Text.AllDigits(d)
    ensures Items("", d, acc) == Ok(acc + [Int(Text.DigitsValue(d))])
  {
  }

  lemma ItemsShowNested(q: Packet, rest: seq<Item>, acc: seq<Item>)
    requires Parse(ShowPacket(q)) == Ok(q)
    requires rest != [] ==> Items(ShowItems(rest), [], acc + [Sub(q)]) == Ok(acc + [Sub(q)] + rest)
    ensures Items(ShowItems([Sub(q)] + rest), [], acc) == Ok(acc + [Sub(q)] + rest)
  {
    var tail := if rest == [] then "" else "," + ShowItems(rest);
    var w := ShowPacket(q);
    var s := w + tail;
    ShowItemsCons(Sub(q), rest);
    assert s[..|w|] == w && s[|w|..] == tail && s[0] == '[';
    ClosingShowPacket(s, q);
    assert !Text.IsDigit(s[0]);
    assert Items(s, [], acc) == Items(tail, [], acc + [Sub(q)]);
    if rest != [] {
      assert tail[0] == ',' && tail[1..] == ShowItems(rest);
      assert Items(tail, [], acc + [Sub(q)]) == Items(tail[1..], [], acc + [Sub(q)]);
    } else {
      assert Items(tail, [], acc + [Sub(q)]) == Ok(acc + [Sub(q)]);
      assert acc + [Sub(q)] + rest == acc + [Sub(q)];
    }
  }

  /** Reading a written packet gives back the packet. */
  lemma {:induction false} ParseShow(p: Packet)
    ensures Parse(ShowPacket(p)) == Ok(p)
    decreases SSize(p.data), 1
  {
    var st := ShowPacket(p);
    var t := ShowItems(p.data);
    ItemsShow(p.data, []);
    assert [] + p.data == p.data;
    if |st| <= 2 {
      assert t == [];
      assert p.data == [];
    } else {
      assert st[1..|st| - 1] == t;
    }
  }

  // Part one: the indices of the pairs already in the right order.

  /** Whether a pair of packets, one per line, is in the right order
      (`packets[0] < packets[1]`); every line of the group is read, and a
      group of fewer than two lines has no second packet. */
  function InOrder(group: string): (r: Result<bool>)
    ensures r.Ok? <==> MapOk(Text.Split(group, '\n'), Parse).Ok? && |Text.Split(group, '\n')| >= 2
    ensures r.Ok? ==> var ps := MapOk(Text.Split(group, '\n'), Parse).value;
      (r.value <==> ItemsCmp(ps[0].data, ps[1].data) == Less)
  {
    match MapOk(Text.Split(group, '\n'), Parse)
    case Err(e) => Err(e)
    case Ok(ps) =>
      if |ps| < 2 then Err("index out of bounds")
      else Ok(ItemsCmp(ps[0].data, ps[1].data) == Less)
  }

  /** 1 + 2 + ... + n. */
  function Triangle(n: nat): nat {
    if n == 0 then 0 else n + Triangle(n - 1)
  }

  /** The sum of the 1-based indices of the groups in the right order. */
  function IndexSum(groups: seq<string>): (r: Result<nat>)
    ensures r.Ok? <==> forall i :: 0 <= i < |groups| ==> InOrder(groups[i]).Ok?
    decreases |groups|
  {
    if groups == [] then Ok(0)
    else
      var n := |groups|;
      var init := groups[..n - 1];
      assert forall i :: 0 <= i < n - 1 ==> init[i] == groups[i];
      var total := IndexSum(init);
      var last := InOrder(groups[n - 1]);
      if total.Err? then Err(total.reason)
      else if last.Err? then Err(last.reason)
      else Ok(total.value + if last.value then n else 0)
  }

  /** The sum is at most the sum of all indices, and reaches it when every
      pair is in order. */
  lemma {:induction false} IndexSumBounds(groups: seq<string>)
    requires IndexSum(groups).Ok?
    ensures IndexSum(groups).value <= Triangle(|groups|)
    ensures (forall i :: 0 <= i < |groups| ==> InOrder(groups[i]) == Ok(true)) ==> IndexSum(groups) == Ok(Triangle(|groups|))
    decreases |groups|
  {
    if groups != [] {
      var n := |groups|;
      var init := groups[..n - 1];
      assert forall i :: 0 <= i < n - 1 ==> init[i] == groups[i];
      IndexSumBounds(init);
    }
  }

  /** Part one: the sum of the indices of the pairs in order. It fails
      exactly when some group has a line that is not a packet or fewer than
      two lines; with n groups it is
      at most 1 + 2 + ... + n, reached when every pair is in order. */
  function SolvePartOne(data: string): (r: Result<nat>)
    ensures var groups := Text.SplitOn(data, "\n\n");
      r.Ok? <==> forall i :: 0 <= i < |groups| ==> InOrder(groups[i]).Ok?
    ensures var groups := Text.SplitOn(data, "\n\n");
      r.Ok? ==> (r.value <= Triangle(|groups|)
        && ((forall i :: 0 <= i < |groups| ==> InOrder(groups[i]) == Ok(true)) ==> r.value == Triangle(|groups|)))
  {
    var groups := Text.SplitOn(data, "\n\n");
    if IndexSum(groups).Err? then
      assert groups == Text.SplitOn(data, "\n\n");
      IndexSum(groups)
    else
      IndexSumBounds(groups);
      IndexSum(groups)
  }

  // Part two: the decoder key.

  /** The non-empty lines, in order. */
  function NonEmpty(lines: seq<string>): (r: seq<string>)
    ensures forall i :: 0 <= i < |r| ==> r[i] != [] && r[i] in lines
    ensures forall l :: l in lines && l != [] ==> l in r
  {
    if lines == [] then []
    else if lines[0] == [] then NonEmpty(lines[1..])
    else [lines[0]] + NonEmpty(lines[1..])
  }

  const DividerOne: Packet := FromPacket(FromInt(2))
  const DividerTwo: Packet := FromPacket(FromInt(6))

  /** The index of the first packet equal to d (`Iterator::position`). */
  function Position(s: seq<Packet>, d: Packet): (r: Option<nat>)
    ensures r.Some? ==> (r.value < |s| && ItemsEq(s[r.value].data, d.data)
      && forall j :: 0 <= j < r.value ==> !ItemsEq(s[j].data, d.data))
    ensures r.None? ==> forall j :: 0 <= j < |s| ==> !ItemsEq(s[j].data, d.data)
  {
    if s == [] then None
    else if ItemsEq(s[0].data, d.data) then Some(0)
    else match Position(s[1..], d)
      case None => None
      case Some(k) => Some(k + 1)
  }

  /** The product of the 1-based positions of the two dividers. */
  function DecoderKey(s: seq<Packet>): Result<nat> {
    match (Position(s, DividerOne), Position(s, DividerTwo))
    case (Some(i), Some(j)) => Ok((i + 1) * (j + 1))
    case (None, _) => Err("One")
    case (_, None) => Err("Two")
  }

  /** Both dividers are found in any list that holds them. */
  lemma DividersFound(s: seq<Packet>)
    requires DividerOne in s && DividerTwo in s
    ensures DecoderKey(s).Ok?
  {
    ItemsEqReflexive(DividerOne.data);
    ItemsEqReflexive(DividerTwo.data);
  }

  /** The two dividers are different packets, so they sit at different
      positions. */
  lemma DividersDiffer()
    ensures ItemsCmp(DividerOne.data, DividerTwo.data) == Less
    ensures !ItemsEq(DividerOne.data, DividerTwo.data)
  {
    ItemsCmpEqual(DividerOne.data, DividerTwo.data);
    assert [Int(2)][1..] == [] && [Int(6)][1..] == [];
  }

  /** No packet is followed by a smaller one (each neighbouring pair is in
      order). */
  predicate Sorted(s: seq<Packet>) {
    forall k :: 0 < k < |s| ==> ItemsCmp(s[k - 1].data, s[k].data) != Greater
  }

  lemma SwapKeepsMultiset(s: seq<Packet>, k: nat)
    requires k + 1 < |s|
    ensures multiset(s[k := s[k + 1]][k + 1 := s[k]]) == multiset(s)
  {
    var t := s[k := s[k + 1]][k + 1 := s[k]];
    assert s == s[..k] + [s[k], s[k + 1]] + s[k + 2..];
    assert t == s[..k] + [s[k + 1], s[k]] + s[k + 2..];
  }

  /** The state of the insertion of s[j]: the neighbouring pairs up to i
      are in order except around j, where the packets on either side of it
      are. */
  predicate Inserting(s: seq<Packet>, i: nat, j: nat) {
    j <= i < |s|
    && (forall k :: 0 < k <= i && k != j ==> ItemsCmp(s[k - 1].data, s[k].data) != Greater)
    && (0 < j < i ==> ItemsCmp(s[j - 1].data, s[j + 1].data) != Greater)
  }

  /** Exchanging s[j] with a bigger predecessor moves the insertion point one
      step back. */
  lemma InsertingSwap(s: seq<Packet>, i: nat, j: nat)
    requires 0 < j && Inserting(s, i, j) && ItemsCmp(s[j - 1].data, s[j].data) == Greater
    ensures Inserting(s[j - 1 := s[j]][j := s[j - 1]], i, j - 1)
    ensures multiset(s[j - 1 := s[j]][j := s[j - 1]]) == multiset(s)
  {
    var t := s[j - 1 := s[j]][j := s[j - 1]];
    ItemsCmpSwap(s[j].data, s[j - 1].data);
    forall k | 0 < k <= i && k != j - 1
      ensures ItemsCmp(t[k - 1].data, t[k].data) != Greater
    {
      if k == j {
        assert t[k - 1] == s[j] && t[k] == s[j - 1];
      } else if k == j + 1 {
        assert t[k - 1] == s[j - 1] && t[k] == s[j + 1];
      } else {
        assert t[k - 1] == s[k - 1] && t[k] == s[k];
      }
    }
    if 0 < j - 1 {
      assert t[j - 2] == s[j - 2] && t[j] == s[j - 1];
    }
    SwapKeepsMultiset(s, j - 1);
  }

  /** Moves a[i] back past every bigger packet before it. */
  method Sink(a: array<Packet>, i: nat)
    requires i < a.Length && Sorted(a[..i])
    modifies a
    ensures Sorted(a[..i + 1]) && multiset(a[..]) == multiset(old(a[..]))
  {
    var j: nat := i;
    assert Inserting(a[..], i, j);
    while j > 0
      invariant Inserting(a[..], i, j)
      invariant multiset(a[..]) == multiset(old(a[..]))
    {
      var o := ComparePackets(a[j - 1], a[j]);
      if o != Greater {
        break;
      }
      ghost var s := a[..];
      InsertingSwap(s, i, j);
      Swap(a, j - 1);
      assert a[..] == s[j - 1 := s[j]][j := s[j - 1]];
      j := j - 1;
    }
  }

  /** Exchanges a[k] and a[k + 1]. */
  method Swap(a: array<Packet>, k: nat)
    requires k + 1 < a.Length
    modifies a
    ensures var s := old(a[..]); a[..] == s[k := s[k + 1]][k + 1 := s[k]]
  {
    ghost var before := a[..];
    a[k], a[k + 1] := a[k + 1], a[k];
    assert a[..] == before[k := before[k + 1]][k + 1 := before[k]];
  }

  /** Sorts the packets in place (for `sort_unstable`). */
  method SortPackets(a: array<Packet>)
    modifies a
    ensures Sorted(a[..]) && multiset(a[..]) == multiset(old(a[..]))
  {
    for i := 0 to a.Length
      invariant Sorted(a[..i]) && multiset(a[..]) == multiset(old(a[..]))
    {
      Sink(a, i);
    }
    assert a[..a.Length] == a[..];
  }

  /** Reads each line as a packet, stopping at the first failure. */
  method ParseLines(lines: seq<string>) returns (r: Result<seq<Packet>>)
    ensures r == MapOk(lines, Parse) || (r.Err? && MapOk(lines, Parse).Err?)
  {
    var packets: seq<Packet> := [];
    for i := 0 to |lines|
      invariant |packets| == i
      invariant forall k :: 0 <= k < i ==> Parse(lines[k]) == Ok(packets[k])
    {
      var p := ParsePacket(lines[i]);
      if p.Err? {
        return Err(p.reason);
      }
      packets := packets + [p.value];
    }
    assert MapOk(lines, Parse).value == packets;
    r := Ok(packets);
  }

  /** Adds the two dividers, sorts, and multiplies the positions where the
      dividers end up. */
  method SortedKey(packets: seq<Packet>) returns (key: nat)
    ensures exists s :: (Sorted(s) && multiset(s) == multiset(packets + [DividerOne, DividerTwo])
      && DecoderKey(s) == Ok(key))
  {
    var all := packets + [DividerOne, DividerTwo];
    var a := new Packet[|all|](k requires 0 <= k < |all| => all[k]);
    assert a[..] == all;
    SortPackets(a);
    assert DividerOne in multiset(a[..]) && DividerTwo in multiset(a[..]);
    DividersFound(a[..]);
    key := DecoderKey(a[..]).value;
  }

  /** Reads every non-empty line as a packet, then computes the decoder key. */
  method SolvePartTwo(data: string) returns (r: Result<nat>)
    ensures r.Ok? <==> MapOk(NonEmpty(Text.Split(data, '\n')), Parse).Ok?
    ensures r.Ok? ==> exists s :: (Sorted(s)
      && multiset(s) == multiset(MapOk(NonEmpty(Text.Split(data, '\n')), Parse).value + [DividerOne, DividerTwo])
      && DecoderKey(s) == r)
  {
    var read := ParseLines(NonEmpty(Text.Split(data, '\n')));
    if read.Err? {
      return Err(read.reason);
    }
    var key := SortedKey(read.value);
    r := Ok(key);
  }
}
