/** The "mixing" ring of day 20: a circular doubly linked list kept as a map from
    each entry to its (predecessor, successor) pair, with entries identified by
    their value together with their position in the input. */
module Day20 {
  import Arith

  /** An entry: (value, position in the input). Equal values at different
      positions are different entries. */
  type Clef = (int, nat)

  type Links = map<Clef, (Clef, Clef)>

  /** The decryption key of part two. */
  const DecryptionKey: int := 811_589_153

  ghost predicate Distinct(s: seq<Clef>) {
    forall i, j :: 0 <= i < j < |s| ==> s[i] != s[j]
  }

  /** Pairs every value with its input position. */
  function Clefs(values: seq<int>): (r: seq<Clef>)
    ensures |r| == |values|
    ensures forall i :: 0 <= i < |r| ==> r[i] == (values[i], i)
    ensures Unique(r)
  {
    var r := seq(|values|, i requires 0 <= i < |values| => (values[i], i));
    assert Distinct(r);
    UniqueDistinct(r);
    r
  }

  function Next(i: nat, n: nat): nat
    requires i < n
  {
    if i + 1 == n then 0 else i + 1
  }

  function Prev(i: nat, n: nat): nat
    requires i < n
  {
    if i == 0 then n - 1 else i - 1
  }

  /** `data` links every entry of `ring` to its cyclic neighbours and, having
      no more keys than `ring` has (distinct) entries, holds nothing else. */
  ghost predicate Describes(data: Links, ring: seq<Clef>) {
    && Distinct(ring)
    && |data| == |ring|
    && (forall i {:trigger ring[i] in data} :: 0 <= i < |ring| ==> ring[i] in data)
    && forall i {:trigger data[ring[i]]} :: 0 <= i < |ring| ==>
         data[ring[i]] == (ring[Prev(i, |ring|)], ring[Next(i, |ring|)])
  }

  /** Positions i.. of `ring` are linked to their cyclic neighbours, checked one
      position at a time. */
  ghost predicate ChainedFrom(data: Links, ring: seq<Clef>, i: nat)
    requires i <= |ring|
    decreases |ring| - i
  {
    i == |ring| ||
    (&& ring[i] in data
     && data[ring[i]] == (ring[Prev(i, |ring|)], ring[Next(i, |ring|)])
     && ChainedFrom(data, ring, i + 1))
  }

  /** No entry occurs twice, checked from the front. */
  ghost predicate Unique(s: seq<Clef>) {
    |s| == 0 || (s[0] !in s[1..] && Unique(s[1..]))
  }

  /** The ribbon invariant: Describes, stated position by position so that
      a context holding it only unfolds what it uses. */
  ghost predicate Linked(data: Links, ring: seq<Clef>) {
    Unique(ring) && |data| == |ring| && ChainedFrom(data, ring, 0)
  }

  lemma {:induction false} ChainedFromAll(data: Links, ring: seq<Clef>, i: nat)
    requires i <= |ring|
    ensures ChainedFrom(data, ring, i) <==>
            forall t :: i <= t < |ring| ==>
              ring[t] in data && data[ring[t]] == (ring[Prev(t, |ring|)], ring[Next(t, |ring|)])
    decreases |ring| - i
  {
    if i < |ring| {
      ChainedFromAll(data, ring, i + 1);
    }
  }

  lemma {:induction false} UniqueDistinct(s: seq<Clef>)
    ensures Unique(s) <==> Distinct(s)
  {
    if |s| > 0 {
      UniqueDistinct(s[1..]);
      if Distinct(s) {
        assert Distinct(s[1..]) by {
          forall a, b | 0 <= a < b < |s| - 1 ensures s[1..][a] != s[1..][b] {
            assert s[1..][a] == s[a + 1] && s[1..][b] == s[b + 1];
          }
        }
      }
      if Unique(s) {
        forall a, b | 0 <= a < b < |s| ensures s[a] != s[b] {
          if a > 0 {
            assert s[a] == s[1..][a - 1] && s[b] == s[1..][b - 1];
          } else {
            assert s[b] == s[1..][b - 1];
          }
        }
      }
    }
  }

  lemma LinkedDescribes(data: Links, ring: seq<Clef>)
    ensures Linked(data, ring) <==> Describes(data, ring)
  {
    ChainedFromAll(data, ring, 0);
    UniqueDistinct(ring);
  }

  function IndexOf(s: seq<Clef>, x: Clef): (i: nat)
    requires x in s
    ensures i < |s| && s[i] == x
    ensures forall j :: 0 <= j < i ==> s[j] != x
  {
    if s[0] == x then 0 else 1 + IndexOf(s[1..], x)
  }

  /** Index of the first entry whose value is 0. */
  function ZeroIndex(s: seq<Clef>): (i: nat)
    requires exists k :: 0 <= k < |s| && s[k].0 == 0
    ensures i < |s| && s[i].0 == 0
    ensures forall j :: 0 <= j < i ==> s[j].0 != 0
  {
    if s[0].0 == 0 then 0 else 1 + ZeroIndex(s[1..])
  }

  /** The same ring read from position j. */
  function Rotate(s: seq<Clef>, j: nat): (r: seq<Clef>)
    requires j < |s|
    ensures |r| == |s|
    ensures forall i :: 0 <= i < |s| - j ==> r[i] == s[j + i]
    ensures forall i :: |s| - j <= i < |s| ==> r[i] == s[i - (|s| - j)]
  {
    s[j..] + s[..j]
  }

  /** Takes the first entry of `rot` out and puts it back right after the entry
      that stood k places after it. */
  function MoveAfter(rot: seq<Clef>, k: nat): (r: seq<Clef>)
    requires 0 < |rot| && k < |rot|
    ensures |r| == |rot|
    ensures forall i :: 0 <= i < k ==> r[i] == rot[i + 1]
    ensures r[k] == rot[0]
    ensures forall i {:trigger r[i]} :: k < i < |rot| ==> r[i] == rot[i]
  {
    rot[1..k + 1] + [rot[0]] + rot[k + 1..]
  }

  function Abs(v: int): nat {
    if v < 0 then -v else v
  }

  /** The number of successor steps `mix` walks for value v in a ring of len
      entries: |v| mod (len - 1), complemented for negative values. */
  function Steps(v: int, len: nat): (k: nat)
    requires len >= 2
    ensures k <= len - 1
  {
    var m := len - 1;
    var a := Arith.Rem(Abs(v), m);
    if v < 0 then m - a else a
  }

  /** Walking Steps(v, len) places forward among the len - 1 other entries is
      walking v places, forwards or backwards: the two agree modulo len - 1. */
  lemma StepsCongruent(v: int, len: nat)
    requires len >= 2
    ensures Steps(v, len) % (len - 1) == v % (len - 1)
  {
    var m := len - 1;
    var q, a := Abs(v) / m, Abs(v) % m;
    Arith.QuotRem(Abs(v), m);
    DivMod(Abs(v), m);
    if v >= 0 {
      Arith.DivUnique(a, m, 0, a);
    } else if a == 0 {
      Arith.DivUnique(v, m, -q, 0);
      Arith.DivUnique(m, m, 1, 0);
    } else {
      assert v == (-q - 1) * m + (m - a);
      Arith.DivUnique(v, m, -q - 1, m - a);
      Arith.DivUnique(m - a, m, 0, m - a);
    }
  }

  lemma DivMod(a: int, n: int)
    requires n > 0
    ensures a == (a / n) * n + a % n && 0 <= a % n < n
  {
  }


  /** The cyclic order after mixing `key` once, read from the key's old
      successor. Step counts of 0 and len - 1 put the key back between the same
      two entries (see MoveAfterDegenerate), so they leave the ring alone. */
  function Mixed(ring: seq<Clef>, key: Clef): (r: seq<Clef>)
    requires |ring| >= 2 && Unique(ring) && (key.0 != 0 ==> key in ring)
    ensures |r| == |ring| && Unique(r)
    ensures forall x {:trigger x in r} :: x in r <==> x in ring
  {
    var k := Steps(key.0, |ring|);
    if key.0 == 0 || k == 0 || k == |ring| - 1 then ring
    else
      var rot := Rotate(ring, IndexOf(ring, key));
      UniqueDistinct(ring);
      RotateDistinct(ring, IndexOf(ring, key));
      MoveAfterDistinct(rot, k);
      UniqueDistinct(MoveAfter(rot, k));
      MoveAfter(rot, k)
  }

  lemma RotateDistinct(s: seq<Clef>, j: nat)
    requires j < |s| && Distinct(s)
    ensures Distinct(Rotate(s, j))
    ensures forall x :: x in Rotate(s, j) <==> x in s
  {
    var r := Rotate(s, j);
    var n := |s|;
    forall a, b | 0 <= a < b < n
      ensures r[a] != r[b]
    {
      var sa := if a < n - j then j + a else a - (n - j);
      var sb := if b < n - j then j + b else b - (n - j);
      assert r[a] == s[sa] && r[b] == s[sb] && sa != sb;
    }
    forall x | x in s ensures x in r {
      var i :| 0 <= i < n && s[i] == x;
      if i < j { assert r[n - j + i] == x; } else { assert r[i - j] == x; }
    }
  }

  lemma MoveAfterDistinct(rot: seq<Clef>, k: nat)
    requires 0 < |rot| && k < |rot| && Distinct(rot)
    ensures Distinct(MoveAfter(rot, k))
    ensures forall x :: x in MoveAfter(rot, k) <==> x in rot
  {
    var r := MoveAfter(rot, k);
    forall x | x in rot ensures x in r {
      var i :| 0 <= i < |rot| && rot[i] == x;
      if i == 0 { assert r[k] == x; } else if i <= k { assert r[i - 1] == x; } else { assert r[i] == x; }
    }
  }

  /** A step count of 0 or len - 1 puts the key back between the same two
      entries: the result is the input read from another starting point. */
  lemma MoveAfterDegenerate(rot: seq<Clef>)
    requires |rot| >= 2
    ensures MoveAfter(rot, 0) == rot
    ensures MoveAfter(rot, |rot| - 1) == Rotate(rot, 1)
  {
  }

  /** After mixing a key that does move, it sits right after the entry that
      was Steps successors ahead of it. */
  lemma MixedPlacesKey(ring: seq<Clef>, key: Clef)
    requires |ring| >= 2 && key in ring && Unique(ring)
    requires key.0 != 0 && 0 < Steps(key.0, |ring|) < |ring| - 1
    ensures var k := Steps(key.0, |ring|);
            var r := Mixed(ring, key);
            r[k] == key && r[k - 1] == Rotate(ring, IndexOf(ring, key))[k]
  {
  }

  /** Every entry but the moved key keeps its cyclic order: reading the ring
      from the key's old successor and skipping the key gives the same sequence
      before and after the mix. */
  lemma MixedKeepsOthers(ring: seq<Clef>, key: Clef)
    requires |ring| >= 2 && key in ring && Unique(ring)
    requires key.0 != 0 && 0 < Steps(key.0, |ring|) < |ring| - 1
    ensures var k := Steps(key.0, |ring|);
            var r := Mixed(ring, key);
            r[..k] + r[k + 1..] == Rotate(ring, IndexOf(ring, key))[1..]
  {
    MoveAfterKeepsOthers(Rotate(ring, IndexOf(ring, key)), Steps(key.0, |ring|));
  }

  lemma MoveAfterKeepsOthers(rot: seq<Clef>, k: nat)
    requires 0 < |rot| && k < |rot|
    ensures var r := MoveAfter(rot, k); r[..k] + r[k + 1..] == rot[1..]
  {
    var r := MoveAfter(rot, k);
    var a, b := rot[1..k + 1], rot[k + 1..];
    assert r == a + [rot[0]] + b;
    assert r[..k] == a;
    assert r[k + 1..] == b;
    assert a + b == rot[1..];
  }

  /** Mixing every key of `keys` in turn. */
  function MixAll(ring: seq<Clef>, keys: seq<Clef>): (r: seq<Clef>)
    requires |ring| >= 2 && Unique(ring)
    requires forall i :: 0 <= i < |keys| ==> keys[i] in ring
    ensures |r| == |ring| && Unique(r)
    ensures forall x {:trigger x in r} :: x in r <==> x in ring
  {
    if keys == [] then ring
    else Mixed(MixAll(ring, keys[..|keys| - 1]), keys[|keys| - 1])
  }

  /** `rounds` rounds, each mixing every key of `keys` in order. */
  function MixRounds(ring: seq<Clef>, keys: seq<Clef>, rounds: nat): (r: seq<Clef>)
    requires |ring| >= 2 && Unique(ring)
    requires forall i :: 0 <= i < |keys| ==> keys[i] in ring
    ensures |r| == |ring| && Unique(r)
    ensures forall x {:trigger x in r} :: x in r <==> x in ring
  {
    if rounds == 0 then ring else MixAll(MixRounds(ring, keys, rounds - 1), keys)
  }

  lemma MixRoundsNext(keys: seq<Clef>, rounds: nat, cur: seq<Clef>)
    requires |keys| >= 2 && Unique(keys) && cur == MixRounds(keys, keys, rounds)
    ensures |cur| >= 2 && Unique(cur) && forall i :: 0 <= i < |keys| ==> keys[i] in cur
    ensures MixAll(cur, keys) == MixRounds(keys, keys, rounds + 1)
  {
  }

  /** The value `idx` successors after `head` in `ring`. */
  function At(ring: seq<Clef>, head: Clef, idx: nat): int
    requires head in ring
  {
    ring[(IndexOf(ring, head) + idx) % |ring|].0
  }

  /** Positions wrap around the ring. */
  lemma AtWraps(ring: seq<Clef>, head: Clef, idx: nat)
    requires head in ring
    ensures At(ring, head, idx) == At(ring, head, idx % |ring|)
    ensures At(ring, head, idx + |ring|) == At(ring, head, idx)
  {
    var h, n := IndexOf(ring, head), |ring|;
    ModAdd(h, idx, n);
    ModAdd(h + idx, n, n);
    assert (h + idx + n) % n == (h + idx) % n by { ModPlusN(h + idx, n); }
  }

  lemma ModAdd(a: nat, b: nat, n: nat)
    requires n > 0
    ensures (a + b) % n == (a + b % n) % n
  {
    var q := b / n;
    DivMod(b, n);
    var c := a + b % n;
    DivMod(c, n);
    assert a + b == (q + c / n) * n + c % n;
    Arith.DivUnique(a + b, n, q + c / n, c % n);
  }

  lemma ModPlusN(a: nat, n: nat)
    requires n > 0
    ensures (a + n) % n == a % n
  {
    DivMod(a, n);
    Arith.DivUnique(a + n, n, a / n + 1, a % n);
  }

  /** The sum of the values 1000, 2000 and 3000 places after the zero entry. */
  function GroveSum(ring: seq<Clef>, head: Clef): int
    requires head in ring
  {
    At(ring, head, 1000) + At(ring, head, 2000) + At(ring, head, 3000)
  }

  /** The position in s of entry i of Rotate(s, j). */
  function RotSource(i: nat, j: nat, n: nat): (m: nat)
    requires i < n && j < n
    ensures m < n
  {
    if i < n - j then j + i else i - (n - j)
  }

  lemma RotSourceNeighbours(i: nat, j: nat, n: nat)
    requires i < n && j < n
    ensures RotSource(Next(i, n), j, n) == Next(RotSource(i, j, n), n)
    ensures RotSource(Prev(i, n), j, n) == Prev(RotSource(i, j, n), n)
  {
  }

  lemma RotateDescribes(data: Links, ring: seq<Clef>, j: nat)
    requires Describes(data, ring) && j < |ring|
    ensures Describes(data, Rotate(ring, j))
  {
    var n := |ring|;
    var r := Rotate(ring, j);
    RotateDistinct(ring, j);
    assert forall i :: 0 <= i < n ==> r[i] == ring[RotSource(i, j, n)];
    forall i | 0 <= i < n
      ensures data[r[i]] == (r[Prev(i, n)], r[Next(i, n)])
    {
      RotSourceNeighbours(i, j, n);
    }
  }

  lemma NextMod(a: nat, n: nat)
    requires n > 0
    ensures Next(a % n, n) == (a + 1) % n
    ensures Prev((a + 1) % n, n) == a % n
  {
    var q := a / n;
    DivMod(a, n);
    if a % n + 1 == n {
      Arith.DivUnique(a + 1, n, q + 1, 0);
    } else {
      Arith.DivUnique(a + 1, n, q, a % n + 1);
    }
  }

  /** The as-written relinking of lines 94-106: the seven map writes that take
      `key` out and put it after `other`, each reading the map as left by the
      previous ones. */
  function Relink(data: Links, key: Clef, other: Clef): Links
    requires key in data && other in data
    requires data[other].1 in data && data[key].0 in data && data[key].1 in data
  {
    var otherLinks := data[other];
    var myLinks := data[key];
    var d1 := data[other := (otherLinks.0, key)];
    var d2 := d1[key := (other, otherLinks.1)];
    var afterOther := d2[otherLinks.1];
    var d3 := d2[otherLinks.1 := (key, afterOther.1)];
    var linksAfter := d3[myLinks.1];
    var linksBefore := d3[myLinks.0];
    var d4 := d3[myLinks.1 := (myLinks.0, linksAfter.1)];
    d4[myLinks.0 := (linksBefore.0, myLinks.1)]
  }

  /** The links `d` has after moving rot[0] to just after rot[k]: the key
      between rot[k] and rot[k + 1], its old neighbours joined, the rest as in
      `data`. */
  ghost predicate MovedLinks(data: Links, d: Links, rot: seq<Clef>, k: nat)
    requires |rot| >= 3 && 1 <= k <= |rot| - 2
  {
    var n := |rot|;
    && |d| == |data|
    && (forall t {:trigger rot[t] in d} :: 0 <= t < n ==> rot[t] in d)
    && (forall t {:trigger rot[t] in data} :: 0 <= t < n ==> rot[t] in data)
    && d[rot[0]] == (rot[k], rot[k + 1])
    && d[rot[k]] == (if k == 1 then rot[n - 1] else rot[k - 1], rot[0])
    && d[rot[k + 1]] == (rot[0], if k + 1 == n - 1 then rot[1] else rot[k + 2])
    && (k >= 2 ==> d[rot[1]] == (rot[n - 1], rot[2]))
    && (k + 1 < n - 1 ==> d[rot[n - 1]] == (rot[n - 2], rot[1]))
    && (forall t {:trigger d[rot[t]]} :: 1 < t < n - 1 && t != k && t != k + 1 ==> d[rot[t]] == data[rot[t]])
  }

  /** What the seven writes do to each entry, read in the ring `rot` that
      starts at the key, for a step count in 1..len-2. */
  lemma RelinkShape(data: Links, rot: seq<Clef>, k: nat)
    requires Describes(data, rot) && |rot| >= 3 && 1 <= k <= |rot| - 2
    ensures MovedLinks(data, Relink(data, rot[0], rot[k]), rot, k)
  {
    RelinkNeighbours(data, rot, k);
    RelinkKeys(data, rot, k);
    RelinkWritten(data, rot, k);
    RelinkUntouched(data, rot, k);
  }

  /** The links read by the seven writes. */
  lemma RelinkNeighbours(data: Links, rot: seq<Clef>, k: nat)
    requires Describes(data, rot) && |rot| >= 3 && 1 <= k <= |rot| - 2
    ensures var n := |rot|;
            && data[rot[0]] == (rot[n - 1], rot[1])
            && data[rot[k]] == (rot[k - 1], rot[k + 1])
            && data[rot[k + 1]] == (rot[k], rot[Next(k + 1, n)])
            && data[rot[1]] == (rot[0], rot[2])
            && data[rot[n - 1]] == (rot[n - 2], rot[0])
  {
    var n := |rot|;
    assert data[rot[0]] == (rot[Prev(0, n)], rot[Next(0, n)]);
    assert data[rot[k]] == (rot[Prev(k, n)], rot[Next(k, n)]);
    assert data[rot[k + 1]] == (rot[Prev(k + 1, n)], rot[Next(k + 1, n)]);
    assert data[rot[1]] == (rot[Prev(1, n)], rot[Next(1, n)]);
    assert data[rot[n - 1]] == (rot[Prev(n - 1, n)], rot[Next(n - 1, n)]);
  }

  /** The seven writes only overwrite keys that are already there. */
  lemma RelinkKeys(data: Links, rot: seq<Clef>, k: nat)
    requires Describes(data, rot) && |rot| >= 3 && 1 <= k <= |rot| - 2
    ensures var d := Relink(data, rot[0], rot[k]);
            && d.Keys == data.Keys
            && (forall t {:trigger rot[t] in d} :: 0 <= t < |rot| ==> rot[t] in d)
  {
    RelinkNeighbours(data, rot, k);
  }

  /** The links of the key, of its new and old neighbours. */
  lemma RelinkWritten(data: Links, rot: seq<Clef>, k: nat)
    requires Describes(data, rot) && |rot| >= 3 && 1 <= k <= |rot| - 2
    ensures var n, d := |rot|, Relink(data, rot[0], rot[k]);
            && d[rot[0]] == (rot[k], rot[k + 1])
            && d[rot[k]] == (if k == 1 then rot[n - 1] else rot[k - 1], rot[0])
            && d[rot[k + 1]] == (rot[0], if k + 1 == n - 1 then rot[1] else rot[k + 2])
            && (k >= 2 ==> d[rot[1]] == (rot[n - 1], rot[2]))
            && (k + 1 < n - 1 ==> d[rot[n - 1]] == (rot[n - 2], rot[1]))
  {
    var n := |rot|;
    RelinkNeighbours(data, rot, k);
    assert rot[0] != rot[k] && rot[0] != rot[k + 1] && rot[0] != rot[1] && rot[0] != rot[n - 1];
    assert rot[k] != rot[k + 1] && rot[k + 1] != rot[1];
    assert k != 1 ==> rot[k] != rot[1];
    assert k != n - 2 ==> rot[k] != rot[n - 1] && rot[k + 1] != rot[n - 1];
    assert rot[1] != rot[n - 1];
  }

  /** Every other entry keeps its links. */
  lemma RelinkUntouched(data: Links, rot: seq<Clef>, k: nat)
    requires Describes(data, rot) && |rot| >= 3 && 1 <= k <= |rot| - 2
    ensures var n, d := |rot|, Relink(data, rot[0], rot[k]);
            forall t {:trigger d[rot[t]]} :: 1 < t < n - 1 && t != k && t != k + 1 ==>
              d[rot[t]] == data[rot[t]]
  {
    var n, d := |rot|, Relink(data, rot[0], rot[k]);
    RelinkNeighbours(data, rot, k);
    forall t | 1 < t < n - 1 && t != k && t != k + 1
      ensures d[rot[t]] == data[rot[t]]
    {
      assert rot[t] != rot[0] && rot[t] != rot[k] && rot[t] != rot[k + 1];
      assert rot[t] != rot[1] && rot[t] != rot[n - 1];
    }
  }

  lemma MovedDescribes(data: Links, d: Links, rot: seq<Clef>, k: nat)
    requires Describes(data, rot) && |rot| >= 3 && 1 <= k <= |rot| - 2
    requires MovedLinks(data, d, rot, k)
    ensures Describes(d, MoveAfter(rot, k))
  {
    var n := |rot|;
    var r := MoveAfter(rot, k);
    MoveAfterDistinct(rot, k);
    forall i | 0 <= i < n
      ensures d[r[i]] == (r[Prev(i, n)], r[Next(i, n)])
    {
      MovedAt(data, d, rot, k, i);
    }
  }

  lemma MovedAt(data: Links, d: Links, rot: seq<Clef>, k: nat, i: nat)
    requires Describes(data, rot) && |rot| >= 3 && 1 <= k <= |rot| - 2 && i < |rot|
    requires MovedLinks(data, d, rot, k)
    ensures var n, r := |rot|, MoveAfter(rot, k);
            d[r[i]] == (r[Prev(i, n)], r[Next(i, n)])
  {
    var n, r := |rot|, MoveAfter(rot, k);
    if i == k {
      assert r[k - 1] == rot[k] && r[k + 1] == rot[k + 1];
    } else if i == k - 1 {
      assert r[i] == rot[k] && r[k] == rot[0];
      if k == 1 { assert r[n - 1] == rot[n - 1]; } else { assert r[k - 2] == rot[k - 1]; }
    } else if i == k + 1 {
      assert r[i] == rot[k + 1] && r[k] == rot[0];
      if k + 1 == n - 1 { assert r[0] == rot[1]; } else { assert r[k + 2] == rot[k + 2]; }
    } else if i == 0 {
      assert r[0] == rot[1] && r[1] == rot[2] && r[n - 1] == rot[n - 1];
    } else if i == n - 1 {
      assert r[n - 1] == rot[n - 1] && r[n - 2] == rot[n - 2] && r[0] == rot[1];
    } else if i < k {
      assert r[i] == rot[i + 1] && r[i - 1] == rot[i] && r[i + 1] == rot[i + 2];
      assert d[rot[i + 1]] == data[rot[i + 1]];
      assert data[rot[i + 1]] == (rot[i], rot[i + 2]);
    } else {
      assert r[i] == rot[i] && r[i - 1] == rot[i - 1] && r[i + 1] == rot[i + 1];
      assert d[rot[i]] == data[rot[i]];
      assert data[rot[i]] == (rot[i - 1], rot[i + 1]);
    }
  }

  /** With a step count in 1..len-2 the seven writes leave a consistent ring:
      exactly the one MoveAfter describes. */
  lemma RelinkMoves(data: Links, rot: seq<Clef>, k: nat)
    requires Describes(data, rot) && |rot| >= 3 && 1 <= k <= |rot| - 2
    ensures Describes(Relink(data, rot[0], rot[k]), MoveAfter(rot, k))
  {
    RelinkShape(data, rot, k);
    MovedDescribes(data, Relink(data, rot[0], rot[k]), rot, k);
  }

  /** Relinking a key whose step count is in 1..len-2 after the entry that
      many successors ahead gives links for exactly the mixed ring. */
  lemma MixRelinks(data: Links, ring: seq<Clef>, key: Clef)
    requires Linked(data, ring) && key in ring && key.0 != 0
    requires |ring| >= 3 && 1 <= Steps(key.0, |ring|) <= |ring| - 2
    ensures var other := Rotate(ring, IndexOf(ring, key))[Steps(key.0, |ring|)];
            && key in data && other in data
            && data[other].1 in data && data[key].0 in data && data[key].1 in data
            && Linked(Relink(data, key, other), Mixed(ring, key))
  {
    var rot := Rotate(ring, IndexOf(ring, key));
    var k := Steps(key.0, |ring|);
    LinkedDescribes(data, ring);
    assert Mixed(ring, key) == MoveAfter(rot, k);
    RotateDescribes(data, ring, IndexOf(ring, key));
    RelinkMoves(data, rot, k);
    LinkedDescribes(Relink(data, key, rot[k]), Mixed(ring, key));
  }

  /** Entry i and its successor in the ring read from `key`. */
  lemma Successor(data: Links, ring: seq<Clef>, key: Clef, i: nat)
    requires Linked(data, ring) && key in ring && i + 1 < |ring|
    ensures var rot := Rotate(ring, IndexOf(ring, key));
            rot[i] in data && data[rot[i]].1 == rot[i + 1]
  {
    LinkedDescribes(data, ring);
    RotateDescribes(data, ring, IndexOf(ring, key));
  }

  /** The links of the entry at position m. */
  lemma LinkAt(data: Links, ring: seq<Clef>, m: nat)
    requires Linked(data, ring) && m < |ring|
    ensures ring[m] in data && data[ring[m]] == (ring[Prev(m, |ring|)], ring[Next(m, |ring|)])
  {
    LinkedDescribes(data, ring);
  }

  /** The as-written relinking with 0 steps (`other` is the key itself) leaves
      the key out of the ring: its old successor no longer points back to it. */
  lemma RelinkDetachesAtZeroSteps(data: Links, rot: seq<Clef>)
    requires Describes(data, rot) && |rot| >= 3
    ensures var d := Relink(data, rot[0], rot[0]);
            d[rot[0]].1 == rot[1] && d[rot[1]].0 != rot[0]
  {
    assert data[rot[0]] == (rot[|rot| - 1], rot[1]);
    assert data[rot[1]] == (rot[0], rot[Next(1, |rot|)]);
  }

  /** The as-written relinking with len - 1 steps (`other` is the key's
      predecessor) also leaves the key out: the predecessor now skips it. */
  lemma RelinkDetachesAtFullTurn(data: Links, rot: seq<Clef>)
    requires Describes(data, rot) && |rot| >= 3
    ensures var n := |rot|;
            var d := Relink(data, rot[0], rot[n - 1]);
            d[rot[n - 1]].1 != rot[0] && d[rot[1]].0 != rot[0]
  {
    var n := |rot|;
    assert data[rot[0]] == (rot[n - 1], rot[1]);
    assert data[rot[n - 1]] == (rot[n - 2], rot[0]);
    assert data[rot[1]] == (rot[0], rot[Next(1, n)]);
  }

  /** Entries positioned by their own second component are distinct. */
  lemma PositionsDistinct(numbers: seq<Clef>)
    requires forall i :: 0 <= i < |numbers| ==> numbers[i].1 == i
    ensures Distinct(numbers)
  {
    forall a, b | 0 <= a < b < |numbers| ensures numbers[a] != numbers[b] {
      assert numbers[a].1 == a && numbers[b].1 == b;
    }
  }

  /** What the `windows(3)` pass has written after the windows centred on
      positions 1..i-1. */
  ghost predicate Windows(links: Links, numbers: seq<Clef>, i: nat)
    requires 1 <= i <= |numbers| - 1
  {
    && |links| == i - 1
    && (forall x {:trigger x in links} :: x in links ==> x in numbers[1..i])
    && (forall t {:trigger numbers[t] in links} :: 1 <= t < i ==> numbers[t] in links)
    && forall t {:trigger links[numbers[t]]} :: 1 <= t < i ==>
         links[numbers[t]] == (numbers[t - 1], numbers[t + 1])
  }

  /** One more window written. */
  lemma WindowStep(links: Links, numbers: seq<Clef>, i: nat)
    requires forall t :: 0 <= t < |numbers| ==> numbers[t].1 == t
    requires 1 <= i < |numbers| - 1 && Windows(links, numbers, i)
    ensures numbers[i] !in links
    ensures Windows(links[numbers[i] := (numbers[i - 1], numbers[i + 1])], numbers, i + 1)
  {
    NotYetWritten(links, numbers, i);
    WindowKeys(links, numbers, i);
    WindowValues(links, numbers, i);
  }

  lemma NotYetWritten(links: Links, numbers: seq<Clef>, i: nat)
    requires forall t :: 0 <= t < |numbers| ==> numbers[t].1 == t
    requires 1 <= i < |numbers| - 1 && Windows(links, numbers, i)
    ensures numbers[i] !in links
  {
    forall y | y in links ensures y.1 < i {
      WrittenEarlier(links, numbers, i, y);
    }
    assert numbers[i].1 == i;
  }

  lemma WindowKeys(links: Links, numbers: seq<Clef>, i: nat)
    requires 1 <= i < |numbers| - 1 && Windows(links, numbers, i) && numbers[i] !in links
    ensures var l2 := links[numbers[i] := (numbers[i - 1], numbers[i + 1])];
            && |l2| == i
            && (forall y {:trigger y in l2} :: y in l2 ==> y in numbers[1..i + 1])
            && (forall t {:trigger numbers[t] in l2} :: 1 <= t < i + 1 ==> numbers[t] in l2)
  {
    var x := numbers[i];
    var l2 := links[x := (numbers[i - 1], numbers[i + 1])];
    assert numbers[1..i + 1] == numbers[1..i] + [x];
    forall y | y in l2 ensures y in numbers[1..i + 1] {
      if y != x {
        assert y in numbers[1..i];
      }
    }
  }

  lemma WindowValues(links: Links, numbers: seq<Clef>, i: nat)
    requires forall t :: 0 <= t < |numbers| ==> numbers[t].1 == t
    requires 1 <= i < |numbers| - 1 && Windows(links, numbers, i)
    ensures var l2 := links[numbers[i] := (numbers[i - 1], numbers[i + 1])];
            forall t {:trigger l2[numbers[t]]} :: 1 <= t < i + 1 ==>
              l2[numbers[t]] == (numbers[t - 1], numbers[t + 1])
  {
    var x := numbers[i];
    var l2 := links[x := (numbers[i - 1], numbers[i + 1])];
    forall t | 1 <= t < i + 1
      ensures l2[numbers[t]] == (numbers[t - 1], numbers[t + 1])
    {
      if t < i {
        assert numbers[t].1 == t && x.1 == i;
        assert l2[numbers[t]] == links[numbers[t]];
      }
    }
  }

  /** A key already written is an entry of positions 1..i-1. */
  lemma WrittenEarlier(links: Links, numbers: seq<Clef>, i: nat, y: Clef)
    requires forall t :: 0 <= t < |numbers| ==> numbers[t].1 == t
    requires 1 <= i <= |numbers| - 1 && Windows(links, numbers, i) && y in links
    ensures exists t :: 1 <= t < i && y == numbers[t]
    ensures 1 <= y.1 < i
  {
    assert y in numbers[1..i];
    var j :| 0 <= j < i - 1 && numbers[1..i][j] == y;
    assert y == numbers[j + 1];
  }

  /** Tying the first and last entries to each other closes the ring. */
  lemma Stitched(links: Links, numbers: seq<Clef>)
    requires forall t :: 0 <= t < |numbers| ==> numbers[t].1 == t
    requires |numbers| >= 2 && Windows(links, numbers, |numbers| - 1)
    ensures var n := |numbers|;
            Linked(links[numbers[0] := (numbers[n - 1], numbers[1])]
                        [numbers[n - 1] := (numbers[n - 2], numbers[0])], numbers)
  {
    var n := |numbers|;
    PositionsDistinct(numbers);
    StitchedDescribes(links, numbers);
    LinkedDescribes(links[numbers[0] := (numbers[n - 1], numbers[1])]
                         [numbers[n - 1] := (numbers[n - 2], numbers[0])], numbers);
  }

  lemma StitchedDescribes(links: Links, numbers: seq<Clef>)
    requires forall t :: 0 <= t < |numbers| ==> numbers[t].1 == t
    requires |numbers| >= 2 && Distinct(numbers) && Windows(links, numbers, |numbers| - 1)
    ensures var n := |numbers|;
            Describes(links[numbers[0] := (numbers[n - 1], numbers[1])]
                           [numbers[n - 1] := (numbers[n - 2], numbers[0])], numbers)
  {
    StitchedKeys(links, numbers);
    StitchedValues(links, numbers);
  }

  /** Closing the ring adds the two end entries as new keys. */
  lemma StitchedKeys(links: Links, numbers: seq<Clef>)
    requires forall t :: 0 <= t < |numbers| ==> numbers[t].1 == t
    requires |numbers| >= 2 && Windows(links, numbers, |numbers| - 1)
    ensures var n := |numbers|;
            var d := links[numbers[0] := (numbers[n - 1], numbers[1])]
                          [numbers[n - 1] := (numbers[n - 2], numbers[0])];
            && |d| == n
            && forall t {:trigger numbers[t] in d} :: 0 <= t < n ==> numbers[t] in d
  {
    var n := |numbers|;
    var a, b := numbers[0], numbers[n - 1];
    var d1 := links[a := (numbers[n - 1], numbers[1])];
    forall y | y in links ensures 1 <= y.1 < n - 1 {
      WrittenEarlier(links, numbers, n - 1, y);
    }
    assert a.1 == 0 && b.1 == n - 1;
    assert |d1| == n - 1;
  }

  /** Closing the ring links every entry to its cyclic neighbours. */
  lemma StitchedValues(links: Links, numbers: seq<Clef>)
    requires forall t :: 0 <= t < |numbers| ==> numbers[t].1 == t
    requires |numbers| >= 2 && Windows(links, numbers, |numbers| - 1)
    ensures var n := |numbers|;
            var d := links[numbers[0] := (numbers[n - 1], numbers[1])]
                          [numbers[n - 1] := (numbers[n - 2], numbers[0])];
            forall t {:trigger d[numbers[t]]} :: 0 <= t < n ==>
              d[numbers[t]] == (numbers[Prev(t, n)], numbers[Next(t, n)])
  {
    var n := |numbers|;
    var d := links[numbers[0] := (numbers[n - 1], numbers[1])]
                  [numbers[n - 1] := (numbers[n - 2], numbers[0])];
    forall t | 0 <= t < n
      ensures d[numbers[t]] == (numbers[Prev(t, n)], numbers[Next(t, n)])
    {
      if 0 < t < n - 1 {
        assert numbers[t].1 == t && numbers[0].1 == 0 && numbers[n - 1].1 == n - 1;
        assert d[numbers[t]] == links[numbers[t]];
      }
    }
  }

  class Ribbon {
    var data: Links
    var len: nat
    var head: Clef
    /** The cyclic order the links describe, read from some entry. */
    ghost var ring: seq<Clef>

    ghost predicate Valid()
      reads this
    {
      && |ring| >= 2
      && Linked(data, ring)
      && len == |ring|
      && head in ring && head.0 == 0
    }

    function Len(): (n: nat)
      reads this
      requires Valid()
      ensures n == |ring| && n >= 2
    {
      len
    }

    /** Stitches the entries into a ring, first and last included; the head is
        the first entry with value 0. */
    constructor Build(numbers: seq<Clef>)
      requires |numbers| >= 2
      requires forall i :: 0 <= i < |numbers| ==> numbers[i].1 == i
      requires exists i :: 0 <= i < |numbers| && numbers[i].0 == 0
      ensures Valid()
      ensures ring == numbers && len == |numbers|
      ensures head == numbers[ZeroIndex(numbers)]
    {
      var n := |numbers|;
      var links: Links := map[];
      var i := 1;
      while i < n - 1
        invariant 1 <= i <= n - 1 && Windows(links, numbers, i)
      {
        WindowStep(links, numbers, i);
        links := links[numbers[i] := (numbers[i - 1], numbers[i + 1])];
        i := i + 1;
      }
      var z := ZeroIndex(numbers);
      Stitched(links, numbers);
      links := links[numbers[0] := (numbers[n - 1], numbers[1])];
      links := links[numbers[n - 1] := (numbers[n - 2], numbers[0])];
      data, len, head := links, n, (0, z);
      ring := numbers;
      assert numbers[z] == (0, z);
    }

    /** Moves `key` |v| mod (len - 1) places forward, or backward for negative
        v. Lines 97-106 only keep the ring together when the step count is in
        1..len-2, hence the second precondition. */
    method Mix(key: Clef)
      requires Valid() && (key.0 != 0 ==> key in ring)
      requires key.0 == 0 || 1 <= Steps(key.0, len) <= len - 2
      modifies this
      ensures Valid() && len == old(len) && head == old(head)
      ensures key.0 == 0 ==> data == old(data)
      ensures ring == Mixed(old(ring), key)
    {
      var num := key.0;
      if num == 0 { return; }
      var absoluteNum := Steps(num, len);
      var other := Walk(key, absoluteNum);
      Splice(key, other);
    }

    /** The entry `steps` successors after `key`, following successor links. */
    method Walk(key: Clef, steps: nat) returns (other: Clef)
      requires Valid() && key in ring && steps < len
      ensures other == Rotate(ring, IndexOf(ring, key))[steps]
    {
      ghost var rot := Rotate(ring, IndexOf(ring, key));
      other := key;
      var i := 0;
      while i < steps
        invariant 0 <= i <= steps && other == rot[i]
      {
        Successor(data, ring, key, i);
        other := data[other].1;
        i := i + 1;
      }
    }

    /** The seven map writes of the relinking, taking `key` out and putting it
        back right after `other`. */
    method Splice(key: Clef, other: Clef)
      requires Valid() && key in ring && key.0 != 0
      requires 1 <= Steps(key.0, len) <= len - 2
      requires other == Rotate(ring, IndexOf(ring, key))[Steps(key.0, len)]
      modifies this
      ensures Valid() && len == old(len) && head == old(head)
      ensures ring == Mixed(old(ring), key)
    {
      MixRelinks(data, ring, key);
      var relinked := Relink(data, key, other);
      ghost var mixed := Mixed(ring, key);
      assert |mixed| == len && head in mixed && Linked(relinked, mixed);
      data, ring := relinked, mixed;
    }

    /** Mix with the degenerate step counts 0 and len - 1 treated as what they
        mean, no change of the cyclic order, instead of running the relinking
        that would detach the key. */
    method MixFixed(key: Clef)
      requires Valid() && (key.0 != 0 ==> key in ring)
      modifies this
      ensures Valid() && len == old(len) && head == old(head)
      ensures ring == Mixed(old(ring), key)
    {
      if key.0 != 0 {
        var k := Steps(key.0, len);
        if k == 0 || k == len - 1 { return; }
      }
      Mix(key);
    }

    /** The sum of the values 1000, 2000 and 3000 places after the zero entry. */
    method Grove() returns (r: int)
      requires Valid()
      ensures r == GroveSum(ring, head)
    {
      var a := Index(1000);
      var b := Index(2000);
      var c := Index(3000);
      r := a + b + c;
    }

    /** The value idx places after the zero entry, walking the shorter way. */
    method Index(idx: nat) returns (v: int)
      requires Valid()
      ensures v == At(ring, head, idx)
    {
      var n := len;
      ghost var h := IndexOf(ring, head);
      var roundedIdx := idx % n;
      WalkTarget(h, idx, n);
      var answer;
      if roundedIdx < n / 2 {
        answer := Forward(roundedIdx);
      } else {
        answer := Backward(n - roundedIdx);
      }
      v := answer.0;
    }

    /** The entry `steps` successors after the head. */
    method Forward(steps: nat) returns (answer: Clef)
      requires Valid()
      ensures answer == ring[(IndexOf(ring, head) + steps) % |ring|]
    {
      var n := len;
      ghost var h := IndexOf(ring, head);
      Arith.DivUnique(h, n, 0, h);
      answer := head;
      var i := 0;
      ghost var p := h;
      while i < steps
        invariant 0 <= i <= steps && p < n && p == (h + i) % n
        invariant answer == ring[p]
      {
        NextMod(h + i, n);
        LinkAt(data, ring, p);
        answer := data[answer].1;
        i, p := i + 1, Next(p, n);
      }
    }

    /** The entry `steps` predecessors before the head, for steps <= len. */
    method Backward(steps: nat) returns (answer: Clef)
      requires Valid() && steps <= len
      ensures answer == ring[(IndexOf(ring, head) + |ring| - steps) % |ring|]
    {
      var n := len;
      ghost var h := IndexOf(ring, head);
      Arith.DivUnique(h, n, 0, h);
      ModPlusN(h, n);
      answer := head;
      var i := 0;
      ghost var p := h;
      while i < steps
        invariant 0 <= i <= steps && p < n && p == (h + n - i) % n
        invariant answer == ring[p]
      {
        NextMod(h + n - i - 1, n);
        LinkAt(data, ring, p);
        answer := data[answer].0;
        i, p := i + 1, Prev(p, n);
      }
    }
  }

  /** Walking idx mod n forward, or n minus that backward, from position h
      ends where walking idx forward does. */
  lemma WalkTarget(h: nat, idx: nat, n: nat)
    requires n > 0
    ensures (h + idx % n) % n == (h + idx) % n
    ensures (h + n - (n - idx % n)) % n == (h + idx) % n
  {
    DivMod(idx, n);
    ModAdd(h, idx, n);
  }

  /** One mixing round over the values as given, then the grove sum. */
  method SolvePartOne(values: seq<int>) returns (r: int)
    requires |values| >= 2 && exists i :: 0 <= i < |values| && values[i] == 0
    ensures var keys := Clefs(values);
            r == GroveSum(MixRounds(keys, keys, 1), keys[ZeroIndex(keys)])
  {
    r := Solve(values, 1);
  }

  /** Ten mixing rounds over the values times the decryption key. */
  method SolvePartTwo(values: seq<int>) returns (r: int)
    requires |values| >= 2 && exists i :: 0 <= i < |values| && values[i] == 0
    ensures var keys := Clefs(Scaled(values));
            r == GroveSum(MixRounds(keys, keys, 10), keys[ZeroIndex(keys)])
  {
    var scaled := Scaled(values);
    var i :| 0 <= i < |values| && values[i] == 0;
    assert scaled[i] == 0;
    r := Solve(scaled, 10);
  }

  function Scaled(values: seq<int>): (r: seq<int>)
    ensures |r| == |values|
    ensures forall i :: 0 <= i < |r| ==> r[i] == values[i] * DecryptionKey
  {
    seq(|values|, i requires 0 <= i < |values| => values[i] * DecryptionKey)
  }

  /** One round: every key mixed once, in the order given. */
  method MixEach(ribbon: Ribbon, keys: seq<Clef>)
    requires ribbon.Valid() && forall i :: 0 <= i < |keys| ==> keys[i] in ribbon.ring
    modifies ribbon
    ensures ribbon.Valid() && ribbon.head == old(ribbon.head)
    ensures ribbon.ring == MixAll(old(ribbon.ring), keys)
  {
    var j := 0;
    while j < |keys|
      invariant 0 <= j <= |keys|
      invariant ribbon.Valid() && ribbon.head == old(ribbon.head)
      invariant ribbon.ring == MixAll(old(ribbon.ring), keys[..j])
    {
      assert keys[..j + 1][..j] == keys[..j];
      ribbon.MixFixed(keys[j]);
      j := j + 1;
    }
    assert keys[..|keys|] == keys;
  }

  /** `rounds` rounds of MixEach. */
  method MixRoundsOn(ribbon: Ribbon, keys: seq<Clef>, rounds: nat)
    requires ribbon.Valid() && ribbon.ring == keys
    modifies ribbon
    ensures ribbon.Valid() && ribbon.head == old(ribbon.head)
    ensures ribbon.ring == MixRounds(keys, keys, rounds)
  {
    var round := 0;
    ghost var cur := keys;
    while round < rounds
      invariant 0 <= round <= rounds
      invariant ribbon.Valid() && ribbon.head == old(ribbon.head)
      invariant cur == MixRounds(keys, keys, round)
      invariant ribbon.ring == cur
    {
      MixRoundsNext(keys, round, cur);
      MixEach(ribbon, keys);
      cur := MixAll(cur, keys);
      round := round + 1;
    }
  }

  method Solve(values: seq<int>, rounds: nat) returns (r: int)
    requires |values| >= 2 && exists i :: 0 <= i < |values| && values[i] == 0
    ensures var keys := Clefs(values);
            r == GroveSum(MixRounds(keys, keys, rounds), keys[ZeroIndex(keys)])
  {
    var keys := Clefs(values);
    assert exists i :: 0 <= i < |keys| && keys[i].0 == 0 by {
      var i :| 0 <= i < |values| && values[i] == 0;
      assert keys[i].0 == 0;
    }
    var ribbon := new Ribbon.Build(keys);
    MixRoundsOn(ribbon, keys, rounds);
    r := ribbon.Grove();
  }
}
