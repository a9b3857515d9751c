/** Text handling shared by the puzzle parsers: splitting on a separator,
    trimming white space, reading decimal numbers and measuring byte offsets
    the way Rust's `str::split`, `str::trim`, `str::parse` and `str::len`
    do. */
module Text {
  import opened Wrappers

  /** The parts joined back together with `sep` between them. */
  function Join<T>(parts: seq<seq<T>>, sep: T): seq<T>
    requires |parts| >= 1
  {
    if |parts| == 1 then parts[0] else parts[0] + [sep] + Join(parts[1..], sep)
  }

  /** The pieces of `s` between occurrences of `sep`; like Rust's `split`, an
      empty input or a separator at either end yields empty pieces. */
  function Split<T(==)>(s: seq<T>, sep: T): (r: seq<seq<T>>)
    ensures |r| >= 1
    ensures forall i :: 0 <= i < |r| ==> sep !in r[i]
    decreases |s|
  {
    if |s| == 0 then [[]]
    else if s[0] == sep then [[]] + Split(s[1..], sep)
    else
      var rest := Split(s[1..], sep);
      [[s[0]] + rest[0]] + rest[1..]
  }

  /** Joining the pieces with the separator gives back the text. */
  lemma {:induction false} JoinSplit<T>(s: seq<T>, sep: T)
    ensures Join(Split(s, sep), sep) == s
    decreases |s|
  {
    if |s| > 0 {
      JoinSplit(s[1..], sep);
      var rest := Split(s[1..], sep);
      if s[0] == sep {
        assert ([[]] + rest)[1..] == rest;
      } else {
        var r := [[s[0]] + rest[0]] + rest[1..];
        assert s == [s[0]] + s[1..];
        if |rest| > 1 {
          assert r[1..] == rest[1..];
          assert Join(rest, sep) == rest[0] + [sep] + Join(rest[1..], sep);
        }
      }
    }
  }

  /** A first piece free of the separator runs into the first part. */
  lemma {:induction false} SplitPrefix<T>(p: seq<T>, t: seq<T>, sep: T)
    requires sep !in p
    ensures Split(p + t, sep) == [p + Split(t, sep)[0]] + Split(t, sep)[1..]
    decreases |p|
  {
    if |p| > 0 {
      SplitPrefix(p[1..], t, sep);
      var r := Split(t, sep);
      assert (p + t)[1..] == p[1..] + t;
      assert p[0] != sep && (p + t)[0] == p[0];
      var rest := Split(p[1..] + t, sep);
      assert rest == [p[1..] + r[0]] + r[1..];
      assert Split(p + t, sep) == [[p[0]] + rest[0]] + rest[1..];
      assert [p[0]] + (p[1..] + r[0]) == p + r[0];
    } else {
      var r := Split(t, sep);
      assert p + t == t && p + r[0] == r[0];
      assert r == [r[0]] + r[1..];
    }
  }

  /** Splitting undoes joining parts that do not contain the separator. */
  lemma {:induction false} SplitJoin<T>(parts: seq<seq<T>>, sep: T)
    requires |parts| >= 1 && forall i :: 0 <= i < |parts| ==> sep !in parts[i]
    ensures Split(Join(parts, sep), sep) == parts
    decreases |parts|
  {
    var p := parts[0];
    if |parts| == 1 {
      SplitPrefix(p, [], sep);
      assert p + [] == p;
    } else {
      var rest := Join(parts[1..], sep);
      SplitJoin(parts[1..], sep);
      assert ([sep] + rest)[1..] == rest;
      assert Split([sep] + rest, sep) == [[]] + parts[1..];
      assert Join(parts, sep) == p + ([sep] + rest);
      SplitPrefix(p, [sep] + rest, sep);
      assert p + [] == p;
      assert parts == [p] + parts[1..];
    }
  }

  /** The elements of s before the first `sep`: the first piece of Split. */
  function UpTo<T(==)>(s: seq<T>, sep: T): (r: seq<T>)
    ensures sep !in r
    decreases |s|
  {
    if |s| == 0 || s[0] == sep then [] else [s[0]] + UpTo(s[1..], sep)
  }

  lemma {:induction false} UpToSplit<T>(s: seq<T>, sep: T)
    ensures UpTo(s, sep) == Split(s, sep)[0]
    decreases |s|
  {
    if |s| > 0 && s[0] != sep {
      UpToSplit(s[1..], sep);
    }
  }

  /** A piece free of the separator, followed by the separator or nothing. */
  lemma {:induction false} UpToPrefix<T>(p: seq<T>, t: seq<T>, sep: T)
    requires sep !in p && (|t| == 0 || t[0] == sep)
    ensures UpTo(p + t, sep) == p
    decreases |p|
  {
    if |p| > 0 {
      assert (p + t)[1..] == p[1..] + t;
      UpToPrefix(p[1..], t, sep);
      assert p == [p[0]] + p[1..];
    } else {
      assert p + t == t;
    }
  }

  /** The parts joined back together with the separator string between. */
  function JoinOn<T>(parts: seq<seq<T>>, sep: seq<T>): seq<T>
    requires |parts| >= 1
  {
    if |parts| == 1 then parts[0] else parts[0] + sep + JoinOn(parts[1..], sep)
  }

  /** Rust's `split` with a string pattern: the pieces between the
      occurrences of `sep` found greedily from the left. */
  function SplitOn<T(==)>(s: seq<T>, sep: seq<T>): (r: seq<seq<T>>)
    requires |sep| > 0
    ensures |r| >= 1
    decreases |s|
  {
    if |s| >= |sep| && s[..|sep|] == sep then [[]] + SplitOn(s[|sep|..], sep)
    else if |s| == 0 then [[]]
    else
      var rest := SplitOn(s[1..], sep);
      [[s[0]] + rest[0]] + rest[1..]
  }

  /** Joining the pieces with the separator gives back the text. */
  lemma {:induction false} SplitOnJoin<T>(s: seq<T>, sep: seq<T>)
    requires |sep| > 0
    ensures JoinOn(SplitOn(s, sep), sep) == s
    decreases |s|
  {
    if |s| >= |sep| && s[..|sep|] == sep {
      SplitOnJoin(s[|sep|..], sep);
      JoinAfterSeparator(s, sep, SplitOn(s[|sep|..], sep));
    } else if |s| > 0 {
      SplitOnJoin(s[1..], sep);
      JoinAfterHead(s, sep, SplitOn(s[1..], sep));
    }
  }

  lemma JoinAfterSeparator<T>(s: seq<T>, sep: seq<T>, rest: seq<seq<T>>)
    requires |s| >= |sep| && s[..|sep|] == sep
    requires |rest| >= 1 && JoinOn(rest, sep) == s[|sep|..]
    ensures JoinOn([[]] + rest, sep) == s
  {
    var r := [[]] + rest;
    var e: seq<T> := [];
    assert |r| > 1 && r[0] == e && r[1..] == rest;
    calc {
      JoinOn(r, sep);
      e + sep + JoinOn(rest, sep);
      { assert e + sep == sep; }
      sep + s[|sep|..];
      { assert s[..|sep|] == sep; }
      s[..|sep|] + s[|sep|..];
      s;
    }
  }

  lemma JoinAfterHead<T>(s: seq<T>, sep: seq<T>, rest: seq<seq<T>>)
    requires |s| > 0 && |rest| >= 1 && JoinOn(rest, sep) == s[1..]
    ensures JoinOn([[s[0]] + rest[0]] + rest[1..], sep) == s
  {
    var r := [[s[0]] + rest[0]] + rest[1..];
    assert s == [s[0]] + s[1..];
    if |rest| > 1 {
      assert r[1..] == rest[1..];
    }
  }

  /** No occurrence of sep starts before position n of s. */
  ghost predicate ClearOf<T>(s: seq<T>, sep: seq<T>, n: nat) {
    forall k: nat :: k < n ==> !OccursAt(s, sep, k)
  }

  /** A text is clear of the separator before n when the separator's j-th
      element is missing from the n elements starting at position j. */
  lemma ClearBy<T>(s: seq<T>, sep: seq<T>, n: nat, j: nat)
    requires j < |sep| && n + j <= |s| && sep[j] !in s[j..n + j]
    ensures ClearOf(s, sep, n)
  {
    forall k: nat | k < n
      ensures !OccursAt(s, sep, k)
    {
      if k + |sep| <= |s| {
        assert s[k..k + |sep|][j] == s[j..n + j][k];
      }
    }
  }

  lemma ClearShift<T>(s: seq<T>, sep: seq<T>, n: nat)
    requires 0 < n <= |s| && ClearOf(s, sep, n)
    ensures ClearOf(s[1..], sep, n - 1)
  {
    OccursShift(s, sep);
    forall k: nat | k < n - 1
      ensures !OccursAt(s[1..], sep, k)
    {
      assert !OccursAt(s, sep, k + 1);
    }
  }

  /** A text clear of the separator is one piece. */
  lemma {:induction false} SplitOnNone<T>(s: seq<T>, sep: seq<T>)
    requires |sep| > 0 && ClearOf(s, sep, |s|)
    ensures SplitOn(s, sep) == [s]
    decreases |s|
  {
    if |s| > 0 {
      assert !OccursAt(s, sep, 0);
      ClearShift(s, sep, |s|);
      SplitOnNone(s[1..], sep);
      assert [s[0]] + s[1..] == s;
    }
  }

  /** Splitting p + sep + q, with no separator starting inside p, gives p
      and then the pieces of q. */
  lemma {:induction false} SplitOnAfter<T>(p: seq<T>, sep: seq<T>, q: seq<T>)
    requires |sep| > 0 && ClearOf(p + sep + q, sep, |p|)
    ensures SplitOn(p + sep + q, sep) == [p] + SplitOn(q, sep)
    decreases |p|
  {
    var s := p + sep + q;
    if |p| == 0 {
      assert s == sep + q;
      assert s[..|sep|] == sep && s[|sep|..] == q;
    } else {
      assert !OccursAt(s, sep, 0);
      assert s[1..] == p[1..] + sep + q;
      ClearShift(s, sep, |p|);
      SplitOnAfter(p[1..], sep, q);
      assert [p[0]] + p[1..] == p;
    }
  }

  /** Pieces that avoid the separator's first element split back out. */
  lemma {:induction false} SplitOnJoinOn<T>(parts: seq<seq<T>>, sep: seq<T>)
    requires |sep| > 0 && |parts| >= 1
    requires forall i :: 0 <= i < |parts| ==> sep[0] !in parts[i]
    ensures SplitOn(JoinOn(parts, sep), sep) == parts
    decreases |parts|
  {
    if |parts| == 1 {
      assert parts[0][0..|parts[0]|] == parts[0];
      ClearBy(parts[0], sep, |parts[0]|, 0);
      SplitOnNone(parts[0], sep);
    } else {
      var s := JoinOn(parts, sep);
      assert s == parts[0] + sep + JoinOn(parts[1..], sep);
      assert s[0..|parts[0]|] == parts[0];
      ClearBy(s, sep, |parts[0]|, 0);
      SplitOnAfter(parts[0], sep, JoinOn(parts[1..], sep));
      SplitOnJoinOn(parts[1..], sep);
      assert [parts[0]] + parts[1..] == parts;
    }
  }

  /** An element in none of the pieces nor the separator is not in the
      joined text. */
  lemma {:induction false} NotInJoinOn<T>(parts: seq<seq<T>>, sep: seq<T>, c: T)
    requires |parts| >= 1 && c !in sep
    requires forall i :: 0 <= i < |parts| ==> c !in parts[i]
    ensures c !in JoinOn(parts, sep)
    decreases |parts|
  {
    if |parts| > 1 {
      NotInJoinOn(parts[1..], sep, c);
    }
  }

  /** The elements of s in the opposite order. */
  function Reversed<T>(s: seq<T>): (r: seq<T>)
    ensures |r| == |s|
  {
    if |s| == 0 then [] else Reversed(s[1..]) + [s[0]]
  }

  /** Element i of the reversal is element |s| - 1 - i of s. */
  lemma {:induction false} ReversedAt<T>(s: seq<T>)
    ensures forall i :: 0 <= i < |s| ==> Reversed(s)[i] == s[|s| - 1 - i]
    decreases |s|
  {
    if |s| > 0 {
      ReversedAt(s[1..]);
    }
  }

  /** Reversing a suffix one element longer puts that element last. */
  lemma ReversedSuffix<T>(s: seq<T>, k: nat)
    requires k < |s|
    ensures Reversed(s[k..]) == Reversed(s[k + 1..]) + [s[k]]
  {
    assert s[k..][1..] == s[k + 1..];
  }

  lemma {:induction false} ReversedConcat<T>(a: seq<T>, b: seq<T>)
    ensures Reversed(a + b) == Reversed(b) + Reversed(a)
    decreases |a|
  {
    if |a| == 0 {
      assert a + b == b;
    } else {
      assert (a + b)[1..] == a[1..] + b;
      ReversedConcat(a[1..], b);
    }
  }

  /** The last element comes first in the reversal. */
  lemma ReversedSnoc<T>(s: seq<T>, x: T)
    ensures Reversed(s + [x]) == [x] + Reversed(s)
  {
    ReversedConcat(s, [x]);
    assert Reversed([x]) == Reversed([x][1..]) + [x];
  }

  lemma ReversedTwice<T>(s: seq<T>)
    ensures Reversed(Reversed(s)) == s
  {
    ReversedAt(s);
    ReversedAt(Reversed(s));
  }

  /** Whether pat occurs in s starting at position k. */
  predicate OccursAt<T(==)>(s: seq<T>, pat: seq<T>, k: nat) {
    k + |pat| <= |s| && s[k..k + |pat|] == pat
  }

  /** The position of the first occurrence of pat in s, as `str::find`. */
  function Find<T(==)>(s: seq<T>, pat: seq<T>): (r: Option<nat>)
    ensures r.Some? ==> OccursAt(s, pat, r.value)
    ensures r.Some? ==> forall k :: 0 <= k < r.value ==> !OccursAt(s, pat, k)
    ensures r.None? ==> forall k :: 0 <= k <= |s| ==> !OccursAt(s, pat, k)
    decreases |s|
  {
    if |s| < |pat| then None
    else if s[..|pat|] == pat then Some(0)
    else
      OccursShift(s, pat);
      match Find(s[1..], pat)
      case None => None
      case Some(k) => Some(k + 1)
  }

  lemma OccursShift<T>(s: seq<T>, pat: seq<T>)
    requires |s| > 0
    ensures forall k: nat :: 1 <= k ==> (OccursAt(s, pat, k) <==> OccursAt(s[1..], pat, k - 1))
    ensures OccursAt(s, pat, 0) <==> |s| >= |pat| && s[..|pat|] == pat
  {
    forall k: nat | 1 <= k
      ensures OccursAt(s, pat, k) <==> OccursAt(s[1..], pat, k - 1)
    {
      if k + |pat| <= |s| {
        var a, b := s[k..k + |pat|], s[1..][k - 1..k - 1 + |pat|];
        assert forall j :: 0 <= j < |pat| ==> a[j] == b[j];
      }
    }
    if |s| >= |pat| {
      assert s[0..|pat|] == s[..|pat|];
    }
  }

  lemma DropPrefix<T>(p: seq<T>, q: seq<T>)
    ensures (p + q)[|p|..] == q
  {
  }

  /** The first occurrence of pat after a prefix that does not hold its first
      element. */
  lemma FindAfter<T>(p: seq<T>, pat: seq<T>, q: seq<T>)
    requires |pat| > 0 && pat[0] !in p
    ensures Find(p + pat + q, pat) == Some(|p|)
  {
    var s := p + pat + q;
    assert OccursAt(s, pat, |p|);
    forall k | 0 <= k < |p|
      ensures !OccursAt(s, pat, k)
    {
      assert s[k] == p[k];
    }
  }

  /** The set of characters a text holds. */
  function Chars(s: string): (r: set<char>)
    ensures forall c :: c in r <==> c in s
  {
    set i | 0 <= i < |s| :: s[i]
  }

  /** The lines of a text, split on '\n'. */
  function Lines(s: string): (r: seq<string>)
    ensures |r| >= 1 && forall i :: 0 <= i < |r| ==> '\n' !in r[i]
  {
    Split(s, '\n')
  }

  // ---- Byte offsets ----

  /** A character of the ASCII range, encoded as a single UTF-8 byte. */
  predicate IsAscii(c: char) {
    c as int < 0x80
  }

  /** The number of bytes of the UTF-8 encoding of `c`. */
  function Utf8Len(c: char): (n: nat)
    ensures 1 <= n <= 4
    ensures n == 1 <==> IsAscii(c)
  {
    if c as int < 0x80 then 1
    else if c as int < 0x800 then 2
    else if c as int < 0x1_0000 then 3
    else 4
  }

  /** The length of `s` in UTF-8 bytes, which is what `str::len` counts and
      what string slices and `match_indices` offsets are measured in. */
  function ByteLen(s: string): (n: nat)
    ensures |s| <= n <= 4 * |s|
  {
    if |s| == 0 then 0 else Utf8Len(s[0]) + ByteLen(s[1..])
  }

  lemma {:induction false} ByteLenConcat(a: string, b: string)
    ensures ByteLen(a + b) == ByteLen(a) + ByteLen(b)
    decreases |a|
  {
    if |a| > 0 {
      assert (a + b)[1..] == a[1..] + b;
      ByteLenConcat(a[1..], b);
    } else {
      assert a + b == b;
    }
  }

  /** One more character adds its encoding to the byte offset. */
  lemma ByteLenSnoc(s: string, k: nat)
    requires k < |s|
    ensures ByteLen(s[..k + 1]) == ByteLen(s[..k]) + Utf8Len(s[k])
  {
    assert s[..k + 1] == s[..k] + [s[k]];
    ByteLenConcat(s[..k], [s[k]]);
    assert [s[k]][1..] == [];
  }

  /** An ASCII text has one byte per character. */
  lemma {:induction false} ByteLenAscii(s: string)
    requires forall i :: 0 <= i < |s| ==> IsAscii(s[i])
    ensures ByteLen(s) == |s|
    decreases |s|
  {
    if |s| > 0 {
      assert forall i :: 0 <= i < |s| - 1 ==> s[1..][i] == s[i + 1];
      ByteLenAscii(s[1..]);
    }
  }

  /** In an ASCII text every character's byte offset is its position. */
  lemma OffsetsAscii(s: string)
    requires forall i :: 0 <= i < |s| ==> IsAscii(s[i])
    ensures forall p :: 0 <= p <= |s| ==> ByteLen(s[..p]) == p
  {
    forall p | 0 <= p <= |s|
      ensures ByteLen(s[..p]) == p
    {
      ByteLenAscii(s[..p]);
    }
  }

  /** The byte offset of a prefix after the first character. */
  lemma PrefixAfterHead(s: string)
    requires |s| > 0
    ensures forall j :: 1 <= j <= |s| ==> ByteLen(s[..j]) == Utf8Len(s[0]) + ByteLen(s[1..][..j - 1])
  {
    forall j | 1 <= j <= |s|
      ensures ByteLen(s[..j]) == Utf8Len(s[0]) + ByteLen(s[1..][..j - 1])
    {
      assert s[..j][1..] == s[1..][..j - 1];
    }
  }

  /** The character position at byte offset `b`, when `b` falls between two
      characters (or at an end); None where slicing at `b` panics. */
  function Boundary(s: string, b: nat): (k: Option<nat>)
    ensures k.Some? ==> k.value <= |s| && ByteLen(s[..k.value]) == b
    ensures k.None? ==> forall j :: 0 <= j <= |s| ==> ByteLen(s[..j]) != b
    decreases |s|
  {
    if b == 0 then assert s[..0] == []; Some(0)
    else if |s| == 0 then assert forall j :: 0 <= j <= |s| ==> s[..j] == []; None
    else
      PrefixAfterHead(s);
      assert s[..0] == [];
      if b < Utf8Len(s[0]) then None
      else
        match Boundary(s[1..], b - Utf8Len(s[0]))
        case None => None
        case Some(k) => Some(k + 1)
  }

  /** Over an ASCII prefix, byte offsets are character positions. */
  lemma {:induction false} BoundaryAscii(s: string, b: nat)
    requires b <= |s| && forall i :: 0 <= i < b ==> IsAscii(s[i])
    ensures Boundary(s, b) == Some(b)
    decreases b
  {
    if b > 0 {
      assert forall i :: 0 <= i < b - 1 ==> s[1..][i] == s[i + 1];
      BoundaryAscii(s[1..], b - 1);
    }
  }

  /** The white space that `trim` removes: the characters with the Unicode
      White_Space property, as `char::is_whitespace` tests them. */
  predicate IsSpace(c: char) {
    || '\t' <= c <= '\r' || c == ' ' || c == '\U{85}' || c == '\U{A0}' || c == '\U{1680}'
    || '\U{2000}' <= c <= '\U{200A}' || c == '\U{2028}' || c == '\U{2029}' || c == '\U{202F}'
    || c == '\U{205F}' || c == '\U{3000}'
  }

  function TrimStart(s: string): (r: string)
    ensures |r| <= |s| && r == s[|s| - |r|..]
    ensures forall i :: 0 <= i < |s| - |r| ==> IsSpace(s[i])
    ensures |r| > 0 ==> !IsSpace(r[0])
  {
    if |s| > 0 && IsSpace(s[0]) then TrimStart(s[1..]) else s
  }

  function TrimEnd(s: string): (r: string)
    ensures |r| <= |s| && r == s[..|r|]
    ensures forall i :: |r| <= i < |s| ==> IsSpace(s[i])
    ensures |r| > 0 ==> !IsSpace(r[|r| - 1])
  {
    if |s| > 0 && IsSpace(s[|s| - 1]) then TrimEnd(s[..|s| - 1]) else s
  }

  /** `s` without leading and trailing white space: a slice of `s` that
      neither starts nor ends with white space, with only white space before
      and after it. */
  function Trim(s: string): (r: string)
    ensures |r| == 0 || (!IsSpace(r[0]) && !IsSpace(r[|r| - 1]))
    ensures exists a, b ::
      && 0 <= a <= b <= |s| && r == s[a..b]
      && (forall i :: 0 <= i < a ==> IsSpace(s[i]))
      && (forall i :: b <= i < |s| ==> IsSpace(s[i]))
  {
    var t := TrimStart(s);
    var r := TrimEnd(t);
    assert r == s[|s| - |t|..|s| - |t| + |r|];
    r
  }

  /** A string that neither starts nor ends with white space is its own trim. */
  lemma TrimUnchanged(s: string)
    requires |s| == 0 || (!IsSpace(s[0]) && !IsSpace(s[|s| - 1]))
    ensures Trim(s) == s
  {
    assert TrimStart(s) == s;
    assert TrimEnd(TrimStart(s)) == s;
  }

  predicate IsDigit(c: char) {
    '0' <= c <= '9'
  }

  predicate AllDigits(s: string) {
    forall i :: 0 <= i < |s| ==> IsDigit(s[i])
  }

  /** Characters that are not digits do not occur in a string of digits. */
  lemma DigitsAvoid(s: string, c: char)
    requires AllDigits(s) && !IsDigit(c)
    ensures c !in s
  {
  }

  /** The value of a string of decimal digits, most significant first. */
  function DigitsValue(s: string): nat
    requires AllDigits(s)
  {
    if |s| == 0 then 0 else 10 * DigitsValue(s[..|s| - 1]) + (s[|s| - 1] - '0') as nat
  }

  /** Decimal digits of n, no leading zeros ("0" for zero). */
  function ShowNat(n: nat): (s: string)
    ensures |s| >= 1 && AllDigits(s)
    ensures |s| > 1 ==> s[0] != '0'
  {
    if n < 10 then [('0' as int + n) as char]
    else ShowNat(n / 10) + [('0' as int + n % 10) as char]
  }

  lemma {:induction false} ShowNatValue(n: nat)
    ensures DigitsValue(ShowNat(n)) == n
  {
    if n >= 10 {
      ShowNatValue(n / 10);
      var s := ShowNat(n);
      assert s[..|s| - 1] == ShowNat(n / 10);
    }
  }

  /** `str::parse` for an unsigned integer: an optional '+', then at least one
      digit and nothing else. */
  function ParseNat(s: string): (r: Option<nat>)
    ensures r.Some? <==> (|s| > 0 && AllDigits(s)) || (|s| > 1 && s[0] == '+' && AllDigits(s[1..]))
  {
    var body := if |s| > 0 && s[0] == '+' then s[1..] else s;
    if |body| > 0 && AllDigits(body) then
      Some(DigitsValue(body))
    else
      None
  }

  /** `str::parse` for a signed integer: an optional '+' or '-' sign. */
  function ParseInt(s: string): (r: Option<int>)
    ensures r.Some? <==> (|s| > 0 && AllDigits(s)) || (|s| > 1 && (s[0] == '+' || s[0] == '-') && AllDigits(s[1..]))
    ensures r.Some? && s[0] == '-' ==> r.value == -(DigitsValue(s[1..]) as int)
    ensures r.Some? && s[0] != '-' ==> r == Some(ParseNat(s).value as int)
  {
    if |s| > 0 && s[0] == '-' then
      if |s| > 1 && AllDigits(s[1..]) then Some(-(DigitsValue(s[1..]) as int)) else None
    else
      match ParseNat(s)
      case Some(n) => Some(n as int)
      case None => None
  }

  function ShowInt(v: int): string {
    if v < 0 then "-" + ShowNat(-v) else ShowNat(v)
  }

  /** Parsing reads back what showing wrote. */
  lemma ParseShow(v: int)
    ensures ParseInt(ShowInt(v)) == Some(v)
    ensures v >= 0 ==> ParseNat(ShowNat(v)) == Some(v)
  {
    ShowNatValue(if v < 0 then -v else v);
    var s := ShowNat(if v < 0 then -v else v);
    assert s[0] != '+' && s[0] != '-';
    if v < 0 {
      assert ShowInt(v)[1..] == s;
    }
  }
}
