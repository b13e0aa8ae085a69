/** The Python `str` operations the calendar code relies on, with the facts about them the
    rest of the model needs: `"%02d"` formatting, `split`/`join`, `strip`, `replace`, ASCII
    `lower`, the ordering of `str` values and `sorted(set(...))`. */
module Strings {
  import opened Wrappers

  // ---------------------------------------------------------------------------------------
  // Decimal digits and "%02d"

  predicate IsDigit(c: char) {
    '0' <= c <= '9'
  }

  predicate AllDigits(s: string) {
    forall i :: 0 <= i < |s| ==> IsDigit(s[i])
  }

  function DigitChar(d: nat): (c: char)
    requires d < 10
    ensures IsDigit(c) && c as int - '0' as int == d
  {
    ('0' as int + d) as char
  }

  /** Decimal representation of `n` without leading zeros (Python's `str(n)` for `n >= 0`). */
  function NatToDigits(n: nat): (s: string)
    ensures 1 <= |s| && AllDigits(s)
    ensures n >= 10 ==> |s| >= 2
    ensures n < 10 ==> s == [DigitChar(n)]
    decreases n
  {
    if n < 10 then [DigitChar(n)] else NatToDigits(n / 10) + [DigitChar(n % 10)]
  }

  /** The value of a string of decimal digits (leading zeros allowed). */
  function DigitsToNat(s: string): nat
    requires AllDigits(s)
  {
    if |s| == 0 then 0
    else
      assert IsDigit(s[|s| - 1]);
      DigitsToNat(s[..|s| - 1]) * 10 + (s[|s| - 1] as int - '0' as int)
  }

  lemma {:induction false} NatToDigitsRoundTrip(n: nat)
    ensures DigitsToNat(NatToDigits(n)) == n
    decreases n
  {
    if n >= 10 {
      NatToDigitsRoundTrip(n / 10);
      var s := NatToDigits(n);
      assert s[..|s| - 1] == NatToDigits(n / 10);
    }
  }

  /** Python's `"%02d" % n`: the decimal digits of `n`, padded with zeros to width two, with a
      leading `-` for a negative number (the sign counts towards the width). */
  function FormatInt02(n: int): (s: string)
    ensures |s| >= 2
    ensures forall i :: 0 <= i < |s| ==> IsDigit(s[i]) || (i == 0 && s[i] == '-')
    ensures 0 <= n < 100 ==> |s| == 2
  {
    if n < 0 then "-" + NatToDigits(-n)
    else if n < 10 then "0" + NatToDigits(n)
    else NatToDigits(n)
  }

  /** Reads back an optionally signed decimal integer (leading zeros allowed). */
  function ParseInt(s: string): Option<int> {
    if |s| >= 2 && s[0] == '-' && AllDigits(s[1..]) then Some(0 - DigitsToNat(s[1..]))
    else if |s| >= 1 && AllDigits(s) then Some(DigitsToNat(s))
    else None
  }

  lemma FormatInt02RoundTrip(n: int)
    ensures ParseInt(FormatInt02(n)) == Some(n)
  {
    var s := FormatInt02(n);
    if n < 0 {
      assert s[1..] == NatToDigits(-n);
      NatToDigitsRoundTrip(-n);
    } else if n < 10 {
      assert s == ['0', DigitChar(n)];
      assert s[..1] == "0" && s[..1][..0] == "";
      assert DigitsToNat(s[..1]) == 0;
    } else {
      NatToDigitsRoundTrip(n);
    }
  }

  lemma FormatInt02Injective(a: int, b: int)
    requires FormatInt02(a) == FormatInt02(b)
    ensures a == b
  {
    FormatInt02RoundTrip(a);
    FormatInt02RoundTrip(b);
  }

  /** Python's `int(x)` on a float: truncation towards zero. */
  function Trunc(x: real): (n: int)
    ensures 0.0 <= x ==> n as real <= x < n as real + 1.0
    ensures x < 0.0 ==> n as real - 1.0 < x <= n as real
  {
    if x >= 0.0 then x.Floor else -((-x).Floor)
  }

  predicate StartsWith(s: string, prefix: string) {
    |prefix| <= |s| && s[..|prefix|] == prefix
  }

  predicate EndsWith(s: string, suffix: string) {
    |suffix| <= |s| && s[|s| - |suffix|..] == suffix
  }

  // ---------------------------------------------------------------------------------------
  // replace of one character, strip

  /** Python's `s.replace(c, rep)` for a one-character `c`. */
  function ReplaceChar(s: string, c: char, rep: string): (r: string)
    ensures c !in rep ==> c !in r
    ensures forall x :: x in r ==> x in s || x in rep
  {
    if |s| == 0 then ""
    else (if s[0] == c then rep else [s[0]]) + ReplaceChar(s[1..], c, rep)
  }

  /** `replace` works piece by piece: on a concatenation it is the concatenation of the
      replaced pieces. */
  lemma {:induction false} ReplaceCharConcat(a: string, b: string, c: char, rep: string)
    ensures ReplaceChar(a + b, c, rep) == ReplaceChar(a, c, rep) + ReplaceChar(b, c, rep)
  {
    if |a| == 0 {
      assert a + b == b;
    } else {
      assert (a + b)[0] == a[0] && (a + b)[1..] == a[1..] + b;
      ReplaceCharConcat(a[1..], b, c, rep);
    }
  }

  /** On one character, `replace` gives `rep` for `c` and keeps any other character. */
  lemma ReplaceCharOne(x: char, c: char, rep: string)
    ensures ReplaceChar([x], c, rep) == if x == c then rep else [x]
  {
    assert [x][1..] == "";
  }

  lemma {:induction false} ReplaceCharAbsent(s: string, c: char, rep: string)
    requires c !in s
    ensures ReplaceChar(s, c, rep) == s
  {
    if |s| > 0 {
      assert c !in s[1..];
      ReplaceCharAbsent(s[1..], c, rep);
    }
  }

  /** The number of leading characters of `s` that belong to `cs`. */
  function LeadWidth(s: string, cs: set<char>): (k: nat)
    ensures k <= |s|
    ensures forall i :: 0 <= i < k ==> s[i] in cs
    ensures k < |s| ==> s[k] !in cs
  {
    if |s| > 0 && s[0] in cs then 1 + LeadWidth(s[1..], cs) else 0
  }

  /** The number of trailing characters of `s` that belong to `cs`. */
  function TrailWidth(s: string, cs: set<char>): (k: nat)
    ensures k <= |s|
    ensures forall i :: |s| - k <= i < |s| ==> s[i] in cs
    ensures k < |s| ==> s[|s| - 1 - k] !in cs
  {
    if |s| > 0 && s[|s| - 1] in cs then 1 + TrailWidth(s[..|s| - 1], cs) else 0
  }

  /** Python's `s.strip(chars)`: drops every leading and trailing character found in `cs`. */
  function Strip(s: string, cs: set<char>): (r: string)
    ensures |r| <= |s|
    ensures |r| > 0 ==> r[0] !in cs && r[|r| - 1] !in cs
    ensures forall x :: x in r ==> x in s
  {
    var t := s[LeadWidth(s, cs)..];
    t[..|t| - TrailWidth(t, cs)]
  }

  /** `strip` cuts only characters of `cs`, and only from the two ends: the result is a
      contiguous piece of `s` with nothing but characters of `cs` before and after it. */
  lemma StripTrims(s: string, cs: set<char>)
    ensures exists i, j ::
              && 0 <= i <= j <= |s| && Strip(s, cs) == s[i..j]
              && (forall k :: 0 <= k < i ==> s[k] in cs)
              && (forall k :: j <= k < |s| ==> s[k] in cs)
  {
    var i := LeadWidth(s, cs);
    var t := s[i..];
    var w := TrailWidth(t, cs);
    var j := i + |t| - w;
    assert Strip(s, cs) == s[i..j];
    forall k | j <= k < |s| ensures s[k] in cs {
      assert s[k] == t[k - i];
    }
  }

  lemma StripUnchanged(s: string, cs: set<char>)
    requires |s| > 0 ==> s[0] !in cs && s[|s| - 1] !in cs
    ensures Strip(s, cs) == s
  {
    assert LeadWidth(s, cs) == 0;
    assert s[0..] == s;
    assert TrailWidth(s, cs) == 0;
  }

  // ---------------------------------------------------------------------------------------
  // split, join

  /** Python's `s.split(c)` for a one-character separator: never empty, one more piece than
      there are separators. */
  function Split(s: string, c: char): (ps: seq<string>)
    ensures |ps| >= 1
    ensures forall i :: 0 <= i < |ps| ==> c !in ps[i]
  {
    if |s| == 0 then [""]
    else
      var rest := Split(s[1..], c);
      if s[0] == c then [""] + rest
      else [[s[0]] + rest[0]] + rest[1..]
  }

  function Count(s: string, c: char): nat {
    if |s| == 0 then 0 else (if s[0] == c then 1 else 0) + Count(s[1..], c)
  }

  /** Python's `c.join(ps)`. */
  function Join(ps: seq<string>, c: char): string
    requires |ps| >= 1
  {
    if |ps| == 1 then ps[0] else ps[0] + [c] + Join(ps[1..], c)
  }

  /** Python's `''.join(ps)`. */
  function Concat(ps: seq<string>): string {
    if |ps| == 0 then "" else ps[0] + Concat(ps[1..])
  }

  lemma {:induction false} SplitCount(s: string, c: char)
    ensures |Split(s, c)| == Count(s, c) + 1
  {
    if |s| > 0 {
      SplitCount(s[1..], c);
    }
  }

  lemma {:induction false} SplitJoinRoundTrip(s: string, c: char)
    ensures Join(Split(s, c), c) == s
  {
    if |s| > 0 {
      SplitJoinRoundTrip(s[1..], c);
      var rest := Split(s[1..], c);
      if s[0] == c {
        assert ([""] + rest)[1..] == rest;
      } else if |rest| == 1 {
        assert s == [s[0]] + s[1..];
      } else {
        calc {
          Join(Split(s, c), c);
          ([s[0]] + rest[0]) + [c] + Join(rest[1..], c);
          [s[0]] + (rest[0] + [c] + Join(rest[1..], c));
          [s[0]] + Join(rest, c);
        }
      }
    }
  }

  lemma {:induction false} JoinSplitRoundTrip(ps: seq<string>, c: char)
    requires |ps| >= 1
    requires forall i :: 0 <= i < |ps| ==> c !in ps[i]
    ensures Split(Join(ps, c), c) == ps
  {
    if |ps| == 1 {
      SplitAbsent(ps[0], c);
    } else {
      JoinSplitRoundTrip(ps[1..], c);
      SplitAbsent(ps[0], c);
      SplitAround(ps[0], Join(ps[1..], c), c);
      assert Join(ps, c) == ps[0] + [c] + Join(ps[1..], c);
      assert ps == [ps[0]] + ps[1..];
    }
  }

  lemma {:induction false} SplitAbsent(s: string, c: char)
    requires c !in s
    ensures Split(s, c) == [s]
  {
    if |s| > 0 {
      assert s[0] in s && c !in s[1..];
      SplitAbsent(s[1..], c);
      assert [s[0]] + s[1..] == s;
    }
  }

  /** Splitting at a separator splits the pieces on either side independently. */
  lemma {:induction false} SplitAround(a: string, b: string, c: char)
    ensures Split(a + [c] + b, c) == Split(a, c) + Split(b, c)
  {
    if |a| == 0 {
      assert a + [c] + b == [c] + b;
      assert ([c] + b)[1..] == b;
    } else {
      assert (a + [c] + b)[1..] == a[1..] + [c] + b;
      SplitAround(a[1..], b, c);
    }
  }

  /** Joining the pieces of a split without separator removes every separator. */
  lemma {:induction false} ConcatSplit(s: string, c: char)
    ensures Concat(Split(s, c)) == ReplaceChar(s, c, "")
  {
    if |s| > 0 {
      ConcatSplit(s[1..], c);
      var rest := Split(s[1..], c);
      if s[0] != c {
        calc {
          Concat(Split(s, c));
          ([s[0]] + rest[0]) + Concat(rest[1..]);
          [s[0]] + (rest[0] + Concat(rest[1..]));
          [s[0]] + Concat(rest);
        }
      }
    }
  }

  // ---------------------------------------------------------------------------------------
  // replace of a substring

  /** Python's `s.replace(p, rep)`: left to right, non-overlapping. */
  function ReplaceAll(s: string, p: string, rep: string): (r: string)
    requires |p| > 0
    ensures forall x :: x in r ==> x in s || x in rep
    decreases |s|
  {
    if |s| < |p| then s
    else if s[..|p|] == p then
      var rest := ReplaceAll(s[|p|..], p, rep);
      assert forall x :: x in s[|p|..] ==> x in s;
      rep + rest
    else
      var rest := ReplaceAll(s[1..], p, rep);
      assert forall x :: x in s[1..] ==> x in s;
      [s[0]] + rest
  }

  /** A string that lacks one of the pattern's characters is left unchanged. */
  lemma {:induction false} ReplaceAllAbsent(s: string, p: string, rep: string, k: nat)
    requires k < |p| && p[k] !in s
    ensures ReplaceAll(s, p, rep) == s
    decreases |s|
  {
    if |s| >= |p| {
      assert p[k] !in s[1..];
      ReplaceAllAbsent(s[1..], p, rep, k);
    }
  }

  /** No occurrence of `p` straddles a separator that `p` does not contain. */
  lemma {:induction false} ReplaceAllAround(a: string, b: string, c: char, p: string, rep: string)
    requires |p| > 0 && c !in p
    ensures ReplaceAll(a + [c] + b, p, rep) == ReplaceAll(a, p, rep) + [c] + ReplaceAll(b, p, rep)
    decreases |a|
  {
    var s := a + [c] + b;
    if |a| < |p| <= |s| {
      NoOccurrenceAcross(a, b, c, p);
    }
    if |s| < |p| {
    } else if s[..|p|] == p {
      assert a[..|p|] == p;
      assert s[|p|..] == a[|p|..] + [c] + b;
      ReplaceAllAround(a[|p|..], b, c, p, rep);
    } else if |a| == 0 {
      assert s[1..] == b;
    } else {
      assert s[1..] == a[1..] + [c] + b;
      ReplaceAllAround(a[1..], b, c, p, rep);
      if |a| >= |p| {
        assert a[..|p|] == s[..|p|];
      }
    }
  }

  lemma NoOccurrenceAcross(a: string, b: string, c: char, p: string)
    requires c !in p && |a| < |p| <= |a| + 1 + |b|
    ensures (a + [c] + b)[..|p|] != p
  {
    assert (a + [c] + b)[..|p|][|a|] == c;
  }

  /** `p` has no border: no proper prefix of `p` is also a suffix of it. */
  predicate Unbordered(p: string) {
    forall k :: 0 < k < |p| ==> p[..k] != p[|p| - k..]
  }

  /** For an unbordered `p`, deleting every occurrence of `p` from `x + p` deletes the `p`
      that was appended and leaves `x` as deleting from `x` alone would. */
  lemma {:induction false} DeleteAllAppended(x: string, p: string)
    requires |p| > 0 && Unbordered(p)
    ensures ReplaceAll(x + p, p, "") == ReplaceAll(x, p, "")
    decreases |x|
  {
    var s := x + p;
    var L := |p|;
    if |x| == 0 {
      assert s == p && s[..L] == p && s[L..] == "";
    } else if s[..L] == p {
      if |x| < L {
        BorderOfOverlap(x, p);
      }
      assert x[..L] == s[..L];
      assert s[L..] == x[L..] + p;
      DeleteAllAppended(x[L..], p);
    } else {
      assert s[1..] == x[1..] + p;
      DeleteAllAppended(x[1..], p);
      if |x| >= L {
        assert x[..L] == s[..L];
      }
    }
  }

  /** An occurrence of `p` that starts inside a shorter `x` and runs into an appended `p`
      would be a border of `p`. */
  lemma BorderOfOverlap(x: string, p: string)
    requires 0 < |x| < |p| && (x + p)[..|p|] == p
    ensures p[..|p| - |x|] == p[|p| - (|p| - |x|)..]
  {
    var k := |p| - |x|;
    assert (x + p)[..|p|] == x + p[..k];
    assert p[|x|..] == (x + p[..k])[|x|..] == p[..k];
  }

  // ---------------------------------------------------------------------------------------
  // lower

  function LowerChar(c: char): char {
    if 'A' <= c <= 'Z' then (c as int + 32) as char else c
  }

  /** Python's `s.lower()`, restricted to the ASCII letters. */
  function LowerAscii(s: string): (r: string)
    ensures |r| == |s|
    ensures forall i :: 0 <= i < |s| ==> r[i] == LowerChar(s[i])
  {
    seq(|s|, i requires 0 <= i < |s| => LowerChar(s[i]))
  }

  predicate HasNoUpper(s: string) {
    forall i :: 0 <= i < |s| ==> !('A' <= s[i] <= 'Z')
  }

  lemma LowerAsciiIdentity(s: string)
    requires HasNoUpper(s)
    ensures LowerAscii(s) == s
  {
  }

  // ---------------------------------------------------------------------------------------
  // ordering of str values and sorted(set(...))

  /** Python's `a < b` on `str`: lexicographic by code point, a proper prefix first. */
  predicate Less(a: string, b: string) {
    if |a| == 0 then |b| > 0
    else |b| > 0 && (a[0] < b[0] || (a[0] == b[0] && Less(a[1..], b[1..])))
  }

  lemma {:induction false} LessIrreflexive(a: string)
    ensures !Less(a, a)
  {
    if |a| > 0 {
      LessIrreflexive(a[1..]);
    }
  }

  lemma {:induction false} LessTransitive(a: string, b: string, c: string)
    requires Less(a, b) && Less(b, c)
    ensures Less(a, c)
  {
    if |a| > 0 && a[0] == b[0] && b[0] == c[0] {
      LessTransitive(a[1..], b[1..], c[1..]);
    }
  }

  lemma {:induction false} LessTotal(a: string, b: string)
    ensures a == b || Less(a, b) || Less(b, a)
  {
    if |a| > 0 && |b| > 0 && a[0] == b[0] {
      LessTotal(a[1..], b[1..]);
      if a[1..] == b[1..] {
        assert a == [a[0]] + a[1..] && b == [b[0]] + b[1..];
      }
    }
  }

  predicate StrictlySorted(s: seq<string>) {
    forall i, j :: 0 <= i < j < |s| ==> Less(s[i], s[j])
  }

  /** Inserts `x` into a strictly sorted list unless it is already there. */
  function InsertSorted(x: string, s: seq<string>): (r: seq<string>)
    requires StrictlySorted(s)
    ensures StrictlySorted(r)
    ensures forall y :: y in r <==> y == x || y in s
  {
    if |s| == 0 then [x]
    else if x == s[0] then s
    else if Less(x, s[0]) then
      assert forall j :: 0 < j < |s| ==> Less(s[0], s[j]);
      forall j | 0 < j < |s| ensures Less(x, s[j]) {
        LessTransitive(x, s[0], s[j]);
      }
      [x] + s
    else
      LessTotal(x, s[0]);
      var rest := InsertSorted(x, s[1..]);
      assert forall y :: y in rest ==> Less(s[0], y) by {
        forall y | y in rest ensures Less(s[0], y) {
          if y != x {
            var j :| 0 <= j < |s[1..]| && s[1..][j] == y;
            assert s[j + 1] == y;
          }
        }
      }
      [s[0]] + rest
  }

  /** Python's `sorted(set(xs))` on a list of strings. */
  function SortedUnique(xs: seq<string>): (r: seq<string>)
    ensures StrictlySorted(r)
    ensures forall y :: y in r <==> y in xs
  {
    if |xs| == 0 then [] else InsertSorted(xs[|xs| - 1], SortedUnique(xs[..|xs| - 1]))
  }

  /** A strictly sorted list is determined by its elements: `sorted(set(xs))` is the only
      duplicate-free ascending arrangement of the elements of `xs`. */
  lemma {:induction false} StrictlySortedUnique(r1: seq<string>, r2: seq<string>)
    requires StrictlySorted(r1) && StrictlySorted(r2)
    requires forall y :: y in r1 <==> y in r2
    ensures r1 == r2
    decreases |r1|
  {
    if |r1| > 0 {
      assert r1[0] in r1;
    }
    if |r2| > 0 {
      assert r2[0] in r2;
    }
    if |r1| > 0 && |r2| > 0 {
      assert r1[0] == r2[0] by {
        LessTotal(r1[0], r2[0]);
        if Less(r1[0], r2[0]) {
          NotBelowHead(r1[0], r2);
        }
      }
      forall y ensures y in r1[1..] <==> y in r2[1..] {
        StrictlySortedTail(r1, y);
        StrictlySortedTail(r2, y);
      }
      StrictlySortedUnique(r1[1..], r2[1..]);
      assert r1 == [r1[0]] + r1[1..] && r2 == [r2[0]] + r2[1..];
    }
  }

  lemma NotBelowHead(x: string, s: seq<string>)
    requires StrictlySorted(s) && |s| > 0 && Less(x, s[0])
    ensures x !in s
  {
    if x in s {
      var j :| 0 <= j < |s| && s[j] == x;
      if j > 0 {
        LessTransitive(x, s[0], s[j]);
      }
      LessIrreflexive(x);
    }
  }

  lemma StrictlySortedTail(s: seq<string>, y: string)
    requires StrictlySorted(s) && |s| > 0
    ensures y in s[1..] <==> y in s && y != s[0]
  {
    if y in s[1..] {
      var j :| 1 <= j < |s| && s[j] == y;
      if y == s[0] {
        LessIrreflexive(y);
      }
    }
    if y in s && y != s[0] {
      var j :| 0 <= j < |s| && s[j] == y;
      assert s[1..][j - 1] == y;
    }
  }
}
