/**
 * The few operations of Go's `strings` package that the tool relies on,
 * each given a specification of its own: `Contains`, `Index`, `Replace` with
 * a count of one, `Split` on a one-character separator and `Trim` with a
 * one-character cut set. Also the byte/text views used for the checksum file.
 */
module Strings {
  import opened Base

  /** Number of occurrences of `c` in `s`. */
  function Count(s: string, c: char): (n: nat)
    ensures n <= |s|
    ensures n == 0 <==> c !in s
  {
    if |s| == 0 then 0 else (if s[0] == c then 1 else 0) + Count(s[1..], c)
  }

  lemma {:induction false} CountAppend(a: string, b: string, c: char)
    ensures Count(a + b, c) == Count(a, c) + Count(b, c)
  {
    if |a| == 0 {
      assert a + b == b;
    } else {
      assert (a + b)[1..] == a[1..] + b;
      CountAppend(a[1..], b, c);
    }
  }

  /** `sub` occurs in `s` starting at position `i`. */
  predicate OccursAt(s: string, sub: string, i: int) {
    0 <= i <= |s| - |sub| && s[i..i + |sub|] == sub
  }

  /** Go's `strings.Contains`. */
  predicate Contains(s: string, sub: string) {
    exists i | 0 <= i <= |s| - |sub| :: OccursAt(s, sub, i)
  }

  /** Go's `strings.Index`: the first position at which `sub` occurs, if any. */
  function FirstIndex(s: string, sub: string): (r: Option<nat>)
    ensures r.Some? ==> OccursAt(s, sub, r.value)
    ensures r.Some? ==> forall j :: 0 <= j < r.value ==> !OccursAt(s, sub, j)
    ensures r.None? <==> !Contains(s, sub)
    decreases |s|
  {
    if |sub| > |s| then None
    else if s[..|sub|] == sub then Some(0)
    else
      OccursInTail(s, sub);
      match FirstIndex(s[1..], sub)
      case None => None
      case Some(k) => Some(k + 1)
  }

  /** An occurrence after the first position is an occurrence in the tail, shifted by one. */
  lemma OccursInTail(s: string, sub: string)
    requires |s| > 0
    ensures forall j :: 1 <= j ==> (OccursAt(s, sub, j) <==> OccursAt(s[1..], sub, j - 1))
  {
    forall j | 1 <= j
      ensures OccursAt(s, sub, j) <==> OccursAt(s[1..], sub, j - 1)
    {
      if j <= |s| - |sub| {
        var x := s[1..][j - 1..j - 1 + |sub|];
        var y := s[j..j + |sub|];
        assert forall k :: 0 <= k < |sub| ==> x[k] == y[k];
        assert x == y;
      }
    }
  }

  /** Go's `strings.Replace(s, pat, rep, 1)`: the first occurrence of `pat` becomes `rep`. */
  function ReplaceFirst(s: string, pat: string, rep: string): (r: string)
    ensures !Contains(s, pat) ==> r == s
    ensures Contains(s, pat) ==> |r| == |s| - |pat| + |rep|
  {
    match FirstIndex(s, pat)
    case None => s
    case Some(i) => s[..i] + rep + s[i + |pat|..]
  }

  /** Replacing the first occurrence cuts `s` exactly at the earliest place `pat` occurs. */
  lemma ReplaceFirstAt(s: string, pat: string, rep: string, i: nat)
    requires OccursAt(s, pat, i)
    requires forall j :: 0 <= j < i ==> !OccursAt(s, pat, j)
    ensures ReplaceFirst(s, pat, rep) == s[..i] + rep + s[i + |pat|..]
  {
    FirstIndexAt(s, pat, i);
  }

  /** The first occurrence is where `FirstIndex` finds it. */
  lemma FirstIndexAt(s: string, pat: string, i: nat)
    requires OccursAt(s, pat, i)
    requires forall j :: 0 <= j < i ==> !OccursAt(s, pat, j)
    ensures FirstIndex(s, pat) == Some(i)
  {
    var f := FirstIndex(s, pat);
    assert Contains(s, pat) by {
      assert OccursAt(s, pat, i);
    }
    var k := f.value;
    assert OccursAt(s, pat, k) && OccursAt(s, pat, i);
    assert k == i;
  }

  /** Go's `strings.Join` for a non-empty list. */
  function Join(parts: seq<string>, sep: char): string
    requires |parts| > 0
  {
    if |parts| == 1 then parts[0] else parts[0] + [sep] + Join(parts[1..], sep)
  }

  /** Go's `strings.Split(s, string(sep))`: the maximal `sep`-free pieces of `s`, in order. */
  function Split(s: string, sep: char): (parts: seq<string>)
    ensures |parts| == Count(s, sep) + 1
    ensures forall k :: 0 <= k < |parts| ==> sep !in parts[k]
    ensures Join(parts, sep) == s
    decreases |s|
  {
    if |s| == 0 then [""]
    else
      var rest := Split(s[1..], sep);
      SplitStep(s, sep, rest);
      if s[0] == sep then [""] + rest else [[s[0]] + rest[0]] + rest[1..]
  }

  /** The contract of `Split` carries over from the tail of a string to the whole. */
  lemma SplitStep(s: string, sep: char, rest: seq<string>)
    requires |s| > 0
    requires |rest| == Count(s[1..], sep) + 1
    requires forall k :: 0 <= k < |rest| ==> sep !in rest[k]
    requires Join(rest, sep) == s[1..]
    ensures var parts := if s[0] == sep then [""] + rest else [[s[0]] + rest[0]] + rest[1..];
            && |parts| == Count(s, sep) + 1
            && (forall k :: 0 <= k < |parts| ==> sep !in parts[k])
            && Join(parts, sep) == s
  {
    if s[0] == sep {
      SplitStepAtSeparator(s, sep, rest);
    } else {
      SplitStepInPiece(s, sep, rest);
    }
  }

  lemma SplitStepAtSeparator(s: string, sep: char, rest: seq<string>)
    requires |s| > 0 && s[0] == sep
    requires |rest| == Count(s[1..], sep) + 1
    requires forall k :: 0 <= k < |rest| ==> sep !in rest[k]
    requires Join(rest, sep) == s[1..]
    ensures |[""] + rest| == Count(s, sep) + 1
    ensures forall k :: 0 <= k < |[""] + rest| ==> sep !in ([""] + rest)[k]
    ensures Join([""] + rest, sep) == s
  {
    var parts := [""] + rest;
    assert parts[1..] == rest;
    assert s == [sep] + s[1..];
    forall k | 0 <= k < |parts|
      ensures sep !in parts[k]
    {
      if k > 0 {
        assert parts[k] == rest[k - 1];
      }
    }
  }

  lemma SplitStepInPiece(s: string, sep: char, rest: seq<string>)
    requires |s| > 0 && s[0] != sep
    requires |rest| == Count(s[1..], sep) + 1
    requires forall k :: 0 <= k < |rest| ==> sep !in rest[k]
    requires Join(rest, sep) == s[1..]
    ensures |[[s[0]] + rest[0]] + rest[1..]| == Count(s, sep) + 1
    ensures forall k :: 0 <= k < |[[s[0]] + rest[0]] + rest[1..]| ==> sep !in ([[s[0]] + rest[0]] + rest[1..])[k]
    ensures Join([[s[0]] + rest[0]] + rest[1..], sep) == s
  {
    var parts := [[s[0]] + rest[0]] + rest[1..];
    assert s == [s[0]] + s[1..];
    JoinExtendHead(s[0], rest, sep);
    forall k | 0 <= k < |parts|
      ensures sep !in parts[k]
    {
      if k > 0 {
        assert parts[k] == rest[k];
      } else {
        assert sep !in rest[0];
      }
    }
  }

  /** Prepending a character to the first piece prepends it to the joined string. */
  lemma JoinExtendHead(c: char, rest: seq<string>, sep: char)
    requires |rest| > 0
    ensures Join([[c] + rest[0]] + rest[1..], sep) == [c] + Join(rest, sep)
  {
    var parts := [[c] + rest[0]] + rest[1..];
    assert parts[1..] == rest[1..];
  }

  lemma {:induction false} SplitWithoutSeparator(s: string, sep: char)
    requires sep !in s
    ensures Split(s, sep) == [s]
  {
    assert |Split(s, sep)| == 1;
    assert Join(Split(s, sep), sep) == Split(s, sep)[0];
  }

  /** `Split` undoes `Join` whenever no piece contains the separator. */
  lemma {:induction false} SplitJoin(parts: seq<string>, sep: char)
    requires |parts| > 0
    requires forall k :: 0 <= k < |parts| ==> sep !in parts[k]
    ensures Split(Join(parts, sep), sep) == parts
    decreases |parts|
  {
    if |parts| == 1 {
      SplitWithoutSeparator(parts[0], sep);
    } else {
      SplitJoin(parts[1..], sep);
      SplitCons(parts[0], Join(parts[1..], sep), sep);
      assert [parts[0]] + parts[1..] == parts;
    }
  }

  /** Splitting a separator-free head followed by a separator peels the head off. */
  lemma {:induction false} SplitCons(a: string, b: string, sep: char)
    requires sep !in a
    ensures Split(a + [sep] + b, sep) == [a] + Split(b, sep)
    decreases |a|
  {
    var s := a + [sep] + b;
    if |a| == 0 {
      assert s[1..] == b;
    } else {
      assert s[1..] == a[1..] + [sep] + b;
      SplitCons(a[1..], b, sep);
      var rest := Split(s[1..], sep);
      assert rest[0] == a[1..] && rest[1..] == Split(b, sep);
      assert Split(s, sep) == [[a[0]] + rest[0]] + rest[1..];
      assert [a[0]] + a[1..] == a;
    }
  }

  /** `n` copies of `c`. */
  function Repeat(c: char, n: nat): (r: string)
    ensures |r| == n
    ensures forall k :: 0 <= k < n ==> r[k] == c
  {
    seq(n, _ => c)
  }

  /** Go's `strings.TrimLeft(s, string(c))`: drops every leading `c`. */
  function TrimLeft(s: string, c: char): (r: string)
    ensures |r| <= |s| && r == s[|s| - |r|..]
    ensures forall k :: 0 <= k < |s| - |r| ==> s[k] == c
    ensures |r| > 0 ==> s[|s| - |r|] != c
    decreases |s|
  {
    if |s| > 0 && s[0] == c then TrimLeft(s[1..], c) else s
  }

  /** Go's `strings.TrimRight(s, string(c))`: drops every trailing `c`. */
  function TrimRight(s: string, c: char): (r: string)
    ensures |r| <= |s| && r == s[..|r|]
    ensures forall k :: |r| <= k < |s| ==> s[k] == c
    ensures |r| > 0 ==> s[|r| - 1] != c
    decreases |s|
  {
    if |s| > 0 && s[|s| - 1] == c then TrimRight(s[..|s| - 1], c) else s
  }

  /** `s` is `r` at offset `a`, with nothing but `c` before and after it. */
  predicate PaddedAt(s: string, c: char, a: nat, r: string) {
    && a + |r| <= |s|
    && s[a..a + |r|] == r
    && (forall k :: 0 <= k < a ==> s[k] == c)
    && (forall k :: a + |r| <= k < |s| ==> s[k] == c)
  }

  /** A padded core is the core between two runs of `c`. */
  lemma PaddedSplit(s: string, c: char, a: nat, r: string)
    requires PaddedAt(s, c, a, r)
    ensures s == Repeat(c, a) + r + Repeat(c, |s| - |r| - a)
  {
    var t := Repeat(c, a) + r + Repeat(c, |s| - |r| - a);
    forall k | 0 <= k < |s|
      ensures t[k] == s[k]
    {
      if k < a {
        assert t[k] == c;
      } else if k < a + |r| {
        assert t[k] == r[k - a] == s[a..a + |r|][k - a];
      } else {
        assert t[k] == Repeat(c, |s| - |r| - a)[k - a - |r|];
      }
    }
  }

  /**
   * Go's `strings.Trim(s, string(c))`: every leading and every trailing `c`
   * is removed, not just one.
   */
  function Trim(s: string, c: char): (r: string)
    ensures |r| > 0 ==> r[0] != c && r[|r| - 1] != c
    ensures exists a :: PaddedAt(s, c, a, r)
  {
    TrimDecomposes(s, c);
    TrimRight(TrimLeft(s, c), c)
  }

  /** Trimming both ends leaves the middle of `s`, with only `c` cut on either side. */
  lemma TrimDecomposes(s: string, c: char)
    ensures PaddedAt(s, c, |s| - |TrimLeft(s, c)|, TrimRight(TrimLeft(s, c), c))
  {
    CutBothEnds(s, TrimLeft(s, c), TrimRight(TrimLeft(s, c), c), c);
  }

  /** Cutting runs of `c` off the front of `s`, then off the back, leaves a padded core. */
  lemma CutBothEnds(s: string, l: string, r: string, c: char)
    requires |l| <= |s| && l == s[|s| - |l|..]
    requires forall k :: 0 <= k < |s| - |l| ==> s[k] == c
    requires |r| <= |l| && r == l[..|r|]
    requires forall k :: |r| <= k < |l| ==> l[k] == c
    ensures PaddedAt(s, c, |s| - |l|, r)
  {
    var a := |s| - |l|;
    forall k | a + |r| <= k < |s|
      ensures s[k] == c
    {
      assert s[k] == l[k - a];
    }
    assert s[a..a + |r|] == r;
  }

  /** `Trim` returns exactly the core of a string padded on both sides with `c`. */
  lemma TrimPadded(m: string, c: char, a: nat, b: nat)
    requires |m| > 0 ==> m[0] != c && m[|m| - 1] != c
    ensures Trim(Repeat(c, a) + m + Repeat(c, b), c) == m
  {
    var s := Repeat(c, a) + m + Repeat(c, b);
    var l := TrimLeft(s, c);
    if |m| == 0 {
      assert forall k :: 0 <= k < |s| ==> s[k] == c;
      assert |l| == 0;
    } else {
      assert s[a] == m[0];
      assert |l| > 0;
      assert |s| - |l| == a;
      assert l == m + Repeat(c, b);
      var r := TrimRight(l, c);
      assert l[|m| - 1] == m[|m| - 1];
      assert forall k :: |m| <= k < |l| ==> l[k] == c;
      assert |r| == |m|;
    }
  }

  /** Go's `string(b)` seen one character per byte. */
  function FromBytes(b: seq<uint8>): (s: string)
    ensures |s| == |b|
    ensures forall i :: 0 <= i < |b| ==> s[i] as int == b[i] as int
  {
    seq(|b|, i requires 0 <= i < |b| => b[i] as int as char)
  }

  predicate IsAscii(s: string) {
    forall i :: 0 <= i < |s| ==> s[i] as int < 128
  }

  lemma AsciiAppend(a: string, b: string)
    requires IsAscii(a) && IsAscii(b)
    ensures IsAscii(a + b)
  {
    forall i | 0 <= i < |a + b|
      ensures (a + b)[i] as int < 128
    {
      if i >= |a| {
        assert (a + b)[i] == b[i - |a|];
      }
    }
  }

  /** The bytes Go writes for an ASCII string. */
  function ToBytes(s: string): (b: seq<uint8>)
    requires IsAscii(s)
    ensures |b| == |s|
  {
    seq(|s|, i requires 0 <= i < |s| => s[i] as int as uint8)
  }

  /** Reading back written ASCII text gives the same text. */
  lemma FromToBytes(s: string)
    requires IsAscii(s)
    ensures FromBytes(ToBytes(s)) == s
  {
  }
}
