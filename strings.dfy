/** The JavaScript string operations the application relies on, over `seq<char>`:
    `indexOf`/`includes`, `split`/`join`, global replacement, `substring`,
    `trim` and the decimal rendering of a non-negative integer. */
module Strings {

  /** `p` occurs in `s` starting at index `i`. */
  predicate OccursAt(s: string, p: string, i: int) {
    0 <= i && i + |p| <= |s| && s[i..i + |p|] == p
  }

  /** `s.indexOf(p, from)`: the first occurrence at or after `from`, or -1. */
  function IndexOfFrom(s: string, p: string, from: nat): (r: int)
    ensures r == -1 || (from <= r && OccursAt(s, p, r))
    ensures r >= 0 ==> forall j :: from <= j < r ==> !OccursAt(s, p, j)
    ensures r == -1 ==> forall j :: from <= j ==> !OccursAt(s, p, j)
    decreases |s| - from
  {
    if from + |p| > |s| then -1
    else if s[from..from + |p|] == p then from
    else IndexOfFrom(s, p, from + 1)
  }

  /** `s.indexOf(p)`. */
  function IndexOf(s: string, p: string): (r: int)
    ensures r == -1 || OccursAt(s, p, r)
    ensures r >= 0 ==> forall j :: 0 <= j < r ==> !OccursAt(s, p, j)
    ensures r == -1 ==> forall j :: !OccursAt(s, p, j)
  {
    IndexOfFrom(s, p, 0)
  }

  /** `s.includes(p)`: the empty pattern is in every string, and a pattern
      longer than the string is in none. */
  predicate Contains(s: string, p: string)
    ensures |p| == 0 ==> Contains(s, p)
    ensures |p| > |s| ==> !Contains(s, p)
  {
    IndexOf(s, p) >= 0
  }

  /** `includes` holds exactly when the pattern occurs at some index. */
  lemma ContainsExactly(s: string, p: string)
    ensures Contains(s, p) <==> exists j :: OccursAt(s, p, j)
  {
    if Contains(s, p) {
      assert OccursAt(s, p, IndexOf(s, p));
    }
  }

  predicate StartsWith(s: string, prefix: string) {
    |prefix| <= |s| && s[..|prefix|] == prefix
  }

  predicate EndsWith(s: string, suffix: string) {
    |suffix| <= |s| && s[|s| - |suffix|..] == suffix
  }

  /** A witness occurrence is enough to show `Contains`. */
  lemma OccurrenceContains(s: string, p: string, i: int)
    requires OccursAt(s, p, i)
    ensures Contains(s, p)
  {
  }

  /** A pattern with a character that `s` lacks does not occur in `s`. */
  lemma {:induction false} MissingCharNotContained(s: string, p: string, k: nat)
    requires k < |p| && p[k] !in s
    ensures !Contains(s, p)
  {
  }

  /** An occurrence in a slice of `s` is an occurrence in `s`. */
  lemma OccursInSlice(s: string, lo: nat, hi: nat, p: string, j: int)
    requires lo <= hi <= |s| && OccursAt(s[lo..hi], p, j)
    ensures OccursAt(s, p, lo + j)
  {
    forall k | 0 <= k < |p|
      ensures s[lo + j..lo + j + |p|][k] == p[k]
    {
      assert s[lo..hi][j..j + |p|][k] == p[k];
    }
  }

  /** `pieces.join(sep)`: the first piece opens the result, and the
      separator follows it when there is a second piece. */
  function Join(pieces: seq<string>, sep: string): (r: string)
    ensures |pieces| == 0 ==> r == ""
    ensures |pieces| >= 1 ==> StartsWith(r, pieces[0])
    ensures |pieces| >= 2 ==> OccursAt(r, sep, |pieces[0]|)
  {
    if |pieces| == 0 then ""
    else if |pieces| == 1 then pieces[0]
    else
      var r := pieces[0] + sep + Join(pieces[1..], sep);
      assert r[|pieces[0]|..|pieces[0]| + |sep|] == sep;
      r
  }

  /** `s.split(sep)` for a non-empty separator: the pieces between
      successive leftmost non-overlapping occurrences of `sep`. */
  function Split(s: string, sep: string): (pieces: seq<string>)
    requires |sep| > 0
    ensures |pieces| >= 1
    ensures |pieces| == 1 <==> !Contains(s, sep)
    decreases |s|
  {
    var i := IndexOf(s, sep);
    if i < 0 then [s] else [s[..i]] + Split(s[i + |sep|..], sep)
  }

  /** The first piece of a split ends at the first occurrence of the
      separator, and the other pieces are the split of what follows it. */
  lemma SplitFirst(s: string, sep: string)
    requires |sep| > 0
    ensures var i := IndexOf(s, sep);
      && Split(s, sep)[0] == (if i < 0 then s else s[..i])
      && (i >= 0 ==> Split(s, sep)[1..] == Split(s[i + |sep|..], sep))
  {
  }

  /** Joining the pieces with the separator gives back the original string. */
  lemma {:induction false} JoinSplit(s: string, sep: string)
    requires |sep| > 0
    ensures Join(Split(s, sep), sep) == s
    decreases |s|
  {
    var i := IndexOf(s, sep);
    if i >= 0 {
      var head, tail := s[..i], s[i + |sep|..];
      var rest := Split(tail, sep);
      JoinSplit(tail, sep);
      assert Split(s, sep) == [head] + rest;
      JoinCons(head, rest, sep);
      SliceAround(s, i, |sep|);
    }
  }

  /** A string is the part before a window, the window and the part after it. */
  lemma SliceAround(s: string, i: nat, n: nat)
    requires i + n <= |s|
    ensures s == s[..i] + s[i..i + n] + s[i + n..]
  {
  }

  /** No piece of a split contains the separator. */
  lemma {:induction false} SplitPiecesFree(s: string, sep: string)
    requires |sep| > 0
    ensures forall k :: 0 <= k < |Split(s, sep)| ==> !Contains(Split(s, sep)[k], sep)
    decreases |s|
  {
    var i := IndexOf(s, sep);
    if i >= 0 {
      var tail := s[i + |sep|..];
      SplitPiecesFree(tail, sep);
      if Contains(s[..i], sep) {
        var j := IndexOf(s[..i], sep);
        OccursInSlice(s, 0, i, sep, j);
        assert false;
      }
      assert Split(s, sep) == [s[..i]] + Split(tail, sep);
    }
  }

  /** Joining pieces that lack a one-character separator and splitting again
      gives the same pieces. */
  lemma {:induction false} SplitJoinChar(pieces: seq<string>, c: char)
    requires |pieces| >= 1
    requires forall k :: 0 <= k < |pieces| ==> c !in pieces[k]
    ensures Split(Join(pieces, [c]), [c]) == pieces
    decreases |pieces|
  {
    var s := Join(pieces, [c]);
    if |pieces| == 1 {
      MissingCharNotContained(s, [c], 0);
    } else {
      var a := pieces[0];
      var rest := Join(pieces[1..], [c]);
      assert s == a + ([c] + rest);
      IndexOfAfterCharFree(a, [c] + rest, c);
      assert s[..|a|] == a;
      assert s[|a| + 1..] == rest;
      SplitJoinChar(pieces[1..], c);
      assert Split(s, [c]) == [a] + Split(rest, [c]);
      assert pieces == [a] + pieces[1..];
    }
  }

  /** A character missing from a prefix is first found at the prefix's end. */
  lemma IndexOfAfterCharFree(a: string, b: string, c: char)
    requires c !in a && |b| > 0 && b[0] == c
    ensures IndexOf(a + b, [c]) == |a|
  {
    var s := a + b;
    assert OccursAt(s, [c], |a|);
    forall j | 0 <= j < |a|
      ensures !OccursAt(s, [c], j)
    {
      assert s[j..j + 1] == [a[j]];
    }
  }

  /** Every occurrence of `p` in `s` replaced by `r`: `s.split(p).join(r)`. */
  function ReplaceAll(s: string, p: string, r: string): (t: string)
    requires |p| > 0
    ensures !Contains(s, p) ==> t == s
  {
    Join(Split(s, p), r)
  }

  /** Replacing from the first occurrence on: the text before it, the
      replacement, and the rest of the string with its occurrences replaced. */
  lemma ReplaceAllUnfold(s: string, p: string, r: string)
    requires |p| > 0 && Contains(s, p)
    ensures ReplaceAll(s, p, r)
      == s[..IndexOf(s, p)] + r + ReplaceAll(s[IndexOf(s, p) + |p|..], p, r)
  {
    var i := IndexOf(s, p);
    var rest := Split(s[i + |p|..], p);
    assert Split(s, p) == [s[..i]] + rest;
    JoinCons(s[..i], rest, r);
  }

  /** Joining a piece in front of at least one other. */
  lemma JoinCons(head: string, rest: seq<string>, sep: string)
    requires |rest| >= 1
    ensures Join([head] + rest, sep) == head + sep + Join(rest, sep)
  {
    var pieces := [head] + rest;
    assert pieces[0] == head && pieces[1..] == rest;
  }

  /** Joining with the empty separator distributes over concatenation. */
  lemma {:induction false} JoinEmptyAppend(xs: seq<string>, ys: seq<string>)
    ensures Join(xs + ys, "") == Join(xs, "") + Join(ys, "")
    decreases |xs|
  {
    if |xs| == 1 {
      if |ys| > 0 {
        assert (xs + ys)[1..] == ys;
      }
    } else if |xs| > 1 {
      JoinEmptyAppend(xs[1..], ys);
      assert (xs + ys)[1..] == xs[1..] + ys;
    } else {
      assert xs + ys == ys;
    }
  }

  /** JavaScript's `String.prototype.substring`: both ends are clamped to
      the string, and swapped when the start is past the end. */
  function Substring(s: string, start: int, end: int): (r: string)
    ensures 0 <= start <= end <= |s| ==> r == s[start..end]
    ensures 0 <= end <= start <= |s| ==> r == s[end..start]
    ensures 0 <= start <= |s| && end < 0 ==> r == s[..start]
    ensures 0 <= start <= |s| && end > |s| ==> r == s[start..]
    ensures 0 <= end <= |s| && start < 0 ==> r == s[..end]
    ensures 0 <= end <= |s| && start > |s| ==> r == s[end..]
    ensures (start <= 0 && end <= 0) || (start >= |s| && end >= |s|) ==> r == ""
    ensures (start <= 0 && end >= |s|) || (end <= 0 && start >= |s|) ==> r == s
    ensures |r| <= |s|
  {
    var a := Clamp(start, |s|);
    var b := Clamp(end, |s|);
    if a <= b then s[a..b] else s[b..a]
  }

  function Clamp(x: int, n: nat): (c: nat)
    ensures c <= n
  {
    if x < 0 then 0 else if x > n then n else x
  }

  /** The characters JavaScript's `trim` removes: WhiteSpace and LineTerminator. */
  predicate IsWhitespace(c: char) {
    || '\t' <= c <= '\r'
    || c == ' '
    || c == '\U{00A0}'
    || c == '\U{1680}'
    || '\U{2000}' <= c <= '\U{200A}'
    || c == '\U{2028}' || c == '\U{2029}'
    || c == '\U{202F}' || c == '\U{205F}'
    || c == '\U{3000}' || c == '\U{FEFF}'
  }

  /** `s` with its leading whitespace removed. */
  function TrimStart(s: string): (r: string)
    ensures |r| <= |s| && r == s[|s| - |r|..]
    ensures forall k :: 0 <= k < |s| - |r| ==> IsWhitespace(s[k])
    ensures |r| > 0 ==> !IsWhitespace(r[0])
  {
    if |s| > 0 && IsWhitespace(s[0]) then TrimStart(s[1..]) else s
  }

  /** `s` with its trailing whitespace removed. */
  function TrimEnd(s: string): (r: string)
    ensures |r| <= |s| && r == s[..|r|]
    ensures forall k :: |r| <= k < |s| ==> IsWhitespace(s[k])
    ensures |r| > 0 ==> !IsWhitespace(r[|r| - 1])
  {
    if |s| > 0 && IsWhitespace(s[|s| - 1]) then TrimEnd(s[..|s| - 1]) else s
  }

  /** `s.trim()`. */
  function Trim(s: string): (r: string)
    ensures |r| > 0 ==> !IsWhitespace(r[0]) && !IsWhitespace(r[|r| - 1])
  {
    TrimEnd(TrimStart(s))
  }

  /** `trim` removes only whitespace, from both ends, and keeps the middle:
      the result is the slice `s[lo..hi]` with nothing but whitespace around it. */
  lemma TrimIsSlice(s: string) returns (lo: nat, hi: nat)
    ensures lo <= hi <= |s| && Trim(s) == s[lo..hi]
    ensures forall k :: 0 <= k < lo ==> IsWhitespace(s[k])
    ensures forall k :: hi <= k < |s| ==> IsWhitespace(s[k])
  {
    var t := TrimStart(s);
    lo := |s| - |t|;
    hi := lo + |TrimEnd(t)|;
    PrefixOfSuffix(s, lo, |TrimEnd(t)|);
    WhitespaceTail(s, t, lo, hi);
  }

  /** A prefix of a suffix is a slice. */
  lemma PrefixOfSuffix(s: string, lo: nat, n: nat)
    requires lo + n <= |s|
    ensures s[lo..][..n] == s[lo..lo + n]
  {
  }

  /** Whitespace at the end of a suffix is whitespace at the end of the string. */
  lemma WhitespaceTail(s: string, t: string, lo: nat, hi: nat)
    requires lo <= hi <= |s| && t == s[lo..]
    requires forall k :: hi - lo <= k < |t| ==> IsWhitespace(t[k])
    ensures forall k :: hi <= k < |s| ==> IsWhitespace(s[k])
  {
    forall k | hi <= k < |s| ensures IsWhitespace(s[k]) {
      assert s[k] == t[k - lo];
    }
  }

  /** Trimming twice is the same as trimming once. */
  lemma TrimIdempotent(s: string)
    ensures Trim(Trim(s)) == Trim(s)
  {
    var t := Trim(s);
    if |t| > 0 {
      assert TrimStart(t) == t;
      assert TrimEnd(t) == t;
    }
  }

  predicate IsDigit(c: char) {
    '0' <= c <= '9'
  }

  function DigitChar(d: nat): (c: char)
    requires d < 10
    ensures IsDigit(c) && c as int - '0' as int == d
  {
    (d + '0' as int) as char
  }

  /** The decimal rendering of `n`, as `${n}` and `n.toString()` give it. */
  function NatToString(n: nat): (r: string)
    ensures |r| >= 1
    ensures forall k :: 0 <= k < |r| ==> IsDigit(r[k])
    ensures r[0] == '0' ==> n == 0
    decreases n
  {
    if n < 10 then [DigitChar(n)] else NatToString(n / 10) + [DigitChar(n % 10)]
  }

  function DigitValue(c: char): (d: nat)
    requires IsDigit(c)
    ensures d < 10
  {
    c as int - '0' as int
  }

  /** The value of a string of decimal digits. */
  function ParseNat(s: string): nat
    requires forall k :: 0 <= k < |s| ==> IsDigit(s[k])
  {
    if |s| == 0 then 0
    else ParseNat(s[..|s| - 1]) * 10 + DigitValue(s[|s| - 1])
  }

  /** Reading back a rendered number gives the number. */
  lemma {:induction false} ParseNatToString(n: nat)
    ensures ParseNat(NatToString(n)) == n
    decreases n
  {
    if n >= 10 {
      var s := NatToString(n);
      ParseNatToString(n / 10);
      assert s[..|s| - 1] == NatToString(n / 10);
    }
  }

  /** Different numbers have different renderings. */
  lemma NatToStringInjective(m: nat, n: nat)
    requires NatToString(m) == NatToString(n)
    ensures m == n
  {
    ParseNatToString(m);
    ParseNatToString(n);
  }
}
