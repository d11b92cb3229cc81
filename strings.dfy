/**
 * The parts of Go's `strings` package and of its regular-expression
 * character classes that the command-line tool relies on.
 */
module Strings {
  import opened Wrappers

  /** Go's `\w`: ASCII letters, digits and the underscore. */
  predicate IsWordChar(c: char)
  {
    ('a' <= c <= 'z') || ('A' <= c <= 'Z') || ('0' <= c <= '9') || c == '_'
  }

  /** True when no character of `s` is `c`. */
  predicate Lacks(s: string, c: char)
  {
    forall i :: 0 <= i < |s| ==> s[i] != c
  }

  /** `strings.HasPrefix(s, p)`. */
  predicate HasPrefix(s: string, p: string)
  {
    |p| <= |s| && s[..|p|] == p
  }

  /** `strings.Contains(s, t)`. */
  predicate ContainsSubstring(s: string, t: string)
    decreases |s|
  {
    HasPrefix(s, t) || (|s| > 0 && ContainsSubstring(s[1..], t))
  }

  /** The index of the first `c` in `s`, if any. */
  function IndexOf(s: string, c: char): (r: Option<nat>)
    ensures r.None? <==> c !in s
    ensures r.Some? ==> r.value < |s| && s[r.value] == c && c !in s[..r.value]
  {
    if |s| == 0 then None
    else if s[0] == c then Some(0)
    else match IndexOf(s[1..], c)
      case None => None
      case Some(k) => assert s[..k + 1] == [s[0]] + s[1..][..k]; Some(k + 1)
  }

  /** The first `c` is at `k` when `s[k]` is `c` and none comes before it. */
  lemma IndexOfIs(s: string, c: char, k: nat)
    requires k < |s| && s[k] == c && c !in s[..k]
    ensures IndexOf(s, c) == Some(k)
  {
  }

  /** The index of the last `c` in `s[lo..hi]`, if any. */
  function LastIndexIn(s: string, c: char, lo: nat, hi: nat): (r: Option<nat>)
    requires lo <= hi <= |s|
    decreases hi
    ensures r.None? ==> forall i :: lo <= i < hi ==> s[i] != c
    ensures r.Some? ==> lo <= r.value < hi && s[r.value] == c
                        && forall i :: r.value < i < hi ==> s[i] != c
  {
    if hi == lo then None
    else if s[hi - 1] == c then Some(hi - 1)
    else LastIndexIn(s, c, lo, hi - 1)
  }

  /** The last `c` in `s[lo..hi]` is at `k` when nothing after it up to `hi` is `c`. */
  lemma {:induction false} LastIndexInIs(s: string, c: char, lo: nat, hi: nat, k: nat)
    requires lo <= k < hi <= |s| && s[k] == c
    requires forall i :: k < i < hi ==> s[i] != c
    ensures LastIndexIn(s, c, lo, hi) == Some(k)
    decreases hi
  {
    if k < hi - 1 {
      LastIndexInIs(s, c, lo, hi - 1, k);
    }
  }

  /** A character is missing from a concatenation exactly when it is missing from both parts. */
  lemma LacksConcat(a: string, b: string, c: char)
    ensures Lacks(a + b, c) <==> Lacks(a, c) && Lacks(b, c)
  {
    if Lacks(a, c) && Lacks(b, c) {
      forall i | 0 <= i < |a + b| ensures (a + b)[i] != c {
        if i >= |a| { assert (a + b)[i] == b[i - |a|]; }
      }
    }
    if Lacks(a + b, c) {
      forall i | 0 <= i < |a| ensures a[i] != c {
        assert (a + b)[i] == a[i];
      }
      forall i | 0 <= i < |b| ensures b[i] != c {
        assert (a + b)[|a| + i] == b[i];
      }
    }
  }

  /** A text without the first character of `t` does not contain `t`. */
  lemma {:induction false} NoSubstringWithoutFirst(s: string, t: string)
    requires t != [] && Lacks(s, t[0])
    ensures !ContainsSubstring(s, t)
    decreases |s|
  {
    if |s| > 0 {
      NoSubstringWithoutFirst(s[1..], t);
    }
  }

  /** A text contains whatever one of its suffixes starts with. */
  lemma {:induction false} ContainsInSuffix(a: string, b: string, t: string)
    requires HasPrefix(b, t)
    ensures ContainsSubstring(a + b, t)
    decreases |a|
  {
    if |a| == 0 {
      assert a + b == b;
    } else {
      ContainsInSuffix(a[1..], b, t);
      assert (a + b)[1..] == a[1..] + b;
    }
  }

  /** `strings.Split(s, ":")[0]`: the text before the first `c`, or all of `s`. */
  function BeforeFirst(s: string, c: char): (r: string)
    ensures r <= s && c !in r
    ensures c in s ==> |r| < |s| && s[|r|] == c
    ensures c !in s ==> r == s
  {
    match IndexOf(s, c)
    case None => s
    case Some(k) => s[..k]
  }

  /** `strings.Split(s, sep)` for a one-character separator. */
  function Split(s: string, sep: char): (parts: seq<string>)
    decreases |s|
    ensures |parts| >= 1
    ensures forall i :: 0 <= i < |parts| ==> sep !in parts[i]
  {
    match IndexOf(s, sep)
    case None => [s]
    case Some(k) => [s[..k]] + Split(s[k + 1..], sep)
  }

  /** `strings.Join(parts, sep)`. */
  function Join(parts: seq<string>, sep: string): string
  {
    if |parts| == 0 then ""
    else if |parts| == 1 then parts[0]
    else parts[0] + sep + Join(parts[1..], sep)
  }

  /** Splitting on `sep` and joining with `sep` gives the text back. */
  lemma {:induction false} JoinSplit(s: string, sep: char)
    ensures Join(Split(s, sep), [sep]) == s
    decreases |s|
  {
    match IndexOf(s, sep)
    case None =>
    case Some(k) =>
      var rest := s[k + 1..];
      var tail := Split(rest, sep);
      JoinSplit(rest, sep);
      var parts := [s[..k]] + tail;
      assert Split(s, sep) == parts;
      assert parts[1..] == tail;
      calc {
        Join(parts, [sep]);
        parts[0] + [sep] + Join(tail, [sep]);
        s[..k] + [sep] + rest;
        { assert s == s[..k] + [s[k]] + s[k + 1..]; }
        s;
      }
  }

  /** `strings.Trim(s, [c])`: drops every leading and trailing `c`. */
  function Trim(s: string, c: char): (r: string)
    decreases |s|
    ensures |r| <= |s|
    ensures r == [] || (r[0] != c && r[|r| - 1] != c)
  {
    if |s| == 0 then s
    else if s[0] == c then Trim(s[1..], c)
    else if s[|s| - 1] == c then Trim(s[..|s| - 1], c)
    else s
  }

  /** `n` copies of `c`. */
  function Repeat(c: char, n: nat): (r: string)
    ensures |r| == n && forall i :: 0 <= i < n ==> r[i] == c
  {
    if n == 0 then [] else [c] + Repeat(c, n - 1)
  }

  /** Trimming undoes padding with `c` on both sides. */
  lemma {:induction false} TrimPadded(x: string, c: char, n: nat, m: nat)
    requires x == [] || (x[0] != c && x[|x| - 1] != c)
    ensures Trim(Repeat(c, n) + x + Repeat(c, m), c) == x
  {
    TrimDropsLeading(c, n, x + Repeat(c, m));
    TrimDropsTrailing(x, c, m);
    assert Repeat(c, n) + x + Repeat(c, m) == Repeat(c, n) + (x + Repeat(c, m));
  }

  /** Leading copies of `c` make no difference to the trimmed text. */
  lemma {:induction false} TrimDropsLeading(c: char, n: nat, y: string)
    ensures Trim(Repeat(c, n) + y, c) == Trim(y, c)
    decreases n
  {
    var s := Repeat(c, n) + y;
    if n > 0 {
      assert s[0] == c;
      assert s[1..] == Repeat(c, n - 1) + y;
      TrimDropsLeading(c, n - 1, y);
    } else {
      assert s == y;
    }
  }

  /** Trailing copies of `c` after a text that neither starts nor ends with `c` are removed. */
  lemma {:induction false} TrimDropsTrailing(x: string, c: char, m: nat)
    requires x == [] || (x[0] != c && x[|x| - 1] != c)
    ensures Trim(x + Repeat(c, m), c) == x
    decreases m
  {
    var s := x + Repeat(c, m);
    if m == 0 {
      assert s == x;
    } else if x == [] {
      assert s == Repeat(c, m);
      assert s[0] == c && s[1..] == x + Repeat(c, m - 1);
      TrimDropsTrailing(x, c, m - 1);
    } else {
      assert s[0] != c && s[|s| - 1] == c;
      assert s[..|s| - 1] == x + Repeat(c, m - 1);
      TrimDropsTrailing(x, c, m - 1);
    }
  }

  /** Cutting a string at three positions and gluing the pieces gives it back. */
  lemma SplitFour(s: string, i: nat, j: nat, k: nat)
    requires i <= j <= k <= |s|
    ensures s == s[..i] + s[i..j] + s[j..k] + s[k..]
  {
    assert s[..j] == s[..i] + s[i..j];
    assert s[..k] == s[..j] + s[j..k];
    assert s == s[..k] + s[k..];
  }

  /** The number of times `c` occurs in `s`. */
  function Count(s: string, c: char): nat
  {
    if |s| == 0 then 0 else (if s[0] == c then 1 else 0) + Count(s[1..], c)
  }

  lemma {:induction false} CountAppend(a: string, b: string, c: char)
    ensures Count(a + b, c) == Count(a, c) + Count(b, c)
  {
    if |a| > 0 {
      assert (a + b)[1..] == a[1..] + b;
      CountAppend(a[1..], b, c);
    } else {
      assert a + b == b;
    }
  }

  /** A one-character text counts that character once. */
  lemma CountSingle(c: char)
    ensures Count([c], c) == 1
  {
    assert [c][1..] == [];
  }

  /** Two `c` around and between three runs without `c` make two occurrences. */
  lemma CountTwo(x: string, y: string, z: string, c: char)
    requires Lacks(x, c) && Lacks(y, c) && Lacks(z, c)
    ensures Count(x + [c] + y + [c] + z, c) == 2
  {
    CountAbsent(x, c);
    CountAbsent(y, c);
    CountAbsent(z, c);
    CountSingle(c);
    CountAppend(x, [c], c);
    CountAppend(x + [c], y, c);
    CountAppend(x + [c] + y, [c], c);
    CountAppend(x + [c] + y + [c], z, c);
  }

  lemma {:induction false} CountAbsent(s: string, c: char)
    requires Lacks(s, c)
    ensures Count(s, c) == 0
  {
    if |s| > 0 {
      assert s[0] != c;
      CountAbsent(s[1..], c);
    }
  }
}
