/**
 * String helpers the controller builds on: JavaScript's `split(c).pop()`,
 * `toLowerCase`, `indexOf`/`replace` with a string pattern, the decimal
 * prefix read by `parseFloat`, number-to-string conversion and `join`.
 */
module Text {

  datatype Option<+T> = None | Some(value: T)

  predicate IsDigit(c: char) { '0' <= c <= '9' }

  predicate AllDigits(s: string) { forall i :: 0 <= i < |s| ==> IsDigit(s[i]) }

  // ---------------------------------------------------------------------------
  // `xs.indexOf(x)`

  /** The first index from `from` on that holds `x`, or -1. */
  function IndexOfFrom<T(==)>(xs: seq<T>, x: T, from: nat): int
    requires from <= |xs|
    decreases |xs| - from
  {
    if from == |xs| then -1
    else if xs[from] == x then from
    else IndexOfFrom(xs, x, from + 1)
  }

  /** `xs.indexOf(x)`: the first index that holds `x`, or -1. */
  function IndexOf<T(==)>(xs: seq<T>, x: T): int
  {
    IndexOfFrom(xs, x, 0)
  }

  lemma {:induction false} IndexOfFromFirst<T>(xs: seq<T>, x: T, from: nat)
    requires from <= |xs|
    ensures var r := IndexOfFrom(xs, x, from);
      && (r == -1 || (from <= r < |xs| && xs[r] == x))
      && (forall j :: from <= j < |xs| && (r == -1 || j < r) ==> xs[j] != x)
    decreases |xs| - from
  {
    if from < |xs| && xs[from] != x {
      IndexOfFromFirst(xs, x, from + 1);
    }
  }

  /** `indexOf` answers -1 exactly when `x` does not occur, and otherwise finds its first occurrence. */
  lemma IndexOfFirst<T>(xs: seq<T>, x: T)
    ensures IndexOf(xs, x) != -1 <==> x in xs
    ensures var r := IndexOf(xs, x);
      r != -1 ==> 0 <= r < |xs| && xs[r] == x && forall j :: 0 <= j < r ==> xs[j] != x
  {
    IndexOfFromFirst(xs, x, 0);
  }

  // ---------------------------------------------------------------------------
  // Case mapping (ASCII letters only)

  function LowerChar(c: char): char
  {
    if 'A' <= c <= 'Z' then (c as int + 32) as char else c
  }

  /** `s.toLowerCase()`, restricted to the ASCII letters: each character is mapped on its own. */
  function ToLower(s: string): string
  {
    seq(|s|, i requires 0 <= i < |s| => LowerChar(s[i]))
  }

  lemma ToLowerIdempotent(s: string)
    ensures ToLower(ToLower(s)) == ToLower(s)
  {
    assert forall i :: 0 <= i < |s| ==> LowerChar(LowerChar(s[i])) == LowerChar(s[i]);
  }

  // ---------------------------------------------------------------------------
  // `s.split(c).pop()`: the text after the last `c`

  /** The index of the last `c` among the first `n` characters of `s`, or -1 when there is none. */
  function LastIndexOf(s: string, c: char, n: nat): (r: int)
    requires n <= |s|
    ensures -1 <= r < n
  {
    if n == 0 then -1
    else if s[n - 1] == c then n - 1
    else LastIndexOf(s, c, n - 1)
  }

  /** `LastIndexOf` finds a `c`, and no `c` follows it among the first `n` characters. */
  lemma {:induction false} LastIndexOfLast(s: string, c: char, n: nat)
    requires n <= |s|
    ensures var r := LastIndexOf(s, c, n);
      && (r >= 0 ==> s[r] == c)
      && (forall j :: r < j < n ==> s[j] != c)
  {
    if n > 0 && s[n - 1] != c {
      LastIndexOfLast(s, c, n - 1);
    }
  }

  /** The text after the last occurrence of `c` in `s`, or all of `s` when `c` does not occur. */
  function AfterLast(s: string, c: char): string
  {
    s[LastIndexOf(s, c, |s|) + 1..]
  }

  /** The text after the last `c` is a `c`-free suffix; when it is shorter than `s` a `c`
      precedes it, and otherwise `s` holds no `c` at all. */
  lemma AfterLastShape(s: string, c: char)
    ensures var r := AfterLast(s, c);
      && |r| <= |s| && r == s[|s| - |r|..]
      && (forall j :: 0 <= j < |r| ==> r[j] != c)
      && (|r| < |s| ==> s[|s| - |r| - 1] == c)
      && (|r| == |s| ==> forall j :: 0 <= j < |s| ==> s[j] != c)
  {
    LastIndexOfLast(s, c, |s|);
  }

  /** A `c`-free `ext` after a `c` is the text after the last `c`. */
  lemma AfterLastOf(stem: string, c: char, ext: string)
    requires forall j :: 0 <= j < |ext| ==> ext[j] != c
    ensures AfterLast(stem + [c] + ext, c) == ext
  {
    var s := stem + [c] + ext;
    LastIndexOfFrom(s, c, |stem|, |s|);
    assert s[|stem| + 1..] == ext;
  }

  /** Searching back from `n`, the last `c` is at `k` when nothing between them is a `c`. */
  lemma {:induction false} LastIndexOfFrom(s: string, c: char, k: nat, n: nat)
    requires k < n <= |s| && s[k] == c
    requires forall j :: k < j < n ==> s[j] != c
    ensures LastIndexOf(s, c, n) == k
  {
    if n - 1 > k {
      LastIndexOfFrom(s, c, k, n - 1);
    }
  }

  /** Lower-casing does not move the last '.'. */
  lemma {:induction false} LastDotOfLower(s: string, n: nat)
    requires n <= |s|
    ensures LastIndexOf(ToLower(s), '.', n) == LastIndexOf(s, '.', n)
  {
    if n > 0 && s[n - 1] != '.' {
      LastDotOfLower(s, n - 1);
    }
  }

  /** Lower-casing commutes with taking the text after the last '.'. */
  lemma AfterLastDotToLower(s: string)
    ensures AfterLast(ToLower(s), '.') == ToLower(AfterLast(s, '.'))
  {
    LastDotOfLower(s, |s|);
  }

  // ---------------------------------------------------------------------------
  // `indexOf` and `replace` with a string pattern

  /** Does `p` occur in `s` starting at index `i`? */
  predicate OccursAt(s: string, p: string, i: nat)
  {
    i + |p| <= |s| && s[i..i + |p|] == p
  }

  lemma OccursAtShift(s: string, p: string)
    requires s != []
    ensures forall j: nat :: 1 <= j ==> (OccursAt(s, p, j) <==> OccursAt(s[1..], p, j - 1))
  {
    forall j: nat | 1 <= j
      ensures OccursAt(s, p, j) <==> OccursAt(s[1..], p, j - 1)
    {
      if j + |p| <= |s| {
        assert s[1..][j - 1..j - 1 + |p|] == s[j..j + |p|];
      }
    }
  }

  /** The first index at which `p` occurs in `s` (`s.indexOf(p)`), or None. */
  function FindFirst(s: string, p: string): (r: Option<nat>)
    ensures r.Some? ==> r.value + |p| <= |s|
    decreases |s|
  {
    if OccursAt(s, p, 0) then Some(0)
    else if |s| <= |p| then None
    else
      match FindFirst(s[1..], p)
      case None => None
      case Some(i) => Some(i + 1)
  }

  /** `FindFirst` finds the leftmost occurrence, and None means there is none. */
  lemma {:induction false} FindFirstLeftmost(s: string, p: string)
    ensures FindFirst(s, p).Some? ==> OccursAt(s, p, FindFirst(s, p).value)
    ensures FindFirst(s, p).Some? ==> forall j: nat :: j < FindFirst(s, p).value ==> !OccursAt(s, p, j)
    ensures FindFirst(s, p).None? ==> forall j: nat :: !OccursAt(s, p, j)
    decreases |s|
  {
    if !OccursAt(s, p, 0) && |s| > |p| {
      OccursAtShift(s, p);
      FindFirstLeftmost(s[1..], p);
    }
  }

  /** `s.replace(p, r)` for a string pattern: only the first occurrence is replaced. */
  function ReplaceFirst(s: string, p: string, r: string): string
  {
    match FindFirst(s, p)
    case None => s
    case Some(i) => s[..i] + r + s[i + |p|..]
  }

  lemma ReplaceFirstAbsent(s: string, p: string, r: string)
    requires forall j: nat :: !OccursAt(s, p, j)
    ensures ReplaceFirst(s, p, r) == s
  {
    FindFirstLeftmost(s, p);
  }

  lemma ReplaceFirstAt(s: string, p: string, r: string, i: nat)
    requires OccursAt(s, p, i)
    requires forall j: nat :: j < i ==> !OccursAt(s, p, j)
    ensures ReplaceFirst(s, p, r) == s[..i] + r + s[i + |p|..]
  {
    FindFirstLeftmost(s, p);
  }

  /** Whatever occurs at `i` also has each of its prefixes occurring at `i`. */
  lemma PrefixOccursAt(s: string, p: string, q: string, i: nat)
    requires OccursAt(s, p, i)
    requires |q| <= |p| && p[..|q|] == q
    ensures OccursAt(s, q, i)
  {
    assert s[i..i + |q|] == s[i..i + |p|][..|q|];
  }

  // ---------------------------------------------------------------------------
  // Decimal numbers

  function DigitChar(d: nat): (c: char)
    requires d < 10
    ensures IsDigit(c)
  {
    ('0' as int + d) as char
  }

  /** The value of a decimal digit (0 for any other character). */
  function DigitValue(c: char): nat
  {
    if IsDigit(c) then c as int - '0' as int else 0
  }

  /** The decimal text of `n`, as JavaScript's `String(n)` writes a non-negative integer below
      10^21 (from there on it switches to exponent notation). */
  function NatToString(n: nat): (r: string)
    ensures |r| >= 1 && AllDigits(r)
    decreases n
  {
    if n < 10 then [DigitChar(n)] else NatToString(n / 10) + [DigitChar(n % 10)]
  }

  /** The number the first `n` characters of `d`, read as decimal digits, denote. */
  function DigitsValue(d: string, n: nat): nat
    requires n <= |d|
  {
    if n == 0 then 0 else DigitsValue(d, n - 1) * 10 + DigitValue(d[n - 1])
  }

  /** The value of a prefix does not depend on what follows it. */
  lemma {:induction false} DigitsValueOfPrefix(d: string, rest: string, n: nat)
    requires n <= |d|
    ensures DigitsValue(d + rest, n) == DigitsValue(d, n)
  {
    if n > 0 {
      DigitsValueOfPrefix(d, rest, n - 1);
    }
  }

  lemma {:induction false} DigitsValueOfNatToString(n: nat)
    ensures DigitsValue(NatToString(n), |NatToString(n)|) == n
    decreases n
  {
    if n >= 10 {
      var r := NatToString(n);
      var init := NatToString(n / 10);
      DigitsValueOfNatToString(n / 10);
      assert r == init + [DigitChar(n % 10)];
      DigitsValueOfPrefix(init, [DigitChar(n % 10)], |init|);
    }
  }

  /** The end of the run of decimal digits in `s` that starts at `i`. */
  function DigitRunEnd(s: string, i: nat): (e: nat)
    requires i <= |s|
    ensures i <= e <= |s|
    decreases |s| - i
  {
    if i < |s| && IsDigit(s[i]) then DigitRunEnd(s, i + 1) else i
  }

  /** The run is made of digits and is followed by a non-digit or by the end. */
  lemma {:induction false} DigitRunEndShape(s: string, i: nat)
    requires i <= |s|
    ensures var e := DigitRunEnd(s, i);
      && (forall j :: i <= j < e ==> IsDigit(s[j]))
      && (e < |s| ==> !IsDigit(s[e]))
    decreases |s| - i
  {
    if i < |s| && IsDigit(s[i]) {
      DigitRunEndShape(s, i + 1);
    }
  }

  /** Digits followed by a non-digit (or nothing) run exactly to the end of the digits. */
  lemma {:induction false} DigitRunEndOfDigits(d: string, rest: string, i: nat)
    requires i <= |d| && AllDigits(d)
    requires rest == [] || !IsDigit(rest[0])
    ensures DigitRunEnd(d + rest, i) == |d|
    decreases |d| - i
  {
    if i < |d| {
      DigitRunEndOfDigits(d, rest, i + 1);
    }
  }

  /** The number `parseFloat` reads from the start of `s`, restricted to a run of decimal digits; 0 when there is none. */
  function NumberPrefix(s: string): nat
  {
    DigitsValue(s, DigitRunEnd(s, 0))
  }

  lemma NumberPrefixOfNatToString(n: nat, rest: string)
    requires rest == [] || !IsDigit(rest[0])
    ensures NumberPrefix(NatToString(n) + rest) == n
  {
    var d := NatToString(n);
    DigitRunEndOfDigits(d, rest, 0);
    DigitsValueOfPrefix(d, rest, |d|);
    DigitsValueOfNatToString(n);
  }

  // ---------------------------------------------------------------------------
  // `parts.join(sep)`

  function Join(parts: seq<string>, sep: string): string
  {
    if parts == [] then ""
    else if |parts| == 1 then parts[0]
    else parts[0] + sep + Join(parts[1..], sep)
  }

  /** With a non-empty separator, the joined text is empty exactly for no parts or one empty part. */
  lemma JoinEmpty(parts: seq<string>, sep: string)
    requires sep != ""
    ensures Join(parts, sep) == "" <==> parts == [] || parts == [""]
  {
    if |parts| >= 2 {
      assert |Join(parts, sep)| >= |sep|;
    }
  }
}
