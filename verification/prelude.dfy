/** Shared vocabulary for the whole model: the two failure-carrying wrappers,
    decimal rendering of numbers (the way JavaScript prints an integer inside a
    string concatenation), and the handful of string operations the front end
    uses (`String.prototype.replace` with a string pattern, `split(' ')[0]`). */
module Prelude {

  datatype Option<+T> = None | Some(value: T)

  /** A value, or the error the source would throw instead. */
  datatype Result<+T, +E> = Ok(value: T) | Err(error: E) {
    predicate IsFailure() { Err? }
  }

  // ---------------------------------------------------------------------------
  // Decimal numerals

  function DigitChar(d: nat): char
    requires d < 10
  {
    "0123456789"[d]
  }

  predicate IsDigit(c: char) {
    '0' <= c <= '9'
  }

  function DigitValue(c: char): nat
    requires IsDigit(c)
  {
    (c as int - '0' as int) as nat
  }

  /** The decimal numeral of `n`, without leading zeros. */
  function Dec(n: nat): (s: string)
    ensures |s| > 0
    ensures forall i :: 0 <= i < |s| ==> IsDigit(s[i])
    decreases n
  {
    if n < 10 then [DigitChar(n)] else Dec(n / 10) + [DigitChar(n % 10)]
  }

  /** Reads a string of decimal digits back as a number. */
  function ParseDec(s: string): nat
    requires forall i :: 0 <= i < |s| ==> IsDigit(s[i])
    decreases |s|
  {
    if |s| == 0 then 0 else 10 * ParseDec(s[..|s| - 1]) + DigitValue(s[|s| - 1])
  }

  lemma {:induction false} ParseDecOfDec(n: nat)
    ensures ParseDec(Dec(n)) == n
    decreases n
  {
    if n >= 10 {
      var s := Dec(n);
      assert s[..|s| - 1] == Dec(n / 10);
      ParseDecOfDec(n / 10);
    }
  }

  /** Distinct numbers have distinct numerals. */
  lemma DecInjective(a: nat, b: nat)
    ensures Dec(a) == Dec(b) <==> a == b
  {
    if Dec(a) == Dec(b) {
      ParseDecOfDec(a);
      ParseDecOfDec(b);
    }
  }

  /** `prefix + Dec(i)` is injective in `i`: the shape of every generated name. */
  lemma PrefixedDecInjective(prefix: string, a: nat, b: nat)
    ensures prefix + Dec(a) == prefix + Dec(b) <==> a == b
  {
    if prefix + Dec(a) == prefix + Dec(b) {
      assert Dec(a) == (prefix + Dec(a))[|prefix|..];
      assert Dec(b) == (prefix + Dec(b))[|prefix|..];
      DecInjective(a, b);
    }
  }

  /** How JavaScript prints an integral number in a string concatenation. */
  function IntToString(i: int): (s: string)
    ensures |s| > 0
    ensures (s[0] == '-') <==> i < 0
    ensures i < 0 ==> s[1..] == Dec(-i)
    ensures i >= 0 ==> s == Dec(i)
  {
    if i < 0 then "-" + Dec(-i) else Dec(i)
  }

  // ---------------------------------------------------------------------------
  // Characters and strings

  /** Index of the first occurrence of `c` in `s`. */
  function IndexOf(s: string, c: char): (r: Option<nat>)
    ensures r.None? <==> c !in s
    ensures r.Some? ==> r.value < |s| && s[r.value] == c && c !in s[..r.value]
  {
    if |s| == 0 then None
    else if s[0] == c then Some(0)
    else match IndexOf(s[1..], c)
      case None => None
      case Some(i) => assert s[..i + 1] == [s[0]] + s[1..][..i]; Some(i + 1)
  }

  /** `s.replace(c, r)` with a one-character string pattern: only the first
      occurrence is replaced. */
  function ReplaceFirst(s: string, c: char, r: string): (t: string)
    ensures c !in s ==> t == s
    ensures c in s ==> exists i :: 0 <= i < |s| && s[i] == c && c !in s[..i] && t == s[..i] + r + s[i + 1..]
  {
    match IndexOf(s, c)
    case None => s
    case Some(i) => s[..i] + r + s[i + 1..]
  }

  /** Replacing the first `c` by `r` removes one `c` and adds the
      characters of `r`. */
  lemma ReplaceFirstCount(s: string, c: char, r: string, d: char)
    ensures Count(ReplaceFirst(s, c, r), d) ==
      if c in s then Count(s, d) - (if c == d then 1 else 0) + Count(r, d) else Count(s, d)
  {
    match IndexOf(s, c)
    case None =>
    case Some(i) =>
      assert ReplaceFirst(s, c, r) == s[..i] + r + s[i + 1..];
      CountReplaceAt(s, i, r, d);
  }

  /** Replacing the character at `i` by `r`. */
  lemma CountReplaceAt(s: string, i: nat, r: string, d: char)
    requires i < |s|
    ensures Count(s[..i] + r + s[i + 1..], d) == Count(s, d) - (if s[i] == d then 1 else 0) + Count(r, d)
  {
    var p, q := s[..i], s[i + 1..];
    assert s == p + ([s[i]] + q);
    assert s[..i] + r + s[i + 1..] == p + (r + q);
    CountSplice(p, s[i], q, r, d);
  }

  /** Splicing `r` in place of one character `c`. */
  lemma CountSplice(p: string, c: char, q: string, r: string, d: char)
    ensures Count(p + (r + q), d) == Count(p + ([c] + q), d) - (if c == d then 1 else 0) + Count(r, d)
  {
    CountAppend(p, [c] + q, d);
    CountAppend([c], q, d);
    CountAppend(p, r + q, d);
    CountAppend(r, q, d);
    assert Count([c], d) == (if c == d then 1 else 0) + Count([], d);
  }

  /** A replacement that neither removes nor writes `d` keeps its count. */
  lemma ReplaceFirstKeeps(s: string, c: char, r: string, d: char)
    requires c != d && d !in r
    ensures Count(ReplaceFirst(s, c, r), d) == Count(s, d)
  {
    ReplaceFirstCount(s, c, r, d);
    CountAbsent(r, d);
  }

  /** `s.replace(/c/g, r)`: every occurrence of `c` is replaced. */
  function ReplaceAll(s: string, c: char, r: string): string
  {
    if |s| == 0 then ""
    else (if s[0] == c then r else [s[0]]) + ReplaceAll(s[1..], c, r)
  }

  lemma {:induction false} ReplaceAllAbsent(s: string, c: char, r: string)
    requires c !in s
    ensures ReplaceAll(s, c, r) == s
  {
    if |s| > 0 {
      assert c !in s[1..];
      ReplaceAllAbsent(s[1..], c, r);
    }
  }

  lemma {:induction false} ReplaceAllRemoves(s: string, c: char, r: string)
    requires c !in r
    ensures c !in ReplaceAll(s, c, r)
  {
    if |s| > 0 {
      ReplaceAllRemoves(s[1..], c, r);
    }
  }

  lemma {:induction false} ReplaceAllAppend(a: string, b: string, c: char, r: string)
    ensures ReplaceAll(a + b, c, r) == ReplaceAll(a, c, r) + ReplaceAll(b, c, r)
    decreases |a|
  {
    if |a| > 0 {
      assert (a + b)[0] == a[0];
      assert (a + b)[1..] == a[1..] + b;
      ReplaceAllAppend(a[1..], b, c, r);
    } else {
      assert a + b == b;
    }
  }

  function Min(a: int, b: int): int {
    if a <= b then a else b
  }

  /** Number of occurrences of `c` in `s`. */
  function Count(s: string, c: char): nat
  {
    if |s| == 0 then 0 else (if s[0] == c then 1 else 0) + Count(s[1..], c)
  }

  lemma {:induction false} CountAppend(a: string, b: string, c: char)
    ensures Count(a + b, c) == Count(a, c) + Count(b, c)
  {
    if |a| > 0 {
      assert (a + b)[1..] == a[1..] + b;
      CountAppend(a[1..], b, c);
    } else {
      assert a + b == b;
    }
  }

  lemma {:induction false} CountAbsent(s: string, c: char)
    ensures Count(s, c) == 0 <==> c !in s
  {
    if |s| > 0 {
      CountAbsent(s[1..], c);
    }
  }

  /** `s.split(' ')[0]`: the text before the first space, or all of `s`. */
  function FirstWord(s: string): (w: string)
    ensures ' ' !in w
    ensures w <= s
    ensures w == s || s[|w|] == ' '
  {
    match IndexOf(s, ' ')
    case None => s
    case Some(i) => s[..i]
  }

  /** Concatenation of a sequence of strings (`Array.prototype.join('')`). */
  function Concat(parts: seq<string>): string
  {
    if |parts| == 0 then "" else parts[0] + Concat(parts[1..])
  }

  lemma {:induction false} ConcatAppend(a: seq<string>, b: seq<string>)
    ensures Concat(a + b) == Concat(a) + Concat(b)
  {
    if |a| > 0 {
      assert (a + b)[1..] == a[1..] + b;
      ConcatAppend(a[1..], b);
    } else {
      assert a + b == b;
    }
  }

  /** Joins `parts` with a single space between neighbours. */
  function JoinSpace(parts: seq<string>): string
  {
    if |parts| == 0 then ""
    else if |parts| == 1 then parts[0]
    else JoinSpace(parts[..|parts| - 1]) + " " + parts[|parts| - 1]
  }

  /** ASCII upper-casing (`String.prototype.toUpperCase` on ASCII text). */
  function UpperChar(c: char): char
  {
    if 'a' <= c <= 'z' then (c as int - 32) as char else c
  }

  function Upper(s: string): (u: string)
    ensures |u| == |s|
    ensures forall i :: 0 <= i < |s| ==> u[i] == UpperChar(s[i])
  {
    if |s| == 0 then "" else [UpperChar(s[0])] + Upper(s[1..])
  }
}
