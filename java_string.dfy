/**
 * The few pieces of java.lang that the property service relies on:
 * the `long` identifier type and its decimal rendering (`String.valueOf(Long)`),
 * `String.lastIndexOf(char)`, `String.toLowerCase()` restricted to ASCII,
 * and the natural order of `String` (`compareTo`).
 */
module JavaString {

  /** Java's 64-bit signed `long`. */
  type Long = x: int | -0x8000_0000_0000_0000 <= x < 0x8000_0000_0000_0000

  // ---------------------------------------------------------------------------
  // Lower-casing (ASCII only)
  // ---------------------------------------------------------------------------

  /** `Character.toLowerCase` on the ASCII range: 'A'..'Z' become 'a'..'z', every other char is kept. */
  function LowerChar(c: char): (d: char)
    ensures d != c ==> 'A' <= c <= 'Z' && 'a' <= d <= 'z'
    ensures 'A' <= c <= 'Z' ==> d as int == c as int + 32
    ensures !('A' <= d <= 'Z')
    ensures 'a' <= d <= 'z' <==> 'A' <= c <= 'Z' || 'a' <= c <= 'z'
  {
    if 'A' <= c <= 'Z' then (c as int - 'A' as int + 'a' as int) as char else c
  }

  /** `String.toLowerCase()`, char by char, with ASCII case mapping. */
  function Lower(s: string): (r: string)
    ensures |r| == |s|
    ensures forall i :: 0 <= i < |s| ==> r[i] == LowerChar(s[i])
  {
    if s == [] then [] else [LowerChar(s[0])] + Lower(s[1..])
  }

  /** A string without upper-case ASCII letters is its own lower-case form. */
  lemma LowerOfLowerCase(s: string)
    requires forall i :: 0 <= i < |s| ==> !('A' <= s[i] <= 'Z')
    ensures Lower(s) == s
  {
  }

  // ---------------------------------------------------------------------------
  // lastIndexOf
  // ---------------------------------------------------------------------------

  /** `s.lastIndexOf(c)`: the index of the last occurrence of `c` in `s`, or -1 when there is none. */
  function LastIndexOf(s: string, c: char): (r: int)
    ensures -1 <= r < |s|
    ensures r >= 0 ==> s[r] == c
    ensures forall j :: r < j < |s| ==> s[j] != c
  {
    if s == [] then -1
    else if s[|s| - 1] == c then |s| - 1
    else LastIndexOf(s[..|s| - 1], c)
  }

  /** The -1 answer of `lastIndexOf` means exactly "the char does not occur". */
  lemma LastIndexOfAbsent(s: string, c: char)
    ensures LastIndexOf(s, c) < 0 <==> c !in s
  {
  }

  /** An occurrence of `c` with no later one is what `lastIndexOf` finds. */
  lemma LastIndexOfAt(s: string, k: nat, c: char)
    requires k < |s| && s[k] == c && c !in s[k + 1..]
    ensures LastIndexOf(s, c) == k
  {
  }

  // ---------------------------------------------------------------------------
  // String natural order
  // ---------------------------------------------------------------------------

  /**
   * `a.compareTo(b)`: the difference of the first pair of differing chars,
   * or the difference of the lengths when one string is a prefix of the other.
   */
  function CompareTo(a: string, b: string): int
  {
    if a == [] || b == [] then |a| - |b|
    else if a[0] != b[0] then a[0] as int - b[0] as int
    else CompareTo(a[1..], b[1..])
  }

  /** `a.compareTo(b) <= 0`, the order `Stream.sorted()` uses on strings. */
  predicate LessEq(a: string, b: string)
  {
    CompareTo(a, b) <= 0
  }

  lemma {:induction false} CompareToZero(a: string, b: string)
    ensures CompareTo(a, b) == 0 <==> a == b
  {
    if a != [] && b != [] && a[0] == b[0] {
      CompareToZero(a[1..], b[1..]);
      assert a == [a[0]] + a[1..] && b == [b[0]] + b[1..];
    }
  }

  lemma {:induction false} CompareToSwap(a: string, b: string)
    ensures CompareTo(b, a) == -CompareTo(a, b)
  {
    if a != [] && b != [] && a[0] == b[0] {
      CompareToSwap(a[1..], b[1..]);
    }
  }

  lemma LessEqReflexive(a: string)
    ensures LessEq(a, a)
  {
    CompareToZero(a, a);
  }

  lemma LessEqTotal(a: string, b: string)
    ensures LessEq(a, b) || LessEq(b, a)
  {
    CompareToSwap(a, b);
  }

  lemma LessEqAntisymmetric(a: string, b: string)
    requires LessEq(a, b) && LessEq(b, a)
    ensures a == b
  {
    CompareToSwap(a, b);
    CompareToZero(a, b);
  }

  lemma {:induction false} LessEqTransitive(a: string, b: string, c: string)
    requires LessEq(a, b) && LessEq(b, c)
    ensures LessEq(a, c)
  {
    if a != [] && b != [] && c != [] && a[0] == b[0] && b[0] == c[0] {
      LessEqTransitive(a[1..], b[1..], c[1..]);
    }
  }

  /** A proper prefix comes first, as in Java. */
  lemma PrefixFirst(a: string, b: string)
    requires |a| < |b| && a == b[..|a|]
    ensures CompareTo(a, b) < 0
  {
    if a != [] {
      assert a[1..] == b[1..][..|a| - 1];
      PrefixFirst(a[1..], b[1..]);
    }
  }

  // ---------------------------------------------------------------------------
  // String.valueOf(long)
  // ---------------------------------------------------------------------------

  predicate IsDigit(c: char)
  {
    '0' <= c <= '9'
  }

  function DigitChar(d: nat): (c: char)
    requires d < 10
    ensures IsDigit(c)
  {
    ('0' as int + d) as char
  }

  /** The decimal digits of `n`, most significant first, without leading zeros. */
  function Digits(n: nat): (r: string)
    ensures |r| > 0
    ensures forall i :: 0 <= i < |r| ==> IsDigit(r[i])
    ensures r[0] == '0' ==> n == 0
  {
    if n < 10 then [DigitChar(n)] else Digits(n / 10) + [DigitChar(n % 10)]
  }

  /** The number a string of decimal digits denotes: the inverse of `Digits`. */
  function DigitsValue(s: string): nat
  {
    if s == [] then 0
    else DigitsValue(s[..|s| - 1]) * 10 + (if IsDigit(s[|s| - 1]) then s[|s| - 1] as int - '0' as int else 0)
  }

  lemma {:induction false} DigitsRoundTrip(n: nat)
    ensures DigitsValue(Digits(n)) == n
  {
    if n >= 10 {
      DigitsRoundTrip(n / 10);
      var d := Digits(n);
      assert d[..|d| - 1] == Digits(n / 10);
    }
  }

  /** The magnitude of a `long`, as an unbounded natural number. */
  function Magnitude(id: Long): nat
  {
    if id < 0 then -(id as int) else id as int
  }

  /** `String.valueOf(id)`: an optional '-' followed by the decimal digits of the magnitude. */
  function LongToString(id: Long): (r: string)
    ensures r != [] && '/' !in r
  {
    if id < 0 then "-" + Digits(Magnitude(id)) else Digits(Magnitude(id))
  }

  /** Distinct identifiers render as distinct strings, so they name distinct directories and URLs. */
  lemma LongToStringInjective(a: Long, b: Long)
    requires LongToString(a) == LongToString(b)
    ensures a == b
  {
    var da, db := Digits(Magnitude(a)), Digits(Magnitude(b));
    assert (a < 0) == (b < 0) by {
      assert IsDigit(da[0]) && IsDigit(db[0]);
      assert LongToString(a)[0] == (if a < 0 then '-' else da[0]);
      assert LongToString(b)[0] == (if b < 0 then '-' else db[0]);
    }
    if a < 0 {
      assert da == LongToString(a)[1..] == db;
    }
    DigitsRoundTrip(Magnitude(a));
    DigitsRoundTrip(Magnitude(b));
  }
}
