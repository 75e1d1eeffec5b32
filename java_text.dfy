/**
 * The pieces of java.lang.String, Long and Integer that the services rely on:
 * `split` with a one-character separator, `Long.parseLong`/`Integer.parseInt`,
 * decimal `toString`, `startsWith`/`endsWith`, `lastIndexOf`, ASCII
 * `toLowerCase` and `trim`.
 */
module JavaText {
  import opened Wrappers

  const LONG_MIN: int := -0x8000_0000_0000_0000
  const LONG_MAX: int := 0x7FFF_FFFF_FFFF_FFFF
  const INT_MIN: int := -0x8000_0000
  const INT_MAX: int := 0x7FFF_FFFF

  type Int32 = x: int | INT_MIN <= x <= INT_MAX
  type Int64 = x: int | LONG_MIN <= x <= LONG_MAX

  /**
   * The narrowing cast `(int) x` of a `long`: the low 32 bits read as a
   * two's-complement `int`. Values in the `int` range are kept; any other
   * value changes by a multiple of 2^32.
   */
  function ToInt32(x: int): (r: Int32)
    ensures INT_MIN <= x <= INT_MAX ==> r == x
    ensures (x - r) % 0x1_0000_0000 == 0
  {
    var low := x % 0x1_0000_0000;
    if low > INT_MAX then low - 0x1_0000_0000 else low
  }

  // ---------------------------------------------------------------- digits

  predicate IsDigit(c: char) { '0' <= c <= '9' }

  predicate AllDigits(s: string) { forall i :: 0 <= i < |s| ==> IsDigit(s[i]) }

  function DigitChar(d: nat): (c: char)
    requires d < 10
    ensures IsDigit(c) && c as int - '0' as int == d
  {
    ('0' as int + d) as char
  }

  /** The value of a string of decimal digits, most significant first. */
  function DigitsValue(s: string): nat
    requires AllDigits(s)
  {
    if |s| == 0 then 0
    else
      assert IsDigit(s[|s| - 1]);
      10 * DigitsValue(s[..|s| - 1]) + (s[|s| - 1] as int - '0' as int)
  }

  /** `Long.toString` of a non-negative value: no sign, no leading zeros. */
  function NatToString(n: nat): (s: string)
    ensures |s| > 0 && AllDigits(s)
    ensures n > 0 ==> s[0] != '0'
  {
    if n < 10 then [DigitChar(n)] else NatToString(n / 10) + [DigitChar(n % 10)]
  }

  /** `Long.toString` / `Integer.toString` / string concatenation of a number. */
  function IntToString(n: int): string
  {
    if n < 0 then "-" + NatToString(-n) else NatToString(n)
  }

  /**
   * `Long.parseLong(s)` (lo, hi = the long range) and `Integer.parseInt(s)`
   * (the int range): an optional '+' or '-', then one or more ASCII digits,
   * whose value must lie in [lo, hi]; anything else is a NumberFormatException.
   */
  function ParseSigned(s: string, lo: int, hi: int): (r: Option<int>)
    ensures r.Some? ==> lo <= r.value <= hi
    ensures r.Some? ==> |s| > 0 && (IsDigit(s[0]) || s[0] == '-' || s[0] == '+')
  {
    if |s| == 0 then None
    else
      var signed := s[0] == '-' || s[0] == '+';
      var digits := if signed then s[1..] else s;
      if |digits| == 0 || !AllDigits(digits) then None
      else
        var v: int := if s[0] == '-' then -(DigitsValue(digits) as int) else DigitsValue(digits);
        if lo <= v <= hi then Some(v) else None
  }

  function ParseLong(s: string): Option<int> { ParseSigned(s, LONG_MIN, LONG_MAX) }

  function ParseInt(s: string): Option<int> { ParseSigned(s, INT_MIN, INT_MAX) }

  lemma {:induction false} DigitsValueOfNatToString(n: nat)
    ensures DigitsValue(NatToString(n)) == n
  {
    var s := NatToString(n);
    if n >= 10 {
      DigitsValueOfNatToString(n / 10);
      assert s[..|s| - 1] == NatToString(n / 10);
    }
  }

  /** Parsing a printed number gives the number back (Long and Integer alike). */
  lemma ParseOfToString(n: int, lo: int, hi: int)
    requires lo <= n <= hi
    ensures ParseSigned(IntToString(n), lo, hi) == Some(n)
  {
    if n < 0 {
      DigitsValueOfNatToString(-n);
      assert IntToString(n)[1..] == NatToString(-n);
    } else {
      DigitsValueOfNatToString(n);
    }
  }

  /** Decimal printing is injective, so names built from numbers never collide. */
  lemma IntToStringInjective(a: int, b: int)
    requires IntToString(a) == IntToString(b)
    ensures a == b
  {
    ParseOfToString(a, a, a);
    ParseOfToString(b, b, b);
    assert ParseSigned(IntToString(a), LONG_MIN, LONG_MAX) == ParseSigned(IntToString(b), LONG_MIN, LONG_MAX);
    if a < LONG_MIN || a > LONG_MAX || b < LONG_MIN || b > LONG_MAX {
      var lo := if a < b then a else b;
      var hi := if a < b then b else a;
      ParseOfToString(a, lo, hi);
      ParseOfToString(b, lo, hi);
    } else {
      ParseOfToString(a, LONG_MIN, LONG_MAX);
      ParseOfToString(b, LONG_MIN, LONG_MAX);
    }
  }

  // ---------------------------------------------------------------- split

  /** Every piece between separators, empty ones included: |r| = #separators + 1. */
  function SplitAll(s: string, d: char): (r: seq<string>)
    ensures |r| >= 1
  {
    if |s| == 0 then [""]
    else
      var rest := SplitAll(s[1..], d);
      if s[0] == d then [""] + rest else [[s[0]] + rest[0]] + rest[1..]
  }

  /** Pieces glued back with the separator. */
  function Join(ps: seq<string>, d: char): string
    requires |ps| >= 1
  {
    if |ps| == 1 then ps[0] else ps[0] + [d] + Join(ps[1..], d)
  }

  function DropTrailingEmpty(ps: seq<string>): (r: seq<string>)
    ensures |r| <= |ps| && r == ps[..|r|]
    ensures |r| > 0 ==> r[|r| - 1] != ""
    ensures forall i :: |r| <= i < |ps| ==> ps[i] == ""
  {
    if |ps| == 0 then []
    else if ps[|ps| - 1] == "" then DropTrailingEmpty(ps[..|ps| - 1])
    else ps
  }

  /**
   * Java's `s.split(d)` for a separator that is not a regular-expression
   * meta character: a string without the separator gives itself (so "" gives
   * [""]), otherwise all pieces with the trailing empty ones removed, so
   * "5-".split("-") is ["5"] and "-".split("-") is [].
   */
  function Split(s: string, d: char): seq<string>
  {
    if s == "" then [""] else DropTrailingEmpty(SplitAll(s, d))
  }

  lemma {:induction false} SplitAllNoSeparator(s: string, d: char)
    requires d !in s
    ensures SplitAll(s, d) == [s]
  {
    if |s| > 0 {
      SplitAllNoSeparator(s[1..], d);
      assert [s[0]] + s[1..] == s;
    }
  }

  lemma {:induction false} SplitAllConcat(a: string, d: char, b: string)
    ensures SplitAll(a + [d] + b, d) == SplitAll(a, d) + SplitAll(b, d)
  {
    if |a| == 0 {
      assert a + [d] + b == [d] + b;
      assert ([d] + b)[1..] == b;
    } else {
      assert (a + [d] + b)[1..] == a[1..] + [d] + b;
      SplitAllConcat(a[1..], d, b);
    }
  }

  /** No piece of SplitAll holds the separator, and joining gives the input back. */
  lemma {:induction false} JoinSplitAll(s: string, d: char)
    ensures Join(SplitAll(s, d), d) == s
    ensures forall i :: 0 <= i < |SplitAll(s, d)| ==> d !in SplitAll(s, d)[i]
  {
    if |s| > 0 {
      JoinSplitAll(s[1..], d);
      var rest := SplitAll(s[1..], d);
      if s[0] == d {
        assert SplitAll(s, d) == [""] + rest;
        assert ([""] + rest)[1..] == rest;
        assert s == [d] + s[1..];
      } else {
        var r := SplitAll(s, d);
        assert r == [[s[0]] + rest[0]] + rest[1..];
        if |rest| == 1 {
          assert s == [s[0]] + s[1..];
        } else {
          assert r[1..] == rest[1..];
          assert Join(rest, d) == rest[0] + [d] + Join(rest[1..], d);
          assert s == [s[0]] + s[1..];
        }
        forall i | 0 <= i < |r| ensures d !in r[i] {
          if i > 0 { assert r[i] == rest[i]; }
        }
      }
    }
  }

  /** Conversely, splitting separator-free pieces glued by the separator recovers them. */
  lemma {:induction false} SplitAllJoin(ps: seq<string>, d: char)
    requires |ps| >= 1
    requires forall i :: 0 <= i < |ps| ==> d !in ps[i]
    ensures SplitAll(Join(ps, d), d) == ps
  {
    SplitAllNoSeparator(ps[0], d);
    if |ps| > 1 {
      SplitAllJoin(ps[1..], d);
      SplitAllConcat(ps[0], d, Join(ps[1..], d));
    }
  }

  /** "x-y".split("-") == [x, y] when y is not empty. */
  lemma SplitAroundSeparator(x: string, d: char, y: string)
    requires d !in x && d !in y && y != ""
    ensures Split(x + [d] + y, d) == [x, y]
  {
    SplitAllConcat(x, d, y);
    SplitAllNoSeparator(x, d);
    SplitAllNoSeparator(y, d);
    assert SplitAll(x + [d] + y, d) == [x, y];
  }

  /** "x-".split("-") == [x]: the trailing empty piece is dropped. */
  lemma SplitTrailingSeparator(x: string, d: char)
    requires d !in x && x != ""
    ensures Split(x + [d], d) == [x]
  {
    assert x + [d] + "" == x + [d];
    SplitAllConcat(x, d, "");
    SplitAllNoSeparator(x, d);
    assert SplitAll(x + [d], d) == [x, ""];
    assert DropTrailingEmpty([x, ""]) == DropTrailingEmpty([x]);
  }

  lemma SplitNoSeparator(x: string, d: char)
    requires d !in x
    ensures Split(x, d) == [x]
  {
    if x != "" { SplitAllNoSeparator(x, d); }
  }

  // ---------------------------------------------------------------- misc

  predicate StartsWith(s: string, p: string) { |p| <= |s| && s[..|p|] == p }

  predicate EndsWith(s: string, p: string) { |p| <= |s| && s[|s| - |p|..] == p }

  /** `s.lastIndexOf(c)`, with None for -1. */
  function LastIndexOf(s: string, c: char): (r: Option<nat>)
    ensures r.Some? ==> r.value < |s| && s[r.value] == c && c !in s[r.value + 1..]
    ensures r.None? ==> c !in s
  {
    if |s| == 0 then None
    else if s[|s| - 1] == c then Some(|s| - 1)
    else
      var r := LastIndexOf(s[..|s| - 1], c);
      assert s == s[..|s| - 1] + [s[|s| - 1]];
      r
  }

  function LowerChar(c: char): char
  {
    if 'A' <= c <= 'Z' then (c as int + 32) as char else c
  }

  /** `toLowerCase()`, on ASCII letters only. */
  function ToLower(s: string): (r: string)
    ensures |r| == |s| && forall i :: 0 <= i < |s| ==> r[i] == LowerChar(s[i])
  {
    seq(|s|, i requires 0 <= i < |s| => LowerChar(s[i]))
  }

  lemma ToLowerIdempotent(s: string)
    ensures ToLower(ToLower(s)) == ToLower(s)
  {
  }

  function TrimStart(s: string): (r: string)
    ensures |r| <= |s| && r == s[|s| - |r|..]
    ensures forall i :: 0 <= i < |s| - |r| ==> s[i] <= ' '
    ensures |r| > 0 ==> r[0] > ' '
  {
    if |s| > 0 && s[0] <= ' ' then TrimStart(s[1..]) else s
  }

  function TrimEnd(s: string): (r: string)
    ensures |r| <= |s| && r == s[..|r|]
    ensures forall i :: |r| <= i < |s| ==> s[i] <= ' '
  {
    if |s| > 0 && s[|s| - 1] <= ' ' then TrimEnd(s[..|s| - 1]) else s
  }

  /** `trim()`: drops leading and trailing characters up to U+0020. */
  function Trim(s: string): string { TrimEnd(TrimStart(s)) }

  /** `s.trim().isEmpty()` holds exactly when every character is at most U+0020. */
  lemma TrimEmptyIff(s: string)
    ensures Trim(s) == "" <==> forall i :: 0 <= i < |s| ==> s[i] <= ' '
  {
  }
}
