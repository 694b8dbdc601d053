/**
 * The parts of C# and .NET semantics the model relies on: 32-bit integer
 * arithmetic, truncating division and casts, decimal rendering of integers,
 * `char.IsWhiteSpace` and `String.Trim`.
 */
module DotNet {

  /** The range of C#'s `int`. */
  type Int32 = x: int | -0x8000_0000 <= x < 0x8000_0000

  /** Unchecked C# `int` arithmetic wraps around modulo 2^32. */
  function Wrap32(x: int): (r: Int32)
    ensures -0x8000_0000 <= x < 0x8000_0000 ==> r == x
    ensures (x - r) % 0x1_0000_0000 == 0
  {
    (x + 0x8000_0000) % 0x1_0000_0000 - 0x8000_0000
  }

  /** C#'s `/` on integers, which truncates toward zero (Dafny's `/` is Euclidean). */
  function TruncDiv(a: int, b: int): int
    requires b > 0
  {
    if a >= 0 then a / b else -((-a) / b)
  }

  /** C#'s `%` on integers: the remainder takes the sign of the dividend. */
  function TruncRem(a: int, b: int): (r: int)
    requires b > 0
    ensures a >= 0 ==> r == a % b
    ensures a < 0 ==> -b < r <= 0
    ensures r == 0 <==> a % b == 0
    ensures (a - r) % b == 0
  {
    NegativeRemZero(a, b);
    RemOfMultiplePlus(b, TruncDiv(a, b), 0);
    a - b * TruncDiv(a, b)
  }

  /** Euclidean remainder is unique: `b * k + r` leaves `r` for any `0 <= r < b`. */
  lemma RemOfMultiplePlus(b: int, k: int, r: int)
    requires b > 0 && 0 <= r < b
    ensures (b * k + r) % b == r
  {
    var a := b * k + r;
    var m := k - a / b;
    assert b * m == a % b - r;
    MulSign(b, m);
  }

  /** A positive `b` times a non-zero `m` is at least `b` away from zero. */
  lemma MulSign(b: int, m: int)
    requires b > 0
    ensures m >= 1 ==> b * m >= b
    ensures m <= -1 ==> b * m <= -b
  {
    if m >= 1 {
      assert b * m == b + b * (m - 1);
    } else if m <= -1 {
      assert b * m == -b - b * (-m - 1);
    }
  }

  /** A negative dividend leaves a truncated remainder of zero exactly when it is a multiple of `b`. */
  lemma NegativeRemZero(a: int, b: int)
    requires b > 0
    ensures a < 0 ==> (a + b * ((-a) / b) == 0 <==> a % b == 0)
  {
    if a < 0 {
      var q := (-a) / b;
      var r := (-a) % b;
      assert -a == b * q + r;
      if r == 0 {
        RemOfMultiplePlus(b, -q, 0);
        assert a == b * (-q) + 0;
      } else {
        RemOfMultiplePlus(b, -q - 1, b - r);
        assert a == b * (-q - 1) + (b - r);
      }
    }
  }

  /** The `(int)` cast of a `double`, which truncates toward zero. */
  function TruncToInt(x: real): int
  {
    if x >= 0.0 then x.Floor else -((-x).Floor)
  }

  /** The decimal digit for 0 <= d < 10. */
  function DigitChar(d: int): (c: char)
    requires 0 <= d < 10
    ensures '0' <= c <= '9'
  {
    (('0' as int) + d) as char
  }

  /** `ToString()` of a non-negative integer: its decimal digits, most significant first. */
  function NatToString(n: nat): (s: string)
    ensures |s| > 0
    ensures forall i :: 0 <= i < |s| ==> '0' <= s[i] <= '9'
    ensures n > 0 ==> s[0] != '0'
  {
    if n < 10 then [DigitChar(n)] else NatToString(n / 10) + [DigitChar(n % 10)]
  }

  /** The number a string of decimal digits denotes, most significant first (`int.Parse`). */
  function DigitsValue(s: string): (v: nat)
    requires forall i :: 0 <= i < |s| ==> '0' <= s[i] <= '9'
  {
    if s == [] then 0 else DigitsValue(s[..|s| - 1]) * 10 + (s[|s| - 1] as int - '0' as int)
  }

  /** Reading the digits of `NatToString(n)` back gives `n`. */
  lemma {:induction false} NatToStringValue(n: nat)
    ensures DigitsValue(NatToString(n)) == n
  {
    if n >= 10 {
      NatToStringValue(n / 10);
      var s := NatToString(n);
      assert s[..|s| - 1] == NatToString(n / 10);
    }
  }

  /** `ToString()` of an integer, with a leading '-' for negative values. */
  function IntToString(x: int): string
  {
    if x < 0 then "-" + NatToString(-x) else NatToString(x)
  }

  /**
   * `char.IsWhiteSpace`: the Unicode space, line and paragraph separators,
   * the controls U+0009 to U+000D, and U+0085.
   */
  predicate IsWhiteSpace(c: char)
  {
    || c == ' '
    || ('\t' <= c <= '\r')
    || c == '\U{85}'
    || c == '\U{A0}'
    || c == '\U{1680}'
    || ('\U{2000}' <= c <= '\U{200A}')
    || c == '\U{2028}'
    || c == '\U{2029}'
    || c == '\U{202F}'
    || c == '\U{205F}'
    || c == '\U{3000}'
  }

  /** `String.TrimStart()`: drops the leading white space. */
  function TrimStart(s: string): (r: string)
    ensures |r| <= |s| && r == s[|s| - |r|..]
    ensures forall i :: 0 <= i < |s| - |r| ==> IsWhiteSpace(s[i])
    ensures r == [] || !IsWhiteSpace(r[0])
  {
    if s != [] && IsWhiteSpace(s[0]) then TrimStart(s[1..]) else s
  }

  /** `String.TrimEnd()`: drops the trailing white space. */
  function TrimEnd(s: string): (r: string)
    ensures |r| <= |s| && r == s[..|r|]
    ensures forall i :: |r| <= i < |s| ==> IsWhiteSpace(s[i])
    ensures r == [] || !IsWhiteSpace(r[|r| - 1])
  {
    if s != [] && IsWhiteSpace(s[|s| - 1]) then TrimEnd(s[..|s| - 1]) else s
  }

  /**
   * `String.Trim()`: the longest slice of `s` that neither starts nor ends
   * with white space; every character cut off is white space, and the result
   * is empty exactly when `s` is all white space.
   */
  function Trim(s: string): (r: string)
    ensures |r| <= |TrimStart(s)| <= |s|
    ensures var start := |s| - |TrimStart(s)|; r == s[start..start + |r|]
    ensures var start := |s| - |TrimStart(s)|; forall i :: 0 <= i < start ==> IsWhiteSpace(s[i])
    ensures var start := |s| - |TrimStart(s)|; forall i :: start + |r| <= i < |s| ==> IsWhiteSpace(s[i])
    ensures r == [] || (!IsWhiteSpace(r[0]) && !IsWhiteSpace(r[|r| - 1]))
    ensures r == [] <==> forall i :: 0 <= i < |s| ==> IsWhiteSpace(s[i])
  {
    TrimEnd(TrimStart(s))
  }

  /** Trimming twice is trimming once. */
  lemma TrimIdempotent(s: string)
    ensures Trim(Trim(s)) == Trim(s)
  {
    var t := Trim(s);
    if t != [] {
      assert TrimStart(t) == t;
      assert TrimEnd(t) == t;
    }
  }
}
