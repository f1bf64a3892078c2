/**
 * Fixed-width C integers, an Option type and the few C library routines the
 * driver leans on: the `min` macro, `sprintf("%i")` on non-negative values,
 * `atoi` on a digit prefix and `memchr`.
 */
module LibC {

  datatype Option<T> = None | Some(value: T)

  const NUL: char := '\0'
  const CR: char := '\r'
  const LF: char := '\n'

  const U8: nat := 0x100
  const U16: nat := 0x1_0000
  const U32: nat := 0x1_0000_0000

  type u8 = x: int | 0 <= x < 0x100
  type u16 = x: int | 0 <= x < 0x1_0000
  type u32 = x: int | 0 <= x < 0x1_0000_0000

  /** The `min(a, b)` macro: `((a) < (b)) ? (a) : (b)`. */
  function Min(a: int, b: int): (m: int)
    ensures m <= a && m <= b
    ensures m == a || m == b
  {
    if a < b then a else b
  }

  predicate IsDigit(c: char) {
    '0' <= c <= '9'
  }

  function DigitChar(d: nat): (c: char)
    requires d < 10
    ensures IsDigit(c)
  {
    ('0' as int + d) as char
  }

  function DigitValue(c: char): (d: nat)
    requires IsDigit(c)
    ensures d < 10
  {
    c as int - '0' as int
  }

  function Pow10(k: nat): (p: nat)
    ensures p >= 1
  {
    if k == 0 then 1 else 10 * Pow10(k - 1)
  }

  /** The text `sprintf("%i", n)` produces for a non-negative `n`. */
  function Decimal(n: nat): (s: string)
    ensures |s| >= 1
    ensures forall i :: 0 <= i < |s| ==> IsDigit(s[i])
  {
    if n < 10 then [DigitChar(n)] else Decimal(n / 10) + [DigitChar(n % 10)]
  }

  /** The value of a string of decimal digits, most significant first. */
  function DigitsValue(d: string): nat
    requires forall i :: 0 <= i < |d| ==> IsDigit(d[i])
  {
    if |d| == 0 then 0 else 10 * DigitsValue(d[..|d| - 1]) + DigitValue(d[|d| - 1])
  }

  /** The number of decimal digits at the start of `s`. */
  function LeadingDigits(s: string): (k: nat)
    ensures k <= |s|
    ensures forall i :: 0 <= i < k ==> IsDigit(s[i])
    ensures k < |s| ==> !IsDigit(s[k])
  {
    if |s| == 0 || !IsDigit(s[0]) then 0 else 1 + LeadingDigits(s[1..])
  }

  /**
   * `atoi` restricted to what the driver feeds it: the decimal digits at
   * the start are accumulated one by one, most significant first, and the
   * first non-digit ends the number (0 when there is no digit).
   */
  function Atoi(s: string): nat {
    AtoiFrom(s, 0)
  }

  /** The accumulation loop of `atoi`, with the value read so far in `acc`. */
  function AtoiFrom(s: string, acc: nat): nat
    decreases |s|
  {
    if |s| == 0 || !IsDigit(s[0]) then acc else AtoiFrom(s[1..], 10 * acc + DigitValue(s[0]))
  }

  /** `memchr(&s[from], c, count)`: the first index in `[from, from + count)` holding `c`. */
  function FindChar(s: seq<char>, from: nat, count: nat, c: char): (r: Option<nat>)
    requires from + count <= |s|
    decreases count
    ensures r.Some? ==> from <= r.value < from + count && s[r.value] == c
    ensures r.Some? ==> forall j :: from <= j < r.value ==> s[j] != c
    ensures r.None? ==> forall j :: from <= j < from + count ==> s[j] != c
  {
    if count == 0 then None
    else if s[from] == c then Some(from)
    else FindChar(s, from + 1, count - 1, c)
  }

  lemma {:induction false} DecimalValue(n: nat)
    ensures DigitsValue(Decimal(n)) == n
  {
    if n >= 10 {
      var s := Decimal(n);
      DecimalValue(n / 10);
      assert s[..|s| - 1] == Decimal(n / 10);
    }
  }

  /** The number of characters `sprintf("%i", n)` writes is at most k when n < 10^k. */
  lemma {:induction false} DecimalLength(n: nat, k: nat)
    requires 1 <= k && n < Pow10(k)
    ensures |Decimal(n)| <= k
  {
    if n >= 10 {
      assert k >= 2 && Pow10(k) == 10 * Pow10(k - 1);
      assert n / 10 < Pow10(k - 1);
      DecimalLength(n / 10, k - 1);
    }
  }

  /** Reading a run of digits leaves their value in the accumulator for what follows. */
  lemma {:induction false} AtoiOfDigits(d: string, rest: string)
    requires forall i :: 0 <= i < |d| ==> IsDigit(d[i])
    ensures AtoiFrom(d + rest, 0) == AtoiFrom(rest, DigitsValue(d))
    decreases |d|
  {
    if |d| > 0 {
      var front, last := d[..|d| - 1], d[|d| - 1];
      assert d + rest == front + ([last] + rest);
      AtoiOfDigits(front, [last] + rest);
      assert ([last] + rest)[1..] == rest;
    } else {
      assert d + rest == rest;
    }
  }

  /** `atoi` is the value of the leading run of decimal digits. */
  lemma AtoiIsLeadingValue(s: string)
    ensures Atoi(s) == DigitsValue(s[..LeadingDigits(s)])
  {
    var k := LeadingDigits(s);
    assert s == s[..k] + s[k..];
    AtoiOfDigits(s[..k], s[k..]);
  }

  /** `atoi` reads back what `sprintf("%i")` wrote, whatever non-digit follows. */
  lemma AtoiDecimal(n: nat, rest: string)
    requires |rest| == 0 || !IsDigit(rest[0])
    ensures Atoi(Decimal(n) + rest) == n
  {
    AtoiOfDigits(Decimal(n), rest);
    DecimalValue(n);
  }
}
