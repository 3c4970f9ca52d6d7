/**
 * Text helpers standing for the few Python string operations the scraper and
 * the read API use: `str(int)`, `'%0Nd'` zero padding, `s.startswith(p)`,
 * `s.split(sep)[-1]` and `s.split(c)[0]`.
 */
module Strings {

  function Min(a: int, b: int): int { if a <= b then a else b }

  function Max(a: int, b: int): int { if a >= b then a else b }

  function DigitChar(d: int): (c: char)
    requires 0 <= d <= 9
    ensures '0' <= c <= '9'
  {
    "0123456789"[d]
  }

  predicate IsDigits(s: string) {
    forall i :: 0 <= i < |s| ==> '0' <= s[i] <= '9'
  }

  /** Decimal digits of a natural number without leading zeros (`str(n)`). */
  function NatToDecimal(n: nat): (s: string)
    ensures 1 <= |s| && IsDigits(s)
    ensures n < 10 <==> |s| == 1
    decreases n
  {
    if n < 10 then [DigitChar(n)] else NatToDecimal(n / 10) + [DigitChar(n % 10)]
  }

  function Pow10(k: nat): (p: nat)
    ensures p >= 1
  {
    if k == 0 then 1 else 10 * Pow10(k - 1)
  }

  /** A number below `10^k` needs at most `k` digits. */
  lemma {:induction false} DecimalWidth(n: nat, k: nat)
    requires 1 <= k && n < Pow10(k)
    ensures |NatToDecimal(n)| <= k
  {
    if n >= 10 {
      assert k >= 2;
      DecimalWidth(n / 10, k - 1);
    }
  }

  /** `str(n)` reads back: equal digit strings come from equal numbers. */
  lemma {:induction false} NatToDecimalInjective(a: nat, b: nat)
    ensures NatToDecimal(a) == NatToDecimal(b) ==> a == b
    decreases a
  {
    var sa, sb := NatToDecimal(a), NatToDecimal(b);
    if sa == sb && a >= 10 && b >= 10 {
      assert sa[..|sa| - 1] == NatToDecimal(a / 10);
      assert sb[..|sb| - 1] == NatToDecimal(b / 10);
      NatToDecimalInjective(a / 10, b / 10);
      DigitCharInjective(a % 10, b % 10);
    } else if sa == sb && a < 10 && b < 10 {
      DigitCharInjective(a, b);
    }
  }

  lemma DigitCharInjective(a: int, b: int)
    requires 0 <= a <= 9 && 0 <= b <= 9
    ensures DigitChar(a) == DigitChar(b) ==> a == b
  {
  }

  /** Python's `str(n)` for an integer of either sign. */
  function IntToDecimal(n: int): (s: string)
    ensures n >= 0 ==> s == NatToDecimal(n)
    ensures n < 0 ==> s == "-" + NatToDecimal(-n)
  {
    if n < 0 then "-" + NatToDecimal(-n) else NatToDecimal(n)
  }

  /** `str(n)` starts with a minus sign exactly for negative `n`. */
  lemma SignLeads(n: int)
    ensures |IntToDecimal(n)| >= 1
    ensures IntToDecimal(n)[0] == '-' <==> n < 0
  {
    if n >= 0 {
      assert IsDigits(NatToDecimal(n));
    }
  }

  /** `str(n)` reads back for integers of either sign. */
  lemma IntToDecimalInjective(a: int, b: int)
    ensures IntToDecimal(a) == IntToDecimal(b) ==> a == b
  {
    var sa, sb := IntToDecimal(a), IntToDecimal(b);
    SignLeads(a);
    SignLeads(b);
    if sa == sb {
      if a >= 0 && b >= 0 {
        NatToDecimalInjective(a, b);
      } else if a < 0 && b < 0 {
        assert sa[1..] == NatToDecimal(-a) && sb[1..] == NatToDecimal(-b);
        NatToDecimalInjective(-a, -b);
      }
    }
  }

  function Zeros(k: nat): (s: string)
    ensures |s| == k && IsDigits(s)
  {
    if k == 0 then "" else "0" + Zeros(k - 1)
  }

  /** `'%0*d' % (width, n)`: at least `width` digits, padded with zeros on the left. */
  function ZeroPad(n: nat, width: nat): (s: string)
    ensures IsDigits(s)
    ensures |s| == if |NatToDecimal(n)| >= width then |NatToDecimal(n)| else width
  {
    var digits := NatToDecimal(n);
    if |digits| >= width then digits else Zeros(width - |digits|) + digits
  }

  predicate StartsWith(s: string, prefix: string) {
    |prefix| <= |s| && s[..|prefix|] == prefix
  }

  /** `sep` occurs in `s` starting at index `i`. */
  predicate OccursAt(s: string, sep: string, i: nat) {
    i + |sep| <= |s| && s[i..i + |sep|] == sep
  }

  /** An occurrence of `sep` ends just before index `e`. */
  predicate SeparatorEndsAt(s: string, sep: string, e: nat) {
    |sep| <= e && OccursAt(s, sep, e - |sep|)
  }

  /**
   * Python's scan for `s.split(sep)`: the current piece starts at `start` and
   * the search for the next separator is at `i`. Returns where the last piece
   * starts.
   */
  function PieceStart(s: string, sep: string, start: nat, i: nat): (p: nat)
    requires |sep| > 0 && start <= i <= |s|
    requires forall j :: start <= j < i ==> !OccursAt(s, sep, j)
    requires start == 0 || SeparatorEndsAt(s, sep, start)
    ensures start <= p <= |s|
    ensures forall j :: p <= j ==> !OccursAt(s, sep, j)
    ensures p == 0 || SeparatorEndsAt(s, sep, p)
    decreases |s| - i
  {
    if i + |sep| > |s| then start
    else if OccursAt(s, sep, i) then
      assert SeparatorEndsAt(s, sep, i + |sep|) by {
        assert i + |sep| - |sep| == i;
      }
      PieceStart(s, sep, i + |sep|, i + |sep|)
    else PieceStart(s, sep, start, i + 1)
  }

  /**
   * `s.split(sep)[-1]`: what follows the last separator found by Python's
   * left-to-right scan, or the whole string when there is none.
   */
  function LastPiece(s: string, sep: string): (r: string)
    requires |sep| > 0
    ensures |r| <= |s| && s[|s| - |r|..] == r
    ensures forall j :: |s| - |r| <= j ==> !OccursAt(s, sep, j)
    ensures |r| == |s| || (|r| + |sep| <= |s| && OccursAt(s, sep, |s| - |r| - |sep|))
  {
    s[PieceStart(s, sep, 0, 0)..]
  }

  /** `s.split(c)[0]`: the text before the first `c`, or all of `s`. */
  function FirstPiece(s: string, c: char): (r: string)
    ensures StartsWith(s, r)
    ensures c !in r
    ensures |r| == |s| || s[|r|] == c
  {
    if |s| == 0 || s[0] == c then "" else [s[0]] + FirstPiece(s[1..], c)
  }

  /** A piece that contains no `c` survives `split(c)[0]` whatever follows the `c`. */
  lemma FirstPieceOfSeparated(head: string, c: char, tail: string)
    requires c !in head
    ensures FirstPiece(head + [c] + tail, c) == head
  {
    var s := head + [c] + tail;
    assert s[|head|] == c;
  }
}
