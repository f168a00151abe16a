/**
 * Go's strconv.Atoi as PVZ_get uses it (internal/routes/routes.go), with its
 * error dropped: an optional sign, then decimal digits scanned left to right.
 * The scan stops with a syntax error (result 0) at the first non-digit, or
 * with a range error (result: the int bound on the side of the sign) as soon
 * as the value read so far no longer fits an unsigned 64-bit integer; a
 * value that fits but lies outside Go's int is a range error too, and an
 * empty string or a lone sign is a syntax error.
 */
module Strconv {
  import GoInt

  const MaxUint64: int := 0xffff_ffff_ffff_ffff

  predicate IsDigit(c: char)
  {
    '0' <= c <= '9'
  }

  predicate AllDigits(s: string)
  {
    forall i :: 0 <= i < |s| ==> IsDigit(s[i])
  }

  function DigitValue(c: char): nat
    requires IsDigit(c)
  {
    (c - '0') as int
  }

  /** acc followed by the digits of s, read most significant first. */
  function Horner(s: string, acc: nat): nat
    requires AllDigits(s)
  {
    if |s| == 0 then acc else Horner(s[1..], acc * 10 + DigitValue(s[0]))
  }

  /** The value of a string of decimal digits. */
  function DigitsValue(s: string): nat
    requires AllDigits(s)
  {
    Horner(s, 0)
  }

  /** How ParseUint's digit loop ends. */
  datatype Scan = Value(n: nat) | SyntaxError | RangeError

  /** ParseUint's loop from the value `acc' read so far. */
  function ScanDigits(s: string, acc: nat): Scan
  {
    if |s| == 0 then Value(acc)
    else if !IsDigit(s[0]) then SyntaxError
    else if acc * 10 + DigitValue(s[0]) > MaxUint64 then RangeError
    else ScanDigits(s[1..], acc * 10 + DigitValue(s[0]))
  }

  /** The nearest Int64 to `x'. */
  function Clamp(x: int): (r: GoInt.Int64)
    ensures GoInt.Min <= x <= GoInt.Max ==> r == x
    ensures x > GoInt.Max ==> r == GoInt.Max
    ensures x < GoInt.Min ==> r == GoInt.Min
  {
    if x > GoInt.Max then GoInt.Max else if x < GoInt.Min then GoInt.Min else x
  }

  function HasSign(s: string): bool
  {
    |s| > 0 && (s[0] == '+' || s[0] == '-')
  }

  /** The text after an optional leading sign. */
  function Unsigned(s: string): string
  {
    if HasSign(s) then s[1..] else s
  }

  /** Whether `s' is an optional sign followed by at least one digit. */
  predicate WellFormed(s: string)
  {
    |Unsigned(s)| > 0 && AllDigits(Unsigned(s))
  }

  /** Nothing, or something other than a digit, follows the optional sign. */
  predicate NoLeadingDigit(s: string)
  {
    |Unsigned(s)| == 0 || !IsDigit(Unsigned(s)[0])
  }

  /** strconv.Atoi(s), with its error dropped. */
  function Atoi(s: string): (r: GoInt.Int64)
    ensures NoLeadingDigit(s) ==> r == 0
  {
    var negative := |s| > 0 && s[0] == '-';
    var body := Unsigned(s);
    if |body| == 0 then 0
    else
      match ScanDigits(body, 0)
      case SyntaxError => 0
      case RangeError => if negative then GoInt.Min else GoInt.Max
      case Value(n) => if negative then Clamp(-(n as int)) else Clamp(n)
  }

  lemma {:induction false} HornerGrows(s: string, acc: nat)
    requires AllDigits(s)
    ensures Horner(s, acc) >= acc
    decreases |s|
  {
    if |s| > 0 {
      HornerGrows(s[1..], acc * 10 + DigitValue(s[0]));
    }
  }

  function Pow10(k: nat): (p: nat)
    ensures p >= 1
  {
    if k == 0 then 1 else 10 * Pow10(k - 1)
  }

  lemma {:induction false} Pow10Add(j: nat, k: nat)
    ensures Pow10(j + k) == Pow10(j) * Pow10(k)
    decreases j
  {
    if j > 0 {
      Pow10Add(j - 1, k);
    }
  }

  lemma MulMonotone(a: nat, b: nat, c: nat)
    requires a <= b
    ensures a * c <= b * c
  {
  }

  /**
   * While the value read so far leaves room for |s| more digits below 2^64,
   * the scan cannot overflow, and it reads a value only over digits.
   */
  lemma {:induction false} ScanWithRoom(s: string, acc: nat)
    requires (acc + 1) * Pow10(|s|) <= MaxUint64 + 1
    ensures ScanDigits(s, acc) != RangeError
    ensures ScanDigits(s, acc).Value? ==> AllDigits(s)
    decreases |s|
  {
    if |s| > 0 && IsDigit(s[0]) {
      var next := acc * 10 + DigitValue(s[0]);
      var p := Pow10(|s| - 1);
      assert (acc + 1) * Pow10(|s|) == ((acc + 1) * 10) * p;
      MulMonotone(next + 1, (acc + 1) * 10, p);
      MulMonotone(1, p, next + 1);
      ScanWithRoom(s[1..], next);
      if ScanDigits(s, acc).Value? {
        assert forall i :: 1 <= i < |s| ==> s[i] == s[1..][i - 1];
      }
    }
  }

  lemma {:induction false} PowerBound(k: nat)
    requires k <= 18
    ensures Pow10(k) <= 1_000_000_000_000_000_000
    decreases 18 - k
  {
    if k < 18 {
      PowerBound(k + 1);
    } else {
      assert Pow10(6) == 1_000_000;
      assert Pow10(12) == 1_000_000 * Pow10(6) by { Pow10Add(6, 6); }
      Pow10Add(12, 6);
    }
  }

  /**
   * On the fast path of strings shorter than 19 characters nothing can
   * overflow: a malformed string reads as 0.
   */
  lemma ShortMalformedIsZero(s: string)
    requires |s| < 19 && !WellFormed(s)
    ensures Atoi(s) == 0
  {
    PowerBound(|Unsigned(s)|);
    ScanWithRoom(Unsigned(s), 0);
  }

  /** On digits alone the scan reads the value, or reports overflow when it exceeds 2^64-1. */
  lemma {:induction false} ScanAllDigits(s: string, acc: nat)
    requires AllDigits(s) && acc <= MaxUint64
    ensures ScanDigits(s, acc) == if Horner(s, acc) > MaxUint64 then RangeError else Value(Horner(s, acc))
    decreases |s|
  {
    if |s| > 0 {
      var next := acc * 10 + DigitValue(s[0]);
      if next > MaxUint64 {
        HornerGrows(s[1..], next);
      } else {
        ScanAllDigits(s[1..], next);
      }
    }
  }

  /**
   * A well-formed string reads as its signed value, clamped to Go's int
   * range.
   */
  lemma AtoiWellFormed(s: string)
    requires WellFormed(s)
    ensures Atoi(s) == Clamp(if |s| > 0 && s[0] == '-' then -(DigitsValue(Unsigned(s)) as int) else DigitsValue(Unsigned(s)))
  {
    ScanAllDigits(Unsigned(s), 0);
  }

  /**
   * The scan never looks past an overflow: digits whose value exceeds 2^64-1
   * read as the bound even when junk follows them.
   */
  lemma {:induction false} OverflowBeforeJunk(digits: string, acc: nat, rest: string)
    requires AllDigits(digits) && acc <= MaxUint64 && Horner(digits, acc) > MaxUint64
    ensures ScanDigits(digits + rest, acc) == RangeError
    decreases |digits|
  {
    assert |digits| > 0;
    var next := acc * 10 + DigitValue(digits[0]);
    assert (digits + rest)[0] == digits[0];
    if next <= MaxUint64 {
      assert (digits + rest)[1..] == digits[1..] + rest;
      OverflowBeforeJunk(digits[1..], next, rest);
    }
  }

  /**
   * A non-digit that the scan reaches before the value passes 2^64-1 is a
   * syntax error, whatever follows it.
   */
  lemma {:induction false} ScanReachesJunk(digits: string, acc: nat, tail: string)
    requires AllDigits(digits) && Horner(digits, acc) <= MaxUint64
    requires |tail| > 0 && !IsDigit(tail[0])
    ensures ScanDigits(digits + tail, acc) == SyntaxError
    decreases |digits|
  {
    if |digits| == 0 {
      assert digits + tail == tail;
    } else {
      var next := acc * 10 + DigitValue(digits[0]);
      HornerGrows(digits[1..], next);
      assert (digits + tail)[0] == digits[0];
      assert (digits + tail)[1..] == digits[1..] + tail;
      ScanReachesJunk(digits[1..], next, tail);
    }
  }

  /**
   * Digits that still fit 2^64-1, then a non-digit: the string reads as 0,
   * however long it is and whatever follows.
   */
  lemma JunkBeforeOverflowIsZero(s: string, digits: string, c: char, rest: string)
    requires Unsigned(s) == digits + [c] + rest
    requires AllDigits(digits) && DigitsValue(digits) <= MaxUint64 && !IsDigit(c)
    ensures Atoi(s) == 0
  {
    assert digits + [c] + rest == digits + ([c] + rest);
    ScanReachesJunk(digits, 0, [c] + rest);
  }

  function DigitChar(d: nat): char
    requires d < 10
  {
    ('0' as int + d) as char
  }

  /** The decimal digits of `n', most significant first, without leading zeros. */
  function NatDigits(n: nat): (s: string)
    ensures |s| > 0 && AllDigits(s)
    ensures |s| > 1 ==> s[0] != '0'
  {
    if n < 10 then [DigitChar(n)] else NatDigits(n / 10) + [DigitChar(n % 10)]
  }

  /** strconv.Itoa: the decimal text of `n', with '-' for a negative value. */
  function Itoa(n: int): string
  {
    if n < 0 then "-" + NatDigits(-n) else NatDigits(n)
  }

  /** Appending a digit multiplies the value read so far by ten and adds the digit. */
  lemma {:induction false} HornerAppend(s: string, c: char, acc: nat)
    requires AllDigits(s) && IsDigit(c)
    ensures AllDigits(s + [c])
    ensures Horner(s + [c], acc) == Horner(s, acc) * 10 + DigitValue(c)
    decreases |s|
  {
    if |s| == 0 {
      assert (s + [c])[1..] == [];
    } else {
      assert (s + [c])[1..] == s[1..] + [c];
      HornerAppend(s[1..], c, acc * 10 + DigitValue(s[0]));
    }
  }

  lemma {:induction false} NatDigitsValue(n: nat)
    ensures DigitsValue(NatDigits(n)) == n
    decreases n
  {
    if n >= 10 {
      NatDigitsValue(n / 10);
      HornerAppend(NatDigits(n / 10), DigitChar(n % 10), 0);
    } else {
      var s := NatDigits(n);
      assert s[1..] == [];
      assert DigitValue(s[0]) == n;
      assert Horner(s, 0) == Horner(s[1..], DigitValue(s[0]));
    }
  }

  /** Atoi reads back every Int64 that Itoa writes. */
  lemma AtoiItoa(n: GoInt.Int64)
    ensures Atoi(Itoa(n)) == n
  {
    var m: nat := if n < 0 then -(n as int) else n;
    NatDigitsValue(m);
    assert Unsigned(Itoa(n)) == NatDigits(m);
    AtoiWellFormed(Itoa(n));
  }

  /** The text PVZ_get falls back on reads as the expected numbers. */
  lemma DefaultsRead()
    ensures Atoi("1") == 1 && Atoi("10") == 10
  {
    AtoiItoa(1);
    AtoiItoa(10);
    assert Itoa(1) == "1";
    assert Itoa(10) == "10";
  }
}
