/** Text helpers: the code-point order on strings (the order of Rust's `str`) and decimal digits. */
module Text {

  /** Strict dictionary order, by code point. */
  predicate Less(a: string, b: string)
  {
    b != [] && (a == [] || a[0] < b[0] || (a[0] == b[0] && Less(a[1..], b[1..])))
  }

  predicate AtMost(a: string, b: string)
  {
    a == b || Less(a, b)
  }

  lemma {:induction false} LessIrreflexive(a: string)
    ensures !Less(a, a)
  {
    if a != [] { LessIrreflexive(a[1..]); }
  }

  lemma {:induction false} LessTransitive(a: string, b: string, c: string)
    requires Less(a, b) && Less(b, c)
    ensures Less(a, c)
  {
    if a != [] && a[0] == b[0] == c[0] { LessTransitive(a[1..], b[1..], c[1..]); }
  }

  lemma {:induction false} LessTotal(a: string, b: string)
    ensures Less(a, b) || a == b || Less(b, a)
  {
    if a != [] && b != [] && a[0] == b[0] {
      LessTotal(a[1..], b[1..]);
      assert a == [a[0]] + a[1..] && b == [b[0]] + b[1..];
    }
  }

  /** Two strings with a common prefix compare as their first difference does. */
  lemma {:induction false} LessByFirstDifference(a: string, b: string, p: nat)
    requires p < |a| && p < |b| && a[..p] == b[..p] && a[p] < b[p]
    ensures Less(a, b)
  {
    if p > 0 {
      assert a[0] == a[..p][0] == b[..p][0] == b[0];
      assert a[1..][..p - 1] == a[..p][1..] == b[..p][1..] == b[1..][..p - 1];
      LessByFirstDifference(a[1..], b[1..], p - 1);
    }
  }

  /** Conversely, a strict comparison of equally long strings has a first difference. */
  lemma {:induction false} FirstDifference(a: string, b: string) returns (p: nat)
    requires |a| == |b| && Less(a, b)
    ensures p < |a| && a[..p] == b[..p] && a[p] < b[p]
  {
    if a[0] < b[0] {
      p := 0;
    } else {
      var q := FirstDifference(a[1..], b[1..]);
      p := q + 1;
      assert a[..p] == [a[0]] + a[1..][..q] && b[..p] == [b[0]] + b[1..][..q];
    }
  }

  /** One text is before another when it is cut short, or where they first differ has the smaller character. */
  lemma {:induction false} LessMeans(a: string, b: string)
    ensures Less(a, b) <==>
            (|a| < |b| && a == b[..|a|]) ||
            exists p :: 0 <= p < |a| && p < |b| && a[..p] == b[..p] && a[p] < b[p]
  {
    if a != [] && b != [] {
      LessMeans(a[1..], b[1..]);
      if a[0] == b[0] {
        if p :| 0 <= p < |a| && p < |b| && a[..p] == b[..p] && a[p] < b[p] {
          LessByFirstDifference(a, b, p);
        }
        if p :| 0 <= p < |a| - 1 && p < |b| - 1 && a[1..][..p] == b[1..][..p] && a[1..][p] < b[1..][p] {
          assert a[..p + 1] == [a[0]] + a[1..][..p] && b[..p + 1] == [b[0]] + b[1..][..p];
          assert a[..p + 1] == b[..p + 1] && a[p + 1] < b[p + 1];
        }
        assert a == [a[0]] + a[1..] && (|a| < |b| ==> b[..|a|] == [b[0]] + b[1..][..|a| - 1]);
        assert |a| < |b| && a == b[..|a|] ==> a[1..] == b[1..][..|a| - 1];
      } else if a[0] < b[0] {
        assert a[..0] == b[..0];
      } else {
        forall p | 0 < p < |a| && p < |b| ensures a[..p] != b[..p] { assert a[..p][0] != b[..p][0]; }
        assert |a| < |b| ==> a[0] != b[..|a|][0];
      }
    }
  }

  predicate IsDigit(c: char)
  {
    '0' <= c <= '9'
  }

  predicate AllDigits(s: string)
  {
    forall i :: 0 <= i < |s| ==> IsDigit(s[i])
  }

  function DigitChar(d: int): (c: char)
    requires 0 <= d < 10
    ensures IsDigit(c) && DigitValue(c) == d && c == "0123456789"[d]
  {
    '0' + d as char
  }

  function DigitValue(c: char): (d: int)
    requires IsDigit(c)
    ensures 0 <= d < 10
  {
    c as int - '0' as int
  }

  /** The decimal text of a natural number, without leading zeros. */
  function Decimal(n: nat): (s: string)
    ensures |s| > 0 && AllDigits(s) && Number(s) == n
    ensures s[0] == '0' ==> n == 0
  {
    if n < 10 then [DigitChar(n)]
    else Decimal(n / 10) + [DigitChar(n % 10)]
  }

  /** The value of a digit string, read left to right. */
  function Number(s: string): (n: nat)
    requires AllDigits(s)
  {
    if s == [] then 0 else 10 * Number(s[..|s| - 1]) + DigitValue(s[|s| - 1])
  }
}
