/** Output file names: "pruned-" followed by the batch index written in decimal and zero-padded to
    at least six digits (Python's "{:06d}" on a non-negative integer), then ".gpx". */
module FileNames {
  import opened GpxModel

  const Prefix: string := "pruned-"
  const Suffix: string := ".gpx"
  const Width: nat := 6

  predicate IsDigit(c: char)
  {
    '0' <= c <= '9'
  }

  function DigitChar(d: nat): (c: char)
    requires d < 10
    ensures IsDigit(c)
  {
    ('0' as int + d) as char
  }

  function DigitValue(c: char): nat
    requires IsDigit(c)
  {
    (c as int - '0' as int) as nat
  }

  /** Decimal digits of n, most significant first, without leading zeros ("0" for zero). */
  function Digits(n: nat): (s: string)
    ensures |s| >= 1
    ensures AllDigits(s)
  {
    if n < 10 then [DigitChar(n)] else Digits(n / 10) + [DigitChar(n % 10)]
  }

  function Zeros(k: nat): (s: string)
    ensures |s| == k
    ensures forall i :: 0 <= i < k ==> s[i] == '0'
  {
    if k == 0 then [] else Zeros(k - 1) + ['0']
  }

  /** n in decimal, with zeros in front up to `width` characters: as long as the wider of the
      two, the digits of n at the end, and nothing but zeros before them. */
  function ZeroPad(n: nat, width: nat): (padded: string)
    ensures |padded| == if |Digits(n)| < width then width else |Digits(n)|
    ensures padded[|padded| - |Digits(n)|..] == Digits(n)
    ensures forall k :: 0 <= k < |padded| - |Digits(n)| ==> padded[k] == '0'
  {
    var d := Digits(n);
    (if |d| < width then Zeros(width - |d|) else []) + d
  }

  /** The name of the output file for batch i: at least six digits between the prefix and the
      suffix, and reading the name back gives i. */
  function FileName(i: nat): (name: string)
    ensures |name| >= |Prefix| + Width + |Suffix|
    ensures ParseFileName(name) == Some(i)
  {
    var padded := ZeroPad(i, Width);
    ZeroPadRoundTrip(i, Width);
    var name := Prefix + padded + Suffix;
    assert name[..|Prefix|] == Prefix && name[|name| - |Suffix|..] == Suffix;
    assert name[|Prefix|..|name| - |Suffix|] == padded;
    name
  }

  predicate AllDigits(s: string)
  {
    forall k :: 0 <= k < |s| ==> IsDigit(s[k])
  }

  /** The batch index a file name stands for: the number between the prefix and the suffix, or
      nothing when the name does not have that shape. */
  function ParseFileName(name: string): Option<nat>
  {
    if |name| >= |Prefix| + |Suffix| && name[..|Prefix|] == Prefix && name[|name| - |Suffix|..] == Suffix
       && AllDigits(name[|Prefix|..|name| - |Suffix|])
    then Some(DecimalValue(name[|Prefix|..|name| - |Suffix|]))
    else None
  }

  function Pow10(k: nat): nat
  {
    if k == 0 then 1 else 10 * Pow10(k - 1)
  }

  /** The number a string of decimal digits denotes; leading zeros count for nothing. */
  function DecimalValue(s: string): nat
    requires AllDigits(s)
  {
    if s == [] then 0 else 10 * DecimalValue(s[..|s| - 1]) + DigitValue(s[|s| - 1])
  }

  /** Reading the digits back gives the number. */
  lemma {:induction false} DigitsRoundTrip(n: nat)
    ensures DecimalValue(Digits(n)) == n
  {
    if n >= 10 {
      var d := Digits(n);
      assert d[..|d| - 1] == Digits(n / 10);
      DigitsRoundTrip(n / 10);
    }
  }

  lemma {:induction false} LeadingZerosIgnored(k: nat, s: string)
    requires AllDigits(s)
    ensures AllDigits(Zeros(k) + s)
    ensures DecimalValue(Zeros(k) + s) == DecimalValue(s)
  {
    var z := Zeros(k);
    if s == [] {
      assert z + s == z;
      if k > 0 {
        LeadingZerosIgnored(k - 1, []);
        assert Zeros(k)[..k - 1] == Zeros(k - 1);
        assert Zeros(k - 1) + [] == Zeros(k - 1);
      }
    } else {
      LeadingZerosIgnored(k, s[..|s| - 1]);
      assert (z + s)[..|z + s| - 1] == z + s[..|s| - 1];
    }
  }

  /** The padded form is all digits, at least `width` long, and denotes n. */
  lemma {:induction false} ZeroPadRoundTrip(n: nat, width: nat)
    ensures |ZeroPad(n, width)| >= width
    ensures AllDigits(ZeroPad(n, width))
    ensures DecimalValue(ZeroPad(n, width)) == n
  {
    var d := Digits(n);
    DigitsRoundTrip(n);
    if |d| < width {
      LeadingZerosIgnored(width - |d|, d);
    } else {
      assert ZeroPad(n, width) == d;
    }
  }

  /** Below 10^k a number has at most k digits, and from 10^k on it has more. */
  lemma {:induction false} DigitsLength(n: nat, k: nat)
    requires k >= 1
    ensures |Digits(n)| <= k <==> n < Pow10(k)
  {
    if n >= 10 && k >= 2 {
      DigitsLength(n / 10, k - 1);
    } else if n >= 10 {
      assert |Digits(n)| == |Digits(n / 10)| + 1;
    } else {
      Pow10Positive(k - 1);
    }
  }

  lemma {:induction false} Pow10Positive(k: nat)
    ensures Pow10(k) >= 1
  {
    if k > 0 {
      Pow10Positive(k - 1);
    }
  }

  /** Indices below 10^6 get exactly six digits; larger ones get as many as they need. */
  lemma {:induction false} ZeroPadWidth(n: nat)
    ensures n < Pow10(Width) ==> |ZeroPad(n, Width)| == Width
    ensures n >= Pow10(Width) ==> ZeroPad(n, Width) == Digits(n)
  {
    DigitsLength(n, Width);
  }

  /** Distinct batch indices give distinct file names. */
  lemma {:induction false} FileNameInjective(i: nat, j: nat)
    requires FileName(i) == FileName(j)
    ensures i == j
  {
    assert ParseFileName(FileName(i)) == Some(i);
  }

  /** The batches before i have names other than batch i's. */
  lemma {:induction false} EarlierNamesDiffer(i: nat)
    ensures forall j :: 0 <= j < i ==> FileName(j) != FileName(i)
  {
    forall j | 0 <= j < i
      ensures FileName(j) != FileName(i)
    {
      if FileName(j) == FileName(i) {
        FileNameInjective(j, i);
      }
    }
  }
}
