/** Decimal text as Python's `f"{n:02d}"` writes it for a non-negative
    integer, the "MM:SS" clock text built from two such fields, and a
    reader for both that shows the text loses nothing. */
module Format {
  import opened Wrappers

  predicate IsDigit(c: char) {
    '0' <= c <= '9'
  }

  predicate AllDigits(s: string) {
    forall k :: 0 <= k < |s| ==> IsDigit(s[k])
  }

  function DigitChar(d: nat): (c: char)
    requires d < 10
    ensures IsDigit(c) && c as int - '0' as int == d
  {
    ('0' as int + d) as char
  }

  function DigitValue(c: char): (d: nat)
    requires IsDigit(c)
    ensures d < 10
  {
    c as int - '0' as int
  }

  /** The shortest decimal text of n (Python's `str(n)` for n >= 0). */
  function Digits(n: nat): (s: string)
    ensures |s| >= 1 && AllDigits(s)
    ensures n < 10 <==> |s| == 1
    ensures s[0] == '0' <==> n == 0
    ensures |s| > 1 ==> s[0] != '0'
    decreases n
  {
    if n < 10 then [DigitChar(n)]
    else
      var s := Digits(n / 10) + [DigitChar(n % 10)];
      assert s[0] == Digits(n / 10)[0];
      s
  }

  /** `f"{n:02d}"`: the decimal text of n, with a leading zero when it
      would otherwise be a single digit. */
  function PadTwo(n: nat): (s: string)
    ensures |s| >= 2 && AllDigits(s)
    ensures |s| > 2 ==> s[0] != '0'
  {
    if n < 10 then "0" + Digits(n) else Digits(n)
  }

  /** `f"{m:02d}:{s:02d}"`. */
  function ClockText(m: nat, s: nat): string {
    PadTwo(m) + ":" + PadTwo(s)
  }

  /** The value of a non-empty run of decimal digits (leading zeros allowed). */
  function DigitsValue(s: string): nat
    requires |s| >= 1 && AllDigits(s)
    decreases |s|
  {
    if |s| == 1 then DigitValue(s[0])
    else 10 * DigitsValue(s[..|s| - 1]) + DigitValue(s[|s| - 1])
  }

  function ParseNat(s: string): Option<nat> {
    if |s| >= 1 && AllDigits(s) then Some(DigitsValue(s)) else None
  }

  /** Index of the first ':' in s, if any. */
  function FindColon(s: string): (r: Option<nat>)
    ensures r.Some? ==> r.value < |s| && s[r.value] == ':' &&
                        forall k :: 0 <= k < r.value ==> s[k] != ':'
    ensures r.None? ==> forall k :: 0 <= k < |s| ==> s[k] != ':'
  {
    if |s| == 0 then None
    else if s[0] == ':' then Some(0)
    else match FindColon(s[1..])
      case None => None
      case Some(k) => Some(k + 1)
  }

  /** Reads "MM:SS" text back into its two fields. */
  function ParseClock(s: string): Option<(nat, nat)> {
    match FindColon(s)
    case None => None
    case Some(k) =>
      match (ParseNat(s[..k]), ParseNat(s[k + 1..]))
      case (Some(m), Some(sec)) => Some((m, sec))
      case _ => None
  }

  lemma {:induction false} DigitsRoundTrip(n: nat)
    ensures ParseNat(Digits(n)) == Some(n)
    decreases n
  {
    if n >= 10 {
      DigitsRoundTrip(n / 10);
      var s := Digits(n);
      assert s[..|s| - 1] == Digits(n / 10);
    }
  }

  /** The zero-padded field reads back as the number it was made from. */
  lemma PadTwoRoundTrip(n: nat)
    ensures ParseNat(PadTwo(n)) == Some(n)
  {
    DigitsRoundTrip(n);
    if n < 10 {
      var s := PadTwo(n);
      assert |s| == 2 && s[..1] == "0" && s[1] == DigitChar(n);
      assert DigitsValue(s) == 10 * DigitsValue("0") + DigitValue(s[1]);
    }
  }

  /** The decimal text of a number identifies it: two numbers with the same
      text are equal. */
  lemma DigitsInjective(a: nat, b: nat)
    ensures Digits(a) == Digits(b) <==> a == b
  {
    DigitsRoundTrip(a);
    DigitsRoundTrip(b);
  }

  lemma {:induction false} DigitsLength(n: nat)
    ensures n < 100 <==> |Digits(n)| <= 2
    decreases n
  {
    if n >= 10 {
      DigitsLength(n / 10);
    }
  }

  /** A padded field is exactly two characters long iff the number is below 100. */
  lemma PadTwoLength(n: nat)
    ensures |PadTwo(n)| == 2 <==> n < 100
  {
    DigitsLength(n);
  }

  lemma ColonAt(a: string, b: string)
    requires AllDigits(a)
    ensures FindColon(a + ":" + b) == Some(|a|)
  {
    var r := FindColon(a + ":" + b);
    assert (a + ":" + b)[|a|] == ':';
    assert forall k :: 0 <= k < |a| ==> (a + ":" + b)[k] == a[k];
  }

  /** "MM:SS" text reads back as the two fields it was built from. */
  lemma ClockRoundTrip(m: nat, s: nat)
    ensures ParseClock(ClockText(m, s)) == Some((m, s))
  {
    var a, b := PadTwo(m), PadTwo(s);
    var t := ClockText(m, s);
    ColonAt(a, b);
    assert t[..|a|] == a;
    assert t[|a| + 1..] == b;
    PadTwoRoundTrip(m);
    PadTwoRoundTrip(s);
  }

  /** The clock text has the five characters of "MM:SS" exactly when both
      fields are below 100. */
  lemma ClockLength(m: nat, s: nat)
    ensures |ClockText(m, s)| == 5 <==> m < 100 && s < 100
  {
    PadTwoLength(m);
    PadTwoLength(s);
  }
}
