/**
 * ZIP code text handling: the five-character zero padding applied to every
 * code (Python's str.zfill(5)), the case-insensitive label match used by the
 * region query, and the default-radius rule of the command loop.
 */
module ZipCodes {

  /** Width every ZIP code is padded to. */
  const ZipWidth: nat := 5

  /** The radius, in miles, used when none (or no number) is given. */
  const DefaultRadius: nat := 20

  function Zeros(n: nat): (r: string)
    ensures |r| == n
    ensures forall i :: 0 <= i < n ==> r[i] == '0'
  {
    if n == 0 then [] else ['0'] + Zeros(n - 1)
  }

  predicate IsSign(c: char) { c == '+' || c == '-' }

  /**
   * Python's s.zfill(width): left-pads with '0' up to width; a leading sign
   * stays in front of the padding; a string already that wide is returned
   * unchanged.
   */
  function ZFill(s: string, width: nat): (r: string)
    ensures |r| == if |s| >= width then |s| else width
    ensures |s| >= width ==> r == s
    ensures |s| < width && (|s| == 0 || !IsSign(s[0])) ==> r == Zeros(width - |s|) + s
    ensures |s| < width && |s| > 0 && IsSign(s[0]) ==> r == [s[0]] + Zeros(width - |s|) + s[1..]
  {
    if |s| >= width then s
    else if |s| > 0 && IsSign(s[0]) then [s[0]] + Zeros(width - |s|) + s[1..]
    else Zeros(width - |s|) + s
  }

  /** The normalisation applied to every ZIP code: zfill(5). */
  function Normalize(s: string): (r: string)
    ensures |r| >= ZipWidth
  {
    ZFill(s, ZipWidth)
  }

  /** Normalising twice is normalising once. */
  lemma NormalizeIdempotent(s: string)
    ensures Normalize(Normalize(s)) == Normalize(s)
  {
  }

  /** A four-digit code gains exactly one leading zero. */
  lemma NormalizeFourDigits(s: string)
    requires |s| == 4 && IsDigits(s)
    ensures Normalize(s) == "0" + s
  {
    assert Zeros(1) == "0";
  }

  predicate IsDigit(c: char) { '0' <= c <= '9' }

  predicate IsDigits(s: string) { forall i :: 0 <= i < |s| ==> IsDigit(s[i]) }

  /** The number a string of decimal digits denotes (most significant first). */
  function DigitsValue(s: string): (n: nat)
    requires IsDigits(s)
  {
    if s == [] then 0
    else DigitsValue(s[..|s| - 1]) * 10 + (s[|s| - 1] as int - '0' as int)
  }

  lemma {:induction false} LeadingZeroValue(s: string)
    requires IsDigits(s)
    ensures IsDigits("0" + s) && DigitsValue("0" + s) == DigitsValue(s)
  {
    if s != [] {
      var init := s[..|s| - 1];
      assert ("0" + s)[..|s|] == "0" + init;
      LeadingZeroValue(init);
    }
  }

  lemma {:induction false} ZerosValue(n: nat, s: string)
    requires IsDigits(s)
    ensures IsDigits(Zeros(n) + s) && DigitsValue(Zeros(n) + s) == DigitsValue(s)
  {
    if n == 0 {
      assert Zeros(n) + s == s;
    } else {
      ZerosValue(n - 1, s);
      assert Zeros(n) + s == "0" + (Zeros(n - 1) + s);
      LeadingZeroValue(Zeros(n - 1) + s);
    }
  }

  /**
   * Zero padding never corrupts a numeric code: a digit string stays a digit
   * string of the same value, and the padding can be read back off.
   */
  lemma NormalizeKeepsValue(s: string)
    requires IsDigits(s)
    ensures IsDigits(Normalize(s))
    ensures DigitsValue(Normalize(s)) == DigitsValue(s)
    ensures Normalize(s)[|Normalize(s)| - |s|..] == s
  {
    if |s| < ZipWidth {
      ZerosValue(ZipWidth - |s|, s);
    }
  }

  /** ASCII lower-casing of one character. */
  function LowerChar(c: char): (r: char)
    ensures 'A' <= c <= 'Z' ==> r as int == c as int + 32
    ensures !('A' <= c <= 'Z') ==> r == c
  {
    if 'A' <= c <= 'Z' then (c as int + 32) as char else c
  }

  /** str.lower() restricted to ASCII letters. */
  function ToLower(s: string): (r: string)
    ensures |r| == |s|
    ensures forall i :: 0 <= i < |s| ==> r[i] == LowerChar(s[i])
  {
    seq(|s|, i requires 0 <= i < |s| => LowerChar(s[i]))
  }

  /** Two labels name the same region when they agree after lower-casing. */
  predicate LabelsMatch(name: string, value: string) {
    ToLower(name) == ToLower(value)
  }

  /** Lower-casing is idempotent, and matching is an equivalence. */
  lemma ToLowerIdempotent(s: string)
    ensures ToLower(ToLower(s)) == ToLower(s)
    ensures forall i :: 0 <= i < |s| ==> !('A' <= ToLower(s)[i] <= 'Z')
  {
  }

  lemma LabelsMatchEquivalence(a: string, b: string, c: string)
    ensures LabelsMatch(a, a)
    ensures LabelsMatch(a, b) ==> LabelsMatch(b, a)
    ensures LabelsMatch(a, b) && LabelsMatch(b, c) ==> LabelsMatch(a, c)
  {
  }

  /** Labels that differ only in letter case match. */
  lemma LabelsMatchIgnoresCase()
    ensures LabelsMatch("Reston", "RESTON")
    ensures !LabelsMatch("Reston", "Restons")
  {
    assert ToLower("Reston") == "reston";
    assert ToLower("RESTON") == "reston";
  }

  /**
   * The command loop's radius rule: a non-empty all-digit answer is read as
   * a number, anything else gives the default of 20 miles.
   */
  function ParseRadius(answer: string): (radius: nat)
    ensures |answer| == 0 || !IsDigits(answer) ==> radius == DefaultRadius
  {
    if |answer| > 0 && IsDigits(answer) then DigitsValue(answer) else DefaultRadius
  }

  /** Decimal rendering of a natural number, without leading zeros. */
  function Decimal(n: nat): (s: string)
    ensures |s| > 0 && IsDigits(s)
  {
    if n < 10 then [('0' as int + n) as char]
    else Decimal(n / 10) + [('0' as int + n % 10) as char]
  }

  /** Typing a number back in reads it as that number. */
  lemma {:induction false} ParseRadiusDecimal(n: nat)
    ensures ParseRadius(Decimal(n)) == n
  {
    var s := Decimal(n);
    if n < 10 {
      assert s[..|s| - 1] == [];
    } else {
      ParseRadiusDecimal(n / 10);
      assert s[..|s| - 1] == Decimal(n / 10);
      assert DigitsValue(s) == DigitsValue(Decimal(n / 10)) * 10 + n % 10;
    }
  }
}
