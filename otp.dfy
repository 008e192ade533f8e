/**
 * `generate_otp` (src/utils/generate_otp.py): a string of `length` decimal
 * digits, one per call of `random.randint(0, 9)`. The random draws are an
 * input of the model.
 */
module OtpGenerator {

  /** One value of `random.randint(0, 9)`. */
  type Digit = d: int | 0 <= d <= 9

  /** The default length, hence the "6-digit OTP" the service sends. */
  const DefaultOtpLength: nat := 6

  predicate IsDecimalDigit(c: char) {
    '0' <= c <= '9'
  }

  predicate IsDigitString(s: string) {
    forall i :: 0 <= i < |s| ==> IsDecimalDigit(s[i])
  }

  /** `str(d)` for a single digit. */
  function DigitChar(d: Digit): (c: char)
    ensures IsDecimalDigit(c)
  {
    ('0' as int + d) as char
  }

  /** The value of a decimal digit character: the inverse of `DigitChar`. */
  function DigitOf(c: char): (d: Digit)
    requires IsDecimalDigit(c)
    ensures DigitChar(d) == c
  {
    c as int - '0' as int
  }

  /** How many draws `range(length)` asks for: none for a negative length. */
  function DrawCount(length: int): nat {
    if length < 0 then 0 else length
  }

  /**
   * `"".join([str(random.randint(0, 9)) for _ in range(length)])`, where
   * `draws[i]` is the i-th value `randint` returned.
   */
  function GenerateOtp(length: int, draws: seq<Digit>): (otp: string)
    requires |draws| == DrawCount(length)
    ensures |otp| == DrawCount(length)
    ensures IsDigitString(otp)
    ensures forall i :: 0 <= i < |otp| ==> DigitOf(otp[i]) == draws[i]
  {
    seq(|draws|, i requires 0 <= i < |draws| => DigitChar(draws[i]))
  }

  /** Different draws give different codes: the code carries every draw. */
  lemma GenerateOtpInjective(length: int, draws1: seq<Digit>, draws2: seq<Digit>)
    requires |draws1| == DrawCount(length) && |draws2| == DrawCount(length)
    requires GenerateOtp(length, draws1) == GenerateOtp(length, draws2)
    ensures draws1 == draws2
  {
    var otp := GenerateOtp(length, draws1);
    forall i | 0 <= i < |draws1| ensures draws1[i] == draws2[i] {
      assert DigitOf(otp[i]) == draws1[i];
    }
  }

  /** Every digit string of the requested length is produced by exactly the draws it spells. */
  lemma GenerateOtpSurjective(otp: string)
    requires IsDigitString(otp)
    ensures var draws := seq(|otp|, i requires 0 <= i < |otp| => DigitOf(otp[i]));
      GenerateOtp(|otp|, draws) == otp
  {
  }

  /** With the default length the code is six digits long; a length of zero gives the empty code. */
  lemma DefaultAndEmptyLengths(draws: seq<Digit>)
    requires |draws| == DefaultOtpLength
    ensures |GenerateOtp(DefaultOtpLength, draws)| == 6
    ensures forall length: int :: length <= 0 ==> GenerateOtp(length, []) == ""
  {
  }
}
