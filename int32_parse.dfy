/**
 * Int32.Parse(string) under NumberStyles.Integer, as the analyzer applies it
 * to the value text of a numeric literal: an optional sign and decimal
 * digits, with FormatException and OverflowException as None.
 */
module Int32Parse {
  import opened Wrappers

  const Int32Min: int := -0x8000_0000
  const Int32Max: int := 0x7fff_ffff

  predicate IsDigit(c: char) {
    '0' <= c <= '9'
  }

  predicate AllDigits(s: string) {
    forall i :: 0 <= i < |s| ==> IsDigit(s[i])
  }

  predicate AllZeros(s: string) {
    forall i :: 0 <= i < |s| ==> s[i] == '0'
  }

  /** The value of a string of decimal digits, most significant first. */
  function DigitsValue(s: string): (v: nat)
    requires AllDigits(s)
    ensures v == 0 <==> AllZeros(s)
  {
    if s == [] then 0
    else
      var prefix := s[..|s| - 1];
      assert AllDigits(prefix);
      var v := DigitsValue(prefix) * 10 + (s[|s| - 1] as int - '0' as int);
      assert AllZeros(s) <==> AllZeros(prefix) && s[|s| - 1] == '0' by {
        assert forall i :: 0 <= i < |prefix| ==> prefix[i] == s[i];
      }
      v
  }

  /** The digits that follow an optional leading sign. */
  function Unsigned(s: string): string {
    if |s| > 0 && (s[0] == '-' || s[0] == '+') then s[1..] else s
  }

  /** Texts that Int32.Parse reads as zero: an optional sign, then one or
      more '0' digits. */
  predicate IsZeroText(s: string) {
    |Unsigned(s)| > 0 && AllZeros(Unsigned(s))
  }

  /**
   * Int32.Parse(s): Some(n) when s is a sign and digits denoting n within
   * the range of Int32; None where Int32.Parse throws.
   */
  function ParseInt32(s: string): (r: Option<int>)
    ensures r.Some? ==> Int32Min <= r.value <= Int32Max
    ensures r == Some(0) <==> IsZeroText(s)
  {
    var digits := Unsigned(s);
    if |digits| == 0 || !AllDigits(digits) then None
    else
      var magnitude: int := DigitsValue(digits);
      var n: int := if |s| > 0 && s[0] == '-' then -magnitude else magnitude;
      if Int32Min <= n <= Int32Max then Some(n) else None
  }
}
