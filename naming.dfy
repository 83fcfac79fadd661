/** The name of a saved PDF: "pdf_" + System.currentTimeMillis() + ".pdf". */
module Naming {

  /** The decimal digit for 0..9. */
  function DigitChar(d: int): (c: char)
    requires 0 <= d < 10
    ensures '0' <= c <= '9' && c as int - '0' as int == d
  {
    ((('0' as int) + d) as char)
  }

  /** The number a string of decimal digits denotes, most significant digit first. */
  function DigitsValue(s: string): nat
    requires forall i :: 0 <= i < |s| ==> '0' <= s[i] <= '9'
  {
    if s == [] then 0 else 10 * DigitsValue(s[..|s| - 1]) + (s[|s| - 1] as int - '0' as int)
  }

  /**
   * Kotlin's decimal rendering of a non-negative Long in a string template:
   * the digits of n, most significant first, with no leading zero.
   */
  function Decimal(n: nat): (s: string)
    ensures 1 <= |s|
    ensures forall i :: 0 <= i < |s| ==> '0' <= s[i] <= '9'
    ensures DigitsValue(s) == n
    ensures n > 0 ==> s[0] != '0'
    ensures n < 10 <==> |s| == 1
  {
    if n < 10 then [DigitChar(n)]
    else
      var s := Decimal(n / 10) + [DigitChar(n % 10)];
      assert s[..|s| - 1] == Decimal(n / 10);
      s
  }

  /** The DISPLAY_NAME of a PDF saved at `timestamp` (milliseconds since the epoch). */
  function FileName(timestamp: nat): (name: string)
    ensures |name| > 8 && name[..4] == "pdf_" && name[|name| - 4..] == ".pdf"
  {
    "pdf_" + Decimal(timestamp) + ".pdf"
  }

  /** Between "pdf_" and ".pdf" a file name holds only digits, and they read back as its timestamp. */
  lemma FileNameEncodesTimestamp(timestamp: nat)
    ensures var name := FileName(timestamp);
      && (forall i :: 4 <= i < |name| - 4 ==> '0' <= name[i] <= '9')
      && DigitsValue(name[4..|name| - 4]) == timestamp
  {
    var name := FileName(timestamp);
    assert name[4..|name| - 4] == Decimal(timestamp);
  }

  /** Saves at different milliseconds get different names; same-millisecond saves collide. */
  lemma FileNameInjective(a: nat, b: nat)
    ensures FileName(a) == FileName(b) <==> a == b
  {
    FileNameEncodesTimestamp(a);
    FileNameEncodesTimestamp(b);
  }
}
