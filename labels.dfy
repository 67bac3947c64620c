/** The payloads the benchmark producers generate: "Message " followed by the
    decimal rendering of the loop counter, as `std::to_string(i)` and the
    Python f-string `{i}` print a non-negative integer. */
module Labels {

  /** The ASCII digit for a value 0..9. */
  function DigitChar(d: nat): (c: char)
    requires d < 10
    ensures '0' <= c <= '9'
    ensures c as int - '0' as int == d
  {
    ('0' as int + d) as char
  }

  /** The value 0..9 of an ASCII digit. */
  function DigitValue(c: char): (d: nat)
    requires '0' <= c <= '9'
    ensures d < 10
  {
    c as int - '0' as int
  }

  predicate IsDigits(s: string)
  {
    forall k :: 0 <= k < |s| ==> '0' <= s[k] <= '9'
  }

  /** Decimal rendering of `n`: digits only, most significant first, and no
      leading zero except for the single digit "0". */
  function DecimalString(n: nat): (s: string)
    ensures |s| >= 1
    ensures IsDigits(s)
    ensures s[0] == '0' ==> s == "0"
    decreases n
  {
    if n < 10 then [DigitChar(n)] else DecimalString(n / 10) + [DigitChar(n % 10)]
  }

  /** The number a string of digits denotes (the inverse of DecimalString). */
  function DecimalValue(s: string): nat
    requires IsDigits(s)
    decreases |s|
  {
    if |s| == 0 then 0 else DecimalValue(s[..|s| - 1]) * 10 + DigitValue(s[|s| - 1])
  }

  /** Reading back a rendering gives the number that was rendered. */
  lemma {:induction false} DecimalRoundTrip(n: nat)
    ensures DecimalValue(DecimalString(n)) == n
    decreases n
  {
    var s := DecimalString(n);
    if n >= 10 {
      DecimalRoundTrip(n / 10);
      assert s[..|s| - 1] == DecimalString(n / 10);
    }
  }

  /** Any canonical digit string (non-empty, no leading zero unless it is
      "0") is the rendering of the number it denotes. */
  lemma {:induction false} DecimalRoundTripBack(s: string)
    requires |s| >= 1 && IsDigits(s)
    requires s[0] == '0' ==> |s| == 1
    ensures DecimalString(DecimalValue(s)) == s
    decreases |s|
  {
    var init := s[..|s| - 1];
    var v := DecimalValue(s);
    if |s| == 1 {
      assert DecimalValue(init) == 0;
      assert [DigitChar(v)] == s;
    } else {
      DecimalRoundTripBack(init);
      DecimalPositive(init);
      assert v / 10 == DecimalValue(init) && v % 10 == DigitValue(s[|s| - 1]);
      assert s == init + [s[|s| - 1]];
    }
  }

  /** A digit string with a non-zero first digit denotes a positive number. */
  lemma {:induction false} DecimalPositive(s: string)
    requires |s| >= 1 && IsDigits(s) && s[0] != '0'
    ensures DecimalValue(s) >= 1
    decreases |s|
  {
    if |s| > 1 {
      DecimalPositive(s[..|s| - 1]);
    }
  }

  /** Distinct numbers have distinct renderings. */
  lemma DecimalStringInjective(a: nat, b: nat)
    ensures DecimalString(a) == DecimalString(b) <==> a == b
  {
    DecimalRoundTrip(a);
    DecimalRoundTrip(b);
  }

  const MessagePrefix: string := "Message "

  /** The payload the producer sends on iteration `i`. */
  function MessageLabel(i: nat): string
  {
    MessagePrefix + DecimalString(i)
  }

  /** Two iterations send the same payload only if they are the same iteration. */
  lemma MessageLabelInjective(i: nat, j: nat)
    ensures MessageLabel(i) == MessageLabel(j) <==> i == j
  {
    if MessageLabel(i) == MessageLabel(j) {
      assert DecimalString(i) == MessageLabel(i)[|MessagePrefix|..];
      assert DecimalString(j) == MessageLabel(j)[|MessagePrefix|..];
      DecimalStringInjective(i, j);
    }
  }

  /** The payloads of iterations 0 .. n-1, in iteration order. */
  function MessageLabels(n: nat): (r: seq<string>)
    ensures |r| == n
    ensures forall k :: 0 <= k < n ==> r[k] == MessageLabel(k)
  {
    if n == 0 then [] else MessageLabels(n - 1) + [MessageLabel(n - 1)]
  }

  /** The producer never sends the same payload twice. */
  lemma MessageLabelsDistinct(n: nat)
    ensures forall i, j :: 0 <= i < j < n ==> MessageLabels(n)[i] != MessageLabels(n)[j]
  {
    forall i, j | 0 <= i < j < n
      ensures MessageLabels(n)[i] != MessageLabels(n)[j]
    {
      MessageLabelInjective(i, j);
    }
  }
}
