/**
 * The `%zu` conversion used when the editor formats a count into a control
 * string, and the digit reader a terminal uses to get the count back.
 */
module Decimal {
  import opened Types

  const ZERO: byte := '0' as byte

  predicate IsDigit(b: byte) {
    ZERO <= b <= ZERO + 9
  }

  /** The value of a string of decimal digits, most significant first. */
  function Value(ds: seq<byte>): nat
    requires forall i :: 0 <= i < |ds| ==> IsDigit(ds[i])
  {
    if ds == [] then 0
    else
      var last := ds[|ds| - 1];
      assert IsDigit(last);
      10 * Value(ds[..|ds| - 1]) + (last - ZERO) as nat
  }

  /** `%zu`: the shortest decimal rendering of `n`, without sign or padding. */
  function Format(n: nat): (r: seq<byte>)
    ensures 1 <= |r|
    ensures forall i :: 0 <= i < |r| ==> IsDigit(r[i])
    ensures r[0] != ZERO || n == 0
    ensures n < 10 <==> |r| == 1
  {
    if n < 10 then [ZERO + n as byte] else Format(n / 10) + [ZERO + (n % 10) as byte]
  }

  /** Reading the formatted digits back gives the number that was formatted. */
  lemma {:induction false} FormatValue(n: nat)
    ensures Value(Format(n)) == n
  {
    if n >= 10 {
      var ds := Format(n);
      assert ds[..|ds| - 1] == Format(n / 10);
      FormatValue(n / 10);
    }
  }

  /** Number of leading decimal digits of `s`. */
  function DigitRun(s: seq<byte>): (k: nat)
    ensures k <= |s|
    ensures forall i :: 0 <= i < k ==> IsDigit(s[i])
    ensures k < |s| ==> !IsDigit(s[k])
  {
    if s == [] || !IsDigit(s[0]) then 0 else 1 + DigitRun(s[1..])
  }

  /** In `Format(n) + rest`, the digits end exactly where `rest` starts when `rest` does not start with a digit. */
  lemma {:induction false} DigitRunOfFormat(n: nat, rest: seq<byte>)
    requires rest != [] && !IsDigit(rest[0])
    ensures DigitRun(Format(n) + rest) == |Format(n)|
    ensures (Format(n) + rest)[..|Format(n)|] == Format(n)
  {
    DigitRunOfDigits(Format(n), rest);
  }

  lemma {:induction false} DigitRunOfDigits(ds: seq<byte>, rest: seq<byte>)
    requires forall i :: 0 <= i < |ds| ==> IsDigit(ds[i])
    requires rest != [] && !IsDigit(rest[0])
    ensures DigitRun(ds + rest) == |ds|
  {
    if ds != [] {
      assert (ds + rest)[1..] == ds[1..] + rest;
      DigitRunOfDigits(ds[1..], rest);
    } else {
      assert ds + rest == rest;
    }
  }
}
