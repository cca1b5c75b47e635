/**
 * The error codes a BayBisConnectorException carries, and the decimal
 * rendering Java uses when it builds "HTTP_ERR_" + statusCode.
 */
module Decimal {

  predicate IsDigit(c: char) { '0' <= c <= '9' }

  function DigitChar(d: nat): (c: char)
    requires d < 10
    ensures IsDigit(c)
  {
    ('0' as int + d) as char
  }

  function DigitValue(c: char): (d: nat)
    requires IsDigit(c)
    ensures d < 10
  {
    c as int - '0' as int
  }

  /** Integer.toString for a non-negative value: no leading zeros, "0" for zero. */
  function NatToString(n: nat): (s: string)
    ensures |s| > 0 && forall i :: 0 <= i < |s| ==> IsDigit(s[i])
    ensures |s| > 1 ==> s[0] != '0'
  {
    if n < 10 then [DigitChar(n)] else NatToString(n / 10) + [DigitChar(n % 10)]
  }

  /** Integer.toString for any int: a leading '-' for negative values. */
  function IntToString(i: int): string
  {
    if i < 0 then "-" + NatToString(-i) else NatToString(i)
  }

  /** The value of a string of decimal digits, most significant first. */
  function DigitsValue(s: string): nat
    requires forall i :: 0 <= i < |s| ==> IsDigit(s[i])
  {
    if s == [] then 0 else DigitsValue(s[..|s| - 1]) * 10 + DigitValue(s[|s| - 1])
  }

  /** Reading back a rendered int: the inverse of IntToString. */
  function ParseInt(s: string): int
    requires |s| > 0
    requires s[0] == '-' ==> forall i :: 1 <= i < |s| ==> IsDigit(s[i])
    requires s[0] != '-' ==> forall i :: 0 <= i < |s| ==> IsDigit(s[i])
  {
    if s[0] == '-' then -(DigitsValue(s[1..]) as int) else DigitsValue(s)
  }

  lemma {:induction false} NatRoundTrip(n: nat)
    ensures DigitsValue(NatToString(n)) == n
  {
    if n >= 10 {
      NatRoundTrip(n / 10);
      var s := NatToString(n);
      assert s[..|s| - 1] == NatToString(n / 10);
    }
  }

  lemma IntRoundTrip(i: int)
    ensures ParseInt(IntToString(i)) == i
  {
    if i < 0 {
      NatRoundTrip(-i);
      assert IntToString(i)[1..] == NatToString(-i);
    } else {
      NatRoundTrip(i);
    }
  }

  /** Different ints render differently. */
  lemma IntToStringInjective(a: int, b: int)
    ensures IntToString(a) == IntToString(b) ==> a == b
  {
    IntRoundTrip(a);
    IntRoundTrip(b);
  }
}

module Errors {
  import Decimal

  /**
   * The failure outcomes of the connector, one variant per error code
   * (the configuration and input checks of the plugin wrapper are not modelled).
   */
  datatype ConnectorError =
    | HttpError(status: int)
    | SoapFault
    | InvalidResponse
    | Interrupted
    | InternalError
    | ParseError
  {
    /** The machine-readable code stored in BayBisConnectorException. */
    function Code(): string
    {
      match this
      case HttpError(status) => "HTTP_ERR_" + Decimal.IntToString(status)
      case SoapFault => "SOAP_FAULT"
      case InvalidResponse => "INVALID_RESP"
      case Interrupted => "INTERRUPTED"
      case InternalError => "INTERNAL_ERR"
      case ParseError => "PARSE_ERR"
    }
  }

  /** The codes are unambiguous: two errors with the same code are the same error. */
  lemma CodeInjective(e1: ConnectorError, e2: ConnectorError)
    ensures e1.Code() == e2.Code() ==> e1 == e2
  {
    if e1.HttpError? && e2.HttpError? {
      var p := "HTTP_ERR_";
      assert Decimal.IntToString(e1.status) == e1.Code()[|p|..];
      assert Decimal.IntToString(e2.status) == e2.Code()[|p|..];
      Decimal.IntToStringInjective(e1.status, e2.status);
    } else if e1.HttpError? || e2.HttpError? {
      // only the HTTP codes start with 'H'
      assert (e1.Code()[0] == 'H') != (e2.Code()[0] == 'H');
    }
  }
}
