/**
 * Port values at and beyond the edges of what add_service accepts: strtonum
 * with the bounds 0 and UINT16_MAX.
 */
module Ports {
  import opened Wrappers
  import opened Libc
  import opened Mdns

  lemma DecimalValues()
    ensures DecimalValue("0") == 0
    ensures DecimalValue("631") == 631
  {
    assert "0"[..0] == "";
    assert "631"[..2] == "63" && "63"[..1] == "6" && "6"[..0] == "";
  }

  lemma DecimalValuesAtLimit()
    ensures DecimalValue("65535") == 65535
    ensures DecimalValue("65536") == 65536
  {
    assert "65535"[..4] == "6553" && "65536"[..4] == "6553";
    assert "6553"[..3] == "655" && "655"[..2] == "65" && "65"[..1] == "6" && "6"[..0] == "";
  }

  lemma PortOf631()
    ensures StrToNum("631", 0, UINT16_MAX) == Success(631)
  {
    DecimalValues();
    StrToNumOfDigits("631", 0, UINT16_MAX);
  }

  /** The lower end of the port range is accepted. */
  lemma PortZero()
    ensures StrToNum("0", 0, UINT16_MAX) == Success(0)
  {
    DecimalValues();
    StrToNumOfDigits("0", 0, UINT16_MAX);
  }

  /** The upper end of the port range is accepted. */
  lemma PortMax()
    ensures StrToNum("65535", 0, UINT16_MAX) == Success(65535)
  {
    DecimalValuesAtLimit();
    StrToNumOfDigits("65535", 0, UINT16_MAX);
  }

  /** One past the range is too large. */
  lemma PortTooLarge()
    ensures StrToNum("65536", 0, UINT16_MAX) == Failure(TooLarge)
  {
    DecimalValuesAtLimit();
    StrToNumOfDigits("65536", 0, UINT16_MAX);
  }

  /** A value without digits is invalid. */
  lemma PortNotNumeric()
    ensures StrToNum("abc", 0, UINT16_MAX) == Failure(Invalid)
  {
    assert !IsSpace('a') && !IsDigit('a');
    assert SkipSpace("abc") == "abc";
  }
}
