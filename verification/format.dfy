/** Zero padding for the four-digit hexadecimal fields of the report. */
module Format {

  /** The zeros printed before an address in hexadecimal: three below 0x10,
      two below 0x100, one below 0x1000, none from 0x1000 on. */
  function LeadingZeros(address: int): (padding: string)
    ensures |padding| <= 3
    ensures forall i :: 0 <= i < |padding| ==> padding[i] == '0'
  {
    if address <= 0xF then "000"
    else if address <= 0xFF then "00"
    else if address <= 0xFFF then "0"
    else ""
  }

  /** The number of digits of `n` written in hexadecimal (0 is one digit). */
  function HexDigitCount(n: nat): (d: nat)
    ensures d >= 1
  {
    if n < 16 then 1 else 1 + HexDigitCount(n / 16)
  }

  /** For every address up to 0xFFFF the padding and the hexadecimal digits
      together are exactly four characters wide. */
  lemma {:induction false} LeadingZerosPadsToFour(address: int)
    requires 0 <= address <= 0xFFFF
    ensures |LeadingZeros(address)| + HexDigitCount(address) == 4
  {
    if address >= 16 {
      if address >= 0x100 {
        if address >= 0x1000 {
          assert HexDigitCount(address / 16 / 16 / 16) == 1;
        }
        assert HexDigitCount(address / 16 / 16) == HexDigitCount(address) - 2;
      }
    }
  }

  /** Addresses above 0xFFFF get no padding and are wider than four digits. */
  lemma LeadingZerosWideAddress(address: int)
    requires address > 0xFFFF
    ensures LeadingZeros(address) == "" && HexDigitCount(address) > 4
  {
    var a1, a2, a3 := address / 16, address / 16 / 16, address / 16 / 16 / 16;
    assert a3 >= 16 && a2 >= 16 && a1 >= 16;
    assert HexDigitCount(a3) >= 2;
    assert HexDigitCount(a2) == 1 + HexDigitCount(a3);
    assert HexDigitCount(a1) == 1 + HexDigitCount(a2);
  }
}
