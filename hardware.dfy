/**
 * Link-layer and network-layer addresses as the capture library hands them over,
 * and the textual form `PhysicalAddress.ToString()` gives a hardware address:
 * two upper-case hexadecimal digits per byte, most significant nibble first,
 * with no separators.
 */
module Hardware {
  type Byte = b: int | 0 <= b < 0x100

  /** A 16-bit field of a packet header, such as the ARP operation code. */
  type UInt16 = n: int | 0 <= n < 0x1_0000

  /** An Ethernet (MAC) address. */
  type MacAddress = a: seq<Byte> | |a| == 6 witness [0, 0, 0, 0, 0, 0]

  /** An IPv4 address, as carried in the protocol-address fields of an ARP packet. */
  type IPv4Address = a: seq<Byte> | |a| == 4 witness [0, 0, 0, 0]

  const ZeroMac: MacAddress := [0, 0, 0, 0, 0, 0]
  const BroadcastMac: MacAddress := [0xFF, 0xFF, 0xFF, 0xFF, 0xFF, 0xFF]

  const HexDigits: string := "0123456789ABCDEF"

  predicate IsHexDigit(c: char) {
    '0' <= c <= '9' || 'A' <= c <= 'F'
  }

  function HexDigit(n: int): (c: char)
    requires 0 <= n < 16
    ensures IsHexDigit(c)
  {
    HexDigits[n]
  }

  /** The value of an upper-case hexadecimal digit. */
  function DigitValue(c: char): (n: int)
    requires IsHexDigit(c)
    ensures 0 <= n < 16 && HexDigit(n) == c
  {
    if c <= '9' then c as int - '0' as int else c as int - 'A' as int + 10
  }

  lemma DigitValueOfHexDigit(n: int)
    requires 0 <= n < 16
    ensures DigitValue(HexDigit(n)) == n
  {
    assert HexDigit(DigitValue(HexDigit(n))) == HexDigit(n);
    assert forall i, j :: 0 <= i < j < 16 ==> HexDigits[i] != HexDigits[j];
  }

  /** `PhysicalAddress.ToString()` of an address with these bytes. */
  function Hex(bytes: seq<Byte>): (t: string)
    ensures |t| == 2 * |bytes|
    ensures forall c :: c in t ==> IsHexDigit(c)
  {
    if |bytes| == 0 then ""
    else [HexDigit(bytes[0] / 16), HexDigit(bytes[0] % 16)] + Hex(bytes[1..])
  }

  /** Reads back the bytes of an even-length string of upper-case hexadecimal digits. */
  function FromHex(t: string): (bytes: seq<Byte>)
    requires |t| % 2 == 0
    requires forall c :: c in t ==> IsHexDigit(c)
    ensures 2 * |bytes| == |t|
  {
    if |t| == 0 then []
    else [DigitValue(t[0]) * 16 + DigitValue(t[1])] + FromHex(t[2..])
  }

  /** Rendering loses nothing: the bytes can be read back from the text. */
  lemma {:induction false} HexRoundTrip(bytes: seq<Byte>)
    ensures FromHex(Hex(bytes)) == bytes
  {
    if |bytes| > 0 {
      var b := bytes[0];
      var t := Hex(bytes);
      assert t[2..] == Hex(bytes[1..]);
      DigitValueOfHexDigit(b / 16);
      DigitValueOfHexDigit(b % 16);
      HexRoundTrip(bytes[1..]);
    }
  }

  /** Two addresses render alike exactly when they are equal. */
  lemma HexInjective(a: seq<Byte>, b: seq<Byte>)
    ensures Hex(a) == Hex(b) <==> a == b
  {
    if Hex(a) == Hex(b) {
      HexRoundTrip(a);
      HexRoundTrip(b);
    }
  }

  /** Rendering works byte by byte, so a prefix of the bytes renders as a prefix of the text. */
  lemma {:induction false} HexAppend(a: seq<Byte>, b: seq<Byte>)
    ensures Hex(a + b) == Hex(a) + Hex(b)
  {
    if |a| > 0 {
      assert (a + b)[0] == a[0];
      assert (a + b)[1..] == a[1..] + b;
      HexAppend(a[1..], b);
      var h := [HexDigit(a[0] / 16), HexDigit(a[0] % 16)];
      assert Hex(a + b) == h + (Hex(a[1..]) + Hex(b));
      assert h + (Hex(a[1..]) + Hex(b)) == (h + Hex(a[1..])) + Hex(b);
    } else {
      assert a + b == b;
    }
  }
}
