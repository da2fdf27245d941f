/** `System.Net.IPAddress` as the codec uses it: built from address bytes,
    printed as dotted decimal, and parsed from text. The parser accepts
    exactly the canonical dotted-quad form that the printer produces. */
module Ipv4 {
  import opened Results
  import opened ByteArrays
  import opened Strings

  /** An address: 4 bytes for IPv4, 16 for IPv6, in network byte order. */
  datatype IpAddress = IpAddress(bytes: seq<byte>)

  predicate IsV4(a: IpAddress) {
    |a.bytes| == 4
  }

  /** `new IPAddress(bytes)`: a 4-byte array is an IPv4 address, a 16-byte
      array an IPv6 one; any other length throws. */
  function FromBytes(b: seq<byte>): (r: Result<IpAddress>)
    ensures r.Success? <==> |b| == 4 || |b| == 16
    ensures r.Success? ==> r.value.bytes == b
    ensures r.Failure? ==> r.error == Argument
  {
    if |b| == 4 || |b| == 16 then Success(IpAddress(b)) else Failure(Argument)
  }

  /** `GetAddressBytes()`: the bytes the address was built from, which
      rebuild the same address. */
  function GetAddressBytes(a: IpAddress): (r: seq<byte>)
    ensures |r| == |a.bytes|
    ensures |r| == 4 || |r| == 16 ==> FromBytes(r) == Success(a)
  {
    a.bytes
  }

  /** An address built from bytes gives those bytes back. */
  lemma GetAddressBytesFromBytes(b: seq<byte>)
    requires FromBytes(b).Success?
    ensures GetAddressBytes(FromBytes(b).value) == b
  {
  }

  // ---------------------------------------------------------------------
  // Decimal octets

  predicate IsDigit(ch: char) {
    '0' <= ch <= '9'
  }

  function DigitValue(ch: char): int
    requires IsDigit(ch)
  {
    ch as int - '0' as int
  }

  function Digit(d: int): (ch: char)
    requires 0 <= d < 10
    ensures IsDigit(ch) && DigitValue(ch) == d
  {
    ('0' as int + d) as char
  }

  /** A byte in decimal, without leading zeros. */
  function Decimal(n: byte): (t: string)
    ensures 1 <= |t| <= 3
    ensures forall i :: 0 <= i < |t| ==> IsDigit(t[i])
  {
    if n < 10 then [Digit(n)]
    else if n < 100 then [Digit(n / 10), Digit(n % 10)]
    else [Digit(n / 100), Digit(n / 10 % 10), Digit(n % 10)]
  }

  predicate AllDigits(t: string) {
    forall i :: 0 <= i < |t| ==> IsDigit(t[i])
  }

  /** One field of a dotted quad: one to three digits, no leading zero
      unless the field is "0", and a value below 256. */
  function ParseOctet(t: string): (r: Option<byte>)
  {
    if !(1 <= |t| <= 3) || !AllDigits(t) then None
    else if |t| > 1 && t[0] == '0' then None
    else
      var v :=
        if |t| == 1 then DigitValue(t[0])
        else if |t| == 2 then 10 * DigitValue(t[0]) + DigitValue(t[1])
        else 100 * DigitValue(t[0]) + 10 * DigitValue(t[1]) + DigitValue(t[2]);
      if v < 0x100 then Some(v) else None
  }

  lemma ParseOctetDecimal(n: byte)
    ensures ParseOctet(Decimal(n)) == Some(n)
  {
  }

  /** A field the parser accepts is the canonical decimal form of its value. */
  lemma DecimalParseOctet(t: string)
    requires ParseOctet(t).Some?
    ensures Decimal(ParseOctet(t).value) == t
  {
    var n := ParseOctet(t).value;
    if |t| == 1 {
      assert n == DigitValue(t[0]) < 10;
      assert Decimal(n)[0] == t[0];
    } else if |t| == 2 {
      DecimalTwoDigits(t, n);
    } else {
      DecimalThreeDigits(t, n);
    }
  }

  lemma DecimalTwoDigits(t: string, n: byte)
    requires |t| == 2 && AllDigits(t) && t[0] != '0'
    requires n == 10 * DigitValue(t[0]) + DigitValue(t[1])
    ensures Decimal(n) == t
  {
    var d0, d1 := DigitValue(t[0]), DigitValue(t[1]);
    assert 10 <= n < 100;
    assert n / 10 == d0 && n % 10 == d1;
    var d := Decimal(n);
    assert d[0] == t[0] && d[1] == t[1];
  }

  lemma DecimalThreeDigits(t: string, n: byte)
    requires |t| == 3 && AllDigits(t) && t[0] != '0'
    requires n == 100 * DigitValue(t[0]) + 10 * DigitValue(t[1]) + DigitValue(t[2])
    ensures Decimal(n) == t
  {
    var d0, d1, d2 := DigitValue(t[0]), DigitValue(t[1]), DigitValue(t[2]);
    assert 100 <= n;
    assert n / 100 == d0 && n / 10 % 10 == d1 && n % 10 == d2;
    var d := Decimal(n);
    assert d[0] == t[0] && d[1] == t[1] && d[2] == t[2];
  }

  // ---------------------------------------------------------------------
  // Printing and parsing

  /** `ToString()` of an IPv4 address: the four bytes in decimal, joined by
      dots. Since no decimal field holds a dot, splitting the text at its dots
      gives back exactly the four fields. */
  function ToString(a: IpAddress): (r: string)
    requires IsV4(a)
    ensures Split(r, '.')
            == [Decimal(a.bytes[0]), Decimal(a.bytes[1]), Decimal(a.bytes[2]), Decimal(a.bytes[3])]
  {
    var parts := [Decimal(a.bytes[0]), Decimal(a.bytes[1]), Decimal(a.bytes[2]), Decimal(a.bytes[3])];
    DecimalHasNoDot(a.bytes[0]);
    DecimalHasNoDot(a.bytes[1]);
    DecimalHasNoDot(a.bytes[2]);
    DecimalHasNoDot(a.bytes[3]);
    SplitJoin(parts, '.');
    Join(parts, '.')
  }

  /** `IPAddress.Parse` on canonical dotted-quad text: exactly four fields,
      each a canonical decimal byte. Anything else throws. */
  function Parse(s: string): (r: Result<IpAddress>)
    ensures r.Success? ==> IsV4(r.value)
    ensures r.Failure? ==> r.error == Format
  {
    var parts := Split(s, '.');
    if |parts| != 4 then Failure(Format)
    else
      var o0, o1, o2, o3 := ParseOctet(parts[0]), ParseOctet(parts[1]), ParseOctet(parts[2]), ParseOctet(parts[3]);
      if o0.Some? && o1.Some? && o2.Some? && o3.Some? then
        Success(IpAddress([o0.value, o1.value, o2.value, o3.value]))
      else Failure(Format)
  }

  lemma DecimalHasNoDot(n: byte)
    ensures '.' !in Decimal(n)
  {
    assert !IsDigit('.');
  }

  /** Parsing what the printer produces gives the address back. */
  lemma ParseToString(a: IpAddress)
    requires IsV4(a)
    ensures Parse(ToString(a)) == Success(a)
  {
    ParseOctetDecimal(a.bytes[0]);
    ParseOctetDecimal(a.bytes[1]);
    ParseOctetDecimal(a.bytes[2]);
    ParseOctetDecimal(a.bytes[3]);
    assert [a.bytes[0], a.bytes[1], a.bytes[2], a.bytes[3]] == a.bytes;
  }

  /** Text the parser accepts is exactly the printed form of the result. */
  lemma ToStringParse(s: string)
    requires Parse(s).Success?
    ensures ToString(Parse(s).value) == s
  {
    var parts := Split(s, '.');
    DecimalParseOctet(parts[0]);
    DecimalParseOctet(parts[1]);
    DecimalParseOctet(parts[2]);
    DecimalParseOctet(parts[3]);
    assert parts == [parts[0], parts[1], parts[2], parts[3]];
    JoinSplit(s, '.');
  }

  /** Parsing succeeds with `a` exactly on the printed form of `a`. */
  lemma ParseIffCanonical(s: string, a: IpAddress)
    requires IsV4(a)
    ensures Parse(s) == Success(a) <==> s == ToString(a)
  {
    if s == ToString(a) {
      ParseToString(a);
    }
    if Parse(s) == Success(a) {
      ToStringParse(s);
    }
  }
}
