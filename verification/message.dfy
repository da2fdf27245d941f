/** The multicast message and its wire format.

    A packet is the sender's IPv4 address in 4 bytes, followed by the UTF-8
    encoding of the payload text, with no length field, separator, magic
    number or version byte: the payload is everything after byte 4. */
module MessageCodec {
  import opened Results
  import opened ByteArrays
  import opened Strings
  import Utf8
  import Ipv4

  /** Bytes of address at the front of every packet. */
  const HeaderLength: nat := 4

  /** A message: the source IP as text, and a payload that may be empty. */
  datatype Message = Message(ip: string, payload: string)

  /** The constructor; the payload defaults to the empty string. */
  function NewMessage(ip: string, payload: string := ""): (r: Message)
    ensures r.ip == ip && r.payload == payload
  {
    Message(ip, payload)
  }

  /** A message built with the default payload has an empty payload. */
  lemma NewMessageDefaultPayload(ip: string)
    ensures NewMessage(ip).ip == ip
    ensures NewMessage(ip).payload == ""
  {
  }

  /** Replaces the payload and nothing else. */
  function SetPayload(m: Message, payload: string): (r: Message)
    ensures r.ip == m.ip
    ensures r.payload == payload
  {
    m.(payload := payload)
  }

  /** The last payload set wins, and setting the current payload changes
      nothing. */
  lemma SetPayloadOverwrites(m: Message, p: string, q: string)
    ensures SetPayload(SetPayload(m, p), q) == SetPayload(m, q)
    ensures SetPayload(m, m.payload) == m
  {
  }

  // ---------------------------------------------------------------------
  // Log text

  /** The log text: a `Source IP:` line, then a `Payload:` line only when
      the payload is not empty; every line ends with the platform newline
      `newline`. */
  function GetMessageString(m: Message, newline: string): (r: string)
    ensures var head := "Source IP: " + m.ip + newline;
            && |r| >= |head| && r[..|head|] == head
            && (r == head <==> m.payload == "")
            && (m.payload != "" ==> r[|head|..] == "Payload: " + m.payload + newline)
  {
    var source := "Source IP: " + m.ip + newline;
    if m.payload != "" then source + "Payload: " + m.payload + newline else source
  }

  /** With "\n" as the newline and no "\n" inside either field, the log
      text has exactly one line for the source IP and, when the payload is
      not empty, exactly one more for the payload, followed by the empty text
      after the final newline. */
  lemma GetMessageStringLines(m: Message)
    requires '\n' !in m.ip && '\n' !in m.payload
    ensures Split(GetMessageString(m, "\n"), '\n')
            == ["Source IP: " + m.ip]
               + (if m.payload != "" then ["Payload: " + m.payload] else [])
               + [""]
  {
    var source := "Source IP: " + m.ip;
    assert '\n' !in "Source IP: ";
    var lines := [source] + (if m.payload != "" then ["Payload: " + m.payload] else []) + [""];
    if m.payload != "" {
      var payload := "Payload: " + m.payload;
      assert '\n' !in "Payload: ";
      assert lines == [source, payload, ""];
      assert lines[1..] == [payload, ""];
      assert lines[1..][1..] == [""];
      assert Join(lines[1..], '\n') == payload + "\n" + "";
      assert Join(lines, '\n') == source + "\n" + (payload + "\n" + "");
      assert GetMessageString(m, "\n") == Join(lines, '\n');
      assert '\n' !in payload;
    } else {
      assert lines == [source, ""];
      assert Join(lines, '\n') == source + "\n" + "";
      assert GetMessageString(m, "\n") == Join(lines, '\n');
    }
    assert '\n' !in source;
    SplitJoin(lines, '\n');
  }

  // ---------------------------------------------------------------------
  // Encoding

  /** Copies the address bytes into a fresh 4-byte header. An IPv4 address
      fills it; the 16 bytes of an IPv6 address do not fit and the copy
      throws. */
  function WriteHeader(a: Ipv4.IpAddress): (r: Result<seq<byte>>)
    ensures Ipv4.IsV4(a) ==> r == Success(a.bytes)
    ensures |a.bytes| == 16 ==> r == Failure(Argument)
  {
    var r := CopyTo(Ipv4.GetAddressBytes(a), Zeros(HeaderLength), 0);
    assert Ipv4.IsV4(a) ==> r.Success? && r.value == r.value[0..HeaderLength];
    r
  }

  /** `ToBytes`: parses the IP, copies its 4 bytes into the header and, when
      the payload is not empty, copies header and UTF-8 payload into one
      array. Fails exactly when the IP does not parse. */
  function ToBytes(m: Message): (r: Result<seq<byte>>)
    ensures r.Success? <==> Ipv4.Parse(m.ip).Success?
    ensures r.Failure? ==> r.error == Format
    ensures r.Success? ==> |r.value| == HeaderLength + |Utf8.Encode(m.payload)|
    ensures r.Success? ==> r.value[..HeaderLength] == Ipv4.Parse(m.ip).value.bytes
    ensures r.Success? ==> r.value[HeaderLength..] == Utf8.Encode(m.payload)
  {
    var address :- Ipv4.Parse(m.ip);
    match WriteHeader(address)
    case Failure(e) => Failure(e)
    case Success(header) =>
      if m.payload != "" then
        var payloadBytes := Utf8.Encode(m.payload);
        var messageBytes := Zeros(|header| + |payloadBytes|);
        match CopyTo(header, messageBytes, 0)
        case Failure(e) => Failure(e)
        case Success(withHeader) => CopyTo(payloadBytes, withHeader, |header|)
      else
        Success(header)
  }

  /** A message with an empty payload encodes to its 4 address bytes alone. */
  lemma EmptyPayloadEncodesHeaderOnly(m: Message)
    requires m.payload == ""
    requires Ipv4.Parse(m.ip).Success?
    ensures ToBytes(m) == Success(Ipv4.Parse(m.ip).value.bytes)
  {
  }

  /** Replacing the payload never changes the header of the packet. */
  lemma SetPayloadKeepsHeader(m: Message, payload: string)
    requires Ipv4.Parse(m.ip).Success?
    ensures ToBytes(SetPayload(m, payload)).value[..HeaderLength]
            == ToBytes(m).value[..HeaderLength]
  {
  }

  // ---------------------------------------------------------------------
  // Decoding

  /** `GetMessage`: the first 4 bytes are the address, printed in dotted
      decimal; everything after them is the payload, decoded from UTF-8 with
      replacement. A packet shorter than the header throws from the header
      copy: the start-index check rejects an empty packet, the end check a
      packet of 1 to 3 bytes. */
  function GetMessage(bytes: seq<byte>): (r: Result<Message>)
    ensures r.Success? <==> |bytes| >= HeaderLength
    ensures |bytes| == 0 ==> r == Failure(IndexOutOfRange(StartIndex))
    ensures 0 < |bytes| < HeaderLength ==> r == Failure(IndexOutOfRange(CopyBounds))
    ensures r.Success? ==> r.value.ip == Ipv4.ToString(Ipv4.IpAddress(bytes[..HeaderLength]))
    ensures r.Success? ==> r.value.payload == Utf8.Decode(bytes[HeaderLength..])
  {
    var ipBytes :- GetSubArray(bytes, 0, HeaderLength);
    var payloadLength := |bytes| - HeaderLength;
    if payloadLength > 0 then
      match GetSubArray(bytes, HeaderLength, payloadLength)
      case Failure(e) => Failure(e)
      case Success(payloadBytes) =>
        assert payloadBytes == bytes[HeaderLength..];
        var payload := Utf8.Decode(payloadBytes);
        match Ipv4.FromBytes(ipBytes)
        case Failure(e) => Failure(e)
        case Success(address) => Success(NewMessage(Ipv4.ToString(address), payload))
    else
      match Ipv4.FromBytes(ipBytes)
      case Failure(e) => Failure(e)
      case Success(address) => Success(NewMessage(Ipv4.ToString(address)))
  }

  /** The two sub-array copies `GetMessage` makes never wrap around, so
      on them the helper as written and the corrected helper agree: the
      header copy on every packet, the payload copy on every packet longer
      than the header. */
  lemma GetMessageCopiesAgree(bytes: seq<byte>)
    requires |bytes| <= Int32Max
    ensures GetSubArrayAsWritten(bytes, 0, HeaderLength) == GetSubArray(bytes, 0, HeaderLength)
    ensures |bytes| > HeaderLength ==>
              GetSubArrayAsWritten(bytes, HeaderLength, |bytes| - HeaderLength)
              == GetSubArray(bytes, HeaderLength, |bytes| - HeaderLength)
  {
    AsWrittenAgreesWithoutWrap(bytes, 0, HeaderLength);
    if |bytes| > HeaderLength {
      AsWrittenAgreesWithoutWrap(bytes, HeaderLength, |bytes| - HeaderLength);
    }
  }

  /** A packet of exactly 4 bytes decodes to the dotted quad of those bytes
      and an empty payload. */
  lemma HeaderOnlyDecodes(bytes: seq<byte>)
    requires |bytes| == HeaderLength
    ensures GetMessage(bytes) == Success(Message(Ipv4.ToString(Ipv4.IpAddress(bytes)), ""))
  {
    assert bytes[..HeaderLength] == bytes;
  }

  // ---------------------------------------------------------------------
  // Round trips

  /** Every message whose IP is canonical dotted-quad text survives encoding
      and decoding unchanged, whatever its payload. */
  lemma RoundTrip(m: Message)
    requires Ipv4.Parse(m.ip).Success?
    ensures ToBytes(m).Success?
    ensures GetMessage(ToBytes(m).value) == Success(m)
  {
    var address := Ipv4.Parse(m.ip).value;
    var packet := ToBytes(m).value;
    Ipv4.ToStringParse(m.ip);
    Utf8.DecodeEncode(m.payload);
    assert Ipv4.IpAddress(packet[..HeaderLength]) == address;
  }

  /** A packet of at least 4 bytes is reproduced exactly by decoding it and
      encoding the message again if and only if its payload bytes are
      well-formed UTF-8. */
  lemma ReencodeIffValidPayload(bytes: seq<byte>)
    requires |bytes| >= HeaderLength
    ensures ToBytes(GetMessage(bytes).value) == Success(bytes)
            <==> Utf8.Valid(bytes[HeaderLength..])
  {
    var m := GetMessage(bytes).value;
    var address := Ipv4.IpAddress(bytes[..HeaderLength]);
    Ipv4.ParseToString(address);
    var packet := ToBytes(m).value;
    Utf8.ReencodeIffValid(bytes[HeaderLength..]);
    if packet == bytes {
      assert packet[HeaderLength..] == bytes[HeaderLength..];
    }
    if Utf8.Valid(bytes[HeaderLength..]) {
      assert packet == packet[..HeaderLength] + packet[HeaderLength..];
      assert bytes == bytes[..HeaderLength] + bytes[HeaderLength..];
    }
  }

  /** The address 192.168.1.10 prints as its dotted quad. */
  lemma HelloAddressText()
    ensures Ipv4.ToString(Ipv4.IpAddress([192, 168, 1, 10])) == "192.168.1.10"
  {
    assert Ipv4.Decimal(192) == "192" && Ipv4.Decimal(168) == "168";
    assert Ipv4.Decimal(1) == "1" && Ipv4.Decimal(10) == "10";
    var parts := ["192", "168", "1", "10"];
    assert parts[1..] == ["168", "1", "10"] && parts[1..][1..] == ["1", "10"];
  }

  /** A packet from 192.168.1.10 carrying "hello": the four address bytes
      and the five ASCII bytes of the text decode to that message. */
  lemma HelloDecodes()
    ensures GetMessage([192, 168, 1, 10, 0x68, 0x65, 0x6C, 0x6C, 0x6F])
            == Success(Message("192.168.1.10", "hello"))
  {
    var packet: seq<byte> := [192, 168, 1, 10, 0x68, 0x65, 0x6C, 0x6C, 0x6F];
    HelloAddressText();
    HelloPayloadBytes();
    assert packet[..HeaderLength] == [192, 168, 1, 10];
    assert packet[HeaderLength..] == Utf8.Encode("hello");
    Utf8.DecodeEncode("hello");
  }

  /** "hello" is ASCII: one byte per character. */
  lemma HelloPayloadBytes()
    ensures Utf8.Encode("hello") == [0x68, 0x65, 0x6C, 0x6C, 0x6F]
  {
    var s := "hello";
    assert s[1..] == "ello" && s[1..][1..] == "llo";
    assert s[1..][1..][1..] == "lo" && s[1..][1..][1..][1..] == "o";
  }
}
