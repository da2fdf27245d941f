# MulticastLib message codec, in Dafny

This project models the wire codec of MulticastLib's `Message` class
(`Models/Message.cs`). A message carries a source IPv4 address, kept as text,
and a text payload. On the wire it is 4 address bytes followed by the UTF-8
bytes of the payload (section 3 of RFC 3629). There is no length field,
separator, magic number or version byte.

Modules:

- `Results`: the .NET exceptions the codec can throw (`Error`) and a
  `Result<T>` that carries either a value or one of them.
- `ByteArrays`: bytes and 32-bit integers. Also the class's private
  sub-array copy, in two versions (as written and corrected), and
  `Array.CopyTo`.
- `Strings`: splitting text at a character and joining it back.
- `Utf8`: the encoder (`Encoding.UTF8.GetBytes`), the well-formed
  byte sequences of section 4 of RFC 3629 (`Valid`), and the decoder
  (`Encoding.UTF8.GetString`). The decoder replaces every ill-formed stretch
  with U+FFFD, one per maximal subpart, instead of failing.
- `Ipv4`: `IPAddress` as the codec uses it. It covers construction from
  4 or 16 bytes, dotted-decimal `ToString`, and `Parse` restricted to
  canonical dotted-quad text.
- `MessageCodec`: the `Message` value and its operations (constructor,
  `SetPayload`, `GetMessageString`, `ToBytes`, `GetMessage`), with the
  layout, error and round-trip lemmas.

Three behaviours of the code are easy to miss:

- Ill-formed UTF-8 payload bytes are not an error. `GetString` substitutes
  U+FFFD, so `GetMessage` still succeeds.
- A packet shorter than 4 bytes throws `IndexOutOfRangeException` from the
  header copy. An empty packet is rejected by the start-index check. A packet
  of 1 to 3 bytes is rejected by the end-of-array check.
- An unparseable IP makes `ToBytes` throw `IPAddress.Parse`'s
  `FormatException`. A 16-byte (IPv6) address would make the header copy
  throw `ArgumentException`, because it does not fit the 4-byte header.

The message is a value: `SetPayload` returns the updated message. The
platform newline that `AppendLine` writes is the `newline` parameter of
`GetMessageString`.

## Model

| member | source | states |
|---|---|---|
| `ByteArrays.GetSubArrayAsWritten` | Models/Message.cs:134-148 | The helper with 32-bit wrapping `index + count`. On success, the index is inside the array, the count is non-negative, and the result has `count` bytes. When the count fits in what remains of the array, the result is exactly that slice. |
| `ByteArrays.AsWrittenAcceptsWrappedCount` | Models/Message.cs:139 | On a 58-byte array, index 57 with count 0x7FFF_FFC7 passes the guards of the helper as written. It returns 0x7FFF_FFC7 bytes. The corrected helper throws from the end-of-array check. |
| `ByteArrays.AsWrittenAgreesWithoutWrap` | Models/Message.cs:134-148 | Whenever `index + count` fits in 32 bits, the helper as written and the corrected helper give the same result. |
| `ByteArrays.GetSubArray` | Models/Message.cs:134-148 | Succeeds iff `0 <= index < length`, `count >= 0` and `index + count <= length`. On success the result is exactly `a[index..index+count]`: the copy loop's zero padding never shows. An index outside the array throws the start-index error. Running past the end throws the bounds error. A negative count throws `OverflowException`. |
| `ByteArrays.CopyTo` | Models/Message.cs:116-117 | `src.CopyTo(dst, i)` succeeds iff `0 <= i` and `src` fits in `dst` from `i`. It then returns an array as long as `dst`: `src` at offset `i`, everything else unchanged. A negative index throws `ArgumentOutOfRangeException`. Overflowing the destination throws `ArgumentException`. |
| `Utf8.EncodeChar` | Models/Message.cs:113 | One character encodes to 1 to 4 bytes. |
| `Utf8.EncodeCharWellFormed` | Models/Message.cs:113 | The encoding of every character is one well-formed UTF8-char of RFC 3629's grammar. |
| `Utf8.Encode` | Models/Message.cs:113 | The encoding is at least as long as the text, and empty iff the text is empty. |
| `Utf8.DecodeStep` | Models/Message.cs:66 | Each decoding step consumes 1 to 4 bytes, never more than remain. |
| `Utf8.Decode` | Models/Message.cs:66 | Decoding is total and yields at most one character per byte. |
| `Utf8.CharOfEncodeChar` | Models/Message.cs:66 | The scalar value of a character's encoding is that character. |
| `Utf8.EncodeCharOf` | Models/Message.cs:113 | Encoding the scalar value of a well-formed sequence gives that sequence back. |
| `Utf8.DecodeStepWellFormed` | Models/Message.cs:66 | On a well-formed sequence at the front, the decoder consumes exactly that sequence and yields its scalar value. |
| `Utf8.DecodeFront` | Models/Message.cs:66 | With a well-formed sequence at the front, decoding yields its character, then decodes the rest. |
| `Utf8.DecodeEncode` | Models/Message.cs:66 | For every text, decoding its UTF-8 encoding gives the text back. |
| `Utf8.EncodeValid` | Models/Message.cs:113 | The encoder emits only well-formed UTF-8. |
| `Utf8.EncodeDecode` | Models/Message.cs:66 | Well-formed bytes are reproduced exactly by decoding then encoding. |
| `Utf8.ReencodeIffValid` | Models/Message.cs:66 | Decoding then encoding reproduces a byte sequence iff it is well-formed UTF-8. |
| `Utf8.ReplacementExamples` | Models/Message.cs:66 | Each ill-formed input gives U+FFFD: a lone tail byte, a truncated 3-byte sequence (one U+FFFD), an encoded surrogate (three), and an overlong C0 form (two). |
| `Ipv4.FromBytes` | Models/Message.cs:67 | `new IPAddress(bytes)` succeeds iff there are 4 or 16 bytes, and keeps them. Any other length throws `ArgumentException`. |
| `Ipv4.GetAddressBytes` | Models/Message.cs:110 | An address hands back as many bytes as it holds, and a 4- or 16-byte result rebuilds the same address through `new IPAddress(bytes)`. |
| `Ipv4.GetAddressBytesFromBytes` | Models/Message.cs:67 | An address built from bytes gives exactly those bytes back. |
| `Ipv4.ToString` | Models/Message.cs:77 | The printed form of an IPv4 address splits at its dots into exactly the four bytes' decimal fields. |
| `Ipv4.Decimal` | Models/Message.cs:77 | A byte prints as 1 to 3 decimal digits. |
| `Ipv4.ParseOctetDecimal` | Models/Message.cs:110 | Every printed byte parses back to itself. |
| `Ipv4.DecimalParseOctet` | Models/Message.cs:110 | Every field the parser accepts is the printed form of its value. |
| `Ipv4.Parse` | Models/Message.cs:110 | A successful parse yields a 4-byte address. A failed one throws `FormatException`. |
| `Ipv4.ParseToString` | Models/Message.cs:110 | Parsing the dotted-quad text of an address gives the address back. |
| `Ipv4.ToStringParse` | Models/Message.cs:110 | Text that parses is exactly the dotted-quad text of the parsed address. |
| `Ipv4.ParseIffCanonical` | Models/Message.cs:110 | `Parse(s)` yields address `a` iff `s` is the dotted-quad text of `a`. |
| `MessageCodec.NewMessage` | Models/Message.cs:40-44 | The new message holds the given IP and payload unchanged. |
| `MessageCodec.NewMessageDefaultPayload` | Models/Message.cs:40-44 | The constructor keeps the IP. Without a payload argument the payload is empty. |
| `MessageCodec.SetPayload` | Models/Message.cs:98-101 | The new message has the given payload and the old IP. |
| `MessageCodec.SetPayloadOverwrites` | Models/Message.cs:98-101 | The last payload set wins. Setting the current payload changes nothing. |
| `MessageCodec.SetPayloadKeepsHeader` | Models/Message.cs:98-120 | Replacing the payload never changes the 4 header bytes of the encoding. |
| `MessageCodec.GetMessageString` | Models/Message.cs:85-92 | The log text starts with `Source IP: <ip>` and a newline. It is exactly that line iff the payload is empty. Otherwise `Payload: <payload>` and a newline follow. |
| `MessageCodec.GetMessageStringLines` | Models/Message.cs:85-92 | With a `\n` newline that neither field contains, the log text splits into the `Source IP:` line, then a `Payload:` line iff the payload is non-empty, then nothing after the final newline. |
| `MessageCodec.WriteHeader` | Models/Message.cs:109-110 | A 4-byte address fills the header exactly. A 16-byte (IPv6) address does not fit, so the copy throws `ArgumentException`. |
| `MessageCodec.ToBytes` | Models/Message.cs:107-120 | Succeeds iff the IP parses, and otherwise throws `FormatException`. The packet is 4 bytes longer than the payload's UTF-8 encoding. Its first 4 bytes are the parsed address. The rest is exactly the UTF-8 payload, with no separator. |
| `MessageCodec.EmptyPayloadEncodesHeaderOnly` | Models/Message.cs:109-119 | With an empty payload, the packet is exactly the 4 address bytes. |
| `MessageCodec.GetMessage` | Models/Message.cs:55-79 | Succeeds iff the packet has at least 4 bytes. An empty packet fails the start-index check. 1 to 3 bytes fail the bounds check. The IP is the dotted quad of bytes 0..3. The payload is the UTF-8 decoding of everything after byte 4. |
| `MessageCodec.GetMessageCopiesAgree` | Models/Message.cs:57-65 | On both sub-array copies that `GetMessage` makes (the header on any packet, the payload on a packet longer than 4 bytes), the helper as written returns the same as the corrected helper the model uses. |
| `MessageCodec.HeaderOnlyDecodes` | Models/Message.cs:57-78 | A 4-byte packet decodes to the dotted quad of its bytes and an empty payload. |
| `MessageCodec.RoundTrip` | Models/Message.cs:55-120 | Take any message whose IP parses (canonical dotted quad) and any payload. Encoding succeeds, and decoding the packet gives back the same IP and payload. |
| `MessageCodec.ReencodeIffValidPayload` | Models/Message.cs:55-120 | For a packet of at least 4 bytes, decoding then encoding reproduces the packet iff its payload bytes are well-formed UTF-8. |
| `MessageCodec.HelloDecodes` | Models/Message.cs:55-79 | The packet `192 168 1 10 'h' 'e' 'l' 'l' 'o'` decodes to the message from `192.168.1.10` with payload `hello`. |

## Findings

| source | as written | input that shows it | evidently intended | confidence | as-written member | corrected member |
|---|---|---|---|---|---|---|
| Models/Message.cs:139 | The end-of-array guard computes `index + count` in 32-bit `int`, which wraps around. | A 58-byte array, `index` 57, `count` 0x7FFF_FFC7. The sum 2^31 wraps to -2^31, so both guards pass. The helper returns 0x7FFF_FFC7 bytes: byte 57, then zero padding. | Throw `IndexOutOfRangeException`, as for any copy that runs past the end. | not executed. This assumes the default unchecked `int` arithmetic, and the input needs the ~2 GiB allocation to succeed. The bug is latent: both calls in `GetMessage` pass arguments whose sum is the array length. | `ByteArrays.GetSubArrayAsWritten` (shown by `ByteArrays.AsWrittenAcceptsWrappedCount`) | `ByteArrays.GetSubArray` (used by `MessageCodec.GetMessage`) |

## Left out

- `MulticastEndpoint.cs`: socket creation, group join and leave, send and receive, and finalizer cleanup. This is operating-system networking I/O.
- `NetworkManager.cs`: the background receive task, cancellation, logging and event dispatch. This is concurrency and I/O. Its catch-and-rethrow ends the receive loop on any exception, decode failures included. The model does not treat the loop as resilient.
- `NetworkUtilities.cs`: network-interface enumeration and speed ordering. These are queries over platform APIs.
- `Interfaces/IMessage.cs`: declarations only; the operations it names are modelled on `Message`.
- `Ipv4.Parse`: accepts only canonical dotted-quad text. `IPAddress.Parse` also accepts short forms such as `1.2.3`, other numeric spellings and IPv6 text; the model rejects these with `FormatException`.
- `MessageCodec.ToBytes`: because of the restricted parser, a non-canonical IPv4 form such as `1.2.3` throws `FormatException` here, though the source would encode it. IPv6 text such as `::1` also throws `FormatException` here. The source parses it to 16 bytes and then throws `ArgumentException` from the header copy. That `ArgumentException` path is stated only by `MessageCodec.WriteHeader`, applied to a 16-byte address.
- `MessageCodec.SetPayload`: the source mutates the message in place, so every holder of a reference to it sees the new payload. The model returns a new value, so aliasing is not modelled.
- `MessageCodec.RoundTrip`: stated for canonical dotted-quad IPs only. A non-canonical IP would come back in canonical form.
- `Ipv4.ToString` of a 16-byte (IPv6) address is not modelled. `GetMessage` only ever builds 4-byte addresses.
- Payloads are sequences of Unicode scalar values. A .NET string may hold an unpaired UTF-16 surrogate, which `GetBytes` encodes as U+FFFD; such strings cannot be represented here.
- The decoder follows the replacement of maximal subparts that current .NET (Core 3.0 and later) implements. Older .NET Framework decoders may group ill-formed bytes differently.
- Exception message texts, and the stack-trace reset of `throw e` in `GetMessage`, are not modelled. The exception type propagates unchanged.
- Allocation failure (`OutOfMemoryException`) and the runtime's maximum array length are not modelled. This matters only for the finding above.
- `null` strings are not modelled. A `null` IP or payload makes `ToBytes` throw (`ArgumentNullException` or `NullReferenceException`); the model's strings are never null.
- The platform newline of `AppendLine` is a parameter. The line-splitting lemma is stated for `\n` only.
