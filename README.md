# INT report header decoder

This project models the decoding core of `int_receive.py`, the collector for
In-band Network Telemetry (INT) reports. The UDP payload of a report starts with
six fixed headers:

- the INT report fixed header (16 bytes);
- the Ethernet, IPv4 and UDP headers of the original packet (14, 20 and 8 bytes);
- the INT shim header (4 bytes);
- the INT metadata header (8 bytes).

The collector expands each header's span of the payload into a string of '0'/'1'
characters (`bytes2bin`). It then reads the fields one after another with a bit
cursor (`bin2int`). The driver `int_parser` runs the six parsers from payload
offset 0, so the offsets run 0, 16, 30, 50, 58, 62, 70.

Modules:

- `Bits`: bit strings, their unsigned big-endian value (`Value`) and the
  fixed-width encoding of a number (`Encode`).
- `ByteString`: `bytes2bin`, both as the loop the source runs (`BytesToBin`) and
  as the function `Bin` that the rest of the model uses. `Pack` turns bits back
  into bytes.
- `BitCursor`: Python's slice and `int(b, 2)`, then `bin2int` as written
  (`Bin2IntAsWritten`) and with an underrun check (`Bin2Int`).
- `HeaderFields`: the header sizes and facts about one field of a bit string.
- `Report`, `Ethernet`, `Ipv4`, `Udp`, `IntShim`, `IntMetadata`: one module per
  header. Each has the header's field record and the chain of field reads
  (`DecodeX`). It also has the inverse encoding (`EncodeX`) and the lemmas that
  tie the two together.
- `IntReceive`: the six payload-level parsers `parse_*` and the driver
  `int_parser`.
- `IntReceiveLayout`: properties of the driver.

Each parser returns the header it decoded together with the next payload
offset. A Python exception, or a read past the end of the buffer, becomes
`None`.

## Model

| member | source | states |
|---|---|---|
| ByteString.BytesToBin | int_receive.py:23-32 | the loop that appends `bin(byte)[2:].rjust(8, '0')` per byte returns exactly `Bin(byteStr)` |
| ByteString.Bin | int_receive.py:23-32 | the expansion has 8 characters per byte, and every character is '0' or '1' |
| ByteString.PyBin | int_receive.py:29 | `bin(n)[2:]` is a non-empty binary numeral long enough to hold `n`; `ByteString.PyBinValue` proves it reads back as `n` |
| ByteString.PyBinValue | int_receive.py:29 | the numeral `bin(n)[2:]` has the value `n` |
| ByteString.RJust | int_receive.py:29 | `rjust` pads on the left and never truncates; its contract is `ByteString.RJustPads` |
| ByteString.RJustPads | int_receive.py:29 | the padded string is `width` long when `s` is shorter, else `s` itself; it ends with `s` and every character before `s` is the fill character |
| ByteString.ByteToBin | int_receive.py:29 | one byte as the loop body spells it; its contract is `ByteString.ByteToBinIsEncode` |
| ByteString.PyBinPadded | int_receive.py:29 | the shortest numeral of `n`, left-padded with '0' to any width that holds `n`, is the fixed-width MSB-first encoding of `n` |
| ByteString.ByteToBinIsEncode | int_receive.py:29 | one byte's padded spelling is its 8-bit MSB-first encoding |
| ByteString.BinAt | int_receive.py:27-30 | character `8*i + j` of the expansion is bit `7 - j` of byte `i` (most significant bit first) |
| ByteString.BinAppend | int_receive.py:27-30 | expansion distributes over concatenation of byte strings |
| ByteString.BinOfPack | int_receive.py:23-32 | expansion inverts packing on bit strings of whole bytes |
| ByteString.PackOfBin | int_receive.py:23-32 | packing inverts expansion, so no byte string is lost |
| BitCursor.PySlice | int_receive.py:37 | Python's slice is clamped to the string: its length, and that it holds the elements starting at `lo` |
| BitCursor.IntBase2 | int_receive.py:39 | `int(b, 2)` succeeds exactly on non-empty binary strings; the value fits in `|b|` bits and encodes back to `b` |
| BitCursor.Bin2IntAsWritten | int_receive.py:36-40 | as written, a read succeeds exactly when `len > 0`, the index is inside the string and the (possibly cut) slice is binary; the index always advances by `len` |
| BitCursor.Bin2Int | int_receive.py:36-40 | the corrected read succeeds exactly when `len > 0`, the `len` bits fit and are binary; the index advances by `len` and never past the end |
| BitCursor.Bin2IntValue | int_receive.py:36-40 | a successful read returns the big-endian value of its bits, which lies in [0, 2^len); on a read that fits it agrees with `bin2int` as written |
| BitCursor.ReadEncoded | int_receive.py:36-40 | reading a `w`-bit encoding at the cursor gives the encoded number back, whatever surrounds it |
| BitCursor.AsWrittenReadOverruns | int_receive.py:37-39 | as written, a read that runs past the end of a binary string returns the value of the bits that remain and an index beyond the string; the corrected read fails |
| BitCursor.AsWrittenShortReportField | int_receive.py:87 | the report header's last 32-bit read on a 15-byte span: as written it returns index 128 on a 120-bit string; the corrected read fails |
| Bits.Value | int_receive.py:39 | the value `int(b, 2)` of a bit string of width `w` lies below 2^w; `Bits.ValueOfEncode` and `Bits.EncodeOfValue` show it inverts the fixed-width encoding |
| Bits.ValueOfEncode | int_receive.py:39 | the value `int(b, 2)` of a `w`-bit encoding of `v < 2^w` is `v` |
| Bits.EncodeOfValue | int_receive.py:39 | encoding the value of a binary string at its own width gives the string back |
| Bits.EncodeInjective | int_receive.py:39 | two binary strings of one width have equal values if and only if they are equal |
| Bits.EncodeAt | int_receive.py:29 | position `j` of a `w`-bit encoding is bit `w - 1 - j` of the number |
| HeaderFields.ReadAt | int_receive.py:36-40 | a read inside a binary string returns the value of its bit range and the index after it |
| HeaderFields.ReadFits | int_receive.py:36-40 | a read inside a binary string succeeds and moves the index past the field |
| HeaderFields.FieldBits | int_receive.py:36-40 | a field read from a binary string fits its width and re-encodes to its bits |
| Report.EncodeReport | int_receive.py:44-56 | the report header's field widths sum to 128 bits, 8 × INT_REPORT_SIZE |
| Report.DecodeReport | int_receive.py:61-87 | the chain of field reads over the header's bit string; its contract is `Report.DecodeReportSpec` (succeeds exactly on 128 bits or more, field by field in `Report.DecodeReportAt`) and `Report.ReportRoundTrip` |
| Report.DecodeReportAt | int_receive.py:61-87 | on a binary string of at least 128 bits every read succeeds, each field is the value of its own bit range, and the index ends at 128 |
| Report.DecodeReportShort | int_receive.py:61-87 | on a binary string shorter than 128 bits some read fails |
| Report.ReportAtLossless | int_receive.py:61-87 | the fields read fit their widths and re-encode to exactly the first 128 bits |
| Report.ReportAtEncode | int_receive.py:61-87 | reading the bit ranges of an encoded header gives its fields back |
| Report.DecodeReportSpec | int_receive.py:61-87 | decoding succeeds if and only if the string has at least 128 bits; then the index is 128 and the header fits and re-encodes to those bits |
| Report.ReportRoundTrip | int_receive.py:61-87 | decoding inverts encoding for every header whose fields fit |
| Ethernet.EncodeEthernet | int_receive.py:92-95 | the Ethernet field widths sum to 112 bits, 8 × ETH_SIZE |
| Ethernet.DecodeEthernet | int_receive.py:100-113 | the chain of field reads over the header's bit string; its contract is `Ethernet.DecodeEthernetSpec` (succeeds exactly on 112 bits or more, field by field in `Ethernet.DecodeEthernetAt`) and `Ethernet.EthernetRoundTrip` |
| Ethernet.DecodeEthernetAt | int_receive.py:100-113 | on a binary string of at least 112 bits each field is the value of its bit range and the index ends at 112 |
| Ethernet.DecodeEthernetShort | int_receive.py:100-113 | on a binary string shorter than 112 bits some read fails |
| Ethernet.EthernetAtLossless | int_receive.py:100-113 | the fields read fit and re-encode to exactly the first 112 bits |
| Ethernet.EthernetAtEncode | int_receive.py:100-113 | reading the bit ranges of an encoded header gives its fields back |
| Ethernet.DecodeEthernetSpec | int_receive.py:100-113 | decoding succeeds if and only if the string has at least 112 bits; then the index is 112 and the header re-encodes to those bits |
| Ethernet.EthernetRoundTrip | int_receive.py:100-113 | decoding inverts encoding for every header whose fields fit |
| Ipv4.EncodeIpv4 | int_receive.py:119-131 | the IPv4 field widths sum to 160 bits, 8 × IP_SIZE |
| Ipv4.DecodeIpv4 | int_receive.py:136-177 | the chain of field reads over the header's bit string; its contract is `Ipv4.DecodeIpv4Spec` (succeeds exactly on 160 bits or more, field by field in `Ipv4.DecodeIpv4At`) and `Ipv4.Ipv4RoundTrip` |
| Ipv4.DecodeIpv4At | int_receive.py:136-177 | on a binary string of at least 160 bits each field is the value of its bit range and the index ends at 160 |
| Ipv4.DecodeIpv4Short | int_receive.py:136-177 | on a binary string shorter than 160 bits some read fails |
| Ipv4.Ipv4AtLossless | int_receive.py:136-177 | the fields read fit and re-encode to exactly the first 160 bits |
| Ipv4.Ipv4AtEncode | int_receive.py:136-177 | reading the bit ranges of an encoded header gives its fields back |
| Ipv4.DecodeIpv4Spec | int_receive.py:136-177 | decoding succeeds if and only if the string has at least 160 bits; then the index is 160 and the header re-encodes to those bits |
| Ipv4.Ipv4RoundTrip | int_receive.py:136-177 | decoding inverts encoding for every header whose fields fit |
| Udp.EncodeUdp | int_receive.py:184-187 | the UDP field widths sum to 64 bits, 8 × UDP_SIZE |
| Udp.DecodeUdp | int_receive.py:192-206 | the chain of field reads over the header's bit string; its contract is `Udp.DecodeUdpSpec` (succeeds exactly on 64 bits or more, field by field in `Udp.DecodeUdpAt`) and `Udp.UdpRoundTrip` |
| Udp.DecodeUdpAt | int_receive.py:192-206 | on a binary string of at least 64 bits each field is the value of its bit range and the index ends at 64 |
| Udp.DecodeUdpShort | int_receive.py:192-206 | on a binary string shorter than 64 bits some read fails |
| Udp.UdpAtLossless | int_receive.py:192-206 | the fields read fit and re-encode to exactly the first 64 bits |
| Udp.UdpAtEncode | int_receive.py:192-206 | reading the bit ranges of an encoded header gives its fields back |
| Udp.DecodeUdpSpec | int_receive.py:192-206 | decoding succeeds if and only if the string has at least 64 bits; then the index is 64 and the header re-encodes to those bits |
| Udp.UdpRoundTrip | int_receive.py:192-206 | decoding inverts encoding for every header whose fields fit |
| IntShim.EncodeShim | int_receive.py:212-216 | the shim field widths sum to 32 bits, 8 × INT_SHIM_SIZE |
| IntShim.DecodeShim | int_receive.py:221-238 | the chain of field reads over the header's bit string; its contract is `IntShim.DecodeShimSpec` (succeeds exactly on 32 bits or more, field by field in `IntShim.DecodeShimAt`) and `IntShim.ShimRoundTrip` |
| IntShim.DecodeShimAt | int_receive.py:221-238 | on a binary string of at least 32 bits each field is the value of its bit range and the index ends at 32 |
| IntShim.DecodeShimShort | int_receive.py:221-238 | on a binary string shorter than 32 bits some read fails |
| IntShim.ShimAtLossless | int_receive.py:221-238 | the fields read fit and re-encode to exactly the first 32 bits |
| IntShim.ShimAtEncode | int_receive.py:221-238 | reading the bit ranges of an encoded header gives its fields back |
| IntShim.DecodeShimSpec | int_receive.py:221-238 | decoding succeeds if and only if the string has at least 32 bits; then the index is 32 and the header re-encodes to those bits |
| IntShim.ShimRoundTrip | int_receive.py:221-238 | decoding inverts encoding for every header whose fields fit |
| IntMetadata.EncodeIntHeader | int_receive.py:244-257 | the INT metadata header field widths sum to 64 bits, 8 × INT_HEADER |
| IntMetadata.DecodeIntHeader | int_receive.py:262-306 | the chain of field reads over the header's bit string; its contract is `IntMetadata.DecodeIntHeaderSpec` (succeeds exactly on 64 bits or more, field by field in `IntMetadata.DecodeIntHeaderAt`) and `IntMetadata.IntHeaderRoundTrip` |
| IntMetadata.DecodeIntHeaderAt | int_receive.py:262-306 | on a binary string of at least 64 bits each field is the value of its bit range and the index ends at 64 |
| IntMetadata.DecodeIntHeaderShort | int_receive.py:262-306 | on a binary string shorter than 64 bits some read fails |
| IntMetadata.IntHeaderAtLossless | int_receive.py:262-306 | the fields read fit and re-encode to exactly the first 64 bits |
| IntMetadata.IntHeaderAtEncode | int_receive.py:262-306 | reading the bit ranges of an encoded header gives its fields back |
| IntMetadata.DecodeIntHeaderSpec | int_receive.py:262-306 | decoding succeeds if and only if the string has at least 64 bits; then the index is 64 and the header re-encodes to those bits |
| IntMetadata.IntHeaderRoundTrip | int_receive.py:262-306 | decoding inverts encoding for every header whose fields fit |
| IntReceive.ParseIntReportHdr | int_receive.py:43-89 | slices the header's 16 bytes, expands them and decodes them; its contract is `IntReceive.ParseIntReportHdrSpec` and `IntReceive.ParseIntReportHdrRoundTrip` |
| IntReceive.ParseIntReportHdrSpec | int_receive.py:43-89 | the parser fails if and only if its 16 bytes are not all in the payload; otherwise it advances the offset by 16 and the header re-encodes to the span's bits |
| IntReceive.ParseIntReportHdrRoundTrip | int_receive.py:43-89 | a report header packed into the payload at any offset, with any bytes around it, is parsed back, ending 16 bytes later |
| Report.DecodeReportAsWritten | int_receive.py:61-87 | the report header's reads with `bin2int` as written; its contract is `Report.DecodeReportAsWrittenSpec` |
| Report.DecodeReportAsWrittenSpec | int_receive.py:61-87 | on a binary string, decoding as written succeeds if and only if the string is longer than 96 bits, so the last field (bit 96) has a bit to read; then the index is always 128 |
| BitCursor.AsWrittenReadStarts | int_receive.py:36-40 | as written, a positive-length read that starts inside a binary string succeeds and advances the index by `len`, however few bits remain |
| IntReceive.ParseIntReportHdrAsWritten | int_receive.py:43-89 | `parse_int_report_hdr` with `bin2int` as written; its contract is `IntReceive.ParseIntReportHdrAsWrittenSpec` |
| IntReceive.ParseIntReportHdrAsWrittenSpec | int_receive.py:43-89 | as written, the report parser succeeds if and only if at least 13 of its 16 bytes are in the payload, and then always advances the offset by 16 |
| IntReceive.ParseIntReportHdrAsWrittenOverruns | int_receive.py:43-89 | on a span cut short by one to three bytes, the parser as written returns a header and an offset beyond the payload, where the corrected parser fails |
| IntReceive.ParseEthernetHdr | int_receive.py:91-116 | slices the header's 14 bytes, expands them and decodes them; its contract is `IntReceive.ParseEthernetHdrSpec` and `IntReceive.ParseEthernetHdrRoundTrip` |
| IntReceive.ParseEthernetHdrSpec | int_receive.py:91-116 | the parser fails if and only if its 14 bytes are not all in the payload; otherwise it advances the offset by 14 and the header re-encodes to the span's bits |
| IntReceive.ParseEthernetHdrRoundTrip | int_receive.py:91-116 | an Ethernet header packed into the payload at any offset is parsed back, ending 14 bytes later |
| IntReceive.ParseIpv4Hdr | int_receive.py:118-180 | slices the header's 20 bytes, expands them and decodes them; its contract is `IntReceive.ParseIpv4HdrSpec` and `IntReceive.ParseIpv4HdrRoundTrip` |
| IntReceive.ParseIpv4HdrSpec | int_receive.py:118-180 | the parser fails if and only if its 20 bytes are not all in the payload; otherwise it advances the offset by 20 and the header re-encodes to the span's bits |
| IntReceive.ParseIpv4HdrRoundTrip | int_receive.py:118-180 | an IPv4 header packed into the payload at any offset is parsed back, ending 20 bytes later |
| IntReceive.ParseUdpHdr | int_receive.py:183-209 | slices the header's 8 bytes, expands them and decodes them; its contract is `IntReceive.ParseUdpHdrSpec` and `IntReceive.ParseUdpHdrRoundTrip` |
| IntReceive.ParseUdpHdrSpec | int_receive.py:183-209 | the parser fails if and only if its 8 bytes are not all in the payload; otherwise it advances the offset by 8 and the header re-encodes to the span's bits |
| IntReceive.ParseUdpHdrRoundTrip | int_receive.py:183-209 | a UDP header packed into the payload at any offset is parsed back, ending 8 bytes later |
| IntReceive.ParseIntShimHdr | int_receive.py:211-241 | slices the header's 4 bytes, expands them and decodes them; its contract is `IntReceive.ParseIntShimHdrSpec` and `IntReceive.ParseIntShimHdrRoundTrip` |
| IntReceive.ParseIntShimHdrSpec | int_receive.py:211-241 | the parser fails if and only if its 4 bytes are not all in the payload; otherwise it advances the offset by 4 and the header re-encodes to the span's bits |
| IntReceive.ParseIntShimHdrRoundTrip | int_receive.py:211-241 | a shim header packed into the payload at any offset is parsed back, ending 4 bytes later |
| IntReceive.ParseIntHeader | int_receive.py:243-309 | slices the header's 8 bytes, expands them and decodes them; its contract is `IntReceive.ParseIntHeaderSpec` and `IntReceive.ParseIntHeaderRoundTrip` |
| IntReceive.ParseIntHeaderSpec | int_receive.py:243-309 | the parser fails if and only if its 8 bytes are not all in the payload; otherwise it advances the offset by 8 and the header re-encodes to the span's bits |
| IntReceive.ParseIntHeaderRoundTrip | int_receive.py:243-309 | an INT metadata header packed into the payload at any offset is parsed back, ending 8 bytes later |
| IntReceive.EncodeIntReport | int_receive.py:312-317 | the six headers laid out back to back take 560 bits, 8 × 70 bytes |
| IntReceive.IntParser | int_receive.py:311-326 | runs the six parsers from offset 0, each from the offset the previous one returned; its contract is `IntReceiveLayout.IntParserSpec` and `IntReceiveLayout.IntParserRoundTrip` |
| IntReceiveLayout.SpansParse | int_receive.py:320-326 | on a payload of at least 70 bytes each parser succeeds at its offset and returns the next one: 0→16→30→50→58→62→70 |
| IntReceiveLayout.IntParserOffsets | int_receive.py:311-326 | on a payload of at least 70 bytes the driver returns the headers the six parsers decode at offsets 0, 16, 30, 50, 58 and 62, and offset 70 |
| IntReceiveLayout.IntParserLayout | int_receive.py:312-326 | each of the six headers re-encodes to exactly the bits of its span: bytes 0-15, 16-29, 30-49, 50-57, 58-61 and 62-69 |
| IntReceiveLayout.IntParserFits | int_receive.py:320-326 | every field the driver returns fits its declared width |
| IntReceiveLayout.IntParserShort | int_receive.py:320-326 | a payload shorter than 70 bytes yields no headers at all |
| IntReceiveLayout.IntParserSpec | int_receive.py:311-326 | the driver succeeds if and only if the payload holds the 70 bytes of the six headers; then it ends at offset 70, and the headers fit and re-encode to exactly the first 70 bytes |
| IntReceiveLayout.EncodeIntReportInjective | int_receive.py:312-317 | six headers whose fields fit are determined by their layout: equal encodings mean equal headers |
| IntReceiveLayout.IntParserRoundTrip | int_receive.py:311-326 | any six headers whose fields fit, packed at the start of a payload and followed by any bytes, are parsed back exactly, ending at offset 70 |

## Left out

- `sniff`, `get_if`, `handle_pkt` and `main` are left out. They do network capture, interface lookup and the UDP destination-port 8002 filter. These are I/O, and the model takes the UDP payload as its input.
- Every `print` is left out. The parsers return the header they decode and the next offset, where the source prints the fields and returns only the offset. `int_parser` returns nothing in the source; here it returns the six headers and the final offset.
- Python exceptions are not modelled as such. `int('', 2)` raises a `ValueError` that escapes `int_parser`; here it is `None`, the same outcome as a corrected read that does not fit.
- BitCursor.IntBase2: only strings of '0' and '1' are modelled. Signs, whitespace, underscores and a `0b` prefix, which `int(b, 2)` also accepts, never occur, because every string it reads comes from `bytes2bin`.
- Negative slice bounds are not modelled, because every offset in the source is a non-negative count.
- The INT per-hop metadata after byte 70 is not decoded by `int_parser` and is not part of this model.
- The parsers use the function `ByteString.Bin`, not the method `ByteString.BytesToBin`, because a function cannot call a method. The method's `ensures` proves that the two agree.

## Findings

| source | as written | input that shows it | evidently intended | confidence | as-written member | corrected member |
|---|---|---|---|---|---|---|
| int_receive.py:36-40 | `bin2int` slices `binStr[bin_idx : bin_idx + len]`, which Python silently cuts short at the end of the string, and then advances the index by `len` anyway. When a header span is cut short by the end of the payload, a field that starts at or past the end of the span gets an empty slice, and `int('', 2)` raises `ValueError`. When the cut falls inside the last field instead, that field is read from the bits that remain and the parser returns a header and the full-size offset. For the report header this happens on a 13- to 15-byte span (its last field starts at bit 96, line 87): the parser returns offset 16. For `int_parser` as written, every payload shorter than 70 bytes raises except one of exactly 69 bytes. Then the last span has 7 bytes, `rsvd3` (bit 48, line 306) is read from 8 of its 16 bits, and parsing completes with offset 70. | A 15-byte report span (120 bits): the last 32-bit read starts at bit 96, returns the value of 24 bits, and the parser returns offset 16 | Read exactly `len` bits, and fail when fewer remain, so a header whose span is not all in the payload yields nothing | not executed | IntReceive.ParseIntReportHdrAsWrittenOverruns | BitCursor.Bin2Int |

`BitCursor.AsWrittenReadOverruns` states the general case of the same discrepancy
for one read, and `BitCursor.AsWrittenShortReportField` the report header's last
read on a 15-byte span. `Report.DecodeReportAsWrittenSpec` and
`IntReceive.ParseIntReportHdrAsWrittenSpec` give the exact lengths on which the
report parser as written returns a header.

The rest of the model uses the corrected `Bin2Int`, so each parser fails exactly
when its span does not fit (`IntReceive.Parse*Spec`). The driver then yields no
headers for a payload shorter than 70 bytes (`IntReceiveLayout.IntParserShort`,
`IntReceiveLayout.IntParserSpec`). As written the driver raises on all of those
payloads but one, so the model of the driver differs from the source only on a
payload of exactly 69 bytes. The single parsers differ on more lengths: the
report parser, for one, on spans of 13 to 15 bytes.
