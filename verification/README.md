# LeScanResult, modelled in Dafny

A model of the advertisement decoder of the Ruuvi Station Bluetooth library
(`LeScanResult`). It covers:

- `parse()`, which walks the AD structures of one Bluetooth LE
  advertisement. It picks out Eddystone URLs with a Ruuvi prefix
  (`https://ruu.vi/#`, `https://r/`) and manufacturer-specific data with
  Ruuvi's company id `0x0499`.
- `from(id, url, rawData, rssi)`, which chooses a format decoder:
  - the format 2/4 decoder on the base64 text in the URL fragment;
  - otherwise format 3 or 5, from the protocol byte at `PROTOCOL_OFFSET` = 7
    of the raw advertisement.

  It then stamps the device id, URL and signal strength onto the record the
  decoder returns.
- `parseByteDataFromB64` and the class's own base64 `encode` and `decode`.

Files:

- `java_lang.dfy` (`JavaLang`) models the Java semantics the code relies on:
  - `null` as `Option`;
  - an exception as `Result.Throws`, propagated with `:-` up to the
    nearest `catch`;
  - array reads and writes that throw out of bounds;
  - signed bytes, with `& 0xFF` and `(byte)`.
- `java_strings.dfy` (`JavaStrings`) models `getBytes()` (UTF-8),
  `contains` (as membership, `'#' in url`), `startsWith` and `split("#")`,
  including the dropping of trailing empty strings; `IndexOf` there is a
  helper of `split`, which the code never calls itself.
- `base64.dfy` (`Base64`) holds:
  - `encode` and `decode` as recursive functions;
  - `EncodeLoop` and `DecodeLoop`, which follow the Java index loops step by
    step and are proved to compute the same results.
- `base64_properties.dfy` (`Base64Properties`) holds the round trip
  `decode(encode(d)) == d`, the skipping rules and the failure cases.
- `scan_result.dfy` (`ScanResult`) holds `parseByteDataFromB64`, `from`
  and `parse`. The format decoders (`RuuviTagDecoder`) are function values
  `Decoders<R>`, and the sensor readings are the type parameter `R`. The
  result of `ADPayloadParser.parse` is a parameter.
- `scan_result_properties.dfy` (`ScanResultProperties`) states which
  decoder gets which bytes, when `from` throws, and which record `parse`
  keeps.

What the code does, which the model follows:

- The URL payload is `url.split("#")[1]`. That is the text between the
  first `#` and the next one, not everything after the first `#`.
- A URL with nothing but `#` after its first `#` makes `split` return at
  most one element (none at all when nothing precedes the first `#`
  either), so `[1]` throws.
- The protocol byte is read as a signed Java byte. Raw data of seven bytes
  or fewer throws.
- An exception inside the loop of `parse` ends the loop and returns the tag
  found so far, which may be non-null. A parser exception returns null.
- `decode` skips a character outside the alphabet only at the start of a
  four-character group. Inside a group, such a character leaves a six-bit
  gap: `"Q!QQ"` decodes to `[64, 4]`, while `"QQQ"` decodes to `[65, 4]`.
- `decode` throws on a non-ASCII character. Its bytes are negative and
  index outside the table.
- `parseByteDataFromB64` copies the decoded bytes into an eight-slot array.
  A payload longer than eight bytes therefore throws, and the result is null.

## Model

| member | source | states |
|---|---|---|
| JavaStrings.GetBytesNonNegative | default_bluetooth_library/src/main/java/com/ruuvi/station/bluetooth/decoder/LeScanResult.java:154 | `getBytes()` yields a negative byte exactly when the string holds a non-ASCII character |
| JavaStrings.SegmentsJoin | default_bluetooth_library/src/main/java/com/ruuvi/station/bluetooth/decoder/LeScanResult.java:61 | the `#`-separated pieces, joined back with `#`, give the URL back |
| JavaStrings.SegmentsOmitSeparator | default_bluetooth_library/src/main/java/com/ruuvi/station/bluetooth/decoder/LeScanResult.java:61 | no `#`-separated piece contains `#` |
| JavaStrings.DropTrailingEmpty | default_bluetooth_library/src/main/java/com/ruuvi/station/bluetooth/decoder/LeScanResult.java:61 | `split` with limit zero keeps a prefix of the pieces, removes only empty ones, and never ends on an empty one |
| JavaStrings.SplitSecond | default_bluetooth_library/src/main/java/com/ruuvi/station/bluetooth/decoder/LeScanResult.java:61 | `split("#")[1]` exists exactly when a character other than `#` follows the first `#`, and it is then the text up to the next `#` |
| Base64Properties.AlphabetMatchesTable | default_bluetooth_library/src/main/java/com/ruuvi/station/bluetooth/decoder/LeScanResult.java:138-153 | the decode table maps each of the 64 alphabet characters back to its index |
| Base64Properties.TableMatchesAlphabet | default_bluetooth_library/src/main/java/com/ruuvi/station/bluetooth/decoder/LeScanResult.java:102-106 | every character the decode table accepts is the alphabet character of its value |
| Base64.GroupChars | default_bluetooth_library/src/main/java/com/ruuvi/station/bluetooth/decoder/LeScanResult.java:124-128 | the inner loop of `encode` appends exactly as many characters as it runs iterations |
| Base64Properties.GroupCharsAlphabet | default_bluetooth_library/src/main/java/com/ruuvi/station/bluetooth/decoder/LeScanResult.java:124-128 | every character the inner loop of `encode` appends is an alphabet character |
| Base64.EncodeLength | default_bluetooth_library/src/main/java/com/ruuvi/station/bluetooth/decoder/LeScanResult.java:101-135 | the encoding has four characters per started three-byte group, padding included |
| Base64.ReadQuantum | default_bluetooth_library/src/main/java/com/ruuvi/station/bluetooth/decoder/LeScanResult.java:112-122 | the top of `encode`'s loop packs the (up to) three bytes at `i` into the accumulator, unsigned, and counts one padding character per byte past the end |
| Base64.AppendGroup | default_bluetooth_library/src/main/java/com/ruuvi/station/bluetooth/decoder/LeScanResult.java:124-128 | the inner character loop appends exactly the group's characters |
| Base64.EncodeLoop | default_bluetooth_library/src/main/java/com/ruuvi/station/bluetooth/decoder/LeScanResult.java:108-134 | the index loop of `encode`, with its running `pad`, computes the encoding |
| Base64Properties.EncodeAlphabet | default_bluetooth_library/src/main/java/com/ruuvi/station/bluetooth/decoder/LeScanResult.java:124-132 | `encode` writes only alphabet characters and `=` |
| Base64.GroupCount | default_bluetooth_library/src/main/java/com/ruuvi/station/bluetooth/decoder/LeScanResult.java:167-186 | a four-character group is decoded without an exception exactly when its characters index the table, and it yields one byte per valid character after the first |
| Base64.DecodeBytes | default_bluetooth_library/src/main/java/com/ruuvi/station/bluetooth/decoder/LeScanResult.java:156-188 | decoding succeeds exactly when every byte indexes the table, and yields at most three bytes per four characters |
| Base64.ReadGroup | default_bluetooth_library/src/main/java/com/ruuvi/station/bluetooth/decoder/LeScanResult.java:167-179 | reading the three slots after a group's first character throws, or gives the accumulator and count the group decodes to |
| Base64.AppendBytes | default_bluetooth_library/src/main/java/com/ruuvi/station/bluetooth/decoder/LeScanResult.java:181-186 | the emit loop writes the top byte of the accumulator `num` times, shifting by eight |
| Base64.DecodeLoop | default_bluetooth_library/src/main/java/com/ruuvi/station/bluetooth/decoder/LeScanResult.java:154-189 | the index loop of `decode`, with its skips and four-character steps, computes the decoding |
| Base64Properties.DecodeEncode | default_bluetooth_library/src/main/java/com/ruuvi/station/bluetooth/decoder/LeScanResult.java:101-190 | decoding the encoding of any byte array gives the array back |
| Base64Properties.SkipInvalidPrefix | default_bluetooth_library/src/main/java/com/ruuvi/station/bluetooth/decoder/LeScanResult.java:158-165 | characters outside the alphabet in front of a text do not change its decoding |
| Base64Properties.DecodeGapInGroup | default_bluetooth_library/src/main/java/com/ruuvi/station/bluetooth/decoder/LeScanResult.java:167-186 | a character outside the alphabet inside a group leaves a gap of six zero bits: "Q!QQ" decodes to [64, 4] |
| Base64Properties.DecodeShortGroup | default_bluetooth_library/src/main/java/com/ruuvi/station/bluetooth/decoder/LeScanResult.java:167-186 | a final group of three characters decodes to two bytes: "QQQ" decodes to [65, 4] |
| Base64Properties.InvalidInsideGroupIsNotSkipped | default_bluetooth_library/src/main/java/com/ruuvi/station/bluetooth/decoder/LeScanResult.java:158-179 | a character outside the alphabet is skipped only at a group start: "Q!QQ" and "QQQ" decode differently |
| Base64Properties.DecodeFailsOnNonAscii | default_bluetooth_library/src/main/java/com/ruuvi/station/bluetooth/decoder/LeScanResult.java:154-158 | `decode` throws exactly when the text holds a non-ASCII character (of a Dafny string, which has no unpaired surrogates) |
| Base64Properties.DecodeSize | default_bluetooth_library/src/main/java/com/ruuvi/station/bluetooth/decoder/LeScanResult.java:156-188 | ASCII text always decodes, to at most three bytes per four characters |
| ScanResult.CopyUnsigned | default_bluetooth_library/src/main/java/com/ruuvi/station/bluetooth/decoder/LeScanResult.java:92-94 | the copy into `pData` succeeds exactly when the bytes fit, and then stores each byte read as unsigned and leaves the other slots alone |
| ScanResult.ParseByteDataFromB64 | default_bluetooth_library/src/main/java/com/ruuvi/station/bluetooth/decoder/LeScanResult.java:89-99 | the result is the decoded bytes when decoding succeeds with at most eight bytes, and null otherwise |
| ScanResult.Stamp | default_bluetooth_library/src/main/java/com/ruuvi/station/bluetooth/decoder/LeScanResult.java:79-83 | a decoded record gets the id, url and rssi and keeps its readings; null stays null |
| ScanResult.From | default_bluetooth_library/src/main/java/com/ruuvi/station/bluetooth/decoder/LeScanResult.java:58-87 | a record `from` returns carries the given id, url and rssi; `from` throws exactly when a `#` URL splits into fewer than two pieces, or, without one, when the raw data has no byte at offset 7 |
| ScanResultProperties.ParseByteDataNonAscii | default_bluetooth_library/src/main/java/com/ruuvi/station/bluetooth/decoder/LeScanResult.java:89-99 | a fragment with a non-ASCII character gives null |
| ScanResultProperties.ParseByteDataShortText | default_bluetooth_library/src/main/java/com/ruuvi/station/bluetooth/decoder/LeScanResult.java:89-99 | every ASCII fragment of at most eleven characters gives a payload |
| ScanResultProperties.ParseByteDataOfEncode | default_bluetooth_library/src/main/java/com/ruuvi/station/bluetooth/decoder/LeScanResult.java:89-99 | the encoding of up to eight bytes parses back to them, and the encoding of a longer payload gives null |
| ScanResultProperties.UrlBranch | default_bluetooth_library/src/main/java/com/ruuvi/station/bluetooth/decoder/LeScanResult.java:60-63 | with a `#` in the URL, the raw data is ignored; `from` throws exactly when only `#` follows the first `#`, and otherwise the format 2/4 decoder gets the decoded text between the first two `#` |
| ScanResultProperties.TrailingHashThrows | default_bluetooth_library/src/main/java/com/ruuvi/station/bluetooth/decoder/LeScanResult.java:61 | a URL ending in its only `#`, such as the bare long prefix, makes `from` throw |
| ScanResultProperties.EncodeHasNoHash | default_bluetooth_library/src/main/java/com/ruuvi/station/bluetooth/decoder/LeScanResult.java:101-135 | base64 text never contains the fragment separator `#` |
| ScanResultProperties.UrlRoundTrip | default_bluetooth_library/src/main/java/com/ruuvi/station/bluetooth/decoder/LeScanResult.java:60-63 | a URL whose fragment is the encoding of one to eight bytes hands exactly those bytes to the format 2/4 decoder |
| ScanResultProperties.RawBranch | default_bluetooth_library/src/main/java/com/ruuvi/station/bluetooth/decoder/LeScanResult.java:64-76 | without a `#` URL, protocol byte 3 or 5 at offset 7 selects its decoder on the raw data, any other byte gives null, seven bytes or fewer throw, and no raw data gives null |
| ScanResultProperties.NoRuuviStructure | default_bluetooth_library/src/main/java/com/ruuvi/station/bluetooth/decoder/LeScanResult.java:30-50 | structures that are neither Ruuvi URLs nor Ruuvi manufacturer data leave the tag unchanged |
| ScanResultProperties.ScanAppend | default_bluetooth_library/src/main/java/com/ruuvi/station/bluetooth/decoder/LeScanResult.java:30-50 | while no `from` call throws, the loop over a concatenation is the loop over each part in turn |
| ScanResultProperties.ThrowStopsScan | default_bluetooth_library/src/main/java/com/ruuvi/station/bluetooth/decoder/LeScanResult.java:23-53 | an exception from `from` ends the loop, and the later structures have no effect |
| ScanResultProperties.LastRuuviWins | default_bluetooth_library/src/main/java/com/ruuvi/station/bluetooth/decoder/LeScanResult.java:30-50 | when no `from` call throws, `parse` keeps the result from the last Ruuvi structure, null included |
| ScanResultProperties.ScanOrigin | default_bluetooth_library/src/main/java/com/ruuvi/station/bluetooth/decoder/LeScanResult.java:30-50 | the loop ends on its starting tag or on a record that some Ruuvi structure's `from` returned |
| ScanResultProperties.ParseRecord | default_bluetooth_library/src/main/java/com/ruuvi/station/bluetooth/decoder/LeScanResult.java:20-56 | a parser exception gives null; a record `parse` returns has the device address, the scan's rssi, and no URL or one with a Ruuvi prefix |
| ScanResultProperties.ParseWithoutRuuvi | default_bluetooth_library/src/main/java/com/ruuvi/station/bluetooth/decoder/LeScanResult.java:20-56 | an advertisement without Ruuvi structures gives null |

## Left out

- The format decoders `DecodeFormat2and4`, `DecodeFormat3` and `DecodeFormat5`, and the fields of `FoundRuuviTag` other than id, url and rssi: they are not part of this model. They are arbitrary functions here, and the readings are a type parameter.
- Decoders that throw: the model's decoders return a record or null. An exception from a decoder would end `parse`'s loop, just like the exceptions `from` itself can raise.
- `ADPayloadParser` and the Eddystone and manufacturer-specific structure classes: they are not part of this model. Their output is a parameter: a list of URL, manufacturer and other structures, or an exception.
- `BluetoothDevice`: only its address is used, and it is a field of `LeScanResult`.
- Timber logging: it has no effect on results.
- `ScannerSettings.kt`: it is not called from the modelled code.
- `getBytes()` is modelled as UTF-8, Android's default charset, and a `char` as a Dafny character. A character above U+FFFF gives the same four bytes as Java's surrogate pair, but an unpaired surrogate cannot be represented: Java's `getBytes()` turns one into `?` (63), which `decode` skips instead of throwing. `Base64Properties.DecodeFailsOnNonAscii` therefore speaks only of strings without unpaired surrogates. The only fact the proofs use is that ASCII characters give their code and every other character gives negative bytes.
- Base64Properties.DecodeFailsOnNonAscii: stated for Dafny strings only, which cannot hold an unpaired UTF-16 surrogate; Java would encode one as `?`, which `decode` skips.
- The `|=` of `encode` and the `b | (…)` of `decode`'s group reads are additions here: in both, the pieces occupy disjoint bits of the accumulator, so both operators give the same value.
- Java's 32-bit shifts in `encode` and `decode` are unbounded multiplications here. Only bits 16 to 23 are ever read, and those bits are the same either way.
- The `int[8]` array of `parseByteDataFromB64`: its contents are modelled (`ScanResult.CopyUnsigned` stores each byte unsigned), but the method never reads them, so only the bound check affects the result.
