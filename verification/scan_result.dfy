/**
 The advertisement dispatcher of LeScanResult: `parse` walks the AD
 structures of one advertisement and hands each Ruuvi structure to `from`,
 which picks a format decoder from a URL fragment or from the protocol byte
 at offset 7 and stamps the device id, URL and signal strength onto the
 decoded record. The format decoders and the AD structure parser are not
 part of this model: they are given to the functions here as values.
 */
module ScanResult {
  import opened JavaLang
  import opened JavaStrings
  import Base64

  /** `PROTOCOL_OFFSET`: where the protocol version sits in the raw bytes,
      and the offset every decoder is given. */
  const ProtocolOffset := 7

  /** The Bluetooth company id of Ruuvi Innovations. */
  const RuuviCompanyId := 0x0499

  const LongUrlPrefix := "https://ruu.vi/#"
  const ShortUrlPrefix := "https://r/"

  /** The number of `int` slots `parseByteDataFromB64` copies into. */
  const PayloadSlots := 8

  /** `FoundRuuviTag`: the fields `from` sets, and the decoded sensor
      readings, whose layout belongs to the format decoders and is left
      abstract as `R`. */
  datatype FoundTag<R> = FoundTag(id: Option<string>, url: Option<string>, rssi: int, readings: R)

  /** `RuuviTagDecoder.decode(data, offset)`: a record, or null. */
  type TagDecoder<R> = (Option<seq<SByte>>, int) -> Option<FoundTag<R>>

  /** The three decoder classes `from` can instantiate. */
  datatype Decoders<R> = Decoders(format2and4: TagDecoder<R>, format3: TagDecoder<R>, format5: TagDecoder<R>)

  datatype Format = Format2and4 | Format3 | Format5

  function DecoderFor<R>(decoders: Decoders<R>, format: Format): TagDecoder<R> {
    match format
    case Format2and4 => decoders.format2and4
    case Format3 => decoders.format3
    case Format5 => decoders.format5
  }

  // --------------------------------------------------- parseByteDataFromB64

  /** The copy loop of `parseByteDataFromB64`: `pData[i] = bData[i] & 0xFF`
      for `i` from `from` on; writing past the end of `pData` throws. */
  function CopyUnsigned(pData: seq<int>, bData: seq<SByte>, from: nat): (r: Result<seq<int>>)
    requires from <= |bData|
    ensures r.Ok? <==> from == |bData| || |bData| <= |pData|
    ensures r.Ok? ==> |r.value| == |pData|
    ensures r.Ok? ==> forall i :: from <= i < |bData| ==> r.value[i] == Unsigned(bData[i])
    ensures r.Ok? ==> forall i :: 0 <= i < |pData| && (i < from || |bData| <= i) ==> r.value[i] == pData[i]
    decreases |bData| - from
  {
    if from == |bData| then Ok(pData)
    else
      var stored :- Store(pData, from, Unsigned(bData[from]));
      CopyUnsigned(stored, bData, from + 1)
  }

  /** `parseByteDataFromB64(data)`: the decoded bytes, or null when decoding
      throws or when the copy into the eight-slot array overflows. */
  function ParseByteDataFromB64(data: string): (r: Option<seq<SByte>>)
    ensures r.Some? <==> Base64.Decode(data).Ok? && |Base64.Decode(data).value| <= PayloadSlots
    ensures r.Some? ==> r.value == Base64.Decode(data).value
  {
    match Base64.Decode(data)
    case Throws(_) => None
    case Ok(bData) =>
      match CopyUnsigned(seq(PayloadSlots, _ => 0), bData, 0)
      case Throws(_) => None
      case Ok(_) => Some(bData)
  }

  // ------------------------------------------------------------------ from

  /** The decoder `from` chooses and the bytes it hands that decoder. */
  datatype Choice = Choice(format: Format, data: Option<seq<SByte>>)

  /** The first half of `from`: a URL holding `#` selects the format 2/4
      decoder on the decoded second `#`-separated segment; otherwise the
      signed byte at offset 7 of the raw data selects format 3 or 5; any
      other case selects nothing. */
  function Select(url: Option<string>, rawData: Option<seq<SByte>>): Result<Option<Choice>> {
    if url.Some? && '#' in url.value then
      var data :- At(Split(url.value, '#'), 1);
      Ok(Some(Choice(Format2and4, ParseByteDataFromB64(data))))
    else if rawData.Some? then
      var protocolVersion :- At(rawData.value, ProtocolOffset);
      if protocolVersion == 3 then Ok(Some(Choice(Format3, rawData)))
      else if protocolVersion == 5 then Ok(Some(Choice(Format5, rawData)))
      else Ok(None)
    else Ok(None)
  }

  /** The fields `from` sets on a record the decoder returned. */
  function Stamp<R>(tag: Option<FoundTag<R>>, id: string, url: Option<string>, rssi: int): (r: Option<FoundTag<R>>)
    ensures r.Some? <==> tag.Some?
    ensures r.Some? ==> r.value == FoundTag(Some(id), url, rssi, tag.value.readings)
  {
    match tag
    case None => None
    case Some(t) => Some(t.(id := Some(id), url := url, rssi := rssi))
  }

  /** `from(id, url, rawData, rssi)`: the record the chosen decoder returns,
      with id, url and rssi set from the arguments, or null. */
  function From<R>(decoders: Decoders<R>, id: string, url: Option<string>, rawData: Option<seq<SByte>>, rssi: int)
    : (r: Result<Option<FoundTag<R>>>)
    ensures r.Ok? && r.value.Some? ==>
      && r.value.value.id == Some(id) && r.value.value.url == url && r.value.value.rssi == rssi
    ensures r.Throws? <==>
      if url.Some? && '#' in url.value then |Split(url.value, '#')| < 2
      else rawData.Some? && |rawData.value| <= ProtocolOffset
  {
    var choice :- Select(url, rawData);
    match choice
    case None => Ok(None)
    case Some(Choice(format, data)) =>
      Ok(Stamp(DecoderFor(decoders, format)(data, ProtocolOffset), id, url, rssi))
  }

  // ----------------------------------------------------------------- parse

  /** The AD structures `parse` tells apart; `ADPayloadParser` produces them
      and is not part of this model. */
  datatype AdStructure =
    | EddystoneUrl(url: string)
    | ManufacturerSpecific(companyId: int)
    | OtherStructure

  /** Whether `parse` calls `from` for a structure. */
  predicate IsRuuvi(s: AdStructure) {
    match s
    case EddystoneUrl(url) => StartsWith(url, LongUrlPrefix) || StartsWith(url, ShortUrlPrefix)
    case ManufacturerSpecific(companyId) => companyId == RuuviCompanyId
    case OtherStructure => false
  }

  /** The url and raw data `parse` passes to `from` for a Ruuvi structure:
      the URL alone, or the whole advertisement (not just the manufacturer
      payload). */
  function FromArguments(s: AdStructure, scanData: seq<SByte>): (Option<string>, Option<seq<SByte>>)
    requires IsRuuvi(s)
  {
    if s.EddystoneUrl? then (Some(s.url), None) else (None, Some(scanData))
  }

  /** A scan result: the advertising device's address, the raw
      advertisement and the received signal strength. */
  datatype LeScanResult = LeScanResult(address: string, scanData: seq<SByte>, rssi: int)

  /** The call `parse` makes for a Ruuvi structure. */
  function FromStructure<R>(decoders: Decoders<R>, scan: LeScanResult, s: AdStructure): Result<Option<FoundTag<R>>>
    requires IsRuuvi(s)
  {
    var (url, rawData) := FromArguments(s, scan.scanData);
    From(decoders, scan.address, url, rawData, scan.rssi)
  }

  /** The loop of `parse` from `tag` on: each Ruuvi structure replaces
      `tag` with the result of `from`, null included; an exception from
      `from` ends the loop with `tag` as it stands. */
  function ScanStructures<R>(decoders: Decoders<R>, scan: LeScanResult, structures: seq<AdStructure>,
                             tag: Option<FoundTag<R>>): Option<FoundTag<R>>
    decreases |structures|
  {
    if |structures| == 0 then tag
    else if !IsRuuvi(structures[0]) then ScanStructures(decoders, scan, structures[1..], tag)
    else
      match FromStructure(decoders, scan, structures[0])
      case Throws(_) => tag
      case Ok(next) => ScanStructures(decoders, scan, structures[1..], next)
  }

  /** `parse()`, where `parsed` is what `ADPayloadParser.parse(scanData)`
      returned or threw. */
  function Parse<R>(decoders: Decoders<R>, scan: LeScanResult, parsed: Result<seq<AdStructure>>): Option<FoundTag<R>> {
    match parsed
    case Throws(_) => None
    case Ok(structures) => ScanStructures(decoders, scan, structures, None)
  }
}
