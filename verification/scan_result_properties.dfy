/**
 What `parseByteDataFromB64`, `from` and `parse` promise: which decoder a
 URL or raw advertisement reaches and with which bytes, when `from` throws,
 and which record `parse` keeps out of several Ruuvi structures.
 */
module ScanResultProperties {
  import opened JavaLang
  import opened JavaStrings
  import opened Base64
  import opened Base64Properties
  import opened ScanResult

  // ---------------------------------------------------- parseByteDataFromB64

  /** A fragment with a non-ASCII character has no payload. */
  lemma ParseByteDataNonAscii(data: string)
    requires exists k :: 0 <= k < |data| && !IsAscii(data[k])
    ensures ParseByteDataFromB64(data) == None
  {
    DecodeFailsOnNonAscii(data);
  }

  /** An ASCII fragment of at most eleven characters always has a payload:
      it decodes to at most eight bytes, which fit the copy. */
  lemma ParseByteDataShortText(data: string)
    requires forall k :: 0 <= k < |data| ==> IsAscii(data[k])
    requires |data| <= 11
    ensures ParseByteDataFromB64(data).Some?
  {
    DecodeSize(data);
  }

  /** The encoding of a payload of up to eight bytes parses back to the
      payload; a longer payload overflows the copy and parses to null. */
  lemma ParseByteDataOfEncode(payload: seq<SByte>)
    ensures ParseByteDataFromB64(Encode(payload)) == if |payload| <= PayloadSlots then Some(payload) else None
  {
    DecodeEncode(payload);
  }

  // ------------------------------------------------------------------ from

  /** A URL holding `#` decides `from` alone, whatever the raw data: it throws
      exactly when nothing but `#` follows the first `#`, and otherwise the
      format 2/4 decoder gets the decoded text between the first `#` and the
      next one (or the end). */
  lemma UrlBranch<R>(decoders: Decoders<R>, id: string, url: string, rawData: Option<seq<SByte>>, rssi: int)
    requires '#' in url
    ensures var after := url[IndexOf(url, '#') + 1..];
      && (From(decoders, id, Some(url), rawData, rssi).Ok? <==> !AllSeparators(after, '#'))
      && (From(decoders, id, Some(url), rawData, rssi).Ok? ==>
            From(decoders, id, Some(url), rawData, rssi)
            == Ok(Stamp(decoders.format2and4(ParseByteDataFromB64(after[..IndexOf(after, '#')]), ProtocolOffset),
                        id, Some(url), rssi)))
  {
    SplitSecond(url, '#');
  }

  /** In a `#`-free prefix, `#`, and a rest, the first `#` is the one after
      the prefix. */
  lemma HashAfterPrefix(prefix: string, rest: string)
    requires '#' !in prefix
    ensures var url := prefix + "#" + rest;
      IndexOf(url, '#') == |prefix| && url[|prefix| + 1..] == rest
  {
    var url := prefix + "#" + rest;
    assert url[|prefix|] == '#';
    forall j | 0 <= j < |prefix| ensures url[j] != '#' {
      assert url[j] == prefix[j];
    }
  }

  /** A `#`-free prefix followed by a `#` and nothing else makes `from`
      throw, as the bare long URL prefix does. */
  lemma TrailingHashThrows<R>(decoders: Decoders<R>, id: string, prefix: string, rawData: Option<seq<SByte>>, rssi: int)
    requires '#' !in prefix
    ensures From(decoders, id, Some(prefix + "#"), rawData, rssi).Throws?
    ensures From(decoders, id, Some(LongUrlPrefix), rawData, rssi).Throws?
  {
    TrailingHash(decoders, id, prefix, rawData, rssi);
    var host := "https://ruu.vi/";
    assert host + "#" == LongUrlPrefix;
    TrailingHash(decoders, id, host, rawData, rssi);
  }

  lemma TrailingHash<R>(decoders: Decoders<R>, id: string, prefix: string, rawData: Option<seq<SByte>>, rssi: int)
    requires '#' !in prefix
    ensures From(decoders, id, Some(prefix + "#"), rawData, rssi).Throws?
  {
    HashAfterPrefix(prefix, "");
    assert prefix + "#" + "" == prefix + "#";
    UrlBranch(decoders, id, prefix + "#", rawData, rssi);
  }

  /** Base64 text never holds a `#`. */
  lemma EncodeHasNoHash(payload: seq<SByte>)
    ensures '#' !in Encode(payload)
    ensures |payload| > 0 ==> |Encode(payload)| > 0
  {
    EncodeAlphabet(payload);
    assert TableEntry('#' as int) == -1;
  }

  /** In a `#`-free prefix, `#`, and a non-empty `#`-free text, the second
      `#`-separated segment is the text. */
  lemma UrlPayload(prefix: string, text: string)
    requires '#' !in prefix && '#' !in text && |text| > 0
    ensures var url := prefix + "#" + text; '#' in url && IndexOf(url, '#') == |prefix|
    ensures var url := prefix + "#" + text;
      var after := url[IndexOf(url, '#') + 1..];
      !AllSeparators(after, '#') && after[..IndexOf(after, '#')] == text
  {
    var url := prefix + "#" + text;
    HashAfterPrefix(prefix, text);
    assert url[|prefix|] == '#';
    assert IndexOf(text, '#') == |text|;
    assert text[..|text|] == text;
    assert text[0] != '#';
  }

  /** A URL made of a `#`-free prefix, `#` and the encoding of one to eight
      bytes reaches the format 2/4 decoder with exactly those bytes. */
  lemma UrlRoundTrip<R>(decoders: Decoders<R>, id: string, prefix: string, payload: seq<SByte>,
                        rawData: Option<seq<SByte>>, rssi: int)
    requires '#' !in prefix
    requires 1 <= |payload| <= PayloadSlots
    ensures var url := prefix + "#" + Encode(payload);
      From(decoders, id, Some(url), rawData, rssi)
      == Ok(Stamp(decoders.format2and4(Some(payload), ProtocolOffset), id, Some(url), rssi))
  {
    var text := Encode(payload);
    EncodeHasNoHash(payload);
    UrlPayload(prefix, text);
    UrlBranch(decoders, id, prefix + "#" + text, rawData, rssi);
    ParseByteDataOfEncode(payload);
  }

  /** Without a `#` in the URL, `from` reads the protocol version at offset
      7 of the raw data: 3 and 5 select their decoders on the raw data, any
      other version gives null, data of seven bytes or fewer throws, and no
      raw data gives null. */
  lemma RawBranch<R>(decoders: Decoders<R>, id: string, url: Option<string>, rawData: Option<seq<SByte>>, rssi: int)
    requires url.None? || '#' !in url.value
    ensures rawData.None? ==> From(decoders, id, url, rawData, rssi) == Ok(None)
    ensures rawData.Some? && |rawData.value| <= ProtocolOffset ==>
      From(decoders, id, url, rawData, rssi) == Throws(IndexOutOfBounds(ProtocolOffset, |rawData.value|))
    ensures rawData.Some? && |rawData.value| > ProtocolOffset ==>
      From(decoders, id, url, rawData, rssi)
      == Ok(match rawData.value[ProtocolOffset]
            case 3 => Stamp(decoders.format3(rawData, ProtocolOffset), id, url, rssi)
            case 5 => Stamp(decoders.format5(rawData, ProtocolOffset), id, url, rssi)
            case _ => None)
  {
  }

  // ----------------------------------------------------------------- parse

  /** Structures that are not Ruuvi structures leave the tag alone. */
  lemma {:induction false} NoRuuviStructure<R>(decoders: Decoders<R>, scan: LeScanResult,
                                               structures: seq<AdStructure>, tag: Option<FoundTag<R>>)
    requires forall i :: 0 <= i < |structures| ==> !IsRuuvi(structures[i])
    ensures ScanStructures(decoders, scan, structures, tag) == tag
    decreases |structures|
  {
    if |structures| > 0 {
      NoRuuviStructure(decoders, scan, structures[1..], tag);
    }
  }

  /** Scanning `a + b` is scanning `a`, then `b` from where `a` left the
      tag, as long as no `from` call in `a` throws. */
  lemma {:induction false} ScanAppend<R>(decoders: Decoders<R>, scan: LeScanResult,
                                         a: seq<AdStructure>, b: seq<AdStructure>, tag: Option<FoundTag<R>>)
    requires forall i :: 0 <= i < |a| && IsRuuvi(a[i]) ==> FromStructure(decoders, scan, a[i]).Ok?
    ensures ScanStructures(decoders, scan, a + b, tag)
         == ScanStructures(decoders, scan, b, ScanStructures(decoders, scan, a, tag))
    decreases |a|
  {
    if |a| == 0 {
      assert a + b == b;
    } else {
      assert (a + b)[0] == a[0];
      assert (a + b)[1..] == a[1..] + b;
      var next := if IsRuuvi(a[0]) then FromStructure(decoders, scan, a[0]).value else tag;
      ScanAppend(decoders, scan, a[1..], b, next);
    }
  }

  /** An exception from `from` ends the scan: the structures after it are
      never looked at, and the tag is what the structures before it made. */
  lemma {:induction false} ThrowStopsScan<R>(decoders: Decoders<R>, scan: LeScanResult,
                                             structures: seq<AdStructure>, k: nat, tag: Option<FoundTag<R>>)
    requires k < |structures| && IsRuuvi(structures[k])
    requires FromStructure(decoders, scan, structures[k]).Throws?
    ensures ScanStructures(decoders, scan, structures, tag) == ScanStructures(decoders, scan, structures[..k], tag)
    decreases k
  {
    if k > 0 {
      var rest := structures[1..];
      assert structures[..k][0] == structures[0];
      assert structures[..k][1..] == rest[..k - 1];
      if IsRuuvi(structures[0]) {
        match FromStructure(decoders, scan, structures[0])
        case Throws(_) =>
        case Ok(next) => ThrowStopsScan(decoders, scan, rest, k - 1, next);
      } else {
        ThrowStopsScan(decoders, scan, rest, k - 1, tag);
      }
    }
  }

  /** When no `from` call throws, the record `parse` keeps is the one made
      from the last Ruuvi structure, null included. */
  lemma LastRuuviWins<R>(decoders: Decoders<R>, scan: LeScanResult, structures: seq<AdStructure>,
                         k: nat, tag: Option<FoundTag<R>>)
    requires k < |structures| && IsRuuvi(structures[k])
    requires forall j :: k < j < |structures| ==> !IsRuuvi(structures[j])
    requires forall j :: 0 <= j <= k && IsRuuvi(structures[j]) ==> FromStructure(decoders, scan, structures[j]).Ok?
    ensures ScanStructures(decoders, scan, structures, tag) == FromStructure(decoders, scan, structures[k]).value
  {
    var before, rest := structures[..k], structures[k..];
    assert structures == before + rest;
    assert forall i :: 0 <= i < |before| ==> before[i] == structures[i];
    ScanAppend(decoders, scan, before, rest, tag);
    LastStructure(decoders, scan, rest, ScanStructures(decoders, scan, before, tag));
  }

  /** A Ruuvi structure whose `from` returns, followed by no other Ruuvi
      structure, leaves its record as the scan's result. */
  lemma LastStructure<R>(decoders: Decoders<R>, scan: LeScanResult, structures: seq<AdStructure>,
                         tag: Option<FoundTag<R>>)
    requires |structures| > 0 && IsRuuvi(structures[0]) && FromStructure(decoders, scan, structures[0]).Ok?
    requires forall j :: 0 < j < |structures| ==> !IsRuuvi(structures[j])
    ensures ScanStructures(decoders, scan, structures, tag) == FromStructure(decoders, scan, structures[0]).value
  {
    var after := structures[1..];
    assert forall i :: 0 <= i < |after| ==> after[i] == structures[1 + i];
    NoRuuviStructure(decoders, scan, after, FromStructure(decoders, scan, structures[0]).value);
  }

  /** The scan ends on the tag it started with or on a record some Ruuvi
      structure's `from` returned. */
  lemma {:induction false} ScanOrigin<R>(decoders: Decoders<R>, scan: LeScanResult,
                                         structures: seq<AdStructure>, tag: Option<FoundTag<R>>)
    ensures var r := ScanStructures(decoders, scan, structures, tag);
      r == tag || exists k :: 0 <= k < |structures| && IsRuuvi(structures[k])
                             && FromStructure(decoders, scan, structures[k]) == Ok(r)
    decreases |structures|
  {
    if |structures| > 0 {
      var rest := structures[1..];
      var r := ScanStructures(decoders, scan, structures, tag);
      var next := if IsRuuvi(structures[0]) && FromStructure(decoders, scan, structures[0]).Ok?
        then FromStructure(decoders, scan, structures[0]).value else tag;
      if IsRuuvi(structures[0]) && FromStructure(decoders, scan, structures[0]).Throws? {
        assert r == tag;
      } else {
        ScanOrigin(decoders, scan, rest, next);
        assert r == ScanStructures(decoders, scan, rest, next);
        if r != next {
          var k :| 0 <= k < |rest| && IsRuuvi(rest[k]) && FromStructure(decoders, scan, rest[k]) == Ok(r);
          assert structures[k + 1] == rest[k];
        }
      }
    }
  }

  /** A record `parse` returns carries the scan's address and signal
      strength, and the URL it was decoded from: none for raw data, or one
      with a Ruuvi prefix. A parser exception gives null. */
  lemma ParseRecord<R>(decoders: Decoders<R>, scan: LeScanResult, parsed: Result<seq<AdStructure>>)
    ensures parsed.Throws? ==> Parse(decoders, scan, parsed) == None
    ensures var r := Parse(decoders, scan, parsed);
      r.Some? ==>
        && r.value.id == Some(scan.address)
        && r.value.rssi == scan.rssi
        && (r.value.url.None? || StartsWith(r.value.url.value, LongUrlPrefix)
                              || StartsWith(r.value.url.value, ShortUrlPrefix))
  {
    if parsed.Ok? {
      var structures := parsed.value;
      var r := Parse(decoders, scan, parsed);
      ScanOrigin(decoders, scan, structures, None);
      if r.Some? {
        var k :| 0 <= k < |structures| && IsRuuvi(structures[k])
                 && FromStructure(decoders, scan, structures[k]) == Ok(r);
      }
    }
  }

  /** An advertisement without Ruuvi structures parses to null. */
  lemma ParseWithoutRuuvi<R>(decoders: Decoders<R>, scan: LeScanResult, structures: seq<AdStructure>)
    requires forall i :: 0 <= i < |structures| ==> !IsRuuvi(structures[i])
    ensures Parse(decoders, scan, Ok(structures)) == None
  {
    NoRuuviStructure(decoders, scan, structures, None);
  }
}
