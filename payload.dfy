/**
 * Scan payload of `handleRfidScan` (src/main.cpp:104-118): a JSON object
 * (RFC 8259) with two string members, `uid` and `reader_id`, published on
 * the scan topic.
 */
module Payload {
  import opened Wrappers

  /** The device identity, sent as `reader_id` (`CLIENT_ID`). */
  const ClientId: string := "ESP32_RFID_001"

  /** Topic of scan events (`RFID_SCAN_TOPIC`). */
  const ScanTopic: string := "rfid-Velociti/scans"

  /** One call of the pub/sub client's `publish(topic, payload)`. */
  datatype Publication = Publication(topic: string, payload: string)

  const UidOpen: string := "{\"uid\":\""
  const ReaderIdOpen: string := "\",\"reader_id\":\""
  const ObjectClose: string := "\"}"

  /** The text that follows the `uid` value: the rest of the object. */
  const PayloadTail: string := ReaderIdOpen + ClientId + ObjectClose

  /** The payload built for an encoded tag identifier. */
  function ScanPayload(uidHex: string): string {
    UidOpen + uidHex + ReaderIdOpen + ClientId + ObjectClose
  }

  /** What a consumer reads back: the `uid` value of a payload of this shape, `None` for any other text. */
  function ParseScanPayload(text: string): Option<string> {
    if |text| >= |UidOpen| + |PayloadTail|
       && text[..|UidOpen|] == UidOpen
       && text[|text| - |PayloadTail|..] == PayloadTail
    then Some(text[|UidOpen|..|text| - |PayloadTail|])
    else None
  }

  /** The consumer recovers the identifier text exactly. */
  lemma ParseScanPayloadRoundTrip(uidHex: string)
    ensures ParseScanPayload(ScanPayload(uidHex)) == Some(uidHex)
  {
    var text := ScanPayload(uidHex);
    assert text == UidOpen + uidHex + PayloadTail;
    assert text[..|UidOpen|] == UidOpen;
    assert text[|text| - |PayloadTail|..] == PayloadTail;
    assert text[|UidOpen|..|text| - |PayloadTail|] == uidHex;
  }

  /** Only payloads of this exact shape are accepted, so parsing is the inverse of building. */
  lemma ScanPayloadOfParse(text: string, uidHex: string)
    requires ParseScanPayload(text) == Some(uidHex)
    ensures ScanPayload(uidHex) == text
  {
    assert text == text[..|UidOpen|] + text[|UidOpen|..|text| - |PayloadTail|] + text[|text| - |PayloadTail|..];
  }

  /**
   * A string that can stand between quotes in JSON without escaping: no
   * quotation mark, no reverse solidus, no control character (section 7 of
   * RFC 8259).
   */
  predicate JsonStringSafe(s: string) {
    forall i :: 0 <= i < |s| ==> s[i] != '"' && s[i] != '\\' && s[i] >= ' '
  }

  /** The reader identity needs no escaping, and the payload is 39 characters longer than the identifier. */
  lemma ScanPayloadShape(uidHex: string)
    ensures JsonStringSafe(ClientId)
    ensures |ScanPayload(uidHex)| == |uidHex| + 39
  {
  }
}
