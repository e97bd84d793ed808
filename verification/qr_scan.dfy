/**
 * Transport of an identifier through a QR code: `qrGen` puts the identifier's
 * text in the code and `readQr` stores the first payload the barcode reader
 * returns. The barcode symbology itself is abstracted: a code carries the
 * UTF-8 bytes of its text, and the reader returns the list of payloads it found.
 */
module QrScan {
  import opened Prelude
  import Utf8

  const NotRecognized: string := "QR Code not recognized"

  /** The session's `qrData` after `readQr`, and the error it showed, if any. */
  datatype ReadOutcome = ReadOutcome(qrData: Option<string>, error: Option<string>)

  /** The bytes a code made by `qrGen` carries for an identifier. */
  function Payload(id: string): (p: seq<byte>)
    ensures |id| <= |p| <= 4 * |id|
    ensures Utf8.Decode(p) == Some(id)
  {
    Utf8.DecodeEncode(id);
    Utf8.Encode(id)
  }

  /**
   * `readQr`: the first payload, decoded as strict UTF-8, replaces `qrData`;
   * no payload or undecodable bytes leave `qrData` alone and report the failure.
   */
  function ReadQr(payloads: seq<seq<byte>>, qrData: Option<string>): (r: ReadOutcome)
    ensures r.error.None? <==> |payloads| > 0 && Utf8.Decode(payloads[0]).Some?
    ensures r.error.None? ==> r.qrData.Some? && Payload(r.qrData.value) == payloads[0]
    ensures r.error.Some? ==> r == ReadOutcome(qrData, Some(NotRecognized))
  {
    if |payloads| == 0 then ReadOutcome(qrData, Some(NotRecognized))
    else match Utf8.Decode(payloads[0])
      case None => ReadOutcome(qrData, Some(NotRecognized))
      case Some(text) =>
        Utf8.EncodeDecode(payloads[0]);
        ReadOutcome(Some(text), None)
  }

  /** Reading a code made for `id` stores exactly `id`, whatever else the reader found after it. */
  lemma ScanRoundTrip(id: string, others: seq<seq<byte>>, qrData: Option<string>)
    ensures ReadQr([Payload(id)] + others, qrData) == ReadOutcome(Some(id), None)
  {
    Utf8.DecodeEncode(id);
  }

  /** Only the first payload matters: later ones never change the outcome. */
  lemma FirstPayloadDecides(payloads: seq<seq<byte>>, qrData: Option<string>)
    requires |payloads| > 0
    ensures ReadQr(payloads, qrData) == ReadQr([payloads[0]], qrData)
  {
  }
}
