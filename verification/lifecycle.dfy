/**
 * A product's identifier from registration to sale and verification: the id
 * `addProduct` registers is carried by its QR code, read back by `readQr`, and
 * is then the id the scan and upload buttons send.
 */
module Lifecycle {
  import opened Prelude
  import IdGen
  import QrScan
  import Forms

  /**
   * A seller who registers a product and later scans or uploads its code
   * initiates the sale of that very id, whatever was stored before the read.
   */
  lemma SoldIdIsRegisteredId(
    f: Forms.SellerForm, token: string, others: seq<seq<byte>>, prior: Option<string>,
    g: Forms.SellerForm, entry: Forms.Entry)
    requires IdGen.IsToken(token) && Forms.AddProduct(f, token).Fired?
    requires g.sellerAddress != "" && g.sellerPrivateKey != "" && g.receiverAddress != ""
    requires entry != Forms.Typed
    ensures var id := Forms.AddProduct(f, token).call.id;
      var stored := QrScan.ReadQr([QrScan.Payload(id)] + others, prior).qrData;
      Forms.InitSale(g, stored, entry)
        == Forms.Fired(g.sellerPrivateKey, Forms.InitSold(id, g.receiverAddress))
  {
    QrScan.ScanRoundTrip(Forms.AddProduct(f, token).call.id, others, prior);
  }

  /**
   * A buyer who scans or uploads the code of a registered product asks the
   * contract to verify that very id.
   */
  lemma VerifiedIdIsRegisteredId(
    f: Forms.SellerForm, token: string, others: seq<seq<byte>>, prior: Option<string>,
    g: Forms.BuyerForm, entry: Forms.Entry)
    requires IdGen.IsToken(token) && Forms.AddProduct(f, token).Fired?
    requires g.buyerAddress != "" && g.buyerPrivateKey != "" && g.senderAddress != ""
    requires entry != Forms.Typed
    ensures var id := Forms.AddProduct(f, token).call.id;
      var stored := QrScan.ReadQr([QrScan.Payload(id)] + others, prior).qrData;
      Forms.VerifyProduct(g, stored, entry)
        == Forms.Fired(g.buyerPrivateKey, Forms.VerifyPurchase(id, g.senderAddress))
  {
    QrScan.ScanRoundTrip(Forms.AddProduct(f, token).call.id, others, prior);
  }
}
