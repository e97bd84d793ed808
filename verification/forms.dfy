/**
 * The seller and buyer pages: each button is guarded by an ordered chain of
 * checks, the first failing check decides the error shown, and the contract
 * call fires only when every check passes. The contract calls themselves are
 * recorded as values, not performed.
 */
module Forms {
  import opened Prelude
  import Hex
  import Utf8
  import IdGen

  const NeedAddress: string := "Please enter your Account Address"
  const NeedKey: string := "Please enter your Private Key"
  const NeedName: string := "Please enter your Name"
  const NeedProduct: string := "Please enter Product detail"
  const NeedBuyerAddress: string := "Please enter the Buyer's Account Address"
  const NeedSellerAddress: string := "Please enter the Seller's Account Address"
  const NeedProductId: string := "Please enter a Product ID"
  const NeedScan: string := "Please scan a QR Code"
  const NeedUpload: string := "Please upload a QR Code"

  /** One step of a guard chain: whether it passes, and the error shown when it does not. */
  datatype Check = Check(passes: bool, message: string)

  /** The page's `if not field: st.error(message)` test on a text field. */
  function Filled(field: string, message: string): Check {
    Check(field != "", message)
  }

  /**
   * The position of the first failing check, or None when every check passes.
   * The last ensures follows from the first three; it is the form callers use,
   * one failing check bounding the reported position.
   */
  function FirstFailure(chain: seq<Check>): (r: Option<nat>)
    ensures r.None? <==> forall i :: 0 <= i < |chain| ==> chain[i].passes
    ensures r.Some? ==> r.value < |chain| && !chain[r.value].passes
    ensures r.Some? ==> forall j :: 0 <= j < r.value ==> chain[j].passes
    ensures forall i :: 0 <= i < |chain| && !chain[i].passes ==> r.Some? && r.value <= i
  {
    if |chain| == 0 then None
    else if !chain[0].passes then Some(0)
    else match FirstFailure(chain[1..])
      case None => None
      case Some(i) => Some(i + 1)
  }

  /** The contract functions the pages call, with the arguments they pass. */
  datatype Call =
    | RegisterSeller(name: string)
    | RegisterOwner(name: string)
    | NewArticle(id: string, asin: string)
    | InitSold(productId: string, buyer: string)
    | VerifyPurchase(productId: string, seller: string)

  /** A button press either shows an error or sends a call signed with the given private key. */
  datatype Outcome = Rejected(message: string) | Fired(signer: string, call: Call)

  /** How the product id of a sale or verification is supplied. */
  datatype Entry = Typed | Scanned | Uploaded

  /** The text fields of the seller page, keyed as in the session state. */
  datatype SellerForm = SellerForm(
    sellerAddress: string, sellerPrivateKey: string, sellerName: string,
    asin: string, receiverAddress: string, sellerProductId: string)

  /** The text fields of the buyer page, keyed as in the session state. */
  datatype BuyerForm = BuyerForm(
    buyerAddress: string, buyerPrivateKey: string, buyerName: string,
    senderAddress: string, buyerProductId: string)

  /** Runs a guard chain: the first failure's message, or the call. */
  function Guard(chain: seq<Check>, signer: string, call: Call): Outcome {
    match FirstFailure(chain)
    case Some(i) => Rejected(chain[i].message)
    case None => Fired(signer, call)
  }

  /**
   * The product id `initSale` and `verifyProduct` send: a scanned `qrData`
   * whenever the session holds one, the typed id otherwise.
   */
  function SelectProductId(qrData: Option<string>, typed: string): (id: string)
    ensures qrData.Some? ==> id == qrData.value
    ensures id == typed <==> qrData.None? || qrData.value == typed
  {
    if qrData.Some? then qrData.value else typed
  }

  /** The error shown when no id is given, by the way the id is supplied. */
  function EntryMessage(entry: Entry): string {
    match entry
    case Typed => NeedProductId
    case Scanned => NeedScan
    case Uploaded => NeedUpload
  }

  /** The last check before a sale or verification: a typed id, or a stored scan. */
  function EntryCheck(entry: Entry, typed: string, qrData: Option<string>): Check {
    match entry
    case Typed => Filled(typed, EntryMessage(entry))
    case Scanned | Uploaded => Check(qrData.Some?, EntryMessage(entry))
  }

  /** Whether the last check of a sale or verification passes. */
  predicate EntryGiven(entry: Entry, typed: string, qrData: Option<string>) {
    EntryCheck(entry, typed, qrData).passes
  }

  /** "Register as Seller": address, then key, then name. */
  function SellerRegister(f: SellerForm): (r: Outcome)
    ensures f.sellerAddress == "" ==> r == Rejected(NeedAddress)
    ensures f.sellerAddress != "" && f.sellerPrivateKey == "" ==> r == Rejected(NeedKey)
    ensures f.sellerAddress != "" && f.sellerPrivateKey != "" && f.sellerName == "" ==>
      r == Rejected(NeedName)
    ensures r.Fired? <==> f.sellerAddress != "" && f.sellerPrivateKey != "" && f.sellerName != ""
    ensures r.Fired? ==> r == Fired(f.sellerPrivateKey, RegisterSeller(f.sellerName))
  {
    var chain := [Filled(f.sellerAddress, NeedAddress), Filled(f.sellerPrivateKey, NeedKey),
                  Filled(f.sellerName, NeedName)];
    assert chain[0].passes == (f.sellerAddress != "") && chain[1].passes == (f.sellerPrivateKey != "")
      && chain[2].passes == (f.sellerName != "");
    Guard(chain, f.sellerPrivateKey, RegisterSeller(f.sellerName))
  }

  /**
   * "Add Product": address, then key, then product code; only then is the
   * identifier generated, so the generator never sees an empty code.
   */
  function AddProduct(f: SellerForm, token: string): (r: Outcome)
    requires IdGen.IsToken(token)
    ensures f.sellerAddress == "" ==> r == Rejected(NeedAddress)
    ensures f.sellerAddress != "" && f.sellerPrivateKey == "" ==> r == Rejected(NeedKey)
    ensures f.sellerAddress != "" && f.sellerPrivateKey != "" && f.asin == "" ==>
      r == Rejected(NeedProduct)
    ensures r.Fired? <==> f.sellerAddress != "" && f.sellerPrivateKey != "" && f.asin != ""
    ensures r.Fired? ==> r.signer == f.sellerPrivateKey && r.call.NewArticle? && r.call.asin == f.asin
    ensures r.Fired? ==> Hex.IsCanonical(r.call.id)
    ensures r.Fired? ==>
      Hex.HexValue(r.call.id) == Hex.HexValue(token) + Hex.BytesValue(Utf8.Encode(f.asin))
  {
    var chain := [Filled(f.sellerAddress, NeedAddress), Filled(f.sellerPrivateKey, NeedKey),
                  Filled(f.asin, NeedProduct)];
    assert chain[0].passes == (f.sellerAddress != "") && chain[1].passes == (f.sellerPrivateKey != "")
      && chain[2].passes == (f.asin != "");
    match FirstFailure(chain)
    case Some(i) => Rejected(chain[i].message)
    case None => Fired(f.sellerPrivateKey, NewArticle(IdGen.ProductId(token, f.asin).value, f.asin))
  }

  /** "Initiate Sale", by typed id, scan or upload: address, key, buyer's address, then the id. */
  function InitSale(f: SellerForm, qrData: Option<string>, entry: Entry): (r: Outcome)
    ensures f.sellerAddress == "" ==> r == Rejected(NeedAddress)
    ensures f.sellerAddress != "" && f.sellerPrivateKey == "" ==> r == Rejected(NeedKey)
    ensures f.sellerAddress != "" && f.sellerPrivateKey != "" && f.receiverAddress == "" ==>
      r == Rejected(NeedBuyerAddress)
    ensures (f.sellerAddress != "" && f.sellerPrivateKey != "" && f.receiverAddress != ""
             && !EntryGiven(entry, f.sellerProductId, qrData)) ==>
      r == Rejected(EntryMessage(entry))
    ensures r.Fired? <==>
      f.sellerAddress != "" && f.sellerPrivateKey != "" && f.receiverAddress != ""
      && EntryGiven(entry, f.sellerProductId, qrData)
    ensures r.Fired? ==> r.signer == f.sellerPrivateKey && r.call.InitSold?
    ensures r.Fired? ==> r.call.buyer == f.receiverAddress
    ensures r.Fired? && qrData.Some? ==> r.call.productId == qrData.value
    ensures r.Fired? && qrData.None? ==> r.call.productId == f.sellerProductId != ""
  {
    var chain := [Filled(f.sellerAddress, NeedAddress), Filled(f.sellerPrivateKey, NeedKey),
                  Filled(f.receiverAddress, NeedBuyerAddress),
                  EntryCheck(entry, f.sellerProductId, qrData)];
    assert chain[0].passes == (f.sellerAddress != "") && chain[1].passes == (f.sellerPrivateKey != "")
      && chain[2].passes == (f.receiverAddress != "")
      && chain[3].passes == EntryGiven(entry, f.sellerProductId, qrData);
    Guard(chain, f.sellerPrivateKey,
          InitSold(SelectProductId(qrData, f.sellerProductId), f.receiverAddress))
  }

  /** "Register as Buyer": address, then key, then name. */
  function BuyerRegister(f: BuyerForm): (r: Outcome)
    ensures f.buyerAddress == "" ==> r == Rejected(NeedAddress)
    ensures f.buyerAddress != "" && f.buyerPrivateKey == "" ==> r == Rejected(NeedKey)
    ensures f.buyerAddress != "" && f.buyerPrivateKey != "" && f.buyerName == "" ==>
      r == Rejected(NeedName)
    ensures r.Fired? <==> f.buyerAddress != "" && f.buyerPrivateKey != "" && f.buyerName != ""
    ensures r.Fired? ==> r == Fired(f.buyerPrivateKey, RegisterOwner(f.buyerName))
  {
    var chain := [Filled(f.buyerAddress, NeedAddress), Filled(f.buyerPrivateKey, NeedKey),
                  Filled(f.buyerName, NeedName)];
    assert chain[0].passes == (f.buyerAddress != "") && chain[1].passes == (f.buyerPrivateKey != "")
      && chain[2].passes == (f.buyerName != "");
    Guard(chain, f.buyerPrivateKey, RegisterOwner(f.buyerName))
  }

  /** "Verify Product", by typed id, scan or upload: address, key, seller's address, then the id. */
  function VerifyProduct(f: BuyerForm, qrData: Option<string>, entry: Entry): (r: Outcome)
    ensures f.buyerAddress == "" ==> r == Rejected(NeedAddress)
    ensures f.buyerAddress != "" && f.buyerPrivateKey == "" ==> r == Rejected(NeedKey)
    ensures f.buyerAddress != "" && f.buyerPrivateKey != "" && f.senderAddress == "" ==>
      r == Rejected(NeedSellerAddress)
    ensures (f.buyerAddress != "" && f.buyerPrivateKey != "" && f.senderAddress != ""
             && !EntryGiven(entry, f.buyerProductId, qrData)) ==>
      r == Rejected(EntryMessage(entry))
    ensures r.Fired? <==>
      f.buyerAddress != "" && f.buyerPrivateKey != "" && f.senderAddress != ""
      && EntryGiven(entry, f.buyerProductId, qrData)
    ensures r.Fired? ==> r.signer == f.buyerPrivateKey && r.call.VerifyPurchase?
    ensures r.Fired? ==> r.call.seller == f.senderAddress
    ensures r.Fired? && qrData.Some? ==> r.call.productId == qrData.value
    ensures r.Fired? && qrData.None? ==> r.call.productId == f.buyerProductId != ""
  {
    var chain := [Filled(f.buyerAddress, NeedAddress), Filled(f.buyerPrivateKey, NeedKey),
                  Filled(f.senderAddress, NeedSellerAddress),
                  EntryCheck(entry, f.buyerProductId, qrData)];
    assert chain[0].passes == (f.buyerAddress != "") && chain[1].passes == (f.buyerPrivateKey != "")
      && chain[2].passes == (f.senderAddress != "")
      && chain[3].passes == EntryGiven(entry, f.buyerProductId, qrData);
    Guard(chain, f.buyerPrivateKey,
          VerifyPurchase(SelectProductId(qrData, f.buyerProductId), f.senderAddress))
  }

  /**
   * Once a scan is stored, the typed-id button sends the scanned id and not
   * the one typed: the typed field only has to be non-empty.
   */
  lemma TypedIdIgnoredAfterScan(f: SellerForm, scanned: string)
    requires f.sellerAddress != "" && f.sellerPrivateKey != "" && f.receiverAddress != ""
    requires f.sellerProductId != "" && f.sellerProductId != scanned
    ensures InitSale(f, Some(scanned), Typed) ==
      Fired(f.sellerPrivateKey, InitSold(scanned, f.receiverAddress))
  {
  }
}
