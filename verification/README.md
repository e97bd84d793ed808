# ProdAuth product identifiers, QR transport and form guards, in Dafny

ProdAuth is a web front end to a product-authenticity smart contract. A seller
registers a product under a freshly generated identifier and gets a QR code for
it. The seller later initiates a sale of that identifier to a buyer's address.
The buyer then verifies the purchase by typing, scanning or uploading the code.
The contract itself lives elsewhere. The logic the application owns, and which
this project models, is:

- **Identifier generation** (`idGen`). A random version-4 UUID token, rendered
  as 32 lowercase hex digits, is read as a base-16 natural. The product code's
  UTF-8 bytes are hex-encoded and read the same way. The two naturals are added.
  The sum is rendered as lowercase hex with no prefix and no zero padding
  (`hex(...)[2:]`). Modules `Hex`, `Utf8` and `IdGen`.
- **QR transport** (`qrGen`, `readQr`). A code carries the UTF-8 bytes of the
  identifier. Reading keeps the first payload the barcode reader returns,
  decoded as strict UTF-8. When there is no payload, or it is not valid UTF-8,
  reading reports "QR Code not recognized" and leaves the stored `qrData` as it
  was. Module `QrScan`.
- **Page guards** (`sellerPage`, `buyerPage`). Every button is guarded by an
  ordered chain of checks. The first empty field decides the error message. The
  contract call fires only when every check passes. `initSale` and
  `verifyProduct` send the stored scan (`qrData`) when the session holds one,
  and the typed id otherwise. Module `Forms`.
- **Lifecycle**. The id a product is registered under is the id a later scan or
  upload of its code sends to the sale and verification calls. Module
  `Lifecycle`.

Random tokens, the barcode reader's output and the form fields are all
parameters. Contract calls are returned as values (`Forms.Call`), signed with
the private key from the form, and are never performed.

Consequences of the code as written: once any scan has been stored in the
session, the "Enter Product ID" button still demands a typed id, but it sends
the scanned one (`Forms.TypedIdIgnoredAfterScan`). Any number of leading NUL
characters in front of a non-empty product code leaves the identifier
unchanged (`IdGen.LeadingNulsIgnored`; `IdGen.LeadingNulCollides` is the
instance "\0A" and "A"). So the generator is injective in the code's numeric
value, not in its text.

## Model

| member | source | states |
|---|---|---|
| `Hex.DigitChar` | src/streamlit_app.py:112 | each nibble is printed as a lowercase digit whose value is that nibble |
| `Hex.BytesToHex` | src/streamlit_app.py:112 | `bytes.hex()` gives exactly two lowercase digits per byte |
| `Hex.BytesToHexDigits` | src/streamlit_app.py:112 | byte i is printed as its high nibble at position 2i and its low nibble at position 2i+1 |
| `Hex.BytesToHexValue` | src/streamlit_app.py:112-113 | the hex text of a byte string, read by `int(_, 16)`, equals the big-endian value of the bytes |
| `Hex.HexToBytes` | src/streamlit_app.py:112 | decoding digit pairs succeeds exactly on even-length digit text and yields half as many bytes |
| `Hex.BytesHexRoundTrip` | src/streamlit_app.py:112 | decoding the digit pairs of `bytes.hex()` recovers the original bytes |
| `Hex.HexBytesRoundTrip` | src/streamlit_app.py:112 | every lowercase even-length digit string is the `bytes.hex()` of what it decodes to |
| `Hex.NatToHex` | src/streamlit_app.py:113 | `hex(n)[2:]` is non-empty, lowercase, has no leading zero unless it is "0", and reads back as n |
| `Hex.CanonicalRoundTrip` | src/streamlit_app.py:113 | every canonical digit string is the rendering of its own value, so rendering is a bijection onto canonical strings |
| `Hex.NatToHexInjective` | src/streamlit_app.py:113 | two naturals render alike exactly when they are equal |
| `Hex.ParseHex` | src/streamlit_app.py:113 | `int(s, 16)` on ASCII text succeeds exactly on non-empty hex digit text; on a canonical string it returns the number whose rendering is that string |
| `Hex.ParseHexLeadingZero` | src/streamlit_app.py:111-113 | a leading zero digit, as in a token starting with 0 or the hex of a code starting below U+0010, does not change what `int(s, 16)` returns; with the canonical clause this gives the value of every lowercase digit string, the only kind line 113 reads |
| `Hex.LeadingZeroBytes` | src/streamlit_app.py:112-113 | zero bytes in front of a byte string do not change the number its hex text denotes |
| `Hex.SameLengthInjective` | src/streamlit_app.py:111-113 | two lowercase digit strings of equal length with equal value are the same string, as for two `uuid4().hex` tokens read by `int(_, 16)` |
| `Utf8.EncodeChar` | src/streamlit_app.py:112 | a character encodes to 1 to 4 bytes; ASCII to itself; otherwise a lead byte of at least C2 followed by continuation bytes |
| `Utf8.Encode` | src/streamlit_app.py:112 | `str.encode()` yields between one and four bytes per character |
| `Utf8.EncodeAppend` | src/streamlit_app.py:112 | `str.encode()` of a concatenation is the concatenation of the encodings |
| `Utf8.EncodeNuls` | src/streamlit_app.py:112 | k NUL characters encode to k zero bytes |
| `Utf8.DecodeChar` | src/streamlit_app.py:137 | the strict decoder consumes between one byte and the bytes available for each accepted character |
| `Utf8.Decode` | src/streamlit_app.py:137 | accepted bytes give between a quarter and all of their count in characters; an invalid start or continuation at the front is rejected |
| `Utf8.DecodeEncodeChar` | src/streamlit_app.py:137 | the strict decoder reads an encoded character back and consumes exactly its encoding |
| `Utf8.EncodeDecodeChar` | src/streamlit_app.py:137 | a character the decoder accepts re-encodes to exactly the bytes it was read from |
| `Utf8.DecodeEncode` | src/streamlit_app.py:137 | `bytes.decode("utf-8")` of `str.encode()` gives the original text |
| `Utf8.EncodeDecode` | src/streamlit_app.py:137 | whatever the strict decoder accepts is exactly the encoding of the text it returns |
| `Utf8.DecodeIffEncode` | src/streamlit_app.py:137 | decoding bytes gives a text exactly when that text encodes to those bytes |
| `IdGen.GenId` | src/streamlit_app.py:109-113 | the identifier exists exactly when the code is non-empty; it is canonical lowercase hex and its value is token plus code value |
| `IdGen.ProductId` | src/streamlit_app.py:110-113 | on the typed product code: defined exactly for non-empty codes; canonical; value is token plus the value of the code's UTF-8 bytes |
| `IdGen.Uuid4Positive` | src/streamlit_app.py:111 | a version-4 UUID token is never zero |
| `IdGen.GenIdNoLeadingZero` | src/streamlit_app.py:111-113 | with a version-4 token the identifier is non-empty, lowercase hex and never starts with '0' |
| `IdGen.GenIdInjective` | src/streamlit_app.py:113 | for one token, two codes give the same identifier exactly when their bytes denote the same number |
| `IdGen.GenIdTokenInjective` | src/streamlit_app.py:111-113 | for one non-empty code, two 32-digit tokens give the same identifier exactly when they are the same token, so a repeated code collides only through a repeated token |
| `IdGen.GenIdUnique` | src/streamlit_app.py:113 | any canonical text whose value is token plus code value is the generated identifier |
| `IdGen.LeadingNulCollides` | src/streamlit_app.py:112-113 | the codes "\0A" and "A" get the same identifier under every token |
| `IdGen.LeadingNulsIgnored` | src/streamlit_app.py:110-113 | for every token and k, k leading NUL characters in front of a non-empty code give the same identifier as the code alone |
| `QrScan.ReadQr` | src/streamlit_app.py:134-141 | reading succeeds exactly when there is a first payload and it is valid UTF-8; then `qrData` holds the text whose encoding is that payload; otherwise `qrData` is unchanged and "QR Code not recognized" is shown |
| `QrScan.Payload` | src/streamlit_app.py:118-125 | the bytes a code carries for an identifier are between one and four per character, and the strict decoder reads them back as that identifier |
| `QrScan.ScanRoundTrip` | src/streamlit_app.py:118-141 | reading a code made for an identifier stores exactly that identifier, whatever payloads follow it |
| `QrScan.FirstPayloadDecides` | src/streamlit_app.py:137 | payloads after the first never change what reading does |
| `Forms.FirstFailure` | src/streamlit_app.py:202-214 | the chain fails exactly when some check fails; the reported position fails, every earlier check passes, and no earlier check fails |
| `Forms.SelectProductId` | src/streamlit_app.py:85-96 | a stored scan always supplies the id; the typed id is sent exactly when no scan is stored or the scan equals it |
| `Forms.SellerRegister` | src/streamlit_app.py:170-180 | address, then private key, then name decide the error in that order; `registerSeller(name)` is sent exactly when all three are filled |
| `Forms.AddProduct` | src/streamlit_app.py:185-195 | address, then key, then product code decide the error; `newArticle` is sent exactly when all are filled, with a canonical id whose value is token plus code value |
| `Forms.InitSale` | src/streamlit_app.py:202-246 | address, then key, then buyer's address, then the typed id or stored scan decide the error, the last one "Please enter a Product ID", "Please scan a QR Code" or "Please upload a QR Code" by the button used; `initSold` goes to the buyer's address, with the stored scan when there is one, as line 85 chooses, else the non-empty typed id |
| `Forms.BuyerRegister` | src/streamlit_app.py:255-265 | address, then key, then name decide the error; `registerOwner(name)` is sent exactly when all are filled |
| `Forms.VerifyProduct` | src/streamlit_app.py:272-316 | address, then key, then seller's address, then the typed id or stored scan decide the error, the last one by the button used as for the sale; `verifyPurchase` names the seller's address, with the stored scan when there is one, as line 96 chooses, else the non-empty typed id |
| `Forms.TypedIdIgnoredAfterScan` | src/streamlit_app.py:85 | with a stored scan, the typed-id sale button sends the scanned id even when a different id was typed |
| `Lifecycle.SoldIdIsRegisteredId` | src/streamlit_app.py:109-141 | scanning or uploading the code of a registered product initiates the sale of exactly its registered id, whatever was stored before |
| `Lifecycle.VerifiedIdIsRegisteredId` | src/streamlit_app.py:95-141 | scanning or uploading the code of a registered product verifies exactly its registered id |

## Left out

- Contract calls: the bodies of `registerSeller`, `registerBuyer`, `addProduct`, `initSale` and `verifyProduct`, and `scripts/deploy.py`, are network I/O. That includes signing middleware, account derivation from the private key and error reporting. The contract's source is not part of this model. Each call is recorded as a `Forms.Call` value.
- Randomness: `uuid.uuid4()` is replaced by a token parameter. The collision probability over random tokens is a statistical claim and is not modelled.
- QR symbology: `qrcode` image generation and `pyzbar` detection are foreign libraries. The model covers their input and output only: a code carries the UTF-8 bytes of its text, and the reader returns a list of payloads. The QR options (version 1 with `fit=True`, error correction L, box size 10, border 4) and the code's capacity limit are not modelled.
- Rendering and plumbing: Streamlit widgets, expanders, the camera and file uploader, `Image.open`, the download button, the home, information and navigation pages, and configuration loading at startup (lines 17-40).
- The session's `qrData` is a parameter. Once set, the application never removes it. Each guard chain is modelled as the outcome of one button press. On the page itself, an earlier failing check shows its error instead of rendering the button.
- `Hex.ParseHex`: Python's `int(s, 16)` also accepts surrounding whitespace, a sign, a `0x` prefix, `_` separators and non-ASCII decimal digits (Unicode category Nd, such as fullwidth digits). Neither input of `idGen` ever contains these, so they are not modelled.
- `Hex.HexToBytes`: the application never decodes hex text. This digit-pair decoder is a reference inverse of `bytes.hex()` against which `Hex.BytesToHex` is proved, not a model of a call in the source.
- `Utf8.Encode`: a Python `str` can hold a lone surrogate, and encoding it raises an error. A Dafny `char` is a Unicode scalar value, so this case cannot be represented.
- `IdGen.GenId`: on an empty product code, `idGen` raises `ValueError` from `int('', 16)`. This is modelled as `None`. The "Add Product" guard never lets it happen (`Forms.AddProduct`).
- `Forms.AddProduct`: `qr.make(fit=True)` raises `DataOverflowError` when the identifier does not fit the largest QR version at error correction L, and then `newArticle` is never sent. The symbol's capacity is not modelled, so the model fires the call once the guards pass even for a product code whose identifier is too long for any QR symbol.
