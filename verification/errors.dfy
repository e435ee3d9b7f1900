/** The errors of the credential store, its URI codecs and the QR scanner. */
module Errors {
  import Crypto

  datatype Error =
    // src/usecase/totpstore/errors.go
    | EntryNotFound
    | InvalidURIScheme
    | NotTOTP
    | MissingSecret
    | InvalidSecret
    | InvalidMigrationURI
    | MissingMigrationData
    | InvalidMigrationData
    | NoTOTPEntries
    // errors of the libraries and packages the store and scanner call
    | UrlParseFailed          // net/url's parse error, returned unchanged
    | StoredDataCorrupt       // the stored Base64 text does not decode
    | MachineKeyFailed        // the machine key could not be derived
    | CryptoFailed(cause: Crypto.CryptoError)
    | JsonFailed              // encoding/json could not (un)marshal
    // src/usecase/qrscanner/scanner.go
    | NoQRCodeFound
    | NoTOTPQRFound
}
