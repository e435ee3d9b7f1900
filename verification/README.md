# winticator core in Dafny

This project models the non-UI core of winticator, a desktop TOTP authenticator written in Go.
It covers the following parts:

- **TOTP code generation** (`src/pkg/totp`): normalising and Base32-decoding the secret, the
  time counter, dynamic truncation (section 5.3 of RFC 4226) and formatting the code with the
  source's uint32 modulus. It also models the seconds left until the next time step.
- **The encrypted blob format** (`src/usecase/crypto`): the GUID header followed by the salt
  and nonce, header validation, and the encrypt/decrypt round trip. The key derivation and the
  authenticated cipher are uninterpreted parameters.
- **The entry store** (`src/usecase/totpstore`):
  - entries and their `otpauth://totp/` URIs;
  - `otpauth-migration://` imports;
  - the in-memory store: Add, Get, Update, Delete, Reorder, GetAll and Count;
  - Load and Save, the persistence pipeline (Base64, machine key, crypto, JSON).
- **The QR scanner's pure logic** (`src/usecase/qrscanner`): routing decoded text to the
  right parser, and clipping a captured RGBA buffer to the rows it actually holds.
- **Version comparison** (`src/pkg/version`).
- **The clipboard auto-clear guard** (`src/usecase/clipboard`).
- **The list row's pure logic** (`src/ui/totplist_item.go`): the displayed code, the move
  menu, and moveEntry's adjacent swap.

Modules follow the source packages:

- `Totp`, `Crypto`, `TotpEntry`, `Migration`, `TotpStore`, `Scanner`, `Version`, `Clipboard`
  and `ListItem`.
- Helper modules for the Go libraries the core leans on:
  - `Base32`: encoding/base32 as specified in section 6 of RFC 4648, following Go's decode loop;
  - `Decimal`: strconv;
  - `Text`: strings, and the UTF-8 bytes of a string (`Text.Utf8`, Go's `[]byte(s)`), which
    `len` counts and the Base32 decoder reads, each byte carried as the char of its value;
  - `Bytes`: fixed-width integers, truncating division and big-endian bytes;
  - `Url`: url.Values;
  - `Arith`, `Wrappers` and `Errors`.

Foreign and effectful pieces are parameters:

- the HMAC function, the key derivation and the sealed box;
- url.Parse, Base64 and protobuf decoding, and JSON;
- the machine key (an `Option`) and the stored preference text;
- fresh xid IDs (`newId`), the clock (`now`) and random salt and nonce draws. Where the
  source reads the clock once per created entry, `now` is a function of the entry's index.

Their laws are ghost predicates taken as `requires` (`Totp.ValidMac`, `Crypto.OpensSealed`,
`Crypto.RejectsForeignKey`, `TotpStore.ValidCodecs`). Go `int` is modelled as `int64` where
wrap-around matters: the counter, the order increment and the uint32 modulus.

Where the code and its tests disagree, the model follows the code:

- `TotpEntry.DisplayName` returns the account, or the issuer when the account is empty
  (entry.go:147-152). One case of entry_test.go:119 expects "Issuer: account".
- `TotpStore.Add` starts its maximum at -1, so a store whose orders are all negative gives the
  new entry order 0.
- moveEntry's search loop does not stop at a match, so the last row with the ID is the one moved.

## Model

| member | source | states |
|---|---|---|
| Totp.NormalizeSecret | src/pkg/totp/totp.go:20-24 | the secret is trimmed, upper-cased and padded with fewer than eight '=' so that its UTF-8 byte count (Go's len) is a multiple of 8, and the unpadded text is a prefix of the result |
| Totp.MultiByteSecretRejected | src/pkg/totp/totp.go:20-29 | seven symbols, '=', seven newlines and a non-space three-byte character such as '€' are 18 bytes, so six '=' are added, and decoding then fails because the first '=' has nine bytes after it |
| Totp.Counter | src/pkg/totp/totp.go:32 | the counter is below 2^64 and equals unix / period for a non-negative time and positive period |
| Totp.CounterBytes | src/pkg/totp/totp.go:35-36 | eight bytes whose big-endian value is the counter |
| Totp.SelectHash | src/pkg/totp/totp.go:39-47 | SHA256 and SHA512 are chosen exactly when the upper-cased name matches; anything else is SHA1 |
| Totp.Truncate | src/pkg/totp/totp.go:53-55 | the truncated code is below 2^31 and equals RFC 4226 dynamic truncation for digests of at least 20 bytes |
| Totp.Modulus | src/pkg/totp/totp.go:57-61 | the uint32 modulus is below 2^32, and is 1 for zero or negative digits |
| Totp.ModulusExact | src/pkg/totp/totp.go:57-61 | for 1 to 9 digits the uint32 modulus is exactly 10^digits and non-zero |
| Totp.Code | src/pkg/totp/totp.go:49-62 | the reduced code is below 10^digits and is the HOTP value for 1 to 9 digits; from 10 digits on it is the RFC 4226 truncation modulo the wrapped uint32 modulus; it is 0 for non-positive digits |
| Totp.TenDigitModulus | src/pkg/totp/totp.go:57-61 | ten digits give the wrapped modulus 1410065408, which is not 10^10 |
| Totp.Format | src/pkg/totp/totp.go:64-66 | for positive digits the text is all decimal digits whose value is the code, exactly `digits` long when the code fits; for non-positive digits it is the code left-justified with spaces, as fmt's %0-Nd does, except that a width of 10000010 or more, which fmt's parsenum rejects, prints `%!(NOVERB)%!(EXTRA uint32=<code>)` |
| Totp.Generate | src/pkg/totp/totp.go:18-67 | fails exactly when the normalised secret is not Base32; otherwise, for positive digits, a digits-long decimal string whose value is the HOTP code of the time step for 1 to 9 digits and the truncation modulo the wrapped uint32 modulus from 10 digits on; for non-positive digits a '0' padded with spaces, or `%!(NOVERB)%!(EXTRA uint32=0)` for widths of 10000010 or more |
| Totp.SameWindowSameCode | src/pkg/totp/totp.go:32 | two instants in the same period window give the same result |
| Totp.SelectHashIgnoresCase | src/pkg/totp/totp.go:40 | the algorithm name is matched case-insensitively |
| Totp.NormalizedEncodingDecodes | src/pkg/totp/totp.go:20-29 | an unpadded Base32 encoding of any key, after normalisation, decodes back to the key |
| Totp.GenerateRejectsForeign | src/pkg/totp/totp.go:26-29 | a normalised secret with a non-alphabet character before any padding makes generation fail |
| Totp.RemainingSeconds | src/pkg/totp/totp.go:70-72 | between 1 and period seconds remain, and now plus the result is the start of the next window |
| Base32.DecodePadEncode | src/pkg/totp/totp.go:22-26 | decoding the padded form of an unpadded encoding returns the original bytes |
| Base32.DecodeStringRejectsForeign | src/pkg/totp/totp.go:26 | a non-alphabet, non-newline character before any padding makes decoding fail, a non-ASCII one through its lead byte |
| Base32.Pad | src/pkg/totp/totp.go:22-24 | the added '=' bring the UTF-8 byte count to the next multiple of 8, and the text before them is unchanged |
| Base32.PadWithDataAfter | src/pkg/totp/totp.go:26 | a '=' with eight or more bytes after it is not padding, so decoding fails |
| Text.RuneRoundTrip | src/pkg/totp/totp.go:22 | the UTF-8 bytes of a code point, which Go's len counts, read back as that code point |
| Base32.EncodeNoPad | src/usecase/totpstore/migration.go:53 | the encoding has 8 symbols per 5 bytes plus the short tail, all from the alphabet |
| Crypto.Validate | src/usecase/crypto/crypto.go:99-109 | data shorter than 60 bytes is invalid, data not starting with the GUID is of unknown format, and otherwise it passes |
| Crypto.Salt | src/usecase/crypto/crypto.go:112-116 | the salt is the 32 bytes after the GUID |
| Crypto.Nonce | src/usecase/crypto/crypto.go:119-123 | the nonce is the 12 bytes after the salt |
| Crypto.Encrypt | src/usecase/crypto/crypto.go:69-96 | fails exactly when a random draw fails; otherwise GUID, salt, nonce and the sealed text, in that order |
| Crypto.Decrypt | src/usecase/crypto/crypto.go:47-66 | header failures are passed on; otherwise the key is derived from the embedded salt and the sealed text is opened |
| Crypto.HeaderSizes | src/usecase/crypto/crypto.go:18-43 | the minimum data size is 60 bytes and the GUID is 16 bytes |
| Crypto.EncryptLayout | src/usecase/crypto/crypto.go:69-96 | encrypted data validates, and its salt and nonce are the ones drawn |
| Crypto.DecryptEncrypt | src/usecase/crypto/crypto.go:47-96 | decrypting with the same password returns the plain data |
| Crypto.DecryptWrongPassword | src/usecase/crypto/crypto.go:47-66 | a password deriving a different key fails authentication |
| TotpEntry.NewEntry | src/usecase/totpstore/entry.go:28-40 | the given names and secret, with SHA1, 6 digits, period 30, order 0 and the current time |
| TotpEntry.SplitLabel | src/usecase/totpstore/entry.go:63-69 | a label with ':' is split at its first ':', and one without is all account |
| TotpEntry.IntParam | src/usecase/totpstore/entry.go:90-102 | a present, numeric parameter replaces the default; an absent or malformed one keeps it |
| TotpEntry.ParseOTPAuthURI | src/usecase/totpstore/entry.go:44-115 | errors in source order (parse, scheme, host, missing secret); on success the label's issuer and account (the issuer parameter when the label has none), the upper-cased secret, the upper-cased algorithm or SHA1, and digits and period read by IntParam with defaults 6 and 30 |
| TotpEntry.ToOTPAuthURI | src/usecase/totpstore/entry.go:118-144 | scheme otpauth, host totp, the label path, and the secret parameter always present |
| TotpEntry.OptionalParams | src/usecase/totpstore/entry.go:130-141 | issuer, algorithm, digits and period are present exactly when they differ from their defaults |
| TotpEntry.QueryShape | src/usecase/totpstore/entry.go:128-141 | the query holds only the five parameter keys, each with one value |
| TotpEntry.ParseToOTPAuthURI | src/usecase/totpstore/entry.go:44-144 | parsing the URI of an entry gives the entry back under the fresh ID, order and time |
| TotpEntry.DisplayName | src/usecase/totpstore/entry.go:147-152 | the account when non-empty, else the issuer |
| TotpEntry.DisplayNameEmpty | src/usecase/totpstore/entry.go:147-152 | the display name is empty exactly when both account and issuer are |
| TotpEntry.EntryCode | src/usecase/totpstore/entry.go:155-161 | fails with InvalidSecret exactly when generation fails, and otherwise returns the generated code |
| Migration.MigrationAlgorithm | src/usecase/totpstore/migration.go:94-103 | SHA256 and SHA512 map to their names and every other value to SHA1 |
| Migration.MigrationDigits | src/usecase/totpstore/migration.go:106-113 | EIGHT maps to 8 and every other value to 6 |
| Migration.MigrationName | src/usecase/totpstore/migration.go:76-91 | a name with ':' is split and trimmed, and the issuer field wins when non-empty; otherwise the name is the account |
| Migration.MigrationNameSplits | src/usecase/totpstore/migration.go:78-86 | "issuer:account" gives that issuer and account when the issuer field is empty, and keeps the issuer field otherwise |
| Migration.TotpRecords | src/usecase/totpstore/migration.go:47-50 | the kept records are all TOTP records, and no more than the input |
| Migration.TotpRecordsMembers | src/usecase/totpstore/migration.go:47-50 | a record is kept exactly when it is in the input and is TOTP |
| Migration.TotpRecordsAppend | src/usecase/totpstore/migration.go:47-50 | filtering distributes over concatenation, so input order is kept |
| Migration.MigratedEntry | src/usecase/totpstore/migration.go:52-65 | the secret is the unpadded Base32 of the raw secret, with the mapped algorithm and digits and period 30 |
| Migration.MigratedSecretDecodes | src/usecase/totpstore/migration.go:53-59 | the migrated secret decodes back to the raw secret bytes when a code is generated |
| Migration.ParseOTPAuthMigrationURI | src/usecase/totpstore/migration.go:17-73 | errors in source order (URI, data, Base64, protobuf, no TOTP entries); on success one entry per TOTP record, in order, the k-th with its own ID and its own clock reading |
| Migration.NoTotpMeansError | src/usecase/totpstore/migration.go:68-70 | a payload without TOTP records keeps nothing |
| TotpStore.New | src/usecase/totpstore/store.go:25-30 | an empty, unloaded store |
| TotpStore.FindFirst | src/usecase/totpstore/store.go:123-127 | the first index with the ID, or none exactly when no entry has it |
| TotpStore.FirstMatchUnique | src/usecase/totpstore/store.go:123-127 | the first match is unique |
| TotpStore.Get | src/usecase/totpstore/store.go:119-129 | the first entry with the ID, or EntryNotFound exactly when there is none |
| TotpStore.MaxOrder | src/usecase/totpstore/store.go:137-142 | an upper bound of every order that is -1 or attained |
| TotpStore.Add | src/usecase/totpstore/store.go:132-147 | appends the entry with order one past the maximum (0 if all orders are negative), wrapping at 2^63 |
| TotpStore.AddThenGet | src/usecase/totpstore/store.go:119-147 | an added entry with a new ID is found, with its new order |
| TotpStore.Update | src/usecase/totpstore/store.go:150-161 | the first entry with the ID is replaced and nothing else changes; an unknown ID leaves the store and fails |
| TotpStore.UpdateThenGet | src/usecase/totpstore/store.go:119-161 | after an update, Get returns the new entry |
| TotpStore.Delete | src/usecase/totpstore/store.go:164-175 | the first entry with the ID is removed and the others keep their order; an unknown ID leaves the store and fails |
| TotpStore.DeleteRemovesOne | src/usecase/totpstore/store.go:164-175 | delete is removal at the first matching index |
| TotpStore.DeleteThenGet | src/usecase/totpstore/store.go:119-175 | with unique IDs, a deleted ID is no longer found |
| TotpStore.CountAddDelete | src/usecase/totpstore/store.go:132-199 | Add grows the count by one, a successful Delete shrinks it by one, and a failed one keeps it |
| TotpStore.SetOrder | src/usecase/totpstore/store.go:184-188 | only the first entry with the ID gets the order, and only its order changes |
| TotpStore.LastIndex | src/usecase/totpstore/store.go:183 | the last position of an ID in the list, whose order wins when the ID repeats |
| TotpStore.ReorderEntries | src/usecase/totpstore/store.go:183-190 | each first-occurring entry listed gets its last index in the list as order; all other fields and entries are unchanged |
| TotpStore.Reorder | src/usecase/totpstore/store.go:178-192 | the same, on the store: the first entry of each listed ID takes the ID's last position as its order; unlisted entries and later duplicates keep theirs |
| TotpStore.Insert | src/usecase/totpstore/store.go:111-113 | insertion keeps the list sorted by order and adds exactly one element |
| TotpStore.SortByOrder | src/usecase/totpstore/store.go:108-113 | a permutation of the entries sorted by order |
| TotpStore.GetAll | src/usecase/totpstore/store.go:103-116 | a permutation of the entries, sorted by order, of Count length |
| TotpStore.ReorderThenGetAll | src/usecase/totpstore/store.go:103-192 | reordering a store with unique IDs by a full list of its IDs makes GetAll list them in that order with orders 0, 1, 2, … |
| TotpStore.Load | src/usecase/totpstore/store.go:33-72 | empty text gives an empty loaded store; otherwise errors in source order (Base64, key, decrypt, JSON); a failure leaves the store unchanged |
| TotpStore.Save | src/usecase/totpstore/store.go:75-100 | fails exactly when the key or a random draw fails; otherwise the Base64 of the encrypted JSON |
| TotpStore.LoadSave | src/usecase/totpstore/store.go:33-100 | loading what Save stored, with the same key, restores the entries |
| Scanner.ScanQRCodes | src/usecase/qrscanner/scanner.go:162-198 | decode errors are passed on; migration text gives one result per migrated entry; TOTP text gives one result; any other text gives NoTOTPQRFound |
| Scanner.PrefixesDisjoint | src/usecase/qrscanner/scanner.go:169-196 | no text has both prefixes, so the case order is immaterial |
| Scanner.ScanEntryURI | src/usecase/qrscanner/scanner.go:183-193 | scanning an entry's URI gives back that entry and the text |
| Scanner.MakeRect | src/usecase/qrscanner/scanner.go:105 | image.Rect orders each axis's coordinates and keeps them |
| Scanner.ValidHeight | src/usecase/qrscanner/scanner.go:98-103 | the height is at most the image's, and a positive height's rows fit in the buffer |
| Scanner.CalculateValidBoundsAsWritten | src/usecase/qrscanner/scanner.go:86-109 | non-RGBA images keep their bounds, and an empty buffer or zero stride gives the zero rectangle; otherwise the result keeps the image's left and right edges and ends no lower than the image |
| Scanner.AsWrittenAboveImage | src/usecase/qrscanner/scanner.go:103-105 | 4 bytes with stride 4 on a 10×10 image give a non-empty rectangle above the image |
| Scanner.CalculateValidBounds | src/usecase/qrscanner/scanner.go:86-109 | the clipped rectangle lies within the bounds, keeps the top-left corner and width, and its rows fit in the buffer |
| Scanner.ClampAgrees | src/usecase/qrscanner/scanner.go:103 | where the height is non-negative the clamped version equals the source |
| Scanner.ShortBufferEmpty | src/usecase/qrscanner/scanner.go:76-78 | a buffer too short for one row gives an empty rectangle, so copyImage reports nothing to copy |
| Version.PartValue | src/pkg/version/version.go:34-45 | 0 when the part does not start with a digit; the value of an all-digit part that fits in int64 |
| Version.PartValueOfDigits | src/pkg/version/version.go:34-45 | a run of digits followed by a non-digit rest has the run's value, saturated at 2^63-1 |
| Version.Parse | src/pkg/version/version.go:29-49 | one number in [0, 2^63-1] per dot-separated part, each the part's value |
| Version.ParseFormat | src/pkg/version/version.go:29-49 | parsing a dotted list of numbers gives the list back |
| Version.ParseIgnoresSuffix | src/pkg/version/version.go:34-42 | a non-digit suffix such as "-beta" is ignored |
| Version.PreReleaseExample | src/pkg/version/version.go:34 | "1.0.0-beta" parses as [1, 0, 0] |
| Version.IsNewer | src/pkg/version/version.go:10-26 | newer exactly when the first differing part is greater, or when the parts agree and latest has more of them |
| Version.NewerIsLexicographic | src/pkg/version/version.go:15-25 | the comparison loop is the lexicographic order with proper extension |
| Version.IsNewerStrictOrder | src/pkg/version/version.go:10-26 | IsNewer is irreflexive, asymmetric and transitive |
| Version.LongerIsNewer | src/pkg/version/version.go:24-25 | extending a version with more parts makes it newer |
| Clipboard.New | src/usecase/clipboard/clipboard.go:19-21 | nothing copied and no timer |
| Clipboard.Clear | src/usecase/clipboard/clipboard.go:40-53 | the timer and record are reset, and the clipboard is emptied only if it still holds the non-empty copied content |
| Clipboard.Copy | src/usecase/clipboard/clipboard.go:24-37 | the clipboard and record hold the content and a clear is armed |
| Clipboard.UserSets | src/usecase/clipboard/clipboard.go:50 | an outside change replaces the clipboard only |
| Clipboard.Expire | src/usecase/clipboard/clipboard.go:32-36 | an armed timer runs Clear, and a stopped one does nothing |
| ListItem.DisplayCode | src/ui/totplist_item.go:74-83 | a failure shows "------", a 6-digit code shows as 3 + space + 3, and other codes as they are |
| ListItem.SixDigitDisplay | src/ui/totplist_item.go:74-83 | a 6-digit entry shows the placeholder or two groups of three decimal digits |
| ListItem.MenuItems | src/ui/totplist_item.go:129-162 | Move up exactly when not first, Move down exactly when not last, a separator after them, then edit, QR, separator and delete |
| ListItem.LastPosition | src/ui/totplist_item.go:175-180 | the last row with the ID, or -1 when none has it |
| ListItem.MoveIds | src/ui/totplist_item.go:171-191 | the shown IDs with the target and its neighbour swapped, a permutation, or nothing when the move is impossible |
| ListItem.MoveEntry | src/ui/totplist_item.go:171-194 | the store is reordered by the swapped IDs, or left as it is |
| ListItem.MoveAtEdgeNoop | src/ui/totplist_item.go:187-190 | moving the first row up or the last row down changes nothing |
| ListItem.MoveShowsNeighbour | src/ui/totplist_item.go:171-194 | with unique IDs, a move puts the entry one row up or down in the next listing and its neighbour in its place |
| Decimal.ParseWidth | src/pkg/totp/totp.go:65 | fmt's parsenum reads back a printed width below 10000010 and gives up on any larger one, because it stops once the value read so far exceeds 10^6 |
| Decimal.AtoiItoa | src/usecase/totpstore/entry.go:136-141 | Atoi reads back what Itoa writes, so digits and period survive the URI |
| Text.SplitFirstUnique | src/usecase/totpstore/entry.go:63-66 | SplitN(…, 2) of a + ':' + b, with no ':' in a, gives a and b |
| Text.TrimSpaceNoSpace | src/usecase/totpstore/migration.go:80-81 | TrimSpace leaves text without surrounding space unchanged |
| Text.ToUpperFixes | src/usecase/totpstore/entry.go:108-109 | ToUpper leaves no lower-case letter, and leaves text without one unchanged |

## Left out

- The Fyne user interface: widgets, dialogs, toasts, the colour change at five seconds and the settings screens. Only the pure parts of the list row are modelled.
- Mutexes, goroutines and real timers. Store and clipboard operations are modelled as atomic steps, and the clipboard timer as a flag with an `Expire` event.
- HMAC-SHA1/256/512, Argon2id and AES-256-GCM. They are uninterpreted functions constrained only by the laws the proofs need, because their internals lie outside this core.
- src/pkg/machinekey is not part of this model. The derived key is an `Option<string>` parameter, None meaning failure.
- Preferences storage is not modelled. The stored text is a parameter of `Load`, and Save returns the text to store.
- net/url parsing and escaping, Base64, protobuf, JSON, xid and the clock are not modelled. They are given as parameters, because they are library code.
- Screen capture, image resizing, QR symbol decoding and the pixel copy of copyImage are not modelled. Their outcome enters as the decoded text or the image's buffer length, stride and bounds.
- Generating QR images for export (generater.go) is left out. It is an image encoder around a library.
- TotpStore.Save: marshal is modelled as total, so Save has no JsonFailed path. json.Marshal of entries fails only when time.Time.MarshalJSON meets a year outside [0, 9999]; the times the program stores come from time.Now or from RFC 3339 text that Load parsed, and never reach such years. The model's createdAt is an unbounded int, and the model does not promise anything for out-of-range years.
- TotpStore.GetAll: sort.Slice is not stable, so the order of entries with equal orders is unspecified. The contract states "sorted and a permutation" and nothing about ties.
- Scanner.ValidHeight: the arithmetic is on unbounded integers. Go `int` overflow is not modelled, because buffer sizes stay far below 2^63.
- Totp.Generate: a zero period is a Go division panic. It is a `requires`, as is a digit count whose uint32 modulus wraps to zero.
- TotpEntry.EntryCode: the same division-by-zero `requires` as Totp.Generate.
- Totp.Format: only the width fmt parses from the `-N` of a non-positive digit count goes through parsenum. A positive digit count of 10000010 or more would also be rejected by fmt, but Format never sees one from Generate: the uint32 modulus is zero from 32 digits on, which Generate's `requires` excludes, and Format's contract for positive digits is stated as the padded number.
- ListItem.MoveEntry: the Save and list refresh after Reorder are not modelled. Only the reorder is.
- ListItem.MoveEntry, TotpStore.Reorder: a list of more than 2^63 IDs is excluded by a `requires`. Go's int index cannot reach it.
- copyCode (copying a code with a delay of the remaining time plus three seconds) is modelled only through `Clipboard.Copy`. The delay is a timer duration.
- Text.ToUpper, Totp.SelectHash, Totp.Generate, TotpEntry.ParseOTPAuthURI: upper-casing is modelled for ASCII letters only, so these contracts describe Go for text whose letters are ASCII. Go's strings.ToUpper uses the Unicode case mapping, which the program applies to secrets and algorithm names without checking them, and which can produce ASCII letters: 'ı' becomes 'I' and 'ſ' becomes 'S'. So Go accepts the secret "ıııııııı" and selects SHA-256 for "ſha256", while the model rejects the first and picks SHA-1 for the second. The Unicode case tables are not modelled.

## Findings

| source | as written | input that shows it | evidently intended | confidence | as-written member | corrected member |
|---|---|---|---|---|---|---|
| src/usecase/qrscanner/scanner.go:103-105 | the valid height `(pixLen+stride-width*4)/stride` can be negative, and image.Rect then swaps Min.Y and Max.Y, so the result is a non-empty rectangle above the image that copyImage's Empty check does not catch | pixLen 4, stride 4, bounds (0,0)-(10,10): height (4+4-40)/4 = -8, giving rectangle (0,-8)-(10,0) | a buffer shorter than one row gives no rows, i.e. the height is clamped at 0 and the rectangle is empty | not executed | Scanner.AsWrittenAboveImage | Scanner.CalculateValidBounds |
