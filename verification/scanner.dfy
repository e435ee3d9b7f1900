/**
 * The pure parts of src/usecase/qrscanner/scanner.go: routing decoded QR text to the two URI
 * parsers, and the integer arithmetic that clips a captured RGBA image to the pixel rows its
 * buffer holds. Screen capture, resizing and QR symbol decoding are not modelled; their
 * outcome is the decoded text given as a parameter.
 */
module Scanner {
  import opened Wrappers
  import opened Bytes
  import opened Errors
  import opened TotpEntry
  import Text
  import Url
  import Migration
  import Arith

  /** ScanResult: a parsed entry with the URI it came from. */
  datatype ScanResult = ScanResult(entry: Entry, uri: string)

  const MIGRATION_PREFIX: string := "otpauth-migration://"
  const TOTP_PREFIX: string := "otpauth://totp/"

  /**
   * The foreign parsers scanQRCodes reaches: url.Parse, the Base64 and protobuf decoding of a
   * migration payload, and the source of fresh IDs and of the current time.
   */
  datatype Parsers = Parsers(
    urlParse: string -> Option<Url.Uri>,
    base64: string -> Option<seq<byte>>,
    unmarshal: seq<byte> -> Option<seq<Migration.OtpParameters>>,
    newId: nat -> string,
    now: nat -> int)

  /**
   * scanQRCodes after decodeQRCode: a decoding error is passed on, migration text yields one
   * result per migrated entry and otpauth://totp/ text yields one result; parser errors are
   * passed on with no partial results.
   */
  function ScanQRCodes(decoded: Result<string, Error>, ps: Parsers): (r: Result<seq<ScanResult>, Error>)
    ensures decoded.Failure? ==> r == Failure(decoded.error)
    ensures (decoded.Success? && !Text.HasPrefix(decoded.value, MIGRATION_PREFIX)
             && !Text.HasPrefix(decoded.value, TOTP_PREFIX)) ==> r == Failure(NoTOTPQRFound)
    ensures decoded.Success? && Text.HasPrefix(decoded.value, MIGRATION_PREFIX) ==>
      var m := Migration.ParseOTPAuthMigrationURI(ps.urlParse(decoded.value), ps.base64, ps.unmarshal, ps.newId, ps.now);
      && (m.Failure? ==> r == Failure(m.error))
      && (m.Success? ==>
            && r.Success? && |r.value| == |m.value|
            && forall i :: 0 <= i < |m.value| ==> r.value[i] == ScanResult(m.value[i], decoded.value))
    ensures decoded.Success? && Text.HasPrefix(decoded.value, TOTP_PREFIX) ==>
      var p := ParseOTPAuthURI(ps.urlParse(decoded.value), ps.newId(0), ps.now(0));
      && (p.Failure? ==> r == Failure(p.error))
      && (p.Success? ==> r == Success([ScanResult(p.value, decoded.value)]))
  {
    match decoded
    case Failure(e) => Failure(e)
    case Success(text) =>
      PrefixesDisjoint(text);
      if Text.HasPrefix(text, MIGRATION_PREFIX) then
        match Migration.ParseOTPAuthMigrationURI(ps.urlParse(text), ps.base64, ps.unmarshal, ps.newId, ps.now)
        case Failure(e) => Failure(e)
        case Success(entries) =>
          Success(seq(|entries|, i requires 0 <= i < |entries| => ScanResult(entries[i], text)))
      else if Text.HasPrefix(text, TOTP_PREFIX) then
        match ParseOTPAuthURI(ps.urlParse(text), ps.newId(0), ps.now(0))
        case Failure(e) => Failure(e)
        case Success(entry) => Success([ScanResult(entry, text)])
      else Failure(NoTOTPQRFound)
  }

  /** No text starts with both prefixes, so the order of the two cases does not matter. */
  lemma PrefixesDisjoint(text: string)
    ensures !(Text.HasPrefix(text, MIGRATION_PREFIX) && Text.HasPrefix(text, TOTP_PREFIX))
  {
    if Text.HasPrefix(text, MIGRATION_PREFIX) {
      assert text[7] == MIGRATION_PREFIX[7] == '-' != TOTP_PREFIX[7];
    }
  }

  /** Scanning the URI of an entry gives back that entry, under a fresh ID, with the text. */
  lemma ScanEntryURI(e: Entry, text: string, ps: Parsers)
    requires RoundTrips(e)
    requires Text.HasPrefix(text, TOTP_PREFIX) && ps.urlParse(text) == Some(ToOTPAuthURI(e))
    ensures ScanQRCodes(Success(text), ps)
         == Success([ScanResult(e.(id := ps.newId(0), order := 0, createdAt := ps.now(0)), text)])
  {
    ParseToOTPAuthURI(e, ps.newId(0), ps.now(0));
    PrefixesDisjoint(text);
  }

  // ---------------------------------------------------------------------------
  // calculateValidBounds.

  datatype Point = Point(x: int, y: int)

  /** image.Rectangle: Min is inclusive, Max exclusive. */
  datatype Rect = Rect(min: Point, max: Point)

  function Dx(r: Rect): int { r.max.x - r.min.x }
  function Dy(r: Rect): int { r.max.y - r.min.y }

  /** Rectangle.Empty. */
  predicate Empty(r: Rect) { r.min.x >= r.max.x || r.min.y >= r.max.y }

  /** A rectangle with Min ≤ Max on both axes, as image.Rect builds them. */
  predicate WellFormed(r: Rect) { r.min.x <= r.max.x && r.min.y <= r.max.y }

  /** r lies inside b. */
  predicate Within(r: Rect, b: Rect) {
    b.min.x <= r.min.x && r.max.x <= b.max.x && b.min.y <= r.min.y && r.max.y <= b.max.y
  }

  /** image.Rect: the coordinates of each axis are swapped when given in decreasing order. */
  function MakeRect(x0: int, y0: int, x1: int, y1: int): (r: Rect)
    ensures WellFormed(r)
    ensures {r.min.x, r.max.x} == {x0, x1} && {r.min.y, r.max.y} == {y0, y1}
  {
    Rect(Point(if x0 <= x1 then x0 else x1, if y0 <= y1 then y0 else y1),
         Point(if x0 <= x1 then x1 else x0, if y0 <= y1 then y1 else y0))
  }

  /** The zero image.Rectangle. */
  const ZERO_RECT := Rect(Point(0, 0), Point(0, 0))

  /** A captured image: an *image.RGBA with its buffer length and row stride, or any other image. */
  datatype Image =
    | RGBA(pixLen: nat, stride: int, bounds: Rect)
    | OtherImage(bounds: Rect)

  const BYTES_PER_PIXEL := 4

  /** The number of rows calculateValidBounds keeps, as the source computes it. */
  function ValidHeight(pixLen: nat, stride: int, bounds: Rect): (h: int)
    requires stride != 0
    ensures h <= Dy(bounds)
    ensures stride > 0 && h > 0 ==> (h - 1) * stride + Dx(bounds) * BYTES_PER_PIXEL <= pixLen
  {
    var lastRowBytes := Dx(bounds) * BYTES_PER_PIXEL;
    var rows := GoDiv(pixLen + stride - lastRowBytes, stride);
    RowsFit(pixLen + stride - lastRowBytes, stride);
    if rows < Dy(bounds) then rows else Dy(bounds)
  }

  /** With q = n / stride positive, any 1..q rows of a positive stride take at most n bytes. */
  lemma RowsFit(n: int, stride: int)
    requires stride != 0
    ensures stride > 0 && GoDiv(n, stride) > 0 ==>
      forall h :: 0 < h <= GoDiv(n, stride) ==> h * stride <= n
  {
    if stride < 0 || GoDiv(n, stride) <= 0 {
      return;
    }
    var q := GoDiv(n, stride);
    var r := GoRem(n, stride);
    assert n == stride * q + r;
    Arith.MulMono(q, stride);
    assert n > 0;
    forall h | 0 < h <= q
      ensures h * stride <= n
    {
      assert h * stride <= q * stride;
    }
  }

  /** calculateValidBounds exactly as written. */
  function CalculateValidBoundsAsWritten(img: Image): (r: Rect)
    ensures img.OtherImage? ==> r == img.bounds
    ensures img.RGBA? && (img.pixLen == 0 || img.stride == 0) ==> r == ZERO_RECT
    ensures img.RGBA? && img.pixLen != 0 && img.stride != 0 && WellFormed(img.bounds) ==>
      r.min.x == img.bounds.min.x && r.max.x == img.bounds.max.x && r.max.y <= img.bounds.max.y
  {
    match img
    case OtherImage(b) => b
    case RGBA(pixLen, stride, b) =>
      if pixLen == 0 || stride == 0 then ZERO_RECT
      else
        var h := ValidHeight(pixLen, stride, b);
        MakeRect(b.min.x, b.min.y, b.max.x, b.min.y + h)
  }

  /**
   * A buffer shorter than one row makes the height negative, and image.Rect then turns the
   * rectangle upside down: it is not empty and lies above the image. With 4 bytes of pixels,
   * a stride of 4 and a 10×10 image the height is (4 + 4 - 40) / 4 = -8.
   */
  lemma AsWrittenAboveImage()
    ensures var b := Rect(Point(0, 0), Point(10, 10));
      var r := CalculateValidBoundsAsWritten(RGBA(4, 4, b));
      && r == Rect(Point(0, -8), Point(10, 0))
      && !Empty(r) && !Within(r, b)
  {
    var b := Rect(Point(0, 0), Point(10, 10));
    assert GoDiv(4 + 4 - 40, 4) == -8;
    assert ValidHeight(4, 4, b) == -8;
  }

  /** calculateValidBounds with the row count clamped at zero, so a short buffer gives no rows. */
  function CalculateValidBounds(img: Image): (r: Rect)
    ensures img.OtherImage? ==> r == img.bounds
    ensures img.RGBA? && (img.pixLen == 0 || img.stride == 0) ==> r == ZERO_RECT
    ensures img.RGBA? && img.pixLen != 0 && img.stride != 0 && WellFormed(img.bounds) ==>
      && Within(r, img.bounds)
      && r.min == img.bounds.min && r.max.x == img.bounds.max.x
      && (img.stride > 0 && !Empty(r) ==>
            (Dy(r) - 1) * img.stride + Dx(r) * BYTES_PER_PIXEL <= img.pixLen)
  {
    match img
    case OtherImage(b) => b
    case RGBA(pixLen, stride, b) =>
      if pixLen == 0 || stride == 0 then ZERO_RECT
      else
        var h := ValidHeight(pixLen, stride, b);
        var kept := if h < 0 then 0 else h;
        MakeRect(b.min.x, b.min.y, b.max.x, b.min.y + kept)
  }

  /** Where the source's height is not negative, the clamped version agrees with it. */
  lemma ClampAgrees(img: Image)
    requires img.RGBA? && img.stride != 0
    requires ValidHeight(img.pixLen, img.stride, img.bounds) >= 0
    ensures CalculateValidBounds(img) == CalculateValidBoundsAsWritten(img)
  {
  }

  /** A buffer shorter than one row and one stride leaves nothing to copy. */
  lemma ShortBufferEmpty(img: Image)
    requires img.RGBA? && img.pixLen != 0 && img.stride > 0 && WellFormed(img.bounds)
    requires img.pixLen + img.stride < Dx(img.bounds) * BYTES_PER_PIXEL
    ensures Empty(CalculateValidBounds(img))
  {
    var n := img.pixLen + img.stride - Dx(img.bounds) * BYTES_PER_PIXEL;
    assert GoDiv(n, img.stride) <= 0 by {
      var q := GoDiv(n, img.stride);
      var r := GoRem(n, img.stride);
      assert n == img.stride * q + r;
      if q > 0 {
        Arith.MulMono(q, img.stride);
        assert false;
      }
    }
  }
}
