/** Image sharing in `src/media.rs`: the format tables, the header parsers
    that read an image's dimensions (PNG IHDR, section 11.2.2 of the W3C PNG
    specification; the GIF89a logical screen descriptor, section 18; a JPEG
    start-of-frame scan, ITU-T T.81 Annex B.2.2), the signed `ImageMessage`,
    and the placeholder ASCII frame. */
module Media {
  import opened Wrappers
  import opened Bytes
  import opened Primitives
  import opened Crypto

  // ---------------------------------------------------------------------------
  // Formats
  // ---------------------------------------------------------------------------

  datatype ImageFormat = Png | Jpeg | Gif | Bmp | WebP

  /** `format as u8`: the declaration index. */
  function FormatByte(f: ImageFormat): (b: byte)
    ensures b < 5
  {
    match f
    case Png => 0
    case Jpeg => 1
    case Gif => 2
    case Bmp => 3
    case WebP => 4
  }

  lemma FormatByteInjective(f: ImageFormat, g: ImageFormat)
    requires FormatByte(f) == FormatByte(g)
    ensures f == g
  {
  }

  function AsciiLowerChar(c: char): char {
    if 'A' <= c <= 'Z' then (c as int + 32) as char else c
  }

  function AsciiUpperChar(c: char): char {
    if 'a' <= c <= 'z' then (c as int - 32) as char else c
  }

  /** Lowercasing, as `str::to_lowercase` acts on the letters that can reach
      the extension table. */
  function Lower(s: string): (r: string)
    ensures |r| == |s|
    ensures forall i :: 0 <= i < |s| ==> r[i] == AsciiLowerChar(s[i])
  {
    if s == [] then [] else [AsciiLowerChar(s[0])] + Lower(s[1..])
  }

  function Upper(s: string): (r: string)
    ensures |r| == |s|
    ensures forall i :: 0 <= i < |s| ==> r[i] == AsciiUpperChar(s[i])
  {
    if s == [] then [] else [AsciiUpperChar(s[0])] + Upper(s[1..])
  }

  /** `ImageFormat::from_extension`: case-insensitive; "jpg" and "jpeg" are
      both JPEG; anything else is unknown. */
  function FromExtension(ext: string): (r: Option<ImageFormat>)
    ensures r == Some(Jpeg) <==> Lower(ext) == "jpg" || Lower(ext) == "jpeg"
    ensures r.None? <==> Lower(ext) !in {"png", "jpg", "jpeg", "gif", "bmp", "webp"}
  {
    match Lower(ext)
    case "png" => Some(Png)
    case "jpg" => Some(Jpeg)
    case "jpeg" => Some(Jpeg)
    case "gif" => Some(Gif)
    case "bmp" => Some(Bmp)
    case "webp" => Some(WebP)
    case _ => None
  }

  lemma LowerIdempotent(s: string)
    ensures Lower(Lower(s)) == Lower(s)
  {
  }

  lemma LowerOfUpper(s: string)
    ensures Lower(Upper(s)) == Lower(s)
  {
  }

  /** Case does not matter: an extension, its lowercase and its uppercase
      spelling name the same format. */
  lemma FromExtensionIgnoresCase(ext: string)
    ensures FromExtension(Lower(ext)) == FromExtension(ext)
    ensures FromExtension(Upper(ext)) == FromExtension(ext)
  {
    LowerIdempotent(ext);
    LowerOfUpper(ext);
  }

  /** `ImageFormat::mime_type`. */
  function MimeType(f: ImageFormat): (m: string)
    ensures |m| > 6 && m[..6] == "image/"
  {
    match f
    case Png => "image/png"
    case Jpeg => "image/jpeg"
    case Gif => "image/gif"
    case Bmp => "image/bmp"
    case WebP => "image/webp"
  }

  /** The MIME subtype is itself an extension of the same format, so
      distinct formats have distinct MIME types. */
  lemma MimeSubtypeNamesFormat(f: ImageFormat)
    ensures FromExtension(MimeType(f)[6..]) == Some(f)
  {
    LowerFixesLowercase(MimeType(f)[6..]);
  }

  lemma LowerFixesLowercase(s: string)
    requires forall i :: 0 <= i < |s| ==> !('A' <= s[i] <= 'Z')
    ensures Lower(s) == s
  {
  }

  lemma MimeTypeInjective(f: ImageFormat, g: ImageFormat)
    requires MimeType(f) == MimeType(g)
    ensures f == g
  {
    MimeSubtypeNamesFormat(f);
    MimeSubtypeNamesFormat(g);
  }

  // ---------------------------------------------------------------------------
  // Header parsers
  // ---------------------------------------------------------------------------

  /** The dimensions every parser falls back to. */
  const DEFAULT_DIMENSIONS: (u32, u32) := (100, 100)

  /** `parse_png_dimensions`: too short for an IHDR means the default;
      otherwise the big-endian width at bytes 16-19 and height at 20-23. */
  function ParsePngDimensions(data: bytes): (r: (u32, u32))
    ensures |data| < 24 ==> r == DEFAULT_DIMENSIONS
  {
    if |data| < 24 then DEFAULT_DIMENSIONS
    else (Be32(data[16], data[17], data[18], data[19]), Be32(data[20], data[21], data[22], data[23]))
  }

  /** `u32::to_be_bytes`. */
  function BeBytes32(n: u32): (r: bytes)
    ensures |r| == 4
  {
    [((n / 256) / 256) / 256, ((n / 256) / 256) % 256, (n / 256) % 256, n % 256]
  }

  lemma Be32OfBeBytes32(n: u32)
    ensures var b := BeBytes32(n); Be32(b[0], b[1], b[2], b[3]) == n
  {
    var q1 := n / 256;
    var q2 := q1 / 256;
    var q3 := q2 / 256;
    assert q2 == q3 * 256 + q2 % 256;
    assert q1 == q2 * 256 + q1 % 256;
    assert n == q1 * 256 + n % 256;
    assert ((q3 * 256 + q2 % 256) * 256 + q1 % 256) * 256 + n % 256 == n;
  }

  /** The first 24 bytes of a PNG file: signature, IHDR length and type,
      width, height. */
  function PngHeader(width: u32, height: u32): (r: bytes)
    ensures |r| == 24
  {
    [0x89, 0x50, 0x4E, 0x47, 0x0D, 0x0A, 0x1A, 0x0A] + [0, 0, 0, 13] + [0x49, 0x48, 0x44, 0x52]
      + BeBytes32(width) + BeBytes32(height)
  }

  /** The PNG parser reads back the dimensions a PNG header carries. */
  lemma PngDimensionsOfHeader(width: u32, height: u32, rest: bytes)
    ensures ParsePngDimensions(PngHeader(width, height) + rest) == (width, height)
  {
    var d := PngHeader(width, height) + rest;
    assert d[16..20] == BeBytes32(width);
    assert d[20..24] == BeBytes32(height);
    Be32OfBeBytes32(width);
    Be32OfBeBytes32(height);
  }

  /** `parse_gif_dimensions`: too short for a screen descriptor means the
      default; otherwise the little-endian width at bytes 6-7 and height at
      8-9. */
  function ParseGifDimensions(data: bytes): (r: (u32, u32))
    ensures |data| < 10 ==> r == DEFAULT_DIMENSIONS
  {
    if |data| < 10 then DEFAULT_DIMENSIONS
    else (Le16(data[6], data[7]), Le16(data[8], data[9]))
  }

  /** "GIF89a" followed by the logical screen width and height. */
  function GifHeader(width: u16, height: u16): (r: bytes)
    ensures |r| == 10
  {
    [0x47, 0x49, 0x46, 0x38, 0x39, 0x61] + [width % 256, width / 256, height % 256, height / 256]
  }

  lemma GifDimensionsOfHeader(width: u16, height: u16, rest: bytes)
    ensures ParseGifDimensions(GifHeader(width, height) + rest) == (width, height)
  {
    var d := GifHeader(width, height) + rest;
    assert d[6] == width % 256 && d[7] == width / 256;
    assert d[8] == height % 256 && d[9] == height / 256;
  }

  // --- JPEG ------------------------------------------------------------------

  /** The marker test `parse_jpeg_dimensions` applies to the byte after 0xFF:
      high nibble C, low nibble not 0. */
  predicate SourceSofTest(b: byte) {
    b / 16 == 0xC && b % 16 != 0
  }

  /** The start-of-frame markers of ITU-T T.81, Table B.1: 0xC0-0xCF less
      DHT (0xC4), JPG (0xC8) and DAC (0xCC). */
  predicate IsSofMarker(b: byte) {
    0xC0 <= b <= 0xCF && b != 0xC4 && b != 0xC8 && b != 0xCC
  }

  /** Frame height and width of a segment starting at `i`:
      FF, marker, length (2), precision (1), height (2), width (2). */
  function SofHeight(data: bytes, i: nat): u16
    requires i + 9 <= |data|
  {
    Be16(data[i + 5], data[i + 6])
  }

  function SofWidth(data: bytes, i: nat): u16
    requires i + 9 <= |data|
  {
    Be16(data[i + 7], data[i + 8])
  }

  /** Offset `i` holds an accepted frame header under the marker test
      `isSof`: 0xFF, a marker passing the test, and non-zero dimensions. */
  predicate SofAt(data: bytes, i: nat, isSof: byte -> bool)
    requires i + 9 <= |data|
  {
    data[i] == 0xFF && isSof(data[i + 1]) && SofWidth(data, i) > 0 && SofHeight(data, i) > 0
  }

  /** The scan range `0..data.len().saturating_sub(9)`. */
  function ScanEnd(data: bytes): nat {
    if |data| < 9 then 0 else |data| - 9
  }

  /** The first accepted frame header at an offset in `k..ScanEnd(data)`, as
      (width, height). */
  function SofScanFrom(data: bytes, k: nat, isSof: byte -> bool): (r: Option<(u32, u32)>)
    requires k <= ScanEnd(data)
    decreases ScanEnd(data) - k
    ensures r.None? <==> forall i :: k <= i < ScanEnd(data) ==> !SofAt(data, i, isSof)
    ensures r.Some? ==> exists i :: k <= i < ScanEnd(data) && SofAt(data, i, isSof)
                                    && r.value == (SofWidth(data, i) as u32, SofHeight(data, i) as u32)
                                    && forall j :: k <= j < i ==> !SofAt(data, j, isSof)
  {
    if k == ScanEnd(data) then None
    else if SofAt(data, k, isSof) then Some((SofWidth(data, k) as u32, SofHeight(data, k) as u32))
    else SofScanFrom(data, k + 1, isSof)
  }

  predicate HasJpegSignature(data: bytes) {
    |data| >= 4 && data[0] == 0xFF && data[1] == 0xD8
  }

  /** `parse_jpeg_dimensions` for a given marker test: the default unless the
      data starts with the SOI marker FF D8 and the scan finds a frame
      header. */
  function JpegDimensions(data: bytes, isSof: byte -> bool): (r: (u32, u32))
    ensures !HasJpegSignature(data) ==> r == DEFAULT_DIMENSIONS
  {
    if !HasJpegSignature(data) then DEFAULT_DIMENSIONS
    else SofScanFrom(data, 0, isSof).GetOr(DEFAULT_DIMENSIONS)
  }

  /** The scanning loop of `parse_jpeg_dimensions`, returning at the first
      accepted frame header. */
  method ScanForSof(data: bytes, isSof: byte -> bool) returns (r: Option<(u32, u32)>)
    ensures r == SofScanFrom(data, 0, isSof)
  {
    var end := if |data| < 9 then 0 else |data| - 9;
    var i := 0;
    while i < end
      invariant 0 <= i <= end && end == ScanEnd(data)
      invariant SofScanFrom(data, 0, isSof) == SofScanFrom(data, i, isSof)
    {
      if data[i] == 0xFF && isSof(data[i + 1]) {
        var height := Be16(data[i + 5], data[i + 6]) as u32;
        var width := Be16(data[i + 7], data[i + 8]) as u32;
        if width > 0 && height > 0 {
          return Some((width, height));
        }
      }
      i := i + 1;
    }
    return None;
  }

  /** `parse_jpeg_dimensions` as written, with its marker test. */
  method ParseJpegDimensionsAsWritten(data: bytes) returns (r: (u32, u32))
    ensures r == JpegDimensions(data, SourceSofTest)
  {
    if |data| < 4 || data[0] != 0xFF || data[1] != 0xD8 {
      return DEFAULT_DIMENSIONS;
    }
    var found := ScanForSof(data, SourceSofTest);
    r := found.GetOr(DEFAULT_DIMENSIONS);
  }

  /** The same scan with the start-of-frame markers of ITU-T T.81: the
      corrected parser, which `estimate_dimensions` does not call. */
  method ParseJpegDimensions(data: bytes) returns (r: (u32, u32))
    ensures r == JpegDimensions(data, IsSofMarker)
  {
    if |data| < 4 || data[0] != 0xFF || data[1] != 0xD8 {
      return DEFAULT_DIMENSIONS;
    }
    var found := ScanForSof(data, IsSofMarker);
    r := found.GetOr(DEFAULT_DIMENSIONS);
  }

  /** The marker test as written rejects SOF0, the baseline frame marker
      that its own comment names, and accepts DHT, JPG and DAC. */
  lemma SourceSofTestDisagrees()
    ensures !SourceSofTest(0xC0) && IsSofMarker(0xC0)
    ensures SourceSofTest(0xC4) && !IsSofMarker(0xC4)
    ensures SourceSofTest(0xC8) && !IsSofMarker(0xC8)
    ensures SourceSofTest(0xCC) && !IsSofMarker(0xCC)
  {
  }

  /** A baseline header (SOI, then an SOF0 segment for a 32x16 image): the
      scan as written misses it and returns the default. */
  lemma AsWrittenMissesBaseline()
    ensures JpegDimensions([0xFF, 0xD8, 0xFF, 0xC0, 0x00, 0x11, 0x08, 0x00, 0x10, 0x00, 0x20, 0x03],
                           SourceSofTest) == (100, 100)
    ensures JpegDimensions([0xFF, 0xD8, 0xFF, 0xC0, 0x00, 0x11, 0x08, 0x00, 0x10, 0x00, 0x20, 0x03],
                           IsSofMarker) == (32, 16)
  {
    var d: bytes := [0xFF, 0xD8, 0xFF, 0xC0, 0x00, 0x11, 0x08, 0x00, 0x10, 0x00, 0x20, 0x03];
    assert ScanEnd(d) == 3;
    assert !SofAt(d, 0, SourceSofTest) && !SofAt(d, 1, SourceSofTest) && !SofAt(d, 2, SourceSofTest);
    assert !SofAt(d, 0, IsSofMarker) && !SofAt(d, 1, IsSofMarker) && SofAt(d, 2, IsSofMarker);
  }

  /** A Huffman-table segment (DHT, 0xFFC4) ahead of the frame header: the
      scan as written reads the table's code counts as a 1281x1 image. */
  lemma AsWrittenReadsHuffmanTable()
    ensures JpegDimensions([0xFF, 0xD8, 0xFF, 0xC4, 0x00, 0x1F, 0x00, 0x00, 0x01, 0x05, 0x01, 0x01],
                           SourceSofTest) == (1281, 1)
    ensures JpegDimensions([0xFF, 0xD8, 0xFF, 0xC4, 0x00, 0x1F, 0x00, 0x00, 0x01, 0x05, 0x01, 0x01],
                           IsSofMarker) == (100, 100)
  {
    var d: bytes := [0xFF, 0xD8, 0xFF, 0xC4, 0x00, 0x1F, 0x00, 0x00, 0x01, 0x05, 0x01, 0x01];
    assert ScanEnd(d) == 3;
    assert !SofAt(d, 0, SourceSofTest) && !SofAt(d, 1, SourceSofTest) && SofAt(d, 2, SourceSofTest);
    assert !SofAt(d, 0, IsSofMarker) && !SofAt(d, 1, IsSofMarker) && !SofAt(d, 2, IsSofMarker);
  }

  /** With the corrected test, a JPEG whose first segment is a frame header
      of any kind yields that header's width and height. */
  lemma LeadingFrameHeaderFound(data: bytes)
    requires |data| >= 12 && data[0] == 0xFF && data[1] == 0xD8
    requires data[2] == 0xFF && IsSofMarker(data[3])
    requires SofWidth(data, 2) > 0 && SofHeight(data, 2) > 0
    ensures JpegDimensions(data, IsSofMarker) == (Be16(data[9], data[10]), Be16(data[7], data[8]))
  {
    assert !SofAt(data, 0, IsSofMarker);
    assert !SofAt(data, 1, IsSofMarker);
    assert SofAt(data, 2, IsSofMarker);
  }

  /** With the corrected test, whatever the scan reports was read at an
      offset holding 0xFF and a start-of-frame marker byte.  The scan goes
      byte by byte, so that pair may lie inside another segment's payload. */
  lemma JpegDimensionsFromFrameHeader(data: bytes)
    requires HasJpegSignature(data) && SofScanFrom(data, 0, IsSofMarker).Some?
    ensures exists i :: 0 <= i < ScanEnd(data) && data[i] == 0xFF && IsSofMarker(data[i + 1])
                        && JpegDimensions(data, IsSofMarker) == (SofWidth(data, i) as u32, SofHeight(data, i) as u32)
  {
  }

  /** `estimate_dimensions`.  For BMP and WebP the source estimates from the
      file size in floating point; that estimate is the `fallback` here.
      JPEG goes to `parse_jpeg_dimensions` as written, with its marker test. */
  function EstimateDimensions(data: bytes, format: ImageFormat, fallback: (u32, u32)): (r: (u32, u32))
    ensures format == Png ==> r == ParsePngDimensions(data)
    ensures format == Jpeg ==> r == JpegDimensions(data, SourceSofTest)
    ensures format == Gif ==> r == ParseGifDimensions(data)
    ensures format == Bmp || format == WebP ==> r == fallback
  {
    match format
    case Png => ParsePngDimensions(data)
    case Jpeg => JpegDimensions(data, SourceSofTest)
    case Gif => ParseGifDimensions(data)
    case _ => fallback
  }

  /** Through `estimate_dimensions`, a baseline 32x16 JPEG is reported at
      the 100x100 default. */
  lemma EstimateMissesBaselineJpeg(fallback: (u32, u32))
    ensures EstimateDimensions([0xFF, 0xD8, 0xFF, 0xC0, 0x00, 0x11, 0x08, 0x00, 0x10, 0x00, 0x20, 0x03],
                               Jpeg, fallback) == (100, 100)
  {
    AsWrittenMissesBaseline();
  }

  // ---------------------------------------------------------------------------
  // Image messages
  // ---------------------------------------------------------------------------

  datatype ImageMeta = ImageMeta(filename: string, format: ImageFormat, width: u32, height: u32, size: u64)

  /** The bytes an image signature covers:
      `filename ‖ format byte ‖ size (8, LE) ‖ timestamp (8, LE) ‖ data`. */
  function ImageSignData(filename: string, format: ImageFormat, size: u64, timestamp: u64, data: bytes): bytes {
    Utf8(filename) + [FormatByte(format)] + U64Le(size) + U64Le(timestamp) + data
  }

  /** Once the filename is fixed, the signed bytes determine the format, the
      size, the timestamp and the data. */
  lemma ImageSignDataInjective(filename: string, f1: ImageFormat, s1: u64, t1: u64, d1: bytes,
                               f2: ImageFormat, s2: u64, t2: u64, d2: bytes)
    requires ImageSignData(filename, f1, s1, t1, d1) == ImageSignData(filename, f2, s2, t2, d2)
    ensures f1 == f2 && s1 == s2 && t1 == t2 && d1 == d2
  {
    var n := |Utf8(filename)|;
    var a := ImageSignData(filename, f1, s1, t1, d1);
    var b := ImageSignData(filename, f2, s2, t2, d2);
    assert a[n] == FormatByte(f1) && b[n] == FormatByte(f2);
    assert a[n + 1..n + 9] == U64Le(s1) && b[n + 1..n + 9] == U64Le(s2);
    assert a[n + 9..n + 17] == U64Le(t1) && b[n + 9..n + 17] == U64Le(t2);
    assert a[n + 17..] == d1 && b[n + 17..] == d2;
    FormatByteInjective(f1, f2);
    U64LeInjective(s1, s2);
    U64LeInjective(t1, t2);
  }

  datatype ImageError =
    | InvalidSenderKeyLength         // "Invalid sender public key length"
    | InvalidSignatureLength         // "Invalid signature length"
    | SignatureVerificationFailed    // the error of verify_with_key

  datatype ImageMessage = ImageMessage(meta: ImageMeta, data: bytes, senderPublicKey: bytes,
                                       timestamp: u64, signature: bytes)
  {
    function SignData(): bytes {
      ImageSignData(meta.filename, meta.format, meta.size, timestamp, data)
    }

    /** `ImageMessage::verify`: sender key 32 bytes, then signature 64
        bytes, then the signature over the signed layout, rebuilt from the
        stored metadata (not from `data.len()`). */
    function Verify(ed: Ed25519): (r: Result<(), ImageError>)
      ensures |senderPublicKey| != 32 ==> r == Err(InvalidSenderKeyLength)
      ensures |senderPublicKey| == 32 && |signature| != 64 ==> r == Err(InvalidSignatureLength)
      ensures r.Ok? <==> |senderPublicKey| == 32 && |signature| == 64
                         && ed.verifyStrict(senderPublicKey, SignData(), signature)
    {
      if |senderPublicKey| != 32 then Err(InvalidSenderKeyLength)
      else if |signature| != 64 then Err(InvalidSignatureLength)
      else match VerifyWithKey(ed, SignData(), signature, senderPublicKey)
        case Ok(_) => Ok(())
        case Err(_) => Err(ImageError.SignatureVerificationFailed)
    }
  }

  /** `ImageMessage::new`, with the clock and the BMP/WebP size estimate
      passed in.  A `Vec`'s length is a `usize`, so it fits in 64 bits. */
  function NewImageMessage(ed: Ed25519, identity: Identity, filename: string, format: ImageFormat,
                           data: bytes, now: u64, fallback: (u32, u32)): (r: ImageMessage)
    requires |data| < 0x1_0000_0000_0000_0000
    ensures r.meta.filename == filename && r.meta.format == format && r.meta.size == |data|
    ensures (r.meta.width, r.meta.height) == EstimateDimensions(data, format, fallback)
    ensures r.data == data && r.senderPublicKey == PublicKey(identity) && r.timestamp == now
    ensures |r.signature| == 64
    ensures r.signature == Sign(ed, identity, ImageSignData(filename, format, |data|, now, data))
  {
    var (width, height) := EstimateDimensions(data, format, fallback);
    var meta := ImageMeta(filename, format, width, height, |data|);
    ImageMessage(meta, data, PublicKey(identity), now,
                 Sign(ed, identity, ImageSignData(filename, format, |data|, now, data)))
  }

  /** `verify` checks exactly the bytes `new` signed. */
  lemma NewImageMessageVerifies(ed: Ed25519, identity: Identity, filename: string, format: ImageFormat,
                                data: bytes, now: u64, fallback: (u32, u32))
    requires SignaturesVerify(ed) && WellFormed(ed, identity)
    requires |data| < 0x1_0000_0000_0000_0000
    ensures NewImageMessage(ed, identity, filename, format, data, now, fallback).Verify(ed) == Ok(())
  {
  }

  /** The width and height are not signed: changing them never changes the
      outcome of `verify`. */
  lemma DimensionsAreUnsigned(ed: Ed25519, m: ImageMessage, width: u32, height: u32)
    ensures m.(meta := m.meta.(width := width, height := height)).Verify(ed) == m.Verify(ed)
  {
  }

  // ---------------------------------------------------------------------------
  // ASCII placeholder
  // ---------------------------------------------------------------------------

  /** The five shading characters, darkest first. */
  const SHADES: seq<char> := ['█', '▓', '▒', '░', ' ']

  function Clamp(n: nat, lo: nat, hi: nat): (r: nat)
    requires lo <= hi
    ensures lo <= r <= hi
    ensures lo <= n <= hi ==> r == n
    ensures n < lo ==> r == lo
    ensures n > hi ==> r == hi
  {
    if n < lo then lo else if n > hi then hi else n
  }

  /** Frame width in characters, `(width / 8).clamp(10, 40)`. */
  function DisplayWidth(width: u32): nat {
    Clamp(width / 8, 10, 40)
  }

  /** Frame height in rows, `(height / 16).clamp(5, 20)`. */
  function DisplayHeight(height: u32): nat {
    Clamp(height / 16, 5, 20)
  }

  /** `n` copies of `c`. */
  function Repeat(c: char, n: nat): (r: string)
    ensures |r| == n
  {
    if n == 0 then [] else Repeat(c, n - 1) + [c]
  }

  /** The shading of row `y`, `n` characters wide: character `x` is
      `SHADES[(x + y) % 5]`, a diagonal gradient. */
  function Shades(n: nat, y: nat): (r: string)
    ensures |r| == n
  {
    if n == 0 then [] else Shades(n - 1, y) + [SHADES[(n - 1 + y) % 5]]
  }

  /** The gradient `Shades` builds: character `x` of row `y` is
      `SHADES[(x + y) % 5]`. */
  lemma {:induction false} ShadesGradient(n: nat, y: nat)
    ensures forall x :: 0 <= x < n ==> Shades(n, y)[x] == SHADES[(x + y) % 5]
  {
    if n > 0 {
      var prev := Shades(n - 1, y);
      ShadesGradient(n - 1, y);
      assert Shades(n, y) == prev + [SHADES[(n - 1 + y) % 5]];
      forall x | 0 <= x < n
        ensures Shades(n, y)[x] == SHADES[(x + y) % 5]
      {
        if x < n - 1 {
          assert Shades(n, y)[x] == prev[x];
        }
      }
    }
  }

  function TopLine(w: nat): string {
    ['┌'] + Repeat('─', w) + ['┐']
  }

  function RowLine(w: nat, y: nat): string {
    ['│'] + Shades(w, y) + ['│']
  }

  function BottomLine(w: nat): string {
    ['└'] + Repeat('─', w) + ['┘']
  }

  /** Rows `0..y`, each followed by a newline. */
  function RowsText(w: nat, y: nat): string {
    if y == 0 then [] else RowsText(w, y - 1) + RowLine(w, y - 1) + "\n"
  }

  /** The text `generate_ascii_art` builds. */
  function AsciiFrame(width: u32, height: u32): string {
    var w, h := DisplayWidth(width), DisplayHeight(height);
    TopLine(w) + "\n" + RowsText(w, h) + BottomLine(w)
  }

  /** The `for _ in 0..n { result.push(c) }` loops of the frame's edges. */
  method PushRepeated(s: string, c: char, n: nat) returns (result: string)
    ensures result == s + Repeat(c, n)
  {
    result := s;
    var i := 0;
    while i < n
      invariant 0 <= i <= n
      invariant result == s + Repeat(c, i)
    {
      result := result + [c];
      i := i + 1;
    }
  }

  /** The inner loop of one frame row: `n` gradient characters for row `y`. */
  method PushShades(s: string, n: nat, y: nat) returns (result: string)
    ensures result == s + Shades(n, y)
  {
    result := s;
    var x := 0;
    while x < n
      invariant 0 <= x <= n
      invariant result == s + Shades(x, y)
    {
      result := result + [SHADES[(x + y) % 5]];
      x := x + 1;
    }
  }

  /** One row of the frame: the side bar, the gradient, the side bar and a
      newline. */
  method PushRow(s: string, n: nat, y: nat) returns (result: string)
    ensures result == s + RowLine(n, y) + "\n"
  {
    result := s + ['│'];
    result := PushShades(result, n, y);
    result := result + "│\n";
  }

  /** The closing line of the frame, without a trailing newline. */
  method PushBottom(s: string, n: nat) returns (result: string)
    ensures result == s + BottomLine(n)
  {
    result := s + ['└'];
    result := PushRepeated(result, '─', n);
    result := result + ['┘'];
  }

  /** The opening line of the frame and its newline. */
  method PushTop(s: string, n: nat) returns (result: string)
    ensures result == s + TopLine(n) + "\n"
  {
    result := s + ['┌'];
    result := PushRepeated(result, '─', n);
    result := result + ['┐'];
    result := result + "\n";
  }

  /** All rows of the frame. */
  method PushRows(s: string, w: nat, h: nat) returns (result: string)
    ensures result == s + RowsText(w, h)
  {
    result := s;
    var y := 0;
    while y < h
      invariant 0 <= y <= h
      invariant result == s + RowsText(w, y)
    {
      result := PushRow(result, w, y);
      assert s + RowsText(w, y + 1) == s + RowsText(w, y) + RowLine(w, y) + "\n";
      y := y + 1;
    }
  }

  /** `generate_ascii_art`: a box-drawn frame around a gradient; the image
      data is not looked at. */
  method GenerateAsciiArt(width: u32, height: u32, data: bytes) returns (result: string)
    ensures result == AsciiFrame(width, height)
  {
    var displayWidth := DisplayWidth(width);
    var displayHeight := DisplayHeight(height);
    result := PushTop([], displayWidth);
    result := PushRows(result, displayWidth, displayHeight);
    result := PushBottom(result, displayWidth);
    assert [] + TopLine(displayWidth) == TopLine(displayWidth);
  }

  /** Occurrences of `c` in `s`. */
  function Occurrences(s: string, c: char): nat {
    if s == [] then 0 else (if s[0] == c then 1 else 0) + Occurrences(s[1..], c)
  }

  lemma {:induction false} OccurrencesAppend(a: string, b: string, c: char)
    ensures Occurrences(a + b, c) == Occurrences(a, c) + Occurrences(b, c)
  {
    if a == [] {
      assert a + b == b;
    } else {
      assert (a + b)[1..] == a[1..] + b;
      OccurrencesAppend(a[1..], b, c);
    }
  }

  lemma OccurrencesSingleton(d: char, c: char)
    ensures Occurrences([d], c) == if d == c then 1 else 0
  {
    assert [d][1..] == [];
  }

  lemma {:induction false} RepeatHasNoNewline(c: char, n: nat)
    requires c != '\n'
    ensures Occurrences(Repeat(c, n), '\n') == 0
  {
    if n > 0 {
      RepeatHasNoNewline(c, n - 1);
      OccurrencesAppend(Repeat(c, n - 1), [c], '\n');
      OccurrencesSingleton(c, '\n');
    }
  }

  lemma {:induction false} ShadesHaveNoNewline(n: nat, y: nat)
    ensures Occurrences(Shades(n, y), '\n') == 0
  {
    if n > 0 {
      var k := (n - 1 + y) % 5;
      assert SHADES[k] != '\n';
      ShadesHaveNoNewline(n - 1, y);
      OccurrencesAppend(Shades(n - 1, y), [SHADES[k]], '\n');
      OccurrencesSingleton(SHADES[k], '\n');
    }
  }

  /** A line `[a] + middle + [b]` with no newline in it contains none. */
  lemma FramedHasNoNewline(a: char, middle: string, b: char)
    requires a != '\n' && b != '\n' && Occurrences(middle, '\n') == 0
    ensures Occurrences([a] + middle + [b], '\n') == 0
  {
    OccurrencesAppend([a], middle, '\n');
    OccurrencesAppend([a] + middle, [b], '\n');
    OccurrencesSingleton(a, '\n');
    OccurrencesSingleton(b, '\n');
  }

  lemma {:induction false} RowsTextShape(w: nat, y: nat)
    ensures |RowsText(w, y)| == y * (w + 3)
    ensures Occurrences(RowsText(w, y), '\n') == y
  {
    if y > 0 {
      RowsTextShape(w, y - 1);
      assert |RowsText(w, y)| == |RowsText(w, y - 1)| + (w + 3);
      assert (y - 1) * (w + 3) + (w + 3) == y * (w + 3);
      ShadesHaveNoNewline(w, y - 1);
      FramedHasNoNewline('│', Shades(w, y - 1), '│');
      OccurrencesAppend(RowsText(w, y - 1), RowLine(w, y - 1), '\n');
      OccurrencesAppend(RowsText(w, y - 1) + RowLine(w, y - 1), "\n", '\n');
      OccurrencesSingleton('\n', '\n');
    }
  }

  /** Where the newline after line `k` of a frame `w` characters wide falls:
      each line is `w + 2` characters and its newline. */
  function LineEnd(w: nat, k: nat): nat {
    k * (w + 3) + w + 2
  }

  /** The frame has `DisplayHeight + 2` lines (one newline fewer); the
      newline after line `k` is at `LineEnd(DisplayWidth, k)`, and as there
      are no other newlines every line has `DisplayWidth + 2` characters; it
      starts with '┌', its last line starts with '└', and it ends with '┘'. */
  lemma AsciiFrameShape(width: u32, height: u32)
    ensures var art, w, h := AsciiFrame(width, height), DisplayWidth(width), DisplayHeight(height);
      && Occurrences(art, '\n') + 1 == h + 2
      && |art| == (h + 2) * (w + 2) + (h + 1)
      && (forall k :: 0 <= k <= h ==> LineEnd(w, k) < |art| && art[LineEnd(w, k)] == '\n')
      && LineEnd(w, h) + 1 < |art| && art[LineEnd(w, h) + 1] == '└'
      && art[0] == '┌' && art[|art| - 1] == '┘'
  {
    var w, h := DisplayWidth(width), DisplayHeight(height);
    AsciiFrameLength(w, h);
    AsciiFrameNewlines(w, h);
    AsciiFrameLineEnds(w, h);
    var top, rows, bottom := TopLine(w), RowsText(w, h), BottomLine(w);
    var art := top + "\n" + rows + bottom;
    assert art[0] == top[0];
    assert art[|art| - 1] == bottom[|bottom| - 1];
    AsciiFrameLastLine(w, h);
  }

  /** The last line starts right after the last newline, with '└'. */
  lemma AsciiFrameLastLine(w: nat, h: nat)
    ensures var art := TopLine(w) + "\n" + RowsText(w, h) + BottomLine(w);
      LineEnd(w, h) + 1 < |art| && art[LineEnd(w, h) + 1] == '└'
  {
    var prefix, bottom := TopLine(w) + "\n" + RowsText(w, h), BottomLine(w);
    RowsTextShape(w, h);
    assert |prefix| == (w + 3) + h * (w + 3);
    assert LineEnd(w, h) + 1 == |prefix|;
    assert (prefix + bottom)[|prefix|] == bottom[0];
  }

  lemma AsciiFrameLength(w: nat, h: nat)
    ensures |TopLine(w) + "\n" + RowsText(w, h) + BottomLine(w)| == (h + 2) * (w + 2) + (h + 1)
  {
    RowsTextShape(w, h);
    assert (w + 2) + 1 + h * (w + 3) + (w + 2) == (h + 2) * (w + 2) + (h + 1);
  }

  lemma AsciiFrameNewlines(w: nat, h: nat)
    ensures Occurrences(TopLine(w) + "\n" + RowsText(w, h) + BottomLine(w), '\n') == h + 1
  {
    var top, rows, bottom := TopLine(w), RowsText(w, h), BottomLine(w);
    RowsTextShape(w, h);
    RepeatHasNoNewline('─', w);
    FramedHasNoNewline('┌', Repeat('─', w), '┐');
    FramedHasNoNewline('└', Repeat('─', w), '┘');
    OccurrencesSingleton('\n', '\n');
    OccurrencesAppend(top, "\n", '\n');
    OccurrencesAppend(top + "\n", rows, '\n');
    OccurrencesAppend(top + "\n" + rows, bottom, '\n');
  }

  /** The newline after row `j` of the rows text. */
  lemma {:induction false} RowsTextNewlineAt(w: nat, y: nat, j: nat)
    requires j < y
    ensures LineEnd(w, j) < |RowsText(w, y)| && RowsText(w, y)[LineEnd(w, j)] == '\n'
  {
    var prev := RowsText(w, y - 1);
    var line := RowLine(w, y - 1) + "\n";
    assert RowsText(w, y) == prev + line;
    assert |line| == w + 3;
    if j == y - 1 {
      RowsTextShape(w, y - 1);
      assert LineEnd(w, j) == |prev| + (w + 2);
      assert line[w + 2] == '\n';
    } else {
      RowsTextNewlineAt(w, y - 1, j);
    }
  }

  lemma AsciiFrameLineEnds(w: nat, h: nat)
    ensures var art := TopLine(w) + "\n" + RowsText(w, h) + BottomLine(w);
      forall k :: 0 <= k <= h ==> LineEnd(w, k) < |art| && art[LineEnd(w, k)] == '\n'
  {
    var top, rows, bottom := TopLine(w), RowsText(w, h), BottomLine(w);
    var art := top + "\n" + rows + bottom;
    AsciiFrameLength(w, h);
    RowsTextShape(w, h);
    assert |top| == w + 2;
    forall k | 0 <= k <= h
      ensures LineEnd(w, k) < |art| && art[LineEnd(w, k)] == '\n'
    {
      if k == 0 {
        assert art[w + 2] == '\n';
      } else {
        RowsTextNewlineAt(w, h, k - 1);
        assert LineEnd(w, k) == (w + 3) + LineEnd(w, k - 1);
        assert art[LineEnd(w, k)] == rows[LineEnd(w, k - 1)];
      }
    }
  }
}
