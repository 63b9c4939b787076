/**
 * Turning a device-independent bitmap from the clipboard into the bytes of
 * a .bmp file: a synthesized 14-byte file header followed by the DIB.
 */
module DIBitmap {
  import opened Wrappers
  import opened Encodings
  import opened NetUtils

  /** Size of the packed BITMAPFILEHEADER. */
  const FileHeaderSize := 14
  /** Size of the BITMAPINFOHEADER read from the front of the DIB. */
  const InfoHeaderSize := 40
  /** "BM" read as a little-endian 16-bit value. */
  const BM := 0x4D42

  /** A little-endian `int` field at `off`, as marshalling reads it. */
  function ReadInt32LE(b: seq<byte>, off: nat): Int32
    requires off + 4 <= |b|
  {
    Signed(Horner(b[off + 3], b[off + 2], b[off + 1], b[off]))
  }

  /** An `int` field as marshalling writes it: least significant byte first. */
  function Int32LE(v: Int32): (r: seq<byte>)
    ensures |r| == 4
  {
    var be := BytesOf(Unsigned(v));
    [be[3], be[2], be[1], be[0]]
  }

  /** A `short` field as marshalling writes it. */
  function Int16LE(v: nat): (r: seq<byte>)
    requires v < 0x1_0000
    ensures |r| == 2
  {
    [v % 0x100, v / 0x100]
  }

  /** Reading back a written `int` field gives the value. */
  lemma ReadInt32LEOfWrite(v: Int32, prefix: seq<byte>, suffix: seq<byte>)
    ensures ReadInt32LE(prefix + Int32LE(v) + suffix, |prefix|) == v
  {
    var b := prefix + Int32LE(v) + suffix;
    var off := |prefix|;
    var be := BytesOf(Unsigned(v));
    assert b[off] == be[3] && b[off + 1] == be[2] && b[off + 2] == be[1] && b[off + 3] == be[0];
    BytesOfValue(Unsigned(v));
  }

  /** The fields of BITMAPINFOHEADER that the file header is computed from. */
  datatype InfoHeader = InfoHeader(biSize: Int32, biSizeImage: Int32, biClrUsed: Int32)

  /**
   * Marshals the first 40 bytes of the DIB into a BITMAPINFOHEADER. Copying
   * 40 bytes out of a shorter array fails with ArgumentOutOfRangeException.
   */
  function ReadInfoHeader(dib: seq<byte>): (r: Result<InfoHeader>)
    ensures r.Err? <==> |dib| < InfoHeaderSize
    ensures r.Err? ==> r.error == ArgumentOutOfRange
  {
    if |dib| < InfoHeaderSize then Err(ArgumentOutOfRange)
    else Ok(InfoHeader(ReadInt32LE(dib, 0), ReadInt32LE(dib, 20), ReadInt32LE(dib, 32)))
  }

  datatype FileHeader = FileHeader(bfType: nat, bfSize: Int32, bfReserved1: nat, bfReserved2: nat, bfOffBits: Int32)

  /**
   * The file header for a DIB: the file size is the file header, the info
   * header and the pixel data; the pixels start after the file header, the
   * info header and the colour table. The sums wrap like C# `int`.
   */
  function MakeFileHeader(info: InfoHeader): FileHeader
  {
    FileHeader(BM, Wrap32(FileHeaderSize + info.biSize + info.biSizeImage), 0, 0,
               Wrap32(FileHeaderSize + info.biSize + info.biClrUsed * 4))
  }

  /** The packed (Pack = 2) byte layout of BITMAPFILEHEADER. */
  function FileHeaderBytes(h: FileHeader): (r: seq<byte>)
    requires h.bfType < 0x1_0000 && h.bfReserved1 < 0x1_0000 && h.bfReserved2 < 0x1_0000
    ensures |r| == FileHeaderSize
  {
    Int16LE(h.bfType) + Int32LE(h.bfSize) + Int16LE(h.bfReserved1) + Int16LE(h.bfReserved2) + Int32LE(h.bfOffBits)
  }

  /**
   * CreateBitmapFrameFromDibBytes up to the decoder: the stream handed to
   * BitmapFrame.Create. It is rejected when the DIB is shorter than its
   * info header; otherwise it is "BM", the file size, two zero reserved
   * fields and the pixel offset, as a .bmp reader reads them back from the
   * bytes, followed by the whole DIB unchanged.
   */
  function BitmapFileBytes(dib: seq<byte>): (r: Result<seq<byte>>)
    ensures r.Err? <==> |dib| < InfoHeaderSize
    ensures r.Err? ==> r.error == ArgumentOutOfRange
    ensures r.Ok? ==>
      var f := r.value;
      var biSize := ReadInt32LE(dib, 0);
      && |f| == FileHeaderSize + |dib|
      && f[FileHeaderSize..] == dib
      && f[0] == 'B' as int && f[1] == 'M' as int
      && ReadInt32LE(f, 2) == Wrap32(FileHeaderSize + biSize + ReadInt32LE(dib, 20))
      && f[6..10] == [0, 0, 0, 0]
      && ReadInt32LE(f, 10) == Wrap32(FileHeaderSize + biSize + 4 * ReadInt32LE(dib, 32))
  {
    match ReadInfoHeader(dib)
    case Err(e) => Err(e)
    case Ok(info) =>
      FileHeaderFields(MakeFileHeader(info), dib);
      Ok(FileHeaderBytes(MakeFileHeader(info)) + dib)
  }

  /** Reading the fields of a written file header back from the front of the file. */
  lemma FileHeaderFields(h: FileHeader, rest: seq<byte>)
    requires h.bfType == BM && h.bfReserved1 == 0 && h.bfReserved2 == 0
    ensures var f := FileHeaderBytes(h) + rest;
            && f[0] == 'B' as int && f[1] == 'M' as int && f[6..10] == [0, 0, 0, 0]
            && ReadInt32LE(f, 2) == h.bfSize && ReadInt32LE(f, 10) == h.bfOffBits
            && f[FileHeaderSize..] == rest
  {
    var size := Int32LE(h.bfSize);
    var offBits := Int32LE(h.bfOffBits);
    var f := FileHeaderBytes(h) + rest;
    assert Int16LE(BM) == [0x42, 0x4D];
    assert f == [0x42, 0x4D] + size + [0, 0, 0, 0] + offBits + rest;
    ReadInt32LEOfWrite(h.bfSize, [0x42, 0x4D], [0, 0, 0, 0] + offBits + rest);
    assert f == [0x42, 0x4D] + size + ([0, 0, 0, 0] + offBits + rest);
    ReadInt32LEOfWrite(h.bfOffBits, [0x42, 0x4D] + size + [0, 0, 0, 0], rest);
    assert f == ([0x42, 0x4D] + size + [0, 0, 0, 0]) + offBits + rest;
  }
}
