/** Raw frame buffers and pixels (main.go:80-92, 700-710, 884-894): ffmpeg
    writes each frame as `width * height * 3` interleaved RGB bytes, which
    the decoder reads into a buffer and turns into an opaque RGBA image. */
module Pixels {
  import opened Base

  datatype RGBA = RGBA(r: byte, g: byte, b: byte, a: byte)

  /** An image as its rows, top to bottom; row y holds the pixels x = 0, 1, ... */
  type Image = seq<seq<RGBA>>

  /** The zero pixel a fresh Go RGBA image is filled with. */
  const Transparent := RGBA(0, 0, 0, 0)

  /** Every row of the image holds `width` pixels and there are `height` rows. */
  predicate HasSize(img: Image, width: nat, height: nat)
  {
    |img| == height && forall y :: 0 <= y < height ==> |img[y]| == width
  }

  /** First byte of pixel (x, y) in the raw buffer (main.go:84). */
  function Offset(width: nat, x: nat, y: nat): nat
  {
    ((y * width) + x) * 3
  }

  /** A pixel inside the image has its three bytes inside the buffer. */
  lemma OffsetInRange(width: nat, height: nat, x: nat, y: nat)
    requires x < width && y < height
    ensures Offset(width, x, y) + 3 <= width * height * 3
  {
    MulMonotone(y + 1, height, width);
    assert (y + 1) * width == y * width + width;
    assert y * width + x + 1 <= width * height;
    MulMonotone(y * width + x + 1, width * height, 3);
  }

  /** The opaque pixel made of the three bytes at its offset. */
  function PixelAt(rawData: seq<byte>, width: nat, height: nat, x: nat, y: nat): RGBA
    requires |rawData| == width * height * 3
    requires x < width && y < height
  {
    OffsetInRange(width, height, x, y);
    var offset := Offset(width, x, y);
    RGBA(rawData[offset], rawData[offset + 1], rawData[offset + 2], 255)
  }

  /** The image a raw buffer stands for. */
  function ToImage(rawData: seq<byte>, width: nat, height: nat): (img: Image)
    requires |rawData| == width * height * 3
    ensures HasSize(img, width, height)
  {
    seq(height, y requires 0 <= y < height =>
      seq(width, x requires 0 <= x < width => PixelAt(rawData, width, height, x, y)))
  }

  /** `RawDataToImage` (main.go:80-92): a fresh image, then every pixel set
      row by row from its three bytes, fully opaque. */
  method RawDataToImage(rawData: seq<byte>, width: nat, height: nat) returns (img: Image)
    requires |rawData| == width * height * 3
    ensures img == ToImage(rawData, width, height)
  {
    img := seq(height, _ => seq(width, _ => Transparent));
    for y := 0 to height
      invariant HasSize(img, width, height)
      invariant forall j, i :: 0 <= j < y && 0 <= i < width ==> img[j][i] == PixelAt(rawData, width, height, i, j)
    {
      for x := 0 to width
        invariant HasSize(img, width, height)
        invariant forall j, i :: 0 <= j < y && 0 <= i < width ==> img[j][i] == PixelAt(rawData, width, height, i, j)
        invariant forall i :: 0 <= i < x ==> img[y][i] == PixelAt(rawData, width, height, i, y)
      {
        OffsetInRange(width, height, x, y);
        var offset := ((y * width) + x) * 3;
        var r := rawData[offset];
        var g := rawData[offset + 1];
        var b := rawData[offset + 2];
        img := img[y := img[y][x := RGBA(r, g, b, 255)]];
      }
    }
    assert forall y :: 0 <= y < height ==> img[y] == ToImage(rawData, width, height)[y];
  }

  /** Colour channel c (0 red, 1 green, 2 blue) of a pixel. */
  function Channel(p: RGBA, c: nat): byte
    requires c < 3
  {
    if c == 0 then p.r else if c == 1 then p.g else p.b
  }

  /** Buffer position k lies in pixel k / 3 of the row-major order, which is
      pixel ((k / 3) % width, (k / 3) / width). */
  lemma PixelOfPosition(width: nat, height: nat, k: nat)
    requires k < width * height * 3
    ensures width > 0 && (k / 3) / width < height
    ensures Offset(width, (k / 3) % width, (k / 3) / width) + k % 3 == k
  {
    var p := k / 3;
    assert k == 3 * p + k % 3;
    assert width > 0;
    var x, y := p % width, p / width;
    assert p == y * width + x;
    assert p < width * height;
    if y >= height {
      MulMonotone(height, y, width);
      assert false;
    }
  }

  /** Nothing is lost: every byte of the buffer is a channel of the image
      it stands for, so the image determines the buffer. */
  lemma ToImageLossless(rawData: seq<byte>, width: nat, height: nat, k: nat)
    requires |rawData| == width * height * 3
    requires k < |rawData|
    ensures width > 0 && (k / 3) / width < height
    ensures rawData[k] == Channel(ToImage(rawData, width, height)[(k / 3) / width][(k / 3) % width], k % 3)
  {
    PixelOfPosition(width, height, k);
  }

  /** Different buffers of one size give different images. */
  lemma ToImageInjective(raw1: seq<byte>, raw2: seq<byte>, width: nat, height: nat)
    requires |raw1| == width * height * 3 && |raw2| == width * height * 3
    requires ToImage(raw1, width, height) == ToImage(raw2, width, height)
    ensures raw1 == raw2
  {
    forall k | 0 <= k < |raw1| ensures raw1[k] == raw2[k] {
      ToImageLossless(raw1, width, height, k);
      ToImageLossless(raw2, width, height, k);
    }
  }

  /** The buffer-filling read loop (main.go:700-710, 884-894): repeated reads
      from the ffmpeg pipe, each delivering at least one byte and at most
      what is left of the buffer; a read at the end of the stream fails and
      sets `exitFlag`. `stream[pos..]` is what the pipe has not delivered. */
  method FillBuffer(rawData: array<byte>, stream: seq<byte>, pos: nat) returns (next: nat, exitFlag: bool)
    requires pos <= |stream|
    modifies rawData
    ensures exitFlag <==> pos + rawData.Length > |stream|
    ensures exitFlag ==> next == |stream| && rawData[..|stream| - pos] == stream[pos..]
    ensures !exitFlag ==> next == pos + rawData.Length && rawData[..] == stream[pos..next]
  {
    var readBytes := 0;
    exitFlag := false;
    while readBytes < rawData.Length
      invariant readBytes <= rawData.Length && pos + readBytes <= |stream|
      invariant rawData[..readBytes] == stream[pos..pos + readBytes]
      decreases rawData.Length - readBytes
    {
      if pos + readBytes == |stream| {
        exitFlag := true;
        break;
      }
      var n :| 0 < n <= rawData.Length - readBytes && pos + readBytes + n <= |stream|;
      for k := 0 to n
        invariant rawData[..readBytes + k] == stream[pos..pos + readBytes + k]
      {
        rawData[readBytes + k] := stream[pos + readBytes + k];
        assert rawData[..readBytes + k + 1] == rawData[..readBytes + k] + [rawData[readBytes + k]];
      }
      readBytes := readBytes + n;
    }
    next := pos + readBytes;
    if !exitFlag {
      assert rawData[..] == rawData[..readBytes];
    }
  }
}
