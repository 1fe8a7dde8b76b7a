// An 8-bit PNG image through filters, compressor, inflater and back.
module PngRoundTrip {
  import opened Words
  import opened Sequences
  import opened PngFilter
  import opened PngLines
  import opened PngImage
  import opened RoundTrip

  // The image data of a PNG file decodes to the rows that were written, in the order they were written,
  // whichever filters and matches were chosen.
  method WriteThenRead(hash: (byte, byte, byte) -> nat, pixels: seq<byte>, stride: nat, width: nat, height: nat, n: nat,
                       forceFilter: int, flip: bool, quality: int, capacity: nat)
    returns (ok: bool, out: array<byte>)
    requires Image(pixels, stride, width, height, n) && (width * n + 1) * height <= INT_MAX
    requires 0 < capacity <= UINT_MAX
    ensures ok && out[..] == Concat(AllLines(pixels, stride, width * n, height, flip))
  {
    hide EncodeLines, DecodeLines, AllLines, Zeros, Concat;
    var filt, raw;
    ghost var filters;
    var w: nat := width * n;
    ghost var rows := AllLines(pixels, stride, w, height, flip);
    filt, filters := WriteLines(pixels, stride, width, height, n, forceFilter, flip);
    Sized(height, w);
    var r;
    r, raw := CompressThenInflate(hash, filt[..], quality, capacity, true);
    ok, out := CreateImage(raw, n, width, height);
  }

  lemma Sized(height: nat, w: nat)
    requires height > 0
    ensures height * (w + 1) == (w + 1) * height > 0
  {
    MulMono(1, height, w + 1);
  }
}
