// What the compressor writes, the decoder reads back.
module RoundTrip {
  import opened Words
  import opened BitStream
  import opened DeflateFormat
  import opened Inflate
  import opened ZlibFormat
  import opened ReadableStream
  import opened ZlibDecode
  import opened Compress
  import opened Adler

  lemma {:induction false} BlocksDetermined(before: seq<byte>, bs: seq<Block>, a: seq<byte>, b: seq<byte>)
    requires StandardBlocks(bs) && BlocksExpand(before, bs, a) && BlocksExpand(before, bs, b)
    ensures a == b
    decreases |bs|
  {
    hide Expands, Produced;
    if bs != [] {
      var init, last := bs[..|bs| - 1], bs[|bs| - 1];
      var n := BlockProduced(last);
      BlocksDetermined(before, init, a[..|a| - n], b[..|b| - n]);
      if !last.Stored? { ExpandsDetermined(a[..|a| - n], last.toks, a, b); }
    }
  }

  // The six bytes written for the empty string are no zlib stream: behind the header the checksum is
  // taken for a stored block whose length does not match its complement.
  lemma EmptyIsNoStream(bs: seq<Block>)
    ensures !StreamAt([0x78, 0x5e, 0, 0, 0, 1], 16, bs)
  {
    if StreamAt([0x78, 0x5e, 0, 0, 0, 1], 16, bs) {
      StreamPrefix([0x78, 0x5e, 0, 0, 0, 1], 16, bs, 0);
      assert bs[..0] == [];
      NoFirstBlock(bs[0], |bs| == 1);
    }
  }

  lemma NoFirstBlock(b: Block, final: bool)
    ensures !BlockAt([0x78, 0x5e, 0, 0, 0, 1], 16, final, b) && Window([0x78, 0x5e, 0, 0, 0, 1], 17, 2) == 0
  {
    HeaderBits([0x78, 0x5e, 0, 0, 0, 1], 2, false);
  }

  // Nor does decoding them go on forever.
  lemma EmptyEnds(limit: nat, bs: seq<Block>, b: Block)
    ensures !StreamSticks([0x78, 0x5e, 0, 0, 0, 1], limit, bs, b)
  {
    hide ZlibHeader, BodySticks, Window, BlockReadable;
    if StreamSticks([0x78, 0x5e, 0, 0, 0, 1], limit, bs, b) {
      BlocksAreThere([0x78, 0x5e, 0, 0, 0, 1], 16, limit, bs);
      if bs == [] {
        NoFirstBlock(Stored([]), false);
      } else {
        BlocksPrefix([0x78, 0x5e, 0, 0, 0, 1], 16, bs, 0);
        assert bs[..0] == [];
        NoFirstBlock(bs[0], false);
      }
    }
  }

  // What the compressor writes can be read into any buffer that can hold the data.
  lemma EncodedIsReadable(packed: seq<byte>, bs: seq<Block>, data: seq<byte>, capacity: nat, expandable: bool)
    requires data != [] && Encodes(packed, bs, data) && |data| <= INT_MAX
    requires if expandable then capacity > 0 else capacity >= |data|
    ensures StreamReadable(packed, Room(capacity, expandable), bs)
  {
    hide Inflates, StreamReadable, Trailer, StandardBlocks, BlocksEnd;
    ChecksumIsEnough(packed, Room(capacity, expandable), bs, data);
  }

  // Compressing and inflating gives the data back, for every hash function, quality, and output
  // buffer that can hold it; the empty string is the only one that does not survive.
  method CompressThenInflate(hash: (byte, byte, byte) -> nat, data: seq<byte>, quality: int, capacity: nat, expandable: bool)
    returns (r: Verdict, output: seq<byte>)
    requires |data| <= INT_MAX && capacity <= UINT_MAX
    requires if expandable then capacity > 0 else capacity >= |data|
    ensures r == if data == [] then Rejected else Accepted
    ensures r == Accepted ==> output == data
  {
    hide StreamAt, BlocksExpand, ZlibHeader, Trailer, StreamReadable, StreamSticks, Room, BlocksEnd;
    var packed;
    ghost var bs, bs', b;
    ghost var toks, starts;
    packed, bs, toks, starts := ZlibCompress(hash, data, quality);
    if data != [] { EncodedIsReadable(packed, bs, data, capacity, expandable); }
    r, output, bs', b := DoZlib(packed, capacity, expandable);
    if data != [] {
      StreamUnique(packed, 16, bs, bs');
      BlocksDetermined([], bs, output, data);
    } else {
      EmptyIsNoStream(bs');
      EmptyEnds(Room(capacity, expandable), bs', b);
    }
  }
}
