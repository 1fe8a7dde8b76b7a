// Loading TGA images with run-length packets, and the round trip.
module TgaLoad {
  import opened Words
  import opened ImageSource
  import opened TgaRle
  import opened TgaWrite

  datatype TgaResult = Loaded(width: nat, height: nat, comp: nat, pixels: seq<Pixel>) | BadFormat | TooLarge | NotModelled

  // ---------- the packets ----------

  method ReadPixel(s: Source, comp: nat) returns (px: Pixel)
    modifies s
    ensures px == Taken(s.bytes, old(s.pos), comp) && s.pos == Advance(s.bytes, old(s.pos), comp)
  {
    px := [];
    ghost var start := s.pos;
    for j := 0 to comp
      invariant px == Taken(s.bytes, start, j) && s.pos == Advance(s.bytes, start, j)
    {
      var b := s.Get();
      assert Taken(s.bytes, start, j + 1) == Taken(s.bytes, start, j) + [Get8(s.bytes, start + j)];
      px := px + [b];
    }
  }

  datatype RunState = RunState(count: nat, repeating: bool, readNext: bool, raw: Pixel)

  // The next pixel, with a command byte before it where a packet begins.
  method NextPixel(s: Source, st: RunState, comp: nat, ghost n: nat, ghost done: seq<Pixel>) returns (now: RunState)
    requires n > 0 && (st.repeating && st.count > 0 ==> !st.readNext)
    modifies s
    ensures now.repeating && now.count > 0 ==> !now.readNext
    ensures done + Load(s.bytes, old(s.pos), st.count, st.repeating, st.raw, n, comp)
      == done + [now.raw] + Load(s.bytes, s.pos, now.count, now.repeating, now.raw, n - 1, comp)
  {
    hide Load, Taken, Advance;
    LoadStep(s.bytes, s.pos, st.count, st.repeating, st.raw, n, comp, done);
    var count, repeating, readNext, raw := st.count, st.repeating, st.readNext, st.raw;
    if count == 0 {
      var cmd: nat := s.Get();
      count := 1 + cmd % 128;
      repeating := cmd >= 128;
      readNext := true;
    } else if !repeating {
      readNext := true;
    }
    if readNext {
      raw := ReadPixel(s, comp);
      readNext := false;
    }
    now := RunState(count - 1, repeating, readNext, raw);
  }

  method LoadPixels(s: Source, n: nat, comp: nat) returns (data: array<Pixel>)
    modifies s
    ensures fresh(data) && data[..] == Load(s.bytes, old(s.pos), 0, false, [], n, comp)
  {
    hide Load;
    ghost var whole := Load(s.bytes, s.pos, 0, false, [], n, comp);
    data := new Pixel[n](i => []);
    var st := RunState(0, false, true, []);
    ghost var done: seq<Pixel> := [];
    var i := 0;
    while i < n
      invariant i <= n && (st.repeating && st.count > 0 ==> !st.readNext)
      invariant done == data[..i] && whole == done + Load(s.bytes, s.pos, st.count, st.repeating, st.raw, n - i, comp)
      modifies s, data
    {
      st := NextPixel(s, st, comp, n - i, done);
      data[i] := st.raw;
      done := done + [st.raw];
      i := i + 1;
    }
    LoadEnd(s.bytes, s.pos, st.count, st.repeating, st.raw, comp);
    assert data[..n] == data[..];
  }

  lemma LoadEnd(input: seq<byte>, pos: nat, count: nat, repeating: bool, px: Pixel, comp: nat)
    ensures Load(input, pos, count, repeating, px, 0, comp) == []
  {}

  lemma LoadStep(input: seq<byte>, pos: nat, count: nat, repeating: bool, px: Pixel, n: nat, comp: nat, done: seq<Pixel>)
    requires n > 0
    ensures
      var start := count == 0;
      var p := if start then Advance(input, pos, 1) else pos;
      var c := if start then Get8(input, pos) % 128 else count - 1;
      var rep := if start then Get8(input, pos) >= 128 else repeating;
      var due := start || !rep;
      var now := if due then Taken(input, p, comp) else px;
      done + Load(input, pos, count, repeating, px, n, comp)
        == done + [now] + Load(input, if due then Advance(input, p, comp) else p, c, rep, now, n - 1, comp)
  {}

  // ---------- the orientation ----------

  // Row r of rows of w pixels.
  ghost predicate SameRow(s: seq<Pixel>, r: int, t: seq<Pixel>, q: int, w: nat, h: nat)
    requires |s| == |t| == w * h && 0 <= r < h && 0 <= q < h
  {
    RowInside(w, h, r);
    RowInside(w, h, q);
    Row(s, w, r) == Row(t, w, q)
  }

  // Exchanges the w pixels at a with those at b.
  method SwapRows(data: array<Pixel>, a: nat, b: nat, w: nat)
    requires a == b || a + w <= b
    requires b + w <= data.Length
    modifies data
    ensures Exchanged(data[..], old(data[..]), a, b, w)
  {
    ghost var was := data[..];
    var i := 0;
    while i < w
      invariant i <= w
      invariant forall k :: a <= k < a + i ==> data[k] == was[k - a + b]
      invariant forall k :: b <= k < b + i ==> data[k] == was[k - b + a]
      invariant forall k :: 0 <= k < data.Length && !(a <= k < a + i) && !(b <= k < b + i) ==> data[k] == was[k]
    {
      data[a + i], data[b + i] := data[b + i], data[a + i];
      i := i + 1;
    }
  }

  ghost predicate Exchanged(now: seq<Pixel>, was: seq<Pixel>, a: nat, b: nat, w: nat) {
    && |now| == |was| && a + w <= |was| && b + w <= |was|
    && now[a..a + w] == was[b..b + w] && now[b..b + w] == was[a..a + w]
    && (forall k :: 0 <= k < |now| && !(a <= k < a + w) && !(b <= k < b + w) ==> now[k] == was[k])
  }

  lemma RowsApart(w: nat, r: nat, q: nat)
    requires r < q
    ensures r * w + w <= q * w
  {
    MulMono(r + 1, q, w);
  }

  // Where row r comes from when the first j pairs of rows have been exchanged.
  function Origin(r: nat, h: nat, j: nat): (q: nat)
    requires r < h
    ensures q < h
  {
    if r < j || r >= h - j then h - 1 - r else r
  }

  lemma ExchangedRow(now: seq<Pixel>, was: seq<Pixel>, w: nat, h: nat, j: nat, r: nat)
    requires j * 2 < h && r < h && |was| == w * h && Exchanged(now, was, j * w, (h - 1 - j) * w, w)
    ensures SameRow(now, r, was, if r == j || r == h - 1 - j then h - 1 - r else r, w, h)
  {
    var a, b := j, h - 1 - j;
    RowInside(w, h, r);
    RowInside(w, h, a);
    RowInside(w, h, b);
    RowBounds(w, r);
    if r < a { RowsApart(w, r, a); }
    if a < r { RowsApart(w, a, r); }
    if r < b { RowsApart(w, r, b); }
    if b < r { RowsApart(w, b, r); }
    if r != a && r != b {
      var z := r * w;
      assert now[z..z + w] == was[z..z + w];
    }
  }

  // The first j pairs of rows from both ends have been exchanged.
  ghost predicate PartlyFlipped(now: seq<Pixel>, was: seq<Pixel>, w: nat, h: nat, j: nat) {
    && |now| == |was| == w * h
    && forall r: nat :: r < h ==> SameRow(now, r, was, Origin(r, h, j), w, h)
  }

  lemma FlipMore(now: seq<Pixel>, mid: seq<Pixel>, was: seq<Pixel>, w: nat, h: nat, j: nat)
    requires j * 2 < h && PartlyFlipped(mid, was, w, h, j) && Exchanged(now, mid, j * w, (h - 1 - j) * w, w)
    ensures PartlyFlipped(now, was, w, h, j + 1)
  {
    var j' := j + 1;
    forall r: nat | r < h ensures SameRow(now, r, was, Origin(r, h, j'), w, h) {
      ExchangedRow(now, mid, w, h, j, r);
      var q := if r == j || r == h - 1 - j then h - 1 - r else r;
      assert SameRow(mid, q, was, Origin(q, h, j), w, h);
    }
  }

  // Puts the rows in the opposite order.
  method InvertRows(data: array<Pixel>, w: nat, h: nat)
    requires data.Length == w * h
    modifies data
    ensures PartlyFlipped(data[..], old(data[..]), w, h, h)
  {
    hide SameRow, Exchanged, Origin;
    ghost var was := data[..];
    NotFlipped(was, w, h);
    var j := 0;
    while j * 2 < h
      invariant j * 2 <= h + 1 && PartlyFlipped(data[..], was, w, h, j)
    {
      ghost var mid := data[..];
      RowPlaces(w, h, j);
      SwapRows(data, j * w, (h - 1 - j) * w, w);
      FlipMore(data[..], mid, was, w, h, j);
      j := j + 1;
    }
    AllFlipped(data[..], was, w, h, j);
  }

  lemma RowPlaces(w: nat, h: nat, j: nat)
    requires j * 2 < h
    ensures j * w == (h - 1 - j) * w || j * w + w <= (h - 1 - j) * w
    ensures (h - 1 - j) * w + w <= w * h
  {
    if j < h - 1 - j { RowsApart(w, j, h - 1 - j); }
    RowInside(w, h, h - 1 - j);
  }

  lemma NotFlipped(was: seq<Pixel>, w: nat, h: nat)
    requires |was| == w * h
    ensures PartlyFlipped(was, was, w, h, 0)
  {
    forall r: nat | r < h ensures SameRow(was, r, was, Origin(r, h, 0), w, h) {
      RowInside(w, h, r);
    }
  }

  lemma AllFlipped(now: seq<Pixel>, was: seq<Pixel>, w: nat, h: nat, j: nat)
    requires h <= j * 2 <= h + 1 && PartlyFlipped(now, was, w, h, j)
    ensures PartlyFlipped(now, was, w, h, h)
  {
    hide SameRow;
    forall r: nat | r < h ensures SameRow(now, r, was, Origin(r, h, h), w, h) {
      assert Origin(r, h, j) == h - 1 - r;
    }
  }

  // ---------- the colours ----------

  // Red and blue exchanged, for pixels that have them.
  function Swapped(px: Pixel): (r: Pixel)
    ensures |r| == |px|
  {
    if |px| >= 3 then px[0 := px[2]][2 := px[0]] else px
  }

  lemma SwappedBack(d: Pixel)
    requires 1 <= |d| <= 4
    ensures Swapped(FileBytes(d)) == d
  {}

  method SwapColors(data: array<Pixel>, comp: nat)
    requires AllSized(data[..], comp)
    modifies data
    ensures forall i :: 0 <= i < data.Length ==> data[i] == Swapped(old(data[i]))
  {
    if comp >= 3 {
      var i := 0;
      while i < data.Length
        invariant i <= data.Length
        invariant forall k :: 0 <= k < i ==> data[k] == Swapped(old(data[k]))
        invariant forall k :: i <= k < data.Length ==> data[k] == old(data[k])
      {
        assert |data[i]| == comp by { assert data[i] == old(data[..])[i]; }
        var px := data[i];
        data[i] := px[0 := px[2]][2 := px[0]];
        i := i + 1;
      }
    } else {
      assert forall i :: 0 <= i < data.Length ==> |data[..][i]| == comp;
    }
  }

  lemma {:induction false} LoadSized(input: seq<byte>, pos: nat, count: nat, repeating: bool, px: Pixel, n: nat, comp: nat)
    requires count > 0 && repeating ==> |px| == comp
    ensures AllSized(Load(input, pos, count, repeating, px, n, comp), comp)
    decreases n
  {
    if n > 0 {
      if count == 0 {
        var p := Advance(input, pos, 1);
        LoadSized(input, Advance(input, p, comp), Get8(input, pos) % 128, Get8(input, pos) >= 128, Taken(input, p, comp), n - 1, comp);
      } else if !repeating {
        LoadSized(input, Advance(input, pos, comp), count - 1, false, Taken(input, pos, comp), n - 1, comp);
      } else {
        LoadSized(input, pos, count - 1, true, px, n - 1, comp);
      }
    }
  }

  // ---------- the image ----------

  datatype TgaHeader = TgaHeader(offset: nat, indexed: bool, imageType: nat, paletteBits: nat, width: nat, height: nat, bits: nat, descriptor: nat)

  function Word16(lo: nat, hi: nat): nat { lo + 256 * hi }

  function Get16(input: seq<byte>, pos: nat): nat { Word16(Get8(input, pos), Get8(input, pos + 1)) }

  function HeaderAt(input: seq<byte>, pos: nat): TgaHeader {
    TgaHeader(Get8(input, pos), Get8(input, pos + 1) != 0, Get8(input, pos + 2), Get8(input, pos + 7),
      Get16(input, pos + 12), Get16(input, pos + 14), Get8(input, pos + 16), Get8(input, pos + 17))
  }

  // Components of a pixel, and whether it is packed into 15 or 16 bits.
  function GetComp(bits: nat, grey: bool): (nat, bool) {
    if bits == 8 then (1, false)
    else if bits == 16 && grey then (2, false)
    else if bits == 16 || bits == 15 then (3, true)
    else if bits == 24 || bits == 32 then (bits / 8, false)
    else (0, false)
  }

  function CompOf(h: TgaHeader): (nat, bool) {
    var kind: int := if h.imageType >= 8 then h.imageType - 8 else h.imageType;
    if h.indexed then GetComp(h.paletteBits, false) else GetComp(h.bits, kind == 3)
  }

  predicate Inverted(h: TgaHeader) { h.descriptor / 32 % 2 == 0 }

  // The row of the file that row r of the image comes from.
  function FromRow(r: nat, h: nat, inverted: bool): (q: nat)
    requires r < h
    ensures q < h
  {
    if inverted then h - 1 - r else r
  }

  ghost predicate SwappedRow(s: seq<Pixel>, r: nat, t: seq<Pixel>, q: nat, w: nat, h: nat)
    requires |s| == |t| == w * h && r < h && q < h
  {
    RowInside(w, h, r);
    RowInside(w, h, q);
    forall i :: 0 <= i < w ==> Row(s, w, r)[i] == Swapped(Row(t, w, q)[i])
  }

  // The pixels are those of the packets, the rows put in order and the colours swapped.
  ghost predicate Oriented(pixels: seq<Pixel>, loaded: seq<Pixel>, w: nat, h: nat, inverted: bool) {
    && |pixels| == |loaded| == w * h
    && forall r: nat :: r < h ==> SwappedRow(pixels, r, loaded, FromRow(r, h, inverted), w, h)
  }

  lemma OrientedAll(pixels: seq<Pixel>, flipped: seq<Pixel>, loaded: seq<Pixel>, w: nat, h: nat, inverted: bool)
    requires |pixels| == |flipped| == |loaded| == w * h
    requires forall i :: 0 <= i < |pixels| ==> pixels[i] == Swapped(flipped[i])
    requires if inverted then PartlyFlipped(flipped, loaded, w, h, h) else flipped == loaded
    ensures Oriented(pixels, loaded, w, h, inverted)
  {
    forall r: nat | r < h ensures SwappedRow(pixels, r, loaded, FromRow(r, h, inverted), w, h) {
      var q := FromRow(r, h, inverted);
      RowInside(w, h, r);
      RowInside(w, h, q);
      RowBounds(w, r);
      if inverted { assert SameRow(flipped, r, loaded, Origin(r, h, h), w, h); }
      assert Row(flipped, w, r) == Row(loaded, w, q);
      forall i | 0 <= i < w ensures Row(pixels, w, r)[i] == Swapped(Row(loaded, w, q)[i]) {
        assert Row(pixels, w, r)[i] == pixels[r * w + i] && Row(flipped, w, r)[i] == flipped[r * w + i];
      }
    }
  }

  lemma IndexInRow(i: nat, w: nat, h: nat)
    requires i < w * h
    ensures w > 0 && i / w < h && i == i / w * w + i % w && i % w < w
  {
    if w == 0 { assert false; }
    if i / w >= h { MulMono(h, i / w, w); }
  }

  lemma FlippedSized(flipped: seq<Pixel>, loaded: seq<Pixel>, w: nat, h: nat, comp: nat)
    requires PartlyFlipped(flipped, loaded, w, h, h) && AllSized(loaded, comp)
    ensures AllSized(flipped, comp)
  {
    forall i | 0 <= i < |flipped| ensures |flipped[i]| == comp {
      IndexInRow(i, w, h);
      var r, k := i / w, i % w;
      var q := Origin(r, h, h);
      assert SameRow(flipped, r, loaded, q, w, h);
      RowInside(w, h, r);
      RowInside(w, h, q);
      RowBounds(w, q);
      assert flipped[i] == Row(flipped, w, r)[k] == Row(loaded, w, q)[k] == loaded[q * w + k];
    }
  }

  // What loading an image with this header gives when its packets begin at position at.
  ghost predicate IsLoaded(r: TgaResult, h: TgaHeader, input: seq<byte>, at: nat) {
    var (comp, rgb16) := CompOf(h);
    && (comp == 0 ==> r == BadFormat)
    && (comp > 0 && h.width * h.height * comp > INT_MAX ==> r == TooLarge)
    && (comp > 0 && h.width * h.height * comp <= INT_MAX ==>
      if h.indexed || h.imageType < 8 || rgb16 then r == NotModelled
      else
        && r.Loaded? && r.width == h.width && r.height == h.height && r.comp == comp
        && Oriented(r.pixels, Load(input, at, 0, false, [], h.width * h.height, comp), h.width, h.height, Inverted(h)))
  }

  // ---------- by the bytes of the header ----------

  // How pixels are stored: in whole bytes, or packed into 15 or 16 bits.
  lemma ComponentsAre(bits: nat, grey: bool)
    ensures var (comp, packed) := GetComp(bits, grey);
      && (comp > 0 <==> bits in {8, 15, 16, 24, 32})
      && (packed <==> bits == 15 || (bits == 16 && !grey))
      && (comp > 0 && !packed ==> 8 * comp == bits)
      && (packed ==> comp == 3)
  {}

  // Palettes count by the bits of their entries; grey images are those of type 3 and 11.
  lemma ComponentsByBytes(input: seq<byte>, p: nat)
    ensures CompOf(HeaderAt(input, p)) ==
      if Get8(input, p + 1) > 0 then GetComp(Get8(input, p + 7), false)
      else GetComp(Get8(input, p + 16), Get8(input, p + 2) == 3 || Get8(input, p + 2) == 11)
  {}

  // Red and blue, which come first and third, have changed places.
  ghost predicate ColoursExchanged(px: Pixel, stored: Pixel) {
    && |px| == |stored|
    && (|px| < 3 ==> px == stored)
    && (|px| >= 3 ==> px[0] == stored[2] && px[1] == stored[1] && px[2] == stored[0] && px[3..] == stored[3..])
  }

  // Row r of the image is row q of the file.
  ghost predicate RowFromFile(pixels: seq<Pixel>, r: nat, file: seq<Pixel>, q: nat, w: nat) {
    && r * w + w <= |pixels| && q * w + w <= |file|
    && var row, stored := pixels[r * w..r * w + w], file[q * w..q * w + w];
       forall i :: 0 <= i < w ==> ColoursExchanged(row[i], stored[i])
  }

  // Width and height stand in bytes 12 to 15. The rows of the file are those of the image from the first
  // one on if bit 5 of byte 17 is set, and from the last one on if it is not.
  ghost predicate AsTheFileSays(r: TgaResult, input: seq<byte>, p: nat)
    requires r.Loaded?
  {
    var w0: nat, w1: nat, h0: nat, h1: nat := Get8(input, p + 12), Get8(input, p + 13), Get8(input, p + 14), Get8(input, p + 15);
    var file := Load(input, Advance(input, p, 18) + Get8(input, p), 0, false, [], r.width * r.height, r.comp);
    && r.width == w0 + 256 * w1 && r.height == h0 + 256 * h1
    && |r.pixels| == r.width * r.height
    && (Get8(input, p + 17) % 64 >= 32 ==> forall t: nat :: t < r.height ==> RowFromFile(r.pixels, t, file, t, r.width))
    && (Get8(input, p + 17) % 64 < 32 ==>
        forall t: nat, q: nat :: t + q == r.height - 1 ==> RowFromFile(r.pixels, t, file, q, r.width))
  }

  lemma SwappedRowIs(pixels: seq<Pixel>, r: nat, file: seq<Pixel>, q: nat, w: nat, h: nat)
    requires |pixels| == |file| == w * h && r < h && q < h && SwappedRow(pixels, r, file, q, w, h)
    ensures RowFromFile(pixels, r, file, q, w)
  {
    RowInside(w, h, r);
    RowInside(w, h, q);
    RowBounds(w, r);
    RowBounds(w, q);
    var row, stored := pixels[r * w..r * w + w], file[q * w..q * w + w];
    assert row == Row(pixels, w, r) && stored == Row(file, w, q);
    forall i | 0 <= i < w ensures ColoursExchanged(row[i], stored[i]) { SwappedIs(stored[i]); }
  }

  lemma SwappedIs(px: Pixel)
    ensures ColoursExchanged(Swapped(px), px)
  {}

  // Pixels are written blue first.
  lemma FileBytesAre(px: Pixel)
    requires 1 <= |px| <= 4
    ensures ColoursExchanged(FileBytes(px), px)
  {}

  lemma LoadedFromBytes(r: TgaResult, input: seq<byte>, p: nat)
    requires r.Loaded? && IsLoaded(r, HeaderAt(input, p), input, Advance(input, p, 18) + HeaderAt(input, p).offset)
    ensures AsTheFileSays(r, input, p)
  {
    hide CompOf, Load, Advance, SwappedRow, RowFromFile;
    var h := HeaderAt(input, p);
    var (comp, packed) := CompOf(h);
    var file := Load(input, Advance(input, p, 18) + h.offset, 0, false, [], h.width * h.height, comp);
    assert Oriented(r.pixels, file, h.width, h.height, Inverted(h));
    forall t: nat, q: nat | t < h.height && q == FromRow(t, h.height, Inverted(h))
      ensures RowFromFile(r.pixels, t, file, q, h.width)
    {
      SwappedRowIs(r.pixels, t, file, q, h.width, h.height);
    }
    FifthBit(h.descriptor);
  }

  lemma FifthBit(v: nat)
    ensures v / 32 % 2 == 0 <==> v % 64 < 32
  {}

  method ReadHeader(s: Source) returns (h: TgaHeader)
    modifies s
    ensures h == HeaderAt(s.bytes, old(s.pos)) && s.pos == Advance(s.bytes, old(s.pos), 18)
  {
    hide Get8;
    ghost var start := s.pos;
    var field: seq<byte> := [];
    for k := 0 to 18
      invariant field == Taken(s.bytes, start, k) && s.pos == Advance(s.bytes, start, k)
    {
      var b := s.Get();
      GetMoved(s.bytes, start, k);
      assert Taken(s.bytes, start, k + 1) == Taken(s.bytes, start, k) + [Get8(s.bytes, start + k)];
      field := field + [b];
    }
    h := TgaHeader(field[0], field[1] != 0, field[2], field[7],
      Word16(field[12], field[13]), Word16(field[14], field[15]), field[16], field[17]);
  }

  lemma GetMoved(input: seq<byte>, pos: nat, k: nat)
    ensures Get8(input, Advance(input, pos, k)) == Get8(input, pos + k)
    ensures Advance(input, Advance(input, pos, k), 1) == Advance(input, pos, k + 1)
  {}

  // Loads an image of which the packets are not palette indices or packed colours.
  method LoadTga(s: Source) returns (r: TgaResult)
    modifies s
    ensures var h := HeaderAt(s.bytes, old(s.pos));
      IsLoaded(r, h, s.bytes, Advance(s.bytes, old(s.pos), 18) + h.offset)
    ensures r.Loaded? ==> AsTheFileSays(r, s.bytes, old(s.pos))
  {
    hide Oriented, Load, HeaderAt, Advance, CompOf, Inverted, AllSized, PartlyFlipped, AsTheFileSays;
    var h := ReadHeader(s);
    var (comp, rgb16) := CompOf(h);
    if comp == 0 { return BadFormat; }
    if h.width * h.height * comp > INT_MAX { return TooLarge; }
    s.pos := s.pos + h.offset;
    if h.indexed || h.imageType < 8 || rgb16 { return NotModelled; }
    LoadSized(s.bytes, s.pos, 0, false, [], h.width * h.height, comp);
    var data := LoadPixels(s, h.width * h.height, comp);
    ghost var loaded := data[..];
    if Inverted(h) {
      InvertRows(data, h.width, h.height);
      FlippedSized(data[..], loaded, h.width, h.height, comp);
    }
    ghost var flipped := data[..];
    SwapColors(data, comp);
    OrientedAll(data[..], flipped, loaded, h.width, h.height, Inverted(h));
    r := Loaded(h.width, h.height, comp, data[..]);
    LoadedFromBytes(r, s.bytes, old(s.pos));
  }

  // ---------- the round trip ----------

  lemma {:induction false} FileRowsSize(data: seq<Pixel>, x: nat, y: nat, comp: nat, flip: bool, t: nat)
    requires t <= y && |data| == x * y && 1 <= comp <= 4 && AllSized(data, comp)
    ensures |FileRows(data, x, y, comp, flip, t)| == t * x
    decreases t
  {
    hide FilePixels, Row;
    if t > 0 {
      FileRowsSize(data, x, y, comp, flip, t - 1);
      RowInside(x, y, RowAt(t - 1, y, flip));
      Distribute(t - 1, 1, x);
    }
  }

  // The t-th row of the file.
  lemma {:induction false} FileRowIs(data: seq<Pixel>, x: nat, y: nat, comp: nat, flip: bool, n: nat, t: nat, j: nat)
    requires t < n <= y && |data| == x * y && 1 <= comp <= 4 && AllSized(data, comp)
    requires j == RowAt(t, y, flip) && (j + 1) * x <= |data| && AllSized(Row(data, x, j), comp)
    ensures (t + 1) * x <= |FileRows(data, x, y, comp, flip, n)|
    ensures Row(FileRows(data, x, y, comp, flip, n), x, t) == FilePixels(Row(data, x, j), comp)
    decreases n
  {
    hide FilePixels, RowAt, Row, FileRows, AllSized;
    FileRowsSize(data, x, y, comp, flip, n);
    FileRowsSize(data, x, y, comp, flip, n - 1);
    RowInside(x, y, RowAt(n - 1, y, flip));
    RowInside(x, n, t);
    FileRowsStep(data, x, y, comp, flip, n);
    var front := FileRows(data, x, y, comp, flip, n - 1);
    if t < n - 1 {
      FileRowIs(data, x, y, comp, flip, n - 1, t, j);
      RowOfFront(front, FilePixels(Row(data, x, RowAt(n - 1, y, flip)), comp), x, t);
    } else {
      RowOfBack(front, FilePixels(Row(data, x, RowAt(n - 1, y, flip)), comp), x, t);
    }
  }

  lemma FileRowsStep(data: seq<Pixel>, x: nat, y: nat, comp: nat, flip: bool, n: nat)
    requires 0 < n <= y && |data| == x * y && 1 <= comp <= 4 && AllSized(data, comp)
    requires (RowAt(n - 1, y, flip) + 1) * x <= |data|
    ensures AllSized(Row(data, x, RowAt(n - 1, y, flip)), comp)
    ensures FileRows(data, x, y, comp, flip, n)
      == FileRows(data, x, y, comp, flip, n - 1) + FilePixels(Row(data, x, RowAt(n - 1, y, flip)), comp)
  {
    hide FilePixels;
    RowSized(data, x, RowAt(n - 1, y, flip), comp);
  }

  lemma RowOfFront(front: seq<Pixel>, back: seq<Pixel>, x: nat, t: nat)
    requires (t + 1) * x <= |front|
    ensures (t + 1) * x <= |front + back| && Row(front + back, x, t) == Row(front, x, t)
  {
    RowBounds(x, t);
  }

  lemma RowOfBack(front: seq<Pixel>, back: seq<Pixel>, x: nat, t: nat)
    requires |front| == t * x && |back| == x
    ensures (t + 1) * x <= |front + back| && Row(front + back, x, t) == back
  {
    RowBounds(x, t);
  }

  lemma HeaderParsed(x: nat, y: nat, comp: nat, input: seq<byte>)
    requires 1 <= comp <= 4 && x < 65536 && y < 65536 && StandsAt(Header(x, y, comp), input, 0)
    ensures var h := HeaderAt(input, 0);
      && h.offset == 0 && !h.indexed && h.imageType >= 8 && h.width == x && h.height == y
      && CompOf(h) == (comp, false) && Inverted(h)
    ensures Advance(input, 0, 18) == 18
  {
    var head := Header(x, y, comp);
    BytesAt(head, input, 0);
    HeaderBytes(x, y, comp);
  }

  // Type 10 is for colour images with packets and type 11 for grey ones; with an alpha channel, its eight
  // bits are announced.
  lemma HeaderBytes(x: nat, y: nat, comp: nat)
    requires 1 <= comp <= 4 && x < 65536 && y < 65536
    ensures var h := Header(x, y, comp);
      && (forall i :: 0 <= i < 12 && i != 2 ==> h[i] == 0) && h[2] == (if comp <= 2 then 11 else 10)
      && Word16(h[12], h[13]) == x && Word16(h[14], h[15]) == y
      && h[16] == 8 * comp && h[17] == (if comp % 2 == 0 then 8 else 0)
  {
    assert x == x / 256 * 256 + x % 256 && x / 256 % 256 == x / 256;
    assert y == y / 256 * 256 + y % 256 && y / 256 % 256 == y / 256;
  }

  lemma RowsBack(data: seq<Pixel>, pixels: seq<Pixel>, x: nat, y: nat, comp: nat, flip: bool, r: nat)
    requires 1 <= comp <= 4 && |data| == x * y && AllSized(data, comp) && r < y
    requires Oriented(pixels, FileRows(data, x, y, comp, flip, y), x, y, true)
    ensures |pixels| == x * y && (r + 1) * x <= |data| && (RowAt(y - 1 - r, y, flip) + 1) * x <= |data|
    ensures Row(pixels, x, r) == Row(data, x, RowAt(y - 1 - r, y, flip))
  {
    hide FilePixels, FileBytes, FileRows, RowAt, Swapped;
    var q := y - 1 - r;
    var j := RowAt(q, y, flip);
    RowInside(x, y, r);
    RowInside(x, y, j);
    RowSized(data, x, j, comp);
    FileRowIs(data, x, y, comp, flip, y, q, j);
    var file := FileRows(data, x, y, comp, flip, y);
    assert SwappedRow(pixels, r, file, FromRow(r, y, true), x, y);
    forall i | 0 <= i < x ensures Row(pixels, x, r)[i] == Row(data, x, j)[i] {
      SwappedBack(Row(data, x, j)[i]);
    }
  }

  // The image has the rows of data, in order or, if flip is set, turned over.
  ghost predicate Restored(r: TgaResult, data: seq<Pixel>, x: nat, y: nat, comp: nat, flip: bool) {
    && r.Loaded? && r.width == x && r.height == y && r.comp == comp && |r.pixels| == |data| == x * y
    && forall t: nat :: t < y ==> SameRow(r.pixels, t, data, FromRow(t, y, flip), x, y)
  }

  lemma LoadedIsRestored(r: TgaResult, data: seq<Pixel>, x: nat, y: nat, comp: nat, flip: bool)
    requires 1 <= comp <= 4 && |data| == x * y && AllSized(data, comp)
    requires r.Loaded? && r.width == x && r.height == y && r.comp == comp
    requires Oriented(r.pixels, FileRows(data, x, y, comp, flip, y), x, y, true)
    ensures Restored(r, data, x, y, comp, flip)
  {
    hide FileRows, Row, AllSized;
    assert |r.pixels| == x * y;
    forall t: nat | t < y ensures SameRow(r.pixels, t, data, FromRow(t, y, flip), x, y) {
      RowsBack(data, r.pixels, x, y, comp, flip, t);
    }
  }

  lemma FileSize(data: seq<Pixel>, x: nat, y: nat, comp: nat, flip: bool)
    requires |data| == x * y && 1 <= comp <= 4 && AllSized(data, comp)
    ensures |FileRows(data, x, y, comp, flip, y)| == x * y
  {
    FileRowsSize(data, x, y, comp, flip, y);
  }

  lemma OutcomeOf(r: TgaResult, h: TgaHeader, input: seq<byte>, data: seq<Pixel>, x: nat, y: nat, comp: nat, flip: bool)
    requires 1 <= comp <= 4 && |data| == x * y && AllSized(data, comp)
    requires IsLoaded(r, h, input, 18) && !h.indexed && h.imageType >= 8 && h.width == x && h.height == y
    requires CompOf(h) == (comp, false) && Inverted(h)
    requires Load(input, 18, 0, false, [], x * y, comp) == FileRows(data, x, y, comp, flip, y)
    ensures r.Loaded? <==> x * y * comp <= INT_MAX
    ensures r.Loaded? ==> Restored(r, data, x, y, comp, flip)
  {
    hide CompOf, Inverted, Oriented, FileRows, Load, Restored, AllSized;
    if x * y * comp <= INT_MAX { LoadedIsRestored(r, data, x, y, comp, flip); }
  }

  // An image that is written loads back as it was, exactly when its size is one the loader accepts.
  method WriteThenLoad(data: seq<Pixel>, x: nat, y: nat, comp: nat, flip: bool) returns (r: TgaResult)
    requires 1 <= comp <= 4 && 1 <= x <= 65535 && 1 <= y <= 65535 && |data| == x * y && AllSized(data, comp)
    ensures r.Loaded? <==> x * y * comp <= INT_MAX
    ensures r.Loaded? ==> Restored(r, data, x, y, comp, flip)
  {
    hide *;
    var out;
    ghost var ps;
    out, ps := WriteTga(data, x, y, comp, flip);
    WholeStands(out);
    StandsBoth(Header(x, y, comp), Written(ps, comp), out, 0);
    HeaderParsed(x, y, comp, out);
    FileSize(data, x, y, comp, flip);
    var s := new Source(out, 0);
    r := LoadTga(s);
    OutcomeOf(r, HeaderAt(out, 0), out, data, x, y, comp, flip);
  }

  lemma WholeStands(out: seq<byte>)
    ensures StandsAt(out, out, 0)
  {
    assert out[0..|out|] == out;
  }
}
