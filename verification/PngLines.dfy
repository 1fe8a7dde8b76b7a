// Writing and reading the filtered lines of 8-bit PNG images.
module PngLines {
  import opened Words
  import opened Sequences
  import opened PngFilter

  // ---------- writing ----------

  // n-byte pixels, width by height of them, in rows that start every stride bytes.
  ghost predicate Image(pixels: seq<byte>, stride: nat, width: nat, height: nat, n: nat) {
    width > 0 && height > 0 && n > 0 && stride >= width * n && |pixels| >= stride * (height - 1) + width * n
  }

  // The row of pixels that is written as line y.
  function RowOf(y: nat, height: nat, flip: bool): (r: nat)
    requires y < height
    ensures r < height
  {
    if flip then height - 1 - y else y
  }

  lemma RowFits(pixels: seq<byte>, stride: nat, w: nat, height: nat, r: nat)
    requires r < height && |pixels| >= stride * (height - 1) + w
    ensures 0 <= stride * r <= stride * r + w <= |pixels|
  {
    MulMono(r, height - 1, stride);
  }

  function LineOf(pixels: seq<byte>, stride: nat, w: nat, height: nat, flip: bool, y: nat): (line: seq<byte>)
    requires y < height && |pixels| >= stride * (height - 1) + w
    ensures |line| == w
  {
    RowFits(pixels, stride, w, height, RowOf(y, height, flip));
    var z := stride * RowOf(y, height, flip);
    pixels[z..z + w]
  }

  function PriorOf(pixels: seq<byte>, stride: nat, w: nat, height: nat, flip: bool, y: nat): (line: seq<byte>)
    requires y < height && |pixels| >= stride * (height - 1) + w
    ensures |line| == w
  {
    if y == 0 then Zeros(w) else LineOf(pixels, stride, w, height, flip, y - 1)
  }

  // The filter types, with 5 and 6 for average and Paeth on the first line.
  function TypeOf(filterType: nat, y: nat): nat
    requires filterType <= 4
  {
    if y != 0 then filterType else [0, 1, 0, 5, 6][filterType]
  }

  // The first pixel of a line.
  function FirstByte(t: nat, v: byte, up: byte): byte
    requires t <= 6
  {
    match t
    case 2 => Wrap(v - up)
    case 3 => Wrap(v - up / 2)
    case 4 => Wrap(v - Paeth(0, up, 0))
    case _ => v
  }

  // The other pixels.
  function RestByte(t: nat, v: byte, left: byte, up: byte, upLeft: byte): byte
    requires t <= 6
  {
    match t
    case 0 => v
    case 1 => Wrap(v - left)
    case 2 => Wrap(v - up)
    case 3 => Wrap(v - (left + up) / 2)
    case 4 => Wrap(v - Paeth(left, up, upLeft))
    case 5 => Wrap(v - left / 2)
    case _ => Wrap(v - Paeth(left, 0, 0))
  }

  predicate ReadsUp(t: nat) { t == 2 || t == 3 || t == 4 }

  lemma PaethOne(a: byte)
    ensures Paeth(a, 0, 0) == a && Paeth(0, a, 0) == a
  {}

  // The special cases all come down to the filter with zeros outside the image.
  lemma FirstByteIs(f: nat, y: nat, v: byte, up: byte)
    requires f <= 4 && (y == 0 ==> up == 0)
    ensures FirstByte(TypeOf(f, y), v, if ReadsUp(TypeOf(f, y)) then up else 0) == Wrap(v - Pred(f, 0, up, 0))
  {
    PaethOne(up);
  }

  lemma RestByteIs(f: nat, y: nat, v: byte, left: byte, up: byte, upLeft: byte)
    requires f <= 4 && (y == 0 ==> up == 0 && upLeft == 0)
    ensures RestByte(TypeOf(f, y), v, left, if ReadsUp(TypeOf(f, y)) then up else 0, if ReadsUp(TypeOf(f, y)) then upLeft else 0)
      == Wrap(v - Pred(f, left, up, upLeft))
  {}

  function SignedStride(stride: nat, flip: bool): int { if flip then 0 - stride else stride }

  // The line is at z, and the one before it s bytes earlier (on the first line there is none).
  ghost predicate Located(pixels: seq<byte>, z: int, s: int, row: seq<byte>, prior: seq<byte>, y: nat) {
    && |row| == |prior| && 0 <= z <= z + |row| <= |pixels|
    && (forall i :: 0 <= i < |row| ==> row[i] == pixels[z + i])
    && (y > 0 ==> 0 <= z - s <= z - s + |row| <= |pixels|)
    && (forall i :: 0 <= i < |row| ==> prior[i] == if y > 0 then pixels[z + i - s] else 0)
  }

  lemma StrideBetween(stride: nat, height: nat, y: nat, flip: bool)
    requires 0 < y < height
    ensures stride * RowOf(y, height, flip) - SignedStride(stride, flip) == stride * RowOf(y - 1, height, flip)
  {}

  lemma LineBytes(pixels: seq<byte>, stride: nat, w: nat, height: nat, flip: bool, y: nat)
    requires y < height && |pixels| >= stride * (height - 1) + w
    ensures Located(pixels, stride * RowOf(y, height, flip), SignedStride(stride, flip),
      LineOf(pixels, stride, w, height, flip, y), PriorOf(pixels, stride, w, height, flip, y), y)
  {
    hide RowOf, SignedStride;
    var z, s := stride * RowOf(y, height, flip), SignedStride(stride, flip);
    RowFits(pixels, stride, w, height, RowOf(y, height, flip));
    if y > 0 {
      StrideBetween(stride, height, y, flip);
      RowFits(pixels, stride, w, height, RowOf(y - 1, height, flip));
      var z' := stride * RowOf(y - 1, height, flip);
      assert PriorOf(pixels, stride, w, height, flip, y) == pixels[z'..z' + w];
    }
  }

  // The byte above position i of the line, where the filter type looks at it.
  function Above(pixels: seq<byte>, z: int, s: int, i: int, t: nat, ghost row: seq<byte>, ghost prior: seq<byte>, ghost y: nat): (up: byte)
    requires Located(pixels, z, s, row, prior, y) && 0 <= i < |row| && (y == 0 ==> !ReadsUp(t))
    ensures up == if ReadsUp(t) then prior[i] else 0
  {
    if ReadsUp(t) then pixels[z + i - s] else 0
  }

  method EncodeBytes(pixels: seq<byte>, z: int, s: int, n: nat, t: nat, buffer: array<byte>,
                     ghost row: seq<byte>, ghost prior: seq<byte>, ghost y: nat, ghost f: nat)
    requires Located(pixels, z, s, row, prior, y) && 0 < n <= |row| == buffer.Length && f <= 4 && t == TypeOf(f, y)
    modifies buffer
    ensures buffer[..] == Filtered(row, prior, n, f)
  {
    hide Located, Filtered, TypeOf, ReadsUp, FirstByte, RestByte;
    NoneAbove(f, y);
    LocatedRow(pixels, z, s, row, prior, y);
    ghost var line := Filtered(row, prior, n, f);
    var i := 0;
    while i < n
      invariant i <= n && forall k :: 0 <= k < i ==> buffer[k] == line[k]
    {
      buffer[i] := FirstByte(t, pixels[z + i], Above(pixels, z, s, i, t, row, prior, y));
      FirstFiltered(row, prior, n, f, y, i);
      i := i + 1;
    }
    while i < buffer.Length
      invariant n <= i <= buffer.Length && forall k :: 0 <= k < i ==> buffer[k] == line[k]
    {
      buffer[i] := RestByte(t, pixels[z + i], pixels[z + i - n], Above(pixels, z, s, i, t, row, prior, y),
                            Above(pixels, z, s, i - n, t, row, prior, y));
      RestFiltered(row, prior, n, f, y, i);
      i := i + 1;
    }
    assert buffer[..] == line;
  }

  lemma LocatedRow(pixels: seq<byte>, z: int, s: int, row: seq<byte>, prior: seq<byte>, y: nat)
    requires Located(pixels, z, s, row, prior, y)
    ensures |row| == |prior| && 0 <= z <= z + |row| <= |pixels|
    ensures forall i :: 0 <= i < |row| ==> row[i] == pixels[z + i]
    ensures y == 0 ==> forall i :: 0 <= i < |row| ==> prior[i] == 0
  {}

  lemma FirstFiltered(row: seq<byte>, prior: seq<byte>, n: nat, f: nat, y: nat, i: nat)
    requires f <= 4 && |prior| == |row| && n > 0 && i < n && i < |row| && (y == 0 ==> prior[i] == 0)
    ensures FirstByte(TypeOf(f, y), row[i], if ReadsUp(TypeOf(f, y)) then prior[i] else 0) == Filtered(row, prior, n, f)[i]
  {
    hide Pred, FirstByte, TypeOf, ReadsUp, Wrap;
    FirstByteIs(f, y, row[i], prior[i]);
  }

  lemma RestFiltered(row: seq<byte>, prior: seq<byte>, n: nat, f: nat, y: nat, i: nat)
    requires f <= 4 && |prior| == |row| && 0 < n <= i < |row| && (y == 0 ==> prior[i] == 0 && prior[i - n] == 0)
    ensures RestByte(TypeOf(f, y), row[i], row[i - n], if ReadsUp(TypeOf(f, y)) then prior[i] else 0,
        if ReadsUp(TypeOf(f, y)) then prior[i - n] else 0) == Filtered(row, prior, n, f)[i]
  {
    hide Pred, RestByte, TypeOf, ReadsUp, Wrap;
    RestByteIs(f, y, row[i], row[i - n], prior[i], prior[i - n]);
  }

  lemma NoneAbove(f: nat, y: nat)
    requires f <= 4
    ensures TypeOf(f, y) <= 6 && (y == 0 ==> !ReadsUp(TypeOf(f, y)))
  {}

  // Filters line y into the buffer.
  method EncodeLine(pixels: seq<byte>, stride: nat, width: nat, height: nat, y: nat, n: nat, filterType: nat, flip: bool, buffer: array<byte>)
    requires Image(pixels, stride, width, height, n) && y < height && filterType <= 4 && buffer.Length == width * n
    modifies buffer
    ensures buffer[..] == Filtered(LineOf(pixels, stride, width * n, height, flip, y),
      PriorOf(pixels, stride, width * n, height, flip, y), n, filterType)
    ensures forall i :: 0 <= i < width * n ==>
      FilteredBy(filterType, LineOf(pixels, stride, width * n, height, flip, y), PriorOf(pixels, stride, width * n, height, flip, y),
        n, i, buffer[i])
  {
    hide LineOf, PriorOf, Located, Filtered, TypeOf, FilteredBy;
    LineBytes(pixels, stride, width * n, height, flip, y);
    MulMono(1, width, n);
    EncodeBytes(pixels, stride * RowOf(y, height, flip), SignedStride(stride, flip), n, TypeOf(filterType, y), buffer,
      LineOf(pixels, stride, width * n, height, flip, y), PriorOf(pixels, stride, width * n, height, flip, y), y, filterType);
    forall i | 0 <= i < width * n
      ensures FilteredBy(filterType, LineOf(pixels, stride, width * n, height, flip, y),
                PriorOf(pixels, stride, width * n, height, flip, y), n, i, buffer[i])
    {
      FilteredIs(LineOf(pixels, stride, width * n, height, flip, y), PriorOf(pixels, stride, width * n, height, flip, y),
        n, filterType, i);
      assert buffer[i] == buffer[..][i];
    }
  }

  // Line y of the image as it is written: row y of the pixels, or when flipping, row y from the last one.
  lemma LineIs(pixels: seq<byte>, stride: nat, w: nat, height: nat, flip: bool, y: nat, i: nat)
    requires y < height && |pixels| >= stride * (height - 1) + w && i < w
    ensures !flip ==> 0 <= stride * y + i < |pixels| && LineOf(pixels, stride, w, height, flip, y)[i] == pixels[stride * y + i]
    ensures flip ==> 0 <= stride * (height - 1 - y) + i < |pixels|
    ensures flip ==> LineOf(pixels, stride, w, height, flip, y)[i] == pixels[stride * (height - 1 - y) + i]
    ensures y == 0 ==> PriorOf(pixels, stride, w, height, flip, y)[i] == 0
    ensures y > 0 ==> PriorOf(pixels, stride, w, height, flip, y) == LineOf(pixels, stride, w, height, flip, y - 1)
  {
    RowFits(pixels, stride, w, height, RowOf(y, height, flip));
  }

  // ---------- the choice of filters ----------

  // A filtered byte as a signed char.
  function Signed(b: byte): int { if b < 128 then b else b - 256 }

  lemma SignedSize(b: byte)
    ensures Abs(Signed(b)) == Min(b, 256 - b)
  {}

  // The entropy estimate: the sum of the absolute values.
  function Estimate(line: seq<byte>): nat {
    if line == [] then 0 else Estimate(line[..|line| - 1]) + Abs(Signed(line[|line| - 1]))
  }

  method EstimateLine(buffer: array<byte>) returns (est: nat)
    ensures est == Estimate(buffer[..])
  {
    est := 0;
    for i := 0 to buffer.Length
      invariant est == Estimate(buffer[..i])
    {
      est := est + Abs(Signed(buffer[i]));
      assert buffer[..i + 1][..i] == buffer[..i];
    }
    assert buffer[..buffer.Length] == buffer[..];
  }

  const NO_ESTIMATE: nat := 0x7fffffff

  function Cost(row: seq<byte>, prior: seq<byte>, n: nat, f: nat): nat
    requires f <= 4 && |prior| == |row| && n > 0
  {
    Min(Estimate(Filtered(row, prior, n, f)), 0x7fffffff)
  }

  // Of the first k filter types, best is the first one of least cost.
  ghost predicate BestFilter(row: seq<byte>, prior: seq<byte>, n: nat, best: nat, k: nat)
    requires k <= 5 && |prior| == |row| && n > 0
  {
    && best < k
    && (forall f: nat :: f < k ==> Cost(row, prior, n, best) <= Cost(row, prior, n, f))
    && (forall f: nat :: f < best ==> Cost(row, prior, n, best) < Cost(row, prior, n, f))
  }

  // Filters line y with each type in turn, and in the end with the best one.
  method EncodeBest(pixels: seq<byte>, stride: nat, width: nat, height: nat, y: nat, n: nat, flip: bool, buffer: array<byte>)
    returns (best: nat)
    requires Image(pixels, stride, width, height, n) && y < height && buffer.Length == width * n
    modifies buffer
    ensures var w := width * n;
      var row, prior := LineOf(pixels, stride, w, height, flip, y), PriorOf(pixels, stride, w, height, flip, y);
      BestFilter(row, prior, n, best, 5) && buffer[..] == Filtered(row, prior, n, best)
  {
    hide LineOf, PriorOf, Filtered, Estimate;
    ghost var row := LineOf(pixels, stride, width * n, height, flip, y);
    ghost var prior := PriorOf(pixels, stride, width * n, height, flip, y);
    best := 0;
    var bestVal := NO_ESTIMATE;
    var f := 0;
    while f < 5
      invariant f <= 5 && (f > 0 ==> BestFilter(row, prior, n, best, f) && bestVal == Cost(row, prior, n, best))
      invariant f == 0 ==> best == 0 && bestVal == NO_ESTIMATE
    {
      EncodeLine(pixels, stride, width, height, y, n, f, flip, buffer);
      var est := EstimateLine(buffer);
      if est < bestVal {
        bestVal := est;
        best := f;
      }
      f := f + 1;
    }
    EncodeLine(pixels, stride, width, height, y, n, best, flip, buffer);
  }

  // ---------- the filtered image ----------

  ghost function AllLines(pixels: seq<byte>, stride: nat, w: nat, height: nat, flip: bool): (rows: seq<seq<byte>>)
    requires height > 0 && |pixels| >= stride * (height - 1) + w
    ensures |rows| == height
    ensures forall y :: 0 <= y < height ==> |rows[y]| == w && rows[y] == LineOf(pixels, stride, w, height, flip, y)
  {
    seq(height, y requires 0 <= y < height => LineOf(pixels, stride, w, height, flip, y))
  }

  lemma {:induction false} EncodeSnoc(rows: seq<seq<byte>>, filters: seq<nat>, prior: seq<byte>, n: nat, row: seq<byte>, f: nat)
    requires |filters| == |rows| && n > 0 && f <= 4 && |row| == |prior|
    requires forall i :: 0 <= i < |rows| ==> filters[i] <= 4 && |rows[i]| == |prior|
    ensures EncodeLines(rows + [row], filters + [f], prior, n)
      == EncodeLines(rows, filters, prior, n) + [f] + Filtered(row, if rows == [] then prior else rows[|rows| - 1], n, f)
    decreases |rows|
  {
    hide *;
    EncodeStep(rows + [row], filters + [f], prior, n);
    if rows == [] {
      assert (rows + [row])[1..] == [] && (filters + [f])[1..] == [];
      NoLines(prior, n);
      NoLines(row, n);
    } else {
      EncodeStep(rows, filters, prior, n);
      EncodeSnoc(rows[1..], filters[1..], rows[0], n, row, f);
      assert (rows + [row])[1..] == rows[1..] + [row] && (filters + [f])[1..] == filters[1..] + [f];
      assert rows[1..] != [] ==> rows[1..][|rows[1..]| - 1] == rows[|rows| - 1];
      Regroup([filters[0]] + Filtered(rows[0], prior, n, filters[0]), EncodeLines(rows[1..], filters[1..], rows[0], n), [f],
        Filtered(row, rows[|rows| - 1], n, f));
    }
  }

  lemma Regroup(a: seq<byte>, b: seq<byte>, c: seq<byte>, d: seq<byte>)
    ensures a + (b + c + d) == a + b + c + d
  {}

  lemma EncodeStep(rows: seq<seq<byte>>, filters: seq<nat>, prior: seq<byte>, n: nat)
    requires rows != [] && |filters| == |rows| && n > 0
    requires forall i :: 0 <= i < |rows| ==> filters[i] <= 4 && |rows[i]| == |prior|
    ensures EncodeLines(rows, filters, prior, n)
      == [filters[0]] + Filtered(rows[0], prior, n, filters[0]) + EncodeLines(rows[1..], filters[1..], rows[0], n)
  {}

  // Stores a line behind its filter type.
  method PutLine(filt: array<byte>, at: nat, filterType: nat, buffer: array<byte>)
    requires at + 1 + buffer.Length <= filt.Length && buffer != filt && filterType <= 4
    modifies filt
    ensures filt[..at + 1 + buffer.Length] == old(filt[..at]) + [filterType] + buffer[..]
  {
    filt[at] := filterType;
    ghost var before := filt[..at + 1];
    var i := 0;
    while i < buffer.Length
      invariant i <= buffer.Length && filt[..at + 1] == before
      invariant forall k :: 0 <= k < i ==> filt[at + 1 + k] == buffer[k]
    {
      filt[at + 1 + i] := buffer[i];
      i := i + 1;
    }
  }

  lemma LineRoom(y: nat, height: nat, w: nat)
    requires y < height
    ensures y * (w + 1) + 1 + w == (y + 1) * (w + 1) <= (w + 1) * height
  {
    MulMono(y + 1, height, w + 1);
  }

  method WriteLine(pixels: seq<byte>, stride: nat, width: nat, height: nat, y: nat, n: nat, force: int, flip: bool, buffer: array<byte>)
    returns (filterType: nat)
    requires Image(pixels, stride, width, height, n) && y < height && force < 5 && buffer.Length == width * n
    modifies buffer
    ensures filterType <= 4 && (0 <= force ==> filterType == force)
    ensures var w := width * n;
      var row, prior := LineOf(pixels, stride, w, height, flip, y), PriorOf(pixels, stride, w, height, flip, y);
      buffer[..] == Filtered(row, prior, n, filterType) && (force < 0 ==> BestFilter(row, prior, n, filterType, 5))
  {
    hide LineOf, PriorOf, Filtered;
    if force > -1 {
      filterType := force;
      EncodeLine(pixels, stride, width, height, y, n, force, flip, buffer);
    } else {
      filterType := EncodeBest(pixels, stride, width, height, y, n, flip, buffer);
    }
  }

  // The line written y-th, behind its filter type.
  method WriteNext(pixels: seq<byte>, stride: nat, width: nat, height: nat, y: nat, n: nat, force: int, flip: bool,
                   buffer: array<byte>, filt: array<byte>, ghost filters: seq<nat>)
    returns (filterType: nat)
    requires Image(pixels, stride, width, height, n) && y < height && force < 5 && buffer.Length == width * n && buffer != filt
    requires |filters| == y && (forall i :: 0 <= i < y ==> filters[i] <= 4)
    requires Filled(pixels, stride, width * n, height, n, flip, filt[..], filters)
    modifies buffer, filt
    ensures filterType <= 4 && (0 <= force ==> filterType == force)
    ensures force < 0 ==>
      BestFilter(LineOf(pixels, stride, width * n, height, flip, y), PriorOf(pixels, stride, width * n, height, flip, y), n, filterType, 5)
    ensures Filled(pixels, stride, width * n, height, n, flip, filt[..], filters + [filterType])
  {
    hide LineOf, AllLines, PriorOf, Filtered, EncodeLines, BestFilter, Zeros;
    var w: nat := width * n;
    ghost var rows := AllLines(pixels, stride, w, height, flip);
    filterType := WriteLine(pixels, stride, width, height, y, n, force, flip, buffer);
    LineRoom(y, height, w);
    PutLine(filt, y * (w + 1), filterType, buffer);
    PriorIs(pixels, stride, w, height, flip, y);
    EncodeSnoc(rows[..y], filters, Zeros(w), n, rows[y], filterType);
    assert rows[..y + 1] == rows[..y] + [rows[y]];
  }

  // The lines written so far, with these filter types.
  ghost predicate Filled(pixels: seq<byte>, stride: nat, w: nat, height: nat, n: nat, flip: bool, filt: seq<byte>, filters: seq<nat>) {
    && height > 0 && n > 0 && |pixels| >= stride * (height - 1) + w && |filters| <= height
    && (forall i :: 0 <= i < |filters| ==> filters[i] <= 4)
    && |filt| == (w + 1) * height && |filters| * (w + 1) <= |filt|
    && filt[..|filters| * (w + 1)] == EncodeLines(AllLines(pixels, stride, w, height, flip)[..|filters|], filters, Zeros(w), n)
  }

  // Each of these lines is written with the first filter of least cost.
  ghost predicate AllBest(pixels: seq<byte>, stride: nat, w: nat, height: nat, n: nat, flip: bool, filters: seq<nat>) {
    && height > 0 && n > 0 && |pixels| >= stride * (height - 1) + w && |filters| <= height
    && forall y :: 0 <= y < |filters| ==>
         BestFilter(LineOf(pixels, stride, w, height, flip, y), PriorOf(pixels, stride, w, height, flip, y), n, filters[y], 5)
  }

  // All lines are written, and reading them gives the rows back.
  ghost predicate Written(pixels: seq<byte>, stride: nat, w: nat, height: nat, n: nat, flip: bool, filt: seq<byte>, filters: seq<nat>) {
    && height > 0 && n > 0 && |pixels| >= stride * (height - 1) + w
    && |filters| == height && (forall y :: 0 <= y < height ==> filters[y] <= 4)
    && |filt| == height * (w + 1)
    && filt == EncodeLines(AllLines(pixels, stride, w, height, flip), filters, Zeros(w), n)
    && DecodeLines(filt, Zeros(w), n, height) == Rows(Concat(AllLines(pixels, stride, w, height, flip)))
  }

  lemma AllFilled(pixels: seq<byte>, stride: nat, w: nat, height: nat, n: nat, flip: bool, filt: seq<byte>, filters: seq<nat>)
    requires Filled(pixels, stride, w, height, n, flip, filt, filters) && |filters| == height
    ensures Written(pixels, stride, w, height, n, flip, filt, filters)
  {
    hide EncodeLines, DecodeLines, AllLines, Zeros;
    var rows := AllLines(pixels, stride, w, height, flip);
    assert rows[..height] == rows && (w + 1) * height == height * (w + 1);
    assert filt[..|filt|] == filt;
    DecodeEncoded(rows, filters, Zeros(w), n);
  }

  lemma NoneFilled(pixels: seq<byte>, stride: nat, w: nat, height: nat, n: nat, flip: bool, filt: seq<byte>)
    requires height > 0 && n > 0 && |pixels| >= stride * (height - 1) + w && |filt| == (w + 1) * height
    ensures Filled(pixels, stride, w, height, n, flip, filt, [])
  {}

  // Writes all lines, each behind its filter type: the one forced, or the best for the line.
  method WriteLines(pixels: seq<byte>, stride: nat, width: nat, height: nat, n: nat, forceFilter: int, flip: bool)
    returns (filt: array<byte>, ghost filters: seq<nat>)
    requires Image(pixels, stride, width, height, n)
    ensures |filters| == height && forall y :: 0 <= y < height ==> filters[y] <= 4
    ensures 0 <= forceFilter < 5 ==> forall y :: 0 <= y < height ==> filters[y] == forceFilter
    ensures !(0 <= forceFilter < 5) ==> AllBest(pixels, stride, width * n, height, n, flip, filters)
    ensures Written(pixels, stride, width * n, height, n, flip, filt[..], filters)
  {
    hide Written, Filled, BestFilter, LineOf, PriorOf;
    var force := if forceFilter >= 5 then -1 else forceFilter;
    var w: nat := width * n;
    filt := new byte[(w + 1) * height](i => 0);
    var buffer := new byte[w](i => 0);
    filters := [];
    NoneFilled(pixels, stride, w, height, n, flip, filt[..]);
    var y := 0;
    while y < height
      invariant y <= height && |filters| == y && (forall i :: 0 <= i < y ==> filters[i] <= 4)
      invariant 0 <= force ==> forall i :: 0 <= i < y ==> filters[i] == force
      invariant force < 0 ==> AllBest(pixels, stride, w, height, n, flip, filters)
      invariant Filled(pixels, stride, w, height, n, flip, filt[..], filters)
    {
      var filterType := WriteNext(pixels, stride, width, height, y, n, force, flip, buffer, filt, filters);
      filters := filters + [filterType];
      y := y + 1;
    }
    AllFilled(pixels, stride, w, height, n, flip, filt[..], filters);
  }

  lemma NoLines(prior: seq<byte>, n: nat)
    requires n > 0
    ensures EncodeLines([], [], prior, n) == []
  {}

  lemma PriorIs(pixels: seq<byte>, stride: nat, w: nat, height: nat, flip: bool, y: nat)
    requires y < height && |pixels| >= stride * (height - 1) + w
    ensures var rows := AllLines(pixels, stride, w, height, flip);
      PriorOf(pixels, stride, w, height, flip, y) == if y == 0 then Zeros(w) else rows[y - 1]
  {}
}
