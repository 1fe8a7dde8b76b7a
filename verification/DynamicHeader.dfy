// Reading the code lengths of a block that brings its own codes.
module DynamicHeader {
  import opened Words
  import opened BitStream
  import opened CanonicalCode
  import opened HuffmanTables
  import opened DeflateFormat
  import opened ZlibFormat
  import opened IdleRounds
  import opened Readable
  import opened Inflate

  const ORDER_INDEX: seq<nat> := [3, 17, 15, 13, 11, 9, 7, 5, 4, 6, 8, 10, 12, 14, 16, 18, 0, 1, 2]

  lemma OrderIsPermutation()
    ensures forall i :: 0 <= i < 19 ==> LENGTH_ORDER[i] < 19 && ORDER_INDEX[LENGTH_ORDER[i]] == i
    ensures forall j :: 0 <= j < 19 ==> ORDER_INDEX[j] < 19 && LENGTH_ORDER[ORDER_INDEX[j]] == j
  {}

  function OrderAt(i: nat): nat
    requires i < 19
  {
    LENGTH_ORDER[i]
  }

  ghost function OrderIndex(j: nat): nat
    requires j < 19
  {
    ORDER_INDEX[j]
  }

  lemma OrderInverse()
    ensures forall i :: 0 <= i < 19 ==> OrderAt(i) < 19 && OrderIndex(OrderAt(i)) == i
    ensures forall j :: 0 <= j < 19 ==> OrderIndex(j) < 19 && OrderAt(OrderIndex(j)) == j
  {
    OrderIsPermutation();
  }

  // ---------- bits left in the buffer ----------

  ghost function SizesLeft(b: nat, n: nat): nat {
    if n == 0 then b else Received(SizesLeft(b, n - 1), 3)
  }

  // The bits left after operation op, which begins at p with b buffered bits.
  ghost function OpLeft(cl: seq<nat>, input: seq<byte>, p: nat, b: nat, op: LengthOp): Left {
    match CodeLeft(input, p, b, CodeLength(cl, op.sym))
    case Out => Out
    case Left(n) => Left(Received(n, OpExtra(op.sym)))
  }

  ghost function OpsLeft(cl: seq<nat>, input: seq<byte>, p: nat, b: nat, ops: seq<LengthOp>): Left {
    if ops == [] then Left(b)
    else match OpsLeft(cl, input, p, b, ops[..|ops| - 1])
      case Out => Out
      case Left(n) => OpLeft(cl, input, OpsEnd(cl, p, ops[..|ops| - 1]), n, ops[|ops| - 1])
  }

  ghost function CountsLeft(b: nat, hclen: nat): nat {
    SizesLeft(Received(Received(Received(b, 5), 5), 4), hclen)
  }

  // The bits left after a header that begins at p with b buffered bits.
  ghost function HeaderLeft(input: seq<byte>, p: nat, b: nat, h: Header): Left {
    OpsLeft(h.cl, input, p + 14 + 3 * h.hclen, CountsLeft(b, h.hclen), h.ops)
  }

  // Operation op stands at p, can be read, and fits the n lengths of ntot read so far.
  ghost predicate OpReadable(cl: seq<nat>, input: seq<byte>, p: nat, b: nat, n: nat, ntot: nat, op: LengthOp) {
    && OpAt(cl, input, p, op) && OpLeft(cl, input, p, b, op).Left?
    && (op.sym == 16 ==> n > 0) && n + OpCount(op) <= ntot
  }

  // These operations can be read, and spell out ntot lengths.
  ghost predicate OpsReadable(cl: seq<nat>, input: seq<byte>, p: nat, b: nat, ntot: nat, ops: seq<LengthOp>) {
    && OpsAt(cl, input, p, ops) && OpsLeft(cl, input, p, b, ops).Left?
    && |LengthsOf(ops)| == ntot
  }

  // This header stands at p and can be read with b buffered bits at its start, and its codes exist.
  ghost predicate HeaderReadable(input: seq<byte>, p: nat, b: nat, h: Header) {
    HeaderAt(input, p, h) && HeaderCodable(h) && HeaderLeft(input, p, b, h).Left?
  }

  // ---------- reading ----------

  ghost predicate SizesRead(input: seq<byte>, p: nat, n: nat, cl: seq<nat>) {
    |cl| == 19 && forall i :: 0 <= i < 19 ==> OrderAt(i) < 19 && cl[OrderAt(i)] == if i < n then Window(input, p + 3 * i, 3) else 0
  }

  method ReadSizes(a: ZBuf, hclen: nat) returns (cl: seq<nat>)
    requires a.BufferOk() && hclen <= 19
    modifies a`pos, a`numBits, a`codeBuffer, a`fetched
    ensures a.BufferOk() && a.BitPos() == old(a.BitPos()) + 3 * hclen
    ensures a.numBits == SizesLeft(old(a.numBits), hclen)
    ensures SizesRead(a.zbuffer, old(a.BitPos()), hclen, cl)
    ensures |cl| == 19 && forall i :: 0 <= i < 19 ==> cl[i] <= 15
  {
    hide Window, OrderAt, OrderIndex, Received;
    OrderInverse();
    ghost var p := a.BitPos();
    cl := seq(19, _ => 0);
    for i := 0 to hclen
      invariant a.BufferOk() && a.BitPos() == p + 3 * i && a.numBits == SizesLeft(old(a.numBits), i)
      invariant SizesRead(a.zbuffer, p, i, cl)
      invariant forall j :: 0 <= j < 19 ==> cl[j] <= 15
    {
      var s := a.Zreceive(3);
      ThreeBits(a.zbuffer, p + 3 * i);
      cl := cl[OrderAt(i) := s];
    }
  }

  lemma ThreeBits(input: seq<byte>, p: nat)
    ensures Window(input, p, 3) <= 7
  {
    WindowBound(input, p, 3);
    Pow2Values();
  }

  lemma SizesAreLengths(input: seq<byte>, p: nat, n: nat, cl: seq<nat>)
    requires n <= 19 && SizesRead(input, p, n, cl)
    ensures CodeLengthsAt(input, p, n, cl)
  {
    hide Window;
    forall i | 0 <= i < 19
      ensures LENGTH_ORDER[i] < 19 && cl[LENGTH_ORDER[i]] == if i < n then Window(input, p + 3 * i, 3) else 0
    {
      assert OrderAt(i) == LENGTH_ORDER[i];
    }
  }

  lemma OpUnique(cl: seq<nat>, input: seq<byte>, p: nat, c: nat, op: LengthOp)
    requires ValidLengths(cl) && SymbolAt(cl, input, p, c) && OpAt(cl, input, p, op)
    ensures op.sym == c && op.extra == Window(input, p + CodeLength(cl, c), OpExtra(c))
  {
    hide SymbolAt, Window;
    SymbolUnique(cl, input, p, c, op.sym);
  }

  // One symbol of the code length alphabet with its extra bits.
  method NextOp(a: ZBuf, z: ZHuffman, ghost cl: seq<nat>, ghost hint: LengthOp) returns (ok: bool, op: LengthOp)
    requires a.BufferOk() && z.Decodes(cl) && |cl| == 19
    modifies a`pos, a`numBits, a`codeBuffer, a`fetched
    ensures a.BufferOk()
    ensures ok ==> OpAt(cl, a.zbuffer, old(a.BitPos()), op) && a.BitPos() == OpEnd(cl, old(a.BitPos()), op)
    ensures ok ==> op.sym < 19 && OpLeft(cl, a.zbuffer, old(a.BitPos()), old(a.numBits), op) == Left(a.numBits)
    ensures ok && op.sym < 16 ==> op.extra == 0 && a.BitPos() == old(a.BitPos()) + cl[op.sym]
    ensures ok && op.sym == 16 ==> op.extra == Window(a.zbuffer, a.BitPos() - 2, 2) && a.BitPos() == old(a.BitPos()) + cl[16] + 2
    ensures ok && op.sym == 17 ==> op.extra == Window(a.zbuffer, a.BitPos() - 3, 3) && a.BitPos() == old(a.BitPos()) + cl[17] + 3
    ensures ok && op.sym == 18 ==> op.extra == Window(a.zbuffer, a.BitPos() - 7, 7) && a.BitPos() == old(a.BitPos()) + cl[18] + 7
    ensures OpAt(cl, a.zbuffer, old(a.BitPos()), hint) && Primable(a.zbuffer, old(a.BitPos()), old(a.numBits)) ==> ok && op == hint
  {
    hide Window, SymbolAt, ZHuffman.Decodes, ValidLengths, Received, AfterCode, Primable;
    ghost var p, b := a.BitPos(), a.numBits;
    op := LengthOp(0, 0);
    z.DecodesShape(cl);
    var c := a.HuffmanDecode(z, cl);
    if OpAt(cl, a.zbuffer, p, hint) && Primable(a.zbuffer, p, b) { OpUnique(cl, a.zbuffer, p, c, hint); }
    if c < 0 || c >= 19 { return false, op; }
    a.SymbolInRange(cl, p, c);
    EmptyWindow(a.zbuffer, a.BitPos());
    var x := 0;
    if c == 16 {
      x := a.Zreceive(2);
    } else if c == 17 {
      x := a.Zreceive(3);
    } else if c == 18 {
      x := a.Zreceive(7);
    }
    NoneReceived(a.numBits);
    ok, op := true, LengthOp(c, x);
  }

  // One operation and the lengths it stands for.
  method ReadOp(a: ZBuf, z: ZHuffman, ghost cl: seq<nat>, lencodes: array<nat>, n: nat, ntot: nat, ghost hint: LengthOp)
    returns (ok: bool, n': nat, op: LengthOp)
    requires a.BufferOk() && z.Decodes(cl) && |cl| == 19
    requires n < ntot <= 320 && lencodes.Length == 455 && lencodes !in z.repr
    modifies a`pos, a`numBits, a`codeBuffer, a`fetched, lencodes
    ensures a.BufferOk()
    ensures ok ==> OpAt(cl, a.zbuffer, old(a.BitPos()), op) && a.BitPos() == OpEnd(cl, old(a.BitPos()), op)
    ensures ok ==> OpLeft(cl, a.zbuffer, old(a.BitPos()), old(a.numBits), op) == Left(a.numBits)
    ensures ok ==> (op.sym == 16 ==> n > 0) && n < n' == n + OpCount(op) <= ntot
    ensures ok ==> lencodes[..n'] == old(lencodes[..n]) + Repeated(OpFill(op, old(lencodes[..n])), OpCount(op))
    ensures ok ==> lencodes[..n] == old(lencodes[..n]) && OpSays(op, lencodes[..n'], n, n')
    ensures OpReadable(cl, a.zbuffer, old(a.BitPos()), old(a.numBits), n, ntot, hint) ==> ok && op == hint
  {
    hide Window, SymbolAt, ZHuffman.Decodes, OpAt, OpEnd, AfterCode, Received, CodeLength, Primable, OpSays;
    n' := n;
    ok, op := NextOp(a, z, cl, hint);
    if !ok { return; }
    var fill, count := 0, 1;
    if op.sym < 16 {
      fill := op.sym;
    } else if op.sym == 16 {
      if n == 0 { return false, n', op; }
      fill, count := lencodes[n - 1], op.extra + 3;
    } else if op.sym == 17 {
      count := op.extra + 3;
    } else {
      count := op.extra + 11;
    }
    if ntot - n < count { return false, n', op; }
    ghost var before := lencodes[..n];
    SetLengths(lencodes, n, fill, count);
    n' := n + count;
    NextSays(op, before);
    assert lencodes[..n] == lencodes[..n'][..n];
  }

  method SetLengths(lencodes: array<nat>, n: nat, fill: nat, count: nat)
    requires n + count <= lencodes.Length
    modifies lencodes
    ensures lencodes[..n + count] == old(lencodes[..n]) + Repeated(fill, count)
  {
    forall i | n <= i < n + count { lencodes[i] := fill; }
  }

  // Reads operations until they have spelled out ntot lengths. It succeeds exactly if there are
  // operations that can be read and spell out that many.
  method ReadLengths(a: ZBuf, z: ZHuffman, ghost cl: seq<nat>, lencodes: array<nat>, ntot: nat)
    returns (ok: bool, ghost ops: seq<LengthOp>)
    requires a.BufferOk() && z.Decodes(cl) && |cl| == 19
    requires ntot <= 320 && lencodes.Length == 455 && lencodes !in z.repr
    modifies a`pos, a`numBits, a`codeBuffer, a`fetched, lencodes
    ensures a.BufferOk()
    ensures ok ==> OpsReadable(cl, a.zbuffer, old(a.BitPos()), old(a.numBits), ntot, ops)
    ensures ok ==> OpsLeft(cl, a.zbuffer, old(a.BitPos()), old(a.numBits), ops) == Left(a.numBits)
    ensures ok ==> a.BitPos() == OpsEnd(cl, old(a.BitPos()), ops)
    ensures ok ==> LengthsOf(ops) == lencodes[..ntot] && ValidEach(lencodes[..ntot])
    ensures (exists os :: OpsReadable(cl, a.zbuffer, old(a.BitPos()), old(a.numBits), ntot, os)) ==> ok
  {
    hide Window, SymbolAt, ZHuffman.Decodes, OpsAt, OpsEnd, LengthsOf, OpAt, OpEnd, OpCount, OpFill, OpReadable, OpsReadable, OpLeft, OpsLeft;
    ghost var p, b := a.BitPos(), a.numBits;
    ghost var planned, plan := ChooseOps(cl, a.zbuffer, p, b, ntot);
    ops := [];
    z.DecodesShape(cl);
    NoOps(cl, a.zbuffer, p, b);
    var n := 0;
    while n < ntot
      invariant n <= ntot && a.BufferOk() && z.Decodes(cl)
      invariant OpsAt(cl, a.zbuffer, p, ops) && a.BitPos() == OpsEnd(cl, p, ops)
      invariant OpsLeft(cl, a.zbuffer, p, b, ops) == Left(a.numBits)
      invariant LengthsOf(ops) == lencodes[..n] && ValidEach(lencodes[..n])
      invariant planned ==> ops <= plan
    {
      ghost var before, hint := lencodes[..n], if |ops| < |plan| then plan[|ops|] else LengthOp(0, 0);
      if planned { NextPlanned(cl, a.zbuffer, p, b, ntot, plan, ops); }
      ghost var op;
      ok, n, op := ReadOp(a, z, cl, lencodes, n, ntot, hint);
      if !ok { return; }
      MoreOps(cl, a.zbuffer, p, b, ops, op);
      FillValid(op, before);
      ops := ops + [op];
    }
    AllOpsRead(cl, a.zbuffer, p, b, ntot, ops);
    ok := true;
  }

  lemma ChooseOps(cl: seq<nat>, input: seq<byte>, p: nat, b: nat, ntot: nat) returns (planned: bool, plan: seq<LengthOp>)
    ensures planned <==> exists os :: OpsReadable(cl, input, p, b, ntot, os)
    ensures planned ==> OpsReadable(cl, input, p, b, ntot, plan)
  {
    hide OpsReadable;
    planned, plan := false, [];
    if os :| OpsReadable(cl, input, p, b, ntot, os) { planned, plan := true, os; }
  }

  lemma AllOpsRead(cl: seq<nat>, input: seq<byte>, p: nat, b: nat, ntot: nat, ops: seq<LengthOp>)
    requires OpsAt(cl, input, p, ops) && OpsLeft(cl, input, p, b, ops).Left? && |LengthsOf(ops)| == ntot
    ensures OpsReadable(cl, input, p, b, ntot, ops)
  {
    hide OpsAt, OpsLeft, LengthsOf;
  }

  lemma {:induction false} OpsPrefix(cl: seq<nat>, input: seq<byte>, p: nat, ops: seq<LengthOp>, k: nat)
    requires OpsAt(cl, input, p, ops) && k < |ops|
    ensures OpAt(cl, input, OpsEnd(cl, p, ops[..k]), ops[k]) && OpsEnd(cl, p, ops[..k]) <= OpsEnd(cl, p, ops)
    ensures ops[k].sym == 16 ==> LengthsOf(ops[..k]) != []
    ensures |LengthsOf(ops[..k])| + OpCount(ops[k]) <= |LengthsOf(ops)|
    decreases |ops|
  {
    hide OpAt, OpFill, OpCount;
    var init := ops[..|ops| - 1];
    if k < |ops| - 1 {
      OpsPrefix(cl, input, p, init, k);
      assert init[..k] == ops[..k];
    } else {
      assert ops[..k] == init;
    }
  }

  lemma {:induction false} OpsLeftPrefix(cl: seq<nat>, input: seq<byte>, p: nat, b: nat, ops: seq<LengthOp>, k: nat)
    requires OpsLeft(cl, input, p, b, ops).Left? && k < |ops|
    ensures OpsLeft(cl, input, p, b, ops[..k]).Left?
    ensures OpLeft(cl, input, OpsEnd(cl, p, ops[..k]), OpsLeft(cl, input, p, b, ops[..k]).n, ops[k]).Left?
    decreases |ops|
  {
    hide OpLeft, OpsEnd;
    var init := ops[..|ops| - 1];
    if k < |ops| - 1 {
      OpsLeftPrefix(cl, input, p, b, init, k);
      assert init[..k] == ops[..k];
    } else {
      assert ops[..k] == init;
    }
  }

  // As long as lengths are missing, operations that can be read have a next one, and it fits.
  lemma NextPlanned(cl: seq<nat>, input: seq<byte>, p: nat, b: nat, ntot: nat, plan: seq<LengthOp>, ops: seq<LengthOp>)
    requires OpsReadable(cl, input, p, b, ntot, plan) && ops <= plan
    ensures OpsLeft(cl, input, p, b, ops).Left?
    ensures |LengthsOf(ops)| < ntot ==> |ops| < |plan| && ops + [plan[|ops|]] <= plan
    ensures |LengthsOf(ops)| < ntot ==>
      OpReadable(cl, input, OpsEnd(cl, p, ops), OpsLeft(cl, input, p, b, ops).n, |LengthsOf(ops)|, ntot, plan[|ops|])
  {
    hide OpAt, OpFill, OpCount, OpsAt, OpsEnd, LengthsOf, OpLeft, OpsLeft;
    if |ops| < |plan| {
      OpsPrefix(cl, input, p, plan, |ops|);
      OpsLeftPrefix(cl, input, p, b, plan, |ops|);
      assert plan[..|ops|] == ops;
    } else {
      assert ops == plan;
    }
  }

  // Of two lists of operations at the same place that spell out equally many lengths, the first k agree.
  lemma {:induction false} SameOps(cl: seq<nat>, input: seq<byte>, p: nat, ops: seq<LengthOp>, us: seq<LengthOp>, k: nat)
    requires ValidLengths(cl) && OpsAt(cl, input, p, ops) && OpsAt(cl, input, p, us) && k <= |ops| && k <= |us|
    ensures ops[..k] == us[..k]
    decreases k
  {
    hide OpsAt, OpsEnd, LengthsOf, ValidLengths, SymbolAt, Window, OpCount;
    if k > 0 {
      SameOps(cl, input, p, ops, us, k - 1);
      OpsPrefix(cl, input, p, ops, k - 1);
      OpsPrefix(cl, input, p, us, k - 1);
      OpUnique(cl, input, OpsEnd(cl, p, ops[..k - 1]), us[k - 1].sym, ops[k - 1]);
      assert ops[..k] == ops[..k - 1] + [ops[k - 1]] && us[..k] == us[..k - 1] + [us[k - 1]];
    }
  }

  lemma NotMoreOps(cl: seq<nat>, input: seq<byte>, p: nat, ops: seq<LengthOp>, us: seq<LengthOp>)
    requires ValidLengths(cl) && OpsAt(cl, input, p, ops) && OpsAt(cl, input, p, us)
    requires |LengthsOf(ops)| == |LengthsOf(us)|
    ensures |ops| <= |us|
  {
    hide OpsAt, OpsEnd, LengthsOf, ValidLengths, OpAt;
    if |us| < |ops| {
      SameOps(cl, input, p, ops, us, |us|);
      assert us[..|us|] == us;
      OpsPrefix(cl, input, p, ops, |us|);
    }
  }

  lemma OpsUnique(cl: seq<nat>, input: seq<byte>, p: nat, ops: seq<LengthOp>, us: seq<LengthOp>)
    requires ValidLengths(cl) && OpsAt(cl, input, p, ops) && OpsAt(cl, input, p, us)
    requires |LengthsOf(ops)| == |LengthsOf(us)|
    ensures ops == us
  {
    hide OpsAt, LengthsOf, ValidLengths;
    NotMoreOps(cl, input, p, ops, us);
    NotMoreOps(cl, input, p, us, ops);
    SameOps(cl, input, p, ops, us, |ops|);
    assert ops[..|ops|] == ops && us[..|us|] == us;
  }

  // At most one header stands at a position.
  lemma HeaderUnique(input: seq<byte>, p: nat, h: Header, g: Header)
    requires HeaderAt(input, p, h) && HeaderAt(input, p, g) && Codable(h.cl)
    ensures h == g
  {
    hide Window, OpsAt, LengthsOf, CodeLengthsAt, ValidLengths, Kraft, Pow2;
    CodeLengthsUnique(input, p + 14, h.hclen, h.cl, g.cl);
    OpsUnique(h.cl, input, p + 14 + 3 * h.hclen, h.ops, g.ops);
  }

  // ---------- two bytes more are enough ----------

  lemma {:induction false} TwoBytesForOps(cl: seq<nat>, input: seq<byte>, p: nat, b: nat, ops: seq<LengthOp>)
    requires OpsEnd(cl, p, ops) + 16 <= 8 * |input|
    ensures OpsLeft(cl, input, p, b, ops).Left?
    decreases |ops|
  {
    hide Received, AfterCode, CodeLength, OpExtra;
    if ops != [] { TwoBytesForOps(cl, input, p, b, ops[..|ops| - 1]); }
  }

  ghost predicate ValidEach(lens: seq<nat>) {
    forall i :: 0 <= i < |lens| ==> lens[i] <= 15
  }

  lemma FillValid(op: LengthOp, before: seq<nat>)
    requires ValidEach(before) && op.sym < 19
    ensures ValidEach(before + Repeated(OpFill(op, before), OpCount(op)))
  {}

  lemma NoOps(cl: seq<nat>, input: seq<byte>, p: nat, b: nat)
    ensures OpsAt(cl, input, p, []) && OpsEnd(cl, p, []) == p && LengthsOf([]) == [] && OpsLeft(cl, input, p, b, []) == Left(b)
  {}

  lemma MoreOps(cl: seq<nat>, input: seq<byte>, p: nat, b: nat, ops: seq<LengthOp>, op: LengthOp)
    requires OpsAt(cl, input, p, ops) && OpAt(cl, input, OpsEnd(cl, p, ops), op)
    requires op.sym == 16 ==> LengthsOf(ops) != []
    ensures OpsAt(cl, input, p, ops + [op])
    ensures OpsEnd(cl, p, ops + [op]) == OpEnd(cl, OpsEnd(cl, p, ops), op)
    ensures LengthsOf(ops + [op]) == LengthsOf(ops) + Repeated(OpFill(op, LengthsOf(ops)), OpCount(op))
    ensures op.sym < 19
    ensures OpsLeft(cl, input, p, b, ops).Left? ==>
      OpsLeft(cl, input, p, b, ops + [op]) == OpLeft(cl, input, OpsEnd(cl, p, ops), OpsLeft(cl, input, p, b, ops).n, op)
  {
    hide OpLeft, SymbolAt, Window, OpEnd, OpFill, OpCount;
    assert (ops + [op])[..|ops + [op]| - 1] == ops;
  }

  method ReadAllLengths(a: ZBuf, cl: seq<nat>, ntot: nat) returns (ok: bool, lens: seq<nat>, ghost ops: seq<LengthOp>)
    requires a.BufferOk() && ValidLengths(cl) && |cl| == 19 && ntot <= 320
    modifies a`pos, a`numBits, a`codeBuffer, a`fetched
    ensures a.BufferOk()
    ensures ok ==> OpsReadable(cl, a.zbuffer, old(a.BitPos()), old(a.numBits), ntot, ops)
    ensures ok ==> OpsLeft(cl, a.zbuffer, old(a.BitPos()), old(a.numBits), ops) == Left(a.numBits)
    ensures ok ==> a.BitPos() == OpsEnd(cl, old(a.BitPos()), ops)
    ensures ok ==> LengthsOf(ops) == lens && |lens| == ntot && ValidEach(lens)
    ensures ok ==> Codable(cl)
    ensures Codable(cl) && (exists os :: OpsReadable(cl, a.zbuffer, old(a.BitPos()), old(a.numBits), ntot, os)) ==> ok
  {
    hide Window, OpsAt, OpsEnd, OpsLeft, LengthsOf, OpsReadable, Kraft, Acceptable, ZHuffman.Decodes, Pow2;
    ops, lens := [], [];
    var z := new ZHuffman();
    ok := z.Build(cl);
    if !ok { return; }
    var lencodes := new nat[455](_ => 0);
    ok, ops := ReadLengths(a, z, cl, lencodes, ntot);
    lens := lencodes[..ntot];
  }

  // The counts and the code that the code lengths themselves are written in.
  method ReadCounts(a: ZBuf) returns (hlit: nat, hdist: nat, hclen: nat, cl: seq<nat>)
    requires a.BufferOk()
    modifies a`pos, a`numBits, a`codeBuffer, a`fetched
    ensures a.BufferOk() && a.BitPos() == old(a.BitPos()) + 14 + 3 * hclen
    ensures a.numBits == CountsLeft(old(a.numBits), hclen)
    ensures hlit == Window(a.zbuffer, old(a.BitPos()), 5) + 257 <= 288
    ensures hdist == Window(a.zbuffer, old(a.BitPos()) + 5, 5) + 1 <= 32
    ensures hclen == Window(a.zbuffer, old(a.BitPos()) + 10, 4) + 4
    ensures CodeLengthsAt(a.zbuffer, old(a.BitPos()) + 14, hclen, cl) && ValidLengths(cl) && |cl| == 19
  {
    hide Window, CodeLengthsAt, SizesRead, SizesLeft, Received;
    ghost var p := a.BitPos();
    FieldBounds(a.zbuffer, p);
    hlit := a.Zreceive(5);
    hdist := a.Zreceive(5);
    hclen := a.Zreceive(4);
    hlit, hdist, hclen := hlit + 257, hdist + 1, hclen + 4;
    cl := ReadSizes(a, hclen);
    SizesAreLengths(a.zbuffer, p + 14, hclen, cl);
  }

  lemma CodeLengthsUnique(input: seq<byte>, p: nat, n: nat, cl: seq<nat>, cl': seq<nat>)
    requires CodeLengthsAt(input, p, n, cl) && CodeLengthsAt(input, p, n, cl')
    ensures cl == cl'
  {
    hide Window;
    OrderIsPermutation();
    forall j | 0 <= j < 19 ensures cl[j] == cl'[j] {
      assert LENGTH_ORDER[ORDER_INDEX[j]] == j;
    }
  }

  // Reads the header of a dynamic block and builds both sets of tables from it. It succeeds exactly if
  // there is a header that can be read.
  method ComputeHuffmanCodes(a: ZBuf) returns (ok: bool, ghost h: Header)
    requires a.BufferOk() && a.Separate()
    modifies a`pos, a`numBits, a`codeBuffer, a`fetched, a.zLength.repr, a.zDistance.repr
    ensures a.BufferOk()
    ensures ok ==> HeaderReadable(a.zbuffer, old(a.BitPos()), old(a.numBits), h) && a.BitPos() == HeaderEnd(old(a.BitPos()), h)
    ensures ok ==> HeaderLeft(a.zbuffer, old(a.BitPos()), old(a.numBits), h) == Left(a.numBits)
    ensures ok ==> |HeaderLiterals(h)| == h.hlit && |HeaderDistances(h)| == h.hdist <= 32
    ensures ok ==> exists at :: Spells(h.ops, HeaderLiterals(h) + HeaderDistances(h), at)
    ensures ok ==> a.zLength.Decodes(HeaderLiterals(h)) && a.zDistance.Decodes(HeaderDistances(h))
    ensures (exists g :: HeaderReadable(a.zbuffer, old(a.BitPos()), old(a.numBits), g)) ==> ok
  {
    hide Window, SymbolAt, OpsAt, OpsEnd, LengthsOf, Kraft, Acceptable, CodeLengthsAt, ZHuffman.Decodes, Pow2, ValidLengths;
    hide Spells, OpsLeft, CountsLeft, HeaderAt, HeaderEnd, HeaderLiterals, HeaderDistances, HeaderReadable, HeaderLeft, OpsReadable, Codable;
    ghost var p, b := a.BitPos(), a.numBits;
    ghost var planned, plan := ChooseHeader(a.zbuffer, p, b);
    var hlit, hdist, hclen, cl := ReadCounts(a);
    h := Header(hlit, hdist, hclen, cl, []);
    if planned { CountsPlanned(a.zbuffer, p, b, h, plan); }
    var lens;
    ghost var ops;
    ok, lens, ops := ReadAllLengths(a, cl, hlit + hdist);
    if !ok { return; }
    h := Header(hlit, hdist, hclen, cl, ops);
    HeaderRead(a.zbuffer, p, b, h, lens);
    ghost var at := HeaderSpelled(a.zbuffer, p, h);
    if planned { HeaderIsPlanned(a.zbuffer, p, b, h, plan); }
    ok := BuildBoth(a, lens, hlit, hdist);
    if ok { HeaderIsReadable(a.zbuffer, p, b, h); }
  }

  lemma ChooseHeader(input: seq<byte>, p: nat, b: nat) returns (planned: bool, plan: Header)
    ensures planned <==> exists g :: HeaderReadable(input, p, b, g)
    ensures planned ==> HeaderReadable(input, p, b, plan)
  {
    hide HeaderReadable;
    planned, plan := false, Header(0, 0, 0, [], []);
    if g :| HeaderReadable(input, p, b, g) { planned, plan := true, g; }
  }

  // The counts and the first code read are those of any header the stream holds.
  lemma CountsPlanned(input: seq<byte>, p: nat, b: nat, h: Header, plan: Header)
    requires HeaderReadable(input, p, b, plan)
    requires h.hlit == Window(input, p, 5) + 257 && h.hdist == Window(input, p + 5, 5) + 1
    requires h.hclen == Window(input, p + 10, 4) + 4
    requires CodeLengthsAt(input, p + 14, h.hclen, h.cl)
    ensures plan == h.(ops := plan.ops) && Codable(h.cl)
    ensures OpsReadable(h.cl, input, p + 14 + 3 * h.hclen, CountsLeft(b, h.hclen), h.hlit + h.hdist, plan.ops)
  {
    hide Window, OpsAt, OpsEnd, OpsLeft, LengthsOf, CodeLengthsAt, Codable, CountsLeft;
    CodeLengthsUnique(input, p + 14, h.hclen, h.cl, plan.cl);
  }

  // The code lengths of a header are those its operations spell out, the literals before the distances.
  lemma HeaderSpelled(input: seq<byte>, p: nat, h: Header) returns (at: seq<nat>)
    requires HeaderAt(input, p, h)
    ensures |HeaderLiterals(h)| == h.hlit && |HeaderDistances(h)| == h.hdist
    ensures Spells(h.ops, HeaderLiterals(h) + HeaderDistances(h), at)
  {
    hide Window, OpsAt, LengthsOf, CodeLengthsAt, Spells;
    at := LengthsAreSpelled(h.cl, input, p + 14 + 3 * h.hclen, h.ops);
    assert HeaderLiterals(h) + HeaderDistances(h) == LengthsOf(h.ops);
  }

  lemma HeaderIsPlanned(input: seq<byte>, p: nat, b: nat, h: Header, plan: Header)
    requires HeaderReadable(input, p, b, plan) && HeaderAt(input, p, h)
    ensures h == plan && Codable(HeaderLiterals(h)) && Codable(HeaderDistances(h))
  {
    hide HeaderAt, HeaderLeft, Codable, HeaderLiterals, HeaderDistances;
    HeaderUnique(input, p, plan, h);
  }

  lemma HeaderIsReadable(input: seq<byte>, p: nat, b: nat, h: Header)
    requires HeaderAt(input, p, h) && HeaderLeft(input, p, b, h).Left?
    requires Codable(h.cl) && Codable(HeaderLiterals(h)) && Codable(HeaderDistances(h))
    ensures HeaderReadable(input, p, b, h)
  {
    hide HeaderAt, HeaderLeft, Codable, HeaderLiterals, HeaderDistances;
  }

  lemma HeaderRead(input: seq<byte>, p: nat, b: nat, h: Header, lens: seq<nat>)
    requires h.hlit == Window(input, p, 5) + 257 && h.hdist == Window(input, p + 5, 5) + 1
    requires h.hclen == Window(input, p + 10, 4) + 4
    requires CodeLengthsAt(input, p + 14, h.hclen, h.cl)
    requires OpsReadable(h.cl, input, p + 14 + 3 * h.hclen, CountsLeft(b, h.hclen), h.hlit + h.hdist, h.ops)
    requires lens == LengthsOf(h.ops)
    ensures HeaderAt(input, p, h)
    ensures HeaderLeft(input, p, b, h) == OpsLeft(h.cl, input, p + 14 + 3 * h.hclen, CountsLeft(b, h.hclen), h.ops)
    ensures HeaderEnd(p, h) == OpsEnd(h.cl, p + 14 + 3 * h.hclen, h.ops)
    ensures HeaderLiterals(h) == lens[..h.hlit] && HeaderDistances(h) == lens[h.hlit..]
  {
    hide Window, OpsAt, OpsEnd, OpsLeft, LengthsOf, CodeLengthsAt, CountsLeft;
  }

  // Builds both tables; fails exactly if one of the codes does not exist.
  method BuildBoth(a: ZBuf, lens: seq<nat>, hlit: nat, hdist: nat) returns (ok: bool)
    requires a.Separate() && |lens| == hlit + hdist && hlit <= 288 && hdist <= 32 && ValidEach(lens)
    modifies a.zLength.repr, a.zDistance.repr
    ensures ok <==> Codable(lens[..hlit]) && Codable(lens[hlit..])
    ensures ok ==> a.zLength.Decodes(lens[..hlit]) && a.zDistance.Decodes(lens[hlit..])
  {
    hide Kraft, Acceptable, Pow2;
    ok := a.zLength.Build(lens[..hlit]);
    if ok {
      ok := a.zDistance.Build(lens[hlit..]);
    }
  }

  lemma FieldBounds(input: seq<byte>, p: nat)
    ensures Window(input, p, 5) <= 31 && Window(input, p + 5, 5) <= 31 && Window(input, p + 10, 4) <= 15
  {
    hide Window;
    WindowBound(input, p, 5);
    WindowBound(input, p + 5, 5);
    WindowBound(input, p + 10, 4);
    Pow2Values();
  }
}
