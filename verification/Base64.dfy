// Base64 as in section 4 of RFC 4648.
module Base64 {
  import opened Words
  import opened BitStream
  import opened BitField

  const TABLE: string :=
    "ABCDEFGHIJKLM" + "NOPQRSTUVWXYZ" + "abcdefghijklm" + "nopqrstuvwxyz" + "0123456789" + "+/"

  // The alphabet: capitals, small letters, digits, plus and slash.
  lemma Alphabet()
    ensures |TABLE| == 64
    ensures forall v :: 0 <= v < 26 ==> TABLE[v] as int == 'A' as int + v
    ensures forall v :: 26 <= v < 52 ==> TABLE[v] as int == 'a' as int + v - 26
    ensures forall v :: 52 <= v < 62 ==> TABLE[v] as int == '0' as int + v - 52
    ensures TABLE[62] == '+' && TABLE[63] == '/'
  {}

  // ---------- encoding ----------

  // One character for every six bits, the last of them filled up with zero bits.
  function Digits(bytes: seq<byte>): (s: string)
    ensures |s| == (8 * |bytes| + 5) / 6
  {
    seq((8 * |bytes| + 5) / 6, j requires 0 <= j < (8 * |bytes| + 5) / 6 => DigitAt(bytes, j))
  }

  function DigitAt(bytes: seq<byte>, j: nat): char {
    FieldBound(bytes, 6 * j, 6);
    Pow2Values();
    TABLE[Field(bytes, 6 * j, 6)]
  }

  function Padding(n: nat): (s: string)
    ensures |s| == n && forall i :: 0 <= i < n ==> s[i] == '='
  {
    seq(n, i => '=')
  }

  function Encoded(bytes: seq<byte>): string {
    var d := Digits(bytes);
    d + Padding((4 - |d| % 4) % 4)
  }

  // Three bytes make four characters, and the rest is filled up.
  lemma EncodedLength(bytes: seq<byte>)
    ensures |Encoded(bytes)| == 4 * ((|bytes| + 2) / 3)
    ensures |Encoded(bytes)| - |Digits(bytes)| == (3 - |bytes| % 3) % 3
  {
    hide Digits;
    var q, r := |bytes| / 3, |bytes| % 3;
    assert |bytes| == 3 * q + r && (8 * r + 5) / 6 == if r == 0 then 0 else r + 1;
    assert |Digits(bytes)| == 4 * q + (8 * r + 5) / 6;
  }

  method EncBase64(bytes: seq<byte>) returns (str: string)
    ensures str == Encoded(bytes)
  {
    hide DigitAt, Field, Digits, Padding;
    str := [];
    var i := 0;
    ghost var n, d := (8 * |bytes| + 5) / 6, Digits(bytes);
    while i / 8 < |bytes|
      invariant i == 6 * |str| && |str| <= n && str == d[..|str|]
      decreases 8 * |bytes| - i
    {
      var b;
      b := SixBits(bytes, i);
      DigitsAt(bytes, i / 6);
      str := str + [TABLE[b]];
      i := i + 6;
    }
    assert str == d;
    str := Pad(str);
  }

  lemma DigitsAt(bytes: seq<byte>, j: nat)
    requires 6 * j < 8 * |bytes|
    ensures j < |Digits(bytes)| && Digits(bytes)[j] == DigitAt(bytes, j)
  {}

  method Pad(d: string) returns (str: string)
    ensures str == d + Padding((4 - |d| % 4) % 4)
  {
    str := d;
    while |str| % 4 != 0
      invariant |d| <= |str| <= |d| + (4 - |d| % 4) % 4 && str == d + Padding(|str| - |d|)
      decreases |d| + 4 - |str|
    {
      str := str + ['='];
    }
  }

  method SixBits(bytes: seq<byte>, i: nat) returns (b: nat)
    ensures b < 64 && (i % 6 == 0 ==> TABLE[b] == DigitAt(bytes, i / 6)) && b == Field(bytes, i, 6)
  {
    hide DigitAt;
    b := 0;
    for k := 0 to 6
      invariant b == Field(bytes, i, k)
    {
      b := b * 2;
      if (i + k) / 8 < |bytes| { b := b + MsbBit(bytes, i + k); }
    }
    DigitIs(bytes, i);
  }

  lemma DigitIs(bytes: seq<byte>, i: nat)
    ensures Field(bytes, i, 6) < 64 && (i % 6 == 0 ==> TABLE[Field(bytes, i, 6)] == DigitAt(bytes, i / 6))
  {
    hide Field;
    FieldBound(bytes, i, 6);
    Pow2Values();
  }

  // ---------- decoding ----------

  // The value of a character: a digit, 254 for padding, 253 for white space, 255 for any other.
  function Suffix(c: char): (v: nat)
    ensures v < 64 || 253 <= v <= 255
  {
    if 'A' <= c <= 'Z' then c as int - 'A' as int
    else if 'a' <= c <= 'z' then c as int - 'a' as int + 26
    else if '0' <= c <= '9' then c as int - '0' as int + 52
    else if c == '+' then 62
    else if c == '/' then 63
    else if c == '=' then 254
    else if c == '\n' || c == '\r' || c == ' ' then 253
    else 255
  }

  lemma SuffixOfTable(v: nat)
    requires v < 64
    ensures Suffix(TABLE[v]) == v
  {
    hide Suffix;
    if v < 26 { Upper(v); } else if v < 52 { Lower(v); } else { Others(v); }
  }

  lemma Upper(v: nat)
    requires v < 26
    ensures Suffix(TABLE[v]) == v
  {}

  lemma Lower(v: nat)
    requires 26 <= v < 52
    ensures Suffix(TABLE[v]) == v
  {}

  lemma Others(v: nat)
    requires 52 <= v < 64
    ensures Suffix(TABLE[v]) == v
  {}

  // The digits are the characters of the alphabet; besides them only the padding, line ends and blanks are
  // allowed.
  lemma CharactersAre(c: char)
    ensures Suffix(c) < 64 ==> TABLE[Suffix(c)] == c
    ensures Suffix(c) == 254 <==> c == '='
    ensures Suffix(c) == 253 <==> c in {'\n', '\r', ' '}
  {
    Alphabet();
  }

  // The result code, and the bytes written before.
  datatype Decoded = Decoded(ret: int, out: seq<byte>)

  function Prepend(bytes: seq<byte>, d: Decoded): Decoded { Decoded(d.ret, bytes + d.out) }

  // The first n of the bytes of a 24-bit number, one of them at least.
  function Bytes24(t: nat, n: int): seq<byte> {
    [t / 65536 % 256] + (if n > 1 then [t / 256 % 256] else []) + (if n > 2 then [t % 256] else [])
  }

  // Decoding goes on after y characters of a group with the value t and 3 - g paddings so far.
  function DecodeFrom(text: string, t: nat, y: nat, g: int): Decoded
    decreases |text|
  {
    if text == [] then Decoded(0, [])
    else
      var c := Suffix(text[0]);
      if c == 255 then Decoded(-1, [])
      else if c == 253 then DecodeFrom(text[1..], t, y, g)
      else
        var t1 := 64 * t + if c == 254 then 0 else c;
        var g1 := if c == 254 then g - 1 else g;
        if y + 1 == 4 then Prepend(Bytes24(t1, g1), DecodeFrom(text[1..], 0, 0, g1))
        else DecodeFrom(text[1..], t1, y + 1, g1)
  }

  // ---------- what a text decodes to ----------

  // The digits and paddings of the text before the first character that is neither of them nor white space.
  function Digits64(text: string): seq<nat> {
    if text == [] || Suffix(text[0]) == 255 then []
    else if Suffix(text[0]) == 253 then Digits64(text[1..])
    else [Suffix(text[0])] + Digits64(text[1..])
  }

  function Pads(v: seq<nat>): nat {
    if v == [] then 0 else Pads(v[..|v| - 1]) + if v[|v| - 1] == 254 then 1 else 0
  }

  // The digits as a number, paddings counting as zero.
  function Value64(v: seq<nat>): nat {
    if v == [] then 0 else 64 * Value64(v[..|v| - 1]) + if v[|v| - 1] == 254 then 0 else v[|v| - 1]
  }

  // Each four digits make up to three bytes, fewer by the paddings there have been.
  function GroupBytes(v: seq<nat>, g: int): seq<byte> {
    if |v| < 4 then [] else Bytes24(Value64(v[..4]), g - Pads(v[..4])) + GroupBytes(v[4..], g - Pads(v[..4]))
  }

  // Any text decodes to the bytes of its groups of four digits before the first character that is not
  // allowed, whatever white space it has, and fails exactly if there is such a character.
  lemma DecodesByGroups(text: string)
    ensures DecodeFrom(text, 0, 0, 3) ==
      Decoded(if exists i :: 0 <= i < |text| && Suffix(text[i]) == 255 then -1 else 0, GroupBytes(Digits64(text), 3))
  {
    hide DecodeFrom, Digits64, GroupBytes, Suffix;
    FromGroups(text, [], 3);
    assert [] + Digits64(text) == Digits64(text);
    ResultCode(text, 0, 0, 3);
  }

  lemma {:induction false} ResultCode(text: string, t: nat, y: nat, g: int)
    ensures DecodeFrom(text, t, y, g).ret == if exists i :: 0 <= i < |text| && Suffix(text[i]) == 255 then -1 else 0
    decreases |text|
  {
    hide Suffix, Bytes24;
    if text != [] {
      var c := Suffix(text[0]);
      var t1 := 64 * t + if c == 254 then 0 else c;
      var g1 := if c == 254 then g - 1 else g;
      if c == 253 {
        ResultCode(text[1..], t, y, g);
      } else if c != 255 {
        ResultCode(text[1..], if y + 1 == 4 then 0 else t1, if y + 1 == 4 then 0 else y + 1, g1);
      }
      AnyMore(text);
    }
  }

  lemma AnyMore(text: string)
    requires text != []
    ensures (exists i :: 0 <= i < |text| && Suffix(text[i]) == 255) <==>
      Suffix(text[0]) == 255 || exists i :: 0 <= i < |text[1..]| && Suffix(text[1..][i]) == 255
  {
    hide Suffix;
    if i :| 0 < i < |text| && Suffix(text[i]) == 255 { assert text[1..][i - 1] == text[i]; }
    if i :| 0 <= i < |text[1..]| && Suffix(text[1..][i]) == 255 { assert text[1..][i] == text[i + 1]; }
  }

  // The digits p of a group have been read.
  lemma {:induction false} FromGroups(text: string, p: seq<nat>, g: int)
    requires |p| < 4
    ensures DecodeFrom(text, Value64(p), |p|, g - Pads(p)).out == GroupBytes(p + Digits64(text), g)
    decreases |text|
  {
    hide Suffix, Bytes24, GroupBytes, Value64, Pads;
    if text == [] || Suffix(text[0]) == 255 {
      NoGroup(p + Digits64(text), g);
    } else if Suffix(text[0]) == 253 {
      FromGroups(text[1..], p, g);
    } else {
      var c, rest := Suffix(text[0]), text[1..];
      var q := p + [c];
      assert p + Digits64(text) == q + Digits64(rest);
      OneDigit(p, c);
      if |q| < 4 {
        FromGroups(rest, q, g);
      } else {
        OneGroup(q, Digits64(rest), g);
        NoDigits();
        FromGroups(rest, [], g - Pads(q));
        assert [] + Digits64(rest) == Digits64(rest);
      }
    }
  }

  lemma NoGroup(v: seq<nat>, g: int)
    requires |v| < 4
    ensures GroupBytes(v, g) == []
  {}

  lemma NoDigits()
    ensures Value64([]) == 0 && Pads([]) == 0
  {}

  lemma OneDigit(p: seq<nat>, c: nat)
    ensures Value64(p + [c]) == 64 * Value64(p) + if c == 254 then 0 else c
    ensures Pads(p + [c]) == Pads(p) + if c == 254 then 1 else 0
  {
    assert (p + [c])[..|p|] == p;
  }

  lemma OneGroup(q: seq<nat>, v: seq<nat>, g: int)
    requires |q| == 4
    ensures GroupBytes(q + v, g) == Bytes24(Value64(q), g - Pads(q)) + GroupBytes(v, g - Pads(q))
  {
    hide Bytes24, Value64, Pads;
    assert (q + v)[..4] == q && (q + v)[4..] == v;
  }

  // Decodes the text up to its terminating zero; inlen is only looked at for its remainder.
  method DecBase64(text: string, inlen: int) returns (ret: int, out: seq<byte>)
    ensures inlen <= 0 ==> ret == -1 && out == []
    ensures inlen > 0 && inlen % 4 != 0 ==> ret == -2 && out == []
    ensures inlen > 0 && inlen % 4 == 0 ==> Decoded(ret, out) == DecodeFrom(text, 0, 0, 3)
    ensures inlen > 0 && inlen % 4 == 0 ==> out == GroupBytes(Digits64(text), 3)
    ensures inlen > 0 && inlen % 4 == 0 ==> ret == if exists i :: 0 <= i < |text| && Suffix(text[i]) == 255 then -1 else 0
  {
    hide Bytes24, Suffix, GroupBytes, Digits64;
    DecodesByGroups(text);
    out := [];
    if inlen <= 0 { return -1, out; }
    if inlen % 4 != 0 { return -2, out; }
    var t: nat, x: nat, y: nat, g: int := 0, 0, 0, 3;
    assert text[0..] == text && forall d: Decoded :: Prepend([], d) == d;
    while x < |text|
      invariant x <= |text| && y < 4
      invariant DecodeFrom(text, 0, 0, 3) == Prepend(out, DecodeFrom(text[x..], t, y, g))
    {
      DecodeStep(text, x, t, y, g, out);
      var c := Suffix(text[x]);
      x := x + 1;
      if c == 255 { return -1, out; }
      if c == 253 { continue; }
      if c == 254 {
        c := 0;
        g := g - 1;
      }
      t := 64 * t + c;
      y := y + 1;
      if y == 4 {
        out := out + Bytes24(t, g);
        t, y := 0, 0;
      }
    }
    ret := 0;
  }

  lemma DecodeStep(text: string, x: nat, t: nat, y: nat, g: int, out: seq<byte>)
    requires x < |text|
    ensures
      var c := Suffix(text[x]);
      var t1 := 64 * t + if c == 254 then 0 else c;
      var g1 := if c == 254 then g - 1 else g;
      Prepend(out, DecodeFrom(text[x..], t, y, g))
        == if c == 255 then Decoded(-1, out)
           else if c == 253 then Prepend(out, DecodeFrom(text[x + 1..], t, y, g))
           else if y + 1 == 4 then Prepend(out + Bytes24(t1, g1), DecodeFrom(text[x + 1..], 0, 0, g1))
           else Prepend(out, DecodeFrom(text[x + 1..], t1, y + 1, g1))
  {
    hide Bytes24, Suffix;
    assert text[x..][1..] == text[x + 1..];
  }

  // ---------- the round trip ----------

  lemma {:induction false} BytePrefix(bytes: seq<byte>, k: nat, m: nat)
    requires k < |bytes| && m <= 8
    ensures Field(bytes, 8 * k, m) == High(bytes[k], 8 - m)
    decreases m
  {
    hide *;
    FieldStep(bytes, 8 * k, m);
    if m == 0 {
      NoHighBits(bytes[k]);
    } else {
      BytePrefix(bytes, k, m - 1);
      BitOfByte(bytes, k, m - 1);
      HighStep(bytes[k], 8 - m);
    }
  }

  lemma FieldStep(bytes: seq<byte>, pos: nat, m: nat)
    ensures Field(bytes, pos, m) == if m == 0 then 0 else 2 * Field(bytes, pos, m - 1) + MsbBit(bytes, pos + m - 1)
  {}

  lemma NoHighBits(v: byte)
    ensures High(v, 8) == 0
  {
    Pow2Values();
    DivModUnique(v, 256, 0, v);
  }

  lemma BitOfByte(bytes: seq<byte>, k: nat, i: nat)
    requires k < |bytes| && i < 8
    ensures MsbBit(bytes, 8 * k + i) == BitOf(bytes[k], 7 - i)
  {
    hide BitOf;
    assert (8 * k + i) / 8 == k && (8 * k + i) % 8 == i;
  }

  lemma HighStep(v: nat, n: nat)
    ensures High(v, n) == 2 * High(v, n + 1) + BitOf(v, n)
  {
    hide Pow2;
    DivPow2Div(v, n, 1);
    assert Pow2(1) == 2 by { Pow2Values(); }
  }

  lemma ByteField(bytes: seq<byte>, k: nat)
    requires k < |bytes|
    ensures Field(bytes, 8 * k, 8) == bytes[k]
  {
    BytePrefix(bytes, k, 8);
  }

  // The bits of three bytes, and the same bits as four digits.
  lemma ThreeBytes(bytes: seq<byte>)
    requires |bytes| >= 3
    ensures Field(bytes, 0, 24) == 65536 * bytes[0] as int + 256 * bytes[1] as int + bytes[2]
  {
    hide Field, Shl;
    FieldSplit(bytes, 0, 8, 16);
    FieldSplit(bytes, 8, 8, 8);
    ByteField(bytes, 0);
    ByteField(bytes, 1);
    ByteField(bytes, 2);
    ShlValues(bytes[0], 16);
    ShlValues(bytes[1], 8);
  }

  lemma ShlValues(x: nat, n: nat)
    ensures n == 6 ==> Shl(x, n) == 64 * x
    ensures n == 8 ==> Shl(x, n) == 256 * x
    ensures n == 16 ==> Shl(x, n) == 65536 * x
    ensures n == 0 ==> Shl(x, n) == x
  {
    Pow2Values();
  }

  lemma FourDigits(bytes: seq<byte>)
    ensures Field(bytes, 0, 12) == 64 * Field(bytes, 0, 6) + Field(bytes, 6, 6)
    ensures Field(bytes, 0, 18) == 64 * Field(bytes, 0, 12) + Field(bytes, 12, 6)
    ensures Field(bytes, 0, 24) == 64 * Field(bytes, 0, 18) + Field(bytes, 18, 6)
  {
    hide Field, Shl;
    FieldSplit(bytes, 0, 6, 6);
    FieldSplit(bytes, 0, 12, 6);
    FieldSplit(bytes, 0, 18, 6);
    ShlValues(Field(bytes, 0, 6), 6);
    ShlValues(Field(bytes, 0, 12), 6);
    ShlValues(Field(bytes, 0, 18), 6);
  }

  // Dropping whole groups of three bytes drops groups of four characters.
  lemma {:induction false} FieldLater(bytes: seq<byte>, pos: nat, len: nat)
    requires |bytes| >= 3
    ensures Field(bytes, pos + 24, len) == Field(bytes[3..], pos, len)
    decreases len
  {
    if len > 0 {
      FieldLater(bytes, pos, len - 1);
      var i := pos + len - 1;
      assert (i + 24) / 8 == i / 8 + 3 && (i + 24) % 8 == i % 8;
    }
  }

  lemma DigitsLater(bytes: seq<byte>)
    requires |bytes| >= 3
    ensures |Digits(bytes)| >= 4 && Digits(bytes) == Digits(bytes)[..4] + Digits(bytes[3..])
    ensures forall j :: 0 <= j < 4 ==> Digits(bytes)[j] == DigitAt(bytes, j)
  {
    hide DigitAt;
    var d, e := Digits(bytes), Digits(bytes[3..]);
    assert |d| == |e| + 4;
    forall j: nat | j < |e| ensures d[j + 4] == e[j] { DigitLater(bytes, j); }
  }

  lemma EncodedLater(bytes: seq<byte>)
    requires |bytes| >= 3
    ensures |Encoded(bytes)| >= 4 && Encoded(bytes)[4..] == Encoded(bytes[3..])
    ensures forall j :: 0 <= j < 4 ==> Encoded(bytes)[j] == DigitAt(bytes, j)
  {
    hide DigitAt, Digits;
    DigitsLater(bytes);
    var d, e := Digits(bytes), Digits(bytes[3..]);
    assert |d| % 4 == |e| % 4;
  }

  lemma DigitLater(bytes: seq<byte>, j: nat)
    requires |bytes| >= 3
    ensures DigitAt(bytes, j + 4) == DigitAt(bytes[3..], j)
  {
    hide Field;
    FieldLater(bytes, 6 * j, 6);
  }

  // Four digits, the last of them possibly padding.
  lemma DecodeGroup(text: string, v: seq<nat>, pads: nat)
    requires |text| >= 4 && |v| == 4 && pads <= 2
    requires forall j :: 0 <= j < 4 - pads ==> Suffix(text[j]) == v[j] < 64
    requires forall j :: 4 - pads <= j < 4 ==> text[j] == '=' && v[j] == 0
    ensures DecodeFrom(text, 0, 0, 3)
      == Prepend(Bytes24(64 * (64 * (64 * v[0] + v[1]) + v[2]) + v[3], 3 - pads), DecodeFrom(text[4..], 0, 0, 3 - pads))
  {
    hide Bytes24, DecodeFrom, Suffix;
    var t2 := 64 * v[0] + v[1];
    assert text[0..] == text;
    DecodeDigit(text, 0, v[0], false, 0, 0, 3);
    DecodeDigit(text, 1, v[1], false, v[0], 1, 3);
    DecodeDigit(text, 2, v[2], pads == 2, t2, 2, 3);
    DecodeDigit(text, 3, v[3], pads >= 1, 64 * t2 + v[2], 3, if pads == 2 then 2 else 3);
  }

  lemma DecodeDigit(text: string, x: nat, v: nat, pad: bool, t: nat, y: nat, g: int)
    requires x < |text| && (if pad then text[x] == '=' && v == 0 else Suffix(text[x]) == v < 64)
    ensures var g1 := if pad then g - 1 else g;
      DecodeFrom(text[x..], t, y, g)
        == if y + 1 == 4 then Prepend(Bytes24(64 * t + v, g1), DecodeFrom(text[x + 1..], 0, 0, g1))
           else DecodeFrom(text[x + 1..], 64 * t + v, y + 1, g1)
  {
    hide Bytes24;
    assert text[x..][1..] == text[x + 1..];
  }

  // The digits of the group that the first n bytes make up.
  function GroupDigits(bytes: seq<byte>): seq<nat> {
    [Field(bytes, 0, 6), Field(bytes, 6, 6), Field(bytes, 12, 6), Field(bytes, 18, 6)]
  }

  lemma DigitDecodes(bytes: seq<byte>, j: nat)
    ensures Suffix(DigitAt(bytes, j)) == Field(bytes, 6 * j, 6) < 64
  {
    hide Field, Suffix;
    FieldBound(bytes, 6 * j, 6);
    Pow2Values();
    SuffixOfTable(Field(bytes, 6 * j, 6));
  }

  // A group of three bytes, and a last group of one or two.
  lemma DecodeFull(bytes: seq<byte>, text: string)
    requires |bytes| >= 3 && |text| >= 4 && forall j :: 0 <= j < 4 ==> text[j] == DigitAt(bytes, j)
    ensures DecodeFrom(text, 0, 0, 3) == Prepend(bytes[..3], DecodeFrom(text[4..], 0, 0, 3))
  {
    hide Field, DecodeFrom, DigitAt, Suffix;
    var v := GroupDigits(bytes);
    forall j: nat | j < 4 ensures Suffix(text[j]) == v[j] < 64 { DigitDecodes(bytes, j); }
    FourDigits(bytes);
    ThreeBytes(bytes);
    DecodeGroup(text, v, 0);
    BytesBack(bytes[0], bytes[1], bytes[2]);
  }

  lemma BytesBack(a: byte, b: byte, c: byte)
    ensures var t := 65536 * a as int + 256 * b as int + c;
      Bytes24(t, 3) == [a, b, c] && Bytes24(t, 2) == [a, b] && Bytes24(t, 1) == [a]
  {
    var t := 65536 * a as int + 256 * b as int + c;
    assert t / 65536 == a && t / 256 == 256 * a as int + b;
  }

  lemma {:induction false} FieldBeyond(bytes: seq<byte>, pos: nat, len: nat)
    requires pos >= 8 * |bytes|
    ensures Field(bytes, pos, len) == 0
    decreases len
  {
    if len > 0 { FieldBeyond(bytes, pos, len - 1); }
  }

  lemma {:induction false} FieldPadded(bytes: seq<byte>, pos: nat, len: nat)
    ensures Field(bytes, pos, len) == Field(bytes + [0, 0], pos, len)
    decreases len
  {
    if len > 0 {
      hide BitOf;
      FieldPadded(bytes, pos, len - 1);
      ZeroBit(7 - (pos + len - 1) % 8);
    }
  }

  lemma DecodeLast(bytes: seq<byte>)
    requires 1 <= |bytes| <= 2
    ensures DecodeFrom(Encoded(bytes), 0, 0, 3) == Decoded(0, bytes)
  {
    hide Field, DigitAt, Suffix;
    var n, text, v := |bytes|, Encoded(bytes), GroupDigits(bytes);
    assert |text| == 4 && text[4..] == [];
    forall j: nat | j < n + 1 ensures Suffix(text[j]) == v[j] < 64 { DigitDecodes(bytes, j); }
    forall j: nat | n + 1 <= j < 4 ensures text[j] == '=' && v[j] == 0 { FieldBeyond(bytes, 6 * j, 6); }
    FourDigits(bytes);
    FieldPadded(bytes, 0, 24);
    ThreeBytes(bytes + [0, 0]);
    DecodeGroup(text, v, 3 - n);
    BytesBack(bytes[0], if n == 2 then bytes[1] else 0, 0);
  }

  // Decoding an encoded text gives the bytes back.
  lemma {:induction false} DecodeEncoded(bytes: seq<byte>)
    ensures DecodeFrom(Encoded(bytes), 0, 0, 3) == Decoded(0, bytes)
    decreases |bytes|
  {
    if bytes == [] {
      assert Encoded(bytes) == [];
    } else if |bytes| < 3 {
      DecodeLast(bytes);
    } else {
      hide Encoded, DigitAt, DecodeFrom;
      EncodedLater(bytes);
      DecodeFull(bytes, Encoded(bytes));
      DecodeEncoded(bytes[3..]);
      assert bytes == bytes[..3] + bytes[3..];
    }
  }

  method EncodeThenDecode(bytes: seq<byte>) returns (ret: int, out: seq<byte>)
    ensures bytes != [] ==> ret == 0 && out == bytes
    ensures bytes == [] ==> ret == -1 && out == []
  {
    hide Encoded, DecodeFrom;
    var str := EncBase64(bytes);
    EncodedLength(bytes);
    DecodeEncoded(bytes);
    ret, out := DecBase64(str, |str|);
  }
}
