/** Bytes and big-endian words, with the truncations of C++ integer conversion written out. */
module Bytes {
  type byte = b: int | 0 <= b < 0x100
  type int8 = p: int | -0x80 <= p < 0x80
  type int16 = w: int | -0x8000 <= w < 0x8000

  // Conversion of an int to uint8_t.
  function ToByte(v: int): byte {
    v % 0x100
  }

  // Conversion of an int to int16_t (two's complement).
  function ToInt16(v: int): int16 {
    var m := v % 0x1_0000;
    if m < 0x8000 then m else m - 0x1_0000
  }

  lemma ByteIsCongruent(v: int)
    ensures (ToByte(v) - v) % 0x100 == 0
  {
    assert v == v / 0x100 * 0x100 + ToByte(v);
  }

  predicate FitsInt16(v: int) {
    -0x8000 <= v < 0x8000
  }

  // tonb16: the argument is first converted to int16_t; `/` floors, as `>>` does on negative values.
  function ToNb16(v: int): (bytes: seq<byte>)
    ensures |bytes| == 2
  {
    var d := ToInt16(v);
    [ToByte(d / 0x100), ToByte(d)]
  }

  // nbto16
  function NbTo16(hi: byte, lo: byte): int16 {
    ToInt16(hi * 0x100 + lo)
  }

  // tonb32 and htonl on an unsigned word.
  function ToNb32(v: int): (bytes: seq<byte>)
    ensures |bytes| == 4
  {
    [ToByte(v / 0x100_0000), ToByte(v / 0x1_0000), ToByte(v / 0x100), ToByte(v)]
  }

  function NbTo32(b: seq<byte>): nat
    requires |b| == 4
  {
    (b[0] as int) * 0x100_0000 + (b[1] as int) * 0x1_0000 + (b[2] as int) * 0x100 + b[3]
  }

  // Conversion of an int to int32_t.
  function ToInt32(v: int): int {
    var m := v % 0x1_0000_0000;
    if m < 0x8000_0000 then m else m - 0x1_0000_0000
  }

  // nbto32, whose result is signed.
  function NbToInt32(b: seq<byte>): int
    requires |b| == 4
  {
    ToInt32(NbTo32(b))
  }

  /** The most significant byte comes first, and a word stands for every int with the same low 16 bits. */
  lemma BigEndian16(v: int, hi: byte, lo: byte)
    ensures var b := ToNb16(v); |b| == 2 && ((b[0] as int) * 0x100 + b[1] - v) % 0x1_0000 == 0
    ensures -0x8000 <= NbTo16(hi, lo) <= 0x7FFF && ((hi as int) * 0x100 + lo - NbTo16(hi, lo)) % 0x1_0000 == 0
  {
    var d: int := ToInt16(v);
    var h, l := d / 0x100, d % 0x100;
    assert d == h * 0x100 + l && -0x80 <= h < 0x80;
    assert ToByte(h) == if h >= 0 then h else h + 0x100;
  }

  /** The same for 32 bits. */
  lemma BigEndian32(v: int, b: seq<byte>)
    requires |b| == 4
    ensures var w := ToNb32(v);
            ((w[0] as int) * 0x100_0000 + (w[1] as int) * 0x1_0000 + (w[2] as int) * 0x100 + w[3] - v)
            % 0x1_0000_0000 == 0
    ensures -0x8000_0000 <= NbToInt32(b) <= 0x7FFF_FFFF
    ensures ((b[0] as int) * 0x100_0000 + (b[1] as int) * 0x1_0000 + (b[2] as int) * 0x100 + b[3] - NbToInt32(b))
            % 0x1_0000_0000 == 0
  {
    UnsignedWord(v);
    SameWord(v);
    SameWord(NbTo32(b));
  }

  lemma SameWord(v: int)
    ensures (v % 0x1_0000_0000 - v) % 0x1_0000_0000 == 0
    ensures (v - ToInt32(v)) % 0x1_0000_0000 == 0
  {
    var q := v / 0x1_0000_0000;
    assert v == q * 0x1_0000_0000 + v % 0x1_0000_0000;
  }

  lemma ToInt16Exact(v: int)
    ensures FitsInt16(v) <==> ToInt16(v) == v
  {}

  /** What the two byte-order helpers undo of each other: everything on bytes, the int16 part of an int. */
  lemma NetworkOrder16(v: int, hi: byte, lo: byte)
    ensures NbTo16(ToNb16(v)[0], ToNb16(v)[1]) == ToInt16(v)
    ensures ToNb16(NbTo16(hi, lo)) == [hi, lo]
  {
    WordFromBytes(ToInt16(v));
    BytesFromWord(hi, lo);
  }

  lemma WordFromBytes(d: int16)
    ensures NbTo16(ToByte(d / 0x100), ToByte(d)) == d
  {
    var hi, lo := d / 0x100, d % 0x100;
    assert d == hi * 0x100 + lo && -0x80 <= hi < 0x80;
    assert ToByte(hi) == if d >= 0 then hi else hi + 0x100;
  }

  lemma BytesFromWord(hi: byte, lo: byte)
    ensures ToNb16(NbTo16(hi, lo)) == [hi, lo]
  {
    var w: int := NbTo16(hi, lo);
    var h: int := hi;
    var top := if h < 0x80 then h else h - 0x100;
    assert w == top * 0x100 + lo;
    assert ToInt16(w) == w;
    assert w / 0x100 == top && w % 0x100 == lo;
  }

  // The four bytes hold the low 32 bits of any int.
  lemma UnsignedWord(v: int)
    ensures NbTo32(ToNb32(v)) == v % 0x1_0000_0000
  {
    var a, b, c, d := v / 0x100, v / 0x1_0000, v / 0x100_0000, v / 0x1_0000_0000;
    assert b == a / 0x100 && c == b / 0x100 && d == c / 0x100;
    assert v % 0x1_0000_0000 == v - d * 0x1_0000_0000;
  }

  lemma LastByte(h: int, l: byte)
    ensures (h * 0x100 + l) / 0x100 == h && ToByte(h * 0x100 + l) == l
  {}

  lemma Shifts(v: int)
    ensures v / 0x1_0000 == v / 0x100 / 0x100 && v / 0x100_0000 == v / 0x100 / 0x100 / 0x100
  {}

  lemma BytesFromWord32(b: seq<byte>, k: int)
    requires |b| == 4
    ensures ToNb32(NbTo32(b) + k * 0x1_0000_0000) == b
  {
    var h0: int := k * 0x100 + b[0];
    var h1 := h0 * 0x100 + b[1];
    var h2 := h1 * 0x100 + b[2];
    LastByte(k, b[0]);
    LastByte(h0, b[1]);
    LastByte(h1, b[2]);
    LastByte(h2, b[3]);
    Shifts(h2 * 0x100 + b[3]);
    assert NbTo32(b) + k * 0x1_0000_0000 == h2 * 0x100 + b[3];
  }

  /** What the 32-bit helpers undo of each other: everything on bytes, the int32 part of an int. */
  lemma NetworkOrder32(v: int, b: seq<byte>)
    requires |b| == 4
    ensures NbToInt32(ToNb32(v)) == ToInt32(v)
    ensures ToNb32(NbToInt32(b)) == b
  {
    UnsignedWord(v);
    var w: int := NbTo32(b);
    var k := if w < 0x8000_0000 then 0 else -1;
    assert NbToInt32(b) == w + k * 0x1_0000_0000;
    BytesFromWord32(b, k);
  }

  lemma SameByte(h: int, k: int)
    ensures ToByte(h + k * 0x100) == ToByte(h)
  {}

  // The bytes of a word need no wrapping first.
  lemma Nb16Bytes(v: int)
    ensures ToNb16(v) == [ToByte(v / 0x100), ToByte(v)]
  {
    var d: int := ToInt16(v);
    var k := (v - d) / 0x1_0000;
    var h, l := d / 0x100, d % 0x100;
    assert v == d + k * 0x1_0000 == (h + k * 0x100) * 0x100 + l;
    LastByte(h, l);
    LastByte(h + k * 0x100, l);
    SameByte(h, k);
  }

  // `At(data, pos, bytes)`: the buffer holds `bytes` from offset `pos`.
  predicate At(data: seq<byte>, pos: nat, bytes: seq<byte>) {
    pos + |bytes| <= |data| && data[pos..pos + |bytes|] == bytes
  }

  lemma AtConcat(data: seq<byte>, pos: nat, a: seq<byte>, b: seq<byte>)
    ensures At(data, pos, a + b) <==> At(data, pos, a) && At(data, pos + |a|, b)
  {
    if At(data, pos, a + b) {
      assert a == (a + b)[..|a|] == data[pos..pos + |a|];
      assert b == (a + b)[|a|..];
    }
    if At(data, pos, a) && At(data, pos + |a|, b) {
      assert data[pos..pos + |a + b|] == data[pos..pos + |a|] + data[pos + |a|..pos + |a| + |b|];
    }
  }

  lemma AtInside(data: seq<byte>, pos: nat, outer: seq<byte>, at: nat, inner: seq<byte>)
    requires At(data, pos, outer) && At(outer, at, inner)
    ensures At(data, pos + at, inner)
  {
    forall k | 0 <= k < |inner|
      ensures data[pos + at + k] == inner[k]
    {
      assert data[pos..pos + |outer|][at + k] == outer[at + k];
      assert outer[at..at + |inner|][k] == inner[k];
    }
  }

  lemma AtCons(data: seq<byte>, pos: nat, b: byte, s: seq<byte>)
    ensures At(data, pos, [b] + s) <==> pos < |data| && data[pos] == b && At(data, pos + 1, s)
  {
    AtConcat(data, pos, [b], s);
    assert pos < |data| ==> data[pos..pos + 1] == [data[pos]];
  }

  lemma Word16At(data: seq<byte>, pos: nat, v: int)
    requires At(data, pos, ToNb16(v))
    ensures NbTo16(data[pos], data[pos + 1]) == ToInt16(v)
  {
    var word := data[pos..pos + 2];
    assert word[0] == data[pos] && word[1] == data[pos + 1];
    NetworkOrder16(v, 0, 0);
  }

  lemma Associative(a: seq<byte>, b: seq<byte>, c: seq<byte>)
    ensures (a + b) + c == a + (b + c)
  {}
}
