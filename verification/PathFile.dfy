/** The cleaning path file: point types hidden in the low bits of the coordinates. */
module PathFile {
  import opened Bytes
  import opened Coordinates
  import opened Records

  // CorePathType values that have a code of their own; every other value is plain cleaning.
  const NAVI_PATH: int8 := 2
  const CHARGE_PATH: int8 := 3
  const MOP_PATH: int8 := 4

  const HEADER_BYTES := 13

  datatype PathClass = Clean | Navi | Charge | Mop

  function ClassOf(pointType: int8): PathClass {
    if pointType == NAVI_PATH then Navi
    else if pointType == CHARGE_PATH then Charge
    else if pointType == MOP_PATH then Mop
    else Clean
  }

  type Even = w: int | -0x8000 <= w < 0x8000 && w % 2 == 0

  // `& ~1` on a two's complement word, negative words included.
  function ClearBit(w: int16): Even {
    w - w % 2
  }

  // What a path point becomes on the wire.
  datatype Mark = Mark(pathClass: PathClass, x: Even, y: Even)

  function MarkOf(res: Resolution, p: Point, pointType: int8): Mark {
    MarkScaled(MarsToTuya(res, p.x), MarsToTuya(res, p.y), pointType)
  }

  function MarkScaled(x: int, y: int, pointType: int8): Mark {
    Mark(ClassOf(pointType), ClearBit(ToInt16(x)), ClearBit(ToInt16(y)))
  }

  function XBit(c: PathClass): nat {
    if c == Charge || c == Mop then 1 else 0
  }

  function YBit(c: PathClass): nat {
    if c == Navi || c == Mop then 1 else 0
  }

  function XWord(m: Mark): int16 {
    m.x + XBit(m.pathClass)
  }

  function YWord(m: Mark): int16 {
    m.y + YBit(m.pathClass)
  }

  function EncodeMark(m: Mark): seq<byte> {
    ToNb16(XWord(m)) + ToNb16(YWord(m))
  }

  // The class and the coordinates in a pair of words.
  function FromWords(x: int16, y: int16): Mark {
    Mark(if x % 2 == 0 then (if y % 2 == 0 then Clean else Navi) else if y % 2 == 0 then Charge else Mop,
         ClearBit(x), ClearBit(y))
  }

  function DecodeMark(data: seq<byte>, pos: nat): Read<Mark> {
    if pos + 4 > |data| then Overrun else
    Read(FromWords(NbTo16(data[pos], data[pos + 1]), NbTo16(data[pos + 2], data[pos + 3])), pos + 4)
  }

  function MarkEncoder(): Encoder<Mark> {
    m => EncodeMark(m)
  }

  function MarkDecoder(): Decoder<Mark> {
    (data: seq<byte>, pos: nat) => DecodeMark(data, pos)
  }

  /** A mark is its x word and then its y word, and the lowest bits of the two tell the type of the point: 0 and 1
      for navigation (2), 1 and 0 for charging (3), 1 and 1 for mopping (4), 0 and 0 for anything else. */
  lemma LowBits(res: Resolution, p: Point, pointType: int8)
    ensures var e := EncodeMark(MarkOf(res, p, pointType));
            && |e| == 4
            && var x: int, y: int := NbTo16(e[0], e[1]), NbTo16(e[2], e[3]);
               && x % 2 == (if pointType == 3 || pointType == 4 then 1 else 0)
               && y % 2 == (if pointType == 2 || pointType == 4 then 1 else 0)
               && x / 2 == ToInt16(MarsToTuya(res, p.x)) / 2 && y / 2 == ToInt16(MarsToTuya(res, p.y)) / 2
  {
    var m := MarkOf(res, p, pointType);
    MarkWords(m);
    ScaledBits(MarsToTuya(res, p.x), MarsToTuya(res, p.y), pointType);
  }

  lemma MarkWords(m: Mark)
    ensures var e := EncodeMark(m);
            |e| == 4 && NbTo16(e[0], e[1]) == XWord(m) && NbTo16(e[2], e[3]) == YWord(m)
  {
    NetworkOrder16(XWord(m), 0, 0);
    NetworkOrder16(YWord(m), 0, 0);
    ToInt16Exact(XWord(m));
    ToInt16Exact(YWord(m));
  }

  lemma ScaledBits(x: int, y: int, pointType: int8)
    ensures var m := MarkScaled(x, y, pointType);
            && XWord(m) % 2 == (if pointType == 3 || pointType == 4 then 1 else 0)
            && YWord(m) % 2 == (if pointType == 2 || pointType == 4 then 1 else 0)
            && XWord(m) / 2 == ToInt16(x) / 2 && YWord(m) / 2 == ToInt16(y) / 2
  {
    LowBitReplaced(ToInt16(x), if pointType == 3 || pointType == 4 then 1 else 0);
    LowBitReplaced(ToInt16(y), if pointType == 2 || pointType == 4 then 1 else 0);
  }

  lemma LowBitReplaced(w: int16, bit: nat)
    requires bit <= 1
    ensures (ClearBit(w) + bit) % 2 == bit && (ClearBit(w) + bit) / 2 == w / 2
  {}

  lemma MarkInvertsAt(data: seq<byte>, pos: nat, m: Mark)
    requires At(data, pos, EncodeMark(m))
    ensures DecodeMark(data, pos) == Read(m, pos + 4)
  {
    var x, y := XWord(m), YWord(m);
    AtConcat(data, pos, ToNb16(x), ToNb16(y));
    Word16At(data, pos, x);
    Word16At(data, pos + 2, y);
    ToInt16Exact(x);
    ToInt16Exact(y);
    DecodeWords(m, x, y);
  }

  lemma DecodeWords(m: Mark, x: int16, y: int16)
    requires x == XWord(m) && y == YWord(m)
    ensures FromWords(x, y) == m
  {
    BitOnEven(m.x, XBit(m.pathClass));
    BitOnEven(m.y, YBit(m.pathClass));
  }

  lemma BitOnEven(e: Even, bit: nat)
    requires bit <= 1
    ensures var w := (e as int) + bit; -0x8000 <= w < 0x8000 && w % 2 == bit && ClearBit(w) == e
  {}

  function AnyMark(): Mark -> bool {
    m => true
  }

  function SameMark(): Mark -> Mark {
    m => m
  }

  lemma MarkInverts()
    ensures Inverts(MarkEncoder(), MarkDecoder(), AnyMark(), SameMark())
  {
    forall data: seq<byte>, pos: nat, m: Mark
      ensures InvertsAt(MarkEncoder(), MarkDecoder(), AnyMark(), SameMark(), data, pos, m)
    {
      if At(data, pos, EncodeMark(m)) {
        MarkInvertsAt(data, pos, m);
      }
    }
  }

  /** A decoded coordinate is the scaled one or one less, negatives included, exactly when that fits 16 bits. */
  lemma MarkWithinOneIff(res: Resolution, p: Point, pointType: int8)
    ensures var m := MarkOf(res, p, pointType);
            && (0 <= MarsToTuya(res, p.x) - m.x <= 1 <==> FitsInt16(MarsToTuya(res, p.x)))
            && (0 <= MarsToTuya(res, p.y) - m.y <= 1 <==> FitsInt16(MarsToTuya(res, p.y)))
  {
    WrapWithinOne(MarsToTuya(res, p.x));
    WrapWithinOne(MarsToTuya(res, p.y));
  }

  lemma WrapWithinOne(v: int)
    ensures 0 <= v - ClearBit(ToInt16(v)) <= 1 <==> FitsInt16(v)
  {
    var q := (v - ToInt16(v)) / 0x1_0000;
    assert v - ToInt16(v) == q * 0x1_0000;
  }

  function Marks(res: Resolution, points: seq<Point>, pointType: seq<int8>): (marks: seq<Mark>)
    requires |points| <= |pointType|
    ensures |marks| == |points|
  {
    seq(|points|, i requires 0 <= i < |points| => MarkOf(res, points[i], pointType[i]))
  }

  // The bytes SaveTuyaPath writes for the header fields that ToTuyaPath sets: version, path id, init flag,
  // type, count, direction and compressed length, all big-endian.
  function HeaderBytes(pathId: int, direction: int, count: nat): (h: seq<byte>)
    ensures |h| == HEADER_BYTES
  {
    [0, 0, ToByte(pathId), 1, 2,
     ToByte(count / 0x100_0000), ToByte(count / 0x1_0000), ToByte(count / 0x100), ToByte(count),
     ToByte(direction / 0x100), ToByte(direction), 0, 0]
  }

  function FileBytes(pathId: int, direction: int, marks: seq<Mark>): seq<byte> {
    HeaderBytes(pathId, direction, |marks|) + EncodeAll(MarkEncoder(), marks)
  }

  datatype Path = Path(pathId: int, direction: int, marks: seq<Mark>)

  // A reader that knows only the layout.
  function ReadFile(data: seq<byte>): Read<Path> {
    if |data| < HEADER_BYTES then Overrun else
    match DecodeN(MarkDecoder(), data, HEADER_BYTES, NbTo32(data[5..9]))
    case Overrun => Overrun
    case Read(marks, next) => Read(Path(data[2], (data[9] as int) * 0x100 + data[10], marks), next)
  }

  lemma HeaderFields(pathId: int, direction: int, count: nat, rest: seq<byte>)
    requires 0 <= direction < 0x1_0000 && count < 0x1_0000_0000
    ensures var data := HeaderBytes(pathId, direction, count) + rest;
            && |data| == HEADER_BYTES + |rest|
            && data[0] == 0 && data[1] == 0 && data[3] == 1 && data[4] == 2 && data[11] == 0 && data[12] == 0
            && data[2] == ToByte(pathId)
            && (data[9] as int) * 0x100 + data[10] == direction
            && NbTo32(data[5..9]) == count
            && At(data, HEADER_BYTES, rest)
  {
    var head := HeaderBytes(pathId, direction, count);
    assert (head + rest)[5..9] == head[5..9];
    HeaderCount(pathId, direction, count);
  }

  lemma HeaderCount(pathId: int, direction: int, count: nat)
    requires count < 0x1_0000_0000
    ensures NbTo32(HeaderBytes(pathId, direction, count)[5..9]) == count
  {
    assert HeaderBytes(pathId, direction, count)[5..9] == ToNb32(count);
    UnsignedWord(count);
  }

  lemma ReadEncodedAt(file: seq<byte>, marks: seq<Mark>)
    requires At(file, HEADER_BYTES, EncodeAll(MarkEncoder(), marks)) && NbTo32(file[5..9]) == |marks|
    ensures ReadFile(file) ==
            Read(Path(file[2], (file[9] as int) * 0x100 + file[10], marks), HEADER_BYTES + 4 * |marks|)
    ensures |EncodeAll(MarkEncoder(), marks)| == 4 * |marks|
  {
    MarkInverts();
    DecodeEncoded(MarkEncoder(), MarkDecoder(), AnyMark(), SameMark(), file, HEADER_BYTES, marks);
    assert MapAll(SameMark(), marks) == marks;
    EncodedLength(MarkEncoder(), marks, 4);
  }

  /** Every path file reads back: id, direction, and each point's class and marked coordinates, in 13 + 4n bytes. */
  lemma ReadInvertsWrite(pathId: int, direction: int, marks: seq<Mark>)
    requires 0 <= direction < 0x1_0000 && |marks| < 0x1_0000_0000
    ensures var file := FileBytes(pathId, direction, marks);
            && ReadFile(file) == Read(Path(ToByte(pathId), direction, marks), |file|)
            && |file| == 13 + 4 * |marks|
            && file[0] == 0 && file[1] == 0 && file[2] == ToByte(pathId) && file[3] == 1 && file[4] == 2
            && file[11] == 0 && file[12] == 0
  {
    HeaderFields(pathId, direction, |marks|, EncodeAll(MarkEncoder(), marks));
    ReadEncodedAt(FileBytes(pathId, direction, marks), marks);
  }

  /** Whole files, every list of points: the saved file reads back with each point's class exact and each
      coordinate equal to the scaled one or one less, precisely for the coordinates that fit 16 bits. */
  lemma PathKeepsTypeAndPosition(
      res: Resolution, pathId: int, direction: int, points: seq<Point>, pointType: seq<int8>, i: nat)
    requires 0 <= direction < 0x1_0000 && i < |points| <= |pointType| && |points| < 0x1_0000_0000
    ensures var file := FileBytes(pathId, direction, Marks(res, points, pointType));
            && |file| == 13 + 4 * |points|
            && ReadFile(file).Read? && |ReadFile(file).value.marks| == |points|
            && var m := ReadFile(file).value.marks[i];
               && m.pathClass == ClassOf(pointType[i])
               && (0 <= MarsToTuya(res, points[i].x) - m.x <= 1 <==> FitsInt16(MarsToTuya(res, points[i].x)))
               && (0 <= MarsToTuya(res, points[i].y) - m.y <= 1 <==> FitsInt16(MarsToTuya(res, points[i].y)))
  {
    ReadInvertsWrite(pathId, direction, Marks(res, points, pointType));
    MarkWithinOneIff(res, points[i], pointType[i]);
  }

  /** Mark i lies at byte 13 + 4 * i of the file. */
  lemma MarkLayout(pathId: int, direction: int, marks: seq<Mark>, i: nat)
    requires i < |marks|
    ensures At(FileBytes(pathId, direction, marks), 13 + 4 * i, EncodeMark(marks[i]))
  {
    var head, body := HeaderBytes(pathId, direction, |marks|), EncodeAll(MarkEncoder(), marks);
    EncodedLength(MarkEncoder(), marks[..i], 4);
    EncodedAt(MarkEncoder(), marks, i);
    BodyAt(head, body);
    AtInside(head + body, 13, body, 4 * i, MarkEncoder()(marks[i]));
  }

  lemma BodyAt(head: seq<byte>, body: seq<byte>)
    requires |head| == 13
    ensures At(head + body, 13, body)
  {}

  // One turn of the point loop: two words of the vector are set in place.
  method MarkPoint(words: array<int16>, i: nat, x: int, y: int, pointType: int8)
    requires 2 * i + 1 < words.Length
    modifies words
    ensures words[2 * i] == XWord(MarkScaled(x, y, pointType))
    ensures words[2 * i + 1] == YWord(MarkScaled(x, y, pointType))
    ensures forall k :: 0 <= k < words.Length && k != 2 * i && k != 2 * i + 1 ==> words[k] == old(words[k])
  {
    words[2 * i] := ToInt16(x);
    words[2 * i + 1] := ToInt16(y);
    words[2 * i] := ClearBit(words[2 * i]);
    words[2 * i + 1] := ClearBit(words[2 * i + 1]);
    if pointType == NAVI_PATH {
      words[2 * i + 1] := words[2 * i + 1] + 1;
    } else if pointType == CHARGE_PATH {
      words[2 * i] := words[2 * i] + 1;
    } else if pointType == MOP_PATH {
      words[2 * i] := words[2 * i] + 1;
      words[2 * i + 1] := words[2 * i + 1] + 1;
    }
  }

  ghost predicate Holds(words: seq<int16>, marks: seq<Mark>) {
    && |words| == 2 * |marks|
    && forall i :: 0 <= i < |marks| ==> words[2 * i] == XWord(marks[i]) && words[2 * i + 1] == YWord(marks[i])
  }

  // The point loop of ToTuyaPath over its vector of 16-bit words.
  method MarkPoints(res: Resolution, points: seq<Point>, pointType: seq<int8>) returns (words: array<int16>)
    requires |points| <= |pointType|
    ensures fresh(words) && Holds(words[..], Marks(res, points, pointType))
  {
    words := new int16[2 * |points|];
    ghost var marks := Marks(res, points, pointType);
    for i := 0 to |points|
      invariant forall k :: 0 <= k < i ==> words[2 * k] == XWord(marks[k]) && words[2 * k + 1] == YWord(marks[k])
    {
      assert marks[i] == MarkOf(res, points[i], pointType[i]);
      MarkPoint(words, i, MarsToTuya(res, points[i].x), MarsToTuya(res, points[i].y), pointType[i]);
    }
  }

  // The big-endian bytes of the words, as the vector holds them after htons.
  method AppendWords(prefix: seq<byte>, words: array<int16>, ghost marks: seq<Mark>) returns (file: seq<byte>)
    requires Holds(words[..], marks)
    ensures file == prefix + EncodeAll(MarkEncoder(), marks)
  {
    file := prefix;
    ghost var enc := MarkEncoder();
    for i := 0 to words.Length / 2
      invariant file + EncodeAll(enc, marks[i..]) == prefix + EncodeAll(enc, marks)
    {
      assert words[..][2 * i] == XWord(marks[i]) && words[..][2 * i + 1] == YWord(marks[i]);
      EncodeNext(enc, marks, i, file, EncodeMark(marks[i]));
      Associative(file, ToNb16(words[2 * i]), ToNb16(words[2 * i + 1]));
      file := file + ToNb16(words[2 * i]) + ToNb16(words[2 * i + 1]);
    }
    assert marks[|marks|..] == [] && file + [] == file;
  }

  // The header fields as ToTuyaPath sets them, written one by one in network order.
  method WriteHeader(pathId: int, direction: int, count: nat) returns (file: seq<byte>)
    ensures file == HeaderBytes(pathId, direction, count)
  {
    var version: byte, initFlag: byte, pathType: byte, lz4len := 0x00, 0x01, 0x2, 0;
    file := [version];
    file := file + ToNb16(ToByte(pathId));
    file := file + [initFlag];
    file := file + [pathType];
    file := file + ToNb32(count);
    file := file + ToNb16(direction);
    file := file + ToNb16(lz4len);
    Nb16Bytes(ToByte(pathId));
    Nb16Bytes(direction);
    Nb16Bytes(lz4len);
  }

  // ToTuyaPath followed by SaveTuyaPath: the bytes of the saved file.
  method WritePath(res: Resolution, pathId: int, direction: int, points: seq<Point>, pointType: seq<int8>)
    returns (file: seq<byte>)
    requires |points| <= |pointType|
    ensures file == FileBytes(pathId, direction, Marks(res, points, pointType))
  {
    var words := MarkPoints(res, points, pointType);
    file := WriteHeader(pathId, direction, |points|);
    file := AppendWords(file, words, Marks(res, points, pointType));
  }
}
