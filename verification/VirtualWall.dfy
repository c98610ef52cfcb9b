/** Virtual walls: request 0x12, report frame 0x13, and the same frame inside clean records. */
module VirtualWall {
  import opened Bytes
  import opened Coordinates
  import opened Records
  import opened Frames
  import opened Shapes

  const MAX_WALLS := 10
  const WALL_BYTES := 8

  datatype Segment = Segment(begin: Point, end: Point)

  function EncodeWall(res: Resolution, w: Segment): seq<byte> {
    EncodeVertex(res, w.begin) + EncodeVertex(res, w.end)
  }

  function DecodeWall(res: Resolution, data: seq<byte>, pos: nat): Read<Segment> {
    match DecodeVertex(res, data, pos)
    case Overrun => Overrun
    case Read(begin, next) =>
      match DecodeVertex(res, data, next)
      case Overrun => Overrun
      case Read(end, last) => Read(Segment(begin, end), last)
  }

  function WallEncoder(res: Resolution): Encoder<Segment> {
    w => EncodeWall(res, w)
  }

  function WallDecoder(res: Resolution): Decoder<Segment> {
    (data: seq<byte>, pos: nat) => DecodeWall(res, data, pos)
  }

  function SnapWall(res: Resolution): Segment -> Segment {
    (w: Segment) => Segment(SnapPoint(res, w.begin), SnapPoint(res, w.end))
  }

  function AnyWall(): Segment -> bool {
    w => true
  }

  lemma WallInvertsAt(res: Resolution, data: seq<byte>, pos: nat, w: Segment)
    ensures InvertsAt(WallEncoder(res), WallDecoder(res), AnyWall(), SnapWall(res), data, pos, w)
  {
    if At(data, pos, EncodeWall(res, w)) {
      AtConcat(data, pos, EncodeVertex(res, w.begin), EncodeVertex(res, w.end));
      VertexInvertsAt(res, data, pos, w.begin);
      VertexInvertsAt(res, data, pos + 4, w.end);
    }
  }

  lemma WallInverts(res: Resolution)
    ensures Inverts(WallEncoder(res), WallDecoder(res), AnyWall(), SnapWall(res))
  {
    forall data: seq<byte>, pos: nat, w: Segment {
      WallInvertsAt(res, data, pos, w);
    }
  }

  lemma WallReproduces(res: Resolution)
    ensures Reproduces(WallEncoder(res), WallDecoder(res))
  {
    VertexReproduces(res);
    forall data: seq<byte>, pos: nat | DecodeWall(res, data, pos).Read?
      ensures At(data, pos, EncodeWall(res, DecodeWall(res, data, pos).value))
    {
      var w := DecodeWall(res, data, pos).value;
      assert VertexDecoder(res)(data, pos).Read? && VertexDecoder(res)(data, pos + 4).Read?;
      AtConcat(data, pos, EncodeVertex(res, w.begin), EncodeVertex(res, w.end));
    }
  }

  // More than ten walls are reported as none.
  function Clamp(count: int): int {
    if count > MAX_WALLS then 0 else count
  }

  function Envelope(cmd: byte, version: int, count: int, body: seq<byte>): seq<byte> {
    if version == 0 then Seal(AA_BODY, [0xAA, 0, 0, cmd, ToByte(count)] + body) else [0xAA, 0, 0, cmd]
  }

  // ToVirtualWallData as a function; only version 0 has a payload.
  function WallFrame(res: Resolution, cmd: byte, version: int, count: int, walls: seq<Segment>): seq<byte> {
    Envelope(cmd, version, Clamp(count), EncodeAll(WallEncoder(res), First(Clamp(count), walls)))
  }

  // case 0x12
  function Parse(res: Resolution, data: seq<byte>): Read<seq<Segment>> {
    if |data| <= 4 then Overrun else DecodeN(WallDecoder(res), data, 5, data[4])
  }

  lemma BodyLength(res: Resolution, walls: seq<Segment>)
    ensures |EncodeAll(WallEncoder(res), walls)| == WALL_BYTES * |walls|
  {
    EncodedLength(WallEncoder(res), walls, WALL_BYTES);
  }

  /** For every message: the length byte is exact, at most 82, and the whole frame takes four bytes more. */
  lemma LengthAlwaysExact(res: Resolution, cmd: byte, version: int, count: int, walls: seq<Segment>)
    ensures var frame := WallFrame(res, cmd, version, count, walls);
            |frame| - 4 == frame[2] && frame[2] <= 82
  {
    var sent := First(Clamp(count), walls);
    BodyLength(res, sent);
    EnvelopeLength(cmd, version, Clamp(count), EncodeAll(WallEncoder(res), sent));
  }

  lemma EnvelopeLength(cmd: byte, version: int, count: int, body: seq<byte>)
    requires |body| <= 80
    ensures var frame := Envelope(cmd, version, count, body);
            |frame| - 4 == frame[2] && frame[2] <= 82
  {
    if version == 0 {
      LengthExact(AA_BODY, [0xAA, 0, 0, cmd, ToByte(count)] + body);
    }
  }

  lemma HeaderOf(res: Resolution, cmd: byte, version: int, count: int, walls: seq<Segment>)
    ensures var f := WallFrame(res, cmd, version, count, walls); |f| >= 4 && f[0] == 0xAA && f[3] == cmd
  {
    if version == 0 {
      var body := EncodeAll(WallEncoder(res), First(Clamp(count), walls));
      SealKeeps(AA_BODY, [0xAA, 0, 0, cmd, ToByte(Clamp(count))], body);
    }
  }

  /** More than ten walls are reported as none at all, and other versions as a bare header. */
  lemma TooManyWalls(res: Resolution, cmd: byte, version: int, count: int, walls: seq<Segment>)
    ensures count > 10 ==> Clamp(count) == 0 && WallFrame(res, cmd, 0, count, walls) == [0xAA, 0, 2, cmd, 0, cmd]
    ensures count <= 10 ==> Clamp(count) == count
    ensures version != 0 ==> WallFrame(res, cmd, version, count, walls) == [0xAA, 0, 0, cmd]
  {
    if count > 10 {
      var raw := [0xAA, 0, 0, cmd, 0];
      assert First(0, walls) == [] && raw + [] == raw;
      assert Total(raw, 3, 5) == Total(raw, 3, 4) + raw[4] && Total(raw, 3, 4) == Total(raw, 3, 3) + raw[3];
      assert WallFrame(res, cmd, 0, count, walls) == Seal(AA_BODY, raw);
    }
  }

  /** Up to ten walls lie in the frame in order: begin x, begin y, end x, end y. */
  lemma WallLayout(res: Resolution, cmd: byte, count: int, walls: seq<Segment>, j: nat)
    requires j < count <= 10 && count <= |walls|
    ensures var frame := WallFrame(res, cmd, 0, count, walls);
            && |frame| == 6 + 8 * count && frame[0] == 0xAA && frame[3] == cmd && frame[4] == count
            && At(frame, 5 + 8 * j, EncodeVertex(res, walls[j].begin))
            && At(frame, 9 + 8 * j, EncodeVertex(res, walls[j].end))
  {
    var enc, sent := WallEncoder(res), First(count, walls);
    var frame := WallFrame(res, cmd, 0, count, walls);
    assert sent[j] == walls[j] && |sent| == count;
    BodyLength(res, sent);
    BodyLength(res, sent[..j]);
    EncodedAt(enc, sent, j);
    EnvelopeParts(cmd, count, EncodeAll(enc, sent));
    AtInside(frame, 5, EncodeAll(enc, sent), 8 * j, EncodeWall(res, walls[j]));
    AtConcat(frame, 5 + 8 * j, EncodeVertex(res, walls[j].begin), EncodeVertex(res, walls[j].end));
  }

  /** Round trip: the walls come back, snapped, exactly when there are at most ten of them. */
  lemma ParseInvertsEncodeIff(res: Resolution, cmd: byte, walls: seq<Segment>)
    ensures var frame := WallFrame(res, cmd, 0, |walls|, walls);
            Parse(res, frame) == Read(MapAll(SnapWall(res), walls), |frame| - 1) <==> |walls| <= 10
  {
    var sent := First(Clamp(|walls|), walls);
    var frame := WallFrame(res, cmd, 0, |walls|, walls);
    EnvelopeParts(cmd, |sent|, EncodeAll(WallEncoder(res), sent));
    ParseEncodedAt(res, frame, sent);
    if |walls| <= MAX_WALLS {
      assert sent == walls;
    }
  }

  lemma EnvelopeParts(cmd: byte, count: byte, body: seq<byte>)
    ensures var frame := Envelope(cmd, 0, count, body);
            |frame| == 5 + |body| + 1 && At(frame, 5, body) && frame[0] == 0xAA && frame[3] == cmd && frame[4] == count
  {
    SealKeeps(AA_BODY, [0xAA, 0, 0, cmd, count], body);
  }

  lemma ParseEncodedAt(res: Resolution, frame: seq<byte>, sent: seq<Segment>)
    requires At(frame, 5, EncodeAll(WallEncoder(res), sent)) && frame[4] == |sent|
    ensures Parse(res, frame) == Read(MapAll(SnapWall(res), sent), 5 + |EncodeAll(WallEncoder(res), sent)|)
  {
    WallInverts(res);
    DecodeEncoded(WallEncoder(res), WallDecoder(res), AnyWall(), SnapWall(res), frame, 5, sent);
  }

  /** Echo: the answer repeats the request's bytes exactly when the request names at most ten walls. */
  lemma EncodeInvertsParseIff(res: Resolution, data: seq<byte>)
    requires Parse(res, data).Read?
    ensures var r := Parse(res, data);
            && 4 <= r.next <= |data|
            && (WallFrame(res, 0x13, 0, |r.value|, r.value) == Seal(AA_BODY, [0xAA, 0, 0, 0x13] + data[4..r.next])
                <==> data[4] <= 10)
  {
    WallReproduces(res);
    EncodeDecoded(WallEncoder(res), WallDecoder(res), data, 5, data[4]);
    var walls := Parse(res, data).value;
    BodyLength(res, walls);
    if data[4] <= MAX_WALLS {
      EchoedFrame(res, data, walls);
    } else {
      assert First(0, walls) == [];
      assert |WallFrame(res, 0x13, 0, |walls|, walls)| == 6;
    }
  }

  lemma EchoedFrame(res: Resolution, data: seq<byte>, walls: seq<Segment>)
    requires |data| > 4 && At(data, 5, EncodeAll(WallEncoder(res), walls)) && |walls| == data[4] <= MAX_WALLS
    ensures WallFrame(res, 0x13, 0, |walls|, walls) ==
            Seal(AA_BODY, [0xAA, 0, 0, 0x13] + data[4..5 + |EncodeAll(WallEncoder(res), walls)|])
  {
    assert First(|walls|, walls) == walls;
    assert [0xAA, 0, 0, 0x13, ToByte(|walls|)] == [0xAA, 0, 0, 0x13] + data[4..5];
    EchoedBody(0x13, data, 5, EncodeAll(WallEncoder(res), walls));
  }

  class AppVirtualWall {
    var version: int
    var count: int
    var wall: seq<Segment>

    constructor (version: int, count: int, wall: seq<Segment>)
      ensures this.version == version && this.count == count && this.wall == wall
    {
      this.version, this.count, this.wall := version, count, wall;
    }

    // ToVirtualWallData. A count above ten is reset in the message itself.
    method ToData(res: Resolution, cmd: byte) returns (raw: seq<byte>)
      requires version == 0 && count <= MAX_WALLS ==> count <= |wall|
      modifies this`count
      ensures raw == WallFrame(res, cmd, version, old(count), wall)
      ensures count == if version == 0 then Clamp(old(count)) else old(count)
    {
      raw := [0xAA, 0x00, 0x00, cmd];
      if version == 0 {
        if count > MAX_WALLS {
          count := 0;
        }
        raw := raw + [ToByte(count)];
        assert raw == [0xAA, 0, 0, cmd, ToByte(count)];
        raw := AppendWalls(res, raw, count, wall);
        raw := SealFrame(AA_BODY, raw);
      }
    }
  }

  method AppendWalls(res: Resolution, prefix: seq<byte>, count: int, wall: seq<Segment>) returns (raw: seq<byte>)
    requires count <= |wall|
    ensures raw == prefix + EncodeAll(WallEncoder(res), First(count, wall))
  {
    raw := prefix;
    ghost var enc, sent := WallEncoder(res), First(count, wall);
    var i := 0;
    while i < count
      invariant 0 <= i <= |sent|
      invariant raw + EncodeAll(enc, sent[i..]) == prefix + EncodeAll(enc, sent)
    {
      EncodeNext(enc, sent, i, raw, EncodeWall(res, sent[i]));
      Associative(raw, EncodeVertex(res, wall[i].begin), EncodeVertex(res, wall[i].end));
      raw := raw + EncodeVertex(res, wall[i].begin) + EncodeVertex(res, wall[i].end);
      i := i + 1;
    }
    assert sent[i..] == [];
  }

  method ReadWalls(res: Resolution, data: seq<byte>, count: byte) returns (r: Read<seq<Segment>>)
    requires |data| > 4
    ensures r == DecodeN(WallDecoder(res), data, 5, count)
  {
    ghost var dec := WallDecoder(res);
    ghost var whole := DecodeN(dec, data, 5, count);
    var wall: seq<Segment>, cursor := [], 5;
    ContinuesNone(whole);
    for i := 0 to count
      invariant cursor == 5 + WALL_BYTES * i
      invariant Continues(whole, wall, DecodeN(dec, data, cursor, count - i))
    {
      ContinuesNext(whole, dec, data, cursor, count - i, wall);
      var w := DecodeWall(res, data, cursor);
      if w.Overrun? {
        return Overrun;
      }
      wall := wall + [w.value];
      cursor := w.next;
    }
    ContinuesEnd(whole, dec, data, cursor, wall);
    r := Read(wall, cursor);
  }

  // case 0x12
  method Handle(res: Resolution, data: seq<byte>, delivered: bool) returns (outcome: Outcome)
    ensures outcome == match Parse(res, data)
                       case Overrun => Undefined
                       case Read(walls, _) =>
                         if delivered then Answered(WallFrame(res, 0x13, 0, |walls|, walls)) else Silent
  {
    if |data| <= 4 {
      return Undefined;
    }
    var walls := ReadWalls(res, data, data[4]);
    if walls.Overrun? {
      return Undefined;
    }
    if !delivered {
      return Silent;
    }
    WallReproduces(res);
    EncodeDecoded(WallEncoder(res), WallDecoder(res), data, 5, data[4]);
    var message := new AppVirtualWall(0, data[4], walls.value);
    var raw := message.ToData(res, 0x13);
    outcome := Answered(raw);
  }
}
