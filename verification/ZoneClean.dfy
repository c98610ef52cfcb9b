/** Zone cleaning v1.1.0 and v1.2.0: requests 0x28 and 0x3A, report frames 0x29 and 0x3B. */
module ZoneClean {
  import opened Bytes
  import opened Coordinates
  import opened Records
  import opened Frames
  import opened Shapes

  // Zones are bare outlines: unnamed in version 0 (v1.1.0), named in version 1 (v1.2.0).
  predicate HasNames(version: int) {
    version == 1
  }

  function ZoneEncoder(named: bool, res: Resolution): Encoder<Outline> {
    o => EncodeOutline(named, res, o)
  }

  function ZoneDecoder(named: bool, res: Resolution): Decoder<Outline> {
    (data: seq<byte>, pos: nat) => DecodeOutline(named, res, data, pos)
  }

  function Fits(named: bool): Outline -> bool {
    o => FitsOutline(named, o)
  }

  function Received(named: bool, res: Resolution): Outline -> Outline {
    o => ReceivedOutline(named, res, o)
  }

  lemma ZoneInvertsAt(named: bool, res: Resolution, data: seq<byte>, pos: nat, o: Outline)
    ensures InvertsAt(ZoneEncoder(named, res), ZoneDecoder(named, res), Fits(named), Received(named, res), data, pos, o)
  {
    if FitsOutline(named, o) && At(data, pos, EncodeOutline(named, res, o)) {
      OutlineInverts(named, res, data, pos, o);
    }
  }

  lemma ZoneInverts(named: bool, res: Resolution)
    ensures Inverts(ZoneEncoder(named, res), ZoneDecoder(named, res), Fits(named), Received(named, res))
  {
    forall data: seq<byte>, pos: nat, o: Outline {
      ZoneInvertsAt(named, res, data, pos, o);
    }
  }

  lemma ZoneReproduces(res: Resolution)
    ensures Reproduces(ZoneEncoder(false, res), ZoneDecoder(false, res))
  {
    forall data: seq<byte>, pos: nat | DecodeOutline(false, res, data, pos).Read? {
      OutlineReproduces(res, data, pos);
    }
  }

  function Header(cmd: byte, version: int, repeat: byte, count: int): seq<byte> {
    [0xAA, 0, 0, cmd] + if HasNames(version) then [1, repeat, ToByte(count)] else [repeat, ToByte(count)]
  }

  function Envelope(cmd: byte, version: int, repeat: byte, count: int, body: seq<byte>): seq<byte> {
    Seal(AA_BODY, Header(cmd, version, repeat, count) + body)
  }

  // TuyaReportZoneClean as a function, versions 0 and 1.
  function ZoneFrame(res: Resolution, cmd: byte, version: int, repeat: byte, count: int, zones: seq<Outline>): seq<byte>
  {
    Envelope(cmd, version, repeat, count, EncodeAll(ZoneEncoder(HasNames(version), res), zones))
  }

  datatype Request = Request(repeat: byte, zones: seq<Outline>)

  function ParseAt(named: bool, res: Resolution, data: seq<byte>, start: nat): Read<Request>
    requires 2 <= start <= |data|
  {
    match DecodeN(ZoneDecoder(named, res), data, start, data[start - 1])
    case Overrun => Overrun
    case Read(zones, next) => Read(Request(data[start - 2], zones), next)
  }

  // case 0x28, and case 0x3A when the version byte is 1
  function Parse(named: bool, res: Resolution, data: seq<byte>): Read<Request> {
    var start := if named then 7 else 6;
    if |data| < start then Overrun else ParseAt(named, res, data, start)
  }

  lemma EnvelopeParts(cmd: byte, version: int, repeat: byte, count: byte, body: seq<byte>)
    ensures var frame := Envelope(cmd, version, repeat, count, body);
            var start := if HasNames(version) then 7 else 6;
            && |frame| == start + |body| + 1
            && At(frame, start, body)
            && frame[0] == 0xAA && frame[3] == cmd
            && frame[start - 1] == count && frame[start - 2] == repeat && (HasNames(version) ==> frame[4] == 1)
  {
    SealKeeps(AA_BODY, Header(cmd, version, repeat, count), body);
  }

  lemma ZonesRoundTrip(named: bool, res: Resolution, data: seq<byte>, pos: nat, zones: seq<Outline>)
    requires forall o :: o in zones ==> FitsOutline(named, o)
    requires At(data, pos, EncodeAll(ZoneEncoder(named, res), zones))
    ensures DecodeN(ZoneDecoder(named, res), data, pos, |zones|) ==
            Read(MapAll(Received(named, res), zones), pos + |EncodeAll(ZoneEncoder(named, res), zones)|)
  {
    ZoneInverts(named, res);
    DecodeEncoded(ZoneEncoder(named, res), ZoneDecoder(named, res), Fits(named), Received(named, res),
                  data, pos, zones);
  }

  lemma ParseEncodedAt(named: bool, res: Resolution, frame: seq<byte>, start: nat, zones: seq<Outline>)
    requires forall o :: o in zones ==> FitsOutline(named, o)
    requires 2 <= start && At(frame, start, EncodeAll(ZoneEncoder(named, res), zones)) && frame[start - 1] == |zones|
    ensures ParseAt(named, res, frame, start) ==
            Read(Request(frame[start - 2], MapAll(Received(named, res), zones)),
                 start + |EncodeAll(ZoneEncoder(named, res), zones)|)
  {
    ZonesRoundTrip(named, res, frame, start, zones);
  }

  lemma ParsedCount(named: bool, res: Resolution, data: seq<byte>)
    requires Parse(named, res, data).Read?
    ensures |Parse(named, res, data).value.zones| <= 0xFF
  {
    var start := if named then 7 else 6;
    DecodedAreDecoded(ZoneDecoder(named, res), data, start, data[start - 1], o => true);
  }

  lemma ParseInvertsFitting(res: Resolution, cmd: byte, version: int, repeat: byte, zones: seq<Outline>)
    requires version == 0 || version == 1
    requires |zones| <= 0xFF && forall o :: o in zones ==> FitsOutline(HasNames(version), o)
    ensures var frame := ZoneFrame(res, cmd, version, repeat, |zones|, zones);
            Parse(HasNames(version), res, frame) ==
            Read(Request(repeat, MapAll(Received(HasNames(version), res), zones)), |frame| - 1)
  {
    EnvelopeParts(cmd, version, repeat, |zones|, EncodeAll(ZoneEncoder(HasNames(version), res), zones));
    ParseEncodedAt(HasNames(version), res, ZoneFrame(res, cmd, version, repeat, |zones|, zones),
                   if HasNames(version) then 7 else 6, zones);
  }

  /** Round trip of both versions, every nesting: repeat count, all polygons and (version 1) all names of
      up to 19 bytes come back, and the cursor ends on the checksum byte, exactly for counts that fit their byte. */
  lemma ParseInvertsEncodeIff(res: Resolution, cmd: byte, version: int, repeat: byte, zones: seq<Outline>)
    requires version == 0 || version == 1
    requires forall o :: o in zones ==> FitsOutline(HasNames(version), o)
    ensures var frame := ZoneFrame(res, cmd, version, repeat, |zones|, zones);
            Parse(HasNames(version), res, frame) ==
            Read(Request(repeat, MapAll(Received(HasNames(version), res), zones)), |frame| - 1)
            <==> |zones| <= 0xFF
  {
    var frame := ZoneFrame(res, cmd, version, repeat, |zones|, zones);
    if |zones| <= 0xFF {
      ParseInvertsFitting(res, cmd, version, repeat, zones);
    } else if Parse(HasNames(version), res, frame).Read? {
      ParsedCount(HasNames(version), res, frame);
    }
  }

  /** Echo: the answer to a v1.1.0 request repeats the request's own bytes. */
  lemma EncodeInvertsParse(res: Resolution, data: seq<byte>)
    requires Parse(false, res, data).Read?
    ensures var r := Parse(false, res, data);
            && 4 <= r.next <= |data|
            && ZoneFrame(res, 0x29, 0, r.value.repeat, |r.value.zones|, r.value.zones) ==
               Seal(AA_BODY, [0xAA, 0, 0, 0x29] + data[4..r.next])
  {
    ZonesReproduced(res, data);
    var r := Parse(false, res, data);
    EchoedFrame(res, data, r.value, r.next);
  }

  lemma ZonesReproduced(res: Resolution, data: seq<byte>)
    requires Parse(false, res, data).Read?
    ensures var r := Parse(false, res, data);
            && 6 <= r.next <= |data| && |r.value.zones| == data[5] && r.value.repeat == data[4]
            && At(data, 6, EncodeAll(ZoneEncoder(false, res), r.value.zones))
            && r.next == 6 + |EncodeAll(ZoneEncoder(false, res), r.value.zones)|
  {
    ZoneReproduces(res);
    EncodeDecoded(ZoneEncoder(false, res), ZoneDecoder(false, res), data, 6, data[5]);
  }

  lemma EchoedFrame(res: Resolution, data: seq<byte>, q: Request, end: nat)
    requires 6 <= end <= |data| && q.repeat == data[4] && |q.zones| == data[5]
    requires At(data, 6, EncodeAll(ZoneEncoder(false, res), q.zones))
    requires end == 6 + |EncodeAll(ZoneEncoder(false, res), q.zones)|
    ensures ZoneFrame(res, 0x29, 0, q.repeat, |q.zones|, q.zones) == Seal(AA_BODY, [0xAA, 0, 0, 0x29] + data[4..end])
  {
    EchoedEnvelope(data, EncodeAll(ZoneEncoder(false, res), q.zones));
  }

  lemma EchoedEnvelope(data: seq<byte>, body: seq<byte>)
    requires |data| >= 6 && At(data, 6, body)
    ensures Envelope(0x29, 0, data[4], data[5], body) == Seal(AA_BODY, [0xAA, 0, 0, 0x29] + data[4..6 + |body|])
  {
    assert Header(0x29, 0, data[4], data[5]) == [0xAA, 0, 0, 0x29] + data[4..6];
    EchoedBody(0x29, data, 6, body);
  }

  // ---- the second trip: the answer to a 0x3A request, parsed again ----

  function OffTheWires(res: Resolution): Outline -> bool {
    o => OffTheWire(res, o)
  }

  function ZoneReadBack(): (Outline, seq<byte>) -> Option<Outline> {
    (o: Outline, behind: seq<byte>) => ReadBack(o, behind)
  }

  function AddNuls(): Outline -> Outline {
    o => AddNul(o)
  }

  lemma ZoneReadBackAt(res: Resolution, data: seq<byte>, pos: nat, o: Outline)
    ensures InvertsBeforeAt(
              ZoneEncoder(true, res), ZoneDecoder(true, res), OffTheWires(res), ZoneReadBack(), data, pos, o)
  {
    if OffTheWire(res, o) && At(data, pos, EncodeOutline(true, res, o)) {
      OutlineReadBack(res, data, pos, o, pos + |EncodeOutline(true, res, o)|);
    }
  }

  lemma ZoneInvertsBefore(res: Resolution)
    ensures InvertsBefore(ZoneEncoder(true, res), ZoneDecoder(true, res), OffTheWires(res), ZoneReadBack())
  {
    forall data: seq<byte>, pos: nat, o: Outline {
      ZoneReadBackAt(res, data, pos, o);
    }
  }

  // Every name of a printed list keeps within 18 bytes (plus the parser's NUL) or is continued by what follows it.
  ghost predicate NamesContinue(res: Resolution, zones: seq<Outline>, rest: seq<byte>) {
    forall i :: 0 <= i < |zones| ==> NameContinues(zones[i].name, Behind(ZoneEncoder(true, res), zones, i, rest))
  }

  lemma NamesReadBackIff(res: Resolution, zones: seq<Outline>, rest: seq<byte>)
    ensures ReceiveAll(ZoneEncoder(true, res), ZoneReadBack(), zones, rest) == Some(MapAll(AddNuls(), zones))
            <==> NamesContinue(res, zones, rest)
  {
    var enc := ZoneEncoder(true, res);
    ReceivedIff(enc, ZoneReadBack(), AddNuls(), zones, rest);
    forall i | 0 <= i < |zones|
      ensures Kept(enc, ZoneReadBack(), AddNuls(), zones, i, rest) <==>
                NameContinues(zones[i].name, Behind(enc, zones, i, rest))
    {
      ReadBackIff(zones[i], Behind(enc, zones, i, rest));
    }
  }

  lemma ParsedAreOffTheWire(res: Resolution, data: seq<byte>, pos: nat, n: nat)
    requires DecodeN(ZoneDecoder(true, res), data, pos, n).Read?
    ensures var zones := DecodeN(ZoneDecoder(true, res), data, pos, n).value;
            |zones| == n && forall o :: o in zones ==> OffTheWire(res, o)
  {
    forall d: seq<byte>, p: nat | DecodeOutline(true, res, d, p).Read?
      ensures OffTheWires(res)(DecodeOutline(true, res, d, p).value)
    {
      ParsedOffTheWire(res, d, p);
    }
    DecodedAreDecoded(ZoneDecoder(true, res), data, pos, n, OffTheWires(res));
  }

  lemma ParseBackAt(res: Resolution, frame: seq<byte>, zones: seq<Outline>, end: nat)
    requires forall o :: o in zones ==> OffTheWire(res, o)
    requires At(frame, 7, EncodeAll(ZoneEncoder(true, res), zones)) && frame[6] == |zones|
    requires end == 7 + |EncodeAll(ZoneEncoder(true, res), zones)|
    ensures Parse(true, res, frame) ==
            match ReceiveAll(ZoneEncoder(true, res), ZoneReadBack(), zones, frame[end..])
            case None => Overrun
            case Some(got) => Read(Request(frame[5], got), end)
  {
    ZoneInvertsBefore(res);
    DecodeEncodedBefore(ZoneEncoder(true, res), ZoneDecoder(true, res), OffTheWires(res), ZoneReadBack(),
                        frame, 7, zones, end, frame[end..]);
  }

  lemma FrameReadBackIff(res: Resolution, q: Request)
    requires |q.zones| <= 0xFF && forall o :: o in q.zones ==> OffTheWire(res, o)
    ensures var frame := ZoneFrame(res, 0x3B, 1, q.repeat, |q.zones|, q.zones);
            && |frame| > 0
            && (Parse(true, res, frame) == Read(q.(zones := MapAll(AddNuls(), q.zones)), |frame| - 1)
                <==> NamesContinue(res, q.zones, [frame[|frame| - 1]]))
  {
    var frame := ZoneFrame(res, 0x3B, 1, q.repeat, |q.zones|, q.zones);
    var end := |frame| - 1;
    EnvelopeParts(0x3B, 1, q.repeat, |q.zones|, EncodeAll(ZoneEncoder(true, res), q.zones));
    assert frame[end..] == [frame[end]];
    ParseBackAt(res, frame, q.zones, end);
    NamesReadBackIff(res, q.zones, [frame[end]]);
  }

  /** The answer to any v1.2.0 request parses back to the request's own zones, one more NUL after each name, exactly
      when each name had at most 18 bytes or is continued by what follows its field in the answer. */
  lemma AnswerParsesBackIff(res: Resolution, data: seq<byte>)
    requires Parse(true, res, data).Read?
    ensures var q := Parse(true, res, data).value;
            var frame := ZoneFrame(res, 0x3B, 1, q.repeat, |q.zones|, q.zones);
            && |frame| > 0
            && (Parse(true, res, frame) == Read(q.(zones := MapAll(AddNuls(), q.zones)), |frame| - 1)
                <==> NamesContinue(res, q.zones, [frame[|frame| - 1]]))
  {
    ParsedAreOffTheWire(res, data, 7, data[6]);
    FrameReadBackIff(res, Parse(true, res, data).value);
  }

  // Parallel vectors seen as records.
  function Rows(n: nat, zone: seq<Polygon>, name: seq<seq<byte>>): (zones: seq<Outline>)
    requires n <= |zone|
    ensures |zones| == n
  {
    seq(n, i requires 0 <= i < n => Outline(zone[i], if i < |name| then name[i] else []))
  }

  class AppZoneClean {
    var version: int
    var count: int
    var cleanRepeat: seq<byte>
    var zone: seq<Polygon>
    var name: seq<seq<byte>>

    // What the encoder demands; in particular it reads the first repeat count unconditionally.
    predicate Sendable()
      reads this
    {
      && |cleanRepeat| > 0
      && count <= |zone|
      && (HasNames(version) ==> count <= |name|)
      && forall i :: 0 <= i < count ==> Shapes.Sendable(zone[i])
    }

    function Zones(): (zones: seq<Outline>)
      requires count <= |zone|
      reads this
    {
      Rows(if count < 0 then 0 else count, zone, name)
    }

    constructor (version: int)
      ensures this.version == version && count == 0
      ensures cleanRepeat == [] && zone == [] && name == []
    {
      this.version, count := version, 0;
      cleanRepeat, zone, name := [], [], [];
    }

    // The vectors after `n` zones have been pushed. Version 0 pushes the request's repeat count once per zone and no
    // names; version 1 presets the one repeat count.
    predicate Filled(named: bool, n: nat, repeat: byte)
      reads this
    {
      && |zone| == n && |name| == (if named then n else 0)
      && cleanRepeat == if named then [repeat] else seq(n, _ => repeat)
    }

    function Pushed(named: bool, n: nat, repeat: byte): seq<Outline>
      requires Filled(named, n, repeat)
      reads this
    {
      Rows(n, zone, name)
    }

    method Push(named: bool, n: nat, o: Outline, repeat: byte)
      requires Filled(named, n, repeat) && (!named ==> o.name == [])
      modifies this`zone, this`name, this`cleanRepeat
      ensures Filled(named, n + 1, repeat)
      ensures Pushed(named, n + 1, repeat) == old(Pushed(named, n, repeat)) + [o]
    {
      zone := zone + [o.polygon];
      if named {
        name := name + [o.name];
      } else {
        cleanRepeat := cleanRepeat + [repeat];
      }
    }

    // The resize calls after the loop: vectors still empty get `n` default elements, the zones one.
    method Pad(n: nat)
      modifies this`zone, this`name, this`cleanRepeat
      ensures zone == if old(zone) == [] then [Polygon(0, [])] else old(zone)
      ensures name == if old(name) == [] then seq(n, _ => []) else old(name)
      ensures cleanRepeat == if old(cleanRepeat) == [] then seq(n, _ => 0) else old(cleanRepeat)
    {
      if zone == [] {
        zone := [Polygon(0, [])];
      }
      if name == [] {
        name := seq(n, _ => []);
      }
      if cleanRepeat == [] {
        cleanRepeat := seq(n, _ => 0);
      }
    }

    // TuyaReportZoneClean
    method ToData(res: Resolution, cmd: byte) returns (raw: seq<byte>)
      requires version == 0 || version == 1
      requires Sendable()
      modifies this`name
      ensures raw == ZoneFrame(res, cmd, version, cleanRepeat[0], count, old(Zones()))
      ensures name == Printed(version == 1, count, old(name))
    {
      var named := HasNames(version);
      raw := Header(cmd, version, cleanRepeat[0], count);
      raw := AppendZones(named, res, raw);
      raw := SealFrame(AA_BODY, raw);
    }

    method AppendZones(named: bool, res: Resolution, prefix: seq<byte>) returns (raw: seq<byte>)
      requires Sendable() && named == HasNames(version)
      modifies this`name
      ensures raw == prefix + EncodeAll(ZoneEncoder(named, res), old(Zones()))
      ensures name == Printed(named, count, old(name))
    {
      raw := prefix;
      ghost var names := name;
      var zones := Zones();
      ghost var enc := ZoneEncoder(named, res);
      var i := 0;
      PrintedNone(named, 0, names);
      while i < count
        invariant 0 <= i <= |zones|
        invariant name == Printed(named, i, names)
        invariant raw + EncodeAll(enc, zones[i..]) == prefix + EncodeAll(enc, zones)
      {
        EncodeNext(enc, zones, i, raw, EncodeOutline(named, res, zones[i]));
        var resized;
        raw, resized := AppendOutline(named, res, raw, zones[i]);
        PrintedNext(named, i, names);
        if named {
          name := name[i := resized];
        }
        i := i + 1;
      }
      assert zones[i..] == [];
      if count < 0 {
        PrintedNone(named, count, names);
      }
    }
  }

  // One turn of the parsing loop, with `left` zones still to come.
  method ReadNext(message: AppZoneClean, named: bool, res: Resolution, data: seq<byte>, start: nat, i: nat,
                  repeat: byte, ghost whole: Read<seq<Outline>>, ghost left: nat)
    returns (overrun: bool, next: nat)
    requires message.Filled(named, i, repeat) && left > 0
    requires Continues(whole, message.Pushed(named, i, repeat), DecodeN(ZoneDecoder(named, res), data, start, left))
    modifies message`zone, message`name, message`cleanRepeat
    ensures overrun ==> whole.Overrun?
    ensures !overrun ==> message.Filled(named, i + 1, repeat)
    ensures !overrun ==> Continues(whole, message.Pushed(named, i + 1, repeat),
                                   DecodeN(ZoneDecoder(named, res), data, next, left - 1))
  {
    ContinuesNext(whole, ZoneDecoder(named, res), data, start, left, message.Pushed(named, i, repeat));
    var o := ReadOutline(named, res, data, start);
    if o.Overrun? {
      return true, start;
    }
    message.Push(named, i, o.value, repeat);
    overrun, next := false, o.next;
  }

  // The parsing loop.
  method FillZones(message: AppZoneClean, named: bool, res: Resolution, data: seq<byte>, start: nat, count: byte,
                   repeat: byte)
    returns (ghost r: Read<seq<Outline>>, overrun: bool)
    requires message.Filled(named, 0, repeat)
    modifies message`zone, message`name, message`cleanRepeat
    ensures r == DecodeN(ZoneDecoder(named, res), data, start, count) && overrun == r.Overrun?
    ensures !overrun ==> message.Filled(named, count, repeat) && message.Pushed(named, count, repeat) == r.value
  {
    r := DecodeN(ZoneDecoder(named, res), data, start, count);
    ContinuesNone(r);
    var cursor := start;
    for i := 0 to count
      invariant message.Filled(named, i, repeat)
      invariant Continues(r, message.Pushed(named, i, repeat),
                          DecodeN(ZoneDecoder(named, res), data, cursor, count - i))
    {
      overrun, cursor := ReadNext(message, named, res, data, cursor, i, repeat, r, count - i);
      if overrun {
        return;
      }
    }
    ContinuesEnd(r, ZoneDecoder(named, res), data, cursor, message.Pushed(named, count, repeat));
    overrun := false;
  }

  // Fills `message` from `count` zones at `start`.
  method ReadZones(message: AppZoneClean, named: bool, res: Resolution, data: seq<byte>, start: nat, count: byte,
                   repeat: byte)
    returns (ghost r: Read<seq<Outline>>, overrun: bool)
    requires message.zone == [] && message.name == []
    requires message.cleanRepeat == if named then [repeat] else []
    modifies message
    ensures r == DecodeN(ZoneDecoder(named, res), data, start, count) && overrun == r.Overrun?
    ensures message.version == old(message.version)
    ensures !overrun ==> message.count == count && message.Filled(named, count, repeat) && message.Zones() == r.value
  {
    message.count := count;
    r, overrun := FillZones(message, named, res, data, start, count, repeat);
  }

  // Whatever the parser produces, the encoder may print.
  lemma ParsedAreSendable(named: bool, res: Resolution, data: seq<byte>, pos: nat, n: nat)
    requires DecodeN(ZoneDecoder(named, res), data, pos, n).Read?
    ensures |DecodeN(ZoneDecoder(named, res), data, pos, n).value| == n
    ensures forall o :: o in DecodeN(ZoneDecoder(named, res), data, pos, n).value ==> Shapes.Sendable(o.polygon)
  {
    var holds := (o: Outline) => Shapes.Sendable(o.polygon);
    forall d: seq<byte>, p: nat | DecodeOutline(named, res, d, p).Read?
      ensures holds(DecodeOutline(named, res, d, p).value)
    {
      PolygonReproduces(res, d, p);
    }
    DecodedAreDecoded(ZoneDecoder(named, res), data, pos, n, holds);
  }

  /** After parsing and padding, the v1.1.0 message meets the encoder's demands exactly when it has a zone:
      for a request with no zones the repeat counts are resized to zero elements and then indexed. */
  method ParsePlain(res: Resolution, data: seq<byte>) returns (message: AppZoneClean?)
    ensures message == null <==> Parse(false, res, data).Overrun?
    ensures message != null ==>
              var q := Parse(false, res, data).value;
              && fresh(message)
              && message.version == 0 && message.count == |q.zones| && message.Sendable() == (q.zones != [])
              && (q.zones != [] ==> message.Zones() == q.zones && message.cleanRepeat[0] == q.repeat)
  {
    if |data| < 6 {
      return null;
    }
    message := new AppZoneClean(0);
    ghost var r;
    var overrun;
    r, overrun := ReadZones(message, false, res, data, 6, data[5], data[4]);
    if overrun {
      return null;
    }
    ParsedAreSendable(false, res, data, 6, data[5]);
    forall i | 0 <= i < message.count
      ensures Shapes.Sendable(message.zone[i])
    {
      assert message.Zones()[i].polygon == message.zone[i];
    }
    ghost var zones := message.Zones();
    message.Pad(data[5]);
    assert zones != [] ==> message.Zones() == zones;
  }

  // case 0x28
  method HandlePlain(res: Resolution, data: seq<byte>, delivered: bool) returns (outcome: Outcome)
    ensures outcome == match Parse(false, res, data)
                       case Overrun => Undefined
                       case Read(q, _) =>
                         if !delivered then Silent else
                         if q.zones == [] then Undefined else
                         Answered(ZoneFrame(res, 0x29, 0, q.repeat, |q.zones|, q.zones))
  {
    var message := ParsePlain(res, data);
    if message == null {
      return Undefined;
    }
    if !delivered {
      return Silent;
    }
    if message.cleanRepeat == [] {
      return Undefined;
    }
    assert message.Sendable();
    var raw := message.ToData(res, 0x29);
    outcome := Answered(raw);
  }

  // case 0x3A, version byte 1
  method HandleNamed(res: Resolution, data: seq<byte>, delivered: bool) returns (outcome: Outcome)
    requires |data| > 4 ==> data[4] == 1
    ensures outcome == match Parse(true, res, data)
                       case Overrun => Undefined
                       case Read(q, _) =>
                         if delivered then Answered(ZoneFrame(res, 0x3B, 1, q.repeat, |q.zones|, q.zones)) else Silent
  {
    if |data| < 7 {
      return Undefined;
    }
    var message := new AppZoneClean(1);
    message.cleanRepeat := [data[5]];
    ghost var r;
    var overrun;
    r, overrun := ReadZones(message, true, res, data, 7, data[6], data[5]);
    if overrun {
      return Undefined;
    }
    ParsedAreSendable(true, res, data, 7, data[6]);
    forall i | 0 <= i < message.count
      ensures Shapes.Sendable(message.zone[i])
    {
      assert message.Zones()[i].polygon == message.zone[i];
    }
    ghost var zones := message.Zones();
    message.Pad(1);
    assert message.Zones() == zones;
    if !delivered {
      return Silent;
    }
    var raw := message.ToData(res, 0x3B);
    outcome := Answered(raw);
  }
}
