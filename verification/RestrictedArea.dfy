/** Restricted areas: requests 0x1A and 0x38, report frames 0x1B and 0x39. */
module RestrictedArea {
  import opened Bytes
  import opened Coordinates
  import opened Records
  import opened Frames
  import opened Shapes

  const MAX_PLAIN_AREAS := 14

  // Record layouts of the three protocol versions.
  datatype Layout =
    | Plain  // version 0 (v1.1.0): mode, polygon
    | Named  // version 1 (v1.2.0): mode, polygon, name
    | Typed  // version 2 (v1.2.1): mode, type, polygon, name

  datatype Area = Area(mode: byte, kind: byte, outline: Outline)

  predicate HasFrame(version: int) {
    0 <= version <= 2
  }

  function LayoutOf(version: int): Layout {
    if version == 0 then Plain else if version == 2 then Typed else Named
  }

  // ---- one record ----

  function EncodeArea(layout: Layout, res: Resolution, a: Area): seq<byte> {
    var tail := EncodeOutline(!layout.Plain?, res, a.outline);
    (if layout.Typed? then [a.mode, a.kind] else [a.mode]) + tail
  }

  // Bytes of a record before its outline.
  function Lead(layout: Layout): nat {
    if layout.Typed? then 2 else 1
  }

  function DecodeArea(layout: Layout, res: Resolution, data: seq<byte>, pos: nat): Read<Area> {
    var k := Lead(layout);
    if pos + k > |data| then Overrun else
    match DecodeOutline(!layout.Plain?, res, data, pos + k)
    case Overrun => Overrun
    case Read(o, next) => Read(Area(data[pos], if layout.Typed? then data[pos + 1] else 0, o), next)
  }

  function AreaEncoder(layout: Layout, res: Resolution): Encoder<Area> {
    a => EncodeArea(layout, res, a)
  }

  function AreaDecoder(layout: Layout, res: Resolution): Decoder<Area> {
    (data: seq<byte>, pos: nat) => DecodeArea(layout, res, data, pos)
  }

  predicate FitsArea(layout: Layout, a: Area) {
    FitsOutline(!layout.Plain?, a.outline)
  }

  function Fits(layout: Layout): Area -> bool {
    a => FitsArea(layout, a)
  }

  // What the other side reads; a field the layout lacks arrives as its default.
  function ReceivedArea(layout: Layout, res: Resolution, a: Area): Area {
    Area(a.mode, if layout.Typed? then a.kind else 0, ReceivedOutline(!layout.Plain?, res, a.outline))
  }

  function Received(layout: Layout, res: Resolution): Area -> Area {
    a => ReceivedArea(layout, res, a)
  }

  // Where the outline sits in a printed record, and what precedes it.
  lemma AreaAt(layout: Layout, res: Resolution, data: seq<byte>, pos: nat, a: Area)
    requires At(data, pos, EncodeArea(layout, res, a))
    ensures var shape := EncodeOutline(!layout.Plain?, res, a.outline);
            && |EncodeArea(layout, res, a)| == Lead(layout) + |shape|
            && At(data, pos + Lead(layout), shape)
            && data[pos] == a.mode && (layout.Typed? ==> data[pos + 1] == a.kind)
  {
    var head := if layout.Typed? then [a.mode, a.kind] else [a.mode];
    AtConcat(data, pos, head, EncodeOutline(!layout.Plain?, res, a.outline));
    assert data[pos] == data[pos..pos + |head|][0];
    assert layout.Typed? ==> data[pos + 1] == data[pos..pos + |head|][1];
  }

  /** A record is its mode, in version 2 its type, and then its outline. */
  lemma AreaLayout(layout: Layout, res: Resolution, a: Area)
    ensures var e := EncodeArea(layout, res, a); var lead := if layout == Typed then 2 else 1;
            && |e| > lead && e[0] == a.mode && (layout == Typed ==> e[1] == a.kind)
            && e[lead..] ==
               EncodePolygon(res, a.outline.polygon) + if layout == Plain then [] else EncodeName(a.outline.name)
  {
    var tail := EncodeOutline(!layout.Plain?, res, a.outline);
    assert layout == Typed ==> ([a.mode, a.kind] + tail)[2..] == tail;
    assert layout != Typed ==> ([a.mode] + tail)[1..] == tail;
  }

  /** What arrives of a record: everything its layout carries, with a NUL after the name. */
  lemma AreaArrives(layout: Layout, res: Resolution, a: Area)
    ensures var r := ReceivedArea(layout, res, a);
            && r.mode == a.mode && (layout == Typed ==> r.kind == a.kind)
            && (layout != Plain ==> r.outline.name == a.outline.name + [0])
            && r.outline.polygon == SnapPolygon(res, a.outline.polygon)
  {}

  lemma DecodeAreaStep(layout: Layout, res: Resolution, data: seq<byte>, pos: nat, a: Area, o: Outline, next: nat)
    requires pos + Lead(layout) <= |data| && data[pos] == a.mode
    requires if layout.Typed? then data[pos + 1] == a.kind else a.kind == 0
    requires DecodeOutline(!layout.Plain?, res, data, pos + Lead(layout)) == Read(o, next)
    ensures DecodeArea(layout, res, data, pos) == Read(a.(outline := o), next)
  {}

  lemma FittingAreaInverts(layout: Layout, res: Resolution, data: seq<byte>, pos: nat, a: Area)
    requires FitsArea(layout, a) && At(data, pos, EncodeArea(layout, res, a))
    ensures DecodeArea(layout, res, data, pos) ==
            Read(ReceivedArea(layout, res, a), pos + |EncodeArea(layout, res, a)|)
  {
    AreaAt(layout, res, data, pos, a);
    OutlineInverts(!layout.Plain?, res, data, pos + Lead(layout), a.outline);
    var end := pos + |EncodeArea(layout, res, a)|;
    var sent := if layout.Typed? then a else a.(kind := 0);
    DecodeAreaStep(layout, res, data, pos, sent, ReceivedOutline(!layout.Plain?, res, a.outline), end);
  }

  lemma AreaInvertsAt(layout: Layout, res: Resolution, data: seq<byte>, pos: nat, a: Area)
    ensures InvertsAt(
              AreaEncoder(layout, res), AreaDecoder(layout, res), Fits(layout), Received(layout, res), data, pos, a)
  {
    if FitsArea(layout, a) && At(data, pos, EncodeArea(layout, res, a)) {
      FittingAreaInverts(layout, res, data, pos, a);
    }
  }

  lemma AreaInverts(layout: Layout, res: Resolution)
    ensures Inverts(AreaEncoder(layout, res), AreaDecoder(layout, res), Fits(layout), Received(layout, res))
  {
    forall data: seq<byte>, pos: nat, a: Area {
      AreaInvertsAt(layout, res, data, pos, a);
    }
  }

  lemma PlainReproducesAt(res: Resolution, data: seq<byte>, pos: nat)
    requires DecodeArea(Plain, res, data, pos).Read?
    ensures var r := DecodeArea(Plain, res, data, pos);
            r.next == pos + |EncodeArea(Plain, res, r.value)| && At(data, pos, EncodeArea(Plain, res, r.value))
  {
    OutlineReproduces(res, data, pos + 1);
    AtCons(data, pos, data[pos], EncodeOutline(false, res, DecodeOutline(false, res, data, pos + 1).value));
  }

  lemma PlainReproduces(res: Resolution)
    ensures Reproduces(AreaEncoder(Plain, res), AreaDecoder(Plain, res))
  {
    forall data: seq<byte>, pos: nat | DecodeArea(Plain, res, data, pos).Read? {
      PlainReproducesAt(res, data, pos);
    }
  }

  lemma ParsedIsSendable(layout: Layout, res: Resolution, data: seq<byte>, pos: nat)
    requires DecodeArea(layout, res, data, pos).Read?
    ensures Shapes.Sendable(DecodeArea(layout, res, data, pos).value.outline.polygon)
  {
    PolygonReproduces(res, data, pos + Lead(layout));
  }

  // Whatever the parser produces, the encoder may print.
  lemma ParsedAreSendable(layout: Layout, res: Resolution, data: seq<byte>, pos: nat, n: nat)
    requires DecodeN(AreaDecoder(layout, res), data, pos, n).Read?
    ensures |DecodeN(AreaDecoder(layout, res), data, pos, n).value| == n
    ensures forall a :: a in DecodeN(AreaDecoder(layout, res), data, pos, n).value ==>
              Shapes.Sendable(a.outline.polygon)
  {
    var holds := (a: Area) => Shapes.Sendable(a.outline.polygon);
    forall d: seq<byte>, p: nat | DecodeArea(layout, res, d, p).Read?
      ensures holds(DecodeArea(layout, res, d, p).value)
    {
      ParsedIsSendable(layout, res, d, p);
    }
    DecodedAreDecoded(AreaDecoder(layout, res), data, pos, n, holds);
  }

  // ---- whole frames ----

  function Header(cmd: byte, version: int, count: int): seq<byte> {
    [0xAA, 0, 0, cmd] + (if version == 0 then [ToByte(count)] else [ToByte(version), ToByte(count)])
  }

  function Envelope(cmd: byte, version: int, count: int, body: seq<byte>): seq<byte> {
    if HasFrame(version) then Seal(AA_BODY, Header(cmd, version, count) + body) else [0xAA, 0, 0, cmd]
  }

  // ToRestrictedAreaData as a function. Versions other than 0, 1, 2 leave the bare four-byte header.
  function AreaFrame(res: Resolution, cmd: byte, version: int, count: int, areas: seq<Area>): seq<byte> {
    Envelope(cmd, version, count, EncodeAll(AreaEncoder(LayoutOf(version), res), areas))
  }

  datatype Request = Request(version: byte, areas: seq<Area>)

  // Case 0x1A. A count above 14 is dropped without an answer (None).
  function ParsePlain(res: Resolution, data: seq<byte>): Read<Option<Request>> {
    if |data| <= 4 then Overrun else
    if data[4] > MAX_PLAIN_AREAS then Read(None, 5) else
    match DecodeN(AreaDecoder(Plain, res), data, 5, data[4])
    case Overrun => Overrun
    case Read(areas, next) => Read(Some(Request(0, areas)), next)
  }

  // Case 0x38: the type byte is present for version 2 only, the name always.
  function ParseNamed(res: Resolution, data: seq<byte>): Read<Option<Request>> {
    if |data| <= 5 then Overrun else
    match DecodeN(AreaDecoder(if data[4] == 2 then Typed else Named, res), data, 6, data[5])
    case Overrun => Overrun
    case Read(areas, next) => Read(Some(Request(data[4], areas)), next)
  }

  lemma RecordsRoundTrip(layout: Layout, res: Resolution, data: seq<byte>, pos: nat, areas: seq<Area>)
    requires forall a :: a in areas ==> FitsArea(layout, a)
    requires At(data, pos, EncodeAll(AreaEncoder(layout, res), areas))
    ensures DecodeN(AreaDecoder(layout, res), data, pos, |areas|) ==
            Read(MapAll(Received(layout, res), areas), pos + |EncodeAll(AreaEncoder(layout, res), areas)|)
  {
    AreaInverts(layout, res);
    DecodeEncoded(AreaEncoder(layout, res), AreaDecoder(layout, res), Fits(layout), Received(layout, res),
                  data, pos, areas);
  }

  lemma EnvelopeParts(cmd: byte, version: int, count: byte, body: seq<byte>)
    requires HasFrame(version)
    ensures var frame := Envelope(cmd, version, count, body);
            var start := if version == 0 then 5 else 6;
            && |frame| == start + |body| + 1
            && At(frame, start, body)
            && frame[0] == 0xAA && frame[1] == 0 && frame[3] == cmd
            && frame[start - 1] == count && (version != 0 ==> frame[4] == version)
  {
    SealKeeps(AA_BODY, Header(cmd, version, count), body);
  }

  lemma HeaderOf(res: Resolution, cmd: byte, version: int, count: int, areas: seq<Area>)
    ensures var f := AreaFrame(res, cmd, version, count, areas); |f| >= 4 && f[0] == 0xAA && f[3] == cmd
    ensures version < 0 || version > 2 ==> AreaFrame(res, cmd, version, count, areas) == [0xAA, 0, 0, cmd]
  {
    if HasFrame(version) {
      SealKeeps(AA_BODY, Header(cmd, version, count), EncodeAll(AreaEncoder(LayoutOf(version), res), areas));
    }
  }

  lemma ParsePlainAt(res: Resolution, frame: seq<byte>, areas: seq<Area>)
    requires |areas| <= MAX_PLAIN_AREAS && forall a :: a in areas ==> FitsArea(Plain, a)
    requires At(frame, 5, EncodeAll(AreaEncoder(Plain, res), areas)) && frame[4] == |areas|
    ensures ParsePlain(res, frame) ==
            Read(Some(Request(0, MapAll(Received(Plain, res), areas))),
                 5 + |EncodeAll(AreaEncoder(Plain, res), areas)|)
  {
    RecordsRoundTrip(Plain, res, frame, 5, areas);
  }

  lemma ParseNamedAt(layout: Layout, res: Resolution, frame: seq<byte>, areas: seq<Area>)
    requires |areas| <= 0xFF && forall a :: a in areas ==> FitsArea(layout, a)
    requires At(frame, 6, EncodeAll(AreaEncoder(layout, res), areas)) && frame[5] == |areas|
    requires layout == if frame[4] == 2 then Typed else Named
    ensures ParseNamed(res, frame) ==
            Read(Some(Request(frame[4], MapAll(Received(layout, res), areas))),
                 6 + |EncodeAll(AreaEncoder(layout, res), areas)|)
  {
    RecordsRoundTrip(layout, res, frame, 6, areas);
  }

  lemma EnvelopeCount(cmd: byte, count: int, body: seq<byte>)
    ensures var frame := Envelope(cmd, 0, count, body); |frame| > 4 && frame[4] == ToByte(count)
  {}

  lemma ParsedCount(res: Resolution, data: seq<byte>)
    requires ParsePlain(res, data).Read? && ParsePlain(res, data).value.Some?
    ensures |ParsePlain(res, data).value.value.areas| == data[4] <= MAX_PLAIN_AREAS
  {
    DecodedAreDecoded(AreaDecoder(Plain, res), data, 5, data[4], a => true);
  }

  /** Round trip of version 0, every nesting and every count: the parser recovers the whole message from an
      encoded frame, its cursor ending on the checksum byte, exactly when there are at most 14 areas. */
  lemma ParseInvertsEncodePlainIff(res: Resolution, cmd: byte, areas: seq<Area>)
    requires forall a :: a in areas ==> FitsArea(Plain, a)
    ensures var frame := AreaFrame(res, cmd, 0, |areas|, areas);
            ParsePlain(res, frame) == Read(Some(Request(0, MapAll(Received(Plain, res), areas))), |frame| - 1)
            <==> |areas| <= 14
  {
    var frame := AreaFrame(res, cmd, 0, |areas|, areas);
    EnvelopeCount(cmd, |areas|, EncodeAll(AreaEncoder(Plain, res), areas));
    if |areas| <= MAX_PLAIN_AREAS {
      EnvelopeParts(cmd, 0, |areas|, EncodeAll(AreaEncoder(Plain, res), areas));
      ParsePlainAt(res, frame, areas);
    } else if ParsePlain(res, frame).Read? && ParsePlain(res, frame).value.Some? {
      ParsedCount(res, frame);
    }
  }

  lemma NamedFrameParts(layout: Layout, res: Resolution, cmd: byte, version: int, areas: seq<Area>)
    requires (version == 1 || version == 2) && layout == LayoutOf(version) && |areas| <= 0xFF
    ensures var frame := AreaFrame(res, cmd, version, |areas|, areas);
            var body := EncodeAll(AreaEncoder(layout, res), areas);
            |frame| == 6 + |body| + 1 && At(frame, 6, body) && frame[4] == version && frame[5] == |areas|
  {
    EnvelopeParts(cmd, version, |areas|, EncodeAll(AreaEncoder(layout, res), areas));
  }

  lemma NamedCount(res: Resolution, data: seq<byte>)
    requires ParseNamed(res, data).Read?
    ensures |ParseNamed(res, data).value.value.areas| == data[5]
  {
    DecodedAreDecoded(AreaDecoder(if data[4] == 2 then Typed else Named, res), data, 6, data[5], a => true);
  }

  /** Round trip of versions 1 and 2, names of up to 19 bytes included: exactly for counts that fit their byte. */
  lemma ParseInvertsEncodeNamedIff(res: Resolution, cmd: byte, version: int, areas: seq<Area>)
    requires version == 1 || version == 2
    requires forall a :: a in areas ==> FitsArea(LayoutOf(version), a)
    ensures var frame := AreaFrame(res, cmd, version, |areas|, areas);
            ParseNamed(res, frame) ==
            Read(Some(Request(version, MapAll(Received(LayoutOf(version), res), areas))), |frame| - 1)
            <==> |areas| <= 0xFF
  {
    var frame := AreaFrame(res, cmd, version, |areas|, areas);
    if |areas| <= 0xFF {
      NamedFrameParts(LayoutOf(version), res, cmd, version, areas);
      ParseNamedAt(LayoutOf(version), res, frame, areas);
    } else if ParseNamed(res, frame).Read? {
      NamedCount(res, frame);
    }
  }

  /** Echo: the answer to any accepted 0x1A request carries the request's own bytes, unchanged. */
  lemma EncodeInvertsParse(res: Resolution, data: seq<byte>)
    requires ParsePlain(res, data).Read? && ParsePlain(res, data).value.Some?
    ensures var r := ParsePlain(res, data);
            && 4 <= r.next <= |data|
            && AreaFrame(res, 0x1B, 0, |r.value.value.areas|, r.value.value.areas) ==
               Seal(AA_BODY, [0xAA, 0, 0, 0x1B] + data[4..r.next])
  {
    AreasReproduced(res, data);
    var r := ParsePlain(res, data);
    EchoedFrame(res, data, r.value.value.areas, r.next);
  }

  lemma AreasReproduced(res: Resolution, data: seq<byte>)
    requires ParsePlain(res, data).Read? && ParsePlain(res, data).value.Some?
    ensures var r := ParsePlain(res, data); var areas := r.value.value.areas;
            && 5 <= r.next <= |data| && |areas| == data[4]
            && At(data, 5, EncodeAll(AreaEncoder(Plain, res), areas))
            && r.next == 5 + |EncodeAll(AreaEncoder(Plain, res), areas)|
  {
    PlainReproduces(res);
    EncodeDecoded(AreaEncoder(Plain, res), AreaDecoder(Plain, res), data, 5, data[4]);
  }

  lemma EchoedFrame(res: Resolution, data: seq<byte>, areas: seq<Area>, end: nat)
    requires 5 <= end <= |data| && |areas| == data[4]
    requires At(data, 5, EncodeAll(AreaEncoder(Plain, res), areas))
    requires end == 5 + |EncodeAll(AreaEncoder(Plain, res), areas)|
    ensures AreaFrame(res, 0x1B, 0, |areas|, areas) == Seal(AA_BODY, [0xAA, 0, 0, 0x1B] + data[4..end])
  {
    EchoedEnvelope(data, EncodeAll(AreaEncoder(Plain, res), areas));
  }

  lemma EchoedEnvelope(data: seq<byte>, body: seq<byte>)
    requires |data| > 4 && At(data, 5, body)
    ensures Envelope(0x1B, 0, data[4], body) == Seal(AA_BODY, [0xAA, 0, 0, 0x1B] + data[4..5 + |body|])
  {
    assert Header(0x1B, 0, data[4]) == [0xAA, 0, 0, 0x1B] + data[4..5];
    EchoedBody(0x1B, data, 5, body);
  }

  /** The encoder output obeys the frame law exactly for the versions it knows (or the never used command 0). */
  lemma FrameLawIff(res: Resolution, cmd: byte, version: int, count: int, areas: seq<Area>)
    ensures FrameLaw(AA_BODY, AreaFrame(res, cmd, version, count, areas)) <==> HasFrame(version) || cmd == 0
  {
    if HasFrame(version) {
      var raw := Header(cmd, version, count) + EncodeAll(AreaEncoder(LayoutOf(version), res), areas);
      SealIsTheLaw(AA_BODY, raw, Seal(AA_BODY, raw));
    }
  }

  // ---- the second trip: the answer to a 0x38 request, parsed again ----

  predicate AreaOffTheWire(layout: Layout, res: Resolution, a: Area) {
    OffTheWire(res, a.outline) && (layout.Typed? || a.kind == 0)
  }

  function OffTheWires(layout: Layout, res: Resolution): Area -> bool {
    a => AreaOffTheWire(layout, res, a)
  }

  function ReadBackArea(a: Area, behind: seq<byte>): Option<Area> {
    match ReadBack(a.outline, behind)
    case None => None
    case Some(o) => Some(a.(outline := o))
  }

  function AreaReadBack(): (Area, seq<byte>) -> Option<Area> {
    (a: Area, behind: seq<byte>) => ReadBackArea(a, behind)
  }

  function AddNuls(): Area -> Area {
    (a: Area) => a.(outline := AddNul(a.outline))
  }

  lemma OverrunAreaStep(layout: Layout, res: Resolution, data: seq<byte>, pos: nat)
    requires pos + Lead(layout) <= |data| && DecodeOutline(!layout.Plain?, res, data, pos + Lead(layout)).Overrun?
    ensures DecodeArea(layout, res, data, pos).Overrun?
  {}

  lemma AreaReadBackAt(layout: Layout, res: Resolution, data: seq<byte>, pos: nat, a: Area, end: nat)
    requires !layout.Plain? && AreaOffTheWire(layout, res, a)
    requires At(data, pos, EncodeArea(layout, res, a)) && end == pos + |EncodeArea(layout, res, a)|
    ensures AreaDecoder(layout, res)(data, pos) == ReadAs(AreaReadBack()(a, data[end..]), end)
  {
    AreaAt(layout, res, data, pos, a);
    OutlineReadBack(res, data, pos + Lead(layout), a.outline, end);
    var back := ReadBack(a.outline, data[end..]);
    if back.Some? {
      DecodeAreaStep(layout, res, data, pos, a, back.value, end);
    } else {
      OverrunAreaStep(layout, res, data, pos);
    }
  }

  lemma NamedReadBackAt(
      layout: Layout, res: Resolution, enc: Encoder<Area>, dec: Decoder<Area>, recv: (Area, seq<byte>) -> Option<Area>,
      data: seq<byte>, pos: nat, a: Area)
    requires enc == AreaEncoder(layout, res) && dec == AreaDecoder(layout, res) && recv == AreaReadBack()
    requires !layout.Plain? && AreaOffTheWire(layout, res, a) && At(data, pos, enc(a))
    ensures dec(data, pos) == ReadAs(recv(a, data[pos + |enc(a)|..]), pos + |enc(a)|)
  {
    AreaReadBackAt(layout, res, data, pos, a, pos + |enc(a)|);
  }

  lemma AreaInvertsBefore(layout: Layout, res: Resolution)
    requires !layout.Plain?
    ensures InvertsBefore(AreaEncoder(layout, res), AreaDecoder(layout, res), OffTheWires(layout, res), AreaReadBack())
  {
    var enc, dec, recv := AreaEncoder(layout, res), AreaDecoder(layout, res), AreaReadBack();
    forall data: seq<byte>, pos: nat, a: Area
      ensures InvertsBeforeAt(enc, dec, OffTheWires(layout, res), recv, data, pos, a)
    {
      if AreaOffTheWire(layout, res, a) && At(data, pos, enc(a)) {
        NamedReadBackAt(layout, res, enc, dec, recv, data, pos, a);
      }
    }
  }

  // Every name of a printed list keeps within 18 bytes (plus the parser's NUL) or is continued by what follows it.
  ghost predicate NamesContinue(layout: Layout, res: Resolution, areas: seq<Area>, rest: seq<byte>) {
    forall i :: 0 <= i < |areas| ==>
      NameContinues(areas[i].outline.name, Behind(AreaEncoder(layout, res), areas, i, rest))
  }

  lemma NamesReadBackIff(layout: Layout, res: Resolution, areas: seq<Area>, rest: seq<byte>)
    ensures ReceiveAll(AreaEncoder(layout, res), AreaReadBack(), areas, rest) == Some(MapAll(AddNuls(), areas))
            <==> NamesContinue(layout, res, areas, rest)
  {
    var enc := AreaEncoder(layout, res);
    ReceivedIff(enc, AreaReadBack(), AddNuls(), areas, rest);
    forall i | 0 <= i < |areas|
      ensures Kept(enc, AreaReadBack(), AddNuls(), areas, i, rest) <==>
                NameContinues(areas[i].outline.name, Behind(enc, areas, i, rest))
    {
      ReadBackIff(areas[i].outline, Behind(enc, areas, i, rest));
    }
  }

  lemma ParsedIsOffTheWire(layout: Layout, res: Resolution, data: seq<byte>, pos: nat)
    requires !layout.Plain? && DecodeArea(layout, res, data, pos).Read?
    ensures AreaOffTheWire(layout, res, DecodeArea(layout, res, data, pos).value)
  {
    ParsedOffTheWire(res, data, pos + Lead(layout));
  }

  // Every area of an accepted 0x38 request.
  lemma ParsedAreOffTheWire(layout: Layout, res: Resolution, data: seq<byte>, pos: nat, n: nat)
    requires !layout.Plain? && DecodeN(AreaDecoder(layout, res), data, pos, n).Read?
    ensures var areas := DecodeN(AreaDecoder(layout, res), data, pos, n).value;
            |areas| == n && forall a :: a in areas ==> AreaOffTheWire(layout, res, a)
  {
    forall d: seq<byte>, p: nat | DecodeArea(layout, res, d, p).Read?
      ensures OffTheWires(layout, res)(DecodeArea(layout, res, d, p).value)
    {
      ParsedIsOffTheWire(layout, res, d, p);
    }
    DecodedAreDecoded(AreaDecoder(layout, res), data, pos, n, OffTheWires(layout, res));
  }

  lemma ParseNamedBack(layout: Layout, res: Resolution, frame: seq<byte>, areas: seq<Area>, end: nat)
    requires !layout.Plain? && forall a :: a in areas ==> AreaOffTheWire(layout, res, a)
    requires At(frame, 6, EncodeAll(AreaEncoder(layout, res), areas)) && frame[5] == |areas|
    requires end == 6 + |EncodeAll(AreaEncoder(layout, res), areas)|
    requires layout == if frame[4] == 2 then Typed else Named
    ensures ParseNamed(res, frame) ==
            match ReceiveAll(AreaEncoder(layout, res), AreaReadBack(), areas, frame[end..])
            case None => Overrun
            case Some(got) => Read(Some(Request(frame[4], got)), end)
  {
    AreaInvertsBefore(layout, res);
    DecodeEncodedBefore(AreaEncoder(layout, res), AreaDecoder(layout, res), OffTheWires(layout, res), AreaReadBack(),
                        frame, 6, areas, end, frame[end..]);
  }

  lemma FrameReadBackIff(layout: Layout, res: Resolution, q: Request)
    requires 1 <= q.version <= 2 && layout == LayoutOf(q.version) && |q.areas| <= 0xFF
    requires forall a :: a in q.areas ==> AreaOffTheWire(layout, res, a)
    ensures var frame := AreaFrame(res, 0x39, q.version, |q.areas|, q.areas);
            && |frame| > 0
            && (ParseNamed(res, frame) == Read(Some(q.(areas := MapAll(AddNuls(), q.areas))), |frame| - 1)
                <==> NamesContinue(layout, res, q.areas, [frame[|frame| - 1]]))
  {
    var frame := AreaFrame(res, 0x39, q.version, |q.areas|, q.areas);
    var end := |frame| - 1;
    NamedFrameParts(layout, res, 0x39, q.version, q.areas);
    assert frame[end..] == [frame[end]];
    ParseNamedBack(layout, res, frame, q.areas, end);
    NamesReadBackIff(layout, res, q.areas, [frame[end]]);
  }

  // An answer to version 0 has no version byte, one to a version above 2 is a bare header.
  lemma OtherVersionsLost(res: Resolution, q: Request)
    requires (q.version == 0 || q.version > 2) && |q.areas| <= 0xFF
    ensures var frame := AreaFrame(res, 0x39, q.version, |q.areas|, q.areas);
            |frame| > 0 && (ParseNamed(res, frame).Read? ==> ParseNamed(res, frame).value.value.version != q.version)
  {
    if q.version == 0 {
      EnvelopeCount(0x39, |q.areas|, EncodeAll(AreaEncoder(Plain, res), q.areas));
      if q.areas == [] {
        EmptyPlainOverruns(res);
      }
    }
  }

  lemma EmptyPlainOverruns(res: Resolution)
    ensures ParseNamed(res, Envelope(0x39, 0, 0, [])).Overrun?
  {
    var raw := [0xAA, 0, 0, 0x39, 0];
    assert Header(0x39, 0, 0) + [] == raw;
    assert Total(raw, 3, 5) == Total(raw, 3, 4) + raw[4] && Total(raw, 3, 4) == Total(raw, 3, 3) + raw[3];
    var frame := Seal(AA_BODY, raw);
    assert |frame| == 6 && frame[5] == 0x39;
    assert DecodeArea(if frame[4] == 2 then Typed else Named, res, frame, 6).Overrun?;
  }

  /** The answer to a 0x38 request parses back to the request's own areas, one more NUL after each name, exactly
      for versions 1 and 2 and when each name had at most 18 bytes or is continued by what follows its field in the
      answer. */
  lemma AnswerParsesBackIff(res: Resolution, data: seq<byte>)
    requires ParseNamed(res, data).Read?
    ensures var q := ParseNamed(res, data).value.value;
            var answer := Answer(res, 0x39, ParseNamed(res, data), true);
            && answer.Answered? && |answer.frame| > 0
            && (ParseNamed(res, answer.frame) == Read(Some(q.(areas := MapAll(AddNuls(), q.areas))), |answer.frame| - 1)
                <==> 1 <= q.version <= 2 &&
                     NamesContinue(LayoutOf(q.version), res, q.areas, [answer.frame[|answer.frame| - 1]]))
  {
    var q := ParseNamed(res, data).value.value;
    NamedCount(res, data);
    if 1 <= q.version <= 2 {
      ParsedAreOffTheWire(LayoutOf(q.version), res, data, 6, data[5]);
      FrameReadBackIff(LayoutOf(q.version), res, q);
    } else {
      OtherVersionsLost(res, q);
    }
  }

  lemma {:induction false} BodyLength(res: Resolution, areas: seq<Area>)
    requires forall a :: a in areas ==> FitsArea(Plain, a) && a.outline.polygon.count <= 4
    ensures |EncodeAll(AreaEncoder(Plain, res), areas)| <= 18 * |areas|
    ensures (forall a :: a in areas ==> a.outline.polygon.count == 4) ==>
              |EncodeAll(AreaEncoder(Plain, res), areas)| == 18 * |areas|
    decreases |areas|
  {
    if areas != [] {
      PolygonLength(res, areas[0].outline.polygon);
      BodyLength(res, areas[1..]);
    }
  }

  /** The guard of 14 is what keeps quadrilateral requests within the one-byte length: at most 254. */
  lemma PlainLengthExact(res: Resolution, cmd: byte, areas: seq<Area>)
    requires |areas| <= 14
    requires forall a :: a in areas ==> FitsArea(Plain, a) && a.outline.polygon.count <= 4
    ensures var frame := AreaFrame(res, cmd, 0, |areas|, areas);
            frame[2] == |frame| - 4 && frame[2] <= 254
  {
    BodyLength(res, areas);
    LengthExact(AA_BODY, Header(cmd, 0, |areas|) + EncodeAll(AreaEncoder(Plain, res), areas));
  }

  /** And the guard is tight: of quadrilaterals, 14 is the largest number with a true length byte. */
  lemma PlainLengthIff(res: Resolution, cmd: byte, areas: seq<Area>)
    requires forall a :: a in areas ==> FitsArea(Plain, a) && a.outline.polygon.count == 4
    ensures var frame := AreaFrame(res, cmd, 0, |areas|, areas);
            frame[2] == |frame| - 4 <==> |areas| <= 14
  {
    BodyLength(res, areas);
    LengthExact(AA_BODY, Header(cmd, 0, |areas|) + EncodeAll(AreaEncoder(Plain, res), areas));
  }

  /** When a 0x1A request is answered, dropped, or read beyond its end. */
  lemma PlainAnswerIff(res: Resolution, data: seq<byte>, delivered: bool)
    ensures var o := Answer(res, 0x1B, ParsePlain(res, data), delivered);
            var complete := |data| > 4 && DecodeN(AreaDecoder(Plain, res), data, 5, data[4]).Read?;
            && (o.Answered? <==> delivered && complete && data[4] <= 14)
            && (o.Undefined? <==> |data| <= 4 || (data[4] <= 14 && !complete))
  {}

  /** The same for 0x38, which has no limit but answers in the request's version. */
  lemma NamedAnswerIff(res: Resolution, data: seq<byte>, delivered: bool)
    ensures var o := Answer(res, 0x39, ParseNamed(res, data), delivered);
            var complete :=
              |data| > 5 && DecodeN(AreaDecoder(if data[4] == 2 then Typed else Named, res), data, 6, data[5]).Read?;
            && (o.Answered? <==> delivered && complete) && (o.Undefined? <==> !complete)
            && (o.Answered? ==> o.frame[0] == 0xAA && o.frame[3] == 0x39)
            && (o.Answered? && 1 <= data[4] <= 2 ==> o.frame[4] == data[4])
  {
    if ParseNamed(res, data).Read? {
      var q := ParseNamed(res, data).value.value;
      NamedCount(res, data);
      if HasFrame(q.version) {
        EnvelopeParts(0x39, q.version, |q.areas|, EncodeAll(AreaEncoder(LayoutOf(q.version), res), q.areas));
      }
    }
  }

  // ---- the message object and the code that fills and prints it ----

  // Parallel vectors seen as records; a vector that is too short contributes its default.
  function Rows(n: nat, mode: seq<byte>, kind: seq<byte>, polygon: seq<Polygon>, name: seq<seq<byte>>)
    : (areas: seq<Area>)
    requires n <= |mode| && n <= |polygon|
    ensures |areas| == n
  {
    seq(n, i requires 0 <= i < n =>
      Area(mode[i], if i < |kind| then kind[i] else 0, Outline(polygon[i], if i < |name| then name[i] else [])))
  }

  class AppRestrictedArea {
    var version: int
    var count: int
    var mode: seq<byte>
    var kind: seq<byte>
    var polygon: seq<Polygon>
    var name: seq<seq<byte>>

    // What the encoder demands: every vector it indexes is long enough for the count.
    predicate Sendable(layout: Layout)
      reads this
    {
      && count <= |mode| && count <= |polygon|
      && (layout.Typed? ==> count <= |kind|)
      && (!layout.Plain? ==> count <= |name|)
      && forall i :: 0 <= i < count ==> Shapes.Sendable(polygon[i])
    }

    function Areas(): (areas: seq<Area>)
      requires count <= |mode| && count <= |polygon|
      reads this
    {
      Rows(if count < 0 then 0 else count, mode, kind, polygon, name)
    }

    constructor (version: int)
      ensures this.version == version && count == 0
      ensures mode == [] && kind == [] && polygon == [] && name == []
    {
      this.version, count := version, 0;
      mode, kind, polygon, name := [], [], [], [];
    }

    // The vectors after `n` records have been pushed. Named requests push no types; version 1 presets one.
    predicate Filled(layout: Layout, n: nat)
      reads this
    {
      && |mode| == |polygon| == |name| == n
      && if layout == Named then kind == [] || kind == [0] else |kind| == n
    }

    function Pushed(layout: Layout, n: nat): seq<Area>
      requires Filled(layout, n)
      reads this
    {
      Rows(n, mode, kind, polygon, name)
    }

    method Push(layout: Layout, n: nat, a: Area)
      requires Filled(layout, n)
      requires layout == Named ==> a.kind == 0
      modifies this`mode, this`kind, this`polygon, this`name
      ensures Filled(layout, n + 1) && Pushed(layout, n + 1) == old(Pushed(layout, n)) + [a]
    {
      mode := mode + [a.mode];
      if layout != Named {
        kind := kind + [a.kind];
      }
      polygon := polygon + [a.outline.polygon];
      name := name + [a.outline.name];
    }

    // ToRestrictedAreaData. The names it prints are cut or padded to 19 bytes in the message itself.
    method ToData(res: Resolution, cmd: byte) returns (raw: seq<byte>)
      requires HasFrame(version) ==> Sendable(LayoutOf(version))
      modifies this`name
      ensures raw == if HasFrame(version)
                     then AreaFrame(res, cmd, version, count, old(Areas()))
                     else [0xAA, 0, 0, cmd]
      ensures name == Printed(version == 1 || version == 2, count, old(name))
    {
      if !HasFrame(version) {
        PrintedNone(false, count, name);
        return [0xAA, 0x00, 0x00, cmd];
      }
      raw := AppendAreas(LayoutOf(version), res, Header(cmd, version, count));
      raw := SealFrame(AA_BODY, raw);
    }

    method AppendAreas(layout: Layout, res: Resolution, prefix: seq<byte>) returns (raw: seq<byte>)
      requires Sendable(layout)
      modifies this`name
      ensures raw == prefix + EncodeAll(AreaEncoder(layout, res), old(Areas()))
      ensures name == Printed(!layout.Plain?, count, old(name))
    {
      raw := prefix;
      ghost var names := name;
      var areas := Areas();
      ghost var enc := AreaEncoder(layout, res);
      var i := 0;
      PrintedNone(!layout.Plain?, 0, names);
      while i < count
        invariant 0 <= i <= |areas|
        invariant name == Printed(!layout.Plain?, i, names)
        invariant raw + EncodeAll(enc, areas[i..]) == prefix + EncodeAll(enc, areas)
      {
        EncodeNext(enc, areas, i, raw, EncodeArea(layout, res, areas[i]));
        var resized;
        raw, resized := AppendArea(layout, res, raw, areas[i]);
        PrintedNext(!layout.Plain?, i, names);
        if !layout.Plain? {
          name := name[i := resized];
        }
        i := i + 1;
      }
      assert areas[i..] == [];
      if count < 0 {
        PrintedNone(!layout.Plain?, count, names);
      }
    }
  }

  method AppendArea(layout: Layout, res: Resolution, prefix: seq<byte>, a: Area)
    returns (raw: seq<byte>, resized: seq<byte>)
    requires Shapes.Sendable(a.outline.polygon)
    ensures raw == prefix + EncodeArea(layout, res, a)
    ensures !layout.Plain? ==> resized == Resize(a.outline.name)
  {
    ghost var tail := EncodeOutline(!layout.Plain?, res, a.outline);
    if layout.Typed? {
      raw, resized := AppendOutline(true, res, prefix + [a.mode, a.kind], a.outline);
      Associative(prefix, [a.mode, a.kind], tail);
    } else {
      raw, resized := AppendOutline(!layout.Plain?, res, prefix + [a.mode], a.outline);
      Associative(prefix, [a.mode], tail);
    }
  }

  method ReadArea(layout: Layout, res: Resolution, data: seq<byte>, start: nat) returns (r: Read<Area>)
    ensures r == AreaDecoder(layout, res)(data, start)
    ensures r.Read? && layout == Named ==> r.value.kind == 0
  {
    var cursor := start + Lead(layout);
    if cursor > |data| {
      return Overrun;
    }
    var o := ReadOutline(!layout.Plain?, res, data, cursor);
    if o.Overrun? {
      return Overrun;
    }
    r := Read(Area(data[start], if layout.Typed? then data[start + 1] else 0, o.value), o.next);
  }

  // One turn of the parsing loop of both cases, with `left` records still to come.
  method ReadNext(area: AppRestrictedArea, layout: Layout, res: Resolution, data: seq<byte>, start: nat, i: nat,
                  ghost whole: Read<seq<Area>>, ghost left: nat)
    returns (overrun: bool, next: nat)
    requires area.Filled(layout, i) && left > 0
    requires Continues(whole, area.Pushed(layout, i), DecodeN(AreaDecoder(layout, res), data, start, left))
    modifies area`mode, area`kind, area`polygon, area`name
    ensures overrun ==> whole.Overrun?
    ensures !overrun ==> area.Filled(layout, i + 1)
    ensures !overrun ==> Continues(whole, area.Pushed(layout, i + 1),
                                   DecodeN(AreaDecoder(layout, res), data, next, left - 1))
  {
    ContinuesNext(whole, AreaDecoder(layout, res), data, start, left, area.Pushed(layout, i));
    var a := ReadArea(layout, res, data, start);
    if a.Overrun? {
      return true, start;
    }
    area.Push(layout, i, a.value);
    overrun, next := false, a.next;
  }

  // The parsing loop of both cases.
  method FillAreas(area: AppRestrictedArea, layout: Layout, res: Resolution, data: seq<byte>, start: nat, count: byte)
    returns (ghost r: Read<seq<Area>>, overrun: bool)
    requires area.Filled(layout, 0)
    modifies area`mode, area`kind, area`polygon, area`name
    ensures r == DecodeN(AreaDecoder(layout, res), data, start, count) && overrun == r.Overrun?
    ensures !overrun ==> area.Filled(layout, count) && area.Pushed(layout, count) == r.value
  {
    r := DecodeN(AreaDecoder(layout, res), data, start, count);
    ContinuesNone(r);
    var cursor := start;
    for i := 0 to count
      invariant area.Filled(layout, i)
      invariant Continues(r, area.Pushed(layout, i), DecodeN(AreaDecoder(layout, res), data, cursor, count - i))
    {
      overrun, cursor := ReadNext(area, layout, res, data, cursor, i, r, count - i);
      if overrun {
        return;
      }
    }
    ContinuesEnd(r, AreaDecoder(layout, res), data, cursor, area.Pushed(layout, count));
    overrun := false;
  }

  // Fills `area` from `count` records at `start`.
  method ReadAreas(area: AppRestrictedArea, layout: Layout, res: Resolution, data: seq<byte>, start: nat, count: byte)
    returns (ghost r: Read<seq<Area>>, overrun: bool)
    requires area.mode == [] && area.polygon == [] && area.name == []
    requires area.kind == if layout == Named && area.version == 1 then [0] else []
    modifies area
    ensures r == DecodeN(AreaDecoder(layout, res), data, start, count) && overrun == r.Overrun?
    ensures area.version == old(area.version)
    ensures !overrun ==> area.count == count && area.Filled(layout, count) && area.Areas() == r.value
  {
    area.count := count;
    r, overrun := FillAreas(area, layout, res, data, start, count);
  }

  lemma FilledIsSendable(
      area: AppRestrictedArea, layout: Layout, res: Resolution, data: seq<byte>, start: nat, count: byte)
    requires area.count == count && area.Filled(layout, count)
    requires DecodeN(AreaDecoder(layout, res), data, start, count).Read?
    requires area.Areas() == DecodeN(AreaDecoder(layout, res), data, start, count).value
    ensures area.Sendable(layout) && area.Sendable(Plain)
  {
    ParsedAreSendable(layout, res, data, start, count);
    forall i | 0 <= i < count
      ensures Shapes.Sendable(area.polygon[i])
    {
      assert area.Areas()[i].outline.polygon == area.polygon[i];
    }
  }

  // The answer a request deserves; `delivered` is whether the robot took the message.
  function Answer(res: Resolution, cmd: byte, parsed: Read<Option<Request>>, delivered: bool): Outcome {
    match parsed
    case Overrun => Undefined
    case Read(None, _) => Silent
    case Read(Some(q), _) =>
      if delivered then Answered(AreaFrame(res, cmd, q.version, |q.areas|, q.areas)) else Silent
  }

  // case 0x1A
  method HandlePlain(res: Resolution, data: seq<byte>, delivered: bool) returns (outcome: Outcome)
    ensures outcome == Answer(res, 0x1B, ParsePlain(res, data), delivered)
  {
    if |data| <= 4 {
      return Undefined;
    }
    if data[4] > MAX_PLAIN_AREAS {
      return Silent;
    }
    var area := new AppRestrictedArea(0);
    ghost var r;
    var overrun;
    r, overrun := ReadAreas(area, Plain, res, data, 5, data[4]);
    if overrun {
      return Undefined;
    }
    if !delivered {
      return Silent;
    }
    FilledIsSendable(area, Plain, res, data, 5, data[4]);
    var raw := area.ToData(res, 0x1B);
    outcome := Answered(raw);
  }

  // case 0x38
  method HandleNamed(res: Resolution, data: seq<byte>, delivered: bool) returns (outcome: Outcome)
    ensures outcome == Answer(res, 0x39, ParseNamed(res, data), delivered)
  {
    if |data| <= 5 {
      return Undefined;
    }
    var area := new AppRestrictedArea(data[4]);
    if area.version == 1 {
      area.kind := [0];
    }
    var layout := if data[4] == 2 then Typed else Named;
    ghost var r;
    var overrun;
    r, overrun := ReadAreas(area, layout, res, data, 6, data[5]);
    if overrun {
      return Undefined;
    }
    if !delivered {
      return Silent;
    }
    FilledIsSendable(area, layout, res, data, 6, data[5]);
    var raw := area.ToData(res, 0x39);
    outcome := Answered(raw);
  }
}
