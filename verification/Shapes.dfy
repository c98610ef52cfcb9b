/** The nested pieces of a request: vertices, counted polygons and 19-byte name fields. */
module Shapes {
  import opened Bytes
  import opened Coordinates
  import opened Records

  const NAME_FIELD: nat := 19

  // `count` is a field of its own in the message; only the first `count` vertices are sent.
  datatype Polygon = Polygon(count: int, vertices: seq<Point>)

  function First<T>(n: int, s: seq<T>): seq<T> {
    if n < 0 then [] else if n <= |s| then s[..n] else s
  }

  // ---- vertices ----

  function EncodeVertex(res: Resolution, p: Point): seq<byte> {
    ToNb16(MarsToTuya(res, p.x)) + ToNb16(MarsToTuya(res, p.y))
  }

  function DecodeVertex(res: Resolution, data: seq<byte>, pos: nat): Read<Point> {
    if pos + 4 <= |data| then
      Read(Point(TuyaToMars(res, NbTo16(data[pos], data[pos + 1])),
                 TuyaToMars(res, NbTo16(data[pos + 2], data[pos + 3]))), pos + 4)
    else Overrun
  }

  function VertexEncoder(res: Resolution): Encoder<Point> {
    p => EncodeVertex(res, p)
  }

  function VertexDecoder(res: Resolution): Decoder<Point> {
    (data: seq<byte>, pos: nat) => DecodeVertex(res, data, pos)
  }

  function Snapper(res: Resolution): Point -> Point {
    p => SnapPoint(res, p)
  }

  function AnyPoint(): Point -> bool {
    p => true
  }

  lemma VertexInvertsAt(res: Resolution, data: seq<byte>, pos: nat, p: Point)
    ensures InvertsAt(VertexEncoder(res), VertexDecoder(res), AnyPoint(), Snapper(res), data, pos, p)
  {
    if At(data, pos, EncodeVertex(res, p)) {
      var x, y := MarsToTuya(res, p.x), MarsToTuya(res, p.y);
      AtConcat(data, pos, ToNb16(x), ToNb16(y));
      Word16At(data, pos, x);
      Word16At(data, pos + 2, y);
    }
  }

  lemma VertexInverts(res: Resolution)
    ensures Inverts(VertexEncoder(res), VertexDecoder(res), AnyPoint(), Snapper(res))
  {
    forall data: seq<byte>, pos: nat, p: Point {
      VertexInvertsAt(res, data, pos, p);
    }
  }

  lemma VertexReproduces(res: Resolution)
    ensures Reproduces(VertexEncoder(res), VertexDecoder(res))
  {
    forall data: seq<byte>, pos: nat | DecodeVertex(res, data, pos).Read?
      ensures At(data, pos, EncodeVertex(res, DecodeVertex(res, data, pos).value))
    {
      WireIdentity(res, NbTo16(data[pos], data[pos + 1]));
      WireIdentity(res, NbTo16(data[pos + 2], data[pos + 3]));
      NetworkOrder16(0, data[pos], data[pos + 1]);
      NetworkOrder16(0, data[pos + 2], data[pos + 3]);
    }
  }

  // ---- polygons ----

  function EncodePolygon(res: Resolution, g: Polygon): seq<byte> {
    [ToByte(g.count)] + EncodeAll(VertexEncoder(res), First(g.count, g.vertices))
  }

  function DecodePolygon(res: Resolution, data: seq<byte>, pos: nat): Read<Polygon> {
    if pos >= |data| then Overrun else
    match DecodeN(VertexDecoder(res), data, pos + 1, data[pos])
    case Overrun => Overrun
    case Read(vs, next) => Read(Polygon(data[pos], vs), next)
  }

  // The sender's obligation: the vector really holds `count` vertices.
  predicate Sendable(g: Polygon) {
    g.count <= |g.vertices|
  }

  // The count also fits the one byte that carries it.
  predicate FitsPolygon(g: Polygon) {
    0 <= g.count <= 0xFF && Sendable(g)
  }

  function SnapPolygon(res: Resolution, g: Polygon): Polygon {
    Polygon(g.count, MapAll(Snapper(res), First(g.count, g.vertices)))
  }

  lemma VerticesRoundTrip(res: Resolution, data: seq<byte>, pos: nat, vs: seq<Point>)
    requires At(data, pos, EncodeAll(VertexEncoder(res), vs))
    ensures DecodeN(VertexDecoder(res), data, pos, |vs|) ==
            Read(MapAll(Snapper(res), vs), pos + |EncodeAll(VertexEncoder(res), vs)|)
  {
    VertexInverts(res);
    DecodeEncoded(VertexEncoder(res), VertexDecoder(res), AnyPoint(), Snapper(res), data, pos, vs);
  }

  lemma VerticesReproduced(res: Resolution, data: seq<byte>, pos: nat, n: nat)
    requires pos <= |data| && DecodeN(VertexDecoder(res), data, pos, n).Read?
    ensures var r := DecodeN(VertexDecoder(res), data, pos, n);
            && |r.value| == n && r.next == pos + |EncodeAll(VertexEncoder(res), r.value)|
            && At(data, pos, EncodeAll(VertexEncoder(res), r.value))
  {
    VertexReproduces(res);
    EncodeDecoded(VertexEncoder(res), VertexDecoder(res), data, pos, n);
  }

  lemma DecodePolygonStep(res: Resolution, data: seq<byte>, pos: nat, n: nat, vs: seq<Point>, end: nat)
    requires pos < |data| && data[pos] == n && DecodeN(VertexDecoder(res), data, pos + 1, n) == Read(vs, end)
    ensures DecodePolygon(res, data, pos) == Read(Polygon(n, vs), end)
  {}

  lemma PolygonParts(res: Resolution, data: seq<byte>, pos: nat, g: Polygon)
    requires FitsPolygon(g) && At(data, pos, EncodePolygon(res, g))
    ensures var body := EncodeAll(VertexEncoder(res), First(g.count, g.vertices));
            && pos < |data| && data[pos] == g.count && At(data, pos + 1, body)
            && |EncodePolygon(res, g)| == 1 + |body|
  {
    AtCons(data, pos, ToByte(g.count), EncodeAll(VertexEncoder(res), First(g.count, g.vertices)));
  }

  lemma PolygonInverts(res: Resolution, data: seq<byte>, pos: nat, g: Polygon)
    requires FitsPolygon(g)
    requires At(data, pos, EncodePolygon(res, g))
    ensures DecodePolygon(res, data, pos) == Read(SnapPolygon(res, g), pos + |EncodePolygon(res, g)|)
  {
    var vs := First(g.count, g.vertices);
    PolygonParts(res, data, pos, g);
    VerticesRoundTrip(res, data, pos + 1, vs);
    DecodePolygonStep(res, data, pos, |vs|, MapAll(Snapper(res), vs), pos + |EncodePolygon(res, g)|);
  }

  lemma PolygonReproduces(res: Resolution, data: seq<byte>, pos: nat)
    requires DecodePolygon(res, data, pos).Read?
    ensures var r := DecodePolygon(res, data, pos);
            && FitsPolygon(r.value) && At(data, pos, EncodePolygon(res, r.value))
            && r.next == pos + |EncodePolygon(res, r.value)|
  {
    var n := data[pos];
    VerticesReproduced(res, data, pos + 1, n);
    var vs := DecodeN(VertexDecoder(res), data, pos + 1, n).value;
    assert DecodePolygon(res, data, pos) == Read(Polygon(n, vs), pos + 1 + |EncodeAll(VertexEncoder(res), vs)|);
    PolygonAt(res, data, pos, n, vs);
  }

  lemma PolygonAt(res: Resolution, data: seq<byte>, pos: nat, n: byte, vs: seq<Point>)
    requires |vs| == n && pos < |data| && data[pos] == n && At(data, pos + 1, EncodeAll(VertexEncoder(res), vs))
    ensures EncodePolygon(res, Polygon(n, vs)) == [n] + EncodeAll(VertexEncoder(res), vs)
    ensures At(data, pos, EncodePolygon(res, Polygon(n, vs)))
  {
    assert First(n, vs) == vs && ToByte(n) == n;
    AtCons(data, pos, n, EncodeAll(VertexEncoder(res), vs));
  }

  // What came off the wire is on the wire grid already.
  lemma PolygonStable(res: Resolution, data: seq<byte>, pos: nat)
    requires DecodePolygon(res, data, pos).Read?
    ensures var g := DecodePolygon(res, data, pos).value; FitsPolygon(g) && SnapPolygon(res, g) == g
  {
    PolygonReproduces(res, data, pos);
    PolygonInverts(res, data, pos, DecodePolygon(res, data, pos).value);
  }

  lemma PolygonLength(res: Resolution, g: Polygon)
    requires FitsPolygon(g)
    ensures |EncodePolygon(res, g)| == 1 + 4 * g.count
  {
    EncodedLength(VertexEncoder(res), First(g.count, g.vertices), 4);
  }

  method AppendPolygon(res: Resolution, prefix: seq<byte>, g: Polygon) returns (raw: seq<byte>)
    requires Sendable(g)
    ensures raw == prefix + EncodePolygon(res, g)
  {
    ghost var enc, vs := VertexEncoder(res), First(g.count, g.vertices);
    raw := prefix + [ToByte(g.count)];
    var j := 0;
    while j < g.count
      invariant 0 <= j <= |vs|
      invariant raw + EncodeAll(enc, vs[j..]) == prefix + EncodePolygon(res, g)
    {
      raw := raw + ToNb16(MarsToTuya(res, g.vertices[j].x));
      raw := raw + ToNb16(MarsToTuya(res, g.vertices[j].y));
      assert vs[j..][1..] == vs[j + 1..];
      j := j + 1;
    }
  }

  method ReadPolygon(res: Resolution, data: seq<byte>, start: nat) returns (r: Read<Polygon>)
    ensures r == DecodePolygon(res, data, start)
  {
    if start >= |data| {
      return Overrun;
    }
    ghost var dec := VertexDecoder(res);
    var count := data[start];
    ghost var whole := DecodeN(dec, data, start + 1, count);
    var vertices, cursor: nat := [], start + 1;
    ContinuesNone(whole);
    for j := 0 to count
      invariant Continues(whole, vertices, DecodeN(dec, data, cursor, count - j))
    {
      ContinuesNext(whole, dec, data, cursor, count - j, vertices);
      if cursor + 4 > |data| {
        return Overrun;
      }
      var x := NbTo16(data[cursor], data[cursor + 1]);
      var y := NbTo16(data[cursor + 2], data[cursor + 3]);
      vertices := vertices + [Point(TuyaToMars(res, x), TuyaToMars(res, y))];
      cursor := cursor + 4;
    }
    ContinuesEnd(whole, dec, data, cursor, vertices);
    r := Read(Polygon(count, vertices), cursor);
  }

  // ---- where everything lies ----

  /** A vertex is its x word and then its y word. */
  lemma VertexLayout(res: Resolution, p: Point)
    ensures var e := EncodeVertex(res, p);
            && |e| == 4
            && NbTo16(e[0], e[1]) == ToInt16(MarsToTuya(res, p.x))
            && NbTo16(e[2], e[3]) == ToInt16(MarsToTuya(res, p.y))
  {
    NetworkOrder16(MarsToTuya(res, p.x), 0, 0);
    NetworkOrder16(MarsToTuya(res, p.y), 0, 0);
  }

  lemma VerticesLayout(res: Resolution, vs: seq<Point>, j: nat)
    requires j < |vs|
    ensures var body := EncodeAll(VertexEncoder(res), vs);
            |body| == 4 * |vs| && At(body, 4 * j, VertexEncoder(res)(vs[j]))
  {
    EncodedLength(VertexEncoder(res), vs, 4);
    EncodedLength(VertexEncoder(res), vs[..j], 4);
    EncodedAt(VertexEncoder(res), vs, j);
  }

  lemma BehindCount(whole: seq<byte>, count: byte, body: seq<byte>, at: nat, inner: seq<byte>)
    requires whole == [count] + body && At(body, at, inner)
    ensures |whole| == 1 + |body| && whole[0] == count && At(whole, 1 + at, inner)
  {
    assert At(whole, 1, body);
    AtInside(whole, 1, body, at, inner);
  }

  lemma CountedVertices(res: Resolution, count: byte, vs: seq<Point>, j: nat)
    requires j < |vs|
    ensures var e := [count] + EncodeAll(VertexEncoder(res), vs);
            |e| == 1 + 4 * |vs| && At(e, 1 + 4 * j, EncodeVertex(res, vs[j]))
  {
    var body := EncodeAll(VertexEncoder(res), vs);
    VerticesLayout(res, vs, j);
    BehindCount([count] + body, count, body, 4 * j, VertexEncoder(res)(vs[j]));
  }

  /** A polygon is its count and then its vertices in order, four bytes each. */
  lemma PolygonLayout(res: Resolution, g: Polygon, j: nat)
    requires j < g.count <= |g.vertices|
    ensures var e := EncodePolygon(res, g);
            && |e| == 1 + 4 * g.count && (e[0] - g.count) % 0x100 == 0
            && At(e, 1 + 4 * j, EncodeVertex(res, g.vertices[j]))
  {
    ByteIsCongruent(g.count);
    CountedVertices(res, ToByte(g.count), First(g.count, g.vertices), j);
  }

  /** What arrives of a polygon: its count, and each coordinate within resolution/20 exactly if it fits its word. */
  lemma PolygonArrives(res: Resolution, data: seq<byte>, pos: nat, g: Polygon, j: nat)
    requires FitsPolygon(g) && j < g.count && At(data, pos, EncodePolygon(res, g))
    ensures var r := DecodePolygon(res, data, pos);
            && r.Read? && r.value.count == |r.value.vertices| == g.count
            && var p, q := g.vertices[j], r.value.vertices[j];
               && (Abs(q.x - p.x) <= res / 20.0 <==> FitsInt16(MarsToTuya(res, p.x)))
               && (Abs(q.y - p.y) <= res / 20.0 <==> FitsInt16(MarsToTuya(res, p.y)))
  {
    PolygonInverts(res, data, pos, g);
    var p := First(g.count, g.vertices)[j];
    SnapErrorBound(res, p.x);
    SnapErrorBound(res, p.y);
    assert SnapPolygon(res, g).vertices[j] == SnapPoint(res, p);
  }

  // ---- names ----

  // std::string::resize(19, 0)
  function Resize(name: seq<byte>): (field: seq<byte>)
    ensures |field| == NAME_FIELD
  {
    if |name| >= NAME_FIELD then name[..NAME_FIELD] else name + seq(NAME_FIELD - |name|, _ => 0)
  }

  // The names of the message after n of its records have been printed.
  function Printed(named: bool, n: int, names: seq<seq<byte>>): (r: seq<seq<byte>>)
    ensures |r| == |names|
  {
    seq(|names|, k requires 0 <= k < |names| => if named && k < n then Resize(names[k]) else names[k])
  }

  lemma PrintedNone(named: bool, n: int, names: seq<seq<byte>>)
    requires !named || n <= 0
    ensures Printed(named, n, names) == names
  {}

  // One turn of a printing loop.
  lemma PrintedNext(named: bool, n: nat, names: seq<seq<byte>>)
    requires named ==> n < |names|
    ensures Printed(named, n + 1, names) ==
            if named then Printed(named, n, names)[n := Resize(names[n])] else Printed(named, n, names)
  {}

  function EncodeName(name: seq<byte>): seq<byte> {
    [ToByte(|name|)] + Resize(name)
  }

  /** A name is its length byte and then 19 bytes, the name cut off or padded with NULs. */
  lemma NameLayout(name: seq<byte>, k: nat)
    requires k < 19
    ensures var e := EncodeName(name);
            |e| == 20 && (e[0] - |name|) % 0x100 == 0 && e[1 + k] == if k < |name| then name[k] else 0
  {
    ByteIsCongruent(|name|);
  }

  // The parser trusts the length byte, even beyond the 19-byte field, and appends a NUL.
  function DecodeName(data: seq<byte>, pos: nat): Read<seq<byte>> {
    if pos < |data| && pos + 1 + data[pos] <= |data| then
      Read(data[pos + 1..pos + 1 + data[pos]] + [0], pos + 1 + NAME_FIELD)
    else Overrun
  }

  // A C string reader's view: everything before the first NUL.
  function CString(s: seq<byte>): seq<byte> {
    if s == [] || s[0] == 0 then [] else [s[0]] + CString(s[1..])
  }

  lemma NameInverts(data: seq<byte>, pos: nat, name: seq<byte>)
    requires |name| <= NAME_FIELD
    requires At(data, pos, EncodeName(name))
    ensures DecodeName(data, pos) == Read(name + [0], pos + 1 + NAME_FIELD)
  {
    AtCons(data, pos, |name|, Resize(name));
    var field := data[pos + 1..pos + 1 + NAME_FIELD];
    assert field == Resize(name);
    assert data[pos + 1..pos + 1 + |name|] == field[..|name|];
    assert Resize(name)[..|name|] == name;
    assert data[pos] == |name|;
  }

  // A byte other than the one a long name continues with.
  function WrongByte(name: seq<byte>): byte {
    if |name| > NAME_FIELD && name[NAME_FIELD] == 0 then 1 else 0
  }

  // A frame in which a name that does not fit its field is followed by the wrong bytes.
  function Surround(prefix: seq<byte>, name: seq<byte>): seq<byte> {
    prefix + EncodeName(name) + seq(0xFF, _ => WrongByte(name))
  }

  lemma SurroundHolds(prefix: seq<byte>, name: seq<byte>)
    ensures var data := Surround(prefix, name); var p := |prefix|;
            && |data| == p + 1 + NAME_FIELD + 0xFF
            && At(data, p, EncodeName(name))
            && data[p] == ToByte(|name|)
            && data[p + 1..p + 1 + NAME_FIELD] == Resize(name)
            && data[p + 1 + NAME_FIELD] == WrongByte(name)
  {
    var data := Surround(prefix, name);
    assert data[|prefix|..|prefix| + 1 + NAME_FIELD] == EncodeName(name);
    AtCons(data, |prefix|, ToByte(|name|), Resize(name));
  }

  lemma SurroundParses(prefix: seq<byte>, name: seq<byte>)
    ensures var data := Surround(prefix, name); var n: int := ToByte(|name|);
            && At(data, |prefix|, EncodeName(name)) && DecodeName(data, |prefix|).Read?
            && var got := DecodeName(data, |prefix|).value;
               && |got| == n + 1 && got[n] == 0
               && (n > NAME_FIELD ==> got[NAME_FIELD] == WrongByte(name))
  {
    SurroundHolds(prefix, name);
  }

  /** A name survives the trip in every surrounding frame exactly when it fits the 19-byte field. */
  lemma NameSurvivesIff(name: seq<byte>)
    ensures (forall data: seq<byte>, pos: nat {:trigger DecodeName(data, pos)} ::
               At(data, pos, EncodeName(name)) && DecodeName(data, pos).Read?
               ==> DecodeName(data, pos).value == name + [0])
            <==> |name| <= 19
  {
    if |name| <= NAME_FIELD {
      forall data: seq<byte>, pos: nat | At(data, pos, EncodeName(name)) {
        NameInverts(data, pos, name);
      }
    } else {
      LongNameLost([], name);
    }
  }

  lemma LongNameLost(prefix: seq<byte>, name: seq<byte>)
    requires |name| > NAME_FIELD
    ensures var data := Surround(prefix, name);
            && At(data, |prefix|, EncodeName(name)) && DecodeName(data, |prefix|).Read?
            && DecodeName(data, |prefix|).value != name + [0]
  {
    SurroundParses(prefix, name);
    var got := DecodeName(Surround(prefix, name), |prefix|).value;
    if ToByte(|name|) > NAME_FIELD {
      assert got[NAME_FIELD] != (name + [0])[NAME_FIELD];
    } else {
      assert |got| < |name + [0]|;
    }
  }

  // ---- names as a C string reader sees them ----

  lemma {:induction false} CStringEnds(s: seq<byte>)
    ensures var k := |CString(s)|;
            k <= |s| && CString(s) == s[..k] && (forall i :: 0 <= i < k ==> s[i] != 0) && (k < |s| ==> s[k] == 0)
  {
    if s != [] && s[0] != 0 {
      CStringEnds(s[1..]);
    }
  }

  lemma {:induction false} CStringIs(s: seq<byte>, k: nat)
    requires k <= |s| && (forall i :: 0 <= i < k ==> s[i] != 0) && (k < |s| ==> s[k] == 0)
    ensures CString(s) == s[..k]
  {
    if k > 0 {
      CStringIs(s[1..], k - 1);
    }
  }

  // The longest text that a printed name brings back in every frame.
  function TextLimit(name: seq<byte>): nat {
    if ToByte(|name|) <= NAME_FIELD then ToByte(|name|) else NAME_FIELD - 1
  }

  lemma TextKept(data: seq<byte>, pos: nat, name: seq<byte>)
    requires |CString(name)| <= TextLimit(name)
    requires At(data, pos, EncodeName(name)) && DecodeName(data, pos).Read?
    ensures CString(DecodeName(data, pos).value) == CString(name)
  {
    AtCons(data, pos, ToByte(|name|), Resize(name));
    var k, n: int, got := |CString(name)|, data[pos], DecodeName(data, pos).value;
    CStringEnds(name);
    var field := data[pos + 1..pos + 1 + NAME_FIELD];
    assert field == Resize(name);
    forall i | 0 <= i <= k && i < n
      ensures got[i] == field[i]
    {}
    CStringIs(got, k);
    assert got[..k] == name[..k];
  }

  /** The text of a name, up to its first NUL, survives in every surrounding frame exactly when it is no longer
      than the length byte says and, if that points beyond the 19-byte field, leaves room for a NUL in the field. */
  lemma TextSurvivesIff(name: seq<byte>)
    ensures (forall data: seq<byte>, pos: nat {:trigger DecodeName(data, pos)} ::
               At(data, pos, EncodeName(name)) && DecodeName(data, pos).Read?
               ==> CString(DecodeName(data, pos).value) == CString(name))
            <==> |CString(name)| <= if |name| % 0x100 <= 19 then |name| % 0x100 else 18
  {
    if |CString(name)| <= TextLimit(name) {
      forall data: seq<byte>, pos: nat | At(data, pos, EncodeName(name)) && DecodeName(data, pos).Read? {
        TextKept(data, pos, name);
      }
    } else {
      LongTextLost(name);
    }
  }

  lemma LongTextLost(name: seq<byte>)
    requires |CString(name)| > TextLimit(name)
    ensures var data := Surround([], name);
            && At(data, 0, EncodeName(name)) && DecodeName(data, 0).Read?
            && CString(DecodeName(data, 0).value) != CString(name)
  {
    SurroundParses([], name);
    TextDiffers(name, DecodeName(Surround([], name), 0).value);
  }

  lemma TextDiffers(name: seq<byte>, got: seq<byte>)
    requires |CString(name)| > TextLimit(name)
    requires |got| == ToByte(|name|) + 1 && got[|got| - 1] == 0
    requires |got| - 1 > NAME_FIELD ==> got[NAME_FIELD] == WrongByte(name)
    ensures CString(got) != CString(name)
  {
    CStringEnds(name);
    CStringEnds(got);
    var n := |got| - 1;
    if n <= NAME_FIELD {
      assert |CString(got)| <= n;
    } else if name[NAME_FIELD] == 0 {
      assert |CString(name)| == NAME_FIELD && got[NAME_FIELD] != 0;
    } else {
      assert |CString(name)| > NAME_FIELD >= |CString(got)|;
    }
  }

  method AppendName(prefix: seq<byte>, name: seq<byte>) returns (raw: seq<byte>, resized: seq<byte>)
    ensures raw == prefix + EncodeName(name)
    ensures resized == Resize(name)
  {
    raw := prefix + [ToByte(|name|)];
    resized := Resize(name);
    for j := 0 to NAME_FIELD
      invariant raw == prefix + [ToByte(|name|)] + resized[..j]
    {
      raw := raw + [resized[j]];
    }
  }

  method ReadName(data: seq<byte>, start: nat) returns (r: Read<seq<byte>>)
    ensures r == DecodeName(data, start)
  {
    if start >= |data| {
      return Overrun;
    }
    var nameLen := data[start];
    var name := [];
    for j := 0 to nameLen
      invariant start + 1 + j <= |data|
      invariant name == data[start + 1..start + 1 + j]
    {
      if start + 1 + j >= |data| {
        return Overrun;
      }
      name := name + [data[start + 1 + j]];
    }
    r := Read(name + [0], start + 1 + NAME_FIELD);
  }

  // ---- outlines: a polygon, followed by a name in the newer protocol versions ----

  datatype Outline = Outline(polygon: Polygon, name: seq<byte>)

  function EncodeOutline(named: bool, res: Resolution, o: Outline): seq<byte> {
    EncodePolygon(res, o.polygon) + if named then EncodeName(o.name) else []
  }

  function DecodeOutline(named: bool, res: Resolution, data: seq<byte>, pos: nat): Read<Outline> {
    match DecodePolygon(res, data, pos)
    case Overrun => Overrun
    case Read(g, next) =>
      if !named then Read(Outline(g, []), next) else
      match DecodeName(data, next)
      case Overrun => Overrun
      case Read(name, end) => Read(Outline(g, name), end)
  }

  predicate FitsOutline(named: bool, o: Outline) {
    FitsPolygon(o.polygon) && (named ==> |o.name| <= NAME_FIELD)
  }

  // What the other side reads: vertices snapped to the wire grid, a NUL after the name.
  function ReceivedOutline(named: bool, res: Resolution, o: Outline): Outline {
    Outline(SnapPolygon(res, o.polygon), if named then o.name + [0] else [])
  }

  lemma OutlineInverts(named: bool, res: Resolution, data: seq<byte>, pos: nat, o: Outline)
    requires FitsOutline(named, o)
    requires At(data, pos, EncodeOutline(named, res, o))
    ensures DecodeOutline(named, res, data, pos) ==
            Read(ReceivedOutline(named, res, o), pos + |EncodeOutline(named, res, o)|)
  {
    var shape := EncodePolygon(res, o.polygon);
    AtConcat(data, pos, shape, if named then EncodeName(o.name) else []);
    PolygonInverts(res, data, pos, o.polygon);
    if named {
      NameInverts(data, pos + |shape|, o.name);
    }
  }

  lemma OutlineReproduces(res: Resolution, data: seq<byte>, pos: nat)
    requires DecodeOutline(false, res, data, pos).Read?
    ensures var r := DecodeOutline(false, res, data, pos);
            At(data, pos, EncodeOutline(false, res, r.value)) && r.next == pos + |EncodeOutline(false, res, r.value)|
  {
    PolygonReproduces(res, data, pos);
    var shape := EncodePolygon(res, DecodePolygon(res, data, pos).value);
    assert shape + [] == shape;
  }

  // ---- the second trip: printing what was parsed, and parsing that ----

  lemma OutlineParts(res: Resolution, data: seq<byte>, pos: nat, o: Outline)
    requires At(data, pos, EncodeOutline(true, res, o))
    ensures At(data, pos, EncodePolygon(res, o.polygon))
    ensures At(data, pos + |EncodePolygon(res, o.polygon)|, EncodeName(o.name))
  {
    var shape, field := EncodePolygon(res, o.polygon), EncodeName(o.name);
    assert EncodeOutline(true, res, o) == shape + field;
    AtConcat(data, pos, shape, field);
  }

  lemma DecodeNamedStep(res: Resolution, data: seq<byte>, pos: nat, g: Polygon, next: nat)
    requires DecodePolygon(res, data, pos) == Read(g, next)
    ensures DecodeOutline(true, res, data, pos) ==
            match DecodeName(data, next)
            case Overrun => Overrun
            case Read(name, end) => Read(Outline(g, name), end)
  {}

  // A printed outline on the wire grid: the polygon comes back as it is, the name as its bytes allow.
  lemma PrintedOutline(res: Resolution, data: seq<byte>, pos: nat, o: Outline)
    requires FitsPolygon(o.polygon) && SnapPolygon(res, o.polygon) == o.polygon
    requires At(data, pos, EncodeOutline(true, res, o))
    ensures var p := pos + |EncodePolygon(res, o.polygon)|;
            && At(data, p, EncodeName(o.name))
            && DecodeOutline(true, res, data, pos) ==
               match DecodeName(data, p)
               case Overrun => Overrun
               case Read(name, end) => Read(Outline(o.polygon, name), end)
  {
    OutlineParts(res, data, pos, o);
    PolygonInverts(res, data, pos, o.polygon);
    DecodeNamedStep(res, data, pos, o.polygon, pos + |EncodePolygon(res, o.polygon)|);
  }

  function AddNul(o: Outline): Outline {
    o.(name := o.name + [0])
  }

  lemma ShortNameAgain(res: Resolution, data: seq<byte>, pos: nat, o: Outline)
    requires FitsPolygon(o.polygon) && SnapPolygon(res, o.polygon) == o.polygon && |o.name| <= NAME_FIELD
    requires At(data, pos, EncodeOutline(true, res, o))
    ensures DecodeOutline(true, res, data, pos) == Read(AddNul(o), pos + |EncodeOutline(true, res, o)|)
  {
    PrintedOutline(res, data, pos, o);
    NameInverts(data, pos + |EncodePolygon(res, o.polygon)|, o.name);
  }

  /** What was parsed survives being printed and parsed again, in every surrounding frame and with one more NUL,
      exactly when the name it came with had at most 18 bytes. */
  lemma SecondTripIff(res: Resolution, request: seq<byte>, start: nat)
    requires DecodeOutline(true, res, request, start).Read?
    ensures var once := DecodeOutline(true, res, request, start).value;
            (forall data: seq<byte>, pos: nat {:trigger DecodeOutline(true, res, data, pos)} ::
               At(data, pos, EncodeOutline(true, res, once)) && DecodeOutline(true, res, data, pos).Read?
               ==> DecodeOutline(true, res, data, pos).value == AddNul(once))
            <==> |once.name| - 1 <= 18
  {
    var once := DecodeOutline(true, res, request, start).value;
    PolygonStable(res, request, start);
    if |once.name| <= NAME_FIELD {
      forall data: seq<byte>, pos: nat | At(data, pos, EncodeOutline(true, res, once))
        ensures DecodeOutline(true, res, data, pos).Read? && DecodeOutline(true, res, data, pos).value == AddNul(once)
      {
        ShortNameAgain(res, data, pos, once);
      }
    } else {
      LongNameAgain(res, once);
    }
  }

  lemma LongNameAgain(res: Resolution, o: Outline)
    requires FitsPolygon(o.polygon) && SnapPolygon(res, o.polygon) == o.polygon && |o.name| > NAME_FIELD
    ensures var data := Surround(EncodePolygon(res, o.polygon), o.name);
            && At(data, 0, EncodeOutline(true, res, o)) && DecodeOutline(true, res, data, 0).Read?
            && DecodeOutline(true, res, data, 0).value != AddNul(o)
  {
    var shape := EncodePolygon(res, o.polygon);
    var data := Surround(shape, o.name);
    LongNameLost(shape, o.name);
    assert At(data, 0, shape);
    AtConcat(data, 0, shape, EncodeName(o.name));
    PrintedOutline(res, data, 0, o);
  }

  // What a request can hold: a polygon on the wire grid.
  predicate OffTheWire(res: Resolution, o: Outline) {
    FitsPolygon(o.polygon) && SnapPolygon(res, o.polygon) == o.polygon
  }

  lemma ParsedOffTheWire(res: Resolution, data: seq<byte>, pos: nat)
    requires DecodeOutline(true, res, data, pos).Read?
    ensures OffTheWire(res, DecodeOutline(true, res, data, pos).value)
  {
    PolygonStable(res, data, pos);
  }

  // A printed name as the parser reads it, `behind` being all that follows its field.
  function NameBack(name: seq<byte>, behind: seq<byte>): Option<seq<byte>> {
    var there := Resize(name) + behind;
    if ToByte(|name|) <= |there| then Some(there[..ToByte(|name|)] + [0]) else None
  }

  function ReadBack(o: Outline, behind: seq<byte>): Option<Outline> {
    match NameBack(o.name, behind)
    case None => None
    case Some(name) => Some(o.(name := name))
  }

  lemma NameBackAt(data: seq<byte>, pos: nat, name: seq<byte>)
    requires At(data, pos, EncodeName(name))
    ensures var end := pos + 1 + NAME_FIELD;
            end <= |data| && DecodeName(data, pos) == ReadAs(NameBack(name, data[end..]), end)
  {
    AtCons(data, pos, ToByte(|name|), Resize(name));
    var end, n: int := pos + 1 + NAME_FIELD, ToByte(|name|);
    var there := Resize(name) + data[end..];
    assert there == data[pos + 1..];
    if n <= |there| {
      assert there[..n] == data[pos + 1..pos + 1 + n];
    }
  }

  lemma OutlineReadBack(res: Resolution, data: seq<byte>, pos: nat, o: Outline, end: nat)
    requires OffTheWire(res, o)
    requires At(data, pos, EncodeOutline(true, res, o)) && end == pos + |EncodeOutline(true, res, o)|
    ensures DecodeOutline(true, res, data, pos) == ReadAs(ReadBack(o, data[end..]), end)
  {
    PrintedOutline(res, data, pos, o);
    NameBackAt(data, pos + |EncodePolygon(res, o.polygon)|, o.name);
  }

  // The name fits its field, or what stands behind the field happens to continue it.
  predicate NameContinues(name: seq<byte>, behind: seq<byte>) {
    || |name| <= NAME_FIELD
    || (|name| <= 0xFF && |name| - NAME_FIELD <= |behind| && behind[..|name| - NAME_FIELD] == name[NAME_FIELD..])
  }

  lemma NameBackIff(name: seq<byte>, behind: seq<byte>)
    ensures NameBack(name, behind) == Some(name + [0]) <==> NameContinues(name, behind)
  {
    var n, there := |name|, Resize(name) + behind;
    if n <= NAME_FIELD {
      assert there[..n] == name;
    } else if n <= 0xFF && n - NAME_FIELD <= |behind| {
      assert there[..n] == name[..NAME_FIELD] + behind[..n - NAME_FIELD];
      LongNameIff(name, behind[..n - NAME_FIELD]);
    } else if NameBack(name, behind).Some? {
      assert |NameBack(name, behind).value| != |name + [0]|;
    }
  }

  lemma LongNameIff(name: seq<byte>, more: seq<byte>)
    requires |name| == NAME_FIELD + |more|
    ensures name[..NAME_FIELD] + more + [0] == name + [0] <==> more == name[NAME_FIELD..]
  {
    var got := name[..NAME_FIELD] + more;
    assert name == name[..NAME_FIELD] + name[NAME_FIELD..];
    if got + [0] == name + [0] {
      assert got == (got + [0])[..|name|] == name;
      assert got[NAME_FIELD..] == more;
    }
  }

  /** A name of 19 bytes fills its field; with the NUL the parser added its length byte reads 20, and the next
      parser takes the byte after the field for part of the name. */
  lemma NineteenSwallowsNext(data: seq<byte>, pos: nat, name: seq<byte>)
    requires |name| == NAME_FIELD + 1
    requires At(data, pos, EncodeName(name)) && pos + 1 + NAME_FIELD < |data|
    ensures var after := data[pos + 1 + NAME_FIELD];
            DecodeName(data, pos) == Read(name[..NAME_FIELD] + [after, 0], pos + 1 + NAME_FIELD)
  {
    NameBackAt(data, pos, name);
    var end := pos + 1 + NAME_FIELD;
    assert (Resize(name) + data[end..])[..NAME_FIELD + 1] == name[..NAME_FIELD] + [data[end]];
    assert name[..NAME_FIELD] + [data[end]] + [0] == name[..NAME_FIELD] + [data[end], 0];
  }

  /** If that name has no NUL of its own, a C string reader notices unless the byte after the field is zero. */
  lemma NineteenSeen(name: seq<byte>, after: byte)
    requires |name| == NAME_FIELD + 1 && name[NAME_FIELD] == 0 && 0 !in name[..NAME_FIELD]
    ensures CString(name[..NAME_FIELD] + [after, 0]) == CString(name) <==> after == 0
  {
    var got := name[..NAME_FIELD] + [after, 0];
    assert forall i :: 0 <= i < NAME_FIELD ==> name[i] == name[..NAME_FIELD][i] == got[i];
    CStringIs(name, NAME_FIELD);
    CStringIs(got, if after == 0 then NAME_FIELD else NAME_FIELD + 1);
    assert got[..NAME_FIELD] == name[..NAME_FIELD];
  }

  lemma ReadBackIff(o: Outline, behind: seq<byte>)
    ensures ReadBack(o, behind) == Some(AddNul(o)) <==> NameContinues(o.name, behind)
  {
    NameBackIff(o.name, behind);
  }

  method AppendOutline(named: bool, res: Resolution, prefix: seq<byte>, o: Outline)
    returns (raw: seq<byte>, resized: seq<byte>)
    requires Sendable(o.polygon)
    ensures raw == prefix + EncodeOutline(named, res, o)
    ensures resized == if named then Resize(o.name) else o.name
  {
    raw := AppendPolygon(res, prefix, o.polygon);
    resized := o.name;
    if named {
      raw, resized := AppendName(raw, o.name);
    }
  }

  method ReadOutline(named: bool, res: Resolution, data: seq<byte>, start: nat) returns (r: Read<Outline>)
    ensures r == DecodeOutline(named, res, data, start)
  {
    var g := ReadPolygon(res, data, start);
    if g.Overrun? {
      return Overrun;
    }
    if !named {
      return Read(Outline(g.value, []), g.next);
    }
    var name := ReadName(data, g.next);
    if name.Overrun? {
      return Overrun;
    }
    r := Read(Outline(g.value, name.value), name.next);
  }
}
