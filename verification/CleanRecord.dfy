/** Clean records: map, path, wall frame and area frame concatenated into one upload blob. */
module CleanRecord {
  import opened Bytes
  import opened Coordinates
  import opened Records
  import VirtualWall
  import RestrictedArea

  // The three length fields of the record description, and the uploaded bytes.
  datatype Record = Record(mapLen: nat, pathLen: nat, virtualLen: nat, blob: seq<byte>)

  datatype Parts = Parts(mapData: seq<byte>, pathData: seq<byte>, wall: seq<byte>, area: seq<byte>)

  function Join(p: Parts): Record {
    Record(|p.mapData|, |p.pathData|, |p.wall| + |p.area|, p.mapData + p.pathData + p.wall + p.area)
  }

  // What a reader of the record can do: the wall frame's length byte says where the area frame starts.
  function Split(r: Record): Parts
    requires r.mapLen + r.pathLen <= |r.blob|
  {
    var frames := r.blob[r.mapLen + r.pathLen..];
    var wallLen := if |frames| < 3 then 0 else if frames[2] + 4 <= |frames| then (frames[2] as int) + 4 else |frames|;
    Parts(r.blob[..r.mapLen], r.blob[r.mapLen..r.mapLen + r.pathLen], frames[..wallLen], frames[wallLen..])
  }

  // The frame reported for a wall query; None when the query failed or returned a negative version.
  datatype WallReply = NoWall | WallReply(version: nat, count: int, walls: seq<VirtualWall.Segment>)

  function WallPart(res: Resolution, w: WallReply): seq<byte> {
    match w
    case NoWall => []
    case WallReply(version, count, walls) =>
      VirtualWall.WallFrame(res, if version == 0 then 0x13 else 0x49, version, count, walls)
  }

  // The same for an area query.
  datatype AreaReply = NoArea | AreaReply(version: nat, count: int, areas: seq<RestrictedArea.Area>)

  function AreaPart(res: Resolution, a: AreaReply): seq<byte> {
    match a
    case NoArea => []
    case AreaReply(version, count, areas) =>
      RestrictedArea.AreaFrame(res, if version == 0 then 0x1B else 0x39, version, count, areas)
  }

  lemma SplitJoin(p: Parts)
    requires p.wall != [] ==> |p.wall| >= 4 && |p.wall| - 4 == p.wall[2]
    requires p.area != [] ==> |p.area| >= 4
    ensures Split(Join(p)) == p <==> p.wall != [] || p.area == []
  {
    var r := Join(p);
    var frames := r.blob[r.mapLen + r.pathLen..];
    JoinParts(p);
    if p.wall != [] {
      assert frames[2] == p.wall[2];
      assert frames[..|p.wall|] == p.wall && frames[|p.wall|..] == p.area;
    }
  }

  lemma JoinParts(p: Parts)
    ensures var r := Join(p);
            && r.mapLen == |p.mapData| && r.pathLen == |p.pathData| && r.virtualLen == |p.wall| + |p.area|
            && r.blob[..r.mapLen] == p.mapData
            && r.blob[r.mapLen..r.mapLen + r.pathLen] == p.pathData
            && r.blob[r.mapLen + r.pathLen..] == p.wall + p.area
  {}

  // Every area frame, of any version, has at least its header.
  lemma AreaFrameSize(res: Resolution, cmd: byte, version: int, count: int, areas: seq<RestrictedArea.Area>)
    ensures |RestrictedArea.AreaFrame(res, cmd, version, count, areas)| >= 4
  {}

  /** The commands under which the two frames are stored, by the version of the reply. */
  lemma StoredCommands(res: Resolution, w: WallReply, a: AreaReply)
    ensures w.WallReply? ==> var f := WallPart(res, w);
              |f| >= 4 && f[0] == 0xAA && f[3] == (if w.version == 0 then 0x13 else 0x49)
    ensures a.AreaReply? ==> var f := AreaPart(res, a);
              |f| >= 4 && f[0] == 0xAA && f[3] == (if a.version == 0 then 0x1B else 0x39)
  {
    if w.WallReply? {
      VirtualWall.HeaderOf(res, if w.version == 0 then 0x13 else 0x49, w.version, w.count, w.walls);
    }
    if a.AreaReply? {
      RestrictedArea.HeaderOf(res, if a.version == 0 then 0x1B else 0x39, a.version, a.count, a.areas);
    }
  }

  /** The blob splits back into its four parts exactly when a wall frame was obtained, or no area frame was. */
  lemma SplitsBackIff(res: Resolution, mapData: seq<byte>, pathData: seq<byte>, w: WallReply, a: AreaReply)
    ensures var p := Parts(mapData, pathData, WallPart(res, w), AreaPart(res, a));
            && |p.wall| <= 86
            && (Split(Join(p)) == p <==> w.WallReply? || a.NoArea?)
  {
    if w.WallReply? {
      VirtualWall.LengthAlwaysExact(res, if w.version == 0 then 0x13 else 0x49, w.version, w.count, w.walls);
    }
    if a.AreaReply? {
      AreaFrameSize(res, if a.version == 0 then 0x1B else 0x39, a.version, a.count, a.areas);
    }
    SplitJoin(Parts(mapData, pathData, WallPart(res, w), AreaPart(res, a)));
  }

  /** With a wall frame in it, a record determines its four parts. */
  lemma SplitUnique(p: Parts, q: Parts)
    requires |p.wall| >= 4 && |p.wall| - 4 == p.wall[2] && (p.area != [] ==> |p.area| >= 4)
    requires |q.wall| >= 4 && |q.wall| - 4 == q.wall[2] && (q.area != [] ==> |q.area| >= 4)
    requires Join(p) == Join(q)
    ensures p == q
  {
    SplitJoin(p);
    SplitJoin(q);
  }

  predicate CanPrint(area: RestrictedArea.AppRestrictedArea)
    reads area
  {
    RestrictedArea.HasFrame(area.version) ==> area.Sendable(RestrictedArea.LayoutOf(area.version))
  }

  // An unknown version has a frame without records, so the vectors are not looked at.
  function AreaQuery(area: RestrictedArea.AppRestrictedArea?): AreaReply
    requires area != null ==> CanPrint(area)
    reads if area != null then {area} else {}
  {
    if area == null || area.version < 0 then NoArea
    else AreaReply(area.version, area.count, if RestrictedArea.HasFrame(area.version) then area.Areas() else [])
  }

  function WallQuery(wall: VirtualWall.AppVirtualWall?): WallReply
    reads if wall != null then {wall} else {}
  {
    if wall == null || wall.version < 0 then NoWall else WallReply(wall.version, wall.count, wall.wall)
  }

  /** A reply is used if there is one and its version is not negative. */
  lemma QueriesUsed(wall: VirtualWall.AppVirtualWall?, area: RestrictedArea.AppRestrictedArea?)
    requires area != null ==> CanPrint(area)
    ensures WallQuery(wall).WallReply? <==> wall != null && wall.version >= 0
    ensures WallQuery(wall).WallReply? ==>
              WallQuery(wall) == WallReply(wall.version, wall.count, wall.wall)
    ensures AreaQuery(area).AreaReply? <==> area != null && area.version >= 0
    ensures AreaQuery(area).AreaReply? ==>
              && AreaQuery(area).version == area.version && AreaQuery(area).count == area.count
              && (area.version <= 2 ==> AreaQuery(area).areas == area.Areas())
  {}

  method ReportWalls(res: Resolution, wall: VirtualWall.AppVirtualWall?) returns (frame: seq<byte>)
    requires wall != null && wall.version == 0 && wall.count <= VirtualWall.MAX_WALLS ==> wall.count <= |wall.wall|
    modifies wall
    ensures frame == old(WallPart(res, WallQuery(wall)))
  {
    frame := [];
    if wall != null && wall.version >= 0 {
      frame := wall.ToData(res, if wall.version == 0 then 0x13 else 0x49);
    }
  }

  method ReportAreas(res: Resolution, area: RestrictedArea.AppRestrictedArea?) returns (frame: seq<byte>)
    requires area != null ==> CanPrint(area)
    modifies area
    ensures frame == old(AreaPart(res, AreaQuery(area)))
  {
    frame := [];
    if area != null && area.version >= 0 {
      frame := area.ToData(res, if area.version == 0 then 0x1B else 0x39);
    }
  }

  // The assembling part of ReportCleanRecords. A file that cannot be opened aborts the record; a failed
  // query (null) only leaves its frame out.
  method Assemble(res: Resolution, mapFile: Option<seq<byte>>, pathFile: Option<seq<byte>>,
                  wall: VirtualWall.AppVirtualWall?, area: RestrictedArea.AppRestrictedArea?)
    returns (record: Option<Record>)
    requires wall != null && wall.version == 0 && wall.count <= VirtualWall.MAX_WALLS ==> wall.count <= |wall.wall|
    requires area != null ==> CanPrint(area)
    modifies wall, area
    ensures record.None? <==> mapFile.None? || pathFile.None?
    ensures record.Some? ==>
              record.value == Join(Parts(mapFile.value, pathFile.value,
                                         old(WallPart(res, WallQuery(wall))), old(AreaPart(res, AreaQuery(area)))))
    ensures record.Some? ==>
              record.value.mapLen + record.value.pathLen + record.value.virtualLen == |record.value.blob|
  {
    if mapFile.None? || pathFile.None? {
      return None;
    }
    var wallFrame := ReportWalls(res, wall);
    var areaFrame := ReportAreas(res, area);
    var combined := mapFile.value;
    combined := combined + pathFile.value;
    combined := combined + wallFrame;
    combined := combined + areaFrame;
    record := Some(Record(|mapFile.value|, |pathFile.value|, |wallFrame| + |areaFrame|, combined));
  }
}
