/** Room cleaning: request 0x14, report frame 0x15. */
module RoomClean {
  import opened Bytes
  import opened Records
  import opened Frames

  const MAX_REPEAT := 2

  datatype AppRoomClean = AppRoomClean(cleanRepeat: byte, count: int, ids: seq<byte>)

  // TuyaReportRoomClean as a function: every id in the vector is sent, whatever the count says.
  function RoomFrame(cmd: byte, room: AppRoomClean): seq<byte> {
    Seal(AA_BODY, [0xAA, 0, 0, cmd, room.cleanRepeat, ToByte(room.count)] + room.ids)
  }

  // case 0x14: repeat counts above two become one.
  function Parse(data: seq<byte>): Read<AppRoomClean> {
    if |data| < 6 then Overrun else
    var next: nat := 6 + (data[5] as int);
    if next > |data| then Overrun else
    Read(AppRoomClean(if data[4] > MAX_REPEAT then 1 else data[4], data[5], data[6..next]), next)
  }

  /** What a request asks for: its repeat count, one if above two, and the announced room ids. */
  lemma ParsedRooms(data: seq<byte>)
    requires Parse(data).Read?
    ensures var room := Parse(data).value;
            && (data[4] <= 2 ==> room.cleanRepeat == data[4]) && (data[4] > 2 ==> room.cleanRepeat == 1)
            && room.count == |room.ids| == data[5] && 6 + |room.ids| <= |data|
            && forall i :: 0 <= i < |room.ids| ==> room.ids[i] == data[6 + i]
  {}

  /** Where a report carries it. */
  lemma RoomLayout(cmd: byte, room: AppRoomClean)
    ensures var f := RoomFrame(cmd, room);
            && |f| == 7 + |room.ids| && f[0] == 0xAA && f[3] == cmd && f[4] == room.cleanRepeat
            && (f[5] - room.count) % 0x100 == 0 && At(f, 6, room.ids)
  {
    SealKeeps(AA_BODY, [0xAA, 0, 0, cmd, room.cleanRepeat, ToByte(room.count)], room.ids);
    ByteIsCongruent(room.count);
  }

  /** Round trip: the message comes back, the cursor on the checksum byte, exactly when its repeat count is at
      most two and its count is the true number of ids. */
  lemma ParseInvertsEncodeIff(cmd: byte, room: AppRoomClean)
    ensures var frame := RoomFrame(cmd, room);
            Parse(frame) == Read(room, |frame| - 1) <==>
              room.cleanRepeat <= 2 && room.count == |room.ids| && |room.ids| <= 0xFF
  {
    var head := [0xAA, 0, 0, cmd, room.cleanRepeat, ToByte(room.count)];
    var frame := RoomFrame(cmd, room);
    SealKeeps(AA_BODY, head, room.ids);
    assert frame[4] == head[4] && frame[5] == head[5];
    assert frame[6..6 + |room.ids|] == room.ids;
  }

  /** Echo: the answer repeats the request's bytes exactly when the requested repeat count is at most two. */
  lemma EncodeInvertsParseIff(data: seq<byte>)
    requires Parse(data).Read?
    ensures var r := Parse(data);
            && 6 <= r.next <= |data|
            && (RoomFrame(0x15, r.value) == Seal(AA_BODY, [0xAA, 0, 0, 0x15] + data[4..r.next])
                <==> data[4] <= 2)
  {
    var r := Parse(data);
    var raw := [0xAA, 0, 0, 0x15] + data[4..r.next];
    assert data[4..r.next] == [data[4], data[5]] + r.value.ids;
    assert raw == [0xAA, 0, 0, 0x15, data[4], data[5]] + r.value.ids;
    assert RoomFrame(0x15, r.value)[4] == r.value.cleanRepeat && Seal(AA_BODY, raw)[4] == data[4];
  }

  // case 0x14
  method Handle(data: seq<byte>, delivered: bool) returns (outcome: Outcome)
    ensures outcome == match Parse(data)
                       case Overrun => Undefined
                       case Read(room, _) => if delivered then Answered(RoomFrame(0x15, room)) else Silent
  {
    if |data| < 6 {
      return Undefined;
    }
    var cleanRepeat := data[4];
    if cleanRepeat > MAX_REPEAT {
      cleanRepeat := 1;
    }
    var count, ids := data[5], [];
    for i := 0 to count
      invariant 6 + i <= |data|
      invariant ids == data[6..6 + i]
    {
      if 6 + i >= |data| {
        return Undefined;
      }
      ids := ids + [data[6 + i]];
    }
    if !delivered {
      return Silent;
    }
    var raw := SealFrame(AA_BODY, [0xAA, 0x00, 0x00, 0x15, cleanRepeat, ToByte(count)] + ids);
    outcome := Answered(raw);
  }
}
