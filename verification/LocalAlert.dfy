/** Local timers v1.0.0: request 0x30, report frame 0x31. */
module LocalAlert {
  import opened Bytes
  import opened Records
  import opened Frames
  import opened Shapes

  // Only the first roomN room ids are sent.
  datatype TimedTaskInfo = TimedTaskInfo(
    valid: byte, weekDayMask: byte, time: int16, roomN: byte, roomId: seq<byte>,
    cleanMode: byte, fan: byte, water: byte, cleanRepeat: byte)

  datatype AppLocalAlert = AppLocalAlert(timeZone: byte, number: int, tasks: seq<TimedTaskInfo>)

  predicate Sendable(t: TimedTaskInfo) {
    t.roomN <= |t.roomId|
  }

  function Head(t: TimedTaskInfo): (h: seq<byte>)
    ensures |h| == 5
  {
    [t.valid, t.weekDayMask] + ToNb16(t.time) + [t.roomN]
  }

  function Footer(t: TimedTaskInfo): (f: seq<byte>)
    ensures |f| == 4
  {
    [t.cleanMode, t.fan, t.water, t.cleanRepeat]
  }

  function EncodeTask(t: TimedTaskInfo): seq<byte> {
    Head(t) + (First(t.roomN, t.roomId) + Footer(t))
  }

  // The parser pads an empty room list to one zero element.
  function PadRooms(rooms: seq<byte>): seq<byte> {
    if rooms == [] then [0] else rooms
  }

  function DecodeTask(data: seq<byte>, pos: nat): Read<TimedTaskInfo> {
    if pos + 5 > |data| then Overrun else
    var rooms := pos + 5;
    var next := rooms + data[pos + 4];
    if next + 4 > |data| then Overrun else
    Read(TimedTaskInfo(data[pos], data[pos + 1], NbTo16(data[pos + 2], data[pos + 3]),
                       data[pos + 4], PadRooms(data[rooms..next]),
                       data[next], data[next + 1], data[next + 2], data[next + 3]), next + 4)
  }

  function TaskEncoder(): Encoder<TimedTaskInfo> {
    t => EncodeTask(t)
  }

  function TaskDecoder(): Decoder<TimedTaskInfo> {
    (data: seq<byte>, pos: nat) => DecodeTask(data, pos)
  }

  function Fits(): TimedTaskInfo -> bool {
    t => Sendable(t)
  }

  function ReceivedTask(t: TimedTaskInfo): TimedTaskInfo {
    t.(roomId := PadRooms(First(t.roomN, t.roomId)))
  }

  function Received(): TimedTaskInfo -> TimedTaskInfo {
    t => ReceivedTask(t)
  }

  lemma HeadAt(data: seq<byte>, pos: nat, t: TimedTaskInfo)
    requires pos + 5 <= |data|
    ensures data[pos..pos + 5] == Head(t) <==>
              && data[pos] == t.valid && data[pos + 1] == t.weekDayMask
              && NbTo16(data[pos + 2], data[pos + 3]) == t.time && data[pos + 4] == t.roomN
  {
    var h, w := data[pos..pos + 5], ToNb16(t.time);
    assert Head(t) == [t.valid, t.weekDayMask, w[0], w[1], t.roomN];
    assert h == [data[pos], data[pos + 1], data[pos + 2], data[pos + 3], data[pos + 4]];
    NetworkOrder16(t.time, data[pos + 2], data[pos + 3]);
    ToInt16Exact(t.time);
  }

  lemma FooterAt(data: seq<byte>, pos: nat, t: TimedTaskInfo)
    requires pos + 4 <= |data|
    ensures data[pos..pos + 4] == Footer(t) <==>
              && data[pos] == t.cleanMode && data[pos + 1] == t.fan
              && data[pos + 2] == t.water && data[pos + 3] == t.cleanRepeat
  {
    assert data[pos..pos + 4] == [data[pos], data[pos + 1], data[pos + 2], data[pos + 3]];
  }

  lemma Pieces(data: seq<byte>, pos: nat, head: seq<byte>, rooms: seq<byte>, footer: seq<byte>)
    requires |head| == 5 && |footer| == 4
    ensures At(data, pos, head + (rooms + footer)) <==>
              && pos + 9 + |rooms| <= |data| && data[pos..pos + 5] == head
              && data[pos + 5..pos + 5 + |rooms|] == rooms
              && data[pos + 5 + |rooms|..pos + 5 + |rooms| + 4] == footer
  {
    AtConcat(data, pos, head, rooms + footer);
    AtConcat(data, pos + 5, rooms, footer);
  }

  lemma TaskInvertsAt(data: seq<byte>, pos: nat, t: TimedTaskInfo)
    requires Sendable(t)
    requires At(data, pos, EncodeTask(t))
    ensures DecodeTask(data, pos) == Read(ReceivedTask(t), pos + |EncodeTask(t)|)
  {
    var rooms := First(t.roomN, t.roomId);
    Pieces(data, pos, Head(t), rooms, Footer(t));
    HeadAt(data, pos, t);
    FooterAt(data, pos + 5 + |rooms|, t);
    var r := DecodeTask(data, pos);
    assert r.value.roomId == PadRooms(rooms);
    assert r.value == ReceivedTask(t);
  }

  lemma TaskInverts()
    ensures Inverts(TaskEncoder(), TaskDecoder(), Fits(), Received())
  {
    forall data: seq<byte>, pos: nat, t: TimedTaskInfo
      ensures InvertsAt(TaskEncoder(), TaskDecoder(), Fits(), Received(), data, pos, t)
    {
      if Sendable(t) && At(data, pos, EncodeTask(t)) {
        TaskInvertsAt(data, pos, t);
      }
    }
  }

  lemma TaskReproducesAt(data: seq<byte>, pos: nat)
    requires DecodeTask(data, pos).Read?
    ensures var r := DecodeTask(data, pos);
            Sendable(r.value) && At(data, pos, EncodeTask(r.value)) && r.next == pos + |EncodeTask(r.value)|
  {
    var t := DecodeTask(data, pos).value;
    var rooms := First(t.roomN, t.roomId);
    assert rooms == data[pos + 5..pos + 5 + |rooms|];
    Pieces(data, pos, Head(t), rooms, Footer(t));
    HeadAt(data, pos, t);
    FooterAt(data, pos + 5 + |rooms|, t);
  }

  lemma TaskReproduces()
    ensures Reproduces(TaskEncoder(), TaskDecoder())
  {
    forall data: seq<byte>, pos: nat | DecodeTask(data, pos).Read? {
      TaskReproducesAt(data, pos);
    }
  }

  /** A printed timer, byte for byte. */
  lemma TaskLayout(t: TimedTaskInfo, i: nat)
    requires Sendable(t)
    ensures var e := EncodeTask(t); var n: int := t.roomN;
            && |e| == 9 + n
            && e[0] == t.valid && e[1] == t.weekDayMask && NbTo16(e[2], e[3]) == t.time && e[4] == t.roomN
            && (i < n ==> e[5 + i] == t.roomId[i])
            && e[5 + n] == t.cleanMode && e[6 + n] == t.fan && e[7 + n] == t.water && e[8 + n] == t.cleanRepeat
  {
    NetworkOrder16(t.time, 0, 0);
    ToInt16Exact(t.time);
  }

  /** Whatever timer is read: its fields are the request's bytes, its rooms the announced ones, and a list without
      rooms holds one zero. */
  lemma ParsedTask(data: seq<byte>, pos: nat)
    requires DecodeTask(data, pos).Read?
    ensures var t := DecodeTask(data, pos).value; var end := pos + 5 + t.roomN;
            && DecodeTask(data, pos).next == end + 4 <= |data|
            && t.valid == data[pos] && t.weekDayMask == data[pos + 1] && t.time == NbTo16(data[pos + 2], data[pos + 3])
            && t.roomN == data[pos + 4]
            && t.roomId == (if t.roomN > 0 then data[pos + 5..end] else [0])
            && t.cleanMode == data[end] && t.fan == data[end + 1]
            && t.water == data[end + 2] && t.cleanRepeat == data[end + 3]
  {}

  // What a receiver should hold of a timer: every field, and of its rooms those announced.
  predicate Recovered(t: TimedTaskInfo, u: TimedTaskInfo) {
    && u.valid == t.valid && u.weekDayMask == t.weekDayMask && u.time == t.time && u.roomN == t.roomN
    && u.cleanMode == t.cleanMode && u.fan == t.fan && u.water == t.water && u.cleanRepeat == t.cleanRepeat
    && (0 < t.roomN <= |t.roomId| ==> u.roomId == t.roomId[..t.roomN])
    && (t.roomN == 0 ==> u.roomId == [0])
  }

  lemma ReceivedIsRecovered(t: TimedTaskInfo)
    ensures Recovered(t, ReceivedTask(t))
  {}

  function Envelope(cmd: byte, timeZone: byte, number: int, body: seq<byte>): seq<byte> {
    Seal(AA_BODY, [0xAA, 0, 0, cmd, timeZone, ToByte(number)] + body)
  }

  // TuyaReportLocalAlert as a function, version 0: prints every task in the vector, whatever `number` says.
  function AlertFrame(cmd: byte, alert: AppLocalAlert): seq<byte> {
    Envelope(cmd, alert.timeZone, alert.number, EncodeAll(TaskEncoder(), alert.tasks))
  }

  // case 0x30
  function Parse(data: seq<byte>): Read<AppLocalAlert> {
    if |data| < 6 then Overrun else
    match DecodeN(TaskDecoder(), data, 6, data[5])
    case Overrun => Overrun
    case Read(tasks, next) => Read(AppLocalAlert(data[4], data[5], tasks), next)
  }

  lemma EnvelopeParts(cmd: byte, timeZone: byte, number: int, sent: seq<byte>, rest: seq<byte>)
    ensures var frame := Envelope(cmd, timeZone, number, sent + rest);
            && |frame| == 7 + |sent| + |rest| && At(frame, 6, sent)
            && frame[0] == 0xAA && frame[3] == cmd && frame[4] == timeZone && frame[5] == ToByte(number)
  {
    SealKeeps(AA_BODY, [0xAA, 0, 0, cmd, timeZone, ToByte(number)], sent + rest);
    AtConcat(Envelope(cmd, timeZone, number, sent + rest), 6, sent, rest);
  }

  lemma ParseEncodedAt(frame: seq<byte>, tasks: seq<TimedTaskInfo>)
    requires forall t :: t in tasks ==> Sendable(t)
    requires At(frame, 6, EncodeAll(TaskEncoder(), tasks)) && frame[5] == |tasks|
    ensures Parse(frame) ==
            Read(AppLocalAlert(frame[4], |tasks|, MapAll(Received(), tasks)), 6 + |EncodeAll(TaskEncoder(), tasks)|)
  {
    TaskInverts();
    DecodeEncoded(TaskEncoder(), TaskDecoder(), Fits(), Received(), frame, 6, tasks);
  }

  // With more timers announced than printed, the parser goes on at the checksum, where no timer fits.
  lemma ParseBeyondAt(frame: seq<byte>, tasks: seq<TimedTaskInfo>)
    requires forall t :: t in tasks ==> Sendable(t)
    requires At(frame, 6, EncodeAll(TaskEncoder(), tasks)) && |frame| == 7 + |EncodeAll(TaskEncoder(), tasks)|
    requires frame[5] > |tasks|
    ensures Parse(frame).Overrun?
  {
    TaskInverts();
    DecodeEncoded(TaskEncoder(), TaskDecoder(), Fits(), Received(), frame, 6, tasks);
    DecodeBeyond(TaskDecoder(), frame, 6, |tasks|, frame[5], |frame| - 1);
  }

  lemma NonEmpty(tasks: seq<TimedTaskInfo>)
    ensures |EncodeAll(TaskEncoder(), tasks)| == 0 <==> tasks == []
  {}

  // What the parser makes of a printed message: it takes the number byte at its word.
  lemma ParseEncoded(cmd: byte, alert: AppLocalAlert)
    requires forall t :: t in alert.tasks ==> Sendable(t)
    ensures var frame := AlertFrame(cmd, alert); var n: int := ToByte(alert.number); var r := Parse(frame);
            if n > |alert.tasks| then r.Overrun?
            else && r.Read?
                 && r.value == AppLocalAlert(alert.timeZone, n, MapAll(Received(), alert.tasks[..n]))
                 && (r.next == |frame| - 1 <==> n == |alert.tasks|)
  {
    var frame := AlertFrame(cmd, alert);
    var n: int := ToByte(alert.number);
    var m := if n <= |alert.tasks| then n else |alert.tasks|;
    var sent, rest := alert.tasks[..m], alert.tasks[m..];
    assert alert.tasks == sent + rest;
    EncodeAllConcat(TaskEncoder(), sent, rest);
    EnvelopeParts(cmd, alert.timeZone, alert.number, EncodeAll(TaskEncoder(), sent), EncodeAll(TaskEncoder(), rest));
    NonEmpty(rest);
    if n <= |alert.tasks| {
      ParseEncodedAt(frame, sent);
    } else {
      ParseBeyondAt(frame, sent);
    }
  }

  lemma RecoveredIff(alert: AppLocalAlert, r: Read<AppLocalAlert>, last: nat)
    requires var n: int := ToByte(alert.number);
             if n > |alert.tasks| then r.Overrun?
             else && r.Read?
                  && r.value == AppLocalAlert(alert.timeZone, n, MapAll(Received(), alert.tasks[..n]))
                  && (r.next == last <==> n == |alert.tasks|)
    ensures r == Read(alert.(tasks := MapAll(Received(), alert.tasks)), last) <==> alert.number == |alert.tasks| <= 0xFF
  {
    if alert.number == |alert.tasks| {
      assert alert.tasks[..alert.number] == alert.tasks;
    }
  }

  /** Round trip, any number of timers with any room counts: the message comes back, room padding aside, with the
      cursor on the checksum byte, exactly when `number` is the true size and fits its byte. Otherwise the parser
      returns the first `number` (modulo 256) timers, or reads past the end if there are fewer. */
  lemma ParseInvertsEncodeIff(cmd: byte, alert: AppLocalAlert)
    requires forall t :: t in alert.tasks ==> Sendable(t)
    ensures var frame := AlertFrame(cmd, alert); var n: int := ToByte(alert.number);
            && (Parse(frame) == Read(alert.(tasks := MapAll(Received(), alert.tasks)), |frame| - 1)
                <==> alert.number == |alert.tasks| <= 0xFF)
            && (Parse(frame).Overrun? <==> n > |alert.tasks|)
            && (Parse(frame).Read? ==> |Parse(frame).value.tasks| == n <= |alert.tasks|)
            && (Parse(frame).Read? ==>
                  forall i :: 0 <= i < n ==> Recovered(alert.tasks[i], Parse(frame).value.tasks[i]))
  {
    ParseEncoded(cmd, alert);
    forall i | 0 <= i < ToByte(alert.number) && i < |alert.tasks|
      ensures Recovered(alert.tasks[i], Received()(alert.tasks[i]))
    {
      ReceivedIsRecovered(alert.tasks[i]);
    }
    RecoveredIff(alert, Parse(AlertFrame(cmd, alert)), |AlertFrame(cmd, alert)| - 1);
  }

  /** Echo: the answer to any request repeats the request's own bytes, padded room lists included. */
  lemma EncodeInvertsParse(data: seq<byte>)
    requires Parse(data).Read?
    ensures var r := Parse(data);
            && 4 <= r.next <= |data|
            && (forall t :: t in r.value.tasks ==> t.roomId != [] && Sendable(t))
            && AlertFrame(0x31, r.value) == Seal(AA_BODY, [0xAA, 0, 0, 0x31] + data[4..r.next])
  {
    TasksReproduced(data);
    ParsedAreSendable(data);
    var r := Parse(data);
    EchoedFrame(data, r.value, r.next);
  }

  lemma TasksReproduced(data: seq<byte>)
    requires Parse(data).Read?
    ensures var r := Parse(data);
            && 6 <= r.next <= |data| && r.value.number == data[5] && r.value.timeZone == data[4]
            && At(data, 6, EncodeAll(TaskEncoder(), r.value.tasks))
            && r.next == 6 + |EncodeAll(TaskEncoder(), r.value.tasks)|
  {
    TaskReproduces();
    EncodeDecoded(TaskEncoder(), TaskDecoder(), data, 6, data[5]);
  }

  lemma EchoedFrame(data: seq<byte>, alert: AppLocalAlert, end: nat)
    requires 6 <= end <= |data| && alert.timeZone == data[4] && alert.number == data[5]
    requires At(data, 6, EncodeAll(TaskEncoder(), alert.tasks))
    requires end == 6 + |EncodeAll(TaskEncoder(), alert.tasks)|
    ensures AlertFrame(0x31, alert) == Seal(AA_BODY, [0xAA, 0, 0, 0x31] + data[4..end])
  {
    assert [0xAA, 0, 0, 0x31, alert.timeZone, ToByte(alert.number)] == [0xAA, 0, 0, 0x31] + data[4..6];
    EchoedBody(0x31, data, 6, EncodeAll(TaskEncoder(), alert.tasks));
  }

  lemma ParsedAreSendable(data: seq<byte>)
    requires Parse(data).Read?
    ensures |Parse(data).value.tasks| == data[5]
    ensures forall t :: t in Parse(data).value.tasks ==> t.roomId != [] && Sendable(t)
  {
    var holds := (t: TimedTaskInfo) => t.roomId != [] && Sendable(t);
    forall d: seq<byte>, p: nat | DecodeTask(d, p).Read?
      ensures holds(DecodeTask(d, p).value)
    {
      TaskReproducesAt(d, p);
    }
    DecodedAreDecoded(TaskDecoder(), data, 6, data[5], holds);
  }

  method AppendTask(prefix: seq<byte>, t: TimedTaskInfo) returns (raw: seq<byte>)
    requires Sendable(t)
    ensures raw == prefix + EncodeTask(t)
  {
    raw := prefix + [t.valid] + [t.weekDayMask] + ToNb16(t.time) + [t.roomN];
    for i := 0 to t.roomN
      invariant raw == prefix + ([t.valid, t.weekDayMask] + ToNb16(t.time) + [t.roomN]) + t.roomId[..i]
    {
      raw := raw + [t.roomId[i]];
    }
    raw := raw + [t.cleanMode] + [t.fan] + [t.water] + [t.cleanRepeat];
    assert First(t.roomN, t.roomId) == t.roomId[..t.roomN];
  }

  // TuyaReportLocalAlert
  method Report(cmd: byte, alert: AppLocalAlert) returns (raw: seq<byte>)
    requires forall t :: t in alert.tasks ==> Sendable(t)
    ensures raw == AlertFrame(cmd, alert)
  {
    raw := [0xAA, 0x00, 0x00, cmd, alert.timeZone, ToByte(alert.number)];
    ghost var head, enc := raw, TaskEncoder();
    for i := 0 to |alert.tasks|
      invariant raw + EncodeAll(enc, alert.tasks[i..]) == head + EncodeAll(enc, alert.tasks)
    {
      EncodeNext(enc, alert.tasks, i, raw, EncodeTask(alert.tasks[i]));
      raw := AppendTask(raw, alert.tasks[i]);
    }
    assert alert.tasks[|alert.tasks|..] == [] && raw + [] == raw;
    raw := SealFrame(AA_BODY, raw);
  }

  method ReadTask(data: seq<byte>, start: nat) returns (r: Read<TimedTaskInfo>)
    ensures r == DecodeTask(data, start)
  {
    if start + 5 > |data| {
      return Overrun;
    }
    var roomN, cursor, rooms := data[start + 4], start + 5, [];
    for j := 0 to roomN
      invariant cursor == start + 5 + j <= |data|
      invariant rooms == data[start + 5..cursor]
    {
      if cursor >= |data| {
        return Overrun;
      }
      rooms, cursor := rooms + [data[cursor]], cursor + 1;
    }
    if cursor + 4 > |data| {
      return Overrun;
    }
    if rooms == [] {
      rooms := [0];
    }
    r := Read(TimedTaskInfo(data[start], data[start + 1], NbTo16(data[start + 2], data[start + 3]), roomN, rooms,
                            data[cursor], data[cursor + 1], data[cursor + 2], data[cursor + 3]), cursor + 4);
  }

  method ReadTasks(data: seq<byte>, start: nat, number: byte) returns (r: Read<seq<TimedTaskInfo>>)
    ensures r == DecodeN(TaskDecoder(), data, start, number)
  {
    ghost var dec := TaskDecoder();
    var tasks: seq<TimedTaskInfo>, cursor := [], start;
    ghost var whole := DecodeN(dec, data, start, number);
    ContinuesNone(whole);
    for i := 0 to number
      invariant Continues(whole, tasks, DecodeN(dec, data, cursor, number - i))
    {
      ContinuesNext(whole, dec, data, cursor, number - i, tasks);
      var t := ReadTask(data, cursor);
      if t.Overrun? {
        return Overrun;
      }
      tasks, cursor := tasks + [t.value], t.next;
    }
    ContinuesEnd(whole, dec, data, cursor, tasks);
    r := Read(tasks, cursor);
  }

  // case 0x30
  method Handle(data: seq<byte>, delivered: bool) returns (outcome: Outcome)
    ensures outcome == match Parse(data)
                       case Overrun => Undefined
                       case Read(alert, _) => if delivered then Answered(AlertFrame(0x31, alert)) else Silent
  {
    if |data| < 6 {
      return Undefined;
    }
    var tasks := ReadTasks(data, 6, data[5]);
    if tasks.Overrun? {
      return Undefined;
    }
    if !delivered {
      return Silent;
    }
    ParsedAreSendable(data);
    var raw := Report(0x31, AppLocalAlert(data[4], data[5], tasks.value));
    outcome := Answered(raw);
  }
}
