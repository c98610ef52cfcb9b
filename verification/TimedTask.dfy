/** The timed-task thread interleaved with the setters that other threads call. */
module TimedTask {
  import opened NotDisturb

  const ONE_MINUTE := 60000

  // A timer as the scheduler sees it. Fields it only passes on are not listed.
  datatype Task = Task(valid: int, weekDayMask: int, time: int)

  datatype AppLocalAlert = AppLocalAlert(verison: int, tasks: seq<Task>)

  // A millisecond reading of the system clock, a uint64_t. The program itself sets that clock, so nothing is
  // assumed about the order of readings.
  type Millis = m: int | 0 <= m < 0x1_0000_0000_0000_0000

  // Messages sent to the robot and, for Report, to the app.
  datatype Event =
    | NotDisturbMode(param: int)
    | StartTask(task: Task)
    | SyncTasks(alert: AppLocalAlert)
    | Report(cmd: int, alert: AppLocalAlert)

  // The fields of the TimedTask object, and the messages sent so far.
  datatype Vars = Vars(
    dnd: AppNotDisturbTime, alert: AppLocalAlert, last: bool, ran: bool, startTime: Millis, events: seq<Event>)

  predicate IsOn(d: AppNotDisturbTime) {
    d.version >= 0 && d.onoff == 1
  }

  // ---- the pieces of one turn of the thread ----

  function CheckWindow(v: Vars, c: Clock): Vars {
    if v.dnd.version < 0 then v else
    var inside := IsInNotDisturbTime(c.hour, c.minute, v.dnd);
    var v1 := if v.dnd.onoff == 1 && inside && !v.last
              then v.(events := v.events + [NotDisturbMode(1)], last := true) else v;
    if (!inside || v.dnd.onoff != 1) && v1.last
    then v1.(events := v1.events + [NotDisturbMode(0)], last := false) else v1
  }

  predicate Muted(d: AppNotDisturbTime, t: Task) {
    IsOn(d) && IsInNotDisturbTime(HourOf(t.time), MinuteOf(t.time), d)
  }

  predicate Due(t: Task, c: Clock) {
    IsTimeToTrigger(t.weekDayMask, HourOf(t.time), MinuteOf(t.time), c)
  }

  predicate Ready(d: AppNotDisturbTime, t: Task, c: Clock) {
    !Muted(d, t) && t.valid == 1 && Due(t, c)
  }

  // A send overwrites its argument with whatever the robot replied: `reply` replaces the task.
  function Fire(v: Vars, i: nat, stampedAt: Millis, reply: Task): Vars
    requires i < |v.alert.tasks|
  {
    if v.ran then v else
    v.(events := v.events + [StartTask(v.alert.tasks[i])], ran := true, startTime := stampedAt,
       alert := v.alert.(tasks := v.alert.tasks[i := reply]))
  }

  predicate IsOneShot(t: Task) {
    t.weekDayMask == 0 && t.valid == 1
  }

  // Disables a one-shot task and sends the whole list.
  function Spend(v: Vars, i: nat): Vars
    requires i < |v.alert.tasks|
  {
    var alert := v.alert.(tasks := v.alert.tasks[i := v.alert.tasks[i].(valid := 0)]);
    v.(alert := alert, events := v.events + [SyncTasks(alert)])
  }

  function ReportAlert(v: Vars): Vars {
    v.(events := v.events + [Report(if v.alert.verison == 0 then 0x31 else 0x45, v.alert)])
  }

  // Body of the loop over the tasks, uninterrupted; `resync` is the reply to the list.
  function CheckTask(
      v: Vars, i: nat, c: Clock, stampedAt: Millis, reply: Task, resync: AppLocalAlert, delivered: bool): Vars
    requires i < |v.alert.tasks|
  {
    if !Ready(v.dnd, v.alert.tasks[i], c) then v else
    var v1 := Fire(v, i, stampedAt, reply);
    if !IsOneShot(v1.alert.tasks[i]) then v1 else
    var v2 := Spend(v1, i).(alert := resync);
    if delivered then ReportAlert(v2) else v2
  }

  // `TimeTick::Ms() - start_time_`, an unsigned difference.
  function Elapsed(now: Millis, start: Millis): Millis {
    (now - start) % 0x1_0000_0000_0000_0000
  }

  // After the sleep; the clock is read again if the throttle is released.
  function CoolDown(v: Vars, compared: Millis, stamped: Millis): Vars {
    if Elapsed(compared, v.startTime) > ONE_MINUTE then v.(ran := false, startTime := stamped) else v
  }

  function SetSwitch(v: Vars, on: bool): Vars {
    if v.dnd.version >= 0 then v.(dnd := v.dnd.(onoff := if on then 1 else 0)) else v
  }

  // ---- the interleaving ----

  // Where the thread is. It holds the window mutex from Windowed to the end of the loop, and inside the loop the
  // task mutex as well.
  datatype Pc =
    | Idle
    | Windowed(reading: Clock)
    | Looping(reading: Clock, i: nat)
    | Firing(reading: Clock, i: nat, c: Clock)
    | Spending(reading: Clock, i: nat, throttled: bool)
    | Syncing(reading: Clock, i: nat)
    | Reporting(reading: Clock, i: nat)
    | Sleeping

  predicate InLoop(pc: Pc) {
    pc.Looping? || pc.Firing? || pc.Spending? || pc.Syncing? || pc.Reporting?
  }

  predicate HoldsWindowMutex(pc: Pc) {
    pc.Windowed? || InLoop(pc)
  }

  // History kept beside each message: the clock reading when it was sent, how often the clock had been set back
  // until then, which due task it was sent for (counted over the run, and its place in the list), the reading
  // its trigger used, the window in force, and whether the throttle held when the task was reached.
  datatype Note = Note(
    sentAt: Millis, epoch: nat, turn: nat, i: nat, clock: Clock, window: AppNotDisturbTime, throttled: bool)

  // `now` is the last reading, `epoch` the number of readings below their predecessor, `turn` the number of due
  // tasks reached.
  datatype System = System(v: Vars, notes: seq<Note>, pc: Pc, now: Millis, epoch: nat, turn: nat)

  datatype Step =
    | DoWindow(c: Clock)
    | BeginLoop
    | DoCheck(c: Clock)
    | DoFire(sentAt: Millis, stampedAt: Millis, reply: Task)
    | DoSpend
    | DoReply(resync: AppLocalAlert, delivered: bool)
    | DoReport
    | EndLoop
    | DoCoolDown(compared: Millis, stamped: Millis)
    | Add(alert: AppLocalAlert)
    | Delete
    | SetTime(dnd: AppNotDisturbTime)
    | Switch(on: bool)

  // Steps the mutexes allow. Delete takes no mutex.
  predicate Enabled(s: System, step: Step) {
    match step
    case DoWindow(c) => s.pc.Idle?
    case BeginLoop => s.pc.Windowed?
    case DoCheck(_) => s.pc.Looping? && s.pc.i < |s.v.alert.tasks|
    case DoFire(_, _, _) => s.pc.Firing? && s.pc.i < |s.v.alert.tasks|
    case DoSpend => s.pc.Spending? && s.pc.i < |s.v.alert.tasks|
    case DoReply(_, _) => s.pc.Syncing?
    case DoReport => s.pc.Reporting?
    case EndLoop => s.pc.Looping? && s.pc.i >= |s.v.alert.tasks|
    case DoCoolDown(_, _) => s.pc.Sleeping?
    case Add(_) => !InLoop(s.pc)
    case Delete => true
    case SetTime(_) => !HoldsWindowMutex(s.pc)
    case Switch(_) => !HoldsWindowMutex(s.pc)
  }

  // A reading of the clock.
  function ReadClock(s: System, at: Millis): System {
    s.(now := at, epoch := if at < s.now then s.epoch + 1 else s.epoch)
  }

  // The note for a message sent in state s.
  function NoteAt(s: System, i: nat, clock: Clock, throttled: bool): Note {
    Note(s.now, s.epoch, s.turn, i, clock, s.v.dnd, throttled)
  }

  // The state after v has sent one message more, or none.
  function Sent(s: System, v: Vars, note: Note, pc: Pc): System {
    s.(v := v, pc := pc, notes := if |v.events| > |s.v.events| then s.notes + [note] else s.notes)
  }

  function ApplyFire(s: System, sentAt: Millis, stampedAt: Millis, reply: Task): System
    requires s.pc.Firing? && s.pc.i < |s.v.alert.tasks|
  {
    var pc := Spending(s.pc.reading, s.pc.i, s.v.ran);
    if s.v.ran then s.(pc := pc) else
    var s1 := ReadClock(s, sentAt);
    ReadClock(Sent(s1, Fire(s.v, s.pc.i, stampedAt, reply), NoteAt(s1, s.pc.i, s.pc.c, false), pc), stampedAt)
  }

  function ApplyCoolDown(s: System, compared: Millis, stamped: Millis): System {
    var s1 := ReadClock(s, compared).(v := CoolDown(s.v, compared, stamped), pc := Idle);
    if Elapsed(compared, s.v.startTime) > ONE_MINUTE then ReadClock(s1, stamped) else s1
  }

  function Apply(s: System, step: Step): System
    requires Enabled(s, step)
  {
    match step
    case DoWindow(c) => Sent(s, CheckWindow(s.v, c), NoteAt(s, 0, c, s.v.ran), Windowed(c))
    case BeginLoop => s.(pc := if s.v.alert.verison >= 0 then Looping(s.pc.reading, 0) else Sleeping)
    case DoCheck(c) =>
      if Ready(s.v.dnd, s.v.alert.tasks[s.pc.i], c)
      then s.(pc := Firing(s.pc.reading, s.pc.i, c), turn := s.turn + 1)
      else s.(pc := Looping(s.pc.reading, s.pc.i + 1))
    case DoFire(sentAt, stampedAt, reply) => ApplyFire(s, sentAt, stampedAt, reply)
    case DoSpend =>
      if IsOneShot(s.v.alert.tasks[s.pc.i])
      then Sent(s, Spend(s.v, s.pc.i), NoteAt(s, s.pc.i, s.pc.reading, s.pc.throttled), Syncing(s.pc.reading, s.pc.i))
      else s.(pc := Looping(s.pc.reading, s.pc.i + 1))
    case DoReply(resync, delivered) =>
      s.(v := s.v.(alert := resync),
         pc := if delivered then Reporting(s.pc.reading, s.pc.i) else Looping(s.pc.reading, s.pc.i + 1))
    case DoReport =>
      Sent(s, ReportAlert(s.v), NoteAt(s, s.pc.i, s.pc.reading, s.v.ran), Looping(s.pc.reading, s.pc.i + 1))
    case EndLoop => s.(pc := Sleeping)
    case DoCoolDown(compared, stamped) => ApplyCoolDown(s, compared, stamped)
    case Add(alert) => s.(v := s.v.(alert := alert))
    case Delete => s.(v := s.v.(alert := s.v.alert.(verison := -1)))
    case SetTime(dnd) => s.(v := s.v.(dnd := dnd))
    case Switch(on) => s.(v := SetSwitch(s.v, on))
  }

  /** The single steps for one task, nothing in between, are the body of the loop. */
  lemma TaskStepsCompose(
      s: System, c: Clock, sentAt: Millis, stampedAt: Millis, reply: Task, resync: AppLocalAlert, delivered: bool)
    requires s.pc.Looping? && s.pc.i < |s.v.alert.tasks|
    ensures var after := CheckTask(s.v, s.pc.i, c, stampedAt, reply, resync, delivered);
            var s1 := Apply(s, DoCheck(c));
            if s1.pc.Looping? then s1.v == after else
            var s2 := Apply(s1, DoFire(sentAt, stampedAt, reply));
            var s3 := Apply(s2, DoSpend);
            if s3.pc.Looping? then s3.v == after else
            var s4 := Apply(s3, DoReply(resync, delivered));
            if s4.pc.Looping? then s4.v == after else Apply(s4, DoReport).v == after
  {}

  // The state after construction: both versions are -1; other message fields are arbitrary.
  predicate Initial(s: System) {
    && s.v.dnd.version == -1 && s.v.alert.verison == -1
    && !s.v.last && !s.v.ran && s.v.events == [] && s.notes == [] && s.pc == Idle
  }

  // A run: any finite sequence of enabled steps.
  predicate Runs(s: System, steps: seq<Step>)
    decreases |steps|
  {
    steps == [] || (Enabled(s, steps[0]) && Runs(Apply(s, steps[0]), steps[1..]))
  }

  function After(s: System, steps: seq<Step>): System
    requires Runs(s, steps)
    decreases |steps|
  {
    if steps == [] then s else After(Apply(s, steps[0]), steps[1..])
  }

  // ---- invariants ----

  // One note a message; `epoch` and `turn` only grow.
  predicate Recorded(s: System) {
    && |s.notes| == |s.v.events|
    && forall k :: 0 <= k < |s.notes| ==> s.notes[k].epoch <= s.epoch && s.notes[k].turn <= s.turn
  }

  predicate IsStart(events: seq<Event>, k: int) {
    0 <= k < |events| && events[k].StartTask?
  }

  // Two start orders with no set-back of the clock between them.
  ghost predicate Apart(events: seq<Event>, notes: seq<Note>)
    requires |notes| == |events|
  {
    forall i, j :: 0 <= i < j < |events| && IsStart(events, i) && IsStart(events, j) && notes[i].epoch == notes[j].epoch
      ==> notes[j].sentAt - notes[i].sentAt > ONE_MINUTE
  }

  // What is known about the start orders since the last set-back.
  ghost predicate Recent(s: System)
    requires |s.notes| == |s.v.events|
  {
    forall k :: IsStart(s.v.events, k) && s.notes[k].epoch == s.epoch ==>
      if s.v.ran then s.notes[k].sentAt <= s.v.startTime <= s.now else s.notes[k].sentAt + ONE_MINUTE < s.now
  }

  function Modes(events: seq<Event>): seq<int> {
    if events == [] then [] else
    var n := |events| - 1;
    Modes(events[..n]) + if events[n].NotDisturbMode? then [events[n].param] else []
  }

  // 1, 0, 1, 0, ...; the stored status says which comes next.
  predicate Alternates(v: Vars) {
    && (forall k :: 0 <= k < |Modes(v.events)| ==> Modes(v.events)[k] == if k % 2 == 0 then 1 else 0)
    && (v.last <==> |Modes(v.events)| % 2 == 1)
  }

  // While the window mutex is held, the status is "on and inside now".
  predicate StatusCurrent(v: Vars, pc: Pc) {
    HoldsWindowMutex(pc) && v.dnd.version >= 0 ==>
      (v.last <==> IsOn(v.dnd) && IsInNotDisturbTime(pc.reading.hour, pc.reading.minute, v.dnd))
  }

  // A start order was legitimate when it was sent.
  predicate Justified(e: Event, n: Note) {
    e.StartTask? ==> Ready(n.window, e.task, n.clock)
  }

  // A list is sent for a one-shot task that was just disabled. Its start order comes right before it, or else
  // there is none: the throttle held, because of the start of another task.
  ghost predicate Explained(events: seq<Event>, notes: seq<Note>, k: nat)
    requires |notes| == |events| && k < |events|
  {
    events[k].SyncTasks? ==>
      && notes[k].i < |events[k].alert.tasks| && events[k].alert.tasks[notes[k].i].valid == 0
      && if notes[k].throttled then NeverStarted(events, notes, notes[k].turn) && StartedBefore(events, k)
         else IsStart(events, k - 1) && notes[k - 1].turn == notes[k].turn && notes[k - 1].i == notes[k].i
  }

  ghost predicate NeverStarted(events: seq<Event>, notes: seq<Note>, turn: nat)
    requires |notes| == |events|
  {
    forall j :: IsStart(events, j) ==> notes[j].turn != turn
  }

  ghost predicate StartedBefore(events: seq<Event>, k: nat) {
    exists j :: j < k && IsStart(events, j)
  }

  // No message yet for the due task at hand.
  predicate Fresh(s: System) {
    forall k :: 0 <= k < |s.notes| ==> s.notes[k].turn < s.turn
  }

  // What holds at the thread's place inside the loop body.
  ghost predicate Placed(s: System)
    requires |s.notes| == |s.v.events|
  {
    match s.pc
    case Firing(_, i, c) =>
      i < |s.v.alert.tasks| && Ready(s.v.dnd, s.v.alert.tasks[i], c) && Fresh(s)
    case Spending(_, i, throttled) =>
      && i < |s.v.alert.tasks|
      && var n := |s.notes| - 1;
         if throttled then Fresh(s) && StartedBefore(s.v.events, n + 1)
         else IsStart(s.v.events, n) && s.notes[n].turn == s.turn && s.notes[n].i == i
    case _ => true
  }

  ghost predicate Inv(s: System) {
    && Recorded(s) && Apart(s.v.events, s.notes) && Recent(s)
    && Alternates(s.v) && StatusCurrent(s.v, s.pc)
    && (forall k :: 0 <= k < |s.notes| ==> Justified(s.v.events[k], s.notes[k]))
    && (forall k :: 0 <= k < |s.notes| ==> Explained(s.v.events, s.notes, k))
    && Placed(s)
    && (s.v.ran ==> StartedBefore(s.v.events, |s.v.events|))
  }

  // A step without a message.
  lemma QuietKeeps(s: System, t: System)
    requires Inv(s) && t.v.events == s.v.events && t.notes == s.notes && t.v.last == s.v.last
    requires s.epoch <= t.epoch && s.turn <= t.turn && (t.v.ran ==> s.v.ran)
    requires Recent(t) && StatusCurrent(t.v, t.pc) && Placed(t)
    ensures Inv(t)
  {}

  lemma ApartGrows(events: seq<Event>, notes: seq<Note>, e: Event, n: Note)
    requires |notes| == |events| && Apart(events, notes)
    requires e.StartTask? ==> forall i :: IsStart(events, i) && notes[i].epoch == n.epoch ==>
               n.sentAt - notes[i].sentAt > ONE_MINUTE
    ensures Apart(events + [e], notes + [n])
  {
    var events1, notes1 := events + [e], notes + [n];
    forall i, j
      | 0 <= i < j < |events1| && IsStart(events1, i) && IsStart(events1, j) && notes1[i].epoch == notes1[j].epoch
      ensures notes1[j].sentAt - notes1[i].sentAt > ONE_MINUTE
    {
      assert IsStart(events, i);
      assert j < |events| ==> IsStart(events, j);
    }
  }

  lemma ExplainedStays(events: seq<Event>, notes: seq<Note>, e: Event, n: Note, k: nat)
    requires |notes| == |events| && k < |events| && Explained(events, notes, k)
    requires e.StartTask? ==> notes[k].turn < n.turn
    ensures Explained(events + [e], notes + [n], k)
  {
    var events1, notes1 := events + [e], notes + [n];
    if events[k].SyncTasks? {
      if notes[k].throttled {
        forall j | IsStart(events1, j)
          ensures notes1[j].turn != notes[k].turn
        {
          assert j < |events| ==> IsStart(events, j);
        }
        var j :| j < k && IsStart(events, j);
        assert IsStart(events1, j);
      } else {
        assert IsStart(events1, k - 1);
      }
    }
  }

  lemma StartedStays(events: seq<Event>, e: Event)
    requires StartedBefore(events, |events|) || e.StartTask?
    ensures StartedBefore(events + [e], |events| + 1)
  {
    if e.StartTask? {
      assert IsStart(events + [e], |events|);
    } else {
      var j :| j < |events| && IsStart(events, j);
      assert IsStart(events + [e], j);
    }
  }

  // A step with one message: what has to be checked is that message, and where the thread goes.
  lemma SendKeeps(s: System, t: System, e: Event, n: Note)
    requires Inv(s) && t.v.events == s.v.events + [e] && t.notes == s.notes + [n]
    requires s.epoch <= t.epoch && s.turn <= t.turn && n.epoch <= t.epoch && n.turn <= t.turn
    requires e.StartTask? ==> Fresh(s) && n.turn == s.turn
    requires e.StartTask? ==> forall i :: IsStart(s.v.events, i) && s.notes[i].epoch == n.epoch ==>
               n.sentAt - s.notes[i].sentAt > ONE_MINUTE
    requires Justified(e, n) && Explained(t.v.events, t.notes, |s.notes|)
    requires t.v.ran ==> s.v.ran || e.StartTask?
    requires Recent(t) && Alternates(t.v) && StatusCurrent(t.v, t.pc) && Placed(t)
    ensures Inv(t)
  {
    ApartGrows(s.v.events, s.notes, e, n);
    AllExplained(s, t, e, n);
    if t.v.ran {
      StartedStays(s.v.events, e);
    }
  }

  lemma AllExplained(s: System, t: System, e: Event, n: Note)
    requires Recorded(s) && t.v.events == s.v.events + [e] && t.notes == s.notes + [n]
    requires forall k :: 0 <= k < |s.notes| ==> Explained(s.v.events, s.notes, k)
    requires e.StartTask? ==> Fresh(s) && n.turn == s.turn
    requires Explained(t.v.events, t.notes, |s.notes|)
    ensures forall k :: 0 <= k < |t.notes| ==> Explained(t.v.events, t.notes, k)
  {
    forall k | 0 <= k < |t.notes|
      ensures Explained(t.v.events, t.notes, k)
    {
      if k < |s.notes| {
        ExplainedStays(s.v.events, s.notes, e, n, k);
      }
    }
  }

  lemma AppendEvent(events: seq<Event>, e: Event)
    ensures Modes(events + [e]) == Modes(events) + if e.NotDisturbMode? then [e.param] else []
  {
    assert (events + [e])[..|events|] == events;
  }

  lemma AlternatesGrows(v: Vars, e: Event, last: bool)
    requires Alternates(v)
    requires if e.NotDisturbMode? then last == !v.last && e.param == (if last then 1 else 0) else last == v.last
    ensures Alternates(v.(events := v.events + [e], last := last))
  {
    AppendEvent(v.events, e);
    var m := Modes(v.events);
    assert e.NotDisturbMode? ==> (m + [e.param])[|m|] == e.param;
  }

  // The start orders seen from a state with one message more that is not a start.
  lemma RecentGrows(s: System, t: System, e: Event, n: Note)
    requires Recorded(s) && Recent(s) && !e.StartTask?
    requires t.v.events == s.v.events + [e] && t.notes == s.notes + [n]
    requires t.v.ran == s.v.ran && t.v.startTime == s.v.startTime && t.now == s.now && t.epoch == s.epoch
    ensures Recent(t)
  {
    forall k | IsStart(t.v.events, k)
      ensures IsStart(s.v.events, k)
    {}
  }

  lemma WindowKeeps(s: System, c: Clock)
    requires Inv(s) && s.pc.Idle?
    ensures Inv(Apply(s, DoWindow(c)))
  {
    var inside := IsInNotDisturbTime(c.hour, c.minute, s.v.dnd);
    var t := Apply(s, DoWindow(c));
    if s.v.dnd.version >= 0 && s.v.dnd.onoff == 1 && inside && !s.v.last {
      ModeKeeps(s, t, c, true);
    } else if s.v.dnd.version >= 0 && (!inside || s.v.dnd.onoff != 1) && s.v.last {
      ModeKeeps(s, t, c, false);
    } else {
      QuietKeeps(s, t);
    }
  }

  // A mode message that brings the status up to date.
  lemma ModeKeeps(s: System, t: System, c: Clock, on: bool)
    requires Inv(s) && s.v.last == !on
    requires on <==> IsOn(s.v.dnd) && IsInNotDisturbTime(c.hour, c.minute, s.v.dnd)
    requires var e := NotDisturbMode(if on then 1 else 0);
             t == s.(v := s.v.(events := s.v.events + [e], last := on), notes := s.notes + [NoteAt(s, 0, c, s.v.ran)],
                     pc := Windowed(c))
    ensures Inv(t)
  {
    var e, n := NotDisturbMode(if on then 1 else 0), NoteAt(s, 0, c, s.v.ran);
    AlternatesGrows(s.v, e, on);
    RecentGrows(s, t, e, n);
    SendKeeps(s, t, e, n);
  }

  lemma FireKeeps(s: System, sentAt: Millis, stampedAt: Millis, reply: Task)
    requires Inv(s) && s.pc.Firing? && s.pc.i < |s.v.alert.tasks|
    ensures Inv(ApplyFire(s, sentAt, stampedAt, reply))
  {
    var t := ApplyFire(s, sentAt, stampedAt, reply);
    if s.v.ran {
      QuietKeeps(s, t);
    } else {
      var s1 := ReadClock(s, sentAt);
      var e, n := StartTask(s.v.alert.tasks[s.pc.i]), NoteAt(s1, s.pc.i, s.pc.c, false);
      StartKeeps(s, t, e, n);
    }
  }

  // A start order on its own terms.
  lemma StartKeeps(s: System, t: System, e: Event, n: Note)
    requires Inv(s) && s.pc.Firing? && !s.v.ran && e == StartTask(s.v.alert.tasks[s.pc.i])
    requires n.clock == s.pc.c && n.window == s.v.dnd && n.turn == s.turn == t.turn && n.i == s.pc.i
    requires n.epoch == if n.sentAt < s.now then s.epoch + 1 else s.epoch
    requires t.v.events == s.v.events + [e] && t.notes == s.notes + [n]
    requires t.v.ran && t.v.startTime == t.now && t.epoch == if t.now < n.sentAt then n.epoch + 1 else n.epoch
    requires t.v.dnd == s.v.dnd && t.v.last == s.v.last && |t.v.alert.tasks| == |s.v.alert.tasks|
    requires t.pc == Spending(s.pc.reading, s.pc.i, false)
    ensures Inv(t)
  {
    assert IsStart(t.v.events, |s.notes|);
    AppendEvent(s.v.events, e);
    StartRecent(s, t, e, n);
    SendKeeps(s, t, e, n);
  }

  // A start order sent and stamped while the throttle was off.
  lemma StartRecent(s: System, t: System, e: Event, n: Note)
    requires Recorded(s) && Recent(s) && !s.v.ran && e.StartTask?
    requires t.v.events == s.v.events + [e] && t.notes == s.notes + [n]
    requires n.epoch == (if n.sentAt < s.now then s.epoch + 1 else s.epoch)
    requires t.v.ran && t.v.startTime == t.now && t.epoch == if t.now < n.sentAt then n.epoch + 1 else n.epoch
    ensures Recent(t)
    ensures forall i :: IsStart(s.v.events, i) && s.notes[i].epoch == n.epoch ==>
              n.sentAt - s.notes[i].sentAt > ONE_MINUTE
  {
    forall k | IsStart(t.v.events, k) && t.notes[k].epoch == t.epoch
      ensures t.notes[k].sentAt <= t.v.startTime
    {
      if k < |s.notes| {
        assert IsStart(s.v.events, k);
      }
    }
  }

  lemma SpendKeeps(s: System)
    requires Inv(s) && s.pc.Spending? && s.pc.i < |s.v.alert.tasks|
    ensures Inv(Apply(s, DoSpend))
  {
    var i, t := s.pc.i, Apply(s, DoSpend);
    if IsOneShot(s.v.alert.tasks[i]) {
      var n := NoteAt(s, i, s.pc.reading, s.pc.throttled);
      var e := SyncTasks(t.v.alert);
      AlternatesGrows(s.v, e, s.v.last);
      RecentGrows(s, t, e, n);
      SyncExplained(s, e, n);
      SendKeeps(s, t, e, n);
    } else {
      QuietKeeps(s, t);
    }
  }

  lemma SyncExplained(s: System, e: Event, n: Note)
    requires Recorded(s) && s.pc.Spending? && Placed(s)
    requires e.SyncTasks? && n.i == s.pc.i < |e.alert.tasks| && e.alert.tasks[n.i].valid == 0
    requires n.turn == s.turn && n.throttled == s.pc.throttled
    ensures Explained(s.v.events + [e], s.notes + [n], |s.notes|)
  {
    var events1, notes1, k := s.v.events + [e], s.notes + [n], |s.notes|;
    if n.throttled {
      forall j | IsStart(events1, j)
        ensures notes1[j].turn != n.turn
      {
        assert IsStart(s.v.events, j);
      }
      var j :| j < k && IsStart(s.v.events, j);
      assert IsStart(events1, j);
    } else {
      assert IsStart(events1, k - 1);
    }
  }

  lemma ReportKeeps(s: System)
    requires Inv(s) && s.pc.Reporting?
    ensures Inv(Apply(s, DoReport))
  {
    var t, n := Apply(s, DoReport), NoteAt(s, s.pc.i, s.pc.reading, s.v.ran);
    var e := t.v.events[|s.v.events|];
    AlternatesGrows(s.v, e, s.v.last);
    RecentGrows(s, t, e, n);
    SendKeeps(s, t, e, n);
  }

  lemma CoolDownKeeps(s: System, compared: Millis, stamped: Millis)
    requires Inv(s) && s.pc.Sleeping?
    ensures Inv(ApplyCoolDown(s, compared, stamped))
  {
    var t := ApplyCoolDown(s, compared, stamped);
    forall k | IsStart(s.v.events, k) && s.notes[k].epoch == t.epoch
      ensures if t.v.ran then s.notes[k].sentAt <= t.v.startTime <= t.now else s.notes[k].sentAt + ONE_MINUTE < t.now
    {
      assert t.epoch == s.epoch;
    }
    QuietKeeps(s, t);
  }

  lemma CheckKeeps(s: System, c: Clock)
    requires Inv(s) && s.pc.Looping? && s.pc.i < |s.v.alert.tasks|
    ensures Inv(Apply(s, DoCheck(c)))
  {
    QuietKeeps(s, Apply(s, DoCheck(c)));
  }

  // The steps of the other threads.
  lemma SetterKeeps(s: System, step: Step)
    requires Inv(s) && Enabled(s, step) && (step.Add? || step.Delete? || step.SetTime? || step.Switch?)
    ensures Inv(Apply(s, step))
  {
    QuietKeeps(s, Apply(s, step));
  }

  lemma StepKeeps(s: System, step: Step)
    requires Inv(s) && Enabled(s, step)
    ensures Inv(Apply(s, step))
  {
    match step
    case DoWindow(c) => WindowKeeps(s, c);
    case DoFire(sentAt, stampedAt, reply) => FireKeeps(s, sentAt, stampedAt, reply);
    case DoCheck(c) => CheckKeeps(s, c);
    case DoSpend => SpendKeeps(s);
    case DoReport => ReportKeeps(s);
    case DoCoolDown(compared, stamped) => CoolDownKeeps(s, compared, stamped);
    case BeginLoop => QuietKeeps(s, Apply(s, step));
    case DoReply(_, _) => QuietKeeps(s, Apply(s, step));
    case EndLoop => QuietKeeps(s, Apply(s, step));
    case _ => SetterKeeps(s, step);
  }

  lemma {:induction false} RunKeeps(s: System, steps: seq<Step>)
    requires Inv(s) && Runs(s, steps)
    ensures Inv(After(s, steps))
    decreases |steps|
  {
    if steps != [] {
      StepKeeps(s, steps[0]);
      RunKeeps(Apply(s, steps[0]), steps[1..]);
    }
  }

  // ---- the properties of every run ----

  /** Throttle: whatever the task lists, replies, readings and interleaving, two start orders without a set-back of the
      clock between them are more than a minute apart. */
  lemma StartsAMinuteApart(s: System, steps: seq<Step>, i: nat, j: nat)
    requires Initial(s) && Runs(s, steps) && i < j
    requires IsStart(After(s, steps).v.events, i) && IsStart(After(s, steps).v.events, j)
    ensures var e := After(s, steps);
            && |e.notes| == |e.v.events|
            && (e.notes[i].epoch == e.notes[j].epoch ==> e.notes[j].sentAt - e.notes[i].sentAt > 60000)
  {
    RunKeeps(s, steps);
  }

  /** The throttle is released, and the time stamped anew, exactly when more than a minute has passed or when the clock
      reads less than the stamp; otherwise nothing changes. */
  lemma ReleasedIff(v: Vars, compared: Millis, stamped: Millis)
    requires v.startTime < 0x8000_0000_0000_0000 && compared < 0x8000_0000_0000_0000
    ensures CoolDown(v, compared, stamped) ==
            if compared > v.startTime + 60000 || compared < v.startTime
            then v.(ran := false, startTime := stamped) else v
  {}

  // ---- what one turn sends, in full ----

  // When a task is called for: it is valid, this is its minute and one of its days (or it has none), and no window
  // that is switched on contains its time.
  predicate IsCalledFor(d: AppNotDisturbTime, t: Task, c: Clock) {
    && t.valid == 1 && HourOf(t.time) == c.hour && MinuteOf(t.time) == c.minute
    && (t.weekDayMask == 0 || Bit(t.weekDayMask, Pow2((c.weekDay + 6) % 7)))
    && !(d.version >= 0 && d.onoff == 1 && IsInNotDisturbTime(HourOf(t.time), MinuteOf(t.time), d))
  }

  lemma ReadyIff(d: AppNotDisturbTime, t: Task, c: Clock)
    requires IsReading(c)
    ensures Ready(d, t, c) <==> IsCalledFor(d, t, c)
    ensures HasClockTimes(d) && IsTestedExactly(d) ==>
              (IsCalledFor(d, t, c) <==>
                 && t.valid == 1 && HourOf(t.time) == c.hour && MinuteOf(t.time) == c.minute
                 && (t.weekDayMask == 0 || Bit(t.weekDayMask, Pow2((c.weekDay + 6) % 7)))
                 && !(d.version >= 0 && d.onoff == 1 && InsideWindow(c.hour * 60 + c.minute, d)))
  {
    DueIff(t.weekDayMask, HourOf(t.time), MinuteOf(t.time), c);
    if HasClockTimes(d) && IsTestedExactly(d) {
      TestIsExact(c.hour, c.minute, d);
    }
  }

  /** Liveness of one turn: the loop goes on to the start order of a task exactly when it is called for, and the order
      is the next message exactly when the throttle is off. */
  lemma StartIff(s: System, c: Clock, sentAt: Millis, stampedAt: Millis, reply: Task)
    requires s.pc.Looping? && s.pc.i < |s.v.alert.tasks| && IsReading(c)
    ensures var t := s.v.alert.tasks[s.pc.i];
            var s1 := Apply(s, DoCheck(c));
            && s1.v == s.v
            && (if IsCalledFor(s.v.dnd, t, c) then s1.pc.Firing? && s1.pc.i == s.pc.i
                else s1.pc == Looping(s.pc.reading, s.pc.i + 1))
            && (s1.pc.Firing? ==>
                  Apply(s1, DoFire(sentAt, stampedAt, reply)).v.events ==
                  s.v.events + if s.v.ran then [] else [StartTask(t)])
  {
    ReadyIff(s.v.dnd, s.v.alert.tasks[s.pc.i], c);
  }

  // The messages for a task called for: its start order unless throttled; then, if the task as it stands after that is
  // one-shot, the list with it disabled, and a report of the reply if that was delivered.
  function Messages(v: Vars, i: nat, reply: Task, resync: AppLocalAlert, delivered: bool): seq<Event>
    requires i < |v.alert.tasks|
  {
    var u := if v.ran then v.alert.tasks[i] else reply;
    (if v.ran then [] else [StartTask(v.alert.tasks[i])]) +
    if u.weekDayMask != 0 || u.valid != 1 then [] else
    [SyncTasks(v.alert.(tasks := v.alert.tasks[i := u.(valid := 0)]))] +
    if delivered then [Report(if resync.verison == 0 then 0x31 else 0x45, resync)] else []
  }

  /** Everything the loop body does for one task. */
  lemma TaskTurn(
      v: Vars, i: nat, c: Clock, stampedAt: Millis, reply: Task, resync: AppLocalAlert, delivered: bool)
    requires i < |v.alert.tasks| && IsReading(c)
    ensures var t := v.alert.tasks[i]; var u := if v.ran then t else reply;
            CheckTask(v, i, c, stampedAt, reply, resync, delivered) ==
            if !IsCalledFor(v.dnd, t, c) then v else
            v.(events := v.events + Messages(v, i, reply, resync, delivered), ran := true,
               startTime := if v.ran then v.startTime else stampedAt,
               alert := if u.weekDayMask == 0 && u.valid == 1 then resync
                        else v.alert.(tasks := v.alert.tasks[i := u]))
  {
    var t := v.alert.tasks[i];
    ReadyIff(v.dnd, t, c);
    assert v.alert.tasks[i := t] == v.alert.tasks;
    var u := if v.ran then t else reply;
    assert v.alert.tasks[i := u][i := u.(valid := 0)] == v.alert.tasks[i := u.(valid := 0)];
  }

  /** Everything the window check does: the status becomes "on and inside", with a message if that is a change. */
  lemma WindowTurn(v: Vars, c: Clock)
    ensures v.dnd.version < 0 ==> CheckWindow(v, c) == v
    ensures v.dnd.version >= 0 ==>
              var on := v.dnd.onoff == 1 && IsInNotDisturbTime(c.hour, c.minute, v.dnd);
              CheckWindow(v, c) ==
              v.(last := on, events := v.events + if on == v.last then [] else [NotDisturbMode(if on then 1 else 0)])
  {
    assert v.events + [] == v.events;
  }

  /** Everything the other threads and the frame of the loop do. */
  lemma OtherSteps(s: System, alert: AppLocalAlert, dnd: AppNotDisturbTime, on: bool)
    ensures !InLoop(s.pc) ==> Apply(s, Add(alert)) == s.(v := s.v.(alert := alert))
    ensures var t := Apply(s, Delete);
            t.v.alert.verison == -1 && t.v.alert.tasks == s.v.alert.tasks && t == s.(v := s.v.(alert := t.v.alert))
    ensures !HoldsWindowMutex(s.pc) ==> Apply(s, SetTime(dnd)) == s.(v := s.v.(dnd := dnd))
    ensures !HoldsWindowMutex(s.pc) ==> var t := Apply(s, Switch(on));
              && t == s.(v := s.v.(dnd := t.v.dnd)) && t.v.dnd == s.v.dnd.(onoff := t.v.dnd.onoff)
              && t.v.dnd.onoff == (if s.v.dnd.version < 0 then s.v.dnd.onoff else if on then 1 else 0)
    ensures s.pc.Windowed? ==> (Apply(s, BeginLoop).pc.Looping? <==> s.v.alert.verison >= 0)
  {}

  /** Edge detection: the mode messages are 1, 0, 1, ...; and after each window check of a configured window
      (until the mutex is released) the status is exactly "switched on and the reading is inside". */
  lemma ModesAlternate(s: System, steps: seq<Step>)
    requires Initial(s) && Runs(s, steps)
    ensures var e := After(s, steps);
            && (forall k :: 0 <= k < |Modes(e.v.events)| ==> Modes(e.v.events)[k] == if k % 2 == 0 then 1 else 0)
            && (e.v.last <==> |Modes(e.v.events)| % 2 == 1)
            && (HoldsWindowMutex(e.pc) && e.v.dnd.version >= 0 ==>
                  (e.v.last <==> e.v.dnd.onoff == 1 &&
                                 IsInNotDisturbTime(e.pc.reading.hour, e.pc.reading.minute, e.v.dnd)))
  {
    RunKeeps(s, steps);
  }

  /** Firing safety: every start order is for a task that was valid and due at the clock reading used, and whose
      time lay outside the window in force, read as an interval, if the window was switched on. */
  lemma StartsAreJustified(s: System, steps: seq<Step>, k: nat)
    requires Initial(s) && Runs(s, steps) && IsStart(After(s, steps).v.events, k)
    ensures var e := After(s, steps);
            && |e.notes| == |e.v.events|
            && var t, n := e.v.events[k].task, e.notes[k];
               && t.valid == 1
               && (IsReading(n.clock) ==>
                     && HourOf(t.time) == n.clock.hour && MinuteOf(t.time) == n.clock.minute
                     && (t.weekDayMask == 0 || Bit(t.weekDayMask, Pow2((n.clock.weekDay + 6) % 7)))
                     && (IsOn(n.window) && HasClockTimes(n.window) && IsTestedExactly(n.window) ==>
                           !InsideWindow(n.clock.hour * 60 + n.clock.minute, n.window)))
  {
    RunKeeps(s, steps);
    var e := After(s, steps);
    assert Justified(e.v.events[k], e.notes[k]);
    if IsReading(e.notes[k].clock) {
      ReadyMeans(e.notes[k].window, e.v.events[k].task, e.notes[k].clock);
    }
  }

  lemma ReadyMeans(d: AppNotDisturbTime, t: Task, c: Clock)
    requires Ready(d, t, c) && IsReading(c)
    ensures HourOf(t.time) == c.hour && MinuteOf(t.time) == c.minute
    ensures t.weekDayMask == 0 || Bit(t.weekDayMask, Pow2((c.weekDay + 6) % 7))
    ensures IsOn(d) && HasClockTimes(d) && IsTestedExactly(d) ==> !InsideWindow(c.hour * 60 + c.minute, d)
  {
    DueIff(t.weekDayMask, HourOf(t.time), MinuteOf(t.time), c);
    if HasClockTimes(d) && IsTestedExactly(d) {
      TestIsExact(c.hour, c.minute, d);
    }
  }

  /** Lost tasks: every list sent disables a one-shot task; that task's start order is the message right before it if
      the throttle was off when the task was reached, and was never sent, another start holding the throttle, if on. */
  lemma OneShotLostIff(s: System, steps: seq<Step>, k: nat)
    requires Initial(s) && Runs(s, steps)
    requires k < |After(s, steps).v.events| && After(s, steps).v.events[k].SyncTasks?
    ensures var e := After(s, steps); var events := e.v.events;
            && |e.notes| == |events|
            && e.notes[k].i < |events[k].alert.tasks| && events[k].alert.tasks[e.notes[k].i].valid == 0
            && (!e.notes[k].throttled <==> IsStart(events, k - 1) && e.notes[k - 1].turn == e.notes[k].turn)
            && (e.notes[k].throttled ==>
                  NeverStarted(events, e.notes, e.notes[k].turn) && exists j :: j < k && IsStart(events, j))
  {
    RunKeeps(s, steps);
    var e := After(s, steps);
    assert Explained(e.v.events, e.notes, k);
  }

  // ---- runs that show what can happen ----

  lemma UnfoldRun(s: System, step: Step, steps: seq<Step>, rest: seq<Step>)
    requires Enabled(s, step) && Runs(Apply(s, step), rest) && steps == [step] + rest
    ensures Runs(s, steps) && After(s, steps) == After(Apply(s, step), rest)
  {
    assert steps[1..] == rest;
  }

  lemma {:induction false} JoinRuns(s: System, a: seq<Step>, b: seq<Step>)
    requires Runs(s, a) && Runs(After(s, a), b)
    ensures Runs(s, a + b) && After(s, a + b) == After(After(s, a), b)
    decreases |a|
  {
    if a == [] {
      assert a + b == b;
    } else {
      JoinRuns(Apply(s, a[0]), a[1..], b);
      UnfoldRun(s, a[0], a + b, a[1..] + b);
    }
  }

  // No window configured, and the tasks of the list; the thread idle.
  predicate Quiet(s: System, tasks: seq<Task>) {
    s.pc.Idle? && s.v.dnd.version < 0 && s.v.alert.verison >= 0 && s.v.alert.tasks == tasks
  }

  // One turn of the thread that reaches one due task, whose start order is answered with the task itself.
  function Turn(c: Clock, at: Millis, t: Task): seq<Step> {
    [DoWindow(c), BeginLoop, DoCheck(c), DoFire(at, at, t)]
  }

  lemma TurnStarts(s: System, c: Clock, at: Millis, tasks: seq<Task>)
    requires Quiet(s, tasks) && tasks != [] && tasks[0].valid == 1 && Due(tasks[0], c) && !s.v.ran
    requires |s.notes| == |s.v.events|
    ensures Runs(s, Turn(c, at, tasks[0]))
    ensures var e := After(s, Turn(c, at, tasks[0]));
            && e.v.events == s.v.events + [StartTask(tasks[0])] && e.pc == Spending(c, 0, false)
            && e.v.dnd == s.v.dnd && e.v.alert == s.v.alert && e.v.startTime == at == e.now && e.v.ran
            && |e.notes| == |e.v.events| && e.notes[..|s.notes|] == s.notes && e.notes[|s.notes|].sentAt == at
            && e.turn == s.turn + 1
  {
    var t := tasks[0];
    var s1 := Apply(s, DoWindow(c));
    var s2 := Apply(s1, BeginLoop);
    var s3 := Apply(s2, DoCheck(c));
    assert tasks[0 := t] == tasks;
    UnfoldRun(s3, DoFire(at, at, t), [DoFire(at, at, t)], []);
    UnfoldRun(s2, DoCheck(c), [DoCheck(c), DoFire(at, at, t)], [DoFire(at, at, t)]);
    UnfoldRun(s1, BeginLoop, [BeginLoop, DoCheck(c), DoFire(at, at, t)], [DoCheck(c), DoFire(at, at, t)]);
    UnfoldRun(s, DoWindow(c), Turn(c, at, t), [BeginLoop, DoCheck(c), DoFire(at, at, t)]);
  }

  // The rest of a turn whose task repeats, up to the end of the sleep.
  function Rest(at: Millis): seq<Step> {
    [DoSpend, EndLoop, DoCoolDown(at, at)]
  }

  lemma RestReleases(s: System, t: Task, c: Clock, early: Millis)
    requires s.pc == Spending(c, 0, false) && s.v.alert.tasks == [t] && t.weekDayMask != 0
    requires early < s.v.startTime < 0x8000_0000_0000_0000
    ensures Runs(s, Rest(early))
    ensures var e := After(s, Rest(early));
            e.pc.Idle? && !e.v.ran && e.notes == s.notes && e.v == s.v.(ran := false, startTime := early)
  {
    var s1 := Apply(s, DoSpend);
    var s2 := Apply(s1, EndLoop);
    UnfoldRun(s2, DoCoolDown(early, early), [DoCoolDown(early, early)], []);
    UnfoldRun(s1, EndLoop, [EndLoop, DoCoolDown(early, early)], [DoCoolDown(early, early)]);
    UnfoldRun(s, DoSpend, Rest(early), [EndLoop, DoCoolDown(early, early)]);
  }

  // A repeating task is started, the clock is set back, and the task is started again.
  function SetBackRun(t: Task, c: Clock, early: Millis, late: Millis): seq<Step> {
    [Add(AppLocalAlert(0, [t]))] + (Turn(c, late, t) + (Rest(early) + Turn(c, early, t)))
  }

  /** Set back in between, the clock can read anything less at the second of two start orders. */
  lemma SetBackBreaksThrottle(s: System, t: Task, c: Clock, early: Millis, late: Millis)
    requires Initial(s) && t.valid == 1 && t.weekDayMask != 0 && Due(t, c) && early < late < 0x8000_0000_0000_0000
    ensures Runs(s, SetBackRun(t, c, early, late))
    ensures var e := After(s, SetBackRun(t, c, early, late));
            && e.v.events == [StartTask(t), StartTask(t)] && |e.notes| == 2
            && e.notes[0].sentAt == late && e.notes[1].sentAt == early
  {
    var s1 := Apply(s, Add(AppLocalAlert(0, [t])));
    TurnStarts(s1, c, late, [t]);
    var s2 := After(s1, Turn(c, late, t));
    RestReleases(s2, t, c, early);
    var s3 := After(s2, Rest(early));
    TurnStarts(s3, c, early, [t]);
    JoinRuns(s2, Rest(early), Turn(c, early, t));
    JoinRuns(s1, Turn(c, late, t), Rest(early) + Turn(c, early, t));
    UnfoldRun(s, Add(AppLocalAlert(0, [t])), SetBackRun(t, c, early, late),
              Turn(c, late, t) + (Rest(early) + Turn(c, early, t)));
  }

  function Disabled(t: Task): Task {
    t.(valid := 0)
  }

  // What follows the first start order: its task is spent, then the second one reached and spent.
  function SecondTask(t: Task, u: Task, c: Clock, at: Millis): seq<Step> {
    [DoSpend, DoReply(AppLocalAlert(0, [Disabled(t), u]), false), DoCheck(c), DoFire(at, at, u), DoSpend]
  }

  // Two one-shot tasks due in the same minute; the robot answers each message with what it was sent.
  function LosingRun(t: Task, u: Task, c: Clock, at: Millis): seq<Step> {
    [Add(AppLocalAlert(0, [t, u]))] + (Turn(c, at, t) + SecondTask(t, u, c, at))
  }

  lemma SecondIsLost(s: System, t: Task, u: Task, c: Clock, at: Millis)
    requires s.pc == Spending(c, 0, false) && s.v.ran && s.v.dnd.version < 0 && s.v.alert == AppLocalAlert(0, [t, u])
    requires IsOneShot(t) && IsOneShot(u) && Due(u, c)
    ensures Runs(s, SecondTask(t, u, c, at))
    ensures After(s, SecondTask(t, u, c, at)).v.events ==
            s.v.events + [SyncTasks(AppLocalAlert(0, [Disabled(t), u])),
                          SyncTasks(AppLocalAlert(0, [Disabled(t), Disabled(u)]))]
  {
    var list := AppLocalAlert(0, [Disabled(t), u]);
    var s1 := Apply(s, DoSpend);
    var s2 := Apply(s1, DoReply(list, false));
    var s3 := Apply(s2, DoCheck(c));
    var s4 := Apply(s3, DoFire(at, at, u));
    assert [t, u][0 := Disabled(t)] == list.tasks;
    assert list.tasks[1 := Disabled(u)] == [Disabled(t), Disabled(u)];
    UnfoldRun(s4, DoSpend, [DoSpend], []);
    UnfoldRun(s3, DoFire(at, at, u), [DoFire(at, at, u), DoSpend], [DoSpend]);
    UnfoldRun(s2, DoCheck(c), [DoCheck(c), DoFire(at, at, u), DoSpend], [DoFire(at, at, u), DoSpend]);
    UnfoldRun(s1, DoReply(list, false), [DoReply(list, false), DoCheck(c), DoFire(at, at, u), DoSpend],
              [DoCheck(c), DoFire(at, at, u), DoSpend]);
    UnfoldRun(s, DoSpend, SecondTask(t, u, c, at), [DoReply(list, false), DoCheck(c), DoFire(at, at, u), DoSpend]);
  }

  /** Of two one-shot tasks due in the same minute the second is disabled without ever being started. */
  lemma TaskCanBeLost(s: System, t: Task, u: Task, c: Clock, at: Millis)
    requires Initial(s) && IsOneShot(t) && IsOneShot(u) && Due(t, c) && Due(u, c)
    ensures Runs(s, LosingRun(t, u, c, at))
    ensures After(s, LosingRun(t, u, c, at)).v.events ==
            [StartTask(t), SyncTasks(AppLocalAlert(0, [Disabled(t), u])),
             SyncTasks(AppLocalAlert(0, [Disabled(t), Disabled(u)]))]
  {
    var s1 := Apply(s, Add(AppLocalAlert(0, [t, u])));
    TurnStarts(s1, c, at, [t, u]);
    SecondIsLost(After(s1, Turn(c, at, t)), t, u, c, at);
    JoinRuns(s1, Turn(c, at, t), SecondTask(t, u, c, at));
    UnfoldRun(s, Add(AppLocalAlert(0, [t, u])), LosingRun(t, u, c, at), Turn(c, at, t) + SecondTask(t, u, c, at));
  }

  // ---- the object ----

  class TimedTask {
    var notDisturbTime: AppNotDisturbTime
    var timedTask: AppLocalAlert
    var lastNotDisturbStatus: bool
    var runInOneMinute: bool
    var startTime: Millis
    var sent: seq<Event>

    function State(): Vars
      reads this
    {
      Vars(notDisturbTime, timedTask, lastNotDisturbStatus, runInOneMinute, startTime, sent)
    }

    constructor (dnd: AppNotDisturbTime, alert: AppLocalAlert, now: Millis)
      ensures Initial(System(State(), [], Idle, now, 0, 0))
    {
      notDisturbTime, timedTask := dnd.(version := -1), alert.(verison := -1);
      lastNotDisturbStatus, runInOneMinute, startTime, sent := false, false, now, [];
    }

    // First part of the loop body, under the window mutex.
    method CheckNotDisturb(c: Clock)
      modifies this
      ensures State() == CheckWindow(old(State()), c)
    {
      if notDisturbTime.version >= 0 {
        var isNotDisturb := IsInNotDisturbTime(c.hour, c.minute, notDisturbTime);
        if notDisturbTime.onoff == 1 && isNotDisturb && !lastNotDisturbStatus {
          sent := sent + [NotDisturbMode(1)];
          lastNotDisturbStatus := true;
        }
        if (!isNotDisturb || notDisturbTime.onoff != 1) && lastNotDisturbStatus {
          sent := sent + [NotDisturbMode(0)];
          lastNotDisturbStatus := false;
        }
      }
    }

    // Body of the task loop, under both mutexes.
    method CheckOneTask(i: nat, c: Clock, stampedAt: Millis, reply: Task, resync: AppLocalAlert, delivered: bool)
      requires i < |timedTask.tasks|
      modifies this
      ensures State() == CheckTask(old(State()), i, c, stampedAt, reply, resync, delivered)
    {
      var task := timedTask.tasks[i];
      var hour, minute := HourOf(task.time), MinuteOf(task.time);
      var inNotDisturbTime := false;
      if notDisturbTime.version >= 0 && notDisturbTime.onoff == 1 {
        inNotDisturbTime := IsInNotDisturbTime(hour, minute, notDisturbTime);
      }
      if inNotDisturbTime || task.valid != 1 {
        return;
      }
      var isTrigger := IsTimeToTrigger(task.weekDayMask, hour, minute, c);
      if isTrigger && !runInOneMinute {
        sent := sent + [StartTask(task)];
        timedTask := timedTask.(tasks := timedTask.tasks[i := reply]);
        runInOneMinute := true;
        startTime := stampedAt;
      }
      task := timedTask.tasks[i];
      if isTrigger && task.weekDayMask == 0 && task.valid == 1 {
        timedTask := timedTask.(tasks := timedTask.tasks[i := task.(valid := 0)]);
        sent := sent + [SyncTasks(timedTask)];
        timedTask := resync;
        if delivered {
          sent := sent + [Report(if timedTask.verison == 0 then 0x31 else 0x45, timedTask)];
        }
      }
    }

    // Last part of the loop body, after the sleep.
    method ResetThrottle(compared: Millis, stamped: Millis)
      modifies this
      ensures State() == CoolDown(old(State()), compared, stamped)
    {
      if Elapsed(compared, startTime) > ONE_MINUTE {
        runInOneMinute := false;
        startTime := stamped;
      }
    }

    method AddTask(alert: AppLocalAlert)
      modifies this`timedTask
      ensures State() == old(State()).(alert := alert)
    {
      timedTask := alert;
    }

    method DeleteTask()
      modifies this`timedTask
      ensures State() == old(State()).(alert := old(timedTask).(verison := -1))
    {
      timedTask := timedTask.(verison := -1);
    }

    method SetNotDisturbTime(dnd: AppNotDisturbTime)
      modifies this`notDisturbTime
      ensures State() == old(State()).(dnd := dnd)
    {
      notDisturbTime := dnd;
    }

    method SetNotDisturbSwitch(on: bool)
      modifies this`notDisturbTime
      ensures State() == SetSwitch(old(State()), on)
      ensures notDisturbTime == if old(notDisturbTime).version < 0 then old(notDisturbTime)
                                else old(notDisturbTime).(onoff := if on then 1 else 0)
    {
      if notDisturbTime.version >= 0 {
        notDisturbTime := notDisturbTime.(onoff := if on then 0x01 else 0x00);
      }
    }
  }
}
