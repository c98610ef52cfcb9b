/** Album transfer sessions: the SDK's callbacks and the sender thread share unsynchronised slots. */
module Album {
  const SLOTS := 10
  const FILE_TYPES := 3
  const ALL_TYPES := 6

  datatype Status = Inactive | Start | Stop
  datatype TransMode = NoMode | FileMode | StreamMode

  // One element of g_sweeper_ctrl.
  datatype Ctrl = Ctrl(
    used: bool, sessionId: int, status: Status, mode: TransMode, target: seq<int>, fileIndex: seq<nat>)

  // Static storage starts out zero.
  const ZERO := Ctrl(false, 0, Inactive, NoMode, [0, 0, 0, 0, 0, 0], [0, 0, 0])

  predicate WellFormed(c: Ctrl) {
    |c.target| == ALL_TYPES && |c.fileIndex| == FILE_TYPES
  }

  // ---- choosing a transfer mode ----

  // The two loops of the START case: the first looks for a file type that was NOT asked for.
  function ModeOf(target: seq<int>): TransMode
    requires |target| == ALL_TYPES
  {
    if target[3] == 1 || target[4] == 1 || target[5] == 1 then StreamMode
    else if target[0] == 0 || target[1] == 0 || target[2] == 0 then FileMode
    else NoMode
  }

  /** Of the requests whose flags are 0 or 1, exactly one is dropped without ever starting: all three files and
      no stream. */
  lemma DroppedIff(target: seq<int>)
    requires |target| == ALL_TYPES && forall k :: 0 <= k < ALL_TYPES ==> target[k] == 0 || target[k] == 1
    ensures ModeOf(target) == NoMode <==> target == [1, 1, 1, 0, 0, 0]
  {
    assert target == [target[0], target[1], target[2], target[3], target[4], target[5]];
  }

  /** A stream if any stream is asked for, else files if any of the three files is not. */
  lemma ModeIff(target: seq<int>)
    requires |target| == 6
    ensures ModeOf(target) == StreamMode <==> 1 in target[3..]
    ensures ModeOf(target) == FileMode <==> 1 !in target[3..] && 0 in target[..3]
  {
    assert target[3..] == [target[3], target[4], target[5]];
    assert target[..3] == [target[0], target[1], target[2]];
  }

  method ChooseMode(target: seq<int>) returns (mode: TransMode)
    requires |target| == ALL_TYPES
    ensures mode == ModeOf(target)
  {
    mode := NoMode;
    var k := 0;
    while k < FILE_TYPES
      invariant 0 <= k <= FILE_TYPES
      invariant mode == NoMode && forall j :: 0 <= j < k ==> target[j] != 0
    {
      if target[k] == 0 {
        mode := FileMode;
        break;
      }
      k := k + 1;
    }
    ghost var first := mode;
    k := FILE_TYPES;
    while k < ALL_TYPES
      invariant FILE_TYPES <= k <= ALL_TYPES
      invariant mode == first && forall j :: FILE_TYPES <= j < k ==> target[j] != 1
    {
      if target[k] == 1 {
        mode := StreamMode;
        break;
      }
      k := k + 1;
    }
  }

  // One turn of the sender's file loop; `ok` is whether the file was read and sent.
  function SendKind(c: Ctrl, k: nat, ok: bool): (r: Ctrl)
    requires WellFormed(c) && k < FILE_TYPES
    ensures WellFormed(r)
  {
    if (c.target[k] != 0 || c.target[k + FILE_TYPES] != 0) && ok
    then c.(fileIndex := c.fileIndex[k := c.fileIndex[k] + 1]) else c
  }

  function SendKinds(c: Ctrl, k: nat, ok: seq<bool>): (r: Ctrl)
    requires WellFormed(c) && k <= FILE_TYPES == |ok|
    ensures WellFormed(r) && r.(fileIndex := c.fileIndex) == c
  {
    if k == 0 then c else SendKind(SendKinds(c, k - 1, ok), k - 1, ok[k - 1])
  }

  /** Each file type that was asked for, as file or as stream, and could be sent is counted once; nothing else
      changes. */
  lemma {:induction false} SentCount(c: Ctrl, n: nat, ok: seq<bool>, k: nat)
    requires WellFormed(c) && n <= 3 == |ok| && k < 3
    ensures var d := SendKinds(c, n, ok);
            && d == c.(fileIndex := d.fileIndex)
            && d.fileIndex[k] == c.fileIndex[k] +
                 if k < n && ok[k] && (c.target[k] != 0 || c.target[k + 3] != 0) then 1 else 0
    decreases n
  {
    if n > 0 {
      SentCount(c, n - 1, ok, k);
    }
  }

  // ---- the interleaving of single writes ----

  // Where a callback is: between the writes of a query and before its return; or, of a start, between clearing the
  // request array and filling it, choosing a mode from it (next flag to look at, mode so far), or between the last
  // writes.
  datatype CallbackPc =
    | Outside
    | Querying
    | Answering
    | Parsing(parsed: bool, filled: seq<int>)
    | Scanning(k: nat, mode: TransMode)
    | Choosing(mode: TransMode)
    | Starting

  // Where the sender is: about to read a slot's `used`, about to read its status again and compare it with NULL,
  // START or STOP, sending file type `kind`, done with the files, or between the finish notification and clearing
  // the status.
  datatype SenderPc =
    | Looking(slot: nat)
    | Comparing(slot: nat, status: Status)
    | Sending(slot: nat, kind: nat)
    | Sent(slot: nat)
    | Clearing(slot: nat)

  // `identified`: the session id of this slot had been written; `returned`: a query for it had returned.
  datatype Finish = Finish(slot: nat, session: int, identified: bool, returned: bool)

  // Any number of callbacks may be in progress, of different sessions or of the same one. The last four fields are
  // history: accepted START and CANCEL events, session ids written, queries returned, notifications.
  datatype System = System(
    slots: seq<Ctrl>, callbacks: seq<multiset<CallbackPc>>, sender: SenderPc,
    accepted: seq<nat>, identified: seq<bool>, returned: seq<bool>, finishes: seq<Finish>)

  datatype Step =
    | Query(channel: int)
    | StartDownload(channel: int, parsed: bool, filled: seq<int>)
    | Cancel(channel: int)
    | Resume(channel: int, pc: CallbackPc)  // next step of a callback of that session that is at pc
    | Serve(ok: bool)                       // next step of the sender; whether the file at hand was read and sent

  // __get_sweeper_handle
  predicate HasHandle(channel: int) {
    0 <= channel < SLOTS
  }

  predicate Enabled(s: System, step: Step) {
    match step
    case StartDownload(_, _, filled) => |filled| == ALL_TYPES
    case Resume(ch, pc) => HasHandle(ch) && ch < |s.callbacks| && pc in s.callbacks[ch]
    case _ => true
  }

  predicate Shape(s: System) {
    && |s.slots| == |s.callbacks| == |s.accepted| == |s.identified| == |s.returned| == SLOTS
    && (forall i :: 0 <= i < SLOTS ==> WellFormed(s.slots[i]) && AllFilledIn(s.callbacks[i]))
    && s.sender.slot < SLOTS
    && (s.sender.Sending? ==> s.sender.kind < FILE_TYPES)
  }

  predicate FilledIn(pc: CallbackPc) {
    !pc.Outside? && (pc.Parsing? ==> |pc.filled| == ALL_TYPES)
  }

  predicate AllFilledIn(pcs: multiset<CallbackPc>) {
    forall pc :: pc in pcs ==> FilledIn(pc)
  }

  // A callback moves on from one position to another; Outside is nowhere.
  function Go(pcs: multiset<CallbackPc>, from: CallbackPc, to: CallbackPc): multiset<CallbackPc> {
    pcs - multiset{from} + if to.Outside? then multiset{} else multiset{to}
  }

  function Write(s: System, i: nat, c: Ctrl, from: CallbackPc, to: CallbackPc): System
    requires i < |s.slots| && i < |s.callbacks|
  {
    s.(slots := s.slots[i := c], callbacks := s.callbacks[i := Go(s.callbacks[i], from, to)])
  }

  function NextSlot(i: nat): SenderPc {
    Looking(if i + 1 < SLOTS then i + 1 else 0)
  }

  // tuya_ipc_sweeper_send_finish_2_app
  function Notify(s: System, i: nat): System
    requires i < |s.slots| && i < |s.identified| && i < |s.returned|
  {
    s.(finishes := s.finishes + [NoticeOf(s, i)], sender := Clearing(i))
  }

  function NoticeOf(s: System, i: nat): Finish
    requires i < |s.slots| && i < |s.identified| && i < |s.returned|
  {
    Finish(i, s.slots[i].sessionId, s.identified[i], s.returned[i])
  }

  // One look at a flag of the request array, in the two scanning loops of the START case.
  function Scan(target: seq<int>, k: nat, mode: TransMode): CallbackPc
    requires |target| == ALL_TYPES
  {
    if k < FILE_TYPES then (if target[k] == 0 then Scanning(FILE_TYPES, FileMode) else Scanning(k + 1, mode))
    else if k < ALL_TYPES then (if target[k] == 1 then Choosing(StreamMode) else Scanning(k + 1, mode))
    else if mode != NoMode then Choosing(mode)
    else Outside
  }

  // What one step of a callback of session i makes of its slot, and where it goes.
  function NextWrite(c: Ctrl, i: nat, pc: CallbackPc): (Ctrl, CallbackPc)
    requires WellFormed(c)
  {
    match pc
    case Outside => (c, Outside)
    case Querying => (c.(sessionId := i), Answering)
    case Answering => (c, Outside)
    case Parsing(parsed, filled) => (c.(target := filled), if parsed then Scanning(0, NoMode) else Outside)
    case Scanning(k, mode) => (c, Scan(c.target, k, mode))
    case Choosing(mode) => (c.(mode := mode), Starting)
    case Starting => (c.(status := Start), Outside)
  }

  function ApplyCallback(s: System, i: nat, pc: CallbackPc): System
    requires Shape(s) && i < SLOTS && pc in s.callbacks[i]
  {
    var (c, next) := NextWrite(s.slots[i], i, pc);
    var s1 := Write(s, i, c, pc, next);
    match pc
    case Querying => s1.(identified := s.identified[i := true])
    case Answering => s1.(returned := s.returned[i := true])
    case Starting => s1.(accepted := s.accepted[i := s.accepted[i] + 1])
    case _ => s1
  }

  function AfterKind(i: nat, kind: nat): SenderPc {
    if kind + 1 < FILE_TYPES then Sending(i, kind + 1) else Sent(i)
  }

  function ApplySender(s: System, ok: bool): System
    requires Shape(s)
  {
    var i := s.sender.slot;
    var c := s.slots[i];
    match s.sender
    case Looking(_) => s.(sender := if c.used then Comparing(i, Inactive) else NextSlot(i))
    case Comparing(_, Inactive) => s.(sender := if c.status == Inactive then NextSlot(i) else Comparing(i, Start))
    case Comparing(_, Start) => s.(sender := if c.status == Start then Sending(i, 0) else Comparing(i, Stop))
    case Comparing(_, Stop) => if c.status == Stop then Notify(s, i) else s.(sender := NextSlot(i))
    case Sending(_, k) =>
      s.(slots := s.slots[i := SendKind(c, k, ok)], sender := AfterKind(i, k))
    case Sent(_) => if c.mode == FileMode then Notify(s, i) else s.(sender := NextSlot(i))
    case Clearing(_) => s.(slots := s.slots[i := c.(status := Inactive)], sender := NextSlot(i))
  }

  function Apply(s: System, step: Step): System
    requires Shape(s) && Enabled(s, step)
  {
    match step
    case Query(ch) =>
      if HasHandle(ch) then Write(s, ch, s.slots[ch].(used := true), Outside, Querying) else s
    case StartDownload(ch, parsed, filled) =>
      if HasHandle(ch) then Write(s, ch, s.slots[ch].(target := ZERO.target), Outside, Parsing(parsed, filled)) else s
    case Cancel(ch) =>
      if HasHandle(ch)
      then Write(s, ch, s.slots[ch].(status := Stop), Outside, Outside).(
             accepted := s.accepted[ch := s.accepted[ch] + 1])
      else s
    case Resume(ch, pc) => ApplyCallback(s, ch, pc)
    case Serve(ok) => ApplySender(s, ok)
  }

  predicate Initial(s: System) {
    && s.slots == seq(SLOTS, _ => ZERO) && s.callbacks == seq(SLOTS, _ => multiset{}) && s.sender == Looking(0)
    && s.accepted == seq(SLOTS, _ => 0) && s.identified == s.returned == seq(SLOTS, _ => false) && s.finishes == []
  }

  // Number of finish notifications sent on behalf of slot i.
  function Finished(fs: seq<Finish>, i: nat): nat {
    if fs == [] then 0 else Finished(fs[..|fs| - 1], i) + if fs[|fs| - 1].slot == i then 1 else 0
  }

  // An event that is still to be answered on slot i.
  predicate Pending(s: System, i: nat)
    requires i < |s.slots|
  {
    s.slots[i].status != Inactive && s.sender != Clearing(i)
  }

  function Owed(s: System, i: nat): nat
    requires i < |s.slots|
  {
    if Pending(s, i) then 1 else 0
  }

  predicate Balanced(s: System) {
    forall i :: 0 <= i < |s.slots| && i < |s.accepted| ==> Finished(s.finishes, i) + Owed(s, i) <= s.accepted[i]
  }

  // Past `used` the slot is in use, past the first look at its status it is active: only the sender ends that.
  predicate Busy(s: System)
    requires Shape(s)
  {
    && (s.sender.Looking? || s.sender.Clearing? || s.slots[s.sender.slot].used)
    && (s.sender.Looking? || s.sender.Clearing? || s.sender == Comparing(s.sender.slot, Inactive)
        || s.slots[s.sender.slot].status != Inactive)
  }

  // The session id is right once it has been written; before that it is still zero.
  predicate Identified(s: System, i: nat)
    requires Shape(s) && i < SLOTS
  {
    && s.slots[i].sessionId == (if s.identified[i] then i else 0)
    && (s.returned[i] || Answering in s.callbacks[i] ==> s.identified[i])
  }

  predicate Addressed(f: Finish) {
    f.slot < SLOTS && (f.session == f.slot <==> f.slot == 0 || f.identified) && (f.returned ==> f.identified)
  }

  predicate Inv(s: System) {
    && Shape(s) && Balanced(s) && Busy(s)
    && (forall i :: 0 <= i < SLOTS ==> Identified(s, i))
    && (forall f :: f in s.finishes ==> Addressed(f))
  }

  lemma NotifyCounts(fs: seq<Finish>, f: Finish, i: nat)
    ensures Finished(fs + [f], i) == Finished(fs, i) + if f.slot == i then 1 else 0
  {
    assert (fs + [f])[..|fs|] == fs;
  }

  // A new notification for slot i, answering an event that was pending.
  lemma NotifyBalances(s: System, i: nat)
    requires Shape(s) && Balanced(s) && i < SLOTS && s.sender.slot == i && Pending(s, i)
    ensures Balanced(Notify(s, i))
  {
    var f := NoticeOf(s, i);
    forall j | 0 <= j < SLOTS
      ensures Finished(s.finishes + [f], j) == Finished(s.finishes, j) + if j == i then 1 else 0
    {
      NotifyCounts(s.finishes, f, j);
    }
  }

  lemma NotifyKeeps(s: System, i: nat)
    requires Inv(s) && i < SLOTS && s.sender.slot == i && Pending(s, i) && s.slots[i].used
    ensures Inv(Notify(s, i))
  {
    NotifyBalances(s, i);
    assert Identified(s, i);
    forall j | 0 <= j < SLOTS
      ensures Identified(Notify(s, i), j)
    {
      assert Identified(s, j);
    }
  }

  // A step that changes one slot at most: what has to be checked is that slot, and the sender.
  lemma LocalKeeps(s: System, t: System, i: nat)
    requires Inv(s) && Shape(t) && i < SLOTS && t.finishes == s.finishes && Busy(t)
    requires t.sender.Clearing? ==> t.sender == s.sender
    requires forall j :: 0 <= j < SLOTS && j != i ==>
               t.slots[j] == s.slots[j] && t.callbacks[j] == s.callbacks[j] && t.accepted[j] == s.accepted[j]
               && t.identified[j] == s.identified[j] && t.returned[j] == s.returned[j]
    requires forall j :: 0 <= j < SLOTS && j != i ==> Owed(t, j) <= Owed(s, j)
    requires s.accepted[i] + Owed(t, i) <= t.accepted[i] + Owed(s, i)
    requires Identified(t, i)
    ensures Inv(t)
  {
    forall j | 0 <= j < SLOTS
      ensures Identified(t, j)
    {
      assert Identified(s, j);
    }
  }

  // The sender goes on without writing anything.
  lemma MoveKeeps(s: System, pc: SenderPc)
    requires Inv(s) && pc.slot < SLOTS && (pc.Sending? ==> pc.kind < FILE_TYPES)
    requires !s.sender.Clearing? && !pc.Clearing? && Busy(s.(sender := pc))
    ensures Inv(s.(sender := pc))
  {
    assert Identified(s, 0);
    LocalKeeps(s, s.(sender := pc), 0);
  }

  lemma SendingKeeps(s: System, ok: bool)
    requires Inv(s) && s.sender.Sending?
    ensures Inv(ApplySender(s, ok))
  {
    var i := s.sender.slot;
    assert Identified(s, i);
    LocalKeeps(s, ApplySender(s, ok), i);
  }

  lemma ClearingKeeps(s: System)
    requires Inv(s) && s.sender.Clearing?
    ensures Inv(ApplySender(s, false))
  {
    var i := s.sender.slot;
    assert Identified(s, i);
    LocalKeeps(s, ApplySender(s, false), i);
  }

  lemma SenderKeeps(s: System, ok: bool)
    requires Inv(s)
    ensures Inv(ApplySender(s, ok))
  {
    var i := s.sender.slot;
    if s.sender.Sending? {
      SendingKeeps(s, ok);
    } else if s.sender.Clearing? {
      ClearingKeeps(s);
    } else if ApplySender(s, ok).sender.Clearing? {
      NotifyKeeps(s, i);
    } else {
      MoveKeeps(s, ApplySender(s, ok).sender);
    }
  }

  // A write that leaves status and identity of the slot alone and does not end its use.
  lemma WriteKeeps(s: System, i: nat, c: Ctrl, from: CallbackPc, to: CallbackPc)
    requires Inv(s) && i < SLOTS && WellFormed(c) && (to.Outside? || FilledIn(to)) && !to.Answering?
    requires c.status == s.slots[i].status && c.sessionId == s.slots[i].sessionId && (s.slots[i].used ==> c.used)
    ensures Inv(Write(s, i, c, from, to))
  {
    assert Identified(s, i);
    LocalKeeps(s, Write(s, i, c, from, to), i);
  }

  lemma AcceptKeeps(s: System, i: nat, c: Ctrl, from: CallbackPc)
    requires Inv(s) && i < SLOTS && c == s.slots[i].(status := c.status) && c.status != Inactive
    ensures Inv(Write(s, i, c, from, Outside).(accepted := s.accepted[i := s.accepted[i] + 1]))
  {
    assert Identified(s, i);
    LocalKeeps(s, Write(s, i, c, from, Outside).(accepted := s.accepted[i := s.accepted[i] + 1]), i);
  }

  lemma QueryKeeps(s: System, i: nat, pc: CallbackPc)
    requires Inv(s) && i < SLOTS && pc in s.callbacks[i] && (pc.Querying? || pc.Answering?)
    ensures Inv(ApplyCallback(s, i, pc))
  {
    assert Identified(s, i);
    LocalKeeps(s, ApplyCallback(s, i, pc), i);
  }

  lemma CallbackKeeps(s: System, i: nat, pc: CallbackPc)
    requires Inv(s) && i < SLOTS && pc in s.callbacks[i]
    ensures Inv(ApplyCallback(s, i, pc))
  {
    assert FilledIn(pc);
    var (c, next) := NextWrite(s.slots[i], i, pc);
    if pc.Querying? || pc.Answering? {
      QueryKeeps(s, i, pc);
    } else if pc.Starting? {
      AcceptKeeps(s, i, c, pc);
    } else {
      WriteKeeps(s, i, c, pc, next);
    }
  }

  lemma StepKeeps(s: System, step: Step)
    requires Inv(s) && Enabled(s, step)
    ensures Inv(Apply(s, step))
  {
    match step
    case Serve(ok) => SenderKeeps(s, ok);
    case Resume(ch, pc) => CallbackKeeps(s, ch, pc);
    case Query(ch) =>
      if HasHandle(ch) {
        WriteKeeps(s, ch, s.slots[ch].(used := true), Outside, Querying);
      }
    case StartDownload(ch, parsed, filled) =>
      if HasHandle(ch) {
        WriteKeeps(s, ch, s.slots[ch].(target := ZERO.target), Outside, Parsing(parsed, filled));
      }
    case Cancel(ch) =>
      if HasHandle(ch) {
        AcceptKeeps(s, ch, s.slots[ch].(status := Stop), Outside);
      }
  }

  predicate Runs(s: System, steps: seq<Step>)
    decreases |steps|
  {
    steps == [] || (Shape(s) && Enabled(s, steps[0]) && Runs(Apply(s, steps[0]), steps[1..]))
  }

  function After(s: System, steps: seq<Step>): System
    requires Runs(s, steps)
    decreases |steps|
  {
    if steps == [] then s else After(Apply(s, steps[0]), steps[1..])
  }

  lemma {:induction false} RunKeeps(s: System, steps: seq<Step>)
    requires Inv(s) && Runs(s, steps)
    ensures Inv(After(s, steps))
    decreases |steps|
  {
    if steps != [] {
      StepKeeps(s, steps[0]);
      RunKeeps(Apply(s, steps[0]), steps[1..]);
    }
  }

  // ---- the properties of every run ----

  /** No spurious answers: under any interleaving, a session is never told "finished" more often than it had START
      and CANCEL events accepted. */
  lemma FinishesBounded(s: System, steps: seq<Step>, i: nat)
    requires Initial(s) && Runs(s, steps) && i < SLOTS
    ensures var e := After(s, steps);
            |e.accepted| == SLOTS && Finished(e.finishes, i) <= e.accepted[i]
  {
    RunKeeps(s, steps);
  }

  /** A finish goes to the session of its slot exactly when the session id had been written (or the slot is 0, the
      value session ids start with); a query that had returned is enough. */
  lemma FinishAddressIff(s: System, steps: seq<Step>, f: Finish)
    requires Initial(s) && Runs(s, steps) && f in After(s, steps).finishes
    ensures f.slot < SLOTS && (f.session == f.slot <==> f.slot == 0 || f.identified)
    ensures f.returned ==> f.session == f.slot
  {
    RunKeeps(s, steps);
  }

  // The other case does occur: a cancel, then a query interrupted between its two writes while the sender looks.
  const RACE: seq<Step> :=
    [Cancel(1), Query(1), Serve(true), Serve(true), Serve(true), Serve(true), Serve(true)]

  lemma UnfoldRun(s: System, step: Step, steps: seq<Step>, rest: seq<Step>)
    requires Shape(s) && Enabled(s, step) && Runs(Apply(s, step), rest) && steps == [step] + rest
    ensures Runs(s, steps) && After(s, steps) == After(Apply(s, step), rest)
  {
    assert steps[1..] == rest;
  }

  lemma FinishCanGoAstray(s: System)
    requires Initial(s)
    ensures Runs(s, RACE) && After(s, RACE).finishes == [Finish(1, 0, false, false)]
  {
    var look := Serve(true);
    var s1 := Apply(s, Cancel(1));
    var s2 := Apply(s1, Query(1));
    var s3 := s2.(sender := Looking(1));
    SenderAnswers(s3, 1);
    UnfoldRun(s2, look, RACE[2..], [look, look, look, look]);
    UnfoldRun(s1, Query(1), RACE[1..], RACE[2..]);
    UnfoldRun(s, Cancel(1), RACE, RACE[1..]);
  }

  // Four undisturbed steps of the sender at a stopped slot.
  lemma SenderAnswers(s: System, i: nat)
    requires Shape(s) && s.sender == Looking(i) && s.slots[i].used && s.slots[i].status == Stop
    ensures var look := Serve(true); var steps := [look, look, look, look];
            Runs(s, steps) && After(s, steps) == Notify(s, i)
  {
    var look := Serve(true);
    var s1, s2, s3 :=
      s.(sender := Comparing(i, Inactive)), s.(sender := Comparing(i, Start)), s.(sender := Comparing(i, Stop));
    UnfoldRun(s3, look, [look], []);
    UnfoldRun(s2, look, [look, look], [look]);
    UnfoldRun(s1, look, [look, look, look], [look, look]);
    UnfoldRun(s, look, [look, look, look, look], [look, look, look]);
  }

  // Callers that send START and CANCEL only after the query returned.
  predicate Polite(s: System, steps: seq<Step>)
    requires Runs(s, steps)
    decreases |steps|
  {
    steps == [] || (IsPolite(s, steps[0]) && Polite(Apply(s, steps[0]), steps[1..]))
  }

  predicate IsPolite(s: System, step: Step)
    requires Shape(s)
  {
    match step
    case StartDownload(ch, _, _) => HasHandle(ch) ==> s.returned[ch]
    case Cancel(ch) => HasHandle(ch) ==> s.returned[ch]
    case _ => true
  }

  // With polite callers only slots whose query returned become active.
  predicate OwnedSlot(s: System, i: nat)
    requires Shape(s) && i < SLOTS
  {
    && (s.slots[i].status != Inactive ==> s.returned[i])
    && (forall pc :: pc in s.callbacks[i] ==> pc.Querying? || pc.Answering? || s.returned[i])
  }

  predicate ActiveReturned(s: System) {
    Shape(s) && (forall i :: 0 <= i < SLOTS ==> OwnedSlot(s, i)) && (forall f :: f in s.finishes ==> f.returned)
  }

  lemma PoliteSender(s: System, ok: bool)
    requires Inv(s) && ActiveReturned(s)
    ensures ActiveReturned(ApplySender(s, ok))
  {
    SenderKeeps(s, ok);
    assert OwnedSlot(s, s.sender.slot);
    forall i | 0 <= i < SLOTS
      ensures OwnedSlot(ApplySender(s, ok), i)
    {
      assert OwnedSlot(s, i);
    }
  }

  lemma PoliteCallback(s: System, ch: nat, pc: CallbackPc)
    requires Inv(s) && ActiveReturned(s) && ch < SLOTS && pc in s.callbacks[ch]
    ensures ActiveReturned(ApplyCallback(s, ch, pc))
  {
    CallbackKeeps(s, ch, pc);
    assert OwnedSlot(s, ch);
    forall i | 0 <= i < SLOTS
      ensures OwnedSlot(ApplyCallback(s, ch, pc), i)
    {
      assert OwnedSlot(s, i);
    }
  }

  lemma PoliteStep(s: System, step: Step)
    requires Inv(s) && ActiveReturned(s) && Enabled(s, step) && IsPolite(s, step)
    ensures ActiveReturned(Apply(s, step))
  {
    match step
    case Serve(ok) => PoliteSender(s, ok);
    case Resume(ch, pc) => PoliteCallback(s, ch, pc);
    case _ =>
      StepKeeps(s, step);
      forall i | 0 <= i < SLOTS
        ensures OwnedSlot(Apply(s, step), i)
      {
        assert OwnedSlot(s, i);
      }
  }

  lemma {:induction false} PoliteKeeps(s: System, steps: seq<Step>)
    requires Inv(s) && ActiveReturned(s) && Runs(s, steps) && Polite(s, steps)
    ensures ActiveReturned(After(s, steps))
    decreases |steps|
  {
    if steps != [] {
      StepKeeps(s, steps[0]);
      PoliteStep(s, steps[0]);
      PoliteKeeps(Apply(s, steps[0]), steps[1..]);
    }
  }

  /** With polite callers every finish, under any interleaving, goes to the session of its own slot. */
  lemma PoliteFinishesArrive(s: System, steps: seq<Step>, f: Finish)
    requires Initial(s) && Runs(s, steps) && Polite(s, steps) && f in After(s, steps).finishes
    ensures f.session == f.slot
  {
    RunKeeps(s, steps);
    PoliteKeeps(s, steps);
  }

  // The slot a step may touch.
  function Touches(s: System, step: Step): int {
    match step
    case Query(ch) => ch
    case StartDownload(ch, _, _) => ch
    case Cancel(ch) => ch
    case Resume(ch, _) => ch
    case Serve(_) => s.sender.slot
  }

  /** Isolation: no step changes another session's slot, callbacks or history. */
  lemma StepsAreLocal(s: System, step: Step, j: nat)
    requires Shape(s) && Enabled(s, step) && j < SLOTS && j != Touches(s, step)
    ensures var t := Apply(s, step);
            && |t.slots| == |t.callbacks| == |t.accepted| == |t.identified| == |t.returned| == SLOTS
            && t.callbacks[j] == s.callbacks[j] && t.slots[j] == s.slots[j] && t.accepted[j] == s.accepted[j]
            && t.identified[j] == s.identified[j] && t.returned[j] == s.returned[j]
  {}

  // ---- each entry point run without interruption ----

  function Queried(c: Ctrl, channel: int): Ctrl {
    c.(used := true, sessionId := channel)
  }

  function Started(c: Ctrl, parsed: bool, filled: seq<int>): Ctrl
    requires |filled| == ALL_TYPES
  {
    var c1 := c.(target := filled);
    if parsed && ModeOf(filled) != NoMode then c1.(mode := ModeOf(filled), status := Start) else c1
  }

  function Cancelled(c: Ctrl): Ctrl {
    c.(status := Stop)
  }

  predicate GetsFinish(c: Ctrl) {
    c.used && (c.status == Stop || (c.status == Start && c.mode == FileMode))
  }

  function Served(c: Ctrl, ok: seq<bool>): Ctrl
    requires WellFormed(c) && |ok| == FILE_TYPES
  {
    var c1 := if c.used && c.status == Start then SendKinds(c, FILE_TYPES, ok) else c;
    if GetsFinish(c) then c1.(status := Inactive) else c1
  }

  /** The entry points, field by field: only handles 0 to 9 exist; a query marks and identifies; a start stores the
      request and, if a mode was found, starts; a cancel stops. */
  lemma EntryPoints(c: Ctrl, channel: int, parsed: bool, filled: seq<int>)
    requires |filled| == 6
    ensures HasHandle(channel) <==> channel in [0, 1, 2, 3, 4, 5, 6, 7, 8, 9]
    ensures Queried(c, channel) == Ctrl(true, channel, c.status, c.mode, c.target, c.fileIndex)
    ensures Cancelled(c) == Ctrl(c.used, c.sessionId, Stop, c.mode, c.target, c.fileIndex)
    ensures Started(c, parsed, filled) ==
            if parsed && (1 in filled[3..] || 0 in filled[..3])
            then Ctrl(c.used, c.sessionId, Start, if 1 in filled[3..] then StreamMode else FileMode, filled,
                      c.fileIndex)
            else Ctrl(c.used, c.sessionId, c.status, c.mode, filled, c.fileIndex)
  {
    ModeIff(filled);
  }

  /** The sender's turn, field by field: a finish for a used slot that was stopped or whose files were sent, which ends
      its activity; files are counted while started. */
  lemma TurnOf(c: Ctrl, ok: seq<bool>, k: nat)
    requires WellFormed(c) && |ok| == 3 && k < 3
    ensures GetsFinish(c) <==> c.used && (c.status == Stop || (c.status == Start && c.mode == FileMode))
    ensures var d := Served(c, ok);
            && d == Ctrl(c.used, c.sessionId, if GetsFinish(c) then Inactive else c.status, c.mode, c.target,
                         d.fileIndex)
            && WellFormed(d)
            && d.fileIndex[k] == c.fileIndex[k] +
                 if c.used && c.status == Start && ok[k] && (c.target[k] != 0 || c.target[k + 3] != 0) then 1 else 0
  {
    SentCount(c, 3, ok, k);
  }

  // A callback run to its end from position pc, nothing in between.
  function RunCallback(c: Ctrl, i: nat, pc: CallbackPc, fuel: nat): Ctrl
    requires WellFormed(c) && (pc.Outside? || FilledIn(pc))
    decreases fuel
  {
    if fuel == 0 || pc.Outside? then c else
    var (d, next) := NextWrite(c, i, pc);
    RunCallback(d, i, next, fuel - 1)
  }

  function Chosen(c: Ctrl, mode: TransMode): Ctrl {
    if mode == NoMode then c else c.(mode := mode, status := Start)
  }

  // What the two scanning loops have found out before looking at flag k.
  predicate Seen(target: seq<int>, k: nat, mode: TransMode)
    requires |target| == ALL_TYPES
  {
    if k < FILE_TYPES then mode == NoMode && forall j :: 0 <= j < k ==> target[j] != 0
    else && mode == (if target[0] == 0 || target[1] == 0 || target[2] == 0 then FileMode else NoMode)
         && forall j :: FILE_TYPES <= j < k && j < ALL_TYPES ==> target[j] != 1
  }

  // At most seven looks, then two writes.
  lemma {:induction false} ScanRuns(c: Ctrl, i: nat, k: nat, mode: TransMode, fuel: nat)
    requires WellFormed(c) && k <= ALL_TYPES && Seen(c.target, k, mode) && fuel >= ALL_TYPES - k + 3
    ensures RunCallback(c, i, Scanning(k, mode), fuel) == Chosen(c, ModeOf(c.target))
    decreases ALL_TYPES - k
  {
    var next := Scan(c.target, k, mode);
    if next.Scanning? {
      ScanRuns(c, i, next.k, next.mode, fuel - 1);
    } else if next.Choosing? {
      var d := c.(mode := next.mode);
      assert RunCallback(d, i, Starting, fuel - 2) == d.(status := Start);
    }
  }

  /** The single steps of each callback, taken together, are the callback. */
  lemma CallbacksCompose(s: System, ch: nat, parsed: bool, filled: seq<int>)
    requires Shape(s) && ch < SLOTS && |filled| == ALL_TYPES
    ensures var c := s.slots[ch];
            && RunCallback(c.(used := true), ch, Querying, 2) == Queried(c, ch)
            && RunCallback(c.(target := ZERO.target), ch, Parsing(parsed, filled), 10) == Started(c, parsed, filled)
            && Apply(s, Cancel(ch)).slots == s.slots[ch := Cancelled(c)]
  {
    var d := s.slots[ch].(target := filled);
    if parsed {
      ScanRuns(d, ch, 0, NoMode, 9);
    }
  }

  // And each of them is a step of the system.
  lemma ResumeIsNextWrite(s: System, ch: nat, pc: CallbackPc)
    requires Shape(s) && ch < SLOTS && pc in s.callbacks[ch]
    ensures var (c, next) := NextWrite(s.slots[ch], ch, pc); var t := Apply(s, Resume(ch, pc));
            t.slots == s.slots[ch := c] && t.callbacks[ch] == Go(s.callbacks[ch], pc, next)
  {}

  // The sender's steps from looking at a slot until it looks at the next one.
  function Round(s: System, ok: seq<bool>, fuel: nat): System
    requires Shape(s) && |ok| == FILE_TYPES
    decreases fuel
  {
    var s1 := ApplySender(s, s.sender.Sending? && ok[s.sender.kind]);
    if fuel == 0 || s1.sender.Looking? || !Shape(s1) then s1 else Round(s1, ok, fuel - 1)
  }

  // The notification a turn on slot content c sends.
  function FinishOf(s: System, c: Ctrl): seq<Finish>
    requires Shape(s)
  {
    if GetsFinish(c) then [NoticeOf(s, s.sender.slot).(session := c.sessionId)] else []
  }

  // At most eight steps: look, compare twice, three file types, finish, clear.
  const ROUND_STEPS := 8

  lemma RoundStep(s: System, ok: seq<bool>, s1: System, fuel: nat)
    requires Shape(s) && |ok| == FILE_TYPES && fuel > 0
    requires s1 == ApplySender(s, s.sender.Sending? && ok[s.sender.kind]) && Shape(s1) && !s1.sender.Looking?
    ensures Round(s, ok, fuel) == Round(s1, ok, fuel - 1)
  {}

  // After the third comparison has failed the slot is left as it is.
  lemma IdleRound(s: System, ok: seq<bool>, fuel: nat)
    requires Shape(s) && |ok| == FILE_TYPES && ApplySender(s, false).sender.Looking? && !s.sender.Sending?
    ensures Round(s, ok, fuel) == ApplySender(s, false)
  {}

  // A finish notification followed by the clearing write.
  lemma FinishingRound(s: System, ok: seq<bool>, fuel: nat)
    requires Shape(s) && |ok| == FILE_TYPES
    ensures var i := s.sender.slot;
            var c := s.slots[i];
            var t := Round(Notify(s, i), ok, fuel);
            && t.sender == NextSlot(i)
            && t.slots == s.slots[i := c.(status := Inactive)]
            && t.finishes == s.finishes + [NoticeOf(s, i)]
  {}

  lemma SentRound(s: System, ok: seq<bool>, c: Ctrl)
    requires Shape(s) && |ok| == FILE_TYPES && WellFormed(c) && s.sender.Sent?
    requires c.used && c.status == Start && s.slots[s.sender.slot] == SendKinds(c, FILE_TYPES, ok)
    ensures var t := Round(s, ok, 1);
            && t.sender == NextSlot(s.sender.slot)
            && t.slots == s.slots[s.sender.slot := Served(c, ok)]
            && t.finishes == s.finishes + FinishOf(s, c)
  {
    var i := s.sender.slot;
    if c.mode == FileMode {
      FinishingRound(s, ok, 0);
    } else {
      assert s.slots[i := Served(c, ok)] == s.slots;
      assert s.finishes + [] == s.finishes;
    }
  }

  // Sending one file type moves on to the next and leaves the rest of the turn the same.
  lemma KindStep(s: System, ok: seq<bool>, c: Ctrl, k: nat, fuel: nat)
    requires Shape(s) && |ok| == FILE_TYPES && WellFormed(c) && k < FILE_TYPES && fuel > 0
    requires s.sender == Sending(s.sender.slot, k) && s.slots[s.sender.slot] == SendKinds(c, k, ok)
    ensures var i := s.sender.slot;
            var s1 := ApplySender(s, ok[k]);
            && Shape(s1) && s1.sender == AfterKind(i, k) && s1.slots[i] == SendKinds(c, k + 1, ok)
            && s1.slots[i := Served(c, ok)] == s.slots[i := Served(c, ok)]
            && s1.finishes == s.finishes && s1.identified == s.identified && s1.returned == s.returned
            && Round(s, ok, fuel) == Round(s1, ok, fuel - 1)
  {
    var i := s.sender.slot;
    var d := SendKind(s.slots[i], k, ok[k]);
    var s1 := s.(slots := s.slots[i := d], sender := AfterKind(i, k));
    assert s1 == ApplySender(s, ok[k]);
    assert s.slots[i := d][i := Served(c, ok)] == s.slots[i := Served(c, ok)];
  }

  lemma {:induction false} SendingRound(s: System, ok: seq<bool>, c: Ctrl, k: nat, fuel: nat)
    requires Shape(s) && |ok| == FILE_TYPES && WellFormed(c) && k <= FILE_TYPES && fuel == ROUND_STEPS - 4 - k
    requires c.used && c.status == Start && s.slots[s.sender.slot] == SendKinds(c, k, ok)
    requires s.sender == if k < FILE_TYPES then Sending(s.sender.slot, k) else Sent(s.sender.slot)
    ensures var t := Round(s, ok, fuel);
            && t.sender == NextSlot(s.sender.slot)
            && t.slots == s.slots[s.sender.slot := Served(c, ok)]
            && t.finishes == s.finishes + FinishOf(s, c)
    decreases FILE_TYPES - k
  {
    if k < FILE_TYPES {
      KindStep(s, ok, c, k, fuel);
      SendingRound(ApplySender(s, ok[k]), ok, c, k + 1, fuel - 1);
    } else {
      SentRound(s, ok, c);
    }
  }

  /** The sender's single steps on one slot, taken together, are the sender's turn on that slot. */
  lemma SenderComposes(s: System, ok: seq<bool>)
    requires Shape(s) && s.sender.Looking? && |ok| == FILE_TYPES
    ensures var i := s.sender.slot;
            var t := Round(s, ok, ROUND_STEPS - 1);
            && t.sender == NextSlot(i)
            && t.slots == s.slots[i := Served(s.slots[i], ok)]
            && t.finishes == s.finishes + FinishOf(s, s.slots[i])
  {
    var i := s.sender.slot;
    var c := s.slots[i];
    if !c.used {
      IdleRound(s, ok, ROUND_STEPS - 1);
    } else {
      RoundStep(s, ok, s.(sender := Comparing(i, Inactive)), ROUND_STEPS - 1);
      ComparingRound(s.(sender := Comparing(i, Inactive)), ok);
    }
  }

  lemma ComparingRound(s: System, ok: seq<bool>)
    requires Shape(s) && |ok| == FILE_TYPES && s.sender == Comparing(s.sender.slot, Inactive)
    requires s.slots[s.sender.slot].used
    ensures var i := s.sender.slot;
            var t := Round(s, ok, ROUND_STEPS - 2);
            && t.sender == NextSlot(i)
            && t.slots == s.slots[i := Served(s.slots[i], ok)]
            && t.finishes == s.finishes + FinishOf(s, s.slots[i])
  {
    var i := s.sender.slot;
    var c := s.slots[i];
    if c.status == Inactive {
      IdleRound(s, ok, ROUND_STEPS - 2);
      assert s.slots[i := Served(c, ok)] == s.slots && s.finishes + [] == s.finishes;
    } else {
      var s1 := s.(sender := Comparing(i, Start));
      RoundStep(s, ok, s1, ROUND_STEPS - 2);
      if c.status == Start {
        var s2 := s.(sender := Sending(i, 0));
        RoundStep(s1, ok, s2, ROUND_STEPS - 3);
        SendingRound(s2, ok, c, 0, ROUND_STEPS - 4);
      } else {
        var s2 := s.(sender := Comparing(i, Stop));
        RoundStep(s1, ok, s2, ROUND_STEPS - 3);
        RoundStep(s2, ok, Notify(s2, i), ROUND_STEPS - 4);
        FinishingRound(s2, ok, ROUND_STEPS - 5);
      }
    }
  }

  class Sweeper {
    const ctrl: array<Ctrl>

    predicate Valid()
      reads this, ctrl
    {
      ctrl.Length == SLOTS && forall i :: 0 <= i < SLOTS ==> WellFormed(ctrl[i])
    }

    constructor ()
      ensures Valid() && fresh(ctrl) && ctrl[..] == seq(SLOTS, _ => ZERO)
    {
      ctrl := new Ctrl[SLOTS](_ => ZERO);
    }

    // TRANS_ALBUM_QUERY
    method QueryAlbum(channel: int)
      requires Valid()
      modifies ctrl
      ensures Valid()
      ensures ctrl[..] == if HasHandle(channel) then old(ctrl[..][channel := Queried(ctrl[channel], channel)])
                          else old(ctrl[..])
    {
      if HasHandle(channel) {
        ctrl[channel] := ctrl[channel].(used := true);
        ctrl[channel] := ctrl[channel].(sessionId := channel);
      }
    }

    // TRANS_ALBUM_DOWNLOAD_START; `parsed` and `filled` are what the SDK's request parser returns.
    method StartAlbum(channel: int, parsed: bool, filled: seq<int>)
      requires Valid() && |filled| == ALL_TYPES
      modifies ctrl
      ensures Valid()
      ensures ctrl[..] == if HasHandle(channel) then old(ctrl[..][channel := Started(ctrl[channel], parsed, filled)])
                          else old(ctrl[..])
    {
      if HasHandle(channel) {
        ctrl[channel] := ctrl[channel].(target := ZERO.target);
        ctrl[channel] := ctrl[channel].(target := filled);
        if parsed {
          var mode := ChooseMode(filled);
          if mode != NoMode {
            ctrl[channel] := ctrl[channel].(mode := mode);
            ctrl[channel] := ctrl[channel].(status := Start);
          }
        }
      }
    }

    // TRANS_ALBUM_DOWNLOAD_CANCEL
    method CancelAlbum(channel: int)
      requires Valid()
      modifies ctrl
      ensures Valid()
      ensures ctrl[..] == if HasHandle(channel) then old(ctrl[..][channel := Cancelled(ctrl[channel])])
                          else old(ctrl[..])
    {
      if HasHandle(channel) {
        ctrl[channel] := ctrl[channel].(status := Stop);
      }
    }

    // One slot of the sender's round; `ok` tells for each file type whether it was read and sent.
    method ServeSlot(i: nat, ok: seq<bool>) returns (finished: bool)
      requires Valid() && i < SLOTS && |ok| == FILE_TYPES
      modifies ctrl
      ensures Valid()
      ensures ctrl[..] == old(ctrl[..][i := Served(ctrl[i], ok)])
      ensures finished <==> GetsFinish(old(ctrl[i]))
    {
      finished := false;
      if ctrl[i].used && ctrl[i].status != Inactive {
        if ctrl[i].status == Start {
          SendFiles(i, ok);
          if ctrl[i].mode == FileMode {
            finished := true;
            ctrl[i] := ctrl[i].(status := Inactive);
          }
        } else {
          finished := true;
          ctrl[i] := ctrl[i].(status := Inactive);
        }
      }
    }

    method SendFiles(i: nat, ok: seq<bool>)
      requires Valid() && i < SLOTS && |ok| == FILE_TYPES
      modifies ctrl
      ensures Valid()
      ensures ctrl[..] == old(ctrl[..][i := SendKinds(ctrl[i], FILE_TYPES, ok)])
    {
      for k := 0 to FILE_TYPES
        invariant ctrl[..] == old(ctrl[..][i := SendKinds(ctrl[i], k, ok)])
      {
        var c := ctrl[i];
        assert c == old(ctrl[..][i := SendKinds(ctrl[i], k, ok)])[i];
        if (c.target[k] != 0 || c.target[k + FILE_TYPES] != 0) && ok[k] {
          ctrl[i] := c.(fileIndex := c.fileIndex[k := c.fileIndex[k] + 1]);
        }
      }
      assert forall j :: 0 <= j < SLOTS ==> ctrl[j] == ctrl[..][j];
    }
  }
}
