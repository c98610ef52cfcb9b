/** The H.264 access-unit splitter and the endless loop that feeds its frames to the ring buffers. */
module LiveVideo {
  import opened Arithmetic
  import opened Bytes

  // nal_unit_type, section 7.4.1 of ITU-T H.264
  function NalType(b: byte): nat {
    b % 32
  }

  const SPS := 7
  const NON_IDR_SLICE := 1

  // A four-byte start code (Annex B) in front of an SPS or a non-IDR slice.
  predicate IsBoundary(f: seq<byte>, p: int) {
    && 0 <= p && p + 5 <= |f|
    && f[p] == 0 && f[p + 1] == 0 && f[p + 2] == 0 && f[p + 3] == 1
    && (NalType(f[p + 4]) == SPS || NalType(f[p + 4]) == NON_IDR_SLICE)
  }

  predicate IsKey(f: seq<byte>, p: int)
    requires IsBoundary(f, p)
  {
    NalType(f[p + 4]) == SPS
  }

  // First bytes of NAL units of types 7 and 1, for every nal_ref_idc and forbidden_zero_bit.
  const SPS_BYTES: set<int> := {0x07, 0x27, 0x47, 0x67, 0x87, 0xA7, 0xC7, 0xE7}
  const NON_IDR_BYTES: set<int> := {0x01, 0x21, 0x41, 0x61, 0x81, 0xA1, 0xC1, 0xE1}

  /** Boundaries read off the bytes. */
  lemma BoundaryIff(f: seq<byte>, p: nat)
    ensures IsBoundary(f, p) <==>
              At(f, p, [0, 0, 0, 1]) && p + 4 < |f| && (f[p + 4] in SPS_BYTES || f[p + 4] in NON_IDR_BYTES)
    ensures IsBoundary(f, p) ==> (IsKey(f, p) <==> f[p + 4] in SPS_BYTES)
  {
    if p + 5 <= |f| {
      var start := f[p..p + 4];
      assert start == [f[p], f[p + 1], f[p + 2], f[p + 3]];
      assert start == [0, 0, 0, 1] <==> start[0] == 0 && start[1] == 0 && start[2] == 0 && start[3] == 1;
    }
  }

  // First boundary at or after p; the length of the file if there is none.
  function Next(f: seq<byte>, p: nat): (q: nat)
    requires p <= |f|
    ensures p <= q <= |f|
    ensures q < |f| ==> IsBoundary(f, q)
    ensures forall k :: p <= k < q ==> !IsBoundary(f, k)
    decreases |f| - p
  {
    if p == |f| || IsBoundary(f, p) then p else Next(f, p + 1)
  }

  datatype Frame = Frame(start: nat, len: nat, key: bool)

  function FrameAt(f: seq<byte>, p: nat): Frame
    requires IsBoundary(f, p)
  {
    Frame(p, Next(f, p + 1) - p, IsKey(f, p))
  }

  // The declarative split: one frame per boundary, reaching to the next one.
  function Cut(f: seq<byte>, from: nat): seq<Frame>
    requires from <= |f|
    decreases |f| - from
  {
    var p := Next(f, from);
    if p == |f| then [] else [FrameAt(f, p)] + Cut(f, p + 1)
  }

  // ---- the splitter and the driver, as functions of the driver's variables ----

  // Frame_start, FrameLen and IsKeyFrame after one call on the bytes from `offset` on.
  function ReadOne(f: seq<byte>, offset: nat, s: Frame): Frame
    requires offset <= |f|
  {
    var size := |f| - offset;
    if size <= 5 then s else
    var p := Next(f, offset);
    if p == |f| then s.(len := size) else
    var q := Next(f, p + 1);
    Frame(p, if q < |f| then q - p else size, IsKey(f, p))
  }

  function Offset(f: seq<byte>, s: Frame): (offset: nat)
    ensures offset <= |f|
  {
    if s.start + s.len >= |f| then 0 else s.start + s.len
  }

  function Step(f: seq<byte>, s: Frame): Frame {
    ReadOne(f, Offset(f, s), s)
  }

  function Stepper(f: seq<byte>): Frame -> Frame {
    s => Step(f, s)
  }

  const INITIAL := Frame(0, 0, false)

  // The n-th frame handed to the ring buffers, counting from 1.
  function Run(f: seq<byte>, n: nat): Frame {
    Iterate(Stepper(f), INITIAL, n)
  }

  // ---- the split ----

  /** Distinct boundaries are at least five bytes apart. */
  lemma BoundariesApart(f: seq<byte>, p: nat, q: nat)
    requires IsBoundary(f, p) && IsBoundary(f, q) && p < q
    ensures p + 5 <= q
  {
  }

  lemma NextIs(f: seq<byte>, p: nat, q: nat)
    requires p <= q <= |f| && (q < |f| ==> IsBoundary(f, q))
    requires forall k :: p <= k < q ==> !IsBoundary(f, k)
    ensures Next(f, p) == q
  {}

  predicate NoBoundary(f: seq<byte>, lo: nat, hi: nat) {
    forall k :: lo <= k < hi ==> !IsBoundary(f, k)
  }

  // A scan from `offset` that has come to `at` found its first boundary at p, and no second one.
  predicate Begun(f: seq<byte>, offset: nat, p: nat, key: bool, at: nat) {
    && offset <= p < at && NoBoundary(f, offset, p)
    && IsBoundary(f, p) && key == IsKey(f, p)
    && NoBoundary(f, p + 1, at)
  }

  // The two ways a scan over enough bytes can end.
  lemma FoundFrame(f: seq<byte>, offset: nat, p: nat, key: bool, q: nat, s: Frame)
    requires q <= |f| && Begun(f, offset, p, key, q) && (q < |f| ==> IsBoundary(f, q)) && |f| - offset > 5
    ensures ReadOne(f, offset, s) == Frame(p, if q < |f| then q - p else |f| - offset, key)
  {
    NextIs(f, offset, p);
    NextIs(f, p + 1, q);
  }

  lemma FoundNone(f: seq<byte>, offset: nat, s: Frame)
    requires |f| - offset > 5 && NoBoundary(f, offset, |f|)
    ensures ReadOne(f, offset, s) == s.(len := |f| - offset)
  {
    NextIs(f, offset, |f|);
  }

  // The first frame of the split, and the rest.
  lemma CutUnfolds(f: seq<byte>, from: nat)
    requires from <= |f|
    ensures var p := Next(f, from);
            Cut(f, from) == if p == |f| then [] else [FrameAt(f, p)] + Cut(f, p + 1)
  {}

  // Frame i is the one at its boundary, and the scan from behind that finds the start of the next.
  predicate Linked(f: seq<byte>, frames: seq<Frame>, i: nat)
    requires i < |frames|
  {
    var p := frames[i].start;
    IsBoundary(f, p) && frames[i] == FrameAt(f, p) &&
    Next(f, p + 1) == if i + 1 < |frames| then frames[i + 1].start else |f|
  }

  ghost predicate Chained(f: seq<byte>, frames: seq<Frame>, from: nat) {
    forall i :: 0 <= i < |frames| ==> Linked(f, frames, i) && from <= frames[i].start
  }

  lemma LinkShift(f: seq<byte>, frames: seq<Frame>, rest: seq<Frame>, i: nat)
    requires 0 < i < |frames| == |rest| + 1 && Linked(f, rest, i - 1)
    requires frames[i] == rest[i - 1] && (i + 1 < |frames| ==> frames[i + 1] == rest[i])
    ensures Linked(f, frames, i)
  {}

  lemma ChainGrows(f: seq<byte>, frames: seq<Frame>, first: Frame, rest: seq<Frame>, from: nat, next: nat)
    requires Chained(f, rest, next) && frames == [first] + rest
    requires from <= first.start && from <= next && Linked(f, frames, 0)
    ensures Chained(f, frames, from)
  {
    forall i | 0 <= i < |frames|
      ensures Linked(f, frames, i) && from <= frames[i].start
    {
      if i > 0 {
        assert Linked(f, rest, i - 1);
        LinkShift(f, frames, rest, i);
      }
    }
  }

  lemma CutFirst(f: seq<byte>, from: nat)
    requires from <= |f| && Cut(f, from) != []
    ensures Cut(f, from)[0].start == Next(f, from) && Linked(f, Cut(f, from), 0)
    ensures Cut(f, from) == [FrameAt(f, Next(f, from))] + Cut(f, Next(f, from) + 1)
  {
    CutUnfolds(f, from);
    CutUnfolds(f, Next(f, from) + 1);
  }

  lemma {:induction false} CutChained(f: seq<byte>, from: nat, frames: seq<Frame>)
    requires from <= |f| && frames == Cut(f, from)
    ensures Chained(f, frames, from)
    decreases |frames|
  {
    if frames != [] {
      CutFirst(f, from);
      var next := Next(f, from) + 1;
      CutChained(f, next, Cut(f, next));
      ChainGrows(f, frames, frames[0], Cut(f, next), from, next);
    }
  }

  lemma CutLinks(f: seq<byte>, from: nat, i: nat)
    requires from <= |f| && i < |Cut(f, from)|
    ensures Linked(f, Cut(f, from), i) && from <= Cut(f, from)[i].start
    ensures Cut(f, from)[0].start == Next(f, from)
  {
    CutFirst(f, from);
    CutChained(f, from, Cut(f, from));
  }

  lemma FrameIsSane(f: seq<byte>, p: nat)
    requires IsBoundary(f, p)
    ensures var x := FrameAt(f, p);
            && x.len >= 5 && x.start + x.len == Next(f, p + 1)
            && forall k :: x.start < k < x.start + x.len ==> !IsBoundary(f, k)
  {
    var q := Next(f, p + 1);
    if q < |f| {
      BoundariesApart(f, p, q);
    }
  }

  lemma LinkedFrame(f: seq<byte>, frames: seq<Frame>, i: nat)
    requires i < |frames| && Linked(f, frames, i)
    ensures frames[i].len >= 5
    ensures forall k :: frames[i].start < k < frames[i].start + frames[i].len ==> !IsBoundary(f, k)
    ensures frames[i].key <==> f[frames[i].start + 4] in SPS_BYTES
    ensures frames[i].start + frames[i].len == if i + 1 < |frames| then frames[i + 1].start else |f|
  {
    FrameIsSane(f, frames[i].start);
    BoundaryIff(f, frames[i].start);
  }

  /** Each frame of the split starts at a boundary, contains no other, is at least five bytes long, stays
      inside the file, ends where the next one starts (the last one at the end of the file), and carries
      the key flag exactly when its first NAL unit is an SPS. */
  lemma CutFrames(f: seq<byte>, from: nat, i: nat)
    requires from <= |f| && i < |Cut(f, from)|
    ensures var c := Cut(f, from);
            && from <= c[i].start && IsBoundary(f, c[i].start)
            && c[i] == FrameAt(f, c[i].start)
            && c[i].len >= 5
            && (forall k :: c[i].start < k < c[i].start + c[i].len ==> !IsBoundary(f, k))
            && (c[i].key <==> f[c[i].start + 4] in SPS_BYTES)
            && c[i].start + c[i].len == if i + 1 < |c| then c[i + 1].start else |f|
    ensures Cut(f, from)[0].start == Next(f, from)
  {
    CutLinks(f, from, i);
    LinkedFrame(f, Cut(f, from), i);
  }

  /** Every boundary starts a frame of the split. */
  lemma {:induction false} CutMissesNone(f: seq<byte>, from: nat, p: nat)
    requires from <= p && IsBoundary(f, p)
    ensures exists i :: 0 <= i < |Cut(f, from)| && Cut(f, from)[i].start == p
    decreases |f| - from
  {
    var first := Next(f, from);
    if first == p {
      assert Cut(f, from)[0].start == p;
    } else {
      CutMissesNone(f, first + 1, p);
      var i :| 0 <= i < |Cut(f, first + 1)| && Cut(f, first + 1)[i].start == p;
      assert Cut(f, from)[i + 1].start == p;
    }
  }

  function SliceOf(f: seq<byte>, x: Frame): seq<byte> {
    if x.start + x.len <= |f| then f[x.start..x.start + x.len] else []
  }

  // Frames i, i + 1, ... glued together.
  function JoinFrom(f: seq<byte>, frames: seq<Frame>, i: nat): seq<byte>
    decreases |frames| - i
  {
    if i >= |frames| then [] else SliceOf(f, frames[i]) + JoinFrom(f, frames, i + 1)
  }

  function Join(f: seq<byte>, frames: seq<Frame>): seq<byte> {
    JoinFrom(f, frames, 0)
  }

  // Frame i ends where the next one starts, the last one at the end of the file.
  predicate EndsAtNext(f: seq<byte>, frames: seq<Frame>, i: nat)
    requires i < |frames|
  {
    frames[i].start + frames[i].len == if i + 1 < |frames| then frames[i + 1].start else |f|
  }

  ghost predicate Adjacent(f: seq<byte>, frames: seq<Frame>) {
    forall i :: 0 <= i < |frames| ==> EndsAtNext(f, frames, i)
  }

  lemma SplitsAt(f: seq<byte>, p: nat, q: nat)
    requires p <= q <= |f|
    ensures f[p..] == f[p..q] + f[q..]
  {}

  lemma {:induction false} JoinAdjacent(f: seq<byte>, frames: seq<Frame>, i: nat)
    requires i < |frames| && Adjacent(f, frames)
    ensures frames[i].start <= |f| && JoinFrom(f, frames, i) == f[frames[i].start..]
    decreases |frames| - i
  {
    assert EndsAtNext(f, frames, i);
    if i + 1 < |frames| {
      JoinAdjacent(f, frames, i + 1);
    }
    SplitsAt(f, frames[i].start, frames[i].start + frames[i].len);
  }

  /** The frames of one pass, glued together, are the file from its first boundary on. */
  lemma {:induction false} CutTiles(f: seq<byte>)
    requires Next(f, 0) < |f|
    ensures Adjacent(f, Cut(f, 0)) && Join(f, Cut(f, 0)) == f[Next(f, 0)..]
  {
    var c := Cut(f, 0);
    forall i | 0 <= i < |c|
      ensures EndsAtNext(f, c, i)
    {
      CutFrames(f, 0, i);
    }
    CutFrames(f, 0, 0);
    JoinAdjacent(f, c, 0);
  }

  // ---- whole runs ----

  // The driver sends exactly the split, over and over.
  ghost predicate RepeatsSplit(f: seq<byte>) {
    |Cut(f, 0)| > 0 && forall n: nat :: Run(f, n + 1) == Cut(f, 0)[n % |Cut(f, 0)|]
  }

  // Conditions on the file alone: there is a boundary, none occupies just the last five bytes, and
  // either the file opens with a boundary or a second one follows.
  predicate WellCut(f: seq<byte>) {
    && Next(f, 0) < |f|
    && !IsBoundary(f, |f| - 5)
    && (Next(f, 0) == 0 || Next(f, Next(f, 0) + 1) < |f|)
  }

  // One call on the right offset produces frame i, unless that frame is the last five bytes.
  lemma ReadProducesFrame(f: seq<byte>, i: nat, offset: nat, s: Frame)
    requires i < |Cut(f, 0)| && Cut(f, 0)[i].start != |f| - 5
    requires i == 0 ==> Next(f, 0) == 0 || Next(f, Next(f, 0) + 1) < |f|
    requires offset <= |f| && offset == if i == 0 then 0 else Cut(f, 0)[i].start
    ensures ReadOne(f, offset, s) == Cut(f, 0)[i]
  {
    var c := Cut(f, 0);
    CutFrames(f, 0, i);
    var p := c[i].start;
    NextIs(f, offset, p) by {
      if i == 0 {
        assert p == Next(f, 0);
      }
    }
  }

  // Where the call after frame i starts reading.
  lemma OffsetAfterFrame(f: seq<byte>, i: nat)
    requires i < |Cut(f, 0)|
    ensures Offset(f, Cut(f, 0)[i]) == if i + 1 < |Cut(f, 0)| then Cut(f, 0)[i + 1].start else 0
  {
    CutFrames(f, 0, i);
    if i + 1 < |Cut(f, 0)| {
      CutFrames(f, 0, i + 1);
    }
  }

  lemma StepProducesNext(f: seq<byte>, i: nat)
    requires WellCut(f) && i < |Cut(f, 0)|
    ensures Step(f, Cut(f, 0)[i]) == Cut(f, 0)[if i + 1 < |Cut(f, 0)| then i + 1 else 0]
  {
    OffsetAfterFrame(f, i);
    var s := Cut(f, 0)[i];
    var next := if i + 1 < |Cut(f, 0)| then i + 1 else 0;
    CutFrames(f, 0, next);
    ReadProducesFrame(f, next, Offset(f, s), s);
  }

  lemma StepFromInitial(f: seq<byte>)
    requires WellCut(f)
    ensures |Cut(f, 0)| > 0 && Step(f, INITIAL) == Cut(f, 0)[0]
  {
    CutFrames(f, 0, 0);
    ReadProducesFrame(f, 0, 0, INITIAL);
  }

  lemma RunFollowsSplit(f: seq<byte>, n: nat)
    requires WellCut(f)
    ensures |Cut(f, 0)| > 0 && Run(f, n + 1) == Cut(f, 0)[n % |Cut(f, 0)|]
  {
    var c := Cut(f, 0);
    StepFromInitial(f);
    forall i | 0 <= i < |c|
      ensures Stepper(f)(c[i]) == c[Wrap(i, |c|)]
    {
      StepProducesNext(f, i);
    }
    WalksCycle(Stepper(f), INITIAL, c, n);
  }

  // With five bytes left the splitter refuses, and the driver keeps its variables.
  lemma StepStuck(f: seq<byte>, s: Frame)
    requires |f| >= 5 && s.start + s.len == |f| - 5
    ensures Step(f, s) == s
  {}

  lemma RunNext(f: seq<byte>, n: nat)
    ensures Run(f, n + 1) == Step(f, Run(f, n))
  {}

  // Until the last frame is due, the run follows the split, whatever the file.
  lemma {:induction false} PrefixFollowsSplit(f: seq<byte>, n: nat)
    requires n + 1 < |Cut(f, 0)|
    ensures Run(f, n + 1) == Cut(f, 0)[n]
    decreases n
  {
    RunNext(f, n);
    if n > 0 {
      PrefixFollowsSplit(f, n - 1);
    }
    PrefixStep(f, n);
  }

  lemma PrefixStep(f: seq<byte>, n: nat)
    requires n + 1 < |Cut(f, 0)|
    ensures Step(f, if n == 0 then INITIAL else Cut(f, 0)[n - 1]) == Cut(f, 0)[n]
  {
    CutFrames(f, 0, n);
    CutFrames(f, 0, n + 1);
    if n == 0 {
      CutLinks(f, 0, 0);
      ReadProducesFrame(f, 0, 0, INITIAL);
    } else {
      OffsetAfterFrame(f, n - 1);
      ReadProducesFrame(f, n, Offset(f, Cut(f, 0)[n - 1]), Cut(f, 0)[n - 1]);
    }
  }

  // The frame on which a run over a file that is not well cut comes to rest.
  function RestingFrame(f: seq<byte>): Frame {
    var c := Cut(f, 0);
    if |c| >= 2 then c[|c| - 2]
    else if |f| <= 5 then INITIAL
    else if c == [] then Frame(0, |f|, false)
    else Frame(c[0].start, |f|, c[0].key)
  }

  lemma LastFrame(f: seq<byte>)
    requires IsBoundary(f, |f| - 5)
    ensures var c := Cut(f, 0); |c| > 0 && c[|c| - 1].start == |f| - 5
  {
    var c := Cut(f, 0);
    CutMissesNone(f, 0, |f| - 5);
    var i :| 0 <= i < |c| && c[i].start == |f| - 5;
    CutFrames(f, 0, i);
    if i + 1 < |c| {
      CutFrames(f, 0, i + 1);
    }
  }

  // With two boundaries or more, only one in the last five bytes spoils the split.
  lemma LateBoundary(f: seq<byte>)
    requires !WellCut(f) && |Cut(f, 0)| >= 2
    ensures IsBoundary(f, |f| - 5)
  {
    CutLinks(f, 0, 1);
    CutLinks(f, 0, 0);
  }

  lemma RestEndsEarly(f: seq<byte>)
    requires IsBoundary(f, |f| - 5) && |Cut(f, 0)| >= 2
    ensures RestingFrame(f).start + RestingFrame(f).len == |f| - 5
  {
    LastFrame(f);
    CutFrames(f, 0, |Cut(f, 0)| - 2);
  }

  // With fewer, the first call already yields the resting frame, and so does every other.
  lemma FewBoundaries(f: seq<byte>)
    requires |Cut(f, 0)| < 2
    ensures Step(f, INITIAL) == RestingFrame(f) && Step(f, RestingFrame(f)) == RestingFrame(f)
  {
    CutUnfolds(f, 0);
    if Cut(f, 0) != [] {
      CutLinks(f, 0, 0);
    }
  }

  lemma StuckFromStart(f: seq<byte>, n: nat)
    requires |Cut(f, 0)| < 2
    ensures Run(f, n + 1) == RestingFrame(f)
  {
    FewBoundaries(f);
    StaysAtRest(Stepper(f), INITIAL, RestingFrame(f), 1, n + 1);
  }

  lemma ComesToRest(f: seq<byte>)
    requires !WellCut(f) && |Cut(f, 0)| >= 2
    ensures Run(f, |Cut(f, 0)| - 1) == RestingFrame(f) && Step(f, RestingFrame(f)) == RestingFrame(f)
  {
    PrefixFollowsSplit(f, |Cut(f, 0)| - 2);
    LateBoundary(f);
    RestEndsEarly(f);
    StepStuck(f, RestingFrame(f));
  }

  lemma StuckAfterPrefix(f: seq<byte>, n: nat)
    requires !WellCut(f) && 2 <= |Cut(f, 0)| <= n + 2
    ensures Run(f, n + 1) == RestingFrame(f)
  {
    ComesToRest(f);
    StaysAtRest(Stepper(f), INITIAL, RestingFrame(f), |Cut(f, 0)| - 1, n + 1);
  }

  /** Every file that is not well cut: the run follows the split up to the last frame but one, if there are as many,
      and then hands out the resting frame forever; it neither finishes the pass nor wraps. */
  lemma GetsStuck(f: seq<byte>, n: nat)
    requires !WellCut(f)
    ensures Run(f, n + 1) == if n + 2 < |Cut(f, 0)| then Cut(f, 0)[n] else RestingFrame(f)
  {
    if |Cut(f, 0)| < 2 {
      StuckFromStart(f, n);
    } else if n + 2 < |Cut(f, 0)| {
      PrefixFollowsSplit(f, n);
    } else {
      StuckAfterPrefix(f, n);
    }
  }

  /** Files with fewer than two boundaries, in full: up to five bytes nothing is ever set; without a boundary the whole
      file is sent as one frame; a single boundary is sent with the length of the file. */
  lemma ShortRuns(f: seq<byte>, n: nat)
    ensures |f| <= 5 ==> Run(f, n) == Frame(0, 0, false)
    ensures |f| > 5 && NoBoundary(f, 0, |f|) ==> Run(f, n + 1) == Frame(0, |f|, false)
    ensures forall p: nat :: |f| > 5 && IsBoundary(f, p) && NoBoundary(f, 0, p) && NoBoundary(f, p + 1, |f|) ==>
              Run(f, n + 1) == Frame(p, |f|, f[p + 4] in SPS_BYTES)
  {
    if |f| <= 5 {
      TinyFile(f, n);
    } else {
      if NoBoundary(f, 0, |f|) {
        NextIs(f, 0, |f|);
        CutUnfolds(f, 0);
        StuckFromStart(f, n);
      }
      forall p: nat | IsBoundary(f, p) && NoBoundary(f, 0, p) && NoBoundary(f, p + 1, |f|)
        ensures Run(f, n + 1) == Frame(p, |f|, f[p + 4] in SPS_BYTES)
      {
        NextIs(f, 0, p);
        NextIs(f, p + 1, |f|);
        CutUnfolds(f, 0);
        CutUnfolds(f, p + 1);
        StuckFromStart(f, n);
        BoundaryIff(f, p);
      }
    }
  }

  lemma {:induction false} TinyFile(f: seq<byte>, n: nat)
    requires |f| <= 5
    ensures Run(f, n) == Frame(0, 0, false)
  {
    if n > 0 {
      TinyFile(f, n - 1);
      RunNext(f, n - 1);
    }
  }

  /** The whole run over any file: cyclic if the file is well cut, eventually constant otherwise. */
  lemma EveryRun(f: seq<byte>, n: nat)
    ensures WellCut(f) ==> |Cut(f, 0)| > 0
    ensures Run(f, n + 1) ==
            if WellCut(f) then Cut(f, 0)[n % |Cut(f, 0)|]
            else if n + 2 < |Cut(f, 0)| then Cut(f, 0)[n] else RestingFrame(f)
  {
    if WellCut(f) {
      RunFollowsSplit(f, n);
    } else {
      GetsStuck(f, n);
    }
  }

  // A single boundary, not at the start of the file.
  predicate OneLateBoundary(f: seq<byte>) {
    0 < Next(f, 0) < |f| && Next(f, Next(f, 0) + 1) == |f|
  }

  predicate InFile(f: seq<byte>, x: Frame) {
    x.start + x.len <= |f|
  }

  lemma TwoInFile(f: seq<byte>)
    requires |Cut(f, 0)| >= 2
    ensures InFile(f, Cut(f, 0)[|Cut(f, 0)| - 2]) && !OneLateBoundary(f)
  {
    CutLinks(f, 0, 0);
    CutLinks(f, 0, 1);
    EveryFrameInFile(f);
  }

  lemma FewInFile(f: seq<byte>)
    requires |Cut(f, 0)| < 2
    ensures InFile(f, RestingFrame(f)) <==> !OneLateBoundary(f)
  {
    CutUnfolds(f, 0);
    if Cut(f, 0) != [] {
      CutLinks(f, 0, 0);
    }
  }

  lemma RestingInFile(f: seq<byte>)
    ensures InFile(f, RestingFrame(f)) <==> !OneLateBoundary(f)
  {
    if |Cut(f, 0)| >= 2 {
      TwoInFile(f);
    } else {
      FewInFile(f);
    }
  }

  /** Memory: every frame of the endless run lies inside the file's buffer, except for a file whose only boundary is
      not at its start: there the scan's length counts from the start of the file, not from the frame. */
  lemma StaysInFileIff(f: seq<byte>)
    ensures (forall n: nat :: InFile(f, Run(f, n))) <==> !OneLateBoundary(f)
  {
    RestingInFile(f);
    if OneLateBoundary(f) {
      CutUnfolds(f, 0);
      CutUnfolds(f, Next(f, 0) + 1);
      FewBoundaries(f);
      RunNext(f, 0);
      assert !InFile(f, Run(f, 0 + 1));
    } else {
      forall n: nat
        ensures InFile(f, Run(f, n))
      {
        if n > 0 {
          EveryRun(f, n - 1);
          EveryFrameInFile(f);
        }
      }
    }
  }

  lemma EveryFrameInFile(f: seq<byte>)
    ensures forall i :: 0 <= i < |Cut(f, 0)| ==> InFile(f, Cut(f, 0)[i])
  {
    forall i | 0 <= i < |Cut(f, 0)|
      ensures InFile(f, Cut(f, 0)[i])
    {
      CutFrames(f, 0, i);
    }
  }

  lemma SmallModulo(i: nat, m: nat)
    requires i < m
    ensures i % m == i
  {}

  // The resting frame is not the one whose turn it is.
  lemma RestIsWrong(f: seq<byte>)
    requires !WellCut(f) && Cut(f, 0) != []
    ensures RestingFrame(f) != Cut(f, 0)[|Cut(f, 0)| - 1]
  {
    var m := |Cut(f, 0)| - 1;
    CutFrames(f, 0, m);
    if m > 0 {
      CutFrames(f, 0, m - 1);
    } else {
      CutLinks(f, 0, 0);
    }
  }

  /** For every file: the driver sends the declarative split cyclically, forever, exactly when the file is well cut. */
  lemma RepeatsSplitIff(f: seq<byte>)
    ensures RepeatsSplit(f) <==> WellCut(f)
  {
    var c := Cut(f, 0);
    if WellCut(f) {
      forall n: nat
        ensures |c| > 0 && Run(f, n + 1) == c[n % |c|]
      {
        RunFollowsSplit(f, n);
      }
      RunFollowsSplit(f, 0);
    } else if c != [] {
      var m := |c| - 1;
      GetsStuck(f, m);
      RestIsWrong(f);
      SmallModulo(m, |c|);
      assert Run(f, m + 1) != c[m % |c|];
    }
  }

  /** Tiling, for every file: each pass is the split and concatenates to the whole file, after which the run
      repeats, exactly when the file opens with a boundary and has more than five bytes from its last one. */
  lemma TilesIff(f: seq<byte>)
    ensures RepeatsSplit(f) && Join(f, Cut(f, 0)) == f <==> IsBoundary(f, 0) && !IsBoundary(f, |f| - 5)
  {
    RepeatsSplitIff(f);
    if Next(f, 0) < |f| {
      CutTiles(f);
      assert Next(f, 0) == 0 ==> f[0..] == f;
    }
  }

  lemma FirstPass(f: seq<byte>, frames: seq<Frame>)
    requires IsBoundary(f, 0) && !IsBoundary(f, |f| - 5) && |frames| >= |Cut(f, 0)|
    requires forall i :: 0 <= i < |frames| ==> frames[i] == Run(f, i + 1)
    ensures frames[..|Cut(f, 0)|] == Cut(f, 0)
  {
    forall i | 0 <= i < |Cut(f, 0)|
      ensures frames[i] == Cut(f, 0)[i]
    {
      RunFollowsSplit(f, i);
      SmallModulo(i, |Cut(f, 0)|);
    }
  }

  // ---- the code ----

  class Driver {
    const file: seq<byte>
    var frameStart: nat
    var frameLen: nat
    var isKeyFrame: bool

    function Current(): Frame
      reads this
    {
      Frame(frameStart, frameLen, isKeyFrame)
    }

    constructor (file: seq<byte>)
      ensures this.file == file && Current() == Run(file, 0)
    {
      this.file := file;
      frameStart, frameLen, isKeyFrame := 0, 0, false;
    }

    // read_one_frame_from_demo_video_file; the three fields are its out-pointers.
    method ReadOneFrame(offset: nat)
      requires offset <= |file|
      modifies this
      ensures Current() == ReadOne(file, offset, old(Current()))
    {
      var bufSize := |file| - offset;
      if bufSize <= 5 {
        return;
      }
      var needCal, idx := false, 0;
      var pos := 0;
      while pos <= bufSize - 5
        invariant 0 <= pos <= bufSize - 4
        invariant !needCal ==> Current() == old(Current()) && NoBoundary(file, offset, offset + pos)
        invariant needCal ==>
                    0 <= idx && frameStart == offset + idx && Begun(file, offset, frameStart, isKeyFrame, offset + pos)
        invariant frameLen == old(frameLen)
      {
        var at := offset + pos;
        if file[at] == 0 && file[at + 1] == 0 && file[at + 2] == 0 && file[at + 3] == 1 {
          var nalType := NalType(file[at + 4]);
          if nalType == SPS {
            if needCal {
              frameLen := pos - idx;
              FoundFrame(file, offset, frameStart, isKeyFrame, at, old(Current()));
              return;
            }
            isKeyFrame, frameStart := true, at;
            needCal, idx := true, pos;
          } else if nalType == NON_IDR_SLICE {
            if needCal {
              frameLen := pos - idx;
              FoundFrame(file, offset, frameStart, isKeyFrame, at, old(Current()));
              return;
            }
            isKeyFrame, frameStart := false, at;
            needCal, idx := true, pos;
          }
        }
        assert IsBoundary(file, at) ==> needCal && frameStart == at;
        pos := pos + 1;
      }
      if needCal {
        FoundFrame(file, offset, frameStart, isKeyFrame, |file|, old(Current()));
      } else {
        FoundNone(file, offset, old(Current()));
      }
      frameLen := bufSize;
    }

    // One turn of the loop in thread_live_video: the frame put into the ring buffers.
    method SendNext() returns (frame: Frame)
      modifies this
      ensures frame == Current() == Step(file, old(Current()))
    {
      var offset := frameStart + frameLen;
      if offset >= |file| {
        offset := 0;
      }
      ReadOneFrame(offset);
      frame := Current();
    }

    // The first n turns of the endless loop.
    method SendMany(n: nat) returns (frames: seq<Frame>)
      requires Current() == Run(file, 0)
      modifies this
      ensures |frames| == n
      ensures forall i :: 0 <= i < n ==> frames[i] == Run(file, i + 1)
      ensures IsBoundary(file, 0) && !IsBoundary(file, |file| - 5) && n >= |Cut(file, 0)| ==>
                frames[..|Cut(file, 0)|] == Cut(file, 0)
    {
      frames := [];
      for i := 0 to n
        invariant |frames| == i && Current() == Run(file, i)
        invariant forall k :: 0 <= k < i ==> frames[k] == Run(file, k + 1)
      {
        var frame := SendNext();
        frames := frames + [frame];
      }
      if IsBoundary(file, 0) && !IsBoundary(file, |file| - 5) && n >= |Cut(file, 0)| {
        FirstPass(file, frames);
      }
    }
  }
}
