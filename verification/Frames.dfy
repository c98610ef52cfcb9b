/** The envelope shared by all raw data-point frames: a one-byte length and a modular checksum. */
module Frames {
  import opened Bytes

  // Offsets at which the counted part starts after the 0xAA and the 0xAB headers.
  const AA_BODY := 3
  const AB_BODY := 6

  // Sum of f[lo..hi].
  function Total(f: seq<byte>, lo: nat, hi: nat): nat
    requires hi <= |f|
  {
    if hi <= lo then 0 else Total(f, lo, hi - 1) + f[hi - 1]
  }

  /** The total is the sum of the bytes: of one byte that byte, of two stretches the two sums. */
  lemma {:induction false} TotalIsSum(f: seq<byte>, lo: nat, mid: nat, hi: nat)
    requires lo <= mid <= hi <= |f|
    ensures Total(f, lo, hi) == Total(f, lo, mid) + Total(f, mid, hi)
    ensures hi == lo + 1 ==> Total(f, lo, hi) == f[lo]
    decreases hi
  {
    if mid < hi {
      TotalIsSum(f, lo, mid, hi - 1);
    }
  }

  // The closing lines of every report: patch the length byte, append the checksum.
  function Seal(body: nat, raw: seq<byte>): (frame: seq<byte>)
    requires 1 <= body <= |raw|
    ensures |frame| == |raw| + 1
  {
    raw[body - 1 := ToByte(|raw| - body)] + [ToByte(Total(raw, body, |raw|))]
  }

  // The law a receiver can check without knowing what the frame carries.
  ghost predicate FrameLaw(body: nat, f: seq<byte>)
    requires body >= 1
  {
    && body < |f|
    && (f[body - 1] - (|f| - 1 - body)) % 0x100 == 0
    && (f[|f| - 1] - Total(f, body, |f| - 1)) % 0x100 == 0
  }

  lemma {:induction false} SameTotal(f: seq<byte>, g: seq<byte>, lo: nat, hi: nat)
    requires hi <= |f| && hi <= |g|
    requires forall k :: lo <= k < hi ==> f[k] == g[k]
    ensures Total(f, lo, hi) == Total(g, lo, hi)
    decreases hi
  {
    if lo < hi {
      SameTotal(f, g, lo, hi - 1);
    }
  }

  // In C++: raw[body - 1] = raw.size() - body; sum over raw from body; raw.push_back(sum).
  method SealFrame(body: nat, raw: seq<byte>) returns (frame: seq<byte>)
    requires 1 <= body <= |raw|
    ensures frame == Seal(body, raw)
  {
    frame := raw[body - 1 := ToByte(|raw| - body)];
    var sum: byte := 0;
    for i := body to |frame|
      invariant sum == ToByte(Total(frame, body, i))
    {
      sum := ToByte(sum + frame[i]);
    }
    SameTotal(raw, frame, body, |raw|);
    frame := frame + [sum];
  }

  lemma SealObeys(body: nat, raw: seq<byte>)
    requires 1 <= body <= |raw|
    ensures FrameLaw(body, Seal(body, raw))
    ensures forall k :: 0 <= k < |raw| && k != body - 1 ==> Seal(body, raw)[k] == raw[k]
  {
    SameTotal(raw, Seal(body, raw), body, |raw|);
  }

  // The frame f carries the raw bytes, save for the length byte, and one byte more.
  ghost predicate Carries(body: nat, raw: seq<byte>, f: seq<byte>)
    requires 1 <= body <= |raw|
  {
    |f| == |raw| + 1 && forall k :: 0 <= k < |raw| && k != body - 1 ==> f[k] == raw[k]
  }

  lemma LawForcesSeal(body: nat, raw: seq<byte>, f: seq<byte>)
    requires 1 <= body <= |raw| && Carries(body, raw, f) && FrameLaw(body, f)
    ensures f == Seal(body, raw)
  {
    var s := Seal(body, raw);
    SameTotal(raw, f, body, |raw|);
    assert f[body - 1] == s[body - 1];
    assert f[|raw|] == s[|raw|];
  }

  /** A sealed frame obeys the law, changes nothing else, and is the only frame that does both. */
  lemma SealIsTheLaw(body: nat, raw: seq<byte>, f: seq<byte>)
    requires 1 <= body <= |raw|
    ensures f == Seal(body, raw) <==> Carries(body, raw, f) && FrameLaw(body, f)
  {
    SealObeys(body, raw);
    if Carries(body, raw, f) && FrameLaw(body, f) {
      LawForcesSeal(body, raw, f);
    }
  }

  // Where the pieces of the raw bytes sit in the sealed frame.
  lemma SealKeeps(body: nat, head: seq<byte>, rest: seq<byte>)
    requires 1 <= body <= |head|
    ensures var frame := Seal(body, head + rest);
            && |frame| == |head| + |rest| + 1
            && At(frame, |head|, rest)
            && forall k :: body <= k < |head| ==> frame[k] == head[k]
  {
    var raw := head + rest;
    assert Seal(body, raw)[|head|..|raw|] == raw[|head|..] == rest;
  }

  // A frame that carries a request's own bytes from its fifth on.
  lemma EchoedBody(cmd: byte, data: seq<byte>, start: nat, body: seq<byte>)
    requires 4 <= start && At(data, start, body)
    ensures Seal(AA_BODY, [0xAA, 0, 0, cmd] + data[4..start] + body) ==
            Seal(AA_BODY, [0xAA, 0, 0, cmd] + data[4..start + |body|])
  {
    assert data[4..start + |body|] == data[4..start] + body;
    Associative([0xAA, 0, 0, cmd], data[4..start], body);
  }

  /** The length byte is the true length exactly when the counted part fits in one byte. */
  lemma LengthExact(body: nat, raw: seq<byte>)
    requires 1 <= body <= |raw|
    ensures Seal(body, raw)[body - 1] == |raw| - body <==> |raw| - body <= 0xFF
  {}

  lemma {:induction false} TotalUpdate(s: seq<byte>, lo: nat, hi: nat, k: nat, b: byte)
    requires lo <= k < hi <= |s|
    ensures Total(s[k := b], lo, hi) == Total(s, lo, hi) - s[k] + b
    decreases hi
  {
    if k == hi - 1 {
      SameTotal(s[k := b], s, lo, k);
    } else {
      TotalUpdate(s, lo, hi - 1, k, b);
    }
  }

  /** No single wrong byte in the counted part or the checksum goes unnoticed. */
  lemma DetectsOneByte(body: nat, f: seq<byte>, k: nat, b: byte)
    requires 1 <= body <= k < |f|
    requires FrameLaw(body, f) && b != f[k]
    ensures !FrameLaw(body, f[k := b])
  {
    var n := |f| - 1;
    if k < n {
      TotalUpdate(f, body, n, k, b);
    } else {
      SameTotal(f, f[k := b], body, n);
    }
  }
}
