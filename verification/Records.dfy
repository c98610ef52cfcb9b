/** Count-prefixed lists of records: one encoder and one cursor parser, for any kind of record. */
module Records {
  import opened Bytes

  // Outcome of parsing at a cursor. Overrun: the source would read past the end of the request buffer.
  datatype Read<+T> = Overrun | Read(value: T, next: nat)

  datatype Option<+T> = None | Some(value: T)

  // What a request handler does. Undefined: the source would index outside a buffer or vector.
  datatype Outcome = Undefined | Silent | Answered(frame: seq<byte>)

  type Encoder<!T> = T -> seq<byte>
  type Decoder<!T> = (seq<byte>, nat) -> Read<T>

  function EncodeAll<T>(enc: Encoder<T>, ts: seq<T>): seq<byte> {
    if ts == [] then [] else enc(ts[0]) + EncodeAll(enc, ts[1..])
  }

  function DecodeN<T>(dec: Decoder<T>, data: seq<byte>, pos: nat, n: nat): Read<seq<T>>
    decreases n
  {
    if n == 0 then Read([], pos) else
    match dec(data, pos)
    case Overrun => Overrun
    case Read(t, next) =>
      match DecodeN(dec, data, next, n - 1)
      case Overrun => Overrun
      case Read(ts, end) => Read([t] + ts, end)
  }

  // One turn of a printing loop.
  lemma EncodeNext<T>(enc: Encoder<T>, ts: seq<T>, i: nat, raw: seq<byte>, record: seq<byte>)
    requires i < |ts| && record == enc(ts[i])
    ensures raw + EncodeAll(enc, ts[i..]) == raw + record + EncodeAll(enc, ts[i + 1..])
  {
    assert ts[i..][1..] == ts[i + 1..];
    assert raw + (record + EncodeAll(enc, ts[i + 1..])) == raw + record + EncodeAll(enc, ts[i + 1..]);
  }

  // Invariant of a parsing loop: `whole` is what has been read followed by what `rest` will yield.
  ghost predicate Continues<T>(whole: Read<seq<T>>, done: seq<T>, rest: Read<seq<T>>) {
    if rest.Overrun? then whole.Overrun?
    else whole.Read? && whole.value == done + rest.value && whole.next == rest.next
  }

  lemma ContinuesNone<T>(r: Read<seq<T>>)
    ensures Continues(r, [], r)
  {}

  // One turn of a parsing loop.
  lemma ContinuesNext<T>(whole: Read<seq<T>>, dec: Decoder<T>, data: seq<byte>, pos: nat, n: nat, done: seq<T>)
    requires n > 0 && Continues(whole, done, DecodeN(dec, data, pos, n))
    ensures dec(data, pos).Overrun? ==> whole.Overrun?
    ensures dec(data, pos).Read? ==>
              Continues(whole, done + [dec(data, pos).value], DecodeN(dec, data, dec(data, pos).next, n - 1))
  {
    var t := dec(data, pos);
    if t.Read? {
      var rest := DecodeN(dec, data, t.next, n - 1);
      assert rest.Read? ==> done + ([t.value] + rest.value) == done + [t.value] + rest.value;
    }
  }

  lemma ContinuesEnd<T>(whole: Read<seq<T>>, dec: Decoder<T>, data: seq<byte>, pos: nat, done: seq<T>)
    requires Continues(whole, done, DecodeN(dec, data, pos, 0))
    ensures whole == Read(done, pos)
  {
    assert done + [] == done;
  }

  function MapAll<T>(f: T -> T, ts: seq<T>): (r: seq<T>)
    ensures |r| == |ts|
    ensures forall i :: 0 <= i < |ts| ==> r[i] == f(ts[i])
  {
    seq(|ts|, i requires 0 <= i < |ts| => f(ts[i]))
  }

  lemma MapAllStep<T>(f: T -> T, ts: seq<T>)
    requires ts != []
    ensures MapAll(f, ts) == [f(ts[0])] + MapAll(f, ts[1..])
  {}

  // Parsing an encoded valid record yields its normal form and stops right after it.
  predicate InvertsAt<T(==)>(
      enc: Encoder<T>, dec: Decoder<T>, valid: T -> bool, norm: T -> T, data: seq<byte>, pos: nat, t: T)
  {
    valid(t) && At(data, pos, enc(t)) ==> dec(data, pos) == Read(norm(t), pos + |enc(t)|)
  }

  ghost predicate Inverts<T(!new)>(enc: Encoder<T>, dec: Decoder<T>, valid: T -> bool, norm: T -> T) {
    forall data: seq<byte>, pos: nat, t: T {:trigger dec(data, pos), enc(t)} ::
      InvertsAt(enc, dec, valid, norm, data, pos, t)
  }

  // Whatever parses is, byte for byte, the encoding of the result.
  ghost predicate Reproduces<T(!new)>(enc: Encoder<T>, dec: Decoder<T>) {
    forall data: seq<byte>, pos: nat {:trigger dec(data, pos)} ::
      dec(data, pos).Read? ==>
        var r := dec(data, pos); r.next == pos + |enc(r.value)| && At(data, pos, enc(r.value))
  }

  lemma HeadAndTail<T>(enc: Encoder<T>, data: seq<byte>, pos: nat, ts: seq<T>)
    requires ts != [] && At(data, pos, EncodeAll(enc, ts))
    ensures At(data, pos, enc(ts[0])) && At(data, pos + |enc(ts[0])|, EncodeAll(enc, ts[1..]))
    ensures |EncodeAll(enc, ts)| == |enc(ts[0])| + |EncodeAll(enc, ts[1..])|
  {
    AtConcat(data, pos, enc(ts[0]), EncodeAll(enc, ts[1..]));
  }

  lemma DecodeStep<T>(
      dec: Decoder<T>, data: seq<byte>, pos: nat, n: nat, first: T, next: nat, m: nat, rest: seq<T>, end: nat)
    requires n == m + 1 && dec(data, pos) == Read(first, next) && DecodeN(dec, data, next, m) == Read(rest, end)
    ensures DecodeN(dec, data, pos, n) == Read([first] + rest, end)
  {}

  lemma DecodeOne<T(!new)>(
      enc: Encoder<T>, dec: Decoder<T>, valid: T -> bool, norm: T -> T, data: seq<byte>, pos: nat, t: T)
    requires Inverts(enc, dec, valid, norm) && valid(t) && At(data, pos, enc(t))
    ensures dec(data, pos) == Read(norm(t), pos + |enc(t)|)
  {}

  /** Lists inherit the inverse property of their records, for every length. */
  lemma {:induction false} DecodeEncoded<T(!new)>(
      enc: Encoder<T>, dec: Decoder<T>, valid: T -> bool, norm: T -> T, data: seq<byte>, pos: nat, ts: seq<T>)
    requires Inverts(enc, dec, valid, norm)
    requires forall t :: t in ts ==> valid(t)
    requires At(data, pos, EncodeAll(enc, ts))
    ensures DecodeN(dec, data, pos, |ts|) == Read(MapAll(norm, ts), pos + |EncodeAll(enc, ts)|)
    decreases |ts|
  {
    if ts != [] {
      HeadAndTail(enc, data, pos, ts);
      var next, end := pos + |enc(ts[0])|, pos + |EncodeAll(enc, ts)|;
      assert ts[0] in ts;
      DecodeOne(enc, dec, valid, norm, data, pos, ts[0]);
      DecodeEncoded(enc, dec, valid, norm, data, next, ts[1..]);
      DecodeStep(dec, data, pos, |ts|, norm(ts[0]), next, |ts[1..]|, MapAll(norm, ts[1..]), end);
      MapAllStep(norm, ts);
    } else {
      assert MapAll(norm, ts) == [];
    }
  }

  // Parsing for more records than there are ends where nothing can be read.
  lemma {:induction false} DecodeBeyond<T>(dec: Decoder<T>, data: seq<byte>, pos: nat, m: nat, n: nat, end: nat)
    requires m < n && DecodeN(dec, data, pos, m).Read? && DecodeN(dec, data, pos, m).next == end
    requires dec(data, end).Overrun?
    ensures DecodeN(dec, data, pos, n).Overrun?
    decreases m
  {
    if m > 0 {
      DecodeBeyond(dec, data, dec(data, pos).next, m - 1, n - 1, end);
    }
  }

  function ReadAs<T>(value: Option<T>, next: nat): Read<T> {
    match value
    case None => Overrun
    case Some(t) => Read(t, next)
  }

  function Prepend<T>(first: Option<T>, rest: Option<seq<T>>): Option<seq<T>> {
    if first.None? || rest.None? then None else Some([first.value] + rest.value)
  }

  // Parsing an encoded valid record may also depend on all the bytes behind it.
  predicate InvertsBeforeAt<T(==)>(
      enc: Encoder<T>, dec: Decoder<T>, valid: T -> bool, recv: (T, seq<byte>) -> Option<T>, data: seq<byte>, pos: nat,
      t: T)
  {
    valid(t) && At(data, pos, enc(t)) ==> dec(data, pos) == ReadAs(recv(t, data[pos + |enc(t)|..]), pos + |enc(t)|)
  }

  ghost predicate InvertsBefore<T(!new)>(
      enc: Encoder<T>, dec: Decoder<T>, valid: T -> bool, recv: (T, seq<byte>) -> Option<T>)
  {
    forall data: seq<byte>, pos: nat, t: T {:trigger dec(data, pos), enc(t)} ::
      InvertsBeforeAt(enc, dec, valid, recv, data, pos, t)
  }

  // What stands behind record i of a printed list that `rest` follows.
  function Behind<T>(enc: Encoder<T>, ts: seq<T>, i: nat, rest: seq<byte>): seq<byte>
    requires i < |ts|
  {
    EncodeAll(enc, ts[i + 1..]) + rest
  }

  // What such a list yields, if it can be read at all.
  function ReceiveAll<T>(
      enc: Encoder<T>, recv: (T, seq<byte>) -> Option<T>, ts: seq<T>, rest: seq<byte>): Option<seq<T>>
  {
    if ts == [] then Some([]) else
    Prepend(recv(ts[0], Behind(enc, ts, 0, rest)), ReceiveAll(enc, recv, ts[1..], rest))
  }

  lemma BehindFirst<T>(enc: Encoder<T>, data: seq<byte>, next: nat, ts: seq<T>, end: nat)
    requires ts != [] && At(data, next, EncodeAll(enc, ts[1..])) && end == next + |EncodeAll(enc, ts[1..])|
    ensures data[next..] == Behind(enc, ts, 0, data[end..])
  {}

  lemma DecodeOneBefore<T(!new)>(
      enc: Encoder<T>, dec: Decoder<T>, valid: T -> bool, recv: (T, seq<byte>) -> Option<T>, data: seq<byte>, pos: nat,
      t: T)
    requires InvertsBefore(enc, dec, valid, recv) && valid(t) && At(data, pos, enc(t))
    ensures dec(data, pos) == ReadAs(recv(t, data[pos + |enc(t)|..]), pos + |enc(t)|)
  {}

  lemma DecodeStepBefore<T>(
      dec: Decoder<T>, data: seq<byte>, pos: nat, n: nat, first: Option<T>, next: nat, m: nat, rest: Option<seq<T>>,
      end: nat)
    requires n == m + 1 && dec(data, pos) == ReadAs(first, next) && DecodeN(dec, data, next, m) == ReadAs(rest, end)
    ensures DecodeN(dec, data, pos, n) == ReadAs(Prepend(first, rest), end)
  {}

  /** Lists of such records: each one is read as the bytes behind it in the printed list make it. */
  lemma {:induction false} DecodeEncodedBefore<T(!new)>(
      enc: Encoder<T>, dec: Decoder<T>, valid: T -> bool, recv: (T, seq<byte>) -> Option<T>, data: seq<byte>, pos: nat,
      ts: seq<T>, end: nat, behind: seq<byte>)
    requires InvertsBefore(enc, dec, valid, recv)
    requires forall t :: t in ts ==> valid(t)
    requires At(data, pos, EncodeAll(enc, ts)) && end == pos + |EncodeAll(enc, ts)| && behind == data[end..]
    ensures DecodeN(dec, data, pos, |ts|) == ReadAs(ReceiveAll(enc, recv, ts, behind), end)
    decreases |ts|
  {
    if ts != [] {
      HeadAndTail(enc, data, pos, ts);
      var next, rest := pos + |enc(ts[0])|, ts[1..];
      assert ts[0] in ts;
      BehindFirst(enc, data, next, ts, end);
      DecodeOneBefore(enc, dec, valid, recv, data, pos, ts[0]);
      DecodeEncodedBefore(enc, dec, valid, recv, data, next, rest, end, behind);
      DecodeStepBefore(dec, data, pos, |ts|, recv(ts[0], Behind(enc, ts, 0, behind)), next, |rest|,
                       ReceiveAll(enc, recv, rest, behind), end);
    }
  }

  // Record i is read as it is wanted.
  predicate Kept<T(==)>(
      enc: Encoder<T>, recv: (T, seq<byte>) -> Option<T>, want: T -> T, ts: seq<T>, i: nat, rest: seq<byte>)
    requires i < |ts|
  {
    recv(ts[i], Behind(enc, ts, i, rest)) == Some(want(ts[i]))
  }

  lemma KeptShift<T>(
      enc: Encoder<T>, recv: (T, seq<byte>) -> Option<T>, want: T -> T, ts: seq<T>, i: nat, rest: seq<byte>)
    requires i + 1 < |ts|
    ensures Kept(enc, recv, want, ts, i + 1, rest) <==> Kept(enc, recv, want, ts[1..], i, rest)
  {
    assert ts[i + 1 + 1..] == ts[1..][i + 1..];
  }

  lemma PrependIff<T>(first: Option<T>, rest: Option<seq<T>>, t: T, ts: seq<T>)
    ensures Prepend(first, rest) == Some([t] + ts) <==> first == Some(t) && rest == Some(ts)
  {
    if first.Some? && rest.Some? && [first.value] + rest.value == [t] + ts {
      assert ([first.value] + rest.value)[0] == t && ([first.value] + rest.value)[1..] == ts;
    }
  }

  /** A list is received as it is wanted exactly when each of its records is. */
  lemma {:induction false} ReceivedIff<T>(
      enc: Encoder<T>, recv: (T, seq<byte>) -> Option<T>, want: T -> T, ts: seq<T>, rest: seq<byte>)
    ensures ReceiveAll(enc, recv, ts, rest) == Some(MapAll(want, ts)) <==>
              forall i :: 0 <= i < |ts| ==> Kept(enc, recv, want, ts, i, rest)
    decreases |ts|
  {
    if ts != [] {
      MapAllStep(want, ts);
      PrependIff(recv(ts[0], Behind(enc, ts, 0, rest)), ReceiveAll(enc, recv, ts[1..], rest), want(ts[0]),
                 MapAll(want, ts[1..]));
      ReceivedIff(enc, recv, want, ts[1..], rest);
      TailKept(enc, recv, want, ts, rest);
    }
  }

  // All records are kept if the first one and those of the tail are.
  lemma TailKept<T>(
      enc: Encoder<T>, recv: (T, seq<byte>) -> Option<T>, want: T -> T, ts: seq<T>, rest: seq<byte>)
    requires ts != []
    ensures (forall i :: 0 <= i < |ts| ==> Kept(enc, recv, want, ts, i, rest)) <==>
              && Kept(enc, recv, want, ts, 0, rest)
              && forall i :: 0 <= i < |ts[1..]| ==> Kept(enc, recv, want, ts[1..], i, rest)
  {
    forall i | 0 <= i < |ts[1..]|
      ensures Kept(enc, recv, want, ts, i + 1, rest) <==> Kept(enc, recv, want, ts[1..], i, rest)
    {
      KeptShift(enc, recv, want, ts, i, rest);
    }
    forall i | 0 < i < |ts|
      ensures Kept(enc, recv, want, ts, i, rest) <==> Kept(enc, recv, want, ts[1..], i - 1, rest)
    {
      KeptShift(enc, recv, want, ts, i - 1, rest);
    }
  }

  /** Lists inherit byte-for-byte reproduction from their records, for every count. */
  lemma {:induction false} EncodeDecoded<T(!new)>(
      enc: Encoder<T>, dec: Decoder<T>, data: seq<byte>, pos: nat, n: nat)
    requires Reproduces(enc, dec)
    requires pos <= |data|
    requires DecodeN(dec, data, pos, n).Read?
    ensures var r := DecodeN(dec, data, pos, n);
            |r.value| == n && r.next == pos + |EncodeAll(enc, r.value)| && At(data, pos, EncodeAll(enc, r.value))
    decreases n
  {
    if n != 0 {
      var first := dec(data, pos);
      EncodeDecoded(enc, dec, data, first.next, n - 1);
      var rest := DecodeN(dec, data, first.next, n - 1);
      var ts := [first.value] + rest.value;
      assert ts[1..] == rest.value;
      AtConcat(data, pos, enc(first.value), EncodeAll(enc, rest.value));
    }
  }

  lemma {:induction false} EncodeAllConcat<T>(enc: Encoder<T>, a: seq<T>, b: seq<T>)
    ensures EncodeAll(enc, a + b) == EncodeAll(enc, a) + EncodeAll(enc, b)
    decreases |a|
  {
    if a == [] {
      assert a + b == b;
    } else {
      assert (a + b)[1..] == a[1..] + b;
      EncodeAllConcat(enc, a[1..], b);
      Associative(enc(a[0]), EncodeAll(enc, a[1..]), EncodeAll(enc, b));
    }
  }

  /** A printed list holds its records in order, each right after those before it. */
  lemma EncodedAt<T>(enc: Encoder<T>, ts: seq<T>, i: nat)
    requires i < |ts|
    ensures At(EncodeAll(enc, ts), |EncodeAll(enc, ts[..i])|, enc(ts[i]))
  {
    var before, rest := EncodeAll(enc, ts[..i]), EncodeAll(enc, ts[i..]);
    assert ts == ts[..i] + ts[i..];
    EncodeAllConcat(enc, ts[..i], ts[i..]);
    assert rest == enc(ts[i..][0]) + EncodeAll(enc, ts[i..][1..]);
    assert rest[..|enc(ts[i])|] == enc(ts[i]);
  }

  lemma {:induction false} EncodedLength<T(!new)>(enc: Encoder<T>, ts: seq<T>, width: nat)
    requires forall t :: t in ts ==> |enc(t)| == width
    ensures |EncodeAll(enc, ts)| == width * |ts|
    decreases |ts|
  {
    if ts != [] {
      EncodedLength(enc, ts[1..], width);
      assert |enc(ts[0])| == width;
      assert width * |ts| == width + width * (|ts| - 1);
    }
  }

  lemma {:induction false} DecodedAreDecoded<T(!new)>(
      dec: Decoder<T>, data: seq<byte>, pos: nat, n: nat, holds: T -> bool)
    requires forall d: seq<byte>, p: nat {:trigger dec(d, p)} :: dec(d, p).Read? ==> holds(dec(d, p).value)
    requires DecodeN(dec, data, pos, n).Read?
    ensures |DecodeN(dec, data, pos, n).value| == n
    ensures forall t :: t in DecodeN(dec, data, pos, n).value ==> holds(t)
    decreases n
  {
    if n != 0 {
      DecodedAreDecoded(dec, data, dec(data, pos).next, n - 1, holds);
    }
  }
}
