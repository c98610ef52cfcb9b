/** Comparison of dotted version strings, as used to decide on firmware updates. */
module Version {
  function Digit(c: char): int {
    c as int - '0' as int
  }

  /** Characters that are no digits count as well, by their distance from '0'. */
  lemma DigitOf(c: char)
    ensures Digit(c) == c as int - 48
  {}

  // The number accumulated over s[i..k]; no character check is made.
  function Value(s: string, i: nat, k: nat): int
    requires k <= |s|
  {
    if k <= i then 0 else Value(s, i, k - 1) * 10 + Digit(s[k - 1])
  }

  // Position of the first dot at or after i, or the length.
  function Dot(s: string, i: nat): nat
    requires i <= |s|
    ensures i <= Dot(s, i) <= |s|
    decreases |s| - i
  {
    if i == |s| || s[i] == '.' then i else Dot(s, i + 1)
  }

  // The numbers between the dots from i on; i may stand one past the end.
  function SegmentsFrom(s: string, i: nat): seq<int>
    decreases |s| - i
  {
    if i >= |s| then [] else
    var k := Dot(s, i);
    [Value(s, i, k)] + SegmentsFrom(s, k + 1)
  }

  function Segments(s: string): seq<int> {
    SegmentsFrom(s, 0)
  }

  // A segment list is read as if followed by zeros for ever.
  function Padded(a: seq<int>, k: nat): int {
    if k < |a| then a[k] else 0
  }

  function Tail(a: seq<int>): seq<int> {
    if a == [] then [] else a[1..]
  }

  function Compare(a: seq<int>, b: seq<int>): (r: int)
    ensures -1 <= r <= 1
    decreases |a| + |b|
  {
    if a == [] && b == [] then 0
    else if Padded(a, 0) > Padded(b, 0) then 1
    else if Padded(a, 0) < Padded(b, 0) then -1
    else Compare(Tail(a), Tail(b))
  }

  // Versions compare as their segments do.
  function CompareStrings(v: string, w: string): int {
    Compare(Segments(v), Segments(w))
  }

  lemma TailPadded(a: seq<int>, k: nat)
    ensures Padded(Tail(a), k) == Padded(a, k + 1)
  {}

  /** Comparison is decided by the first place where the zero-padded lists differ ... */
  lemma {:induction false} FirstDifferenceDecides(a: seq<int>, b: seq<int>, k: nat)
    requires Padded(a, k) != Padded(b, k)
    requires forall j: nat :: j < k ==> Padded(a, j) == Padded(b, j)
    ensures Compare(a, b) == if Padded(a, k) > Padded(b, k) then 1 else -1
    decreases k
  {
    if k > 0 {
      assert Padded(a, 0) == Padded(b, 0);
      forall j: nat | j < k
        ensures Padded(Tail(a), j) == Padded(a, j + 1) && Padded(Tail(b), j) == Padded(b, j + 1)
      {
        TailPadded(a, j);
        TailPadded(b, j);
      }
      FirstDifferenceDecides(Tail(a), Tail(b), k - 1);
    }
  }

  /** ... and gives zero exactly when they never differ. */
  lemma {:induction false} ZeroIffSamePadded(a: seq<int>, b: seq<int>)
    ensures Compare(a, b) == 0 <==> forall k: nat :: Padded(a, k) == Padded(b, k)
    decreases |a| + |b|
  {
    if a != [] || b != [] {
      ZeroIffSamePadded(Tail(a), Tail(b));
      forall k: nat
        ensures Padded(Tail(a), k) == Padded(a, k + 1) && Padded(Tail(b), k) == Padded(b, k + 1)
      {
        TailPadded(a, k);
        TailPadded(b, k);
      }
      if Compare(a, b) == 0 {
        forall k: nat
          ensures Padded(a, k) == Padded(b, k)
        {
          assert k > 0 ==> Padded(a, k) == Padded(Tail(a), k - 1) && Padded(b, k) == Padded(Tail(b), k - 1);
        }
      }
    }
  }

  lemma {:induction false} Antisymmetric(a: seq<int>, b: seq<int>)
    ensures Compare(b, a) == -Compare(a, b)
    decreases |a| + |b|
  {
    if a != [] || b != [] {
      Antisymmetric(Tail(a), Tail(b));
    }
  }

  /** The order is transitive, and strict as soon as one step is. */
  lemma {:induction false} Transitive(a: seq<int>, b: seq<int>, c: seq<int>)
    requires Compare(a, b) <= 0 && Compare(b, c) <= 0
    ensures Compare(a, c) <= 0
    ensures Compare(a, c) == 0 ==> Compare(a, b) == 0 && Compare(b, c) == 0
    decreases |a| + |b| + |c|
  {
    if a != [] || b != [] || c != [] {
      if Padded(a, 0) == Padded(b, 0) == Padded(c, 0) {
        Transitive(Tail(a), Tail(b), Tail(c));
      }
    }
  }

  // Lists that pad to the same values are interchangeable.
  lemma {:induction false} SamePaddedSameOrder(a: seq<int>, b: seq<int>, c: seq<int>)
    requires forall k: nat :: Padded(a, k) == Padded(b, k)
    ensures Compare(a, c) == Compare(b, c)
  {
    ZeroIffSamePadded(a, b);
    Antisymmetric(a, b);
    Antisymmetric(a, c);
    Antisymmetric(b, c);
    if Compare(a, c) <= 0 {
      Transitive(b, a, c);
    } else {
      Transitive(c, a, b);
    }
    if Compare(b, c) <= 0 {
      Transitive(a, b, c);
    } else {
      Transitive(c, b, a);
    }
  }

  lemma {:induction false} DotIs(s: string, i: nat, k: nat)
    requires i <= k <= |s| && (k < |s| ==> s[k] == '.')
    requires forall j :: i <= j < k ==> s[j] != '.'
    ensures Dot(s, i) == k
    decreases k - i
  {
    if i < k {
      DotIs(s, i + 1, k);
    }
  }

  lemma {:induction false} SamePrefix(s: string, t: string, i: nat, k: nat)
    requires i <= k <= |s| <= |t| && forall j :: i <= j < k ==> s[j] == t[j]
    ensures Value(s, i, k) == Value(t, i, k)
    decreases k
  {
    if i < k {
      SamePrefix(s, t, i, k - 1);
    }
  }

  lemma {:induction false} DotOfExtension(s: string, t: string, i: nat)
    requires i <= |s| < |t| && t[|s|] == '.' && forall j :: 0 <= j < |s| ==> t[j] == s[j]
    ensures Dot(t, i) == Dot(s, i)
    decreases |s| - i
  {
    if i < |s| && s[i] != '.' {
      DotOfExtension(s, t, i + 1);
    }
  }

  lemma AddedSegments(t: string, n: nat)
    requires |t| == n + 2 && t[n] == '.' && t[n + 1] == '0'
    ensures SegmentsFrom(t, n + 1) == [0]
    ensures SegmentsFrom(t, n) == [0, 0]
  {
    DotIs(t, n + 1, n + 2);
    assert Value(t, n + 1, n + 2) == Value(t, n + 1, n + 1) * 10 + Digit('0');
    assert SegmentsFrom(t, n + 3) == [];
  }

  lemma {:induction false} AppendedZero(s: string, i: nat, k: nat)
    requires i <= |s| + 1
    ensures Padded(SegmentsFrom(s + ".0", i), k) == Padded(SegmentsFrom(s, i), k)
    decreases |s| + 1 - i
  {
    var t := s + ".0";
    AddedSegments(t, |s|);
    if i < |s| {
      var d := Dot(s, i);
      DotOfExtension(s, t, i);
      SamePrefix(s, t, i, d);
      if k > 0 {
        AppendedZero(s, d + 1, k - 1);
      }
    }
  }

  function ManyZeros(s: string, n: nat): string {
    if n == 0 then s else ManyZeros(s, n - 1) + ".0"
  }

  /** Appending any number of ".0" segments to either side never changes the result. */
  lemma {:induction false} TrailingZerosIgnored(v: string, w: string, n: nat)
    ensures CompareStrings(ManyZeros(v, n), w) == CompareStrings(v, w)
    ensures CompareStrings(w, ManyZeros(v, n)) == CompareStrings(w, v)
  {
    if n > 0 {
      TrailingZerosIgnored(v, w, n - 1);
      var u := ManyZeros(v, n - 1);
      forall k: nat
        ensures Padded(Segments(u + ".0"), k) == Padded(Segments(u), k)
      {
        AppendedZero(u, 0, k);
      }
      SamePaddedSameOrder(Segments(u + ".0"), Segments(u), Segments(w));
    }
    Antisymmetric(Segments(ManyZeros(v, n)), Segments(w));
    Antisymmetric(Segments(v), Segments(w));
  }

  // ---- versions as they are written ----

  function DigitChar(d: nat): char
    requires d < 10
  {
    match d
    case 0 => '0'
    case 1 => '1'
    case 2 => '2'
    case 3 => '3'
    case 4 => '4'
    case 5 => '5'
    case 6 => '6'
    case 7 => '7'
    case 8 => '8'
    case _ => '9'
  }

  function Decimal(n: nat): (s: string)
    ensures s != []
  {
    if n < 10 then [DigitChar(n)] else Decimal(n / 10) + [DigitChar(n % 10)]
  }

  // Numbers joined by dots.
  function Print(a: seq<nat>): string
    requires a != []
  {
    if |a| == 1 then Decimal(a[0]) else Decimal(a[0]) + "." + Print(a[1..])
  }

  lemma {:induction false} ValueOfDecimal(n: nat, s: string, i: nat, k: nat)
    requires i <= k <= |s| && s[i..k] == Decimal(n)
    ensures Value(s, i, k) == n
    ensures forall j :: i <= j < k ==> s[j] != '.'
    decreases n
  {
    var last := DigitChar(n % 10);
    LastDigit(n % 10);
    assert s[k - 1] == s[i..k][k - 1 - i] == last;
    if n < 10 {
      assert k == i + 1;
      assert Value(s, i, i) == 0;
    } else {
      assert s[i..k - 1] == s[i..k][..k - 1 - i] == Decimal(n / 10);
      ValueOfDecimal(n / 10, s, i, k - 1);
    }
  }

  lemma LastDigit(d: nat)
    requires d < 10
    ensures DigitChar(d) != '.' && Digit(DigitChar(d)) == d
  {}

  // From position i on, s holds the numbers of a in decimal, joined by dots.
  predicate Written(s: string, i: nat, a: seq<nat>)
    decreases |a|
  {
    && a != []
    && var k := i + |Decimal(a[0])|;
       && k <= |s| && s[i..k] == Decimal(a[0])
       && if |a| == 1 then k == |s| else k < |s| && s[k] == '.' && Written(s, k + 1, a[1..])
  }

  lemma {:induction false} PrintIsWritten(a: seq<nat>, s: string, i: nat)
    requires a != [] && i <= |s| && s[i..] == Print(a)
    ensures Written(s, i, a)
    decreases |a|
  {
    PrintParts(a, s, i);
    if |a| > 1 {
      PrintIsWritten(a[1..], s, i + |Decimal(a[0])| + 1);
    }
  }

  lemma {:induction false} SegmentsOfWritten(a: seq<nat>, s: string, i: nat)
    requires Written(s, i, a)
    ensures SegmentsFrom(s, i) == a
    decreases |a|
  {
    var k := i + |Decimal(a[0])|;
    ValueOfDecimal(a[0], s, i, k);
    DotIs(s, i, k);
    if |a| == 1 {
      LastSegment(a, s, i);
    } else {
      SegmentsOfWritten(a[1..], s, k + 1);
      OneSegmentMore(a, s, i, k);
    }
  }

  lemma LastSegment(a: seq<int>, s: string, i: nat)
    requires |a| == 1 && i < |s| && Dot(s, i) == |s| && Value(s, i, |s|) == a[0]
    ensures SegmentsFrom(s, i) == a
  {
    assert SegmentsFrom(s, |s| + 1) == [];
  }

  lemma OneSegmentMore(a: seq<int>, s: string, i: nat, k: nat)
    requires a != [] && i < |s| && Dot(s, i) == k && Value(s, i, k) == a[0] && SegmentsFrom(s, k + 1) == a[1..]
    ensures SegmentsFrom(s, i) == a
  {
    assert a == [a[0]] + a[1..];
  }

  lemma PrintParts(a: seq<nat>, s: string, i: nat)
    requires a != [] && i <= |s| && s[i..] == Print(a)
    ensures var k := i + |Decimal(a[0])|;
            && i < k <= |s| && s[i..k] == Decimal(a[0])
            && (|a| == 1 ==> k == |s|)
            && (|a| > 1 ==> k < |s| && s[k] == '.' && s[k + 1..] == Print(a[1..]))
  {
    var first := Decimal(a[0]);
    var k := i + |first|;
    assert s[i..k] == s[i..][..|first|] == first;
    if |a| > 1 {
      assert s[k] == s[i..][|first|] == '.';
      assert s[k + 1..] == s[i..][|first| + 1..] == Print(a[1..]);
    }
  }

  /** A version written in decimal is read as its numbers, and two of them compare as their numbers do. */
  lemma PrintedVersionsCompare(a: seq<nat>, b: seq<nat>)
    requires a != [] && b != []
    ensures Segments(Print(a)) == a
    ensures CompareStrings(Print(a), Print(b)) == Compare(a, b)
  {
    PrintIsWritten(a, Print(a), 0);
    PrintIsWritten(b, Print(b), 0);
    SegmentsOfWritten(a, Print(a), 0);
    SegmentsOfWritten(b, Print(b), 0);
  }

  // The inner loop: reads one number up to the next dot.
  method ReadNumber(s: string, start: nat) returns (x: int, end: nat)
    requires start <= |s|
    ensures end == Dot(s, start) && x == Value(s, start, end)
  {
    x, end := 0, start;
    while end < |s| && s[end] != '.'
      invariant start <= end <= |s| && x == Value(s, start, end)
      invariant Dot(s, start) == Dot(s, end)
    {
      x := x * 10 + Digit(s[end]);
      end := end + 1;
    }
  }

  // Reads one segment from the cursor and steps over the dot; an exhausted string yields zeros.
  method ReadSegment(s: string, start: nat) returns (x: int, next: nat)
    ensures x == Padded(SegmentsFrom(s, start), 0)
    ensures SegmentsFrom(s, next) == Tail(SegmentsFrom(s, start))
    ensures next > start
  {
    if start >= |s| {
      return 0, start + 1;
    }
    var end;
    x, end := ReadNumber(s, start);
    next := end + 1;
  }

  function Left(s: string, i: nat): nat {
    if i < |s| then |s| - i else 0
  }

  // CompareVersion
  method CompareVersion(version1: string, version2: string) returns (r: int)
    ensures r == CompareStrings(version1, version2)
  {
    var i, j := 0, 0;
    while i < |version1| || j < |version2|
      invariant Compare(SegmentsFrom(version1, i), SegmentsFrom(version2, j)) == CompareStrings(version1, version2)
      decreases Left(version1, i) + Left(version2, j)
    {
      var x, y;
      x, i := ReadSegment(version1, i);
      y, j := ReadSegment(version2, j);
      if x != y {
        return if x > y then 1 else -1;
      }
    }
    r := 0;
  }
}
