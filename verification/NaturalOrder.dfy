/**
 The natural order of names used by every list page: digit runs are compared as
 numbers, everything else byte by byte.  The scanner is proved equal to a recursive
 definition, and that definition is proved to be a total order.
 */
module NaturalOrder {

  type Byte = x: int | 0 <= x < 256
  type Bytes = seq<Byte>

  predicate IsDigit(b: Byte) {
    '0' as int <= b <= '9' as int
  }

  /** The standard library's byte-wise comparison. */
  function CompareBytes(a: Bytes, b: Bytes): int {
    if a == [] && b == [] then 0
    else if a == [] then -1
    else if b == [] then 1
    else if a[0] < b[0] then -1
    else if a[0] > b[0] then 1
    else CompareBytes(a[1..], b[1..])
  }

  function TrimZeros(digits: Bytes): Bytes {
    if digits != [] && digits[0] == '0' as int then TrimZeros(digits[1..]) else digits
  }

  function Significant(digits: Bytes): Bytes {
    var trimmed := TrimZeros(digits);
    if trimmed == [] then ['0' as int] else trimmed
  }

  function CompareNumbers(left: Bytes, right: Bytes): int {
    var l, r := Significant(left), Significant(right);
    if |l| < |r| then -1
    else if |l| > |r| then 1
    else if CompareBytes(l, r) != 0 then CompareBytes(l, r)
    else if |left| < |right| then -1
    else if |left| > |right| then 1
    else 0
  }

  /** The length of the longest prefix whose bytes are all digits, or all non-digits. */
  function RunLength(value: Bytes, digits: bool): (n: nat)
    ensures n <= |value|
    ensures forall i | 0 <= i < n :: IsDigit(value[i]) == digits
    ensures n < |value| ==> IsDigit(value[n]) != digits
  {
    if value != [] && IsDigit(value[0]) == digits then 1 + RunLength(value[1..], digits) else 0
  }

  function Head(value: Bytes): (run: Bytes)
    requires value != []
    ensures run != [] && run[0] == value[0] && run <= value && Uniform(run)
  {
    value[..RunLength(value, IsDigit(value[0]))]
  }

  function Tail(value: Bytes): (rest: Bytes)
    requires value != []
    ensures |rest| < |value| && value == Head(value) + rest
  {
    value[RunLength(value, IsDigit(value[0]))..]
  }

  /** All digits or no digit. */
  predicate Uniform(run: Bytes) {
    run != [] && forall i | 0 <= i < |run| :: IsDigit(run[i]) == IsDigit(run[0])
  }

  function CompareRuns(left: Bytes, right: Bytes): int
    requires left != [] && right != []
  {
    if IsDigit(left[0]) != IsDigit(right[0]) then (if left[0] < right[0] then -1 else 1)
    else if IsDigit(left[0]) then CompareNumbers(left, right)
    else CompareBytes(left, right)
  }

  /** The order the scanner computes. */
  function Compare(left: Bytes, right: Bytes): int
    decreases |left|
  {
    if left == [] then (if right == [] then 0 else -1)
    else if right == [] then 1
    else
      var c := CompareRuns(Head(left), Head(right));
      if c != 0 then c else Compare(Tail(left), Tail(right))
  }

  // ---------------------------------------------------------------------------
  // The scanner

  method NaturalSegmentEnd(value: Bytes, start: nat, digits: bool) returns (end: nat)
    requires start <= |value|
    ensures end == start + RunLength(value[start..], digits)
  {
    end := start;
    while end < |value| && IsDigit(value[end]) == digits
      invariant start <= end <= |value|
      invariant start + RunLength(value[start..], digits) == end + RunLength(value[end..], digits)
    {
      assert value[end..][1..] == value[end + 1..];
      end := end + 1;
    }
  }

  lemma SegmentIsHead(value: Bytes, start: nat, end: nat)
    requires start < |value| && end == start + RunLength(value[start..], IsDigit(value[start]))
    ensures start < end <= |value|
    ensures value[start..end] == Head(value[start..]) && value[end..] == Tail(value[start..])
  {
  }

  /** `lower` stands for the library's lower-casing of a string. */
  method CompareNatural(lower: Bytes -> Bytes, leftName: Bytes, rightName: Bytes) returns (result: int)
    ensures result == Compare(lower(leftName), lower(rightName))
  {
    var left, right := lower(leftName), lower(rightName);
    var leftIndex, rightIndex := 0, 0;
    while true
      invariant 0 <= leftIndex <= |left| && 0 <= rightIndex <= |right|
      invariant Compare(left, right) == Compare(left[leftIndex..], right[rightIndex..])
      decreases |left| - leftIndex
    {
      if leftIndex == |left| || rightIndex == |right| {
        if leftIndex == |left| && rightIndex == |right| {
          return 0;
        } else if leftIndex == |left| {
          return -1;
        }
        return 1;
      }
      var leftDigit, rightDigit := IsDigit(left[leftIndex]), IsDigit(right[rightIndex]);
      if leftDigit != rightDigit {
        if left[leftIndex] < right[rightIndex] {
          return -1;
        }
        return 1;
      }
      var leftEnd := NaturalSegmentEnd(left, leftIndex, leftDigit);
      var rightEnd := NaturalSegmentEnd(right, rightIndex, rightDigit);
      var leftSegment, rightSegment := left[leftIndex..leftEnd], right[rightIndex..rightEnd];
      SegmentIsHead(left, leftIndex, leftEnd);
      SegmentIsHead(right, rightIndex, rightEnd);
      var comparison := CompareBytes(leftSegment, rightSegment);
      if leftDigit {
        comparison := CompareNumbers(leftSegment, rightSegment);
      }
      if comparison != 0 {
        return comparison;
      }
      leftIndex, rightIndex := leftEnd, rightEnd;
    }
  }

  // ---------------------------------------------------------------------------
  // Byte order

  lemma {:induction false} BytesAntisymmetric(a: Bytes, b: Bytes)
    ensures CompareBytes(a, b) == -CompareBytes(b, a)
    ensures CompareBytes(a, b) == 0 <==> a == b
  {
    if a != [] && b != [] && a[0] == b[0] {
      BytesAntisymmetric(a[1..], b[1..]);
      assert a == [a[0]] + a[1..] && b == [b[0]] + b[1..];
    }
  }

  lemma {:induction false} BytesTransitive(a: Bytes, b: Bytes, c: Bytes)
    requires CompareBytes(a, b) < 0 && CompareBytes(b, c) < 0
    ensures CompareBytes(a, c) < 0
  {
    if a != [] && a[0] == b[0] == c[0] {
      BytesTransitive(a[1..], b[1..], c[1..]);
    }
  }

  lemma {:induction false} CommonPrefix(prefix: Bytes, a: Bytes, b: Bytes)
    ensures CompareBytes(prefix + a, prefix + b) == CompareBytes(a, b)
  {
    if prefix == [] {
      assert prefix + a == a && prefix + b == b;
    } else {
      assert (prefix + a)[1..] == prefix[1..] + a && (prefix + b)[1..] == prefix[1..] + b;
      CommonPrefix(prefix[1..], a, b);
    }
  }

  // ---------------------------------------------------------------------------
  // Digit runs and the numbers they denote

  predicate AllDigits(s: Bytes) {
    forall i | 0 <= i < |s| :: IsDigit(s[i])
  }

  function Pow10(n: nat): (p: nat)
    ensures p >= 1
  {
    if n == 0 then 1 else 10 * Pow10(n - 1)
  }

  /** The number written by a digit run, leading zeros allowed. */
  function Number(digits: Bytes): (n: nat)
    requires AllDigits(digits)
  {
    if digits == [] then 0
    else (digits[0] - '0' as int) * Pow10(|digits| - 1) + Number(digits[1..])
  }

  /** A digit is one of the ten ASCII digits, and a run of them is read in base ten. */
  lemma {:induction false} NumberIsDecimal(digits: Bytes, d: Byte)
    requires AllDigits(digits)
    ensures IsDigit(d) <==> 48 <= d <= 57
    ensures IsDigit(d) ==> AllDigits(digits + [d]) && Number(digits + [d]) == 10 * Number(digits) + d - 48
  {
    if IsDigit(d) {
      if digits == [] {
        assert digits + [d] == [d] && [d][1..] == [];
      } else {
        NumberIsDecimal(digits[1..], d);
        assert (digits + [d])[1..] == digits[1..] + [d];
        TenTimes(digits[0] - '0' as int, Pow10(|digits| - 1));
      }
    }
  }

  lemma TenTimes(d: nat, p: nat)
    ensures d * (10 * p) == 10 * (d * p)
  {
  }

  lemma {:induction false} NumberBounded(digits: Bytes)
    requires AllDigits(digits)
    ensures Number(digits) < Pow10(|digits|)
    ensures digits != [] && digits[0] != '0' as int ==> Number(digits) >= Pow10(|digits| - 1)
  {
    if digits != [] {
      NumberBounded(digits[1..]);
      DigitBounds(digits[0] - '0' as int, Pow10(|digits| - 1));
    }
  }

  lemma DigitBounds(d: nat, p: nat)
    requires d <= 9
    ensures d * p <= 9 * p
    ensures d >= 1 ==> d * p >= p
  {
  }

  lemma {:induction false} TrimKeepsNumber(digits: Bytes)
    requires AllDigits(digits)
    ensures AllDigits(TrimZeros(digits)) && Number(TrimZeros(digits)) == Number(digits)
    ensures TrimZeros(digits) != [] ==> TrimZeros(digits)[0] != '0' as int
  {
    if digits != [] && digits[0] == '0' as int {
      TrimKeepsNumber(digits[1..]);
    }
  }

  lemma {:induction false} Pow10Monotone(m: nat, n: nat)
    requires m <= n
    ensures Pow10(m) <= Pow10(n)
    decreases n
  {
    if m < n {
      Pow10Monotone(m, n - 1);
    }
  }

  lemma LeadingDigitDecides(d: int, e: int, p: nat, x: nat, y: nat)
    requires d < e && x < p
    ensures d * p + x < e * p + y
  {
    assert (d + 1) * p <= e * p;
  }

  /** Between digit runs of one length, byte order is numeric order. */
  lemma {:induction false} SameLengthByValue(a: Bytes, b: Bytes)
    requires AllDigits(a) && AllDigits(b) && |a| == |b|
    ensures CompareBytes(a, b) == if Number(a) < Number(b) then -1 else if Number(a) > Number(b) then 1 else 0
  {
    if a != [] {
      var d, e, p := a[0] - '0' as int, b[0] - '0' as int, Pow10(|a| - 1);
      NumberBounded(a[1..]);
      NumberBounded(b[1..]);
      if d < e {
        LeadingDigitDecides(d, e, p, Number(a[1..]), Number(b[1..]));
      } else if e < d {
        LeadingDigitDecides(e, d, p, Number(b[1..]), Number(a[1..]));
      } else {
        SameLengthByValue(a[1..], b[1..]);
      }
    }
  }

  /** Digit runs are ordered by their number, and equal numbers by the length of the run. */
  lemma {:induction false} NumbersByValue(left: Bytes, right: Bytes)
    requires AllDigits(left) && AllDigits(right)
    ensures CompareNumbers(left, right) ==
            if Number(left) < Number(right) then -1
            else if Number(left) > Number(right) then 1
            else if |left| < |right| then -1
            else if |left| > |right| then 1
            else 0
  {
    SignificantNumber(left);
    SignificantNumber(right);
    var l, r := Significant(left), Significant(right);
    NumberBounded(l);
    NumberBounded(r);
    if |l| < |r| {
      Pow10Monotone(|l|, |r| - 1);
    } else if |r| < |l| {
      Pow10Monotone(|r|, |l| - 1);
    } else {
      SameLengthByValue(l, r);
    }
  }

  lemma SignificantNumber(digits: Bytes)
    requires AllDigits(digits)
    ensures var s := Significant(digits);
      s != [] && AllDigits(s) && Number(s) == Number(digits) && (|s| > 1 ==> s[0] != '0' as int)
  {
    TrimKeepsNumber(digits);
  }

  // ---------------------------------------------------------------------------
  // The total order

  lemma RunsAntisymmetric(a: Bytes, b: Bytes)
    requires Uniform(a) && Uniform(b)
    ensures CompareRuns(a, b) == -CompareRuns(b, a)
    ensures CompareRuns(a, b) == 0 <==> a == b
  {
    BytesAntisymmetric(a, b);
    if IsDigit(a[0]) && IsDigit(b[0]) {
      NumbersByValue(a, b);
      NumbersByValue(b, a);
      if |a| == |b| {
        SameLengthByValue(a, b);
      }
    }
  }

  lemma RunsTransitive(a: Bytes, b: Bytes, c: Bytes)
    requires Uniform(a) && Uniform(b) && Uniform(c)
    requires CompareRuns(a, b) < 0 && CompareRuns(b, c) < 0
    ensures CompareRuns(a, c) < 0
  {
    if IsDigit(a[0]) && IsDigit(b[0]) && IsDigit(c[0]) {
      NumbersByValue(a, b);
      NumbersByValue(b, c);
      NumbersByValue(a, c);
    } else if !IsDigit(a[0]) && !IsDigit(b[0]) && !IsDigit(c[0]) {
      BytesTransitive(a, b, c);
    }
  }

  /** Antisymmetric, and zero exactly between equal strings. */
  lemma {:induction false} CompareAntisymmetric(a: Bytes, b: Bytes)
    ensures Compare(a, b) == -Compare(b, a)
    ensures Compare(a, b) == 0 <==> a == b
    decreases |a|
  {
    if a != [] && b != [] {
      RunsAntisymmetric(Head(a), Head(b));
      CompareAntisymmetric(Tail(a), Tail(b));
      assert a == Head(a) + Tail(a) && b == Head(b) + Tail(b);
    }
  }

  lemma {:induction false} CompareTransitive(a: Bytes, b: Bytes, c: Bytes)
    requires Compare(a, b) < 0 && Compare(b, c) < 0
    ensures Compare(a, c) < 0
    decreases |a|
  {
    if a != [] {
      RunsAntisymmetric(Head(a), Head(b));
      RunsAntisymmetric(Head(b), Head(c));
      if CompareRuns(Head(a), Head(b)) == 0 && CompareRuns(Head(b), Head(c)) == 0 {
        CompareTransitive(Tail(a), Tail(b), Tail(c));
      } else if CompareRuns(Head(a), Head(b)) != 0 && CompareRuns(Head(b), Head(c)) != 0 {
        RunsTransitive(Head(a), Head(b), Head(c));
      }
    }
  }

  /** Two names that first differ in a digit run are ordered by the numbers, and equal numbers by their length. */
  lemma {:induction false} NumbersDecide(prefix: Bytes, m: Bytes, n: Bytes, restM: Bytes, restN: Bytes)
    requires AllDigits(m) && AllDigits(n) && m != [] && n != []
    requires prefix != [] ==> !IsDigit(prefix[|prefix| - 1])
    requires restM != [] ==> !IsDigit(restM[0])
    requires restN != [] ==> !IsDigit(restN[0])
    requires Number(m) < Number(n) || (Number(m) == Number(n) && |m| < |n|)
    ensures Compare(prefix + (m + restM), prefix + (n + restN)) < 0
  {
    PrefixCancels(prefix, m + restM, n + restN);
    RunOfConcat(m, restM, true);
    RunOfConcat(n, restN, true);
    NumbersByValue(m, n);
  }

  /** A common prefix that ends outside a digit run does not decide anything. */
  lemma {:induction false} PrefixCancels(prefix: Bytes, x: Bytes, y: Bytes)
    requires prefix != [] ==> !IsDigit(prefix[|prefix| - 1])
    requires x != [] && y != [] && IsDigit(x[0]) && IsDigit(y[0])
    ensures Compare(prefix + x, prefix + y) == Compare(x, y)
    decreases |prefix|
  {
    if prefix == [] {
      assert prefix + x == x && prefix + y == y;
    } else {
      var run, rest := Head(prefix), Tail(prefix);
      RestOfPrefix(prefix, x);
      RestOfPrefix(prefix, y);
      SharedRun(run, rest + x, rest + y);
      PrefixCancels(rest, x, y);
    }
  }

  /** A run that both strings start with does not decide anything. */
  lemma SharedRun(run: Bytes, x: Bytes, y: Bytes)
    requires Uniform(run)
    requires x != [] ==> IsDigit(x[0]) != IsDigit(run[0])
    requires y != [] ==> IsDigit(y[0]) != IsDigit(run[0])
    ensures Compare(run + x, run + y) == Compare(x, y)
  {
    RunOfConcat(run, x, IsDigit(run[0]));
    RunOfConcat(run, y, IsDigit(run[0]));
    RunsAntisymmetric(run, run);
  }

  lemma RestOfPrefix(prefix: Bytes, x: Bytes)
    requires prefix != [] && !IsDigit(prefix[|prefix| - 1]) && x != [] && IsDigit(x[0])
    ensures var rest := Tail(prefix);
      && prefix + x == Head(prefix) + (rest + x)
      && IsDigit((rest + x)[0]) != IsDigit(prefix[0])
      && (rest != [] ==> !IsDigit(rest[|rest| - 1]))
  {
    if Tail(prefix) == [] {
      assert Head(prefix) == prefix;
      assert IsDigit(prefix[|prefix| - 1]) == IsDigit(prefix[0]);
    } else {
      assert Tail(prefix)[0] == prefix[RunLength(prefix, IsDigit(prefix[0]))];
    }
  }

  lemma {:induction false} RunOfConcat(run: Bytes, rest: Bytes, digits: bool)
    requires forall i | 0 <= i < |run| :: IsDigit(run[i]) == digits
    requires rest != [] ==> IsDigit(rest[0]) != digits
    ensures RunLength(run + rest, digits) == |run|
    ensures run != [] ==> Head(run + rest) == run && Tail(run + rest) == rest
  {
    if run == [] {
      assert run + rest == rest;
    } else {
      assert (run + rest)[1..] == run[1..] + rest;
      RunOfConcat(run[1..], rest, digits);
    }
  }
  // ---------------------------------------------------------------------------
  // Text

  /** The first run of a name decides where the prefix of another ends, if it does not go on. */
  lemma HeadOfConcat(p: Bytes, x: Bytes)
    requires p != [] && x != []
    requires Tail(p) != [] || IsDigit(p[0]) != IsDigit(x[0])
    ensures Head(p + x) == Head(p) && Tail(p + x) == Tail(p) + x
  {
    var rest := Tail(p);
    assert p + x == Head(p) + (rest + x);
    assert rest != [] ==> rest[0] == p[RunLength(p, IsDigit(p[0]))];
    RunOfConcat(Head(p), rest + x, IsDigit(p[0]));
  }

  /** A name that is one run goes on with the first run of what follows, if that is of its kind. */
  lemma HeadGoesOn(p: Bytes, x: Bytes)
    requires p != [] && x != [] && Tail(p) == [] && IsDigit(p[0]) == IsDigit(x[0])
    ensures Head(p + x) == p + Head(x) && Tail(p + x) == Tail(x)
  {
    assert Head(p) == p;
    assert p + x == (p + Head(x)) + Tail(x);
    assert Tail(x) != [] ==> Tail(x)[0] == x[RunLength(x, IsDigit(x[0]))];
    RunOfConcat(p + Head(x), Tail(x), IsDigit(p[0]));
  }

  /** After any common prefix the smaller of two bytes that are no digits comes first. */
  lemma {:induction false} BytesDecide(p: Bytes, x: Byte, r: Bytes, y: Byte, s: Bytes)
    requires !IsDigit(x) && !IsDigit(y) && x < y
    ensures Compare(p + ([x] + r), p + ([y] + s)) < 0
    decreases |p|
  {
    var a, b := [x] + r, [y] + s;
    if p == [] {
      assert p + a == a && p + b == b;
    } else if Tail(p) != [] || IsDigit(p[0]) {
      HeadOfConcat(p, a);
      HeadOfConcat(p, b);
      RunsAntisymmetric(Head(p), Head(p));
      BytesDecide(Tail(p), x, r, y, s);
    } else {
      HeadGoesOn(p, a);
      HeadGoesOn(p, b);
      CommonPrefix(p, Head(a), Head(b));
    }
  }

  /** Where a name that starts with a digit meets one that does not, the smaller first byte comes first. */
  lemma FirstByteDecides(a: Bytes, b: Bytes)
    requires a != [] && b != [] && IsDigit(a[0]) != IsDigit(b[0])
    ensures Compare(a, b) == if a[0] < b[0] then -1 else 1
  {
  }

  /** After a common prefix that ends outside a digit run, a digit comes before anything that is none. */
  lemma {:induction false} DigitsEndText(p: Bytes, d: Byte, r: Bytes, x: Byte, s: Bytes)
    requires p != [] && !IsDigit(p[|p| - 1]) && IsDigit(d) && !IsDigit(x)
    ensures Compare(p + ([d] + r), p + ([x] + s)) < 0
    decreases |p|
  {
    var a, b := [d] + r, [x] + s;
    if Tail(p) != [] {
      HeadOfConcat(p, a);
      HeadOfConcat(p, b);
      RunsAntisymmetric(Head(p), Head(p));
      DigitsEndText(Tail(p), d, r, x, s);
    } else {
      assert p[|p| - 1] == Head(p)[|p| - 1];
      HeadOfConcat(p, a);
      HeadGoesOn(p, b);
      assert p + [] == p;
      CommonPrefix(p, [], Head(b));
    }
  }

  /** A name comes before every longer name that starts with it. */
  lemma {:induction false} PrefixFirst(a: Bytes, b: Bytes)
    requires b != []
    ensures Compare(a, a + b) < 0
    decreases |a|
  {
    if a == [] {
      assert a + b == b;
    } else if Tail(a) != [] || IsDigit(a[0]) != IsDigit(b[0]) {
      HeadOfConcat(a, b);
      RunsAntisymmetric(Head(a), Head(a));
      PrefixFirst(Tail(a), b);
    } else {
      HeadGoesOn(a, b);
      if IsDigit(a[0]) {
        LongerNumber(a, Head(b));
        NumbersByValue(a, a + Head(b));
      } else {
        assert a + [] == a;
        CommonPrefix(a, [], Head(b));
      }
    }
  }

  lemma {:induction false} LongerNumber(a: Bytes, b: Bytes)
    requires AllDigits(a) && AllDigits(b)
    ensures AllDigits(a + b) && Number(a + b) >= Number(a)
  {
    if a == [] {
      assert a + b == b;
    } else {
      assert (a + b)[1..] == a[1..] + b;
      LongerNumber(a[1..], b);
      Pow10Monotone(|a| - 1, |a + b| - 1);
      ProductMonotone(a[0] - '0' as int, Pow10(|a| - 1), Pow10(|a + b| - 1));
    }
  }

  lemma ProductMonotone(d: nat, p: nat, q: nat)
    requires p <= q
    ensures d * p <= d * q
  {
  }
}
