/** Four-state values of a value-change dump as digit strings: extension to a width,
    the number they stand for and their Hamming distance
    (tools/power_trace_from_vcd.py:151-161, 308-319). */
module VcdValues {
  import opened Numbers
  import opened Outcomes

  predicate Unknown(c: char) {
    c == 'x' || c == 'z'
  }

  /** str.lower, for ASCII. */
  function LowerChar(c: char): char {
    if 'A' <= c <= 'Z' then (c as int + 32) as char else c
  }

  function Lower(s: string): (l: string)
    ensures |l| == |s|
    ensures forall i :: 0 <= i < |s| ==> l[i] == LowerChar(s[i])
  {
    seq(|s|, i requires 0 <= i < |s| => LowerChar(s[i]))
  }

  /** n copies of c; none for a negative count. */
  function Repeat(c: char, n: int): (r: string)
    ensures |r| == if n > 0 then n else 0
    ensures forall i :: 0 <= i < |r| ==> r[i] == c
  {
    if n > 0 then seq(n, i => c) else []
  }

  /** Python's v[-width:] for a value longer than width: the last digits for a positive
      width, everything for width 0, all but the first -width for a negative one. */
  function CutTo(v: string, width: int): string
    requires |v| > width
  {
    if width > 0 then v[|v| - width..]
    else if |v| > -width then v[-width..]
    else []
  }

  /** _normalise_vector. Declared widths are any integers; the source does not check them. */
  function NormaliseVector(value: string, width: int): (v: string)
    ensures width > 0 ==> |v| == width
    ensures width <= 0 && value == [] ==> v == []
    ensures width <= 0 && |value| > -width ==> |v| == |value| + width
    ensures width < 0 && |value| <= -width ==> v == []
  {
    var low := Lower(value);
    if low == [] then Repeat('x', width)
    else if |low| < width then Repeat(if Unknown(low[0]) then low[0] else '0', width - |low|) + low
    else if |low| > width then CutTo(low, width)
    else low
  }

  function Differing(a: string, b: string): (n: nat)
    requires |a| == |b|
    ensures n <= |a|
  {
    if a == [] then 0 else (if a[0] != b[0] then 1 else 0) + Differing(a[1..], b[1..])
  }

  function Wider(a: string, b: string): nat {
    if |a| > |b| then |a| else |b|
  }

  /** hamming_distance: values of one width are compared as they are, others after
      extension, which also lower-cases them. */
  function HammingDistance(previous: string, current: string): nat {
    if |previous| == |current| then Differing(previous, current)
    else Differing(NormaliseVector(previous, Wider(previous, current)), NormaliseVector(current, Wider(previous, current)))
  }

  lemma {:induction false} DifferingIsMetric(a: string, b: string, c: string)
    requires |a| == |b| == |c|
    ensures Differing(a, b) == 0 <==> a == b
    ensures Differing(a, b) == Differing(b, a)
    ensures Differing(a, c) <= Differing(a, b) + Differing(b, c)
    decreases |a|
  {
    if a != [] {
      DifferingIsMetric(a[1..], b[1..], c[1..]);
      assert a == [a[0]] + a[1..] && b == [b[0]] + b[1..];
    }
  }

  /** The places at which two values differ. */
  ghost function DifferentPlaces(a: string, b: string): (places: set<int>)
    requires |a| == |b|
  {
    set i | 0 <= i < |a| && a[i] != b[i]
  }

  lemma {:induction false} DifferingFrom(a: string, b: string, k: nat)
    requires |a| == |b| && k <= |a|
    ensures Differing(a[k..], b[k..]) == |set i | k <= i < |a| && a[i] != b[i]|
    decreases |a| - k
  {
    var here := set i | k <= i < |a| && a[i] != b[i];
    if k == |a| {
      assert here == {};
    } else {
      var after := set i | k + 1 <= i < |a| && a[i] != b[i];
      DifferingFrom(a, b, k + 1);
      assert a[k..][1..] == a[k + 1..] && b[k..][1..] == b[k + 1..];
      assert here == if a[k] != b[k] then {k} + after else after;
    }
  }

  /** The distance is the number of differing places, after extension to the wider
      value if the widths differ. */
  lemma HammingDistanceCounts(a: string, b: string)
    ensures |a| == |b| ==> HammingDistance(a, b) == |DifferentPlaces(a, b)|
    ensures |a| != |b| ==>
              HammingDistance(a, b) == |DifferentPlaces(NormaliseVector(a, Wider(a, b)), NormaliseVector(b, Wider(a, b)))|
    ensures |a| <= Wider(a, b) && |b| <= Wider(a, b) && (Wider(a, b) == |a| || Wider(a, b) == |b|)
  {
    hide NormaliseVector, Differing;
    if |a| == |b| {
      DifferingFrom(a, b, 0);
      assert a[0..] == a && b[0..] == b;
    } else {
      var x, y := NormaliseVector(a, Wider(a, b)), NormaliseVector(b, Wider(a, b));
      DifferingFrom(x, y, 0);
      assert x[0..] == x && y[0..] == y;
    }
  }

  /** The twenty-six capitals become small, nothing else changes. */
  lemma LowerCharIs(c: char, k: nat)
    requires k < 26
    ensures LowerChar("ABCDEFGHIJKLMNOPQRSTUVWXYZ"[k]) == "abcdefghijklmnopqrstuvwxyz"[k]
    ensures c !in "ABCDEFGHIJKLMNOPQRSTUVWXYZ" ==> LowerChar(c) == c
  {
    var capitals, small := "ABCDEFGHIJKLMNOPQRSTUVWXYZ", "abcdefghijklmnopqrstuvwxyz";
    assert capitals[k] == 'A' + k as char && small[k] == 'a' + k as char;
    if 'A' <= c <= 'Z' {
      var n := c as int - 'A' as int;
      assert capitals[n] == 'A' + n as char;
      assert c == capitals[n];
    }
  }

  /** Every digit of a value fitted to a width it does not exceed: the value itself at
      the right, and to the left its own first digit if unknown, else zero. */
  lemma ExtendedDigit(v: string, width: nat, i: nat)
    requires |v| <= width && i < width
    ensures NormaliseVector(v, width)[i] ==
            if i >= width - |v| then LowerChar(v[i - (width - |v|)])
            else if v == "" || v[0] == 'x' || v[0] == 'X' then 'x'
            else if v[0] == 'z' || v[0] == 'Z' then 'z'
            else '0'
  {
  }

  /** A value too long for a positive width keeps its last digits. */
  lemma CutDigit(v: string, width: nat, i: nat)
    requires i < width < |v|
    ensures NormaliseVector(v, width)[i] == LowerChar(v[|v| - width + i])
  {
  }

  /** For any two values: symmetric, and zero exactly when they are equal, for values
      of one width, or else agree after extension to the wider one. */
  lemma HammingDistanceAgrees(a: string, b: string)
    ensures HammingDistance(a, b) == HammingDistance(b, a)
    ensures HammingDistance(a, b) == 0 <==>
            if |a| == |b| then a == b
            else NormaliseVector(a, Wider(a, b)) == NormaliseVector(b, Wider(a, b))
  {
    hide NormaliseVector;
    if |a| == |b| {
      DifferingIsMetric(a, b, a);
    } else {
      var x, y := NormaliseVector(a, Wider(a, b)), NormaliseVector(b, Wider(a, b));
      DifferingIsMetric(x, y, x);
    }
  }

  /** The number a digit string stands for. */
  function Binary(digits: string): nat {
    if digits == [] then 0 else 2 * Binary(digits[..|digits| - 1]) + (if digits[|digits| - 1] == '1' then 1 else 0)
  }

  predicate AllBinary(raw: string) {
    forall i :: 0 <= i < |raw| ==> raw[i] == '0' || raw[i] == '1'
  }

  /** The number of a value, or none if it is empty or has unknown digits. */
  function Number(raw: string): Option<nat> {
    if raw != "" && AllBinary(raw) then Some(Binary(raw)) else None
  }

  lemma {:induction false} LeadingZeros(n: nat, v: string)
    ensures Binary(Repeat('0', n) + v) == Binary(v)
    decreases n + |v|
  {
    var padded := Repeat('0', n) + v;
    if v != [] {
      assert padded[..|padded| - 1] == Repeat('0', n) + v[..|v| - 1];
      LeadingZeros(n, v[..|v| - 1]);
    } else if n > 0 {
      assert padded[..|padded| - 1] == Repeat('0', n - 1) + v;
      LeadingZeros(n - 1, v);
    } else {
      assert padded == v;
    }
  }

  lemma {:induction false} LastDigits(v: string, width: nat)
    requires width <= |v|
    ensures Binary(v[|v| - width..]) == Binary(v) % Pow2(width)
    decreases width
  {
    var tail := v[|v| - width..];
    if width == 0 {
      assert Pow2(0) == 1;
    } else {
      var front := v[..|v| - 1];
      assert tail[..width - 1] == front[|front| - (width - 1)..];
      LastDigits(front, width - 1);
      var p, d := Pow2(width - 1), if v[|v| - 1] == '1' then 1 else 0;
      DigitAppended(Binary(front), d, p);
    }
  }

  lemma DigitAppended(b: nat, d: nat, p: int)
    requires p > 0 && d < 2
    ensures (2 * b + d) % (2 * p) == 2 * (b % p) + d
  {
    var k, m := b / p, b % p;
    QuotientRemainder(b, p);
    ModRange(b, p);
    assert 2 * b + d == (2 * p) * k + (2 * m + d) by {
      assert (2 * p) * k == 2 * (p * k);
    }
    ModUniqueInt(2 * b + d, 2 * p, k, 2 * m + d);
  }

  lemma {:induction false} BinaryBelow(v: string)
    ensures Binary(v) < Pow2(|v|)
    decreases |v|
  {
    if v != [] {
      BinaryBelow(v[..|v| - 1]);
    }
  }

  /** Bit i of the number is the i-th digit from the right. */
  lemma {:induction false} BinaryDigit(v: string, i: nat)
    requires i < |v|
    ensures Binary(v) / Pow2(i) % 2 == if v[|v| - 1 - i] == '1' then 1 else 0
    decreases i
  {
    var front, d := v[..|v| - 1], if v[|v| - 1] == '1' then 1 else 0;
    var b := Binary(front);
    assert Binary(v) == 2 * b + d;
    if i == 0 {
      Pow2Zero();
      ModUniqueInt(2 * b + d, 2, b, d);
    } else {
      BinaryDigit(front, i - 1);
      Pow2Step(i - 1);
      hide Pow2, Binary;
      HalvedQuotient(b, d, Pow2(i - 1));
    }
  }

  lemma HalvedQuotient(b: nat, d: nat, p: int)
    requires p > 0 && d < 2
    ensures (2 * b + d) / (2 * p) == b / p
  {
    var k, m := b / p, b % p;
    QuotientRemainder(b, p);
    ModRange(b, p);
    assert (2 * p) * k == 2 * (p * k);
    ModUniqueInt(2 * b + d, 2 * p, k, 2 * m + d);
  }

  lemma BinaryIsLower(v: string)
    requires AllBinary(v)
    ensures Lower(v) == v
  {
  }

  lemma WidenKeepsNumber(v: string, width: nat)
    requires v != [] && AllBinary(v) && |v| < width
    ensures Binary(NormaliseVector(v, width)) == Binary(v) % Pow2(width)
    ensures AllBinary(NormaliseVector(v, width))
  {
    BinaryIsLower(v);
    LeadingZeros(width - |v|, v);
    BinaryBelow(v);
    Pow2Grows(|v|, width);
    hide Binary, Pow2;
    SmallMod(Binary(v), Pow2(width));
  }

  lemma CutKeepsLowBits(v: string, width: nat)
    requires AllBinary(v) && 0 < width <= |v|
    ensures Binary(NormaliseVector(v, width)) == Binary(v) % Pow2(width)
    ensures AllBinary(NormaliseVector(v, width))
  {
    BinaryIsLower(v);
    LastDigits(v, width);
    hide Binary, Pow2;
    assert v[0..] == v;
  }

  lemma NoWidthCutsNothing(v: string)
    requires v != [] && AllBinary(v)
    ensures NormaliseVector(v, 0) == v
  {
    BinaryIsLower(v);
  }

  /** Fitting a binary value to a declared width is reduction modulo 2^width exactly
      when the width is positive or the value is zero: at width 0 the cut keeps
      everything. */
  lemma NormaliseKeepsNumber(v: string, width: nat)
    requires v != [] && AllBinary(v)
    ensures AllBinary(NormaliseVector(v, width))
    ensures Binary(NormaliseVector(v, width)) == Binary(v) % Pow2(width) <==> width > 0 || Binary(v) == 0
  {
    hide NormaliseVector, Binary;
    if width == 0 {
      NoWidthCutsNothing(v);
      Pow2Zero();
      ModUniqueInt(Binary(v), 1, Binary(v), 0);
    } else if |v| < width {
      WidenKeepsNumber(v, width);
    } else {
      CutKeepsLowBits(v, width);
    }
  }
}
