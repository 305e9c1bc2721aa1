/** A random integer of a range, drawn byte by byte: the width of the range is cut into
    eight bytes, a number is drawn for each with the rounding of doubles, and the draws
    are put together again at their places. */
module RandomBigInt {
  const WORD: nat := 0x1_0000_0000_0000_0000

  /** The width of a range, in a 64-bit word. */
  function Width(min: int, max: int): nat { (max - min) % WORD }

  // ----- Bytes, lowest first -----

  function Value(bytes: seq<nat>): nat
    decreases bytes
  {
    if bytes == [] then 0 else bytes[0] + 256 * Value(bytes[1..])
  }

  function Pow(k: nat): nat { if k == 0 then 1 else 256 * Pow(k - 1) }

  /** The lowest `k` bytes of `n`, as a view of its buffer shows them. */
  function Bytes(n: nat, k: nat): (r: seq<nat>)
    ensures |r| == k && forall i | 0 <= i < k :: r[i] < 256
    decreases k
  {
    if k == 0 then [] else [n % 256] + Bytes(n / 256, k - 1)
  }

  lemma {:induction false} ValueOfBytes(n: nat, k: nat)
    requires n < Pow(k)
    ensures Value(Bytes(n, k)) == n
    decreases k
  {
    if k > 0 {
      assert n / 256 < Pow(k - 1);
      ValueOfBytes(n / 256, k - 1);
    }
  }

  lemma {:induction false} BytesOfValue(bytes: seq<nat>)
    requires forall i | 0 <= i < |bytes| :: bytes[i] < 256
    ensures Bytes(Value(bytes), |bytes|) == bytes && Value(bytes) < Pow(|bytes|)
    decreases bytes
  {
    if bytes != [] {
      var rest := Value(bytes[1..]);
      BytesOfValue(bytes[1..]);
      assert Value(bytes) == bytes[0] + 256 * rest;
      Parts(bytes[0], rest);
      assert Bytes(Value(bytes), |bytes|) == [bytes[0]] + Bytes(rest, |bytes| - 1);
      assert bytes == [bytes[0]] + bytes[1..];
    }
  }

  lemma Parts(low: nat, rest: nat)
    requires low < 256
    ensures (low + 256 * rest) % 256 == low && (low + 256 * rest) / 256 == rest
  {
  }

  /** No byte of `a` is over the byte of `b` at its place. */
  predicate Below(a: seq<nat>, b: seq<nat>) {
    |a| == |b| && forall i | 0 <= i < |a| :: a[i] <= b[i]
  }

  lemma {:induction false} BelowIsLess(a: seq<nat>, b: seq<nat>)
    requires Below(a, b)
    ensures Value(a) <= Value(b) && (Value(a) == Value(b) <==> a == b)
    decreases a
  {
    if a != [] {
      BelowIsLess(a[1..], b[1..]);
      assert a == [a[0]] + a[1..] && b == [b[0]] + b[1..];
    }
  }

  // ----- Drawing -----

  const PRECISION: int := 0x20_0000_0000_0000

  function Two(k: nat): int { if k == 0 then 1 else 2 * Two(k - 1) }

  /** A double of moderate size: at most 53 bits, over a power of two. */
  predicate IsQuotient(y: real, m: int, k: nat) {
    -PRECISION <= m <= PRECISION && k <= 1074 && y * Two(k) as real == m as real
  }

  ghost predicate IsDouble(y: real) { exists m, k :: IsQuotient(y, m, k) }

  function Distance(x: real, y: real): real { if x < y then y - x else x - y }

  /** What an operation gives for its exact result. */
  type Rounding = real -> real

  /** The result is a double, and none is nearer to the exact one. */
  ghost predicate RoundsToNearest(fl: Rounding) {
    && (forall x, y | IsDouble(y) :: Distance(fl(x), x) <= Distance(y, x))
    && (forall x | -1000.0 <= x <= 1000.0 :: IsDouble(fl(x)))
  }

  function Scaled(random: real, count: int): real { random * count as real }

  function RandomInt(fl: Rounding, random: real, min: int, max: int): int {
    fl(fl(Scaled(random, max - min + 1)) + min as real).Floor
  }

  /** The doubles from 0 up to the last one below 1. */
  ghost predicate IsRandom(random: real) {
    IsDouble(random) && 0.0 <= random <= 1.0 - 1.0 / PRECISION as real
  }

  lemma {:induction false} TwoAdd(a: nat, b: nat)
    ensures Two(a + b) == Two(a) * Two(b)
  {
    if a > 0 {
      TwoAdd(a - 1, b);
    }
  }

  lemma TwoPrecision()
    ensures Two(53) == PRECISION
  {
    assert Two(3) == 8 && Two(5) == 32;
    TwoAdd(5, 5);
    TwoAdd(10, 10);
    TwoAdd(20, 20);
    TwoAdd(40, 10);
    TwoAdd(50, 3);
  }

  lemma IntegerIsDouble(n: int)
    requires -PRECISION <= n <= PRECISION
    ensures IsDouble(n as real)
  {
    assert Two(0) == 1;
    assert IsQuotient(n as real, n, 0);
  }

  /** The power of two that a byte's count of values goes up to. */
  lemma PowerAbove(n: nat) returns (p: nat, e: nat)
    requires 1 <= n <= 256
    ensures e <= 8 && p == [1, 2, 4, 8, 16, 32, 64, 128, 256][e] && n <= p < 2 * n
  {
    e := if n == 1 then 0 else if n <= 2 then 1 else if n <= 4 then 2 else if n <= 8 then 3 else if n <= 16 then 4
         else if n <= 32 then 5 else if n <= 64 then 6 else if n <= 128 then 7 else 8;
    p := [1, 2, 4, 8, 16, 32, 64, 128, 256][e];
  }

  lemma TwosBelow()
    ensures Two(53) == PRECISION && Two(52) == 0x10_0000_0000_0000 && Two(51) == 0x8_0000_0000_0000
    ensures Two(50) == 0x4_0000_0000_0000 && Two(49) == 0x2_0000_0000_0000 && Two(48) == 0x1_0000_0000_0000
    ensures Two(47) == 0x8000_0000_0000 && Two(46) == 0x4000_0000_0000 && Two(45) == 0x2000_0000_0000
  {
    TwoPrecision();
    assert Two(53) == 2 * Two(52);
    assert Two(52) == 2 * Two(51);
    assert Two(51) == 2 * Two(50);
    assert Two(50) == 2 * Two(49);
    assert Two(49) == 2 * Two(48);
    assert Two(48) == 2 * Two(47);
    assert Two(47) == 2 * Two(46);
    assert Two(46) == 2 * Two(45);
  }

  /** The double just below a small integer. */
  lemma DoubleBelow(n: nat, p: nat, e: nat)
    requires e <= 8 && 1 <= n <= p && p == [1, 2, 4, 8, 16, 32, 64, 128, 256][e]
    ensures IsDouble(n as real - p as real / PRECISION as real)
  {
    TwosBelow();
    hide Two;
    var y := n as real - p as real / PRECISION as real;
    if e == 0 { assert IsQuotient(y, n * 0x20_0000_0000_0000 - 1, 53); }
    if e == 1 { assert IsQuotient(y, n * 0x10_0000_0000_0000 - 1, 52); }
    if e == 2 { assert IsQuotient(y, n * 0x8_0000_0000_0000 - 1, 51); }
    if e == 3 { assert IsQuotient(y, n * 0x4_0000_0000_0000 - 1, 50); }
    if e == 4 { assert IsQuotient(y, n * 0x2_0000_0000_0000 - 1, 49); }
    if e == 5 { assert IsQuotient(y, n * 0x1_0000_0000_0000 - 1, 48); }
    if e == 6 { assert IsQuotient(y, n * 0x8000_0000_0000 - 1, 47); }
    if e == 7 { assert IsQuotient(y, n * 0x4000_0000_0000 - 1, 46); }
    if e == 8 { assert IsQuotient(y, n * 0x2000_0000_0000 - 1, 45); }
  }

  /** The product of a draw, before rounding. */
  lemma ExactProduct(random: real, n: nat)
    requires 0.0 <= random <= 1.0 - 1.0 / PRECISION as real && 1 <= n <= 256
    ensures 0.0 <= Scaled(random, n) <= n as real - n as real / PRECISION as real
  {
    var last := 1.0 - 1.0 / PRECISION as real;
    RealOrder(0.0, random, n as real);
    RealOrder(random, last, n as real);
    assert last * n as real == n as real - n as real / PRECISION as real;
  }

  lemma RealOrder(a: real, b: real, k: real)
    requires a <= b && k >= 0.0
    ensures a * k <= b * k
  {
    assert (b - a) * k >= 0.0;
    assert (b - a) * k == b * k - a * k;
  }

  lemma NearerBelow(x: real, n: nat, p: nat)
    requires 0.0 <= x <= n as real - n as real / PRECISION as real && n <= p < 2 * n
    ensures Distance(n as real - p as real / PRECISION as real, x) < n as real - x
  {
  }

  /** Rounding never lifts the product of a draw to the next integer. */
  lemma ProductBelow(fl: Rounding, random: real, n: nat)
    requires RoundsToNearest(fl) && IsRandom(random) && 1 <= n <= 256
    ensures 0.0 <= Scaled(random, n) <= 256.0
    ensures 0.0 <= fl(Scaled(random, n)) < n as real
  {
    ExactProduct(random, n);
    var x := Scaled(random, n);
    var p, e := PowerAbove(n);
    var y := n as real - p as real / PRECISION as real;
    DoubleBelow(n, p, e);
    NearerBelow(x, n, p);
    IntegerIsDouble(0);
    hide IsDouble;
    assert Distance(fl(x), x) <= Distance(y, x);
    assert Distance(fl(x), x) <= Distance(0.0, x);
  }

  /** Adding nothing to a rounded value rounds it no more. */
  lemma RoundedOnce(fl: Rounding, x: real)
    requires RoundsToNearest(fl) && 0.0 <= x <= 256.0
    ensures fl(fl(x) + 0 as real) == fl(x)
  {
    hide IsDouble;
    var d := fl(x);
    assert IsDouble(d);
    assert Distance(fl(d), d) <= Distance(d, d);
    assert d + 0 as real == d;
  }

  /** A draw for a byte stays within it, with the rounding of doubles. */
  lemma RandomIntRange(fl: Rounding, random: real, max: nat)
    requires RoundsToNearest(fl) && IsRandom(random) && max < 256
    ensures 0 <= RandomInt(fl, random, 0, max) <= max
  {
    hide RoundsToNearest, IsRandom;
    ProductBelow(fl, random, max + 1);
    RoundedOnce(fl, Scaled(random, max + 1));
    OneRounding(fl, random, max);
    FloorBelow(fl(Scaled(random, max + 1)), max);
  }

  lemma FloorBelow(x: real, max: nat)
    requires 0.0 <= x < (max + 1) as real
    ensures 0 <= x.Floor <= max
  {
  }

  lemma OneRounding(fl: Rounding, random: real, max: nat)
    requires var d := fl(Scaled(random, max + 1)); fl(d + 0 as real) == d
    ensures RandomInt(fl, random, 0, max) == fl(Scaled(random, max + 1)).Floor
  {
    hide Scaled;
    assert max - 0 + 1 == max + 1;
  }

  /** The first draw whose exact product reaches `n`. */
  lemma DrawFor(count: nat, n: nat) returns (random: real)
    requires n < count <= 256
    ensures IsRandom(random)
    ensures n as real <= Scaled(random, count) < n as real + 0.5
  {
    var c := FirstMultiple(count, n);
    random := c as real / PRECISION as real;
    TwoPrecision();
    hide Two;
    assert IsQuotient(random, c, 53);
    var exact := c * count;
    assert Scaled(random, count) == exact as real / PRECISION as real by {
      Product(c, count);
    }
  }

  lemma Product(a: int, b: int)
    ensures (a * b) as real == a as real * b as real
  {
  }

  lemma LessFactor(a: int, b: int, k: nat)
    requires a * k < b * k
    ensures a < b
  {
    if a >= b {
      MoreFactor(a, b, k);
    }
  }

  lemma MoreFactor(a: int, b: int, k: nat)
    requires a >= b
    ensures a * k >= b * k
  {
    assert (a - b) * k >= 0;
  }

  lemma FirstMultiple(count: nat, n: nat) returns (c: nat)
    requires n < count <= 256
    ensures c < PRECISION && n * PRECISION <= c * count < n * PRECISION + count
  {
    var top := n * PRECISION + count - 1;
    c := top / count;
    assert top < count * PRECISION;
    LessFactor(c, PRECISION, count);
  }

  /** And reaches every integer of it. */
  lemma RandomIntReaches(fl: Rounding, max: nat, n: nat) returns (random: real)
    requires RoundsToNearest(fl) && n <= max < 256
    ensures IsRandom(random) && RandomInt(fl, random, 0, max) == n
  {
    random := DrawFor(max + 1, n);
    hide IsRandom, RoundsToNearest;
    ReachedRounded(fl, Scaled(random, max + 1), n);
    OneRounding(fl, random, max);
  }

  lemma ReachedRounded(fl: Rounding, x: real, n: nat)
    requires RoundsToNearest(fl) && n < 256 && n as real <= x < n as real + 0.5
    ensures fl(x).Floor == n && fl(fl(x) + 0 as real) == fl(x)
  {
    RoundedOnce(fl, x);
    IntegerIsDouble(n);
    hide IsDouble;
    assert Distance(fl(x), x) <= Distance(n as real, x);
    assert n as real <= fl(x) < n as real + 1.0;
  }

  /** One number drawn for each byte; a zero byte is passed over. */
  function Drawn(fl: Rounding, bytes: seq<nat>, randoms: seq<real>): (r: seq<int>)
    requires |randoms| == |bytes|
    ensures |r| == |bytes|
  {
    seq(|bytes|, i requires 0 <= i < |bytes| => if bytes[i] == 0 then 0 else RandomInt(fl, randoms[i], 0, bytes[i]))
  }

  ghost predicate Random(randoms: seq<real>) { |randoms| == 8 && forall i | 0 <= i < 8 :: IsRandom(randoms[i]) }

  /** The bytes that the draws leave. */
  lemma DrawnBelow(fl: Rounding, bytes: seq<nat>, randoms: seq<real>) returns (drawn: seq<nat>)
    requires RoundsToNearest(fl) && forall i | 0 <= i < |bytes| :: bytes[i] < 256
    requires |randoms| == |bytes| && forall i | 0 <= i < |randoms| :: IsRandom(randoms[i])
    ensures Drawn(fl, bytes, randoms) == drawn && Below(drawn, bytes)
  {
    forall i | 0 <= i < |bytes| ensures 0 <= Drawn(fl, bytes, randoms)[i] <= bytes[i] {
      RandomIntRange(fl, randoms[i], bytes[i]);
    }
    drawn := seq(|bytes|, i requires 0 <= i < |bytes| => Drawn(fl, bytes, randoms)[i] as nat);
  }

  lemma {:induction false} DrawsReach(fl: Rounding, drawn: seq<nat>, bytes: seq<nat>) returns (randoms: seq<real>)
    requires RoundsToNearest(fl) && Below(drawn, bytes) && forall i | 0 <= i < |bytes| :: bytes[i] < 256
    ensures |randoms| == |bytes| && (forall i | 0 <= i < |randoms| :: IsRandom(randoms[i]))
    ensures Drawn(fl, bytes, randoms) == drawn
    decreases bytes
  {
    hide RoundsToNearest, IsRandom, RandomInt;
    if bytes == [] {
      randoms := [];
    } else {
      var first := RandomIntReaches(fl, bytes[0], drawn[0]);
      var rest := DrawsReach(fl, drawn[1..], bytes[1..]);
      randoms := [first] + rest;
      DrawnFirst(fl, bytes, first, rest);
      assert drawn == [drawn[0]] + drawn[1..];
    }
  }

  lemma DrawnFirst(fl: Rounding, bytes: seq<nat>, first: real, rest: seq<real>)
    requires bytes != [] && |rest| == |bytes| - 1
    ensures Drawn(fl, bytes, [first] + rest)
         == [if bytes[0] == 0 then 0 else RandomInt(fl, first, 0, bytes[0])] + Drawn(fl, bytes[1..], rest)
  {
    hide RandomInt;
  }

  function Sum(drawn: seq<int>): int
    decreases drawn
  {
    if drawn == [] then 0 else Sum(drawn[..|drawn| - 1]) + drawn[|drawn| - 1] * Pow(|drawn| - 1)
  }

  /** The reduction over the bytes of `max - min`, kept to 64 bits. */
  method GenerateRandomBigInt(fl: Rounding, min: int, max: int, randoms: seq<real>) returns (r: int)
    requires |randoms| == 8
    ensures r == Generated(fl, min, max, randoms)
  {
    hide Drawn, RandomInt, Sum, Pow, Bytes, Width;
    var bytes := Bytes(Width(min, max), 8);
    ghost var drawn := Drawn(fl, bytes, randoms);
    var acc := 0;
    var i := 0;
    SumNothing();
    assert drawn[..0] == [];
    while i < |bytes|
      invariant 0 <= i <= 8
      invariant acc == Sum(drawn[..i])
    {
      var cur := bytes[i];
      DrawnAt(fl, bytes, randoms, i);
      SumNext(drawn, i);
      if cur != 0 {
        acc := acc + RandomInt(fl, randoms[i], 0, cur) * Pow(i);
      }
      i := i + 1;
    }
    assert drawn[..8] == drawn;
    r := acc + min;
  }

  lemma SumNothing()
    ensures Sum([]) == 0
  {
  }

  lemma DrawnAt(fl: Rounding, bytes: seq<nat>, randoms: seq<real>, i: nat)
    requires |randoms| == |bytes| && i < |bytes|
    ensures Drawn(fl, bytes, randoms)[i] == if bytes[i] == 0 then 0 else RandomInt(fl, randoms[i], 0, bytes[i])
  {
    hide RandomInt;
  }

  lemma SumNext(drawn: seq<int>, i: nat)
    requires i < |drawn|
    ensures Sum(drawn[..i + 1]) == Sum(drawn[..i]) + drawn[i] * Pow(i)
    ensures drawn[i] == 0 ==> Sum(drawn[..i + 1]) == Sum(drawn[..i])
  {
    assert drawn[..i + 1][..i] == drawn[..i];
  }

  function Generated(fl: Rounding, min: int, max: int, randoms: seq<real>): int
    requires |randoms| == 8
  {
    Sum(Drawn(fl, Bytes(Width(min, max), 8), randoms)) + min
  }

  lemma {:induction false} SumIsValue(drawn: seq<nat>)
    ensures Sum(drawn) == Value(drawn)
    decreases drawn
  {
    if drawn != [] {
      var last := |drawn| - 1;
      SumIsValue(drawn[..last]);
      ValueSnoc(drawn[..last], drawn[last]);
      assert drawn == drawn[..last] + [drawn[last]];
    }
  }

  lemma {:induction false} ValueSnoc(bytes: seq<nat>, high: nat)
    ensures Value(bytes + [high]) == Value(bytes) + high * Pow(|bytes|)
    decreases bytes
  {
    if bytes == [] {
      assert Value([high]) == high + 256 * Value([]);
    } else {
      ValueSnoc(bytes[1..], high);
      assert (bytes + [high])[1..] == bytes[1..] + [high];
      Scale(high, Pow(|bytes| - 1));
    }
  }

  lemma Scale(a: nat, p: nat)
    ensures 256 * (a * p) == a * (256 * p)
  {
  }

  lemma Pow8()
    ensures Pow(8) == WORD
  {
    assert Pow(2) == 0x1_0000;
    assert Pow(4) == 0x1_0000_0000;
    assert Pow(6) == 0x1_0000_0000_0000;
  }

  // ----- What can be drawn -----

  ghost predicate Reachable(fl: Rounding, min: int, max: int, v: int) {
    exists randoms :: Random(randoms) && Generated(fl, min, max, randoms) == v
  }

  /** The distance fits in 64 bits and has no byte over that of the width. */
  predicate Possible(bytes: seq<nat>, distance: int) {
    0 <= distance < WORD && Below(Bytes(distance, 8), bytes)
  }

  lemma DrawnIsPossible(fl: Rounding, bytes: seq<nat>, randoms: seq<real>)
    requires RoundsToNearest(fl) && |bytes| == 8 && Random(randoms) && forall i | 0 <= i < 8 :: bytes[i] < 256
    ensures Possible(bytes, Sum(Drawn(fl, bytes, randoms)))
  {
    var drawn := DrawnBelow(fl, bytes, randoms);
    hide Pow, Bytes, Value, Drawn, Sum;
    Pow8();
    SumIsValue(drawn);
    BytesOfValue(drawn);
  }

  lemma PossibleIsDrawn(fl: Rounding, bytes: seq<nat>, distance: nat) returns (randoms: seq<real>)
    requires RoundsToNearest(fl) && |bytes| == 8 && Possible(bytes, distance) && forall i | 0 <= i < 8 :: bytes[i] < 256
    ensures Random(randoms) && Sum(Drawn(fl, bytes, randoms)) == distance
  {
    hide Pow, Value, Drawn, Sum;
    Pow8();
    var drawn := Bytes(distance, 8);
    randoms := DrawsReach(fl, drawn, bytes);
    SumIsValue(drawn);
    ValueOfBytes(distance, 8);
  }

  /** A value comes out for some draws exactly when its distance from `min` is
      possible for the bytes of the width. */
  lemma ReachableIff(fl: Rounding, min: int, max: int, v: int)
    requires RoundsToNearest(fl)
    ensures Reachable(fl, min, max, v)
       <==> Possible(Bytes(Width(min, max), 8), v - min)
  {
    hide Pow, Bytes, Below, Drawn, Sum, Width;
    var bytes := Bytes(Width(min, max), 8);
    if Possible(bytes, v - min) {
      var randoms := PossibleIsDrawn(fl, bytes, v - min);
      assert Generated(fl, min, max, randoms) == v;
    }
    forall randoms | Random(randoms) && Generated(fl, min, max, randoms) == v ensures Possible(bytes, v - min) {
      DrawnIsPossible(fl, bytes, randoms);
    }
  }

  /** Every draw stays in the range, whose width may be wrapped. */
  lemma InRange(fl: Rounding, min: int, max: int, v: int)
    requires RoundsToNearest(fl) && Reachable(fl, min, max, v)
    ensures min <= v <= min + Width(min, max)
    ensures min <= max ==> v <= max
  {
    hide Pow, Bytes, Value, Below, Reachable;
    Pow8();
    ReachableIff(fl, min, max, v);
    ValueOfBytes(v - min, 8);
    ValueOfBytes(Width(min, max), 8);
    BelowIsLess(Bytes(v - min, 8), Bytes(Width(min, max), 8));
    WrapsDown(max - min);
  }

  lemma WrapsDown(n: int)
    ensures n >= 0 ==> n % WORD <= n
    ensures n % WORD == n <==> 0 <= n < WORD
  {
  }

  lemma EndsReachable(fl: Rounding, min: int, max: int)
    requires RoundsToNearest(fl)
    ensures Reachable(fl, min, max, min)
    ensures Reachable(fl, min, max, max) <==> 0 <= max - min < WORD
  {
    ReachableIff(fl, min, max, min);
    ReachableIff(fl, min, max, max);
    hide Reachable, RoundsToNearest, Possible;
    EndsPossible(min, max);
  }

  lemma EndsPossible(min: int, max: int)
    ensures Possible(Bytes(Width(min, max), 8), 0)
    ensures Possible(Bytes(Width(min, max), 8), max - min) <==> 0 <= max - min < WORD
  {
    hide Bytes;
    Zeros(8);
    WrapsDown(max - min);
  }

  lemma {:induction false} Zeros(k: nat)
    ensures forall i | 0 <= i < k :: Bytes(0, k)[i] == 0
    decreases k
  {
    if k > 0 {
      Zeros(k - 1);
    }
  }

  // ----- When nothing in the range is missed -----

  /** All bytes but the highest are full. */
  predicate Solid(n: nat) {
    n < 256 || (n % 256 == 255 && Solid(n / 256))
  }

  predicate IsRound(n: nat, c: nat, k: nat) { 1 <= c <= 256 && n == c * Pow(k) }

  /** At most 256 times a power of 256. */
  ghost predicate Round(n: nat) { exists c, k :: IsRound(n, c, k) }

  lemma {:induction false} SolidBelow(n: nat, v: nat, k: nat)
    requires Solid(n) && v <= n < Pow(k)
    ensures Below(Bytes(v, k), Bytes(n, k))
    decreases k
  {
    if k > 0 {
      if n < 256 {
        Zeros(k - 1);
        assert v / 256 == 0 && n / 256 == 0;
      } else {
        SolidBelow(n / 256, v / 256, k - 1);
      }
    }
  }

  lemma ByteUp(high: nat, low: nat, k: nat, i: nat)
    requires low < 256 && i + 1 < k
    ensures Bytes(256 * high + low, k)[i + 1] == Bytes(high, k - 1)[i]
  {
    assert (256 * high + low) / 256 == high;
  }

  /** A number under `n` that no draw gives. */
  lemma {:induction false} MissedValue(n: nat, k: nat) returns (v: nat)
    requires !Solid(n) && n < Pow(k)
    ensures v <= n && !Below(Bytes(v, k), Bytes(n, k))
    decreases k
  {
    if n % 256 != 255 {
      v := 256 * (n / 256 - 1) + 255;
      assert Bytes(v, k)[0] == 255 && Bytes(n, k)[0] == n % 256;
    } else {
      var w := MissedValue(n / 256, k - 1);
      v := 256 * w;
      var i :| 0 <= i < k - 1 && Bytes(w, k - 1)[i] > Bytes(n / 256, k - 1)[i];
      ByteUp(w, 0, k, i);
      ByteUp(n / 256, n % 256, k, i);
      assert Bytes(v, k)[i + 1] > Bytes(n, k)[i + 1];
    }
  }

  /** Everything between the ends comes out exactly when the number of values is one
      byte's worth times a power of 256. */
  lemma AllReachableIff(fl: Rounding, min: int, max: int)
    requires RoundsToNearest(fl) && 0 <= max - min < WORD
    ensures (forall v | min <= v <= max :: Reachable(fl, min, max, v))
       <==> Round(max - min + 1)
  {
    hide Pow, Bytes, Value, Below, Reachable, Solid, Round;
    Pow8();
    var n: nat := max - min;
    WrapsDown(n);
    SolidIff(n);
    if Solid(n) {
      forall v | min <= v <= max ensures Reachable(fl, min, max, v) {
        SolidBelow(n, v - min, 8);
        ReachableIff(fl, min, max, v);
      }
    } else {
      var missed := MissedValue(n, 8);
      ReachableIff(fl, min, max, min + missed);
      assert !Reachable(fl, min, max, min + missed);
    }
  }

  lemma SolidIff(n: nat)
    ensures Solid(n) <==> Round(n + 1)
    decreases n
  {
    if Solid(n) {
      var c, k := SolidShape(n);
      assert IsRound(n + 1, c, k);
    }
    if Round(n + 1) {
      var next := n + 1;
      var c, k :| IsRound(next, c, k);
      ShapeSolid(n, c, k);
    }
  }

  lemma {:induction false} SolidShape(n: nat) returns (c: nat, k: nat)
    requires Solid(n)
    ensures IsRound(n + 1, c, k)
    decreases n
  {
    if n < 256 {
      c, k := n + 1, 0;
    } else {
      c, k := SolidShape(n / 256);
      Scale(c, Pow(k));
      k := k + 1;
    }
  }

  lemma {:induction false} ShapeSolid(n: nat, c: nat, k: nat)
    requires IsRound(n + 1, c, k)
    ensures Solid(n)
    decreases k
  {
    if k > 0 {
      Scale(c, Pow(k - 1));
      var m := c * Pow(k - 1);
      assert n + 1 == 256 * m;
      assert n == 256 * (m - 1) + 255;
      ShapeSolid(m - 1, c, k - 1);
    }
  }
}
