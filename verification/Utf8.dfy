/** JavaScript strings (UTF-16 code units) and their UTF-8 encoding, RFC 3629. */
module Utf8 {
  import opened Wrappers

  type Unit = u: nat | u < 0x1_0000
  type Byte = b: nat | b < 0x100

  predicate IsSurrogate(c: nat) { 0xD800 <= c < 0xE000 }

  type Scalar = c: nat | c < 0x11_0000 && !IsSurrogate(c)

  predicate High(u: Unit) { 0xD800 <= u < 0xDC00 }

  predicate Low(u: Unit) { 0xDC00 <= u < 0xE000 }

  /** The string starts with a surrogate pair. */
  predicate Paired(units: seq<Unit>) {
    |units| > 1 && High(units[0]) && Low(units[1])
  }

  function Joined(high: nat, low: nat): (c: Scalar)
    requires 0xD800 <= high < 0xDC00 && 0xDC00 <= low < 0xE000
    ensures c >= 0x1_0000
  {
    var h: int, l: int := high - 0xD800, low - 0xDC00;
    0x1_0000 + h * 0x400 + l
  }

  /** How many units the first scalar value takes. */
  function Width(units: seq<Unit>): nat {
    if Paired(units) then 2 else 1
  }

  /** The first scalar value; a surrogate without its partner reads as U+FFFD. */
  function First(units: seq<Unit>): Scalar
    requires units != []
  {
    if Paired(units) then Joined(units[0], units[1])
    else if IsSurrogate(units[0]) then 0xFFFD
    else units[0]
  }

  function Scalars(units: seq<Unit>): seq<Scalar> {
    if units == [] then [] else [First(units)] + Scalars(units[Width(units)..])
  }

  function EncodeScalar(c: Scalar): (bs: seq<Byte>)
    ensures 1 <= |bs| <= 4
  {
    if c < 0x80 then [c]
    else
      var c1, d0 := c / 0x40, Trailing(c);
      if c < 0x800 then [0xC0 + c1, d0]
      else
        var c2, d1 := c1 / 0x40, Trailing(c1);
        if c < 0x1_0000 then [0xE0 + c2, d1, d0] else [0xF0 + c2 / 0x40, Trailing(c2), d1, d0]
  }

  /** A continuation byte carrying the low six bits of `n`. */
  function Trailing(n: nat): (b: Byte)
    ensures Tail(b) && n == n / 0x40 * 0x40 + Payload(b)
  {
    0x80 + n % 0x40
  }

  predicate Tail(b: Byte) { 0x80 <= b < 0xC0 }

  function Payload(b: Byte): (n: nat)
    requires Tail(b)
    ensures n < 0x40
  {
    var n: int := b; n - 0x80
  }

  function Encode(cs: seq<Scalar>): seq<Byte> {
    if cs == [] then [] else EncodeScalar(cs[0]) + Encode(cs[1..])
  }

  /** The bytes of a string. */
  function Bytes(units: seq<Unit>): seq<Byte> {
    Encode(Scalars(units))
  }

  // ----- Decoding, strictly -----

  /** The first encoded scalar value and its length; overlong forms, surrogates and
      truncated sequences are errors. */
  function DecodeFirst(bs: seq<Byte>): (r: Option<(Scalar, nat)>)
    requires bs != []
    ensures r.Some? ==> 1 <= r.value.1 <= |bs|
  {
    var b: int := bs[0];
    if b < 0x80 then Some((b, 1))
    else if 0xC2 <= b < 0xE0 && |bs| > 1 && Tail(bs[1]) then
      Some((Prefixed(b - 0xC0, bs[1]), 2))
    else if 0xE0 <= b < 0xF0 && |bs| > 2 && Tail(bs[1]) && Tail(bs[2]) then
      var c := Prefixed(Prefixed(b - 0xE0, bs[1]), bs[2]);
      if c < 0x800 || IsSurrogate(c) then None else Some((c, 3))
    else if 0xF0 <= b < 0xF5 && |bs| > 3 && Tail(bs[1]) && Tail(bs[2]) && Tail(bs[3]) then
      var c := Prefixed(Prefixed(Prefixed(b - 0xF0, bs[1]), bs[2]), bs[3]);
      if c < 0x1_0000 || 0x11_0000 <= c then None else Some((c, 4))
    else None
  }

  /** Six more bits after those read so far. */
  function Prefixed(n: nat, b: Byte): (c: nat)
    requires Tail(b)
    ensures c / 0x40 == n && Trailing(c) == b
  {
    n * 0x40 + Payload(b)
  }

  function Decode(bs: seq<Byte>): Option<seq<Scalar>> {
    if bs == [] then Some([])
    else match DecodeFirst(bs)
      case None => None
      case Some((c, n)) =>
        match Decode(bs[n..])
        case None => None
        case Some(rest) => Some([c] + rest)
  }

  function UnitsOf(c: Scalar): seq<Unit> {
    if c < 0x1_0000 then [c]
    else [0xD800 + (c - 0x1_0000) / 0x400, 0xDC00 + (c - 0x1_0000) % 0x400]
  }

  function ToUnits(cs: seq<Scalar>): seq<Unit> {
    if cs == [] then [] else UnitsOf(cs[0]) + ToUnits(cs[1..])
  }

  /** A decoder that refuses malformed bytes; the result is a JavaScript string. */
  function DecodeText(bs: seq<Byte>): Option<seq<Unit>> {
    match Decode(bs)
    case None => None
    case Some(cs) => Some(ToUnits(cs))
  }

  // ----- The two are inverse -----

  lemma DecodeFirstEncoded(c: Scalar, rest: seq<Byte>)
    ensures DecodeFirst(EncodeScalar(c) + rest) == Some((c, |EncodeScalar(c)|))
  {
    var bs := EncodeScalar(c) + rest;
    var c1 := c / 0x40;
    var c2 := c1 / 0x40;
    if c < 0x80 {
    } else if c < 0x800 {
      assert bs[0] == 0xC0 + c1 && bs[1] == Trailing(c);
    } else if c < 0x1_0000 {
      assert bs[0] == 0xE0 + c2 && bs[1] == Trailing(c1) && bs[2] == Trailing(c);
    } else {
      assert bs[0] == 0xF0 + c2 / 0x40 && bs[1] == Trailing(c2) && bs[2] == Trailing(c1) && bs[3] == Trailing(c);
    }
  }

  lemma {:induction false} DecodeEncode(cs: seq<Scalar>)
    ensures Decode(Encode(cs)) == Some(cs)
  {
    if cs != [] {
      var head, rest := EncodeScalar(cs[0]), Encode(cs[1..]);
      DecodeFirstEncoded(cs[0], rest);
      assert (head + rest)[|head|..] == rest;
      assert [cs[0]] + cs[1..] == cs;
      DecodeEncode(cs[1..]);
    }
  }

  lemma EncodeFirstDecoded(bs: seq<Byte>)
    requires bs != [] && DecodeFirst(bs).Some?
    ensures EncodeScalar(DecodeFirst(bs).value.0) == bs[..DecodeFirst(bs).value.1]
  {
  }

  /** The decoder accepts nothing but encodings, so each text has one encoding. */
  lemma {:induction false} EncodeDecode(bs: seq<Byte>)
    requires Decode(bs).Some?
    ensures Encode(Decode(bs).value) == bs
  {
    hide DecodeFirst, EncodeScalar;
    if bs != [] {
      var (c, n) := DecodeFirst(bs).value;
      EncodeFirstDecoded(bs);
      EncodeDecode(bs[n..]);
      var cs := Decode(bs[n..]).value;
      assert Decode(bs).value == [c] + cs && ([c] + cs)[1..] == cs;
      assert bs == bs[..n] + bs[n..];
    }
  }

  /** Every surrogate has its partner. */
  predicate WellFormed(units: seq<Unit>) {
    units == [] || ((Paired(units) || !IsSurrogate(units[0])) && WellFormed(units[Width(units)..]))
  }

  lemma FirstUnits(units: seq<Unit>)
    requires units != []
    ensures |UnitsOf(First(units))| == Width(units)
    ensures UnitsOf(First(units)) == units[..Width(units)] <==> Paired(units) || !IsSurrogate(units[0])
  {
    if Paired(units) {
      assert units[..2] == [units[0], units[1]];
    } else {
      assert units[..1] == [units[0]];
    }
  }

  lemma {:induction false} UnitsRestored(units: seq<Unit>)
    ensures |ToUnits(Scalars(units))| == |units|
    ensures ToUnits(Scalars(units)) == units <==> WellFormed(units)
  {
    if units != [] {
      var w, rest := Width(units), units[Width(units)..];
      FirstUnits(units);
      UnitsRestored(rest);
      assert ([First(units)] + Scalars(rest))[1..] == Scalars(rest);
      var back := ToUnits(Scalars(units));
      assert back == UnitsOf(First(units)) + ToUnits(Scalars(rest));
      assert back[..w] == UnitsOf(First(units)) && back[w..] == ToUnits(Scalars(rest));
      assert units == units[..w] + rest;
    }
  }

  /** A surrogate without its partner beside it. */
  predicate Lone(units: seq<Unit>, i: nat)
    requires i < |units|
  {
    && IsSurrogate(units[i])
    && !(High(units[i]) && i + 1 < |units| && Low(units[i + 1]))
    && !(Low(units[i]) && i > 0 && High(units[i - 1]))
  }

  lemma LoneShift(units: seq<Unit>, i: nat)
    requires units != [] && Width(units) <= i < |units|
    ensures Lone(units, i) == Lone(units[Width(units)..], i - Width(units))
  {
  }

  lemma LoneFirst(units: seq<Unit>, i: nat)
    requires units != [] && i < Width(units)
    ensures UnitsOf(First(units))[i] == if Lone(units, i) then 0xFFFD else units[i]
  {
    FirstUnits(units);
    assert Paired(units) ==> UnitsOf(First(units))[i] == units[..2][i];
  }

  /** Each lone surrogate comes back as U+FFFD, and every other unit as it was. */
  lemma {:induction false} RestoredAt(units: seq<Unit>, i: nat)
    requires i < |units|
    ensures |ToUnits(Scalars(units))| == |units|
    ensures ToUnits(Scalars(units))[i] == if Lone(units, i) then 0xFFFD else units[i]
    decreases units
  {
    UnitsRestored(units);
    var w, rest := Width(units), units[Width(units)..];
    FirstUnits(units);
    assert ([First(units)] + Scalars(rest))[1..] == Scalars(rest);
    var back := ToUnits(Scalars(units));
    assert back == UnitsOf(First(units)) + ToUnits(Scalars(rest));
    if i < w {
      LoneFirst(units, i);
    } else {
      RestoredAt(rest, i - w);
      LoneShift(units, i);
    }
  }

  /** The examples of section 7 of RFC 3629, "A", U+2262, U+0391, "." and U+233B4, the last
      as the surrogate pair it is in a string. */
  lemma RfcExamples()
    ensures EncodeScalar(0x41) == [0x41] && EncodeScalar(0x2262) == [0xE2, 0x89, 0xA2]
    ensures EncodeScalar(0x391) == [0xCE, 0x91] && EncodeScalar(0x233B4) == [0xF0, 0xA3, 0x8E, 0xB4]
    ensures Bytes([0xD84C, 0xDFB4]) == [0xF0, 0xA3, 0x8E, 0xB4]
  {
    var units: seq<Unit> := [0xD84C, 0xDFB4];
    assert First(units) == 0x233B4 && units[2..] == [];
    assert Scalars(units) == [0x233B4];
    var one: seq<Scalar> := [0x233B4];
    assert one[1..] == [] && Encode(one) == EncodeScalar(0x233B4) + [];
  }

  /** Sending a string and reading it back never fails, and gives the same string
      exactly when it has no lone surrogate. */
  lemma TextRoundTrip(units: seq<Unit>)
    ensures DecodeText(Bytes(units)).Some?
    ensures DecodeText(Bytes(units)) == Some(units) <==> WellFormed(units)
  {
    DecodeEncode(Scalars(units));
    UnitsRestored(units);
  }

  // ----- Sizes and prefixes -----

  lemma {:induction false} AtMostThreeBytesAUnit(units: seq<Unit>)
    ensures |Bytes(units)| <= 3 * |units|
  {
    if units != [] {
      var rest := units[Width(units)..];
      AtMostThreeBytesAUnit(rest);
      assert ([First(units)] + Scalars(rest))[1..] == Scalars(rest);
    }
  }

  /** And no smaller bound holds: for every length some string takes all of them. */
  lemma {:induction false} ThreeBytesAUnitNeeded(n: nat) returns (units: seq<Unit>)
    ensures |units| == n && |Bytes(units)| == 3 * n
  {
    if n == 0 {
      units := [];
    } else {
      var rest := ThreeBytesAUnitNeeded(n - 1);
      units := [0x20AC] + rest;
      assert units[1..] == rest;
      assert ([0x20AC] + Scalars(rest))[1..] == Scalars(rest);
    }
  }

  predicate Ascii(units: seq<Unit>) {
    forall i | 0 <= i < |units| :: units[i] < 0x80
  }

  lemma {:induction false} AsciiPrefix(prefix: seq<Unit>, rest: seq<Unit>)
    requires Ascii(prefix)
    ensures Bytes(prefix + rest) == prefix + Bytes(rest)
  {
    if prefix == [] {
      assert prefix + rest == rest;
    } else {
      var units := prefix + rest;
      assert units[1..] == prefix[1..] + rest;
      assert Width(units) == 1 && First(units) == prefix[0];
      AsciiPrefix(prefix[1..], rest);
      assert Scalars(units) == [prefix[0]] + Scalars(units[1..]);
      assert ([prefix[0]] + Scalars(units[1..]))[1..] == Scalars(units[1..]);
    }
  }

  // ----- Encoding into a bounded view -----

  /** Encode as many whole scalar values as fit into `room` bytes; also tell how many units were read. */
  function EncodeInto(units: seq<Unit>, room: nat): (r: (nat, seq<Byte>))
    ensures |r.1| <= room
  {
    if units == [] || |EncodeScalar(First(units))| > room then (0, [])
    else
      var head := EncodeScalar(First(units));
      var (read, written) := EncodeInto(units[Width(units)..], room - |head|);
      (Width(units) + read, head + written)
  }

  /** With enough room nothing is cut off. */
  lemma {:induction false} EncodeIntoComplete(units: seq<Unit>, room: nat)
    requires |Bytes(units)| <= room
    ensures EncodeInto(units, room) == (|units|, Bytes(units))
  {
    if units != [] {
      var rest := units[Width(units)..];
      assert ([First(units)] + Scalars(rest))[1..] == Scalars(rest);
      assert Bytes(units) == EncodeScalar(First(units)) + Bytes(rest);
      EncodeIntoComplete(rest, room - |EncodeScalar(First(units))|);
    }
  }
}
