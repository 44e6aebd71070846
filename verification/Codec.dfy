/** The byte level of the binary dump format: 7-bit integers and escaped bytes. */
module Codec {

  type Byte = x: nat | x < 256

  /** The number of values of a machine word (`usize`). */
  const WORD: nat := 0x1_0000_0000_0000_0000

  datatype Result<T> = Ok(value: T, rest: seq<Byte>) | Err

  // --- Escaping --------------------------------------------------------------

  function Escape(b: Byte): (r: seq<Byte>)
    ensures |r| > 0
  {
    if b == 0x00 then [0x00, 0x00]
    else if b == 0x0a then [0x00, 0x01]
    else if b == 0x0d then [0x00, 0x02]
    else if b == 0x1a then [0x00, 0x03]
    else [b]
  }

  function EscapeAll(bs: seq<Byte>): seq<Byte> {
    if bs == [] then [] else Escape(bs[0]) + EscapeAll(bs[1..])
  }

  /** Read one byte, undoing the escaping. */
  function ReadUnescape(input: seq<Byte>): (r: Result<Byte>)
    ensures r.Ok? ==> |r.rest| < |input|
  {
    if input == [] then Err
    else if input[0] != 0 then Ok(input[0], input[1..])
    else if |input| == 1 then Err
    else if input[1] == 0x00 then Ok(0x00, input[2..])
    else if input[1] == 0x01 then Ok(0x0a, input[2..])
    else if input[1] == 0x02 then Ok(0x0d, input[2..])
    else if input[1] == 0x03 then Ok(0x1a, input[2..])
    else Err
  }

  lemma UnescapeEscape(b: Byte, rest: seq<Byte>)
    ensures ReadUnescape(Escape(b) + rest) == Ok(b, rest)
  {
    var s := Escape(b) + rest;
    if |Escape(b)| == 1 {
      assert s[1..] == rest;
    } else {
      assert s[2..] == rest;
    }
  }

  /** The bytes that the format escapes: the k-th of them is written as zero and k, and every
      other byte as itself. */
  const ESCAPED: seq<Byte> := [0x00, 0x0a, 0x0d, 0x1a]

  lemma EscapeTable(b: Byte)
    ensures b !in ESCAPED ==> Escape(b) == [b]
    ensures forall k :: 0 <= k < |ESCAPED| ==> Escape(ESCAPED[k]) == [0, k]
  {
  }

  /** No escaped byte string contains a line feed, carriage return or substitute byte. */
  lemma {:induction false} EscapedIsText(bs: seq<Byte>)
    ensures forall i :: 0 <= i < |EscapeAll(bs)| ==> EscapeAll(bs)[i] !in {0x0a, 0x0d, 0x1a}
  {
    if bs != [] {
      EscapedIsText(bs[1..]);
    }
  }

  lemma {:induction false} EscapeAllAppend(a: seq<Byte>, b: seq<Byte>)
    ensures EscapeAll(a + b) == EscapeAll(a) + EscapeAll(b)
  {
    hide Escape;
    if a == [] {
      assert a + b == b;
    } else {
      EscapeAllAppend(a[1..], b);
      assert (a + b)[1..] == a[1..] + b && (a + b)[0] == a[0];
      assert Escape(a[0]) + (EscapeAll(a[1..]) + EscapeAll(b)) == Escape(a[0]) + EscapeAll(a[1..]) + EscapeAll(b);
    }
  }

  // --- 7-bit integers --------------------------------------------------------

  /** The leading digits, each with the continuation bit. */
  function Leading(v: nat): (r: seq<Byte>)
  {
    if v == 0 then [] else Leading(v / 128) + [v % 128 * 2 + 1]
  }

  /** Base-128 digits of `v`, most significant first; all but the last have the
      continuation bit. */
  function Encoded(v: nat): (r: seq<Byte>) {
    Leading(v / 128) + [v % 128 * 2]
  }

  /** The number that the upper seven bits of the bytes spell, most significant first. */
  function Spelled(bs: seq<Byte>): nat {
    if bs == [] then 0 else Spelled(bs[..|bs| - 1]) * 128 + bs[|bs| - 1] / 2
  }

  /** The format of a number: the lowest bit tells whether another byte follows, and there
      are no leading zeros. */
  predicate NumberFormat(bs: seq<Byte>) {
    && bs != [] && bs[|bs| - 1] % 2 == 0 && (forall i :: 0 <= i < |bs| - 1 ==> bs[i] % 2 == 1)
    && (|bs| > 1 ==> bs[0] / 2 > 0)
  }

  predicate LeadingFormat(bs: seq<Byte>) {
    (forall i :: 0 <= i < |bs| ==> bs[i] % 2 == 1) && (|bs| > 0 ==> bs[0] / 2 > 0)
  }

  lemma {:induction false} LeadingSpells(v: nat)
    ensures LeadingFormat(Leading(v)) && Spelled(Leading(v)) == v && (v > 0 ==> Leading(v) != [])
  {
    if v > 0 {
      LeadingSpells(v / 128);
      assert Leading(v)[..|Leading(v)| - 1] == Leading(v / 128);
    }
  }

  lemma {:induction false} LeadingUnique(bs: seq<Byte>)
    requires LeadingFormat(bs)
    ensures bs == Leading(Spelled(bs)) && (bs != [] ==> Spelled(bs) > 0)
  {
    if bs != [] {
      hide Leading, Spelled;
      var n := |bs| - 1;
      LeadingUnique(bs[..n]);
      LastDigit(bs);
      assert bs == bs[..n] + [bs[n]] && bs[n] == bs[n] / 2 * 2 + 1;
      OneMoreDigit(Spelled(bs));
    }
  }

  lemma OneMoreDigit(v: nat)
    requires v > 0
    ensures Leading(v) == Leading(v / 128) + [v % 128 * 2 + 1]
  {
  }

  /** The encoding of a number is the only byte string in the format that spells it. */
  lemma EncodedFormat(v: nat, bs: seq<Byte>)
    ensures NumberFormat(bs) && Spelled(bs) == v <==> bs == Encoded(v)
  {
    hide Leading, Spelled;
    LeadingSpells(v / 128);
    var x := Encoded(v);
    assert x[..|x| - 1] == Leading(v / 128);
    LastDigit(x);
    if NumberFormat(bs) && Spelled(bs) == v {
      var n := |bs| - 1;
      LeadingUnique(bs[..n]);
      LastDigit(bs);
      assert bs == bs[..n] + [bs[n]];
    }
  }

  lemma LastDigit(bs: seq<Byte>)
    requires bs != []
    ensures Spelled(bs) / 128 == Spelled(bs[..|bs| - 1]) && Spelled(bs) % 128 == bs[|bs| - 1] / 2
  {
  }

  /** Shift the digits of one more byte in; what no longer fits into a word is lost. */
  function ShiftIn(acc: nat, b: Byte): nat {
    acc * 128 % WORD + b / 2
  }

  /** Decode from `input`, continuing with the digits `acc` read so far. */
  function DecodeFrom(input: seq<Byte>, acc: nat): (r: Result<nat>)
    ensures r.Ok? ==> |r.rest| < |input|
    decreases |input|
  {
    match ReadUnescape(input)
    case Err => Err
    case Ok(b, rest) => if b % 2 == 0 then Ok(ShiftIn(acc, b), rest) else DecodeFrom(rest, ShiftIn(acc, b))
  }

  lemma WordShift(v: nat, d: nat)
    requires d < 128
    ensures (v % WORD) * 128 % WORD + d == (v * 128 + d) % WORD
  {
    var q, r := v / WORD, v % WORD;
    var w := WORD / 128;
    assert v * 128 + d == q * 128 * WORD + (r * 128 + d);
    assert WORD == 128 * w;
    assert (r * 128) % WORD == (r % w) * 128;
    assert (r * 128 + d) % WORD == (r % w) * 128 + d;
  }

  lemma DecodeByte(acc: nat, b: Byte, rest: seq<Byte>)
    ensures DecodeFrom(Escape(b) + rest, acc)
         == if b % 2 == 0 then Ok(ShiftIn(acc, b), rest) else DecodeFrom(rest, ShiftIn(acc, b))
  {
    hide Escape, ReadUnescape;
    UnescapeEscape(b, rest);
  }

  lemma ShiftInDigit(v: nat, b: Byte)
    requires b / 2 == v % 128
    ensures ShiftIn(v / 128 % WORD, b) == v % WORD
  {
    WordShift(v / 128, v % 128);
  }

  lemma EscapeOneMore(bs: seq<Byte>, b: Byte, rest: seq<Byte>)
    ensures EscapeAll(bs + [b]) + rest == EscapeAll(bs) + (Escape(b) + rest)
  {
    hide Escape;
    EscapeAllAppend(bs, [b]);
    assert EscapeAll([b]) == Escape(b) + EscapeAll([]) == Escape(b);
  }

  /** Reading the leading digits of `v` leaves the decoder with `v`, modulo the word size. */
  lemma {:induction false} DecodeLeading(v: nat, rest: seq<Byte>)
    ensures DecodeFrom(EscapeAll(Leading(v)) + rest, 0) == DecodeFrom(rest, v % WORD)
  {
    hide DecodeFrom, Escape, ShiftIn;
    if v == 0 {
      assert EscapeAll(Leading(v)) + rest == rest;
    } else {
      var d: Byte := v % 128 * 2 + 1;
      EscapeOneMore(Leading(v / 128), d, rest);
      DecodeLeading(v / 128, Escape(d) + rest);
      DecodeByte(v / 128 % WORD, d, rest);
      ShiftInDigit(v, d);
    }
  }

  /** Decoding an encoded integer yields it modulo the word size and consumes exactly
      its bytes. An integer that is too large is never reported. */
  lemma DecodeEncoded(v: nat, rest: seq<Byte>)
    ensures DecodeFrom(EscapeAll(Encoded(v)) + rest, 0) == Ok(v % WORD, rest)
    ensures DecodeFrom(EscapeAll(Encoded(v)) + rest, 0) == Ok(v, rest) <==> v < WORD
  {
    hide DecodeFrom, Escape, ShiftIn, EscapeAll;
    var d: Byte := v % 128 * 2;
    EscapeOneMore(Leading(v / 128), d, rest);
    DecodeLeading(v / 128, Escape(d) + rest);
    DecodeByte(v / 128 % WORD, d, rest);
    ShiftInDigit(v, d);
  }

  // --- Streams of integers ---------------------------------------------------

  function EncodeList(vs: seq<nat>): seq<Byte> {
    if vs == [] then [] else EscapeAll(Encoded(vs[0])) + EncodeList(vs[1..])
  }

  function DecodeList(n: nat, input: seq<Byte>): Result<seq<nat>> {
    if n == 0 then Ok([], input)
    else
      match DecodeFrom(input, 0)
      case Err => Err
      case Ok(v, rest) =>
        match DecodeList(n - 1, rest)
        case Err => Err
        case Ok(vs, rest') => Ok([v] + vs, rest')
  }

  /** The encoding is self-delimiting: a stream of machine integers decodes to itself. */
  lemma {:induction false} DecodeEncodedList(vs: seq<nat>, rest: seq<Byte>)
    requires forall i :: 0 <= i < |vs| ==> vs[i] < WORD
    ensures DecodeList(|vs|, EncodeList(vs) + rest) == Ok(vs, rest)
  {
    hide DecodeFrom, EscapeAll, Encoded;
    if vs == [] {
      assert EncodeList(vs) + rest == rest;
    } else {
      assert EncodeList(vs) + rest == EscapeAll(Encoded(vs[0])) + (EncodeList(vs[1..]) + rest);
      DecodeEncoded(vs[0], EncodeList(vs[1..]) + rest);
      DecodeEncodedList(vs[1..], rest);
      assert [vs[0]] + vs[1..] == vs;
    }
  }

  // --- The loops over the buffer ---------------------------------------------

  /** The size of the buffer, (64 + 8 - 1) / 7. */
  const BUFFER: nat := 10

  function Pow128(k: nat): nat {
    if k == 0 then 1 else 128 * Pow128(k - 1)
  }

  lemma WordFits()
    ensures WORD <= 128 * Pow128(9)
  {
    assert Pow128(3) == 0x20_0000;
    assert Pow128(6) == 0x20_0000 * Pow128(3);
    assert Pow128(9) == 0x20_0000 * Pow128(6);
  }

  /** A non-zero value still has room in front of the bytes written so far. */
  lemma RoomLeft(v: nat, k: nat)
    requires 0 < v < Pow128(k)
    ensures k > 0 && v / 128 < Pow128(k - 1)
  {
  }

  /** Fill the buffer from its end, then write the used part. */
  method Encode7bit(value: nat) returns (out: seq<Byte>)
    requires value < WORD
    ensures out == EscapeAll(Encoded(value))
  {
    hide EscapeAll;
    var buf: array<Byte> := new Byte[BUFFER](_ => 0);
    var idx: nat := BUFFER - 1;
    buf[idx] := value % 128 * 2;
    var v: nat := value / 128;
    WordFits();
    assert buf[idx..] == [value % 128 * 2];
    while v != 0
      invariant idx < BUFFER && v < Pow128(idx)
      invariant Encoded(value) == Leading(v) + buf[idx..]
    {
      RoomLeft(v, idx);
      idx := idx - 1;
      ghost var tail := buf[idx + 1..];
      buf[idx] := v % 128 * 2 + 1;
      assert buf[idx..] == [v % 128 * 2 + 1] + tail;
      v := v / 128;
    }
    assert Leading(0) + buf[idx..] == buf[idx..];
    out := WriteEscaped(buf[idx..]);
  }

  method WriteEscaped(bs: seq<Byte>) returns (out: seq<Byte>)
    ensures out == EscapeAll(bs)
  {
    out := [];
    for i := 0 to |bs|
      invariant out == EscapeAll(bs[..i])
    {
      EscapeAllAppend(bs[..i], [bs[i]]);
      assert EscapeAll([bs[i]]) == Escape(bs[i]);
      assert bs[..i + 1] == bs[..i] + [bs[i]];
      out := out + Escape(bs[i]);
    }
    assert bs[..|bs|] == bs;
  }

  method Decode7bit(input: seq<Byte>) returns (r: Result<nat>)
    ensures r == DecodeFrom(input, 0)
  {
    var res, rest := 0, input;
    while true
      invariant DecodeFrom(input, 0) == DecodeFrom(rest, res)
      decreases |rest|
    {
      var b := ReadUnescape(rest);
      if b.Err? {
        return Err;
      }
      res, rest := ShiftIn(res, b.value), b.rest;
      if b.value % 2 == 0 {
        return Ok(res, rest);
      }
    }
  }
}
