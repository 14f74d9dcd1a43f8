/** Octets, shared by the text decoder and the wire formats. */
module Bytes {
  type byte = x: int | 0 <= x < 256

  type bytes = seq<byte>
}

/**
 The incremental UTF-8 decoder the export stream feeds its reads through.  It keeps the bytes of an
 unfinished sequence between calls, and refuses a byte as soon as no well-formed sequence can
 contain it there (Table 3-7 of the Unicode Standard).
 */
module Utf8 {
  import opened Bytes

  /** Length of the sequence a lead byte starts. */
  function SequenceLength(lead: byte): nat {
    if lead < 0xE0 then 2 else if lead < 0xF0 then 3 else 4
  }

  predicate Continuation(b: byte) { 0x80 <= b < 0xC0 }

  /** The second byte rules out overlong forms, surrogates and values past U+10FFFF. */
  predicate SecondByte(lead: byte, b: byte) {
    if lead == 0xE0 then 0xA0 <= b < 0xC0
    else if lead == 0xED then 0x80 <= b < 0xA0
    else if lead == 0xF0 then 0x90 <= b < 0xC0
    else if lead == 0xF4 then 0x80 <= b < 0x90
    else Continuation(b)
  }

  predicate Unfinished(p: bytes) {
    p != [] ==>
      && 0xC2 <= p[0] <= 0xF4
      && |p| < SequenceLength(p[0])
      && (|p| >= 2 ==> SecondByte(p[0], p[1]))
      && (|p| >= 3 ==> Continuation(p[2]))
  }

  type Pending = p: bytes | Unfinished(p) witness []

  datatype Step = Bad | Shift(pending: Pending) | Emit(c: char)

  function CodePoint(s: bytes): int {
    if |s| == 2 then Bits(s[0], 0xC0, s[1])
    else if |s| == 3 then Bits(Bits(s[0], 0xE0, s[1]), 0, s[2])
    else if |s| == 4 then Bits(Bits(Bits(s[0], 0xF0, s[1]), 0, s[2]), 0, s[3])
    else 0
  }

  /** Drops a marker from the leading bits and appends the six bits of a continuation byte. */
  function Bits(lead: int, marker: int, next: int): int {
    (lead - marker) * 64 + (next - 0x80)
  }

  function Next(p: Pending, b: byte): Step {
    if p == [] then
      if b < 0x80 then Emit(b as char)
      else if 0xC2 <= b <= 0xF4 then Shift([b])
      else Bad
    else if !(if |p| == 1 then SecondByte(p[0], b) else Continuation(b)) then Bad
    else if |p| + 1 == SequenceLength(p[0]) then Emit(CodePoint(p + [b]) as char)
    else Shift(p + [b])
  }

  /** `text` is everything decoded before the end of the bytes or the first bad byte. */
  datatype Decoded = Decoded(text: string, pending: Pending, ok: bool)

  function Decode(p: Pending, s: bytes): (d: Decoded)
    ensures |d.text| <= |s|
    decreases |s|
  {
    if s == [] then Decoded("", p, true)
    else
      match Next(p, s[0])
      case Bad => Decoded("", p, false)
      case Shift(q) => Decode(q, s[1..])
      case Emit(c) => var d := Decode([], s[1..]); Decoded([c] + d.text, d.pending, d.ok)
  }

  /** Decoding in two reads is decoding in one: where the bytes are cut does not show. */
  lemma {:induction false} DecodeInPieces(p: Pending, a: bytes, b: bytes)
    ensures Decode(p, a).ok ==>
              var d := Decode(Decode(p, a).pending, b);
              Decode(p, a + b) == Decoded(Decode(p, a).text + d.text, d.pending, d.ok)
    ensures !Decode(p, a).ok ==> Decode(p, a + b) == Decode(p, a)
    decreases |a|
  {
    if a == [] {
      assert a + b == b;
    } else {
      assert (a + b)[1..] == a[1..] + b;
      match Next(p, a[0])
      case Bad =>
      case Shift(q) => DecodeInPieces(q, a[1..], b);
      case Emit(c) =>
        DecodeInPieces([], a[1..], b);
        if Decode(p, a).ok {
          var d := Decode(Decode([], a[1..]).pending, b);
          assert [c] + (Decode([], a[1..]).text + d.text) == ([c] + Decode([], a[1..]).text) + d.text;
        }
    }
  }

  /** A single byte that is refused adds no text. */
  lemma BadByte(p: Pending, s: bytes)
    requires !Decode(p, s).ok
    ensures |s| <= 1 ==> Decode(p, s).text == ""
  {
  }

  // ---- The encoding the decoder inverts ----

  function EncodeChar(c: char): (s: bytes)
    ensures 1 <= |s| <= 4
  {
    var n := c as int;
    if n < 0x80 then [n]
    else if n < 0x800 then [0xC0 + n / 64, 0x80 + n % 64]
    else if n < 0x10000 then [0xE0 + n / 4096, 0x80 + n / 64 % 64, 0x80 + n % 64]
    else [0xF0 + n / 262144, 0x80 + n / 4096 % 64, 0x80 + n / 64 % 64, 0x80 + n % 64]
  }

  function Encode(t: string): bytes {
    if t == "" then [] else EncodeChar(t[0]) + Encode(t[1..])
  }

  lemma DecodeShift(p: Pending, b: byte, rest: bytes)
    requires Next(p, b).Shift?
    ensures Decode(p, [b] + rest) == Decode(p + [b], rest)
  {
    assert ([b] + rest)[1..] == rest;
    assert [] + [b] == [b];
  }

  lemma DecodeEmit(p: Pending, b: byte, rest: bytes)
    requires Next(p, b).Emit?
    ensures Decode(p, [b] + rest)
         == var d := Decode([], rest); Decoded([Next(p, b).c] + d.text, d.pending, d.ok)
  {
    assert ([b] + rest)[1..] == rest;
  }

  lemma DecodeChar(c: char, rest: bytes)
    ensures Decode([], EncodeChar(c) + rest)
         == var d := Decode([], rest); Decoded([c] + d.text, d.pending, d.ok)
  {
    var s := EncodeChar(c);
    if |s| == 1 {
      DecodeEmit([], s[0], rest);
    } else if |s| == 2 {
      DecodeTwo(c, s, rest);
    } else if |s| == 3 {
      DecodeThree(c, s, rest);
    } else {
      DecodeFour(c, s, rest);
    }
  }

  lemma DecodeTwo(c: char, s: bytes, rest: bytes)
    requires s == EncodeChar(c) && |s| == 2
    ensures Decode([], s + rest) == var d := Decode([], rest); Decoded([c] + d.text, d.pending, d.ok)
  {
    assert CodePoint([s[0]] + [s[1]]) == c as int;
    assert s + rest == [s[0]] + ([s[1]] + rest) && [] + [s[0]] == [s[0]];
    DecodeShift([], s[0], [s[1]] + rest);
    DecodeEmit([s[0]], s[1], rest);
  }

  lemma DecodeThree(c: char, s: bytes, rest: bytes)
    requires s == EncodeChar(c) && |s| == 3
    ensures Decode([], s + rest) == var d := Decode([], rest); Decoded([c] + d.text, d.pending, d.ok)
  {
    ThreeSteps(c, s);
    assert s + rest == [s[0]] + ([s[1]] + ([s[2]] + rest)) && [] + [s[0]] == [s[0]] && [s[0]] + [s[1]] == [s[0], s[1]];
    DecodeShift([], s[0], [s[1]] + ([s[2]] + rest));
    DecodeShift([s[0]], s[1], [s[2]] + rest);
    DecodeEmit([s[0], s[1]], s[2], rest);
  }

  lemma ThreeSteps(c: char, s: bytes)
    requires s == EncodeChar(c) && |s| == 3
    ensures Unfinished([s[0]]) && Unfinished([s[0], s[1]])
    ensures Next([], s[0]).Shift? && Next([s[0]], s[1]).Shift? && Next([s[0], s[1]], s[2]) == Emit(c)
  {
    assert [s[0], s[1]] + [s[2]] == s && [s[0]] + [s[1]] == [s[0], s[1]];
    assert CodePoint(s) == c as int;
  }

  /** The six-bit digits of a number of up to 21 bits. */
  lemma Digits(n: nat, a: nat, b: nat, c: nat, d: nat)
    requires a == n / 262144 && b == n / 4096 % 64 && c == n / 64 % 64 && d == n % 64
    ensures n == ((a * 64 + b) * 64 + c) * 64 + d && b < 64 && c < 64 && d < 64
  {
    assert n / 4096 == (n / 64) / 64 && n / 262144 == (n / 4096) / 64;
  }

  lemma FourBytes(c: char, s: bytes)
    requires s == EncodeChar(c) && |s| == 4
    ensures 0xF0 <= s[0] <= 0xF4 && SecondByte(s[0], s[1]) && Continuation(s[2]) && Continuation(s[3])
    ensures CodePoint(s) == c as int
  {
    var n := c as int;
    Digits(n, n / 262144, n / 4096 % 64, n / 64 % 64, n % 64);
  }

  lemma FourSteps(c: char, s: bytes)
    requires |s| == 4 && 0xF0 <= s[0] <= 0xF4 && SecondByte(s[0], s[1]) && Continuation(s[2]) && Continuation(s[3])
    requires CodePoint(s) == c as int
    ensures Unfinished([s[0]]) && Unfinished([s[0], s[1]]) && Unfinished(s[..3])
    ensures Next([], s[0]).Shift? && Next([s[0]], s[1]).Shift?
    ensures Next([s[0], s[1]], s[2]).Shift? && Next(s[..3], s[3]) == Emit(c)
  {
    assert [s[0]] + [s[1]] == [s[0], s[1]] && [s[0], s[1]] + [s[2]] == s[..3] && s[..3] + [s[3]] == s;
  }

  lemma DecodeFour(c: char, s: bytes, rest: bytes)
    requires s == EncodeChar(c) && |s| == 4
    ensures Decode([], s + rest) == var d := Decode([], rest); Decoded([c] + d.text, d.pending, d.ok)
  {
    FourBytes(c, s);
    FourSteps(c, s);
    assert [s[0]] + [s[1]] == [s[0], s[1]] && [s[0], s[1]] + [s[2]] == s[..3];
    assert s + rest == [s[0]] + ([s[1]] + ([s[2]] + ([s[3]] + rest))) && [] + [s[0]] == [s[0]];
    DecodeShift([], s[0], [s[1]] + ([s[2]] + ([s[3]] + rest)));
    DecodeShift([s[0]], s[1], [s[2]] + ([s[3]] + rest));
    DecodeShift([s[0], s[1]], s[2], [s[3]] + rest);
    DecodeEmit(s[..3], s[3], rest);
  }

  /** Every text survives encoding and decoding. */
  lemma {:induction false} DecodeEncode(t: string)
    ensures Decode([], Encode(t)) == Decoded(t, [], true)
  {
    if t != "" {
      DecodeEncode(t[1..]);
      DecodeChar(t[0], Encode(t[1..]));
      assert [t[0]] + t[1..] == t;
    }
  }

  lemma BitsSplit(lead: int, marker: int, next: int)
    requires 0 <= lead - marker && 0x80 <= next < 0xC0
    ensures Bits(lead, marker, next) / 64 == lead - marker
    ensures Bits(lead, marker, next) % 64 == next - 0x80
  {
  }

  lemma EmitEncodes(p: Pending, b: byte)
    requires Next(p, b).Emit?
    ensures EncodeChar(Next(p, b).c) == p + [b]
  {
    if |p| == 1 {
      BitsSplit(p[0], 0xC0, b);
    } else if |p| == 2 {
      EmitThree(p, b);
    } else if |p| == 3 {
      EmitFour(p, b);
    }
  }

  lemma EmitThree(p: Pending, b: byte)
    requires |p| == 2 && Next(p, b).Emit?
    ensures EncodeChar(Next(p, b).c) == p + [b]
  {
    var m := Bits(p[0], 0xE0, p[1]);
    BitsSplit(p[0], 0xE0, p[1]);
    BitsSplit(m, 0, b);
    assert Next(p, b).c as int == Bits(m, 0, b);
  }

  lemma EmitFour(p: Pending, b: byte)
    requires |p| == 3 && Next(p, b).Emit?
    ensures EncodeChar(Next(p, b).c) == p + [b]
  {
    var k := Bits(p[0], 0xF0, p[1]);
    var m := Bits(k, 0, p[2]);
    var n := Bits(m, 0, b);
    BitsSplit(p[0], 0xF0, p[1]);
    BitsSplit(k, 0, p[2]);
    BitsSplit(m, 0, b);
    assert Next(p, b).c as int == n;
    assert n / 4096 == k && n / 262144 == p[0] - 0xF0;
  }

  /** Nothing is invented: the bytes read are the encoding of the text plus the unfinished tail. */
  lemma {:induction false} DecodedBytes(p: Pending, s: bytes)
    requires Decode(p, s).ok
    ensures p + s == Encode(Decode(p, s).text) + Decode(p, s).pending
    decreases |s|
  {
    if s == [] {
      assert p + s == p;
    } else {
      assert p + s == (p + [s[0]]) + s[1..];
      var step := Next(p, s[0]);
      if step.Shift? {
        DecodedBytes(step.pending, s[1..]);
        assert step.pending == p + [s[0]];
      } else {
        EmitEncodes(p, s[0]);
        DecodedBytes([], s[1..]);
        assert [] + s[1..] == s[1..];
        EncodeCons(step.c, Decode([], s[1..]).text, Decode([], s[1..]).pending);
      }
    }
  }

  lemma EncodeCons(c: char, t: string, tail: bytes)
    ensures Encode([c] + t) + tail == EncodeChar(c) + (Encode(t) + tail)
  {
    assert ([c] + t)[1..] == t;
  }

  /** Bytes decode completely exactly when they are the encoding of a text, and then of that text. */
  lemma CompleteIsEncoding(s: bytes)
    ensures Decode([], s).ok && Decode([], s).pending == [] <==> exists t :: s == Encode(t)
    ensures forall t :: s == Encode(t) ==> Decode([], s).text == t
  {
    forall t | s == Encode(t) ensures Decode([], s) == Decoded(t, [], true) {
      DecodeEncode(t);
    }
    var d := Decode([], s);
    if d.ok && d.pending == [] {
      DecodedBytes([], s);
      assert [] + s == s && Encode(d.text) + [] == Encode(d.text);
    }
  }
}
