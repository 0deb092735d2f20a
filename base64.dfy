/**
 * Encoding.UTF8.GetBytes and Convert.ToBase64String, the two steps that turn a nested
 * expression into its placeholder, with their decoders: together they show that the
 * placeholder determines the expression text (distinct texts, distinct placeholders).
 * A `string` here is a sequence of Unicode scalar values, so every text is well formed;
 * a lone surrogate, which the encoder would replace by U+FFFD, cannot occur.
 */
module Base64 {
  import opened Wrappers

  type Byte = b: int | 0 <= b < 256

  predicate IsContinuation(b: Byte) { 0x80 <= b < 0xC0 }

  /** The UTF-8 bytes of one Unicode scalar value. */
  function Utf8Char(c: char): (bs: seq<Byte>)
    ensures 1 <= |bs| <= 4
  {
    var n := c as int;
    if n < 0x80 then [n]
    else if n < 0x800 then [0xC0 + n / 64, 0x80 + n % 64]
    else if n < 0x10000 then [0xE0 + n / 4096, 0x80 + (n / 64) % 64, 0x80 + n % 64]
    else [0xF0 + n / 262144, 0x80 + (n / 4096) % 64, 0x80 + (n / 64) % 64, 0x80 + n % 64]
  }

  /** Encoding.UTF8.GetBytes */
  function Utf8(s: string): (bs: seq<Byte>)
    ensures |s| <= |bs| <= 4 * |s|
  {
    if s == [] then [] else Utf8Char(s[0]) + Utf8(s[1..])
  }

  /** Decodes the first scalar value of well-formed UTF-8; returns it with its byte count. */
  function DecodeOne(bs: seq<Byte>): (r: Option<(char, nat)>)
    requires bs != []
    ensures r.Some? ==> 1 <= r.value.1 <= |bs|
  {
    var b0: int := bs[0];
    if b0 < 0x80 then Some((b0 as char, 1))
    else if 0xC0 <= b0 < 0xE0 && |bs| >= 2 && IsContinuation(bs[1]) then
      var n := (b0 - 0xC0) * 64 + (bs[1] as int - 0x80);
      if 0x80 <= n then Some((n as char, 2)) else None
    else if 0xE0 <= b0 < 0xF0 && |bs| >= 3 && IsContinuation(bs[1]) && IsContinuation(bs[2]) then
      var n := (b0 - 0xE0) * 4096 + (bs[1] as int - 0x80) * 64 + (bs[2] as int - 0x80);
      if 0x800 <= n && !(0xD800 <= n < 0xE000) then Some((n as char, 3)) else None
    else if 0xF0 <= b0 < 0xF5 && |bs| >= 4 && IsContinuation(bs[1]) && IsContinuation(bs[2]) && IsContinuation(bs[3]) then
      var n := (b0 - 0xF0) * 262144 + (bs[1] as int - 0x80) * 4096 + (bs[2] as int - 0x80) * 64 + (bs[3] as int - 0x80);
      if 0x10000 <= n <= 0x10FFFF then Some((n as char, 4)) else None
    else None
  }

  /** Encoding.UTF8.GetString on well-formed input; None for malformed bytes. */
  function DecodeUtf8(bs: seq<Byte>): Option<string>
    decreases |bs|
  {
    if bs == [] then Some([])
    else
      match DecodeOne(bs)
      case None => None
      case Some((c, n)) =>
        match DecodeUtf8(bs[n..])
        case None => None
        case Some(t) => Some([c] + t)
  }

  lemma {:induction false} Split2(n: int)
    requires 0x80 <= n < 0x800
    ensures (n / 64) * 64 + n % 64 == n && 2 <= n / 64 < 32
  {
  }

  lemma {:induction false} Split3(n: int)
    requires 0x800 <= n < 0x10000
    ensures (n / 4096) * 4096 + ((n / 64) % 64) * 64 + n % 64 == n && 0 <= n / 4096 < 16
  {
  }

  lemma {:induction false} Split4(n: int)
    requires 0x10000 <= n < 0x110000
    ensures (n / 262144) * 262144 + ((n / 4096) % 64) * 4096 + ((n / 64) % 64) * 64 + n % 64 == n
    ensures 0 <= n / 262144 < 5
  {
    var q1 := n / 64;
    var q2 := q1 / 64;
    assert n == q1 * 64 + n % 64;
    assert q1 == q2 * 64 + q1 % 64;
    assert n / 4096 == q2;
    assert q2 == (q2 / 64) * 64 + q2 % 64;
    assert n / 262144 == q2 / 64;
  }

  /** The decoder reads back exactly the scalar value whose bytes lead the input. */
  lemma {:induction false} DecodeOneOfChar(c: char, rest: seq<Byte>)
    ensures DecodeOne(Utf8Char(c) + rest) == Some((c, |Utf8Char(c)|))
  {
    var n := c as int;
    if n < 0x80 {
    } else if n < 0x800 {
      DecodeTwoOf(c, rest);
    } else if n < 0x10000 {
      DecodeThreeOf(c, rest);
    } else {
      DecodeFourOf(c, rest);
    }
  }

  lemma {:induction false} DecodeTwoOf(c: char, rest: seq<Byte>)
    requires 0x80 <= c as int < 0x800
    ensures DecodeOne(Utf8Char(c) + rest) == Some((c, 2))
  {
    var n := c as int;
    Split2(n);
    DecodeTwo(n / 64, n % 64, rest);
  }

  lemma {:induction false} DecodeThreeOf(c: char, rest: seq<Byte>)
    requires 0x800 <= c as int < 0x10000
    ensures DecodeOne(Utf8Char(c) + rest) == Some((c, 3))
  {
    var n := c as int;
    Split3(n);
    DecodeThree(n / 4096, (n / 64) % 64, n % 64, rest);
  }

  lemma {:induction false} DecodeFourOf(c: char, rest: seq<Byte>)
    requires 0x10000 <= c as int
    ensures DecodeOne(Utf8Char(c) + rest) == Some((c, 4))
  {
    var n := c as int;
    Split4(n);
    DecodeFour(n / 262144, (n / 4096) % 64, (n / 64) % 64, n % 64, rest);
  }

  lemma {:induction false} DecodeTwo(a: int, b: int, rest: seq<Byte>)
    requires 2 <= a < 32 && 0 <= b < 64
    ensures DecodeOne([0xC0 + a, 0x80 + b] + rest) == Some(((a * 64 + b) as char, 2))
  {
    var bs: seq<Byte> := [0xC0 + a, 0x80 + b] + rest;
    assert bs[0] == 0xC0 + a && bs[1] == 0x80 + b;
  }

  lemma {:induction false} DecodeThree(a: int, b: int, d: int, rest: seq<Byte>)
    requires 0 <= a < 16 && 0 <= b < 64 && 0 <= d < 64
    requires 0x800 <= a * 4096 + b * 64 + d && !(0xD800 <= a * 4096 + b * 64 + d < 0xE000)
    ensures DecodeOne([0xE0 + a, 0x80 + b, 0x80 + d] + rest) == Some(((a * 4096 + b * 64 + d) as char, 3))
  {
    var bs: seq<Byte> := [0xE0 + a, 0x80 + b, 0x80 + d] + rest;
    assert bs[0] == 0xE0 + a && bs[1] == 0x80 + b && bs[2] == 0x80 + d;
  }

  lemma {:induction false} DecodeFour(a: int, b: int, d: int, e: int, rest: seq<Byte>)
    requires 0 <= a < 5 && 0 <= b < 64 && 0 <= d < 64 && 0 <= e < 64
    requires 0x10000 <= a * 262144 + b * 4096 + d * 64 + e < 0x110000
    ensures DecodeOne([0xF0 + a, 0x80 + b, 0x80 + d, 0x80 + e] + rest) ==
      Some(((a * 262144 + b * 4096 + d * 64 + e) as char, 4))
  {
    var bs: seq<Byte> := [0xF0 + a, 0x80 + b, 0x80 + d, 0x80 + e] + rest;
    assert bs[0] == 0xF0 + a && bs[1] == 0x80 + b && bs[2] == 0x80 + d && bs[3] == 0x80 + e;
  }

  /** Decoding the UTF-8 bytes of a text gives the text back. */
  lemma {:induction false} Utf8RoundTrip(s: string)
    ensures DecodeUtf8(Utf8(s)) == Some(s)
  {
    if s != [] {
      var head := Utf8Char(s[0]);
      var tail := Utf8(s[1..]);
      DecodeOneOfChar(s[0], tail);
      assert (head + tail)[|head|..] == tail;
      Utf8RoundTrip(s[1..]);
      assert s == [s[0]] + s[1..];
    }
  }

  /** The 64 digits of RFC 4648 base 64: A-Z, a-z, 0-9, '+', '/'. */
  function Digit(n: nat): (c: char)
    requires n < 64
  {
    if n < 26 then ('A' as int + n) as char
    else if n < 52 then ('a' as int + n - 26) as char
    else if n < 62 then ('0' as int + n - 52) as char
    else if n == 62 then '+'
    else '/'
  }

  function DigitValue(c: char): (r: Option<nat>)
    ensures r.Some? ==> r.value < 64 && Digit(r.value) == c
  {
    if 'A' <= c <= 'Z' then Some(c as int - 'A' as int)
    else if 'a' <= c <= 'z' then Some(c as int - 'a' as int + 26)
    else if '0' <= c <= '9' then Some(c as int - '0' as int + 52)
    else if c == '+' then Some(62)
    else if c == '/' then Some(63)
    else None
  }

  lemma {:induction false} DigitValueOfDigit(n: nat)
    requires n < 64
    ensures DigitValue(Digit(n)) == Some(n)
  {
  }

  /** The characters a placeholder can contain: the 64 digits and the pad '='. */
  predicate IsBase64Char(c: char) {
    DigitValue(c).Some? || c == '='
  }

  /** Convert.ToBase64String: three bytes to four digits, the last group padded with '='. */
  function Encode(bs: seq<Byte>): (t: string)
    ensures |t| == 4 * ((|bs| + 2) / 3)
    ensures forall i :: 0 <= i < |t| ==> IsBase64Char(t[i])
    decreases |bs|
  {
    if |bs| == 0 then []
    else if |bs| == 1 then Pad2(bs[0])
    else if |bs| == 2 then Pad1(bs[0], bs[1])
    else
      var q, rest := Quad(bs[0], bs[1], bs[2]), Encode(bs[3..]);
      assert (|bs| + 2) / 3 == (|bs| - 1) / 3 + 1;
      assert forall i :: 4 <= i < |q + rest| ==> (q + rest)[i] == rest[i - 4];
      q + rest
  }

  /** The four digits of a full group. */
  function Quad(b0: Byte, b1: Byte, b2: Byte): (q: string)
    ensures |q| == 4 && forall i :: 0 <= i < 4 ==> IsBase64Char(q[i])
  {
    DigitValueOfDigit(b0 / 4); DigitValueOfDigit((b0 % 4) * 16 + b1 / 16);
    DigitValueOfDigit((b1 % 16) * 4 + b2 / 64); DigitValueOfDigit(b2 % 64);
    [Digit(b0 / 4), Digit((b0 % 4) * 16 + b1 / 16), Digit((b1 % 16) * 4 + b2 / 64), Digit(b2 % 64)]
  }

  /** A last group of two bytes: three digits and one '='. */
  function Pad1(b0: Byte, b1: Byte): (q: string)
    ensures |q| == 4 && forall i :: 0 <= i < 4 ==> IsBase64Char(q[i])
  {
    DigitValueOfDigit(b0 / 4); DigitValueOfDigit((b0 % 4) * 16 + b1 / 16);
    DigitValueOfDigit((b1 % 16) * 4);
    [Digit(b0 / 4), Digit((b0 % 4) * 16 + b1 / 16), Digit((b1 % 16) * 4), '=']
  }

  /** A last group of one byte: two digits and two '='. */
  function Pad2(b0: Byte): (q: string)
    ensures |q| == 4 && forall i :: 0 <= i < 4 ==> IsBase64Char(q[i])
  {
    DigitValueOfDigit(b0 / 4); DigitValueOfDigit((b0 % 4) * 16);
    [Digit(b0 / 4), Digit((b0 % 4) * 16), '=', '=']
  }

  /** Convert.FromBase64String on canonical input; None for anything else. */
  function Decode(t: string): Option<seq<Byte>>
    decreases |t|
  {
    if |t| == 0 then Some([])
    else if |t| < 4 then None
    else
      var d0, d1 := DigitValue(t[0]), DigitValue(t[1]);
      if d0.None? || d1.None? then None
      else if |t| == 4 && t[2] == '=' && t[3] == '=' then
        Some([First(d0.value, d1.value)])
      else
        var d2 := DigitValue(t[2]);
        if d2.None? then None
        else if |t| == 4 && t[3] == '=' then
          Some([First(d0.value, d1.value), Second(d1.value, d2.value)])
        else
          var d3 := DigitValue(t[3]);
          if d3.None? then None
          else
            match Decode(t[4..])
            case None => None
            case Some(rest) =>
              Some([First(d0.value, d1.value), Second(d1.value, d2.value), Third(d2.value, d3.value)] + rest)
  }

  /** The byte spread over the first two digits of a group. */
  function First(d0: nat, d1: nat): Byte
    requires d0 < 64 && d1 < 64
  {
    d0 * 4 + d1 / 16
  }

  /** The byte spread over the second and third digits. */
  function Second(d1: nat, d2: nat): Byte
    requires d1 < 64 && d2 < 64
  {
    (d1 % 16) * 16 + d2 / 4
  }

  /** The byte spread over the third and fourth digits. */
  function Third(d2: nat, d3: nat): Byte
    requires d2 < 64 && d3 < 64
  {
    (d2 % 4) * 64 + d3
  }

  lemma {:induction false} DivMod4(q: nat, r: nat)
    requires r < 4
    ensures (q * 4 + r) / 4 == q && (q * 4 + r) % 4 == r
  {
  }

  lemma {:induction false} DivMod16(q: nat, r: nat)
    requires r < 16
    ensures (q * 16 + r) / 16 == q && (q * 16 + r) % 16 == r
  {
  }

  /** The arithmetic of one full group: the four digits give back the three bytes. */
  lemma {:induction false} Group3(b0: Byte, b1: Byte, b2: Byte)
    ensures (b0 / 4) * 4 + ((b0 % 4) * 16 + b1 / 16) / 16 == b0
    ensures (((b0 % 4) * 16 + b1 / 16) % 16) * 16 + ((b1 % 16) * 4 + b2 / 64) / 4 == b1
    ensures (((b1 % 16) * 4 + b2 / 64) % 4) * 64 + b2 % 64 == b2
  {
    DivMod16(b0 % 4, b1 / 16);
    DivMod4(b1 % 16, b2 / 64);
  }

  lemma {:induction false} Group2(b0: Byte, b1: Byte)
    ensures (b0 / 4) * 4 + ((b0 % 4) * 16 + b1 / 16) / 16 == b0
    ensures (((b0 % 4) * 16 + b1 / 16) % 16) * 16 + ((b1 % 16) * 4) / 4 == b1
  {
    DivMod16(b0 % 4, b1 / 16);
    DivMod4(b1 % 16, 0);
  }

  lemma {:induction false} Group1(b0: Byte)
    ensures (b0 / 4) * 4 + ((b0 % 4) * 16) / 16 == b0
  {
    DivMod16(b0 % 4, 0);
  }

  lemma {:induction false} EncodeFull(bs: seq<Byte>)
    requires |bs| >= 3
    ensures Encode(bs) == Quad(bs[0], bs[1], bs[2]) + Encode(bs[3..])
  {
  }

  /** Four digits in front of the rest decode to three bytes in front of its bytes. */
  lemma {:induction false} DecodeGroup(t: string)
    requires |t| >= 4 && forall i :: 0 <= i < 4 ==> DigitValue(t[i]).Some?
    ensures var d0, d1, d2, d3 := DigitValue(t[0]).value, DigitValue(t[1]).value,
                                  DigitValue(t[2]).value, DigitValue(t[3]).value;
      Decode(t) ==
        match Decode(t[4..])
        case None => None
        case Some(r) => Some([First(d0, d1), Second(d1, d2), Third(d2, d3)] + r)
  {
    assert DigitValue(t[2]).Some? && DigitValue(t[3]).Some?;
  }

  lemma {:induction false} DecodeQuad(b0: Byte, b1: Byte, b2: Byte, rest: string)
    ensures Decode(Quad(b0, b1, b2) + rest) ==
      match Decode(rest)
      case None => None
      case Some(r) => Some([b0, b1, b2] + r)
  {
    var d0, d1, d2, d3 := b0 / 4, (b0 % 4) * 16 + b1 / 16, (b1 % 16) * 4 + b2 / 64, b2 % 64;
    Group3(b0, b1, b2);
    DigitValueOfDigit(d0);
    DigitValueOfDigit(d1);
    DigitValueOfDigit(d2);
    DigitValueOfDigit(d3);
    var t := Quad(b0, b1, b2) + rest;
    assert t[0] == Digit(d0) && t[1] == Digit(d1) && t[2] == Digit(d2) && t[3] == Digit(d3);
    DecodeGroup(t);
    assert t[4..] == rest;
    assert First(d0, d1) == b0 && Second(d1, d2) == b1 && Third(d2, d3) == b2;
  }

  lemma {:induction false} EncodeShort1(b0: Byte)
    ensures Decode(Encode([b0])) == Some([b0])
  {
    var d0, d1 := b0 / 4, (b0 % 4) * 16;
    Group1(b0);
    DigitValueOfDigit(d0);
    DigitValueOfDigit(d1);
    var t := Pad2(b0);
    assert Encode([b0]) == t;
    assert First(d0, d1) == b0;
  }

  lemma {:induction false} EncodeShort2(b0: Byte, b1: Byte)
    ensures Decode(Encode([b0, b1])) == Some([b0, b1])
  {
    var d0, d1, d2 := b0 / 4, (b0 % 4) * 16 + b1 / 16, (b1 % 16) * 4;
    Group2(b0, b1);
    DigitValueOfDigit(d0);
    DigitValueOfDigit(d1);
    DigitValueOfDigit(d2);
    var t := Pad1(b0, b1);
    assert Encode([b0, b1]) == t;
    assert First(d0, d1) == b0 && Second(d1, d2) == b1;
  }

  /** Decoding a placeholder gives back the bytes it encodes. */
  lemma {:induction false} EncodeRoundTrip(bs: seq<Byte>)
    ensures Decode(Encode(bs)) == Some(bs)
    decreases |bs|
  {
    if |bs| == 0 {
    } else if |bs| == 1 {
      EncodeShort1(bs[0]);
      assert [bs[0]] == bs;
    } else if |bs| == 2 {
      EncodeShort2(bs[0], bs[1]);
      assert [bs[0], bs[1]] == bs;
    } else {
      EncodeRoundTrip(bs[3..]);
      EncodeRoundTripStep(bs);
    }
  }

  /** One full group in front of a text that decodes to the rest of the bytes. */
  lemma {:induction false} EncodeRoundTripStep(bs: seq<Byte>)
    requires |bs| >= 3 && Decode(Encode(bs[3..])) == Some(bs[3..])
    ensures Decode(Encode(bs)) == Some(bs)
  {
    EncodeFull(bs);
    DecodeAfterQuad(bs, Encode(bs[3..]));
  }

  lemma {:induction false} DecodeAfterQuad(bs: seq<Byte>, e: string)
    requires |bs| >= 3 && Decode(e) == Some(bs[3..])
    ensures Decode(Quad(bs[0], bs[1], bs[2]) + e) == Some(bs)
  {
    DecodeQuad(bs[0], bs[1], bs[2], e);
    assert [bs[0], bs[1], bs[2]] + bs[3..] == bs;
  }

  /** The placeholder of a nested expression: Base64 of its UTF-8 bytes. */
  function Placeholder(expression: string): (p: string)
    ensures |expression| > 0 ==> |p| > 0
    ensures forall i :: 0 <= i < |p| ==> IsBase64Char(p[i])
  {
    Encode(Utf8(expression))
  }

  /** Every nested expression begins with "{{$", whose three bytes are the Base64 digits
      "e3sk": every placeholder begins with them. */
  lemma {:induction false} PlaceholderStart(expression: string)
    requires |expression| >= 3 && expression[..3] == "{{$"
    ensures |Placeholder(expression)| >= 4 && Placeholder(expression)[..4] == "e3sk"
  {
    var bs := Utf8(expression);
    Utf8OfTemplateOpen(expression);
    assert Quad(0x7B, 0x7B, 0x24) == "e3sk";
    assert Encode(bs)[..4] == Quad(bs[0], bs[1], bs[2]);
  }

  /** "{{$" is ASCII: its UTF-8 bytes are its three code points. */
  lemma {:induction false} Utf8OfTemplateOpen(expression: string)
    requires |expression| >= 3 && expression[..3] == "{{$"
    ensures |Utf8(expression)| >= 3 && Utf8(expression)[..3] == [0x7B, 0x7B, 0x24]
  {
    assert expression[0] == '{' && expression[1] == '{' && expression[2] == '$' by {
      assert expression[..3][0] == expression[0];
      assert expression[..3][1] == expression[1];
      assert expression[..3][2] == expression[2];
    }
    var t1, t2 := expression[1..], expression[2..];
    assert t2 == t1[1..];
    assert Utf8(expression) == [0x7B] + Utf8(t1);
    assert Utf8(t1) == [0x7B] + Utf8(t2);
    assert Utf8(t2) == [0x24] + Utf8(t2[1..]);
  }

  /** Content addressing: equal texts share a placeholder (it is a function), and
      distinct well-formed texts never do, so a placeholder names exactly one expression. */
  lemma {:induction false} PlaceholderInjective(a: string, b: string)
    ensures Placeholder(a) == Placeholder(b) <==> a == b
  {
    if Placeholder(a) == Placeholder(b) {
      EncodeRoundTrip(Utf8(a));
      EncodeRoundTrip(Utf8(b));
      Utf8RoundTrip(a);
      Utf8RoundTrip(b);
    }
  }
}
