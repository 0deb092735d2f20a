/**
 * The JSON text that ConvertToDictionary and ExportKeyValues produce and read back
 * through System.Text.Json: string escaping with the default encoder, the writer for
 * string arrays and string-to-string objects, and the reader for such objects.
 */
module Json {
  import opened Wrappers
  import opened Strings

  /** Upper-case hexadecimal digit, as the writer emits it in \uXXXX. */
  function HexDigit(n: nat): (c: char)
    requires n < 16
  {
    if n < 10 then ('0' as int + n) as char else ('A' as int + n - 10) as char
  }

  /** Hexadecimal digit of either case, as the reader accepts it. */
  function HexValue(c: char): (r: Option<nat>)
    ensures r.Some? ==> r.value < 16
  {
    if '0' <= c <= '9' then Some(c as int - '0' as int)
    else if 'A' <= c <= 'F' then Some(c as int - 'A' as int + 10)
    else if 'a' <= c <= 'f' then Some(c as int - 'a' as int + 10)
    else None
  }

  lemma {:induction false} HexValueOfDigit(n: nat)
    requires n < 16
    ensures HexValue(HexDigit(n)) == Some(n)
  {
  }

  function Hex4(n: nat): (h: string)
    requires n < 0x10000
    ensures |h| == 4
  {
    [HexDigit(n / 4096), HexDigit((n / 256) % 16), HexDigit((n / 16) % 16), HexDigit(n % 16)]
  }

  /** One UTF-16 code unit written as \uXXXX. */
  function UnicodeEscape(n: nat): (e: string)
    requires n < 0x10000
    ensures |e| == 6
  {
    ['\\', 'u'] + Hex4(n)
  }

  /** Characters the default encoder writes as themselves: printable ASCII other than
      the quote, the backslash and the HTML-sensitive & ' + < > and backtick. */
  predicate IsPlain(c: char) {
    ' ' <= c <= '~' && c !in {'"', '\\', '&', '\'', '+', '<', '>', '`'}
  }

  /** How the default encoder writes one character inside a JSON string. */
  function EscapeChar(c: char): (e: string)
    ensures IsPlain(c) <==> e == [c]
    ensures !IsPlain(c) ==> |e| >= 2 && e[0] == '\\'
  {
    if IsPlain(c) then [c]
    else if c == '\\' then ['\\', '\\']
    else if c == '\n' then ['\\', 'n']
    else if c == '\r' then ['\\', 'r']
    else if c == '\t' then ['\\', 't']
    else if c == '\U{8}' then ['\\', 'b']
    else if c == '\U{C}' then ['\\', 'f']
    else if (c as int) < 0x10000 then UnicodeEscape(c as int)
    else
      var n := c as int - 0x10000;
      UnicodeEscape(0xD800 + n / 0x400) + UnicodeEscape(0xDC00 + n % 0x400)
  }

  function EscapeString(s: string): (e: string)
    ensures |e| >= |s|
  {
    if s == [] then [] else EscapeChar(s[0]) + EscapeString(s[1..])
  }

  /** A JSON string literal. */
  function Quote(s: string): string {
    ['"'] + EscapeString(s) + ['"']
  }

  lemma {:induction false} EscapeStringConcat(a: string, b: string)
    ensures EscapeString(a + b) == EscapeString(a) + EscapeString(b)
  {
    if a != [] {
      assert (a + b)[0] == a[0] && (a + b)[1..] == a[1..] + b;
      EscapeStringConcat(a[1..], b);
      assert EscapeString(a + b) == EscapeChar(a[0]) + EscapeString(a[1..] + b);
      ConcatAssoc(EscapeChar(a[0]), EscapeString(a[1..]), EscapeString(b));
    } else {
      assert a + b == b;
    }
  }

  /** Text made of plain characters only is written unchanged. */
  lemma {:induction false} EscapePlain(s: string)
    requires forall i :: 0 <= i < |s| ==> IsPlain(s[i])
    ensures EscapeString(s) == s
  {
    if s != [] {
      EscapePlain(s[1..]);
    }
  }

  /** Escaping leaves a text unchanged exactly when every character in it is plain. */
  lemma {:induction false} EscapeUnchanged(s: string)
    ensures EscapeString(s) == s <==> forall i :: 0 <= i < |s| ==> IsPlain(s[i])
  {
    if s != [] {
      EscapeUnchanged(s[1..]);
      if IsPlain(s[0]) {
        assert s == [s[0]] + s[1..];
        assert forall i :: 0 < i < |s| ==> s[i] == s[1..][i - 1];
      } else {
        assert |EscapeString(s)| > |s|;
      }
    }
  }

  /** JsonSerializer.Serialize of a sequence of strings. */
  function SerializeArray(vs: seq<string>): string {
    ['['] + Elements(vs) + [']']
  }

  function Elements(vs: seq<string>): string {
    if vs == [] then []
    else if |vs| == 1 then Quote(vs[0])
    else Quote(vs[0]) + [','] + Elements(vs[1..])
  }

  /** JsonSerializer.Serialize of a string-to-string dictionary, in its enumeration order. */
  function SerializeObject(es: seq<(string, string)>): string {
    ['{'] + Members(es) + ['}']
  }

  function Members(es: seq<(string, string)>): string {
    if es == [] then []
    else if |es| == 1 then Quote(es[0].0) + ([':'] + Quote(es[0].1))
    else Quote(es[0].0) + ([':'] + (Quote(es[0].1) + ([','] + Members(es[1..]))))
  }

  // ---------------------------------------------------------------- reader

  predicate IsJsonWhiteSpace(c: char) {
    c == ' ' || c == '\t' || c == '\n' || c == '\r'
  }

  function SkipWhiteSpace(t: string): (r: string)
    ensures |r| <= |t|
  {
    if t != [] && IsJsonWhiteSpace(t[0]) then SkipWhiteSpace(t[1..]) else t
  }

  function ParseHex4(t: string): (r: Option<(nat, string)>)
    ensures r.Some? ==> r.value.0 < 0x10000 && |r.value.1| == |t| - 4
  {
    if |t| < 4 then None
    else
      var d0, d1, d2, d3 := HexValue(t[0]), HexValue(t[1]), HexValue(t[2]), HexValue(t[3]);
      if d0.None? || d1.None? || d2.None? || d3.None? then None
      else Some((d0.value * 4096 + d1.value * 256 + d2.value * 16 + d3.value, t[4..]))
  }

  /** The text after a backslash: one escape sequence, returning the character it
      stands for. A lone surrogate is refused, as the reader refuses invalid UTF-16. */
  function ParseEscape(t: string): (r: Option<(char, string)>)
    ensures r.Some? ==> |r.value.1| < |t|
  {
    if t == [] then None
    else if t[0] == '"' then Some(('"', t[1..]))
    else if t[0] == '\\' then Some(('\\', t[1..]))
    else if t[0] == '/' then Some(('/', t[1..]))
    else if t[0] == 'b' then Some(('\U{8}', t[1..]))
    else if t[0] == 'f' then Some(('\U{C}', t[1..]))
    else if t[0] == 'n' then Some(('\n', t[1..]))
    else if t[0] == 'r' then Some(('\r', t[1..]))
    else if t[0] == 't' then Some(('\t', t[1..]))
    else if t[0] == 'u' then
      match ParseHex4(t[1..])
      case None => None
      case Some((h, rest)) =>
        if 0xDC00 <= h < 0xE000 then None
        else if h < 0xD800 || h >= 0xE000 then Some((h as char, rest))
        else if |rest| >= 2 && rest[0] == '\\' && rest[1] == 'u' then
          match ParseHex4(rest[2..])
          case None => None
          case Some((l, rest2)) =>
            if 0xDC00 <= l < 0xE000 then Some(((0x10000 + (h - 0xD800) * 0x400 + (l - 0xDC00)) as char, rest2))
            else None
        else None
    else None
  }

  /** The text after an opening quote, up to and including the closing quote. */
  function ParseStringBody(t: string): (r: Option<(string, string)>)
    ensures r.Some? ==> |r.value.1| < |t|
    decreases |t|
  {
    if t == [] then None
    else if t[0] == '"' then Some(([], t[1..]))
    else if t[0] == '\\' then
      match ParseEscape(t[1..])
      case None => None
      case Some((c, rest)) =>
        match ParseStringBody(rest)
        case None => None
        case Some((s, rest2)) => Some(([c] + s, rest2))
    else if t[0] < ' ' then None
    else
      match ParseStringBody(t[1..])
      case None => None
      case Some((s, rest)) => Some(([t[0]] + s, rest))
  }

  function ParseString(t: string): (r: Option<(string, string)>)
    ensures r.Some? ==> |r.value.1| < |t|
  {
    var t1 := SkipWhiteSpace(t);
    if t1 != [] && t1[0] == '"' then ParseStringBody(t1[1..]) else None
  }

  /** One `"key": "value"` pair, up to the end of the value. */
  function ParseMember(t: string): (r: Option<((string, string), string)>)
    ensures r.Some? ==> |r.value.1| < |t|
  {
    match ParseString(t)
    case None => None
    case Some((k, t1)) =>
      var t2 := SkipWhiteSpace(t1);
      if t2 == [] || t2[0] != ':' then None
      else
        match ParseString(t2[1..])
        case None => None
        case Some((v, t3)) => Some(((k, v), t3))
  }

  /** Members after the opening brace of a non-empty object, through the closing brace. */
  function ParseMembers(t: string): (r: Option<(seq<(string, string)>, string)>)
    ensures r.Some? ==> |r.value.1| < |t|
    decreases |t|
  {
    match ParseMember(t)
    case None => None
    case Some((e, t3)) =>
      var t4 := SkipWhiteSpace(t3);
      if t4 == [] then None
      else if t4[0] == '}' then Some(([e], t4[1..]))
      else if t4[0] == ',' then
        match ParseMembers(t4[1..])
        case None => None
        case Some((es, t5)) => Some(([e] + es, t5))
      else None
  }

  /** An object whose values are all strings, with nothing but white space around it;
      None for any other text (where the reader throws). */
  function ParseObject(t: string): Option<seq<(string, string)>> {
    var t1 := SkipWhiteSpace(t);
    if t1 == [] || t1[0] != '{' then None
    else
      var t2 := SkipWhiteSpace(t1[1..]);
      if t2 != [] && t2[0] == '}' then
        if SkipWhiteSpace(t2[1..]) == [] then Some([]) else None
      else
        match ParseMembers(t2)
        case None => None
        case Some((es, rest)) => if SkipWhiteSpace(rest) == [] then Some(es) else None
  }

  // ---------------------------------------------------------------- round trip

  lemma {:induction false} Split4(n: int)
    requires 0 <= n < 0x10000
    ensures (n / 4096) * 4096 + ((n / 256) % 16) * 256 + ((n / 16) % 16) * 16 + n % 16 == n
  {
    var q1 := n / 16;
    var q2 := q1 / 16;
    assert n == q1 * 16 + n % 16;
    assert q1 == q2 * 16 + q1 % 16;
    assert n / 256 == q2;
    assert q2 == (q2 / 16) * 16 + q2 % 16;
    assert n / 4096 == q2 / 16;
  }

  lemma {:induction false} ParseHex4Of(n: nat, rest: string)
    requires n < 0x10000
    ensures ParseHex4(Hex4(n) + rest) == Some((n, rest))
  {
    HexValueOfDigit(n / 4096);
    HexValueOfDigit((n / 256) % 16);
    HexValueOfDigit((n / 16) % 16);
    HexValueOfDigit(n % 16);
    Split4(n);
    assert (Hex4(n) + rest)[4..] == rest;
  }

  lemma {:induction false} ParseUnicodeEscape(n: nat, rest: string)
    requires n < 0xD800 || 0xE000 <= n < 0x10000
    ensures ParseEscape(UnicodeEscape(n)[1..] + rest) == Some((n as char, rest))
  {
    assert UnicodeEscape(n)[1..] + rest == ['u'] + (Hex4(n) + rest);
    ParseHex4Of(n, rest);
  }

  /** The high and low surrogates of a supplementary character put it back together. */
  lemma {:induction false} SurrogateSplit(n: int)
    requires 0 <= n < 0x100000
    ensures 0 <= n / 0x400 < 0x400 && 0 <= n % 0x400 < 0x400
    ensures (n / 0x400) * 0x400 + n % 0x400 == n
  {
  }

  /** `\uHHHH\uLLLL` with a high then a low surrogate reads as one character. */
  lemma {:induction false} ParseSurrogateEscape(x: string, h: nat, y: string, l: nat, rest: string)
    requires ParseHex4(x) == Some((h, ['\\', 'u'] + y)) && 0xD800 <= h < 0xDC00
    requires ParseHex4(y) == Some((l, rest)) && 0xDC00 <= l < 0xE000
    ensures ParseEscape(['u'] + x) == Some(((0x10000 + (h - 0xD800) * 0x400 + (l - 0xDC00)) as char, rest))
  {
    assert (['u'] + x)[1..] == x;
    assert (['\\', 'u'] + y)[2..] == y;
  }

  lemma {:induction false} ParseSurrogatePair(c: char, rest: string)
    requires c as int >= 0x10000
    ensures ParseEscape(EscapeChar(c)[1..] + rest) == Some((c, rest))
  {
    var n := c as int - 0x10000;
    SurrogateSplit(n);
    var h, l := 0xD800 + n / 0x400, 0xDC00 + n % 0x400;
    assert 0x10000 + (h - 0xD800) * 0x400 + (l - 0xDC00) == c as int;
    assert EscapeChar(c) == UnicodeEscape(h) + UnicodeEscape(l);
    ParseSurrogateText(h, l, rest);
  }

  /** The two escapes of a surrogate pair, read back. */
  lemma {:induction false} ParseSurrogateText(h: nat, l: nat, rest: string)
    requires 0xD800 <= h < 0xDC00 <= l < 0xE000
    ensures ParseEscape((UnicodeEscape(h) + UnicodeEscape(l))[1..] + rest) ==
      Some(((0x10000 + (h - 0xD800) * 0x400 + (l - 0xDC00)) as char, rest))
  {
    var y := Hex4(l) + rest;
    var tail := UnicodeEscape(l) + rest;
    assert tail == ['\\', 'u'] + y;
    var e := UnicodeEscape(h) + UnicodeEscape(l);
    assert e[1..] == (['u'] + Hex4(h)) + UnicodeEscape(l);
    ConcatAssoc(['u'] + Hex4(h), UnicodeEscape(l), rest);
    ConcatAssoc(['u'], Hex4(h), tail);
    ParseHex4Of(h, tail);
    ParseHex4Of(l, rest);
    ParseSurrogateEscape(Hex4(h) + tail, h, y, l, rest);
  }

  /** The reader turns each escape sequence the writer emits back into its character. */
  lemma {:induction false} ParseEscapeOf(c: char, rest: string)
    requires !IsPlain(c)
    ensures ParseEscape(EscapeChar(c)[1..] + rest) == Some((c, rest))
  {
    if c == '\\' || c == '\n' || c == '\r' || c == '\t' || c == '\U{8}' || c == '\U{C}' {
    } else if (c as int) < 0x10000 {
      ParseUnicodeEscape(c as int, rest);
    } else {
      ParseSurrogatePair(c, rest);
    }
  }

  lemma {:induction false} ParseStringBodyCons(c: char, t: string)
    ensures ParseStringBody(EscapeChar(c) + t) ==
      match ParseStringBody(t)
      case None => None
      case Some((s, rest)) => Some(([c] + s, rest))
  {
    var e := EscapeChar(c);
    if IsPlain(c) {
      assert (e + t)[1..] == t;
    } else {
      assert (e + t)[1..] == e[1..] + t;
      ParseEscapeOf(c, t);
    }
  }

  /** Reading a written string literal gives back the string and the text after it. */
  lemma {:induction false} ParseStringBodyOf(s: string, rest: string)
    ensures ParseStringBody(EscapeString(s) + ['"'] + rest) == Some((s, rest))
  {
    if s == [] {
      assert EscapeString(s) + ['"'] + rest == ['"'] + rest;
    } else {
      var t := EscapeString(s[1..]) + ['"'] + rest;
      assert EscapeString(s) + ['"'] + rest == EscapeChar(s[0]) + t;
      ParseStringBodyCons(s[0], t);
      ParseStringBodyOf(s[1..], rest);
      assert [s[0]] + s[1..] == s;
    }
  }

  lemma {:induction false} ParseStringOf(s: string, rest: string)
    ensures ParseString(Quote(s) + rest) == Some((s, rest))
  {
    var t := Quote(s) + rest;
    assert t[1..] == EscapeString(s) + ['"'] + rest;
    ParseStringBodyOf(s, rest);
  }

  lemma {:induction false} SkipNothing(t: string)
    requires t != [] && !IsJsonWhiteSpace(t[0])
    ensures SkipWhiteSpace(t) == t
  {
  }

  lemma {:induction false} ParseMemberOf(k: string, v: string, after: string)
    ensures ParseMember(Quote(k) + ([':'] + (Quote(v) + after))) == Some(((k, v), after))
  {
    var afterKey := [':'] + (Quote(v) + after);
    ParseStringOf(k, afterKey);
    SkipNothing(afterKey);
    assert afterKey[1..] == Quote(v) + after;
    ParseStringOf(v, after);
  }

  /** After a member, a closing brace ends the list. */
  lemma {:induction false} ParseLastMember(t: string, e: (string, string), rest: string)
    requires ParseMember(t) == Some((e, ['}'] + rest))
    ensures ParseMembers(t) == Some(([e], rest))
  {
    SkipNothing(['}'] + rest);
    assert (['}'] + rest)[1..] == rest;
  }

  /** After a member, a comma is followed by the remaining members. */
  lemma {:induction false} ParseNextMember(t: string, e: (string, string), more: string)
    requires ParseMember(t) == Some((e, [','] + more))
    ensures ParseMembers(t) ==
      match ParseMembers(more)
      case None => None
      case Some((es, t5)) => Some(([e] + es, t5))
  {
    SkipNothing([','] + more);
    assert ([','] + more)[1..] == more;
  }

  /** The text of the last member, then the closing brace and what follows it. */
  lemma {:induction false} MembersLast(es: seq<(string, string)>, rest: string)
    requires |es| == 1
    ensures Members(es) + ['}'] + rest == Quote(es[0].0) + ([':'] + (Quote(es[0].1) + (['}'] + rest)))
  {
    var q, c, v := Quote(es[0].0), [':'], Quote(es[0].1);
    ConcatAssoc(q + (c + v), ['}'], rest);
    ConcatAssoc(q, c + v, ['}'] + rest);
    ConcatAssoc(c, v, ['}'] + rest);
  }

  /** The text of a member followed by more members, the closing brace and what follows. */
  lemma {:induction false} MembersNext(es: seq<(string, string)>, rest: string)
    requires |es| > 1
    ensures Members(es) + ['}'] + rest ==
      Quote(es[0].0) + ([':'] + (Quote(es[0].1) + ([','] + (Members(es[1..]) + ['}'] + rest))))
  {
    var q, c, v, m := Quote(es[0].0), [':'], Quote(es[0].1), Members(es[1..]);
    var t := ['}'] + rest;
    ConcatAssoc(m, ['}'], rest);
    ConcatAssoc(Members(es), ['}'], rest);
    ConcatAssoc(q, c + (v + ([','] + m)), t);
    ConcatAssoc(c, v + ([','] + m), t);
    ConcatAssoc(v, [','] + m, t);
    ConcatAssoc([','], m, t);
  }

  lemma {:induction false} ParseMembersLast(es: seq<(string, string)>, rest: string)
    requires |es| == 1
    ensures ParseMembers(Members(es) + ['}'] + rest) == Some((es, rest))
  {
    MembersLast(es, rest);
    ParseMemberOf(es[0].0, es[0].1, ['}'] + rest);
    ParseLastMember(Members(es) + ['}'] + rest, es[0], rest);
    assert [es[0]] == es;
  }

  lemma {:induction false} ParseMembersNext(es: seq<(string, string)>, rest: string)
    requires |es| > 1
    requires ParseMembers(Members(es[1..]) + ['}'] + rest) == Some((es[1..], rest))
    ensures ParseMembers(Members(es) + ['}'] + rest) == Some((es, rest))
  {
    var more := Members(es[1..]) + ['}'] + rest;
    MembersNext(es, rest);
    ParseMemberOf(es[0].0, es[0].1, [','] + more);
    ParseNextMember(Members(es) + ['}'] + rest, es[0], more);
    assert [es[0]] + es[1..] == es;
  }

  lemma {:induction false} ParseMembersOf(es: seq<(string, string)>, rest: string)
    requires es != []
    ensures ParseMembers(Members(es) + ['}'] + rest) == Some((es, rest))
    decreases |es|
  {
    if |es| == 1 {
      ParseMembersLast(es, rest);
    } else {
      ParseMembersOf(es[1..], rest);
      ParseMembersNext(es, rest);
    }
  }

  lemma {:induction false} MembersStartWithQuote(es: seq<(string, string)>)
    requires es != []
    ensures Members(es) != [] && Members(es)[0] == '"'
  {
  }

  lemma {:induction false} ParseEmptyObject()
    ensures ParseObject(SerializeObject([])) == Some([])
  {
    var t := SerializeObject([]);
    assert t == ['{', '}'];
    assert t[1..] == ['}'] && t[1..][1..] == [];
  }

  lemma {:induction false} ParseNonEmptyObject(es: seq<(string, string)>)
    requires es != []
    ensures ParseObject(SerializeObject(es)) == Some(es)
  {
    var t := SerializeObject(es);
    var body := Members(es) + ['}'] + [];
    SkipNothing(t);
    assert t[1..] == body by {
      ConcatAssoc(['{'], Members(es), ['}']);
    }
    MembersStartWithQuote(es);
    SkipNothing(body);
    assert ParseMembers(body) == Some((es, [])) by {
      ParseMembersOf(es, []);
    }
    assert SkipWhiteSpace(t) == t && t[0] == '{';
    assert SkipWhiteSpace(t[1..]) == body && body[0] != '}';
  }

  /** The reader reads back exactly the entries the writer wrote, in order. */
  lemma {:induction false} ParseObjectRoundTrip(es: seq<(string, string)>)
    ensures ParseObject(SerializeObject(es)) == Some(es)
  {
    if es == [] {
      ParseEmptyObject();
    } else {
      ParseNonEmptyObject(es);
    }
  }

  // ------------------------------------------------------------ text without escapes

  /** Text the reader takes character for character inside a string: no quote, no
      backslash, no control character. */
  predicate RawText(s: string) {
    forall i :: 0 <= i < |s| ==> s[i] != '"' && s[i] != '\\' && s[i] >= ' '
  }

  /** An object with one member, name and value written without escapes. */
  function RawObject(k: string, v: string): string {
    ['{', '"'] + k + ['"', ':', '"'] + v + ['"', '}']
  }

  lemma {:induction false} ParseRawBody(s: string, rest: string)
    requires RawText(s)
    ensures ParseStringBody(s + ['"'] + rest) == Some((s, rest))
  {
    var t := s + ['"'] + rest;
    if s == [] {
      assert t == ['"'] + rest;
    } else {
      assert t[0] == s[0] && t[1..] == s[1..] + ['"'] + rest;
      assert RawText(s[1..]) by {
        assert forall i :: 0 <= i < |s| - 1 ==> s[1..][i] == s[i + 1];
      }
      ParseRawBody(s[1..], rest);
      assert [s[0]] + s[1..] == s;
    }
  }

  /** The reader reads a one-member object whose name and value need no escapes, even
      when the value was never escaped by the writer. */
  lemma {:induction false} ParseRawObject(k: string, v: string)
    requires RawText(k) && RawText(v)
    ensures ParseObject(RawObject(k, v)) == Some([(k, v)])
  {
    var t := RawObject(k, v);
    var afterKey := [':', '"'] + v + ['"', '}'];
    var afterValue := ['}'];
    assert t[1..] == ['"'] + (k + ['"'] + afterKey);
    assert t[1..][1..] == k + ['"'] + afterKey;
    SkipNothing(t[1..]);
    ParseRawBody(k, afterKey);
    assert ParseString(t[1..]) == Some((k, afterKey));
    assert afterKey[1..] == ['"'] + (v + ['"'] + afterValue);
    assert afterKey[1..][1..] == v + ['"'] + afterValue;
    SkipNothing(afterKey);
    SkipNothing(afterKey[1..]);
    ParseRawBody(v, afterValue);
    assert ParseString(afterKey[1..]) == Some((v, afterValue));
    assert ParseMember(t[1..]) == Some(((k, v), afterValue));
    assert afterValue == ['}'] + [];
    ParseLastMember(t[1..], (k, v), []);
  }

  /** A one-member object whose name and value are plain is written without escapes. */
  lemma {:induction false} SerializePlainMember(k: string, v: string)
    requires EscapeString(k) == k && EscapeString(v) == v
    ensures SerializeObject([(k, v)]) == RawObject(k, v)
  {
  }

  /** A backslash put back into the JSON text is read as the start of an escape: a
      restored `\t` comes back as a tab. */
  lemma {:induction false} BackslashIsEscape()
    ensures ParseStringBody(['\\', 't', '"']) == Some((['\t'], []))
  {
    var t := ['\\', 't', '"'];
    assert t[1..] == ['t', '"'] && ParseEscape(t[1..]) == Some(('\t', ['"']));
    assert ParseStringBody(['"']) == Some(([], []));
    assert ParseStringBody(t) == Some((['\t'] + [], []));
    assert ['\t'] + [] == ['\t'];
  }

  /** Plain text is raw text. */
  lemma {:induction false} PlainIsRaw(s: string)
    requires EscapeString(s) == s
    ensures RawText(s)
  {
    EscapeUnchanged(s);
  }
}
