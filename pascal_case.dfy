/**
 * ConvertToPascalCase, the local function of ExportKeyValues that turns a group key
 * into the dictionary key: six regular-expression rewrites over a split into words.
 */
module PascalCase {
  import opened Wrappers
  import opened Chars
  import opened Strings

  /** Replace with (?<=\s) and "_": an underscore after every white-space character. */
  function MarkWhiteSpace(s: string): (r: string)
  {
    if s == [] then []
    else [s[0]] + (if IsWhiteSpace(s[0]) then ['_'] else []) + MarkWhiteSpace(s[1..])
  }

  /** Replace with [^_a-zA-Z0-9] and "": keeps letters, digits and '_'. */
  function RemoveInvalid(s: string): (r: string)
    ensures forall i :: 0 <= i < |r| ==> IsWordChar(r[i])
  {
    if s == [] then []
    else (if IsWordChar(s[0]) then [s[0]] else []) + RemoveInvalid(s[1..])
  }

  /** Split("_", StringSplitOptions.RemoveEmptyEntries) */
  function Words(s: string): (ws: seq<string>)
    ensures forall i :: 0 <= i < |ws| ==> ws[i] != [] && forall k :: 0 <= k < |ws[i]| ==> ws[i][k] != '_'
    decreases |s|
  {
    var i := IndexOfChar(s, '_');
    (if i > 0 then [s[..i]] else []) + (if i < |s| then Words(s[i + 1..]) else [])
  }

  /** Replace with ^[a-z] and ToUpper: a leading lower-case letter is capitalised. */
  function CapitalizeFirst(w: string): (r: string)
    ensures |r| == |w|
  {
    if w != [] && IsLower(w[0]) then [ToUpper(w[0])] + w[1..] else w
  }

  predicate IsUpperOrDigit(c: char) { IsUpper(c) || IsDigit(c) }

  /** The regex (?<=[A-Z])[A-Z0-9]+$ matches at `p`: an upper-case letter before it and
      only upper-case letters and digits from `p` to the end. */
  predicate CapsTailAt(w: string, p: nat) {
    1 <= p < |w| && IsUpper(w[p - 1]) && forall k :: p <= k < |w| ==> IsUpperOrDigit(w[k])
  }

  /** The first position, at or after `p`, where that regex matches; |w| for none. */
  function CapsTailFrom(w: string, p: nat): (t: nat)
    requires 1 <= p <= |w|
    ensures p <= t <= |w| && (t < |w| ==> CapsTailAt(w, t))
    ensures forall k :: p <= k < t ==> !CapsTailAt(w, k)
    decreases |w| - p
  {
    if p == |w| || CapsTailAt(w, p) then p else CapsTailFrom(w, p + 1)
  }

  /** Replace with (?<=[A-Z])[A-Z0-9]+$ and ToLower: an all-caps tail after a capital is
      lower-cased (ABC to Abc). It matches once, or not at all. */
  function LowerCapsTail(w: string): (r: string)
    ensures |r| == |w|
  {
    if w == [] then w
    else
      var t := CapsTailFrom(w, 1);
      w[..t] + Lower(w[t..])
  }

  /** Replace with (?<=[0-9])[a-z] and ToUpper: a lower-case letter after a digit is
      capitalised (Ab9cd to Ab9Cd). */
  function UpperAfterDigit(w: string): (r: string)
    ensures |r| == |w|
    ensures forall i :: 0 <= i < |w| ==> r[i] == (if i > 0 && IsDigit(w[i - 1]) then ToUpper(w[i]) else w[i])
  {
    seq(|w|, i requires 0 <= i < |w| => if i > 0 && IsDigit(w[i - 1]) then ToUpper(w[i]) else w[i])
  }

  /** End of the run of upper-case letters that begins at `p`. */
  function UpperRunEnd(w: string, p: nat): (r: nat)
    requires p <= |w|
    ensures p <= r <= |w| && (r < |w| ==> !IsUpper(w[r]))
    ensures forall k :: p <= k < r ==> IsUpper(w[k])
    decreases |w| - p
  {
    if p < |w| && IsUpper(w[p]) then UpperRunEnd(w, p + 1) else p
  }

  /** The end of a match of (?<=[A-Z])[A-Z]+?((?=[A-Z][a-z])|(?=[0-9])) at `p`. The lazy
      [A-Z]+? stops at the first end that a lookahead accepts: before the last capital of
      the run when a lower-case letter follows the run, or at the end of the run when a
      digit follows it. */
  function InnerCapsMatch(w: string, p: nat): (r: Option<nat>)
    requires p < |w|
    ensures r.Some? ==> p < r.value < |w| && 1 <= p && IsUpper(w[p - 1])
    ensures r.Some? ==> forall k :: p <= k < r.value ==> IsUpper(w[k])
  {
    if 1 <= p && IsUpper(w[p - 1]) && IsUpper(w[p]) then
      var r := UpperRunEnd(w, p);
      if r >= p + 2 && r < |w| && IsLower(w[r]) then Some(r - 1)
      else if r < |w| && IsDigit(w[r]) then Some(r)
      else None
    else None
  }

  /** Replace with that regex and ToLower, from position `pos`: inner runs of capitals
      are lower-cased (ABCDef to AbcDef). Matches are found on the original word and do
      not overlap. */
  function LowerInnerCapsFrom(w: string, pos: nat): (r: string)
    requires pos <= |w|
    ensures |r| == |w| - pos
    decreases |w| - pos
  {
    if pos == |w| then []
    else
      match InnerCapsMatch(w, pos)
      case Some(e) => Lower(w[pos..e]) + LowerInnerCapsFrom(w, e)
      case None => [w[pos]] + LowerInnerCapsFrom(w, pos + 1)
  }

  /** Every character of the rewritten suffix is the original one, or a capital after a
      capital lower-cased. */
  lemma {:induction false} LowerInnerCapsFromChars(w: string, pos: nat)
    requires pos <= |w|
    ensures forall j :: 0 <= j < |w| - pos ==> InnerCapsChar(w, pos + j, LowerInnerCapsFrom(w, pos)[j])
    decreases |w| - pos
  {
    if pos < |w| {
      var r := LowerInnerCapsFrom(w, pos);
      match InnerCapsMatch(w, pos)
      case Some(e) =>
        var rest := LowerInnerCapsFrom(w, e);
        LowerInnerCapsFromChars(w, e);
        assert r == Lower(w[pos..e]) + rest;
        forall j | 0 <= j < |w| - pos ensures InnerCapsChar(w, pos + j, r[j]) {
          if j < e - pos {
            assert r[j] == ToLower(w[pos + j]);
          } else {
            assert r[j] == rest[j - (e - pos)];
            assert InnerCapsChar(w, e + (j - (e - pos)), rest[j - (e - pos)]);
          }
        }
      case None =>
        var rest := LowerInnerCapsFrom(w, pos + 1);
        LowerInnerCapsFromChars(w, pos + 1);
        assert r == [w[pos]] + rest;
        forall j | 0 <= j < |w| - pos ensures InnerCapsChar(w, pos + j, r[j]) {
          if j > 0 {
            assert r[j] == rest[j - 1];
            assert InnerCapsChar(w, pos + 1 + (j - 1), rest[j - 1]);
          }
        }
    }
  }

  /** What the rewrite can do to the character at `i`: keep it, or lower-case a capital
      that follows a capital. */
  predicate InnerCapsChar(w: string, i: nat, c: char)
    requires i < |w|
  {
    c == w[i] || (1 <= i && IsUpper(w[i - 1]) && IsUpper(w[i]) && c == ToLower(w[i]))
  }

  function LowerInnerCaps(w: string): (r: string)
    ensures |r| == |w|
    ensures forall i :: 0 <= i < |w| ==> InnerCapsChar(w, i, r[i])
  {
    LowerInnerCapsFromChars(w, 0);
    LowerInnerCapsFrom(w, 0)
  }

  /** The four rewrites applied to one word, in the order of the Select calls. */
  function NormalizeWord(w: string): (r: string)
    ensures |r| == |w|
  {
    LowerInnerCaps(UpperAfterDigit(LowerCapsTail(CapitalizeFirst(w))))
  }

  function ConcatWords(ws: seq<string>): string {
    if ws == [] then [] else NormalizeWord(ws[0]) + ConcatWords(ws[1..])
  }

  /** ConvertToPascalCase */
  function ToPascalCase(input: string): (r: string)
  {
    ConcatWords(Words(RemoveInvalid(MarkWhiteSpace(input))))
  }

  // ------------------------------------------------------------ properties

  predicate AllAlnum(s: string) {
    forall i :: 0 <= i < |s| ==> IsAlnum(s[i])
  }

  /** The letters and digits of `s`, in order. */
  function AlnumOnly(s: string): (r: string)
    ensures AllAlnum(r) && |r| <= |s|
  {
    if s == [] then [] else (if IsAlnum(s[0]) then [s[0]] else []) + AlnumOnly(s[1..])
  }

  function DropUnderscores(s: string): string {
    if s == [] then [] else (if s[0] == '_' then [] else [s[0]]) + DropUnderscores(s[1..])
  }

  function Flatten(ws: seq<string>): string {
    if ws == [] then [] else ws[0] + Flatten(ws[1..])
  }

  lemma {:induction false} RemoveInvalidConcat(a: string, b: string)
    ensures RemoveInvalid(a + b) == RemoveInvalid(a) + RemoveInvalid(b)
  {
    if a == [] {
      assert a + b == b;
    } else {
      assert (a + b)[0] == a[0] && (a + b)[1..] == a[1..] + b;
      RemoveInvalidConcat(a[1..], b);
      var c := if IsWordChar(a[0]) then [a[0]] else [];
      assert c + RemoveInvalid(a[1..]) + RemoveInvalid(b) == c + (RemoveInvalid(a[1..]) + RemoveInvalid(b));
    }
  }

  lemma {:induction false} DropUnderscoresConcat(a: string, b: string)
    ensures DropUnderscores(a + b) == DropUnderscores(a) + DropUnderscores(b)
  {
    if a == [] {
      assert a + b == b;
    } else {
      assert (a + b)[0] == a[0] && (a + b)[1..] == a[1..] + b;
      DropUnderscoresConcat(a[1..], b);
      var c := if a[0] == '_' then [] else [a[0]];
      assert c + DropUnderscores(a[1..]) + DropUnderscores(b) == c + (DropUnderscores(a[1..]) + DropUnderscores(b));
    }
  }

  lemma {:induction false} FlattenConcat(a: seq<string>, b: seq<string>)
    ensures Flatten(a + b) == Flatten(a) + Flatten(b)
  {
    if a == [] {
      assert a + b == b;
    } else {
      assert (a + b)[0] == a[0] && (a + b)[1..] == a[1..] + b;
      FlattenConcat(a[1..], b);
      assert a[0] + Flatten(a[1..]) + Flatten(b) == a[0] + (Flatten(a[1..]) + Flatten(b));
    }
  }

  /** Marking white space and removing invalid characters leaves the letters and digits
      of the input, with an '_' for every other '_' or white-space character. */
  lemma {:induction false} SanitizedLetters(x: string)
    ensures DropUnderscores(RemoveInvalid(MarkWhiteSpace(x))) == AlnumOnly(x)
  {
    if x != [] {
      var c := x[0];
      var mark := [c] + (if IsWhiteSpace(c) then ['_'] else []);
      assert MarkWhiteSpace(x) == mark + MarkWhiteSpace(x[1..]);
      RemoveInvalidConcat(mark, MarkWhiteSpace(x[1..]));
      if IsWhiteSpace(c) {
        RemoveInvalidConcat([c], ['_']);
        assert RemoveInvalid(mark) == ['_'];
      } else {
        assert mark == [c];
      }
      DropUnderscoresConcat(RemoveInvalid(mark), RemoveInvalid(MarkWhiteSpace(x[1..])));
      SanitizedLetters(x[1..]);
    }
  }

  lemma {:induction false} DropUnderscoresNone(s: string)
    requires forall k :: 0 <= k < |s| ==> s[k] != '_'
    ensures DropUnderscores(s) == s
  {
    if s != [] {
      DropUnderscoresNone(s[1..]);
    }
  }

  /** The first word, joined back, is the text before the first '_'. */
  lemma {:induction false} FlattenHead(s: string)
    ensures var i := IndexOfChar(s, '_');
      Flatten(if i > 0 then [s[..i]] else []) == s[..i] == DropUnderscores(s[..i])
  {
    var i := IndexOfChar(s, '_');
    DropUnderscoresNone(s[..i]);
    if i > 0 {
      assert Flatten([s[..i]]) == s[..i] + Flatten([]);
    }
  }

  lemma {:induction false} FlattenWordsStep(s: string)
    requires IndexOfChar(s, '_') < |s|
    ensures Flatten(Words(s)) == s[..IndexOfChar(s, '_')] + Flatten(Words(s[IndexOfChar(s, '_') + 1..]))
  {
    var i := IndexOfChar(s, '_');
    var head: seq<string> := if i > 0 then [s[..i]] else [];
    var tail := Words(s[i + 1..]);
    FlattenHead(s);
    assert Words(s) == head + tail;
    FlattenConcat(head, tail);
  }

  lemma {:induction false} DropUnderscoresStep(s: string)
    requires IndexOfChar(s, '_') < |s|
    ensures DropUnderscores(s) == s[..IndexOfChar(s, '_')] + DropUnderscores(s[IndexOfChar(s, '_') + 1..])
  {
    var i := IndexOfChar(s, '_');
    var h, t := s[..i], s[i..];
    FlattenHead(s);
    assert s == h + t;
    DropUnderscoresConcat(h, t);
    assert t[0] == '_' && t[1..] == s[i + 1..];
    assert DropUnderscores(t) == [] + DropUnderscores(t[1..]);
  }

  lemma {:induction false} FlattenWordsLast(s: string)
    requires IndexOfChar(s, '_') == |s|
    ensures Flatten(Words(s)) == DropUnderscores(s)
  {
    var head: seq<string> := if |s| > 0 then [s[..|s|]] else [];
    FlattenHead(s);
    assert Words(s) == head + [];
    assert s[..|s|] == s;
  }

  /** Splitting on '_' and joining the words back loses exactly the underscores. */
  lemma {:induction false} FlattenWords(s: string)
    ensures Flatten(Words(s)) == DropUnderscores(s)
    decreases |s|
  {
    if IndexOfChar(s, '_') < |s| {
      FlattenWordsStep(s);
      DropUnderscoresStep(s);
      FlattenWords(s[IndexOfChar(s, '_') + 1..]);
    } else {
      FlattenWordsLast(s);
    }
  }

  /** Each rewrite changes only the case of letters. */
  lemma {:induction false} UpperCapitalizeFirst(w: string)
    ensures Upper(CapitalizeFirst(w)) == Upper(w)
  {
    var r := CapitalizeFirst(w);
    forall i | 0 <= i < |w| ensures ToUpper(r[i]) == ToUpper(w[i]) {
    }
  }

  lemma {:induction false} UpperLowerCapsTail(w: string)
    ensures Upper(LowerCapsTail(w)) == Upper(w)
  {
    if w != [] {
      var t := CapsTailFrom(w, 1);
      UpperConcat(w[..t], Lower(w[t..]));
      UpperOfLower(w[t..]);
      UpperConcat(w[..t], w[t..]);
      assert w[..t] + w[t..] == w;
    }
  }

  lemma {:induction false} UpperUpperAfterDigit(w: string)
    ensures Upper(UpperAfterDigit(w)) == Upper(w)
  {
    var r := UpperAfterDigit(w);
    forall i | 0 <= i < |w| ensures ToUpper(r[i]) == ToUpper(w[i]) {
    }
  }

  lemma {:induction false} UpperLowerInnerCaps(w: string)
    ensures Upper(LowerInnerCaps(w)) == Upper(w)
  {
    var r := LowerInnerCaps(w);
    forall i | 0 <= i < |w| ensures ToUpper(r[i]) == ToUpper(w[i]) {
      assert InnerCapsChar(w, i, r[i]);
    }
  }

  lemma {:induction false} UpperNormalizeWord(w: string)
    ensures Upper(NormalizeWord(w)) == Upper(w)
  {
    var a := CapitalizeFirst(w);
    var b := LowerCapsTail(a);
    var c := UpperAfterDigit(b);
    UpperCapitalizeFirst(w);
    UpperLowerCapsTail(a);
    UpperUpperAfterDigit(b);
    UpperLowerInnerCaps(c);
  }

  lemma {:induction false} UpperConcatWords(ws: seq<string>)
    ensures Upper(ConcatWords(ws)) == Upper(Flatten(ws))
  {
    if ws != [] {
      UpperConcat(NormalizeWord(ws[0]), ConcatWords(ws[1..]));
      UpperConcat(ws[0], Flatten(ws[1..]));
      UpperNormalizeWord(ws[0]);
      UpperConcatWords(ws[1..]);
    }
  }

  /** Ignoring case, the PascalCase key is exactly the letters and digits of the input:
      white space, '_' and every other character are dropped, and nothing is added. */
  lemma {:induction false} PascalCaseLetters(x: string)
    ensures Upper(ToPascalCase(x)) == Upper(AlnumOnly(x))
  {
    var ws := Words(RemoveInvalid(MarkWhiteSpace(x)));
    UpperConcatWords(ws);
    FlattenWords(RemoveInvalid(MarkWhiteSpace(x)));
    SanitizedLetters(x);
  }

  lemma {:induction false} AlnumOfSameUpper(a: string, b: string)
    requires Upper(a) == Upper(b) && AllAlnum(b)
    ensures AllAlnum(a)
  {
    forall i | 0 <= i < |a| ensures IsAlnum(a[i]) {
      assert ToUpper(a[i]) == Upper(a)[i] == Upper(b)[i] == ToUpper(b[i]);
    }
  }

  /** The key holds only [A-Za-z0-9] (no '_', no white space), one character for each
      letter or digit of the input. */
  lemma {:induction false} PascalCaseAlphabet(x: string)
    ensures AllAlnum(ToPascalCase(x))
    ensures |ToPascalCase(x)| == |AlnumOnly(x)|
  {
    PascalCaseLetters(x);
    AlnumOfSameUpper(ToPascalCase(x), AlnumOnly(x));
  }

  /** No lower-case letter directly after a digit. */
  predicate NoLowerAfterDigit(s: string) {
    forall i :: 1 <= i < |s| && IsDigit(s[i - 1]) ==> !IsLower(s[i])
  }

  /** Every normalised word starts with a capital or a digit, and has no lower-case
      letter after a digit. */
  lemma {:induction false} NormalizeWordShape(w: string)
    requires w != []
    ensures !IsLower(NormalizeWord(w)[0]) && NoLowerAfterDigit(NormalizeWord(w))
  {
    var a := CapitalizeFirst(w);
    var b := LowerCapsTail(a);
    var c := UpperAfterDigit(b);
    var d := LowerInnerCaps(c);
    assert b[0] == a[0] by {
      var t := CapsTailFrom(a, 1);
      assert b == a[..t] + Lower(a[t..]);
    }
    assert NoLowerAfterDigit(c) by {
      forall i | 1 <= i < |c| && IsDigit(c[i - 1]) ensures !IsLower(c[i]) {
        assert IsDigit(b[i - 1]);
      }
    }
    assert d[0] == c[0] by {
      assert InnerCapsChar(c, 0, d[0]);
    }
    forall i | 1 <= i < |d| && IsDigit(d[i - 1]) ensures !IsLower(d[i]) {
      assert InnerCapsChar(c, i - 1, d[i - 1]);
      assert InnerCapsChar(c, i, d[i]);
      assert d[i - 1] == c[i - 1];
    }
  }

  lemma {:induction false} ConcatWordsShape(ws: seq<string>)
    requires forall i :: 0 <= i < |ws| ==> ws[i] != []
    ensures var r := ConcatWords(ws); NoLowerAfterDigit(r) && (r != [] ==> !IsLower(r[0]))
  {
    if ws != [] {
      NormalizeWordShape(ws[0]);
      ConcatWordsShape(ws[1..]);
      ShapeConcat(NormalizeWord(ws[0]), ConcatWords(ws[1..]));
    }
  }

  /** A word of the right shape in front of a text of the right shape. */
  lemma {:induction false} ShapeConcat(a: string, b: string)
    requires a != [] && !IsLower(a[0]) && NoLowerAfterDigit(a)
    requires NoLowerAfterDigit(b) && (b != [] ==> !IsLower(b[0]))
    ensures NoLowerAfterDigit(a + b) && !IsLower((a + b)[0])
  {
    var r := a + b;
    forall i | 1 <= i < |r| && IsDigit(r[i - 1]) ensures !IsLower(r[i]) {
      if i < |a| {
        assert r[i - 1] == a[i - 1] && r[i] == a[i];
      } else if i == |a| {
        assert r[i] == b[0];
      } else {
        assert r[i - 1] == b[i - 1 - |a|] && r[i] == b[i - |a|];
      }
    }
  }

  /** The key starts with a capital or a digit, and a letter after a digit is a capital:
      so a key never contains a digit followed by a lower-case letter. */
  lemma {:induction false} PascalCaseShape(x: string)
    ensures var r := ToPascalCase(x); NoLowerAfterDigit(r) && (r != [] ==> !IsLower(r[0]))
  {
    ConcatWordsShape(Words(RemoveInvalid(MarkWhiteSpace(x))));
  }

  // ------------------------------------------------------- upper-case words

  /** Index of the first capital, or |w|. */
  function FirstUpper(w: string): (f: nat)
    ensures f <= |w| && (f < |w| ==> IsUpper(w[f]))
    ensures forall k :: 0 <= k < f ==> !IsUpper(w[k])
  {
    if w == [] || IsUpper(w[0]) then 0 else 1 + FirstUpper(w[1..])
  }

  /** The rule for a word of capitals and digits (every group key is one, being
      upper-cased): letters after the first capital are lower-cased, except those right
      after a digit. */
  function CapitalizedWord(w: string): (r: string)
    ensures |r| == |w|
  {
    var f := FirstUpper(w);
    seq(|w|, i requires 0 <= i < |w| => if f < i && !IsDigit(w[i - 1]) then ToLower(w[i]) else w[i])
  }

  predicate AllUpperOrDigit(w: string) {
    forall k :: 0 <= k < |w| ==> IsUpperOrDigit(w[k])
  }

  /** No two capitals in a row: the last rewrite then finds nothing to do. */
  predicate NoCapitalPairs(w: string) {
    forall p :: 1 <= p < |w| ==> !(IsUpper(w[p - 1]) && IsUpper(w[p]))
  }

  /** Where the regex matches nowhere, the last rewrite keeps the word. */
  lemma {:induction false} InnerCapsNoMatch(w: string, pos: nat)
    requires pos <= |w| && forall p :: pos <= p < |w| ==> InnerCapsMatch(w, p).None?
    ensures LowerInnerCapsFrom(w, pos) == w[pos..]
    decreases |w| - pos
  {
    if pos < |w| {
      InnerCapsNoMatch(w, pos + 1);
      assert w[pos..] == [w[pos]] + w[pos + 1..];
    }
  }

  lemma {:induction false} InnerCapsNoPairs(w: string, pos: nat)
    requires pos <= |w| && NoCapitalPairs(w)
    ensures LowerInnerCapsFrom(w, pos) == w[pos..]
  {
    InnerCapsNoMatch(w, pos);
  }

  lemma {:induction false} CapsTailOfUpperWord(w: string)
    requires w != [] && AllUpperOrDigit(w)
    ensures CapsTailFrom(w, 1) == if FirstUpper(w) < |w| then FirstUpper(w) + 1 else |w|
  {
    var f := FirstUpper(w);
    var t := CapsTailFrom(w, 1);
    if f + 1 < |w| {
      assert CapsTailAt(w, f + 1);
      assert t <= f + 1;
      assert !IsUpper(w[t - 1]) || t == f + 1;
    } else {
      assert forall p :: 1 <= p < |w| ==> !CapsTailAt(w, p) by {
        forall p | 1 <= p < |w| ensures !CapsTailAt(w, p) {
          assert !IsUpper(w[p - 1]);
        }
      }
    }
  }

  lemma {:induction false} LowerCapsTailOfUpperWord(w: string)
    requires w != [] && AllUpperOrDigit(w)
    ensures forall i :: 0 <= i < |w| ==>
      LowerCapsTail(w)[i] == (if FirstUpper(w) < i then ToLower(w[i]) else w[i])
  {
    var t := CapsTailFrom(w, 1);
    CapsTailOfUpperWord(w);
    var b, l := LowerCapsTail(w), Lower(w[t..]);
    assert b == w[..t] + l;
    forall i | 0 <= i < |w| ensures b[i] == (if FirstUpper(w) < i then ToLower(w[i]) else w[i]) {
      if i < t {
        assert b[i] == w[i];
      } else {
        assert b[i] == l[i - t] == ToLower(w[t..][i - t]);
      }
    }
  }

  /** `b` is the word after the caps-tail rewrite: every letter after the first capital
      lower-cased. */
  lemma {:induction false} CapsTailThenDigitsAt(w: string, b: string, i: nat)
    requires AllUpperOrDigit(w) && |b| == |w| && i < |w|
    requires forall j :: 0 <= j < |w| ==> b[j] == (if FirstUpper(w) < j then ToLower(w[j]) else w[j])
    ensures UpperAfterDigit(b)[i] == CapitalizedWord(w)[i]
  {
    CaseRoundTrip(w[i]);
    assert b[i] == (if FirstUpper(w) < i then ToLower(w[i]) else w[i]);
    if 0 < i {
      CaseRoundTrip(w[i - 1]);
      assert b[i - 1] == (if FirstUpper(w) < i - 1 then ToLower(w[i - 1]) else w[i - 1]);
      assert IsDigit(b[i - 1]) <==> IsDigit(w[i - 1]);
    }
  }

  lemma {:induction false} CapsTailThenDigits(w: string)
    requires w != [] && AllUpperOrDigit(w)
    ensures UpperAfterDigit(LowerCapsTail(w)) == CapitalizedWord(w)
  {
    var b := LowerCapsTail(w);
    LowerCapsTailOfUpperWord(w);
    forall i | 0 <= i < |w| ensures UpperAfterDigit(b)[i] == CapitalizedWord(w)[i] {
      CapsTailThenDigitsAt(w, b, i);
    }
  }

  lemma {:induction false} CaseRoundTrip(c: char)
    requires IsUpperOrDigit(c)
    ensures ToUpper(c) == c && ToUpper(ToLower(c)) == c
  {
  }

  lemma {:induction false} CapitalizedNoPairs(w: string)
    requires AllUpperOrDigit(w)
    ensures NoCapitalPairs(CapitalizedWord(w))
  {
    var f := FirstUpper(w);
    var c := CapitalizedWord(w);
    forall p | 1 <= p < |c| ensures !(IsUpper(c[p - 1]) && IsUpper(c[p])) {
      if p > f + 1 && IsDigit(w[p - 1]) {
        assert c[p - 1] == w[p - 1] || c[p - 1] == ToLower(w[p - 1]);
      }
    }
  }

  /** An upper-case word is normalised by the capitalised-word rule: HTTP to Http,
      APP9NAME to App9Name. */
  lemma {:induction false} NormalizeUpperWord(w: string)
    requires w != [] && AllUpperOrDigit(w)
    ensures NormalizeWord(w) == CapitalizedWord(w)
  {
    assert CapitalizeFirst(w) == w;
    CapsTailThenDigits(w);
    CapitalizedNoPairs(w);
    InnerCapsNoPairs(CapitalizedWord(w), 0);
  }

  // ------------------------------------------------------- the documented examples

  lemma {:induction false} WordsNext(a: string, b: string)
    requires a != [] && forall k :: 0 <= k < |a| ==> a[k] != '_'
    ensures Words(a + ['_'] + b) == [a] + Words(b)
  {
    var s := a + ['_'] + b;
    assert IndexOfChar(s, '_') == |a| by {
      assert s == a + (['_'] + b);
      IndexOfCharAfter(a, '_', ['_'] + b);
    }
    assert s[..|a|] == a && s[|a| + 1..] == b;
  }

  lemma {:induction false} WordsLast(a: string)
    requires a != [] && forall k :: 0 <= k < |a| ==> a[k] != '_'
    ensures Words(a) == [a]
  {
    assert IndexOfChar(a, '_') == |a| by {
      assert a + [] == a;
      IndexOfCharAfter(a, '_', []);
    }
    assert a[..|a|] == a;
  }

  /** A word ending in a lower-case letter has no all-caps tail. */
  lemma {:induction false} NoCapsTail(w: string)
    requires w != [] && IsLower(w[|w| - 1])
    ensures LowerCapsTail(w) == w
  {
    assert CapsTailFrom(w, 1) == |w|;
    assert w[..|w|] == w;
  }

  lemma {:induction false} MarkWhiteSpaceConcat(a: string, b: string)
    ensures MarkWhiteSpace(a + b) == MarkWhiteSpace(a) + MarkWhiteSpace(b)
  {
    if a == [] {
      assert a + b == b;
    } else {
      assert (a + b)[0] == a[0] && (a + b)[1..] == a[1..] + b;
      MarkWhiteSpaceConcat(a[1..], b);
    }
  }

  lemma {:induction false} MarkWhiteSpaceNone(s: string)
    requires AllAlnum(s)
    ensures MarkWhiteSpace(s) == s
  {
    if s != [] {
      MarkWhiteSpaceNone(s[1..]);
    }
  }

  lemma {:induction false} RemoveInvalidNone(s: string)
    requires forall k :: 0 <= k < |s| ==> IsWordChar(s[k])
    ensures RemoveInvalid(s) == s
  {
    if s != [] {
      RemoveInvalidNone(s[1..]);
    }
  }

  /** A single word of letters and digits is only normalised. */
  lemma {:induction false} OneWord(x: string)
    requires x != [] && AllAlnum(x)
    ensures ToPascalCase(x) == NormalizeWord(x)
  {
    MarkWhiteSpaceNone(x);
    RemoveInvalidNone(x);
    WordsLast(x);
    assert ConcatWords([x]) == NormalizeWord(x) + ConcatWords([]);
  }

  lemma {:induction false} MarkTwoWords(a: string, b: string)
    requires AllAlnum(a) && AllAlnum(b)
    ensures MarkWhiteSpace(a + [' '] + b) == a + [' ', '_'] + b
  {
    MarkWhiteSpaceConcat(a + [' '], b);
    MarkWhiteSpaceConcat(a, [' ']);
    MarkWhiteSpaceNone(a);
    MarkWhiteSpaceNone(b);
    assert MarkWhiteSpace([' ']) == [' ', '_'];
  }

  lemma {:induction false} RemoveInvalidTwoWords(a: string, b: string)
    requires AllAlnum(a) && AllAlnum(b)
    ensures RemoveInvalid(a + [' ', '_'] + b) == a + ['_'] + b
  {
    RemoveInvalidConcat(a + [' ', '_'], b);
    RemoveInvalidConcat(a, [' ', '_']);
    RemoveInvalidNone(a);
    RemoveInvalidNone(b);
    assert RemoveInvalid([' ', '_']) == ['_'];
  }

  lemma {:induction false} WordsOfTwo(a: string, b: string)
    requires a != [] && AllAlnum(a) && b != [] && AllAlnum(b)
    ensures Words(a + ['_'] + b) == [a, b]
  {
    WordsNext(a, b);
    WordsLast(b);
  }

  lemma {:induction false} ConcatTwo(a: string, b: string)
    ensures ConcatWords([a, b]) == NormalizeWord(a) + NormalizeWord(b)
  {
    assert ConcatWords([a, b]) == NormalizeWord(a) + ConcatWords([b]);
    assert ConcatWords([b]) == NormalizeWord(b) + ConcatWords([]);
  }

  /** Two words of letters and digits separated by a space are normalised one by one. */
  lemma {:induction false} TwoWords(a: string, b: string)
    requires a != [] && AllAlnum(a) && b != [] && AllAlnum(b)
    ensures ToPascalCase(a + [' '] + b) == NormalizeWord(a) + NormalizeWord(b)
  {
    MarkTwoWords(a, b);
    RemoveInvalidTwoWords(a, b);
    WordsOfTwo(a, b);
    ConcatTwo(a, b);
  }

  /** A separator: at least one character, each white space or '_'. */
  predicate IsSeparator(w: string) {
    w != [] && forall i :: 0 <= i < |w| ==> IsWhiteSpace(w[i]) || w[i] == '_'
  }

  predicate AllUnderscores(u: string) {
    forall i :: 0 <= i < |u| ==> u[i] == '_'
  }

  /** Marking and cleaning a separator leaves a run of underscores, one at least for
      each of its characters. */
  lemma {:induction false} SeparatorUnderscores(w: string)
    requires forall i :: 0 <= i < |w| ==> IsWhiteSpace(w[i]) || w[i] == '_'
    ensures var u := RemoveInvalid(MarkWhiteSpace(w)); AllUnderscores(u) && |u| >= |w|
  {
    if w != [] {
      var head := [w[0]] + (if IsWhiteSpace(w[0]) then ['_'] else []);
      assert forall i :: 1 <= i < |w| ==> w[i] == w[1..][i - 1];
      SeparatorUnderscores(w[1..]);
      RemoveInvalidConcat(head, MarkWhiteSpace(w[1..]));
      assert RemoveInvalid(head) == ['_'] by {
        if IsWhiteSpace(w[0]) {
          assert RemoveInvalid(head) == RemoveInvalid(['_']);
        }
      }
    }
  }

  /** Leading underscores produce no word. */
  lemma {:induction false} WordsAfterUnderscores(u: string, b: string)
    requires AllUnderscores(u)
    ensures Words(u + b) == Words(b)
    decreases |u|
  {
    if u != [] {
      var s := u + b;
      assert s[0] == '_';
      assert IndexOfChar(s, '_') == 0;
      assert s[1..] == u[1..] + b;
      assert Words(s) == Words(s[1..]);
      WordsAfterUnderscores(u[1..], b);
    } else {
      assert u + b == b;
    }
  }

  lemma {:induction false} MarkSeparated(a: string, w: string, b: string)
    requires AllAlnum(a) && AllAlnum(b)
    ensures MarkWhiteSpace(a + w + b) == a + MarkWhiteSpace(w) + b
  {
    MarkWhiteSpaceConcat(a + w, b);
    MarkWhiteSpaceConcat(a, w);
    MarkWhiteSpaceNone(a);
    MarkWhiteSpaceNone(b);
  }

  lemma {:induction false} RemoveInvalidSeparated(a: string, m: string, b: string)
    requires AllAlnum(a) && AllAlnum(b)
    ensures RemoveInvalid(a + m + b) == a + RemoveInvalid(m) + b
  {
    RemoveInvalidConcat(a + m, b);
    RemoveInvalidConcat(a, m);
    RemoveInvalidNone(a);
    RemoveInvalidNone(b);
  }

  lemma {:induction false} WordsSeparated(a: string, u: string, b: string)
    requires a != [] && AllAlnum(a) && b != [] && AllAlnum(b)
    requires u != [] && AllUnderscores(u)
    ensures Words(a + u + b) == [a, b]
  {
    assert a + u + b == a + ['_'] + (u[1..] + b) by {
      assert u == ['_'] + u[1..];
      ConcatAssoc(a, ['_'] + u[1..], b);
      ConcatAssoc(['_'], u[1..], b);
      ConcatAssoc(a, ['_'], u[1..] + b);
    }
    WordsNext(a, u[1..] + b);
    WordsAfterUnderscores(u[1..], b);
    WordsLast(b);
  }

  /** Two words of letters and digits separated by any run of white space and
      underscores are normalised one by one. */
  lemma {:induction false} TwoWordsApart(a: string, w: string, b: string)
    requires a != [] && AllAlnum(a) && b != [] && AllAlnum(b) && IsSeparator(w)
    ensures ToPascalCase(a + w + b) == NormalizeWord(a) + NormalizeWord(b)
  {
    MarkSeparated(a, w, b);
    RemoveInvalidSeparated(a, MarkWhiteSpace(w), b);
    SeparatorUnderscores(w);
    WordsSeparated(a, RemoveInvalid(MarkWhiteSpace(w)), b);
    ConcatTwo(a, b);
  }

  lemma {:induction false} CapitalizedHttp()
    ensures CapitalizedWord("HTTP") == "Http"
  {
    assert FirstUpper("HTTP") == 0;
    var r := CapitalizedWord("HTTP");
    assert r[0] == 'H' && r[1] == 't' && r[2] == 't' && r[3] == 'p';
  }

  lemma {:induction false} CapitalizedMethod()
    ensures CapitalizedWord("METHOD") == "Method"
  {
    assert FirstUpper("METHOD") == 0;
    var r := CapitalizedWord("METHOD");
    assert r[0] == 'M' && r[1] == 'e' && r[2] == 't';
    assert r[3] == 'h' && r[4] == 'o' && r[5] == 'd';
  }

  lemma {:induction false} NormalizeHttp()
    ensures NormalizeWord("HTTP") == "Http"
  {
    NormalizeUpperWord("HTTP");
    CapitalizedHttp();
  }

  lemma {:induction false} NormalizeMethod()
    ensures NormalizeWord("METHOD") == "Method"
  {
    NormalizeUpperWord("METHOD");
    CapitalizedMethod();
  }

  lemma {:induction false} SplitHttpMethod()
    ensures ToPascalCase("HTTP METHOD") == NormalizeWord("HTTP") + NormalizeWord("METHOD")
  {
    assert "HTTP" + [' '] + "METHOD" == "HTTP METHOD";
    TwoWords("HTTP", "METHOD");
  }

  lemma {:induction false} HttpMethodParts()
    ensures ToPascalCase("HTTP METHOD") == "Http" + "Method"
  {
    SplitHttpMethod();
    NormalizeHttp();
    NormalizeMethod();
  }

  /** HTTP METHOD becomes HttpMethod: white space splits words, and an all-caps word
      keeps only its first capital. */
  lemma {:induction false} ExampleHttpMethod()
    ensures ToPascalCase("HTTP METHOD") == "HttpMethod"
  {
    HttpMethodParts();
    JoinHttpMethod();
  }

  lemma {:induction false} JoinHttpMethod()
    ensures "Http" + "Method" == "HttpMethod"
  {
  }

  lemma {:induction false} CapitalizedApp9Name()
    ensures CapitalizedWord("APP9NAME") == "App9Name"
  {
    assert FirstUpper("APP9NAME") == 0;
    var r := CapitalizedWord("APP9NAME");
    assert r[0] == 'A' && r[1] == 'p' && r[2] == 'p' && r[3] == '9';
    assert r[4] == 'N' && r[5] == 'a' && r[6] == 'm' && r[7] == 'e';
  }

  lemma {:induction false} NormalizeApp9Name()
    ensures NormalizeWord("APP9NAME") == "App9Name"
  {
    NormalizeUpperWord("APP9NAME");
    CapitalizedApp9Name();
  }

  /** APP9NAME becomes App9Name: a letter after a digit stays a capital. */
  lemma {:induction false} ExampleApp9Name()
    ensures ToPascalCase("APP9NAME") == "App9Name"
  {
    OneWord("APP9NAME");
    NormalizeApp9Name();
  }

  lemma {:induction false} CapitalizedAbc()
    ensures CapitalizedWord("ABC") == "Abc"
  {
    assert FirstUpper("ABC") == 0;
    var r := CapitalizedWord("ABC");
    assert r[0] == 'A' && r[1] == 'b' && r[2] == 'c';
  }

  lemma {:induction false} NormalizeAbc()
    ensures NormalizeWord("ABC") == "Abc"
  {
    NormalizeUpperWord("ABC");
    CapitalizedAbc();
  }

  /** The comment at the all-caps rule: ABC becomes Abc. */
  lemma {:induction false} ExampleAbc()
    ensures ToPascalCase("ABC") == "Abc"
  {
    OneWord("ABC");
    NormalizeAbc();
  }

  lemma {:induction false} UpperAfterDigitAb9cd()
    ensures UpperAfterDigit("Ab9cd") == "Ab9Cd"
  {
    var u := UpperAfterDigit("Ab9cd");
    assert u[0] == 'A' && u[1] == 'b' && u[2] == '9' && u[3] == 'C' && u[4] == 'd';
  }

  lemma {:induction false} LowerInnerCapsAb9Cd()
    ensures LowerInnerCaps("Ab9Cd") == "Ab9Cd"
  {
    assert NoCapitalPairs("Ab9Cd");
    InnerCapsNoPairs("Ab9Cd", 0);
  }

  lemma {:induction false} NormalizeAb9cd()
    ensures NormalizeWord("Ab9cd") == "Ab9Cd"
  {
    assert CapitalizeFirst("Ab9cd") == "Ab9cd";
    NoCapsTail("Ab9cd");
    UpperAfterDigitAb9cd();
    LowerInnerCapsAb9Cd();
  }

  /** The comment at the digit rule: Ab9cd becomes Ab9Cd. */
  lemma {:induction false} ExampleAb9Cd()
    ensures ToPascalCase("Ab9cd") == "Ab9Cd"
  {
    OneWord("Ab9cd");
    NormalizeAb9cd();
  }

  lemma {:induction false} UpperAfterDigitABcDEf()
    ensures UpperAfterDigit("ABcDEf") == "ABcDEf"
  {
    var u := UpperAfterDigit("ABcDEf");
    assert u[0] == 'A' && u[1] == 'B' && u[2] == 'c';
    assert u[3] == 'D' && u[4] == 'E' && u[5] == 'f';
  }

  lemma {:induction false} LowerInnerCapsABcDEf()
    ensures LowerInnerCaps("ABcDEf") == "ABcDEf"
  {
    var w := "ABcDEf";
    forall p | 0 <= p < |w| ensures InnerCapsMatch(w, p).None? {
      if p == 1 {
        assert UpperRunEnd(w, 1) == 2;
      } else if p == 4 {
        assert UpperRunEnd(w, 4) == 5;
      }
    }
    InnerCapsNoMatch(w, 0);
  }

  lemma {:induction false} NormalizeABcDEf()
    ensures NormalizeWord("ABcDEf") == "ABcDEf"
  {
    assert CapitalizeFirst("ABcDEf") == "ABcDEf";
    NoCapsTail("ABcDEf");
    UpperAfterDigitABcDEf();
    LowerInnerCapsABcDEf();
  }

  /** The comment at the last rule promises AbcDef for ABcDEf, but the rule as written
      finds no match in ABcDEf (each run of capitals is followed by a lower-case letter
      too soon), so the word is kept as it is. */
  lemma {:induction false} ExampleABcDEf()
    ensures ToPascalCase("ABcDEf") == "ABcDEf"
  {
    OneWord("ABcDEf");
    NormalizeABcDEf();
  }

  lemma {:induction false} NormalizeSingleCapital(w: string)
    requires |w| == 1 && IsUpper(w[0])
    ensures NormalizeWord(w) == w
  {
    NormalizeUpperWord(w);
    assert FirstUpper(w) == 0;
    assert CapitalizedWord(w)[0] == w[0];
  }

  lemma {:induction false} CapitalizedAB()
    ensures CapitalizedWord("AB") == "Ab"
  {
    assert FirstUpper("AB") == 0;
    var r := CapitalizedWord("AB");
    assert r[0] == 'A' && r[1] == 'b';
  }

  lemma {:induction false} SplitAB()
    ensures ToPascalCase("A B") == "AB"
  {
    assert "A" + [' '] + "B" == "A B";
    TwoWords("A", "B");
    NormalizeSingleCapital("A");
    NormalizeSingleCapital("B");
  }

  lemma {:induction false} JoinedAB()
    ensures ToPascalCase("AB") == "Ab"
  {
    OneWord("AB");
    NormalizeUpperWord("AB");
    CapitalizedAB();
  }

  /** The conversion is not idempotent: A B becomes AB, which becomes Ab. */
  lemma {:induction false} NotIdempotent()
    ensures ToPascalCase("A B") == "AB"
    ensures ToPascalCase(ToPascalCase("A B")) == "Ab"
  {
    SplitAB();
    JoinedAB();
  }
}
