/**
 * The five regular expressions of CliFactory, each written as the scan the .NET
 * engine performs for it (positions tried left to right, lookbehind, lazy or greedy
 * repetition, and whether '.' matches a line feed).
 */
module CliPatterns {
  import opened Wrappers
  import opened Chars
  import opened Strings

  // ------------------------------------------------ CliTemplatePattern (?<={{[$]).*(?=(}}))

  /** The match of the template pattern with RegexOptions.Singleline, as [start, end):
      from just after the first "{{$" to the last "}}" that begins at or after it.
      A later "{{$" can never do better, since a "}}" after it is also after the first. */
  function TemplateSpan(s: string): (r: Option<(nat, nat)>)
    ensures r.Some? ==> var (b, e) := r.value;
      3 <= b <= e && e + 2 <= |s| && OccursAt(s, b - 3, "{{$") && OccursAt(s, e, "}}")
      && (forall k: nat :: k < b - 3 ==> !OccursAt(s, k, "{{$"))
      && (forall j: nat :: e < j ==> !OccursAt(s, j, "}}"))
  {
    match FindFirst(s, "{{$", 0)
    case None => None
    case Some(f) =>
      match FindLast(s, "}}", f + 3)
      case None => None
      case Some(j) => Some((f + 3, j))
  }

  /** The template pattern matches exactly when some "{{$" is followed, anywhere later,
      by a "}}". */
  lemma {:induction false} TemplateSpanExists(s: string)
    ensures TemplateSpan(s).Some? <==>
      exists k: nat, j: nat :: k + 3 <= j && OccursAt(s, k, "{{$") && OccursAt(s, j, "}}")
  {
    var f := FindFirst(s, "{{$", 0);
    if f.Some? {
      if TemplateSpan(s).None? {
        forall k: nat, j: nat | k + 3 <= j && OccursAt(s, k, "{{$") ensures !OccursAt(s, j, "}}") {
          assert f.value <= k;
        }
      }
    }
  }

  /** A text that begins with "{{$" and ends with "}}" is all template. */
  lemma {:induction false} WrappedSpan(x: string)
    requires |x| >= 5 && OccursAt(x, 0, "{{$") && OccursAt(x, |x| - 2, "}}")
    ensures TemplateSpan(x) == Some((3, |x| - 2))
  {
    FirstAtStart(x, "{{$");
    LastAtEnd(x, "}}", 3);
  }

  /** A text that begins with `p` finds it first at 0. */
  lemma {:induction false} FirstAtStart(x: string, p: string)
    requires OccursAt(x, 0, p)
    ensures FindFirst(x, p, 0) == Some(0)
  {
  }

  /** A text that ends with `p` finds it last at |x| - |p|. */
  lemma {:induction false} LastAtEnd(x: string, p: string, from: nat)
    requires from + |p| <= |x| && OccursAt(x, |x| - |p|, p)
    ensures FindLast(x, p, from) == Some(|x| - |p|)
  {
    var l := FindLast(x, p, from);
    assert l.Some? && l.value >= |x| - |p|;
  }

  /** A body wrapped in "{{$" and "}}", with white space on either side, is extracted
      whatever "{{$" or "}}" it holds itself. */
  lemma {:induction false} ExtractWrapped(w1: string, body: string, w2: string)
    requires AllWhiteSpace(w1) && AllWhiteSpace(w2) && IsTrimmed(body)
    ensures ExtractTemplate("{{$" + w1 + body + w2 + "}}") == body
  {
    var inner := w1 + body + w2;
    var x := "{{$" + inner + "}}";
    assert x == "{{$" + w1 + body + w2 + "}}";
    assert x[..3] == "{{$" && x[|x| - 2..] == "}}";
    WrappedSpan(x);
    assert x[3..|x| - 2] == inner;
    TrimSurrounded(w1, body, w2);
  }

  /** ConfirmCli: a null text is taken as empty. */
  function ConfirmCli(cli: Option<string>): (ok: bool)
    ensures ok <==> cli.Some? && exists k: nat, j: nat ::
      k + 3 <= j && OccursAt(cli.value, k, "{{$") && OccursAt(cli.value, j, "}}")
  {
    var s := if cli.Some? then cli.value else [];
    TemplateSpanExists(s);
    TemplateSpan(s).Some?
  }

  /** The template body: Match.Value ("" when there is no match), trimmed. */
  function ExtractTemplate(s: string): (t: string)
    ensures IsTrimmed(t)
    ensures TemplateSpan(s).None? ==> t == []
    ensures TemplateSpan(s).Some? ==> t == Trim(s[TemplateSpan(s).value.0..TemplateSpan(s).value.1])
  {
    match TemplateSpan(s)
    case None => []
    case Some((b, e)) => Trim(s[b..e])
  }

  // ------------------------------------ NestedCliExpressionPattern \{\{\$.*?(?<={{[$]).*}}

  /** Index of the first line feed at or after `i`, or |s|: without Singleline, '.'
      stops there. */
  function LineEnd(s: string, i: nat): (e: nat)
    requires i <= |s|
    ensures i <= e <= |s| && (e < |s| ==> s[e] == '\n')
    ensures forall k :: i <= k < e ==> s[k] != '\n'
    decreases |s| - i
  {
    if i == |s| || s[i] == '\n' then i else LineEnd(s, i + 1)
  }

  /** The end of a nested-expression match beginning at `p`, if one begins there.
      The lazy `.*?` is satisfied at once (the lookbehind sees the "{{$" just read),
      then the greedy `.*}}` takes the last "}}" before the end of the line. Should that
      fail, a longer `.*?` only helps after a later "{{$" on the same line, and any "}}"
      after that one is also after the first: there is no match at `p`. */
  function NestedMatchEnd(s: string, p: nat): (r: Option<nat>)
    requires p <= |s|
    ensures r.Some? ==> p + 5 <= r.value <= |s| && OccursAt(s, p, "{{$") && OccursAt(s, r.value - 2, "}}")
    ensures r.Some? ==> forall k :: p + 3 <= k < r.value - 2 ==> s[k] != '\n'
    ensures r.Some? ==> r.value <= LineEnd(s, p + 3)
    ensures r.Some? ==> forall j: nat :: r.value - 2 < j && j + 2 <= LineEnd(s, p + 3) ==> !OccursAt(s, j, "}}")
    ensures r.None? <==> (!OccursAt(s, p, "{{$") ||
      forall j: nat :: p + 3 <= j && j + 2 <= LineEnd(s, p + 3) ==> !OccursAt(s, j, "}}"))
  {
    if OccursAt(s, p, "{{$") then
      var e := LineEnd(s, p + 3);
      PrefixOccurrences(s, e, "}}");
      match FindLast(s[..e], "}}", p + 3)
      case None => None
      case Some(j) => Some(j + 2)
    else None
  }

  /** Regex.Matches for the nested-expression pattern from position `pos`: non-overlapping
      matches, each search resuming where the previous match ended. */
  function NestedExpressions(s: string, pos: nat): (es: seq<string>)
    requires pos <= |s|
    ensures forall i :: 0 <= i < |es| ==> IsNestedExpression(es[i])
    decreases |s| - pos
  {
    if pos == |s| then []
    else
      match NestedMatchEnd(s, pos)
      case Some(e) =>
        assert s[pos..e][..3] == s[pos..pos + 3] && s[pos..e][|s[pos..e]| - 2..] == s[e - 2..e];
        [s[pos..e]] + NestedExpressions(s, e)
      case None => NestedExpressions(s, pos + 1)
  }

  /** What every nested expression looks like: "{{$", then a single line, then "}}". */
  predicate IsNestedExpression(e: string) {
    |e| >= 5 && e[..3] == "{{$" && e[|e| - 2..] == "}}"
    && forall k :: 3 <= k < |e| - 2 ==> e[k] != '\n'
  }

  /** A text without "{{$" holds no nested expression. */
  lemma {:induction false} NoNestedExpressions(s: string, pos: nat)
    requires pos <= |s| && !Contains(s, "{{$")
    ensures NestedExpressions(s, pos) == []
    decreases |s| - pos
  {
    if pos < |s| {
      assert !OccursAt(s, pos, "{{$");
      NoNestedExpressions(s, pos + 1);
    }
  }

  /** Positions where no match begins are passed over. */
  lemma {:induction false} NestedExpressionsSkip(s: string, pos: nat, q: nat)
    requires pos <= q <= |s|
    requires forall p :: pos <= p < q ==> NestedMatchEnd(s, p).None?
    ensures NestedExpressions(s, pos) == NestedExpressions(s, q)
    decreases q - pos
  {
    if pos < q {
      NestedExpressionsSkip(s, pos + 1, q);
    }
  }

  /** One expression after a text with no '{' is found whole, even when it holds other
      "{{$" or "}}" of its own. */
  lemma {:induction false} NestedExpressionsOfOne(pre: string, e: string)
    requires IsNestedExpression(e) && forall k :: 0 <= k < |pre| ==> pre[k] != '{'
    ensures NestedExpressions(pre + e, 0) == [e]
  {
    var s, q := pre + e, |pre|;
    NoMatchBeforeExpression(pre, e);
    NestedExpressionsSkip(s, 0, q);
    MatchOfTrailingExpression(pre, e);
    assert s[q..|s|] == e;
    assert NestedExpressions(s, q) == [s[q..|s|]] + NestedExpressions(s, |s|);
  }

  /** No match begins inside a text with no '{'. */
  lemma {:induction false} NoMatchBeforeExpression(pre: string, e: string)
    requires forall k :: 0 <= k < |pre| ==> pre[k] != '{'
    ensures forall p :: 0 <= p < |pre| ==> NestedMatchEnd(pre + e, p).None?
  {
    forall p | 0 <= p < |pre| ensures NestedMatchEnd(pre + e, p).None? {
      assert (pre + e)[p] == pre[p];
      assert !OccursAt(pre + e, p, "{{$");
    }
  }

  /** A nested expression that ends the text is matched up to its end. */
  lemma {:induction false} MatchOfTrailingExpression(pre: string, e: string)
    requires IsNestedExpression(e)
    ensures NestedMatchEnd(pre + e, |pre|) == Some(|pre + e|)
  {
    var s, q := pre + e, |pre|;
    assert s[q..q + 3] == e[..3];
    assert OccursAt(s, q, "{{$");
    ExpressionOnOneLine(pre, e);
    assert s[|s| - 2..] == e[|e| - 2..];
    assert OccursAt(s, |s| - 2, "}}");
  }

  /** The line of a trailing nested expression runs to the end of the text. */
  lemma {:induction false} ExpressionOnOneLine(pre: string, e: string)
    requires IsNestedExpression(e)
    ensures LineEnd(pre + e, |pre| + 3) == |pre + e|
  {
    var s, q := pre + e, |pre|;
    assert e[|e| - 2] == e[|e| - 2..][0] == '}' && e[|e| - 1] == e[|e| - 2..][1] == '}';
    forall k | q + 3 <= k < |s| ensures s[k] != '\n' {
      assert s[k] == e[k - q];
    }
  }

  /** The greedy `.*` runs to the last "}}" of the line: two expressions on one line make
      a single match. */
  lemma {:induction false} GreedyOnOneLine()
    ensures NestedExpressions("{{$a}} {{$b}}", 0) == ["{{$a}} {{$b}}"]
  {
    var e := "{{$a}} {{$b}}";
    assert e[..3] == "{{$" && e[|e| - 2..] == "}}";
    NestedExpressionsOfOne([], e);
    assert [] + e == e;
  }

  // ----------------------------------- ArgumentPattern (?<=--)(.*?)(?=\s+--[\w,/,\.,\$,\*]|$)

  /** The class [\w,/,\.,\$,\*]. */
  predicate IsArgumentLead(c: char) {
    IsWordChar(c) || c == ',' || c == '/' || c == '.' || c == '$' || c == '*'
  }

  /** End of the run of white space that begins at `q`. */
  function WhiteSpaceEnd(s: string, q: nat): (r: nat)
    requires q <= |s|
    ensures q <= r <= |s| && (r < |s| ==> !IsWhiteSpace(s[r]))
    ensures forall k :: q <= k < r ==> IsWhiteSpace(s[k])
    decreases |s| - q
  {
    if q < |s| && IsWhiteSpace(s[q]) then WhiteSpaceEnd(s, q + 1) else q
  }

  /** The lookahead \s+--[\w,/,\.,\$,\*] holds at `q`. The greedy \s+ may only give back
      white space, which is never '-', so the "--" must follow the whole run. */
  predicate NextArgumentAt(s: string, q: nat)
    requires q <= |s|
  {
    q < |s| && IsWhiteSpace(s[q]) &&
    var r := WhiteSpaceEnd(s, q);
    r + 3 <= |s| && s[r] == '-' && s[r + 1] == '-' && IsArgumentLead(s[r + 2])
  }

  /** `$` without Multiline: the end of the text, or just before a final line feed. */
  predicate EndAt(s: string, q: nat) {
    q == |s| || (q + 1 == |s| && s[q] == '\n')
  }

  predicate StopsAt(s: string, q: nat)
    requires q <= |s|
  {
    NextArgumentAt(s, q) || EndAt(s, q)
  }

  /** The lazy (.*?) with Singleline stops at the first position where the lookahead holds. */
  function ArgumentEnd(s: string, p: nat): (q: nat)
    requires p <= |s|
    ensures p <= q <= |s| && StopsAt(s, q)
    ensures forall k :: p <= k < q ==> !StopsAt(s, k)
    decreases |s| - p
  {
    if StopsAt(s, p) then p else ArgumentEnd(s, p + 1)
  }

  /** The lookbehind (?<=--). */
  predicate ArgumentStartsAt(s: string, p: nat) {
    2 <= p <= |s| && s[p - 2] == '-' && s[p - 1] == '-'
  }

  /** Regex.Matches for the argument pattern from `pos`: every position after a "--"
      yields a match; after an empty match the search moves on by one character. */
  function ArgumentMatches(s: string, pos: nat): (ms: seq<string>)
    requires pos <= |s|
    decreases |s| - pos
  {
    if ArgumentStartsAt(s, pos) then
      var q := ArgumentEnd(s, pos);
      if q > pos then [s[pos..q]] + ArgumentMatches(s, q)
      else [[]] + (if pos < |s| then ArgumentMatches(s, pos + 1) else [])
    else if pos < |s| then ArgumentMatches(s, pos + 1)
    else []
  }

  /** The positions where the matches of ArgumentMatches(s, pos) begin. */
  function MatchStarts(s: string, pos: nat): (ps: seq<nat>)
    requires pos <= |s|
    decreases |s| - pos
  {
    if ArgumentStartsAt(s, pos) then
      var q := ArgumentEnd(s, pos);
      [pos] + (if q > pos then MatchStarts(s, q) else if pos < |s| then MatchStarts(s, pos + 1) else [])
    else if pos < |s| then MatchStarts(s, pos + 1)
    else []
  }

  /** Each of `ps` is a "--" lookbehind position at or after `pos`. */
  predicate StartsFrom(s: string, pos: nat, ps: seq<nat>) {
    forall i :: 0 <= i < |ps| ==> pos <= ps[i] <= |s| && ArgumentStartsAt(s, ps[i])
  }

  /** The matches beginning at `ps` are in order and do not overlap. */
  predicate Disjoint(s: string, ps: seq<nat>)
    requires forall i :: 0 <= i < |ps| ==> ps[i] <= |s|
  {
    forall i, j :: 0 <= i < j < |ps| ==> ps[i] < ps[j] && ArgumentEnd(s, ps[i]) <= ps[j]
  }

  /** `p` lies strictly inside one of the matches beginning at `ps`. */
  predicate Inside(s: string, ps: seq<nat>, p: nat)
    requires forall i :: 0 <= i < |ps| ==> ps[i] <= |s|
  {
    exists i :: 0 <= i < |ps| && ps[i] < p < ArgumentEnd(s, ps[i])
  }

  /** Every "--" lookbehind position from `pos` on begins a match or lies inside one. */
  predicate Covers(s: string, pos: nat, ps: seq<nat>)
    requires forall i :: 0 <= i < |ps| ==> ps[i] <= |s|
  {
    forall p: nat :: pos <= p <= |s| && ArgumentStartsAt(s, p) ==> p in ps || Inside(s, ps, p)
  }

  /** The scan from `pos` on: matches begin at "--" lookbehind positions, in order and
      without overlap, and the only such positions passed over are those inside a match. */
  lemma {:induction false} MatchStartsAre(s: string, pos: nat)
    requires pos <= |s|
    ensures var ps := MatchStarts(s, pos);
      StartsFrom(s, pos, ps) && Disjoint(s, ps) && Covers(s, pos, ps)
    decreases |s| - pos
  {
    if ArgumentStartsAt(s, pos) {
      var q := ArgumentEnd(s, pos);
      if q > pos {
        MatchStartsAre(s, q);
        MatchStartsCons(s, pos, q, MatchStarts(s, q));
      } else if pos < |s| {
        MatchStartsAre(s, pos + 1);
        MatchStartsCons(s, pos, pos + 1, MatchStarts(s, pos + 1));
      } else {
        assert MatchStarts(s, pos) == [pos];
      }
    } else if pos < |s| {
      MatchStartsAre(s, pos + 1);
      CoversFrom(s, pos, MatchStarts(s, pos + 1));
    }
  }

  /** A match at `pos`, then the scan resumed at `r`: its end, or the next position
      after an empty match. */
  lemma {:induction false} MatchStartsCons(s: string, pos: nat, r: nat, rest: seq<nat>)
    requires pos < r <= |s| && ArgumentStartsAt(s, pos)
    requires r == ArgumentEnd(s, pos) || (ArgumentEnd(s, pos) == pos && r == pos + 1)
    requires StartsFrom(s, r, rest) && Disjoint(s, rest) && Covers(s, r, rest)
    ensures var ps := [pos] + rest; StartsFrom(s, pos, ps) && Disjoint(s, ps) && Covers(s, pos, ps)
  {
    ConsStartsFrom(s, pos, r, rest);
    ConsDisjoint(s, pos, r, rest);
    ConsCovers(s, pos, r, rest);
  }

  lemma {:induction false} ConsStartsFrom(s: string, pos: nat, r: nat, rest: seq<nat>)
    requires pos < r <= |s| && ArgumentStartsAt(s, pos) && StartsFrom(s, r, rest)
    ensures StartsFrom(s, pos, [pos] + rest)
  {
    var ps := [pos] + rest;
    assert forall i :: 1 <= i < |ps| ==> ps[i] == rest[i - 1];
  }

  lemma {:induction false} ConsDisjoint(s: string, pos: nat, r: nat, rest: seq<nat>)
    requires pos < r <= |s| && ArgumentEnd(s, pos) <= r
    requires StartsFrom(s, r, rest) && Disjoint(s, rest)
    ensures Disjoint(s, [pos] + rest)
  {
    var ps := [pos] + rest;
    forall i, j | 0 <= i < j < |ps| ensures ps[i] < ps[j] && ArgumentEnd(s, ps[i]) <= ps[j] {
      assert ps[j] == rest[j - 1];
      if i > 0 {
        assert ps[i] == rest[i - 1];
      }
    }
  }

  lemma {:induction false} ConsCovers(s: string, pos: nat, r: nat, rest: seq<nat>)
    requires pos < r <= |s| && ArgumentStartsAt(s, pos)
    requires r == ArgumentEnd(s, pos) || r == pos + 1
    requires StartsFrom(s, r, rest) && Covers(s, r, rest)
    ensures Covers(s, pos, [pos] + rest)
  {
    var ps := [pos] + rest;
    forall p: nat | pos <= p <= |s| && ArgumentStartsAt(s, p) && p !in ps ensures Inside(s, ps, p) {
      if p < r {
        assert ps[0] < p < ArgumentEnd(s, ps[0]);
      } else {
        assert Inside(s, rest, p);
        var i :| 0 <= i < |rest| && rest[i] < p < ArgumentEnd(s, rest[i]);
        assert ps[i + 1] == rest[i];
      }
    }
  }

  /** A position that is no lookbehind position adds nothing to cover. */
  lemma {:induction false} CoversFrom(s: string, pos: nat, ps: seq<nat>)
    requires pos < |s| && !ArgumentStartsAt(s, pos)
    requires StartsFrom(s, pos + 1, ps) && Disjoint(s, ps) && Covers(s, pos + 1, ps)
    ensures StartsFrom(s, pos, ps) && Covers(s, pos, ps)
  {
  }

  /** Each match is the text from its start to where the lazy repetition stops. */
  lemma {:induction false} ArgumentMatchesAt(s: string, pos: nat)
    requires pos <= |s|
    ensures var ms, ps := ArgumentMatches(s, pos), MatchStarts(s, pos);
      |ms| == |ps| && forall i :: 0 <= i < |ms| ==> ps[i] <= |s| && ms[i] == s[ps[i]..ArgumentEnd(s, ps[i])]
    decreases |s| - pos
  {
    if ArgumentStartsAt(s, pos) {
      var q := ArgumentEnd(s, pos);
      if q > pos {
        ArgumentMatchesAt(s, q);
      } else if pos < |s| {
        ArgumentMatchesAt(s, pos + 1);
      }
    } else if pos < |s| {
      ArgumentMatchesAt(s, pos + 1);
    }
  }

  /** The text at index `i` is not blank once trimmed. */
  predicate Kept(ms: seq<string>, i: nat)
    requires i < |ms|
  {
    Trim(ms[i]) != []
  }

  predicate Increasing(idx: seq<nat>) {
    forall j, k :: 0 <= j < k < |idx| ==> idx[j] < idx[k]
  }

  /** Every index one more; still in order, and in order after a leading 0. */
  function Shift(idx: seq<nat>): (r: seq<nat>)
    ensures |r| == |idx| && forall j :: 0 <= j < |idx| ==> r[j] == idx[j] + 1
    ensures Increasing(idx) ==> Increasing(r) && Increasing([0] + r)
  {
    var r := seq(|idx|, j requires 0 <= j < |idx| => idx[j] + 1);
    assert forall j :: 0 < j < |r| + 1 ==> ([0] + r)[j] == r[j - 1];
    r
  }

  /** The indices of the texts that are not blank once trimmed, in order. */
  function NonBlank(ms: seq<string>): (idx: seq<nat>)
    ensures forall j :: 0 <= j < |idx| ==> idx[j] < |ms| && Kept(ms, idx[j])
    ensures Increasing(idx)
    ensures forall i :: 0 <= i < |ms| && Kept(ms, i) ==> i in idx
  {
    if ms == [] then []
    else
      var rest := NonBlank(ms[1..]);
      var shifted := Shift(rest);
      NonBlankShift(ms, rest);
      if Kept(ms, 0) then
        assert forall j :: 0 < j < |shifted| + 1 ==> ([0] + shifted)[j] == shifted[j - 1];
        [0] + shifted
      else shifted
  }

  lemma {:induction false} NonBlankShift(ms: seq<string>, rest: seq<nat>)
    requires ms != []
    requires forall j :: 0 <= j < |rest| ==> rest[j] < |ms| - 1 && Kept(ms[1..], rest[j])
    requires forall i :: 0 <= i < |ms| - 1 && Kept(ms[1..], i) ==> i in rest
    ensures forall j :: 0 <= j < |rest| ==> Shift(rest)[j] < |ms| && Kept(ms, Shift(rest)[j])
    ensures forall i :: 1 <= i < |ms| && Kept(ms, i) ==> i in Shift(rest)
  {
    var shifted := Shift(rest);
    forall j | 0 <= j < |rest| ensures shifted[j] < |ms| && Kept(ms, shifted[j]) {
      assert ms[1..][rest[j]] == ms[rest[j] + 1];
    }
    forall i | 1 <= i < |ms| && Kept(ms, i) ensures i in shifted {
      assert ms[1..][i - 1] == ms[i];
      assert Kept(ms[1..], i - 1);
      var j :| 0 <= j < |rest| && rest[j] == i - 1;
      assert shifted[j] == i;
    }
  }

  /** `.Select(match => match.Value.Trim()).Where(arg => !string.IsNullOrEmpty(arg))` */
  function TrimAndDropEmpty(ms: seq<string>): (args: seq<string>)
    ensures |args| <= |ms|
    ensures forall i :: 0 <= i < |args| ==> args[i] != [] && IsTrimmed(args[i])
  {
    if ms == [] then []
    else
      var t := Trim(ms[0]);
      (if t == [] then [] else [t]) + TrimAndDropEmpty(ms[1..])
  }

  /** The arguments are the trimmed matches that are not blank, in order: the j-th is the
      trimmed match at the j-th non-blank index. */
  lemma {:induction false} TrimAndDropEmptyIs(ms: seq<string>)
    ensures var args := TrimAndDropEmpty(ms);
      |args| == |NonBlank(ms)| && forall j :: 0 <= j < |args| ==> args[j] == Trim(ms[NonBlank(ms)[j]])
  {
    if ms != [] {
      var rest := TrimAndDropEmpty(ms[1..]);
      TrimAndDropEmptyIs(ms[1..]);
      TrimShift(ms, rest, NonBlank(ms[1..]));
      var t := Trim(ms[0]);
      if t != [] {
        assert forall j :: 0 < j < |rest| + 1 ==> ([t] + rest)[j] == rest[j - 1];
        assert forall j :: 0 < j < |rest| + 1 ==> ([0] + Shift(NonBlank(ms[1..])))[j] == Shift(NonBlank(ms[1..]))[j - 1];
      } else {
        assert TrimAndDropEmpty(ms) == rest;
      }
    }
  }

  lemma {:induction false} TrimShift(ms: seq<string>, rest: seq<string>, idx: seq<nat>)
    requires ms != [] && |rest| == |idx|
    requires forall j :: 0 <= j < |idx| ==> idx[j] < |ms| - 1 && rest[j] == Trim(ms[1..][idx[j]])
    ensures forall j :: 0 <= j < |idx| ==> Shift(idx)[j] < |ms| && rest[j] == Trim(ms[Shift(idx)[j]])
  {
    forall j | 0 <= j < |idx| ensures Shift(idx)[j] < |ms| && rest[j] == Trim(ms[Shift(idx)[j]]) {
      assert ms[1..][idx[j]] == ms[idx[j] + 1];
    }
  }

  /** The argument tokens of a template body, in source order. */
  function Arguments(s: string): (args: seq<string>)
    ensures forall i :: 0 <= i < |args| ==> args[i] != [] && IsTrimmed(args[i])
  {
    TrimAndDropEmpty(ArgumentMatches(s, 0))
  }

  /** Each argument is a trimmed, non-blank match: the text from a match start of the
      scan (see MatchStartsAre) to where the lazy repetition stops. */
  lemma {:induction false} ArgumentsAre(s: string)
    ensures var ps, idx, args := MatchStarts(s, 0), NonBlank(ArgumentMatches(s, 0)), Arguments(s);
      |args| == |idx| && forall j :: 0 <= j < |args| ==>
        idx[j] < |ps| && ps[idx[j]] <= |s| && args[j] == Trim(s[ps[idx[j]]..ArgumentEnd(s, ps[idx[j]])])
  {
    ArgumentMatchesAt(s, 0);
    TrimAndDropEmptyIs(ArgumentMatches(s, 0));
  }

  /** In "--a:1 --b:2" the first match stops at the space before "--b", the second at
      the end of the text. */
  lemma {:induction false} TwoArgumentEnds()
    ensures ArgumentEnd("--a:1 --b:2", 2) == 5 && ArgumentEnd("--a:1 --b:2", 8) == 11
  {
    var s := "--a:1 --b:2";
    assert WhiteSpaceEnd(s, 5) == 6 by {
      assert WhiteSpaceEnd(s, 6) == 6;
    }
    assert StopsAt(s, 5);
    assert !StopsAt(s, 2) && !StopsAt(s, 3) && !StopsAt(s, 4);
    assert !StopsAt(s, 8) && !StopsAt(s, 9) && !StopsAt(s, 10);
  }

  lemma {:induction false} TwoArgumentMatches()
    ensures ArgumentMatches("--a:1 --b:2", 0) == ["a:1", "b:2"]
  {
    var s := "--a:1 --b:2";
    TwoArgumentEnds();
    assert ArgumentMatches(s, 8) == ["b:2"] by {
      assert s[8..11] == "b:2";
      assert ArgumentMatches(s, 11) == [];
    }
    assert ArgumentMatches(s, 5) == ["b:2"] by {
      assert !ArgumentStartsAt(s, 5) && !ArgumentStartsAt(s, 6) && !ArgumentStartsAt(s, 7);
    }
    assert s[2..5] == "a:1";
    assert ArgumentMatches(s, 2) == ["a:1"] + ArgumentMatches(s, 5);
  }

  /** Matches that are already trimmed and non-empty are kept as they are. */
  lemma {:induction false} TrimAndDropNothing(ms: seq<string>)
    requires forall i :: 0 <= i < |ms| ==> ms[i] != [] && IsTrimmed(ms[i])
    ensures TrimAndDropEmpty(ms) == ms
  {
    if ms != [] {
      TrimSurrounded([], ms[0], []);
      assert [] + ms[0] + [] == ms[0];
      assert forall i :: 0 <= i < |ms| - 1 ==> ms[1..][i] == ms[i + 1];
      TrimAndDropNothing(ms[1..]);
      assert ms == [ms[0]] + ms[1..];
    }
  }

  /** Two arguments separated by a space: each match runs up to the white space before
      the next "--", and trimming leaves both as they are. */
  lemma {:induction false} TwoArguments()
    ensures Arguments("--a:1 --b:2") == ["a:1", "b:2"]
  {
    TwoArgumentMatches();
    TrimAndDropNothing(["a:1", "b:2"]);
  }

  /** A single argument with no white space in it, not ending in '-', is the whole text
      after its "--". */
  lemma {:induction false} OneArgument(a: string)
    requires a != [] && a[|a| - 1] != '-' && forall i :: 0 <= i < |a| ==> !IsWhiteSpace(a[i])
    ensures Arguments("--" + a) == [a]
  {
    var h := "--" + a;
    forall k | 2 <= k < |h| ensures !StopsAt(h, k) {
      assert h[k] == a[k - 2];
    }
    assert ArgumentEnd(h, 2) == |h|;
    assert ArgumentMatches(h, |h|) == [];
    assert h[2..|h|] == a;
    assert ArgumentMatches(h, 2) == [a] + ArgumentMatches(h, |h|);
    assert !ArgumentStartsAt(h, 0) && !ArgumentStartsAt(h, 1);
    assert ArgumentMatches(h, 0) == ArgumentMatches(h, 1) == ArgumentMatches(h, 2);
    TrimAndDropNothing([a]);
  }

  /** A text without "--" has no arguments. */
  lemma {:induction false} NoArgumentMatches(s: string, pos: nat)
    requires pos <= |s| && forall p: nat :: !ArgumentStartsAt(s, p)
    ensures ArgumentMatches(s, pos) == []
    decreases |s| - pos
  {
    if pos < |s| {
      NoArgumentMatches(s, pos + 1);
    }
  }

  // ------------------------------------ ArgumentKeyPattern (?si)^[^:]*, ArgumentValuePattern (?<=(:)).*$

  /** The match of ^[^:]* on the upper-cased argument: the grouping key. */
  function KeyOf(argument: string): string {
    var u := Upper(argument);
    u[..IndexOfChar(u, ':')]
  }

  /** ExtractValue with the value pattern: everything after the first ':' (the greedy
      Singleline .* runs to the end), or "" when there is no ':'. */
  function ExtractValue(argument: string): string {
    var i := IndexOfChar(argument, ':');
    if i < |argument| then argument[i + 1..] else []
  }

  /** Upper-casing leaves ':' where it was, so the key is the upper-cased text before
      the first ':'. */
  lemma {:induction false} ColonIndexUpper(a: string)
    ensures IndexOfChar(Upper(a), ':') == IndexOfChar(a, ':')
  {
    if a != [] {
      assert Upper(a)[1..] == Upper(a[1..]);
      ColonIndexUpper(a[1..]);
    }
  }

  lemma {:induction false} UpperPrefix(a: string, i: nat)
    requires i <= |a|
    ensures Upper(a)[..i] == Upper(a[..i])
  {
  }

  /** The key is the upper-cased text before the first ':'. */
  lemma {:induction false} KeyOfPrefix(a: string)
    ensures KeyOf(a) == Upper(a[..IndexOfChar(a, ':')])
  {
    ColonIndexUpper(a);
    UpperPrefix(a, IndexOfChar(a, ':'));
  }

  /** An argument is its key text, then (when there is a ':') the ':' and the value. */
  lemma {:induction false} KeyValueSplit(a: string)
    ensures IndexOfChar(a, ':') < |a| ==> a == a[..IndexOfChar(a, ':')] + [':'] + ExtractValue(a)
    ensures IndexOfChar(a, ':') == |a| ==> ExtractValue(a) == []
  {
    var i := IndexOfChar(a, ':');
    if i < |a| {
      var k, v := a[..i], a[i + 1..];
      assert a[i..] == [':'] + v;
      assert a == k + a[i..];
      ConcatAssoc(k, [':'], v);
    }
  }

  /** Building an argument from a key text without ':' and any value gives them back. */
  lemma {:induction false} KeyValueOf(k: string, v: string)
    requires forall i :: 0 <= i < |k| ==> k[i] != ':'
    ensures KeyOf(k + [':'] + v) == Upper(k)
    ensures ExtractValue(k + [':'] + v) == v
  {
    var a := k + [':'] + v;
    assert a == k + ([':'] + v);
    IndexOfCharAfter(k, ':', [':'] + v);
    KeyOfPrefix(a);
    assert a[..|k|] == k && a[|k| + 1..] == v;
  }

  /** Without a ':' the whole argument is the key and the value is empty. */
  lemma {:induction false} KeyWithoutValue(k: string)
    requires forall i :: 0 <= i < |k| ==> k[i] != ':'
    ensures KeyOf(k) == Upper(k) && ExtractValue(k) == []
  {
    IndexOfCharAfter(k, ':', []);
    assert k + [] == k;
    KeyOfPrefix(k);
    assert k[..|k|] == k;
  }
}
