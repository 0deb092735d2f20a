/**
 * The .NET string operations the core relies on: ordinal substring search,
 * string.Trim() and the ordinal string.Replace(oldValue, newValue).
 */
module Strings {
  import opened Wrappers
  import opened Chars

  lemma {:induction false} ConcatAssoc<T>(a: seq<T>, b: seq<T>, c: seq<T>)
    ensures (a + b) + c == a + (b + c)
  {
  }

  /** `p` occurs in `s` at index `i`. */
  predicate OccursAt(s: string, i: nat, p: string) {
    i + |p| <= |s| && s[i..i + |p|] == p
  }

  predicate Contains(s: string, p: string) {
    exists i: nat :: i <= |s| && OccursAt(s, i, p)
  }

  predicate AllWhiteSpace(s: string) {
    forall i :: 0 <= i < |s| ==> IsWhiteSpace(s[i])
  }

  /** No white space at either end. */
  predicate IsTrimmed(s: string) {
    s == [] || (!IsWhiteSpace(s[0]) && !IsWhiteSpace(s[|s| - 1]))
  }

  /** string.Length: the number of UTF-16 code units, two for a character outside the
      Basic Multilingual Plane (a surrogate pair) and one for any other. */
  function Utf16Length(s: string): (n: nat)
    ensures |s| <= n <= 2 * |s|
    ensures n == |s| <==> forall i :: 0 <= i < |s| ==> s[i] as int < 0x10000
  {
    if s == [] then 0
    else
      var rest := Utf16Length(s[1..]);
      assert forall i :: 1 <= i < |s| ==> s[i] == s[1..][i - 1];
      (if s[0] as int < 0x10000 then 1 else 2) + rest
  }

  lemma {:induction false} Utf16LengthConcat(a: string, b: string)
    ensures Utf16Length(a + b) == Utf16Length(a) + Utf16Length(b)
  {
    if a == [] {
      assert a + b == b;
    } else {
      assert (a + b)[1..] == a[1..] + b;
      Utf16LengthConcat(a[1..], b);
    }
  }

  /** Upper-casing changes no character's width. */
  lemma {:induction false} Utf16LengthUpper(s: string)
    ensures Utf16Length(Upper(s)) == Utf16Length(s)
  {
    if s != [] {
      assert Upper(s)[1..] == Upper(s[1..]);
      Utf16LengthUpper(s[1..]);
    }
  }

  /** Index of the first `c` in `s`, or |s| when there is none: the end of a match of
      [^c]* from the start. */
  function IndexOfChar(s: string, c: char): (i: nat)
    ensures i <= |s| && (i < |s| ==> s[i] == c)
    ensures forall k :: 0 <= k < i ==> s[k] != c
  {
    if s == [] || s[0] == c then 0 else 1 + IndexOfChar(s[1..], c)
  }

  /** A prefix free of `c` shifts the first `c` by its length. */
  lemma {:induction false} IndexOfCharAfter(a: string, c: char, rest: string)
    requires forall k :: 0 <= k < |a| ==> a[k] != c
    ensures IndexOfChar(a + rest, c) == |a| + IndexOfChar(rest, c)
  {
    if a == [] {
      assert a + rest == rest;
    } else {
      assert (a + rest)[1..] == a[1..] + rest;
      IndexOfCharAfter(a[1..], c, rest);
    }
  }

  /** The occurrences in a prefix are the occurrences that end inside it. */
  lemma {:induction false} PrefixOccurrences(s: string, e: nat, p: string)
    requires e <= |s|
    ensures forall j: nat :: OccursAt(s[..e], j, p) <==> j + |p| <= e && OccursAt(s, j, p)
  {
    forall j: nat ensures OccursAt(s[..e], j, p) <==> j + |p| <= e && OccursAt(s, j, p) {
      if j + |p| <= e {
        assert s[..e][j..j + |p|] == s[j..j + |p|];
      }
    }
  }

  /** An occurrence lying inside the middle part of a text is an occurrence in that part. */
  lemma {:induction false} OccursInMiddle(a: string, m: string, b: string, i: nat, p: string)
    requires OccursAt(a + m + b, |a| + i, p) && i + |p| <= |m|
    ensures OccursAt(m, i, p)
  {
    assert (a + m + b)[|a| + i..|a| + i + |p|] == m[i..i + |p|];
  }

  /** A text in which the pair p[j], p[j + 1] never appears does not contain p. */
  lemma {:induction false} NoPairNoOccurrence(s: string, p: string, j: nat)
    requires j + 1 < |p|
    requires forall i :: 1 <= i < |s| && s[i - 1] == p[j] ==> s[i] != p[j + 1]
    ensures !Contains(s, p)
  {
    forall i: nat | i <= |s| ensures !OccursAt(s, i, p) {
      if i + |p| <= |s| {
        assert s[i..i + |p|][j] == s[i + j] && s[i..i + |p|][j + 1] == s[i + j + 1];
      }
    }
  }

  /** Leftmost occurrence of `p` at or after `from` (string.IndexOf, ordinal). */
  function FindFirst(s: string, p: string, from: nat): (r: Option<nat>)
    ensures r.Some? ==> from <= r.value && OccursAt(s, r.value, p)
    ensures r.Some? ==> forall j: nat :: from <= j < r.value ==> !OccursAt(s, j, p)
    ensures r.None? ==> forall j: nat :: from <= j ==> !OccursAt(s, j, p)
    decreases |s| - from
  {
    if from + |p| > |s| then None
    else if OccursAt(s, from, p) then Some(from)
    else FindFirst(s, p, from + 1)
  }

  /** Rightmost occurrence of `p` at or after `from`. */
  function FindLast(s: string, p: string, from: nat): (r: Option<nat>)
    ensures r.Some? ==> from <= r.value && OccursAt(s, r.value, p)
    ensures r.Some? ==> forall j: nat :: r.value < j ==> !OccursAt(s, j, p)
    ensures r.None? ==> forall j: nat :: from <= j ==> !OccursAt(s, j, p)
    decreases |s| - from
  {
    if from + |p| > |s| then None
    else
      match FindLast(s, p, from + 1)
      case Some(j) => Some(j)
      case None => if OccursAt(s, from, p) then Some(from) else None
  }

  /** Number of white-space characters at the start of `s`. */
  function LeadingWhiteSpace(s: string): (n: nat)
    ensures n <= |s| && forall i :: 0 <= i < n ==> IsWhiteSpace(s[i])
    ensures n < |s| ==> !IsWhiteSpace(s[n])
  {
    if s == [] || !IsWhiteSpace(s[0]) then 0
    else 1 + LeadingWhiteSpace(s[1..])
  }

  /** Number of white-space characters at the end of `s`. */
  function TrailingWhiteSpace(s: string): (n: nat)
    ensures n <= |s| && forall i :: |s| - n <= i < |s| ==> IsWhiteSpace(s[i])
    ensures n < |s| ==> !IsWhiteSpace(s[|s| - n - 1])
  {
    if s == [] || !IsWhiteSpace(s[|s| - 1]) then 0
    else 1 + TrailingWhiteSpace(s[..|s| - 1])
  }

  /** string.Trim(): removes the white space (Char.IsWhiteSpace) at both ends. */
  function Trim(s: string): (r: string)
    ensures IsTrimmed(r) && |r| <= |s|
    ensures AllWhiteSpace(s) ==> r == []
  {
    var a := LeadingWhiteSpace(s);
    if a == |s| then []
    else
      var b := TrailingWhiteSpace(s);
      assert !IsWhiteSpace(s[a]);
      s[a..|s| - b]
  }

  /** Trim removes exactly the surrounding white space: a trimmed text survives it unchanged. */
  lemma {:induction false} TrimSurrounded(w1: string, x: string, w2: string)
    requires AllWhiteSpace(w1) && AllWhiteSpace(w2) && IsTrimmed(x)
    ensures Trim(w1 + x + w2) == x
  {
    var s := w1 + x + w2;
    LeadingOf(w1, x + w2);
    assert s == w1 + (x + w2);
    if x == [] {
      assert AllWhiteSpace(s) by {
        forall i | 0 <= i < |s| ensures IsWhiteSpace(s[i]) {
          if i < |w1| { assert s[i] == w1[i]; } else { assert s[i] == w2[i - |w1|]; }
        }
      }
    } else {
      TrailingOf(w1 + x, w2);
      assert LeadingWhiteSpace(s) == |w1|;
      assert TrailingWhiteSpace(s) == |w2|;
      assert s[|w1|..|s| - |w2|] == x;
    }
  }

  lemma {:induction false} LeadingOf(w: string, y: string)
    requires AllWhiteSpace(w) && (y == [] || !IsWhiteSpace(y[0]) || AllWhiteSpace(w + y))
    ensures y != [] && !IsWhiteSpace(y[0]) ==> LeadingWhiteSpace(w + y) == |w|
  {
    if w != [] {
      assert (w + y)[1..] == w[1..] + y;
      LeadingOf(w[1..], y);
    } else {
      assert w + y == y;
    }
  }

  lemma {:induction false} TrailingOf(x: string, w: string)
    requires AllWhiteSpace(w) && x != [] && !IsWhiteSpace(x[|x| - 1])
    ensures TrailingWhiteSpace(x + w) == |w|
    decreases |w|
  {
    if w != [] {
      assert (x + w)[..|x + w| - 1] == x + w[..|w| - 1];
      TrailingOf(x, w[..|w| - 1]);
    } else {
      assert x + w == x;
    }
  }

  /** Ordinal string.Replace(k, v): every leftmost, non-overlapping occurrence of `k`
      is replaced by `v`, scanning left to right; an empty `k` is refused by .NET. */
  function Replace(s: string, k: string, v: string): string
    requires |k| > 0
    decreases |s|
  {
    if |s| < |k| then s
    else if s[..|k|] == k then v + Replace(s[|k|..], k, v)
    else [s[0]] + Replace(s[1..], k, v)
  }

  lemma {:induction false} ReplaceMatch(s: string, k: string, v: string)
    requires |k| > 0 && OccursAt(s, 0, k)
    ensures Replace(s, k, v) == v + Replace(s[|k|..], k, v)
  {
    assert s[..|k|] == k;
  }

  lemma {:induction false} ReplaceSkip(s: string, k: string, v: string)
    requires |k| > 0 && |s| >= |k| && s[..|k|] != k
    ensures Replace(s, k, v) == [s[0]] + Replace(s[1..], k, v)
  {
  }

  /** Replace rewrites the text at its first occurrence and continues after it. */
  lemma {:induction false} ReplaceAtFirst(s: string, k: string, v: string, f: nat)
    requires |k| > 0 && OccursAt(s, f, k)
    requires forall j: nat :: j < f ==> !OccursAt(s, j, k)
    ensures Replace(s, k, v) == s[..f] + v + Replace(s[f + |k|..], k, v)
  {
    if f == 0 {
      ReplaceMatch(s, k, v);
      assert s[..f] + v == v;
    } else {
      var t := s[1..];
      FirstOccurrenceShift(s, k, f);
      ReplaceAtFirst(t, k, v, f - 1);
      var rest := Replace(t[f - 1 + |k|..], k, v);
      ReplaceSkipPrefix(s, k, v, f, rest);
      assert t[f - 1 + |k|..] == s[f + |k|..];
    }
  }

  /** A text after a prefix that lacks its first character is found right after it. */
  lemma {:induction false} ReplaceAfterPrefix(a: string, k: string, v: string)
    requires |k| > 0 && forall i :: 0 <= i < |a| ==> a[i] != k[0]
    ensures Replace(a + k, k, v) == a + v
  {
    var s := a + k;
    assert s[|a|..|a| + |k|] == k;
    forall j: nat | j < |a| ensures !OccursAt(s, j, k) {
      assert s[j] == a[j];
    }
    ReplaceAtFirst(s, k, v, |a|);
    assert s[..|a|] == a && s[|a| + |k|..] == [];
    assert Replace([], k, v) == [];
  }

  /** One character that does not start `k` is copied ahead of the rest. */
  lemma {:induction false} ReplaceSkipPrefix(s: string, k: string, v: string, f: nat, rest: string)
    requires |k| > 0 && 0 < f <= |s| && |s| >= |k| && s[..|k|] != k
    requires Replace(s[1..], k, v) == s[1..][..f - 1] + v + rest
    ensures Replace(s, k, v) == s[..f] + v + rest
  {
    var a := s[1..][..f - 1];
    ReplaceSkip(s, k, v);
    ConcatAssoc([s[0]], a, v);
    ConcatAssoc([s[0]], a + v, rest);
    assert s[..f] == [s[0]] + a;
  }

  lemma {:induction false} FirstOccurrenceShift(s: string, k: string, f: nat)
    requires |k| > 0 && 0 < f && OccursAt(s, f, k)
    requires forall j: nat :: j < f ==> !OccursAt(s, j, k)
    ensures s[..|k|] != k
    ensures OccursAt(s[1..], f - 1, k)
    ensures forall j: nat :: j < f - 1 ==> !OccursAt(s[1..], j, k)
  {
    var t := s[1..];
    assert !OccursAt(s, 0, k);
    assert t[f - 1..f - 1 + |k|] == s[f..f + |k|];
    forall j: nat | j < f - 1 ensures !OccursAt(t, j, k) {
      assert !OccursAt(s, j + 1, k);
      if j + |k| <= |t| {
        assert t[j..j + |k|] == s[j + 1..j + 1 + |k|];
      }
    }
  }

  /** Replacing a text that does not occur changes nothing. */
  lemma {:induction false} ReplaceAbsent(s: string, k: string, v: string)
    requires |k| > 0 && !Contains(s, k)
    ensures Replace(s, k, v) == s
    decreases |s|
  {
    if |s| >= |k| {
      assert !OccursAt(s, 0, k);
      var t := s[1..];
      assert !Contains(t, k) by {
        forall j: nat | OccursAt(t, j, k) ensures false {
          assert s[j + 1..j + 1 + |k|] == t[j..j + |k|];
          assert OccursAt(s, j + 1, k);
        }
      }
      ReplaceAbsent(t, k, v);
    }
  }

  /** The condition under which putting `k` back for `v` undoes Replace(s, k, v):
      `v` does not already occur in `s`, and every occurrence of `k` that does not
      start `s` follows a character that `v` does not use, so that no occurrence of
      `v` can straddle the edge of an inserted copy. */
  predicate Restorable(s: string, k: string, v: string) {
    && !Contains(s, v)
    && forall j: nat {:trigger OccursAt(s, j, k)} :: 0 < j <= |s| && OccursAt(s, j, k) ==> s[j - 1] !in v
  }

  lemma {:induction false} RestorableSuffix(s: string, k: string, v: string, n: nat)
    requires Restorable(s, k, v) && n <= |s|
    ensures Restorable(s[n..], k, v)
  {
    var t := s[n..];
    forall i: nat | OccursAt(t, i, v) ensures false {
      assert s[n + i..n + i + |v|] == t[i..i + |v|];
      assert OccursAt(s, n + i, v);
    }
    forall j: nat | 0 < j && OccursAt(t, j, k) ensures t[j - 1] !in v {
      assert s[n + j..n + j + |k|] == t[j..j + |k|];
      assert OccursAt(s, n + j, k);
    }
  }

  /** After a character that does not start `k`, the replaced text does not start with `v`. */
  lemma {:induction false} NoPlaceholderAhead(s: string, k: string, v: string)
    requires |k| > 0 && |v| > 0 && |s| >= |k| && s[..|k|] != k && Restorable(s, k, v)
    ensures var x := Replace(s, k, v); !(|x| >= |v| && x[..|v|] == v)
  {
    assert !OccursAt(s, 0, v);
    match FindFirst(s, k, 0)
    case Some(i) =>
      assert !OccursAt(s, 0, k);
      ReplaceAtFirst(s, k, v, i);
      assert s[i - 1] !in v;
      NoPlaceholderBefore(s, i, v, Replace(s[i + |k|..], k, v));
    case None =>
      assert !Contains(s, k);
      ReplaceAbsent(s, k, v);
  }

  /** A text that does not start with `v`, cut after a character `v` does not use and
      followed by `v`, still does not start with `v`. */
  lemma {:induction false} NoPlaceholderBefore(s: string, i: nat, v: string, rest: string)
    requires 0 < i <= |s| && |v| > 0 && !OccursAt(s, 0, v) && s[i - 1] !in v
    ensures var x := s[..i] + v + rest; !(|x| >= |v| && x[..|v|] == v)
  {
    var x := s[..i] + v + rest;
    if |x| >= |v| {
      if |v| <= i {
        assert x[..|v|] == s[..|v|];
      } else {
        assert x[..|v|][i - 1] == s[i - 1] != v[i - 1];
      }
    }
  }

  /** Putting the original text back for its placeholder restores the input exactly. */
  lemma {:induction false} ReplaceRoundTrip(s: string, k: string, v: string)
    requires |k| > 0 && |v| > 0 && Restorable(s, k, v)
    ensures Replace(Replace(s, k, v), v, k) == s
    decreases |s|
  {
    if |s| < |k| {
      ReplaceAbsent(s, v, k);
    } else if s[..|k|] == k {
      var t := s[|k|..];
      RestorableSuffix(s, k, v, |k|);
      ReplaceRoundTrip(t, k, v);
      var y := Replace(t, k, v);
      assert (v + y)[..|v|] == v && (v + y)[|v|..] == y;
      assert s == k + t;
    } else {
      var t := s[1..];
      RestorableSuffix(s, k, v, 1);
      ReplaceRoundTrip(t, k, v);
      NoPlaceholderAhead(s, k, v);
      var x := Replace(s, k, v);
      assert x == [s[0]] + Replace(t, k, v);
      assert x[1..] == Replace(t, k, v);
      assert s == [s[0]] + t;
    }
  }
}
