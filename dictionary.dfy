/**
 * Dictionary<string, V> as a value: its entries in enumeration order (insertion order,
 * since the core never removes an entry) and its key comparer, either ordinal or
 * StringComparer.OrdinalIgnoreCase.
 */
module Dictionaries {
  import opened Wrappers
  import opened Chars

  datatype Dict<V> = Dict(entries: seq<(string, V)>, ignoreCase: bool)

  /** `new Dictionary<string, V>(comparer)` */
  function Empty<V>(ignoreCase: bool): (d: Dict<V>)
    ensures d.entries == [] && d.ignoreCase == ignoreCase
  {
    Dict([], ignoreCase)
  }

  /** The comparer's equality. */
  predicate SameKey(ignoreCase: bool, a: string, b: string) {
    if ignoreCase then EqualsIgnoreCase(a, b) else a == b
  }

  /** Position of the entry whose key the comparer equates with `k`. */
  function IndexOf<V>(d: Dict<V>, k: string): (r: Option<nat>)
    ensures r.Some? ==> r.value < |d.entries| && SameKey(d.ignoreCase, d.entries[r.value].0, k)
    ensures r.Some? ==> forall j :: 0 <= j < r.value ==> !SameKey(d.ignoreCase, d.entries[j].0, k)
    ensures r.None? ==> forall j :: 0 <= j < |d.entries| ==> !SameKey(d.ignoreCase, d.entries[j].0, k)
  {
    FindFrom(d.entries, d.ignoreCase, k, 0)
  }

  function FindFrom<V>(es: seq<(string, V)>, ignoreCase: bool, k: string, i: nat): (r: Option<nat>)
    requires i <= |es|
    ensures r.Some? ==> i <= r.value < |es| && SameKey(ignoreCase, es[r.value].0, k)
    ensures r.Some? ==> forall j :: i <= j < r.value ==> !SameKey(ignoreCase, es[j].0, k)
    ensures r.None? ==> forall j :: i <= j < |es| ==> !SameKey(ignoreCase, es[j].0, k)
    decreases |es| - i
  {
    if i == |es| then None
    else if SameKey(ignoreCase, es[i].0, k) then Some(i)
    else FindFrom(es, ignoreCase, k, i + 1)
  }

  predicate ContainsKey<V>(d: Dict<V>, k: string) {
    IndexOf(d, k).Some?
  }

  /** TryGetValue: the value stored under `k`, if any. */
  function Get<V>(d: Dict<V>, k: string): Option<V> {
    match IndexOf(d, k)
    case Some(i) => Some(d.entries[i].1)
    case None => None
  }

  /** The indexer's setter `d[k] = v`: an existing entry keeps its key text and
      position and takes the new value; otherwise the entry is appended. */
  function Set<V>(d: Dict<V>, k: string, v: V): (r: Dict<V>)
    ensures r.ignoreCase == d.ignoreCase
    ensures ContainsKey(d, k) ==> |r.entries| == |d.entries|
    ensures !ContainsKey(d, k) ==> r.entries == d.entries + [(k, v)]
  {
    match IndexOf(d, k)
    case Some(i) => Dict(d.entries[i := (d.entries[i].0, v)], d.ignoreCase)
    case None => Dict(d.entries + [(k, v)], d.ignoreCase)
  }

  /** No two entries have keys the comparer equates (a Dictionary invariant). */
  predicate KeysDistinct<V>(d: Dict<V>) {
    forall i, j :: 0 <= i < j < |d.entries| ==> !SameKey(d.ignoreCase, d.entries[i].0, d.entries[j].0)
  }

  lemma {:induction false} SameKeySymmetric(ignoreCase: bool, a: string, b: string)
    ensures SameKey(ignoreCase, a, b) == SameKey(ignoreCase, b, a)
  {
  }

  lemma {:induction false} SameKeyTransitive(ignoreCase: bool, a: string, b: string, c: string)
    requires SameKey(ignoreCase, a, b) && SameKey(ignoreCase, b, c)
    ensures SameKey(ignoreCase, a, c)
  {
  }

  /** The first entry the comparer matches is the one IndexOf finds. */
  lemma {:induction false} IndexOfIs<V>(d: Dict<V>, k: string, i: nat)
    requires i < |d.entries| && SameKey(d.ignoreCase, d.entries[i].0, k)
    requires forall j :: 0 <= j < i ==> !SameKey(d.ignoreCase, d.entries[j].0, k)
    ensures IndexOf(d, k) == Some(i)
  {
  }

  /** Reading back after the setter: the new value under `k` and its case variants,
      the old value under every other key. */
  lemma {:induction false} SetThenGet<V>(d: Dict<V>, k: string, v: V, k': string)
    ensures Get(Set(d, k, v), k') == if SameKey(d.ignoreCase, k, k') then Some(v) else Get(d, k')
  {
    var r := Set(d, k, v);
    var n := |d.entries|;
    match IndexOf(d, k)
    case Some(i) =>
      if SameKey(d.ignoreCase, k, k') {
        SameKeyTransitive(d.ignoreCase, r.entries[i].0, k, k');
        forall j | 0 <= j < i ensures !SameKey(d.ignoreCase, r.entries[j].0, k') {
          if SameKey(d.ignoreCase, r.entries[j].0, k') {
            SameKeySymmetric(d.ignoreCase, k, k');
            SameKeyTransitive(d.ignoreCase, r.entries[j].0, k', k);
          }
        }
        IndexOfIs(r, k', i);
      } else {
        assert !SameKey(d.ignoreCase, r.entries[i].0, k');
        assert forall j :: 0 <= j < n && j != i ==> r.entries[j] == d.entries[j];
        assert IndexOf(r, k') == IndexOf(d, k');
      }
    case None =>
      assert forall j :: 0 <= j < n ==> r.entries[j] == d.entries[j];
      if SameKey(d.ignoreCase, k, k') {
        forall j | 0 <= j < n ensures !SameKey(d.ignoreCase, r.entries[j].0, k') {
          if SameKey(d.ignoreCase, r.entries[j].0, k') {
            SameKeySymmetric(d.ignoreCase, k, k');
            SameKeyTransitive(d.ignoreCase, r.entries[j].0, k', k);
          }
        }
        IndexOfIs(r, k', n);
      } else {
        assert !SameKey(d.ignoreCase, r.entries[n].0, k');
        assert IndexOf(r, k') == IndexOf(d, k');
      }
  }

  /** The setter keeps the keys distinct. */
  lemma {:induction false} SetKeepsKeysDistinct<V>(d: Dict<V>, k: string, v: V)
    requires KeysDistinct(d)
    ensures KeysDistinct(Set(d, k, v))
  {
    var r := Set(d, k, v);
    if !ContainsKey(d, k) {
      forall i, j | 0 <= i < j < |r.entries| ensures !SameKey(d.ignoreCase, r.entries[i].0, r.entries[j].0) {
        if j == |d.entries| {
          SameKeySymmetric(d.ignoreCase, r.entries[i].0, k);
        }
      }
    }
  }

  /** The keys in enumeration order. */
  function Keys<V>(d: Dict<V>): (ks: seq<string>)
    ensures |ks| == |d.entries|
    ensures forall i :: 0 <= i < |ks| ==> ks[i] == d.entries[i].0
  {
    seq(|d.entries|, i requires 0 <= i < |d.entries| => d.entries[i].0)
  }

  /** The setter changes at most the value of the entry matching `k`, or appends `(k, v)`. */
  lemma {:induction false} SetEntries<V>(d: Dict<V>, k: string, v: V)
    ensures var r := Set(d, k, v);
      && (forall i :: 0 <= i < |d.entries| ==> r.entries[i].0 == d.entries[i].0)
      && (forall i :: 0 <= i < |d.entries| ==>
            r.entries[i].1 == d.entries[i].1 || (r.entries[i].1 == v && SameKey(d.ignoreCase, d.entries[i].0, k)))
      && (|r.entries| > |d.entries| ==> r.entries[|d.entries|] == (k, v))
  {
  }
}
