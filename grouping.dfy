/**
 * The GroupBy in ExportKeyValues: arguments grouped by their upper-cased key text with
 * the default, ordinal comparer. Enumerable.GroupBy yields the groups in the order in
 * which their keys first appear, each group holding its elements in source order.
 */
module Grouping {
  import opened Wrappers
  import opened Chars
  import opened Strings
  import opened CliPatterns

  type Group = (string, seq<string>)

  /** Position of the group whose key is `k`. */
  function GroupIndex(gs: seq<Group>, k: string): (r: Option<nat>)
    ensures r.Some? ==> r.value < |gs| && gs[r.value].0 == k
    ensures r.Some? ==> forall j :: 0 <= j < r.value ==> gs[j].0 != k
    ensures r.None? ==> forall j :: 0 <= j < |gs| ==> gs[j].0 != k
  {
    if gs == [] then None
    else if gs[0].0 == k then Some(0)
    else match GroupIndex(gs[1..], k)
      case None => None
      case Some(i) => Some(i + 1)
  }

  /** One more element: it joins the group of its key, or opens a new last group. */
  function AddToGroups(gs: seq<Group>, a: string): seq<Group> {
    var k := KeyOf(a);
    match GroupIndex(gs, k)
    case Some(i) => gs[i := (k, gs[i].1 + [a])]
    case None => gs + [(k, [a])]
  }

  /** arguments.GroupBy(i => KeyOf(i)) */
  function GroupBy(args: seq<string>): seq<Group>
    decreases |args|
  {
    if args == [] then [] else AddToGroups(GroupBy(args[..|args| - 1]), args[|args| - 1])
  }

  // ------------------------------------------------------------ reference definitions

  /** The arguments whose key is `k`, in source order. */
  function Filter(args: seq<string>, k: string): (r: seq<string>)
    ensures |r| <= |args|
    decreases |args|
  {
    if args == [] then []
    else Filter(args[..|args| - 1], k) + (if KeyOf(args[|args| - 1]) == k then [args[|args| - 1]] else [])
  }

  /** The distinct keys, in order of first appearance. */
  function DistinctKeys(args: seq<string>): seq<string>
    decreases |args|
  {
    if args == [] then []
    else
      var ks := DistinctKeys(args[..|args| - 1]);
      var k := KeyOf(args[|args| - 1]);
      if k in ks then ks else ks + [k]
  }

  predicate NoDuplicates(ks: seq<string>) {
    forall i, j :: 0 <= i < j < |ks| ==> ks[i] != ks[j]
  }

  /** The key of every argument, and no other text, is among the distinct keys,
      and none is listed twice. */
  lemma {:induction false} DistinctKeysAre(args: seq<string>)
    ensures NoDuplicates(DistinctKeys(args))
    ensures forall k :: k in DistinctKeys(args) <==> exists a :: a in args && KeyOf(a) == k
    decreases |args|
  {
    if args != [] {
      var p, a := args[..|args| - 1], args[|args| - 1];
      assert args == p + [a];
      DistinctKeysAre(p);
      forall k ensures k in DistinctKeys(args) <==> exists b :: b in args && KeyOf(b) == k {
        if k in DistinctKeys(args) {
          if k in DistinctKeys(p) {
            var b :| b in p && KeyOf(b) == k;
            assert b in args;
          } else {
            assert KeyOf(a) == k;
          }
        }
        if exists b :: b in args && KeyOf(b) == k {
          var b :| b in args && KeyOf(b) == k;
          if b != a {
            assert b in p;
          }
        }
      }
    }
  }

  /** A key that no argument has selects nothing. */
  lemma {:induction false} FilterAbsent(args: seq<string>, k: string)
    requires forall a :: a in args ==> KeyOf(a) != k
    ensures Filter(args, k) == []
    decreases |args|
  {
    if args != [] {
      assert args[|args| - 1] in args;
      forall a | a in args[..|args| - 1] ensures KeyOf(a) != k {
        assert a in args;
      }
      FilterAbsent(args[..|args| - 1], k);
    }
  }

  /** GroupBy(args) lists the distinct keys with their arguments. */
  predicate GroupsAre(args: seq<string>) {
    && |GroupBy(args)| == |DistinctKeys(args)|
    && forall i :: 0 <= i < |GroupBy(args)| ==>
      GroupBy(args)[i] == (DistinctKeys(args)[i], Filter(args, DistinctKeys(args)[i]))
  }

  /** Adding an argument to the prefix keeps the groups right: the filter of the new
      key gains it, every other filter stays as it was. */
  lemma {:induction false} GroupStep(args: seq<string>)
    requires args != [] && GroupsAre(args[..|args| - 1])
    ensures GroupsAre(args)
  {
    var p, a := args[..|args| - 1], args[|args| - 1];
    match GroupIndex(GroupBy(p), KeyOf(a))
    case Some(i) => GroupJoin(args, i);
    case None => GroupOpen(args);
  }

  /** The last argument's key already has a group: that group gains it. */
  lemma {:induction false} GroupJoin(args: seq<string>, i: nat)
    requires args != [] && GroupsAre(args[..|args| - 1])
    requires GroupIndex(GroupBy(args[..|args| - 1]), KeyOf(args[|args| - 1])) == Some(i)
    ensures GroupsAre(args)
  {
    var p, a := args[..|args| - 1], args[|args| - 1];
    var gs, ks, k := GroupBy(p), DistinctKeys(p), KeyOf(a);
    var r := GroupBy(args);
    DistinctKeysAre(p);
    assert gs[i] == (ks[i], Filter(p, ks[i]));
    assert r == gs[i := (k, gs[i].1 + [a])];
    assert DistinctKeys(args) == ks;
    forall j | 0 <= j < |r| ensures r[j] == (ks[j], Filter(args, ks[j])) {
      assert gs[j] == (ks[j], Filter(p, ks[j]));
      if j != i {
        assert ks[j] != ks[i];
        assert Filter(args, ks[j]) == Filter(p, ks[j]);
      }
    }
  }

  /** The last argument's key is new: it opens a last group of its own. */
  lemma {:induction false} GroupOpen(args: seq<string>)
    requires args != [] && GroupsAre(args[..|args| - 1])
    requires GroupIndex(GroupBy(args[..|args| - 1]), KeyOf(args[|args| - 1])).None?
    ensures GroupsAre(args)
  {
    var p, a := args[..|args| - 1], args[|args| - 1];
    var gs, ks, k := GroupBy(p), DistinctKeys(p), KeyOf(a);
    var r := GroupBy(args);
    assert r == gs + [(k, [a])];
    assert k !in ks;
    var ks' := ks + [k];
    assert DistinctKeys(args) == ks';
    forall j | 0 <= j < |gs| ensures r[j] == (ks'[j], Filter(args, ks'[j])) {
      assert ks'[j] == ks[j] != k;
      assert Filter(args, ks[j]) == Filter(p, ks[j]);
    }
    assert Filter(args, k) == [a] by {
      DistinctKeysAre(p);
      assert !exists b :: b in p && KeyOf(b) == k;
      FilterAbsent(p, k);
    }
  }

  /** The groups are exactly the distinct keys, in order of first appearance, each with
      the arguments that have that key, in source order. */
  lemma {:induction false} GroupByIs(args: seq<string>)
    ensures GroupsAre(args)
    decreases |args|
  {
    if args != [] {
      GroupByIs(args[..|args| - 1]);
      GroupStep(args);
    }
  }

  /** Filter(args, k) holds some argument whenever `k` is the key of one: no group is
      empty, so the `!group.Any()` branch is never taken. */
  lemma {:induction false} FilterNonEmpty(args: seq<string>, a: string)
    requires a in args
    ensures Filter(args, KeyOf(a)) != []
    decreases |args|
  {
    var p := args[..|args| - 1];
    if args[|args| - 1] != a {
      assert args == p + [args[|args| - 1]];
      assert a in p;
      FilterNonEmpty(p, a);
    }
  }

  /** Every group is non-empty, and all its arguments have the group's key. */
  lemma {:induction false} GroupsNonEmpty(args: seq<string>, i: nat)
    requires i < |GroupBy(args)|
    ensures GroupBy(args)[i].1 != []
    ensures forall b :: b in GroupBy(args)[i].1 ==> KeyOf(b) == GroupBy(args)[i].0
  {
    GroupByIs(args);
    DistinctKeysAre(args);
    var k := DistinctKeys(args)[i];
    assert k in DistinctKeys(args);
    var a :| a in args && KeyOf(a) == k;
    FilterNonEmpty(args, a);
    FilterKeys(args, k);
  }

  lemma {:induction false} FilterKeys(args: seq<string>, k: string)
    ensures forall b :: b in Filter(args, k) ==> KeyOf(b) == k && b in args
    decreases |args|
  {
    if args != [] {
      var p := args[..|args| - 1];
      FilterKeys(p, k);
      forall b | b in p ensures b in args {
        assert args == p + [args[|args| - 1]];
      }
    }
  }

  /** Tokens whose key texts differ only in case fall in one group. */
  lemma {:induction false} SameGroup(a: string, b: string)
    requires EqualsIgnoreCase(a[..IndexOfChar(a, ':')], b[..IndexOfChar(b, ':')])
    ensures KeyOf(a) == KeyOf(b)
  {
    KeyOfPrefix(a);
    KeyOfPrefix(b);
  }
}
