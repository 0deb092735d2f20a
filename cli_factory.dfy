/**
 * CliFactory.ConvertToDictionary and its helpers: the template body is extracted,
 * nested "{{$...}}" expressions are hidden behind their Base64 placeholders, the body
 * is split into "--" arguments, the arguments are grouped by key into a
 * case-insensitive dictionary, and that dictionary goes through JSON, where the
 * placeholders are put back, before it is copied into the returned dictionary.
 */
module CliFactory {
  import opened Wrappers
  import opened Chars
  import opened Strings
  import opened Dictionaries
  import opened Base64
  import opened Json
  import opened CliPatterns
  import opened PascalCase
  import opened Grouping

  /** Where the source throws. */
  datatype ConvertError =
    | InvalidJson               // JsonSerializer.Deserialize rejects the restored text
    | DuplicateKey(key: string) // the OrdinalIgnoreCase copy meets a key twice

  // ------------------------------------------------------------ ExportNestedExpressions

  /** Keys and values are non-empty, as Replace requires of what it looks for. */
  predicate NonEmptyEntries(es: seq<(string, string)>) {
    forall i :: 0 <= i < |es| ==> es[i].0 != [] && es[i].1 != []
  }

  /** Every key is one of `ks`. */
  predicate KeysAmong(es: seq<(string, string)>, ks: seq<string>) {
    forall i :: 0 <= i < |es| ==> es[i].0 in ks
  }

  /** The dictionary the loop of ExportNestedExpressions builds from the matches: each
      expression set to its placeholder, with case-insensitive keys. */
  function ExpressionMap(es: seq<string>): (d: Dict<string>)
    requires forall i :: 0 <= i < |es| ==> es[i] != []
    ensures d.ignoreCase && NonEmptyEntries(d.entries) && KeysAmong(d.entries, es)
    decreases |es|
  {
    if es == [] then Empty(true)
    else
      var p, e := es[..|es| - 1], es[|es| - 1];
      var d := ExpressionMap(p);
      ExpressionMapStep(d, p, e);
      Set(d, e, Placeholder(e))
  }

  lemma {:induction false} ExpressionMapStep(d: Dict<string>, p: seq<string>, e: string)
    requires e != [] && NonEmptyEntries(d.entries) && KeysAmong(d.entries, p)
    ensures var r := Set(d, e, Placeholder(e));
      NonEmptyEntries(r.entries) && KeysAmong(r.entries, p + [e])
  {
    var r := Set(d, e, Placeholder(e));
    SetEntries(d, e, Placeholder(e));
    forall i | 0 <= i < |r.entries| ensures r.entries[i].0 in p + [e] && r.entries[i].0 != [] && r.entries[i].1 != [] {
      if i < |d.entries| {
        assert d.entries[i].0 in p;
      }
    }
  }

  /** ExportNestedExpressions */
  method ExportNestedExpressions(cli: string) returns (expressionMap: Dict<string>)
    ensures expressionMap == ExpressionMap(NestedExpressions(cli, 0))
  {
    var nestedExpressions := NestedExpressions(cli, 0);
    expressionMap := Empty(true);
    for i := 0 to |nestedExpressions|
      invariant expressionMap == ExpressionMap(nestedExpressions[..i])
    {
      var expression := nestedExpressions[i];
      assert nestedExpressions[..i + 1][..i] == nestedExpressions[..i];
      expressionMap := Set(expressionMap, expression, Placeholder(expression));
    }
    assert nestedExpressions[..|nestedExpressions|] == nestedExpressions;
  }

  /** No two expressions differ only in case. */
  predicate CaseVariantFree(es: seq<string>) {
    forall a, b :: a in es && b in es && EqualsIgnoreCase(a, b) ==> a == b
  }

  /** Every key is stored with its own placeholder. */
  predicate MapsToPlaceholders(d: Dict<string>) {
    forall i :: 0 <= i < |d.entries| ==> d.entries[i].1 == Placeholder(d.entries[i].0)
  }

  /** Each value is the placeholder of one of `es` that equals its key ignoring case. */
  predicate ValuesFrom(d: Dict<string>, es: seq<string>) {
    forall i :: 0 <= i < |d.entries| ==>
      exists e :: e in es && EqualsIgnoreCase(e, d.entries[i].0) && d.entries[i].1 == Placeholder(e)
  }

  /** No two keys are equal ignoring case. */
  lemma {:induction false} ExpressionMapDistinct(es: seq<string>)
    requires forall i :: 0 <= i < |es| ==> es[i] != []
    ensures KeysDistinct(ExpressionMap(es))
    decreases |es|
  {
    if es != [] {
      var p, e := es[..|es| - 1], es[|es| - 1];
      ExpressionMapDistinct(p);
      SetKeepsKeysDistinct(ExpressionMap(p), e, Placeholder(e));
    }
  }

  lemma {:induction false} ContainsStep(d: Dict<string>, p: seq<string>, e: string, v: string)
    requires forall x :: x in p ==> ContainsKey(d, x)
    ensures forall x :: x in p + [e] ==> ContainsKey(Set(d, e, v), x)
  {
    forall x | x in p + [e] ensures ContainsKey(Set(d, e, v), x) {
      SetThenGet(d, e, v, x);
    }
  }

  /** Every match is a key, up to case. */
  lemma {:induction false} ExpressionMapContains(es: seq<string>)
    requires forall i :: 0 <= i < |es| ==> es[i] != []
    ensures forall e :: e in es ==> ContainsKey(ExpressionMap(es), e)
    decreases |es|
  {
    if es != [] {
      var p, e := es[..|es| - 1], es[|es| - 1];
      ExpressionMapContains(p);
      ContainsStep(ExpressionMap(p), p, e, Placeholder(e));
      assert p + [e] == es;
    }
  }

  lemma {:induction false} ValuesFromStep(d: Dict<string>, es: seq<string>)
    requires es != [] && ValuesFrom(d, es[..|es| - 1])
    ensures ValuesFrom(Set(d, es[|es| - 1], Placeholder(es[|es| - 1])), es)
  {
    var p, e := es[..|es| - 1], es[|es| - 1];
    var r := Set(d, e, Placeholder(e));
    SetEntries(d, e, Placeholder(e));
    forall i | 0 <= i < |r.entries|
      ensures exists y :: y in es && EqualsIgnoreCase(y, r.entries[i].0) && r.entries[i].1 == Placeholder(y)
    {
      if i < |d.entries| && r.entries[i].1 == d.entries[i].1 {
        var y :| y in p && EqualsIgnoreCase(y, d.entries[i].0) && d.entries[i].1 == Placeholder(y);
        assert y in es;
      } else {
        assert EqualsIgnoreCase(e, r.entries[i].0) && r.entries[i].1 == Placeholder(e);
        assert e in es;
      }
    }
  }

  /** Each value is the placeholder of a match equal to its key ignoring case. */
  lemma {:induction false} ExpressionMapValues(es: seq<string>)
    requires forall i :: 0 <= i < |es| ==> es[i] != []
    ensures ValuesFrom(ExpressionMap(es), es)
    decreases |es|
  {
    if es != [] {
      ExpressionMapValues(es[..|es| - 1]);
      ValuesFromStep(ExpressionMap(es[..|es| - 1]), es);
    }
  }

  /** When no two matches differ only in case, every key is stored with its own
      placeholder. */
  lemma {:induction false} ExpressionMapPlaceholders(es: seq<string>)
    requires forall i :: 0 <= i < |es| ==> es[i] != []
    requires CaseVariantFree(es)
    ensures MapsToPlaceholders(ExpressionMap(es))
  {
    var d := ExpressionMap(es);
    ExpressionMapValues(es);
    forall i | 0 <= i < |d.entries| ensures d.entries[i].1 == Placeholder(d.entries[i].0) {
      var y :| y in es && EqualsIgnoreCase(y, d.entries[i].0) && d.entries[i].1 == Placeholder(y);
      assert d.entries[i].0 in es;
    }
  }

  /** A placeholder passes through the JSON step unchanged, and can therefore be found
      again by the restoring Replace, exactly when it holds no '+' digit (the default
      encoder writes '+' as a \u002B escape). */
  lemma {:induction false} PlaceholderThroughJson(expression: string)
    ensures var p := Placeholder(expression);
      EscapeString(p) == p <==> forall i :: 0 <= i < |p| ==> p[i] != '+'
  {
    var p := Placeholder(expression);
    EscapeUnchanged(p);
    forall i | 0 <= i < |p| ensures IsPlain(p[i]) <==> p[i] != '+' {
      assert IsBase64Char(p[i]);
    }
  }

  // ------------------------------------------------------------------ ExportKeyValues

  /** The values of a group's arguments, in order. */
  function Values(vs: seq<string>): (r: seq<string>)
    ensures |r| == |vs| && forall i :: 0 <= i < |vs| ==> r[i] == ExtractValue(vs[i])
  {
    seq(|vs|, i requires 0 <= i < |vs| => ExtractValue(vs[i]))
  }

  /** The value ExportKeyValues stores for a group: "" for none, the single argument's
      value, or the JSON array of all the values. */
  function GroupValue(vs: seq<string>): string {
    if vs == [] then [] else if |vs| == 1 then ExtractValue(vs[0]) else SerializeArray(Values(vs))
  }

  /** The results dictionary after the loop over the groups: each group's PascalCase key
      set to its value. */
  function KeyValueMap(gs: seq<Group>): (d: Dict<string>)
    ensures d.ignoreCase
    decreases |gs|
  {
    if gs == [] then Empty(true)
    else
      var g := gs[|gs| - 1];
      Set(KeyValueMap(gs[..|gs| - 1]), ToPascalCase(g.0), GroupValue(g.1))
  }

  /** ExportKeyValues */
  method ExportKeyValues(arguments: seq<string>) returns (results: Dict<string>)
    ensures results == KeyValueMap(GroupBy(arguments))
  {
    results := Empty(true);
    var groups := GroupBy(arguments);
    for i := 0 to |groups|
      invariant results == KeyValueMap(groups[..i])
    {
      var groupKey, group := groups[i].0, groups[i].1;
      var key := ToPascalCase(groupKey);
      var value;
      if group == [] {
        value := [];
      } else if |group| == 1 {
        value := ExtractValue(group[0]);
      } else {
        value := SerializeArray(Values(group));
      }
      KeyValueMapNext(groups, i);
      results := Set(results, key, value);
    }
    assert groups[..|groups|] == groups;
  }

  lemma {:induction false} KeyValueMapNext(gs: seq<Group>, i: nat)
    requires i < |gs|
    ensures KeyValueMap(gs[..i + 1]) == Set(KeyValueMap(gs[..i]), ToPascalCase(gs[i].0), GroupValue(gs[i].1))
  {
    assert gs[..i + 1][..i] == gs[..i];
  }

  /** The value of the last group whose PascalCase key equals `q` ignoring case. */
  function LastValue(gs: seq<Group>, q: string): Option<string>
    decreases |gs|
  {
    if gs == [] then None
    else if EqualsIgnoreCase(ToPascalCase(gs[|gs| - 1].0), q) then Some(GroupValue(gs[|gs| - 1].1))
    else LastValue(gs[..|gs| - 1], q)
  }

  /** Looking a key up in the results finds the last group that normalises to it: a
      later group overwrites an earlier one with the same identifier. */
  lemma {:induction false} KeyValueMapGet(gs: seq<Group>, q: string)
    ensures Get(KeyValueMap(gs), q) == LastValue(gs, q)
    decreases |gs|
  {
    if gs != [] {
      var g := gs[|gs| - 1];
      KeyValueMapGet(gs[..|gs| - 1], q);
      SetThenGet(KeyValueMap(gs[..|gs| - 1]), ToPascalCase(g.0), GroupValue(g.1), q);
    }
  }

  /** The results never hold two keys equal ignoring case. */
  lemma {:induction false} KeyValueMapDistinct(gs: seq<Group>)
    ensures KeysDistinct(KeyValueMap(gs))
    decreases |gs|
  {
    if gs != [] {
      var g := gs[|gs| - 1];
      KeyValueMapDistinct(gs[..|gs| - 1]);
      SetKeepsKeysDistinct(KeyValueMap(gs[..|gs| - 1]), ToPascalCase(g.0), GroupValue(g.1));
    }
  }

  lemma {:induction false} LastValueAt(gs: seq<Group>, q: string, i: nat)
    requires i < |gs| && EqualsIgnoreCase(ToPascalCase(gs[i].0), q)
    requires forall j :: i < j < |gs| ==> !EqualsIgnoreCase(ToPascalCase(gs[j].0), q)
    ensures LastValue(gs, q) == Some(GroupValue(gs[i].1))
    decreases |gs|
  {
    if i < |gs| - 1 {
      LastValueAt(gs[..|gs| - 1], q, i);
    }
  }

  /** When no other key of the arguments normalises to the same identifier ignoring case,
      the identifier of an argument's key maps to the value of all the arguments with
      that key: the single value verbatim, or the JSON array of the values in order. */
  lemma {:induction false} LookupKey(args: seq<string>, a: string)
    requires a in args
    requires forall b :: b in args ==>
      EqualsIgnoreCase(ToPascalCase(KeyOf(b)), ToPascalCase(KeyOf(a))) ==> KeyOf(b) == KeyOf(a)
    ensures Get(KeyValueMap(GroupBy(args)), ToPascalCase(KeyOf(a))) == Some(GroupValue(Filter(args, KeyOf(a))))
  {
    var gs, ks, k := GroupBy(args), DistinctKeys(args), KeyOf(a);
    GroupByIs(args);
    DistinctKeysAre(args);
    assert k in ks;
    var i :| 0 <= i < |ks| && ks[i] == k;
    forall j | i < j < |gs| ensures !EqualsIgnoreCase(ToPascalCase(gs[j].0), ToPascalCase(k)) {
      assert ks[j] in ks;
      var b :| b in args && KeyOf(b) == ks[j];
      assert ks[j] != k;
    }
    LastValueAt(gs, ToPascalCase(k), i);
    KeyValueMapGet(gs, ToPascalCase(k));
  }

  // ---------------------------------------------------------------- ConvertToDictionary

  /** The first loop: `cleanCli.Replace(item.Key, item.Value)` for every entry in order. */
  function ReplaceAll(s: string, es: seq<(string, string)>): string
    requires forall i :: 0 <= i < |es| ==> es[i].0 != []
    decreases |es|
  {
    if es == [] then s else Replace(ReplaceAll(s, es[..|es| - 1]), es[|es| - 1].0, es[|es| - 1].1)
  }

  /** The second loop: `argumentsJson.Replace(item.Value, item.Key)` for every entry in order. */
  function RestoreAll(s: string, es: seq<(string, string)>): string
    requires forall i :: 0 <= i < |es| ==> es[i].1 != []
    decreases |es|
  {
    if es == [] then s else Replace(RestoreAll(s, es[..|es| - 1]), es[|es| - 1].1, es[|es| - 1].0)
  }

  lemma {:induction false} ReplaceAllNext(s: string, es: seq<(string, string)>, i: nat)
    requires i < |es| && NonEmptyEntries(es)
    ensures ReplaceAll(s, es[..i + 1]) == Replace(ReplaceAll(s, es[..i]), es[i].0, es[i].1)
  {
    assert es[..i + 1][..i] == es[..i];
  }

  lemma {:induction false} RestoreAllNext(s: string, es: seq<(string, string)>, i: nat)
    requires i < |es| && NonEmptyEntries(es)
    ensures RestoreAll(s, es[..i + 1]) == Replace(RestoreAll(s, es[..i]), es[i].1, es[i].0)
  {
    assert es[..i + 1][..i] == es[..i];
  }

  /** Deserialize<IDictionary<string, string>>: the members put into an ordinal
      dictionary in order; a repeated name keeps its place and takes the later value. */
  function FromMembers(ms: seq<(string, string)>): (d: Dict<string>)
    ensures !d.ignoreCase
    decreases |ms|
  {
    if ms == [] then Empty(false)
    else Set(FromMembers(ms[..|ms| - 1]), ms[|ms| - 1].0, ms[|ms| - 1].1)
  }

  /** new Dictionary<string, string>(collection, StringComparer.OrdinalIgnoreCase): the
      entries added in order; a key equal to an earlier one ignoring case throws. */
  function CopyIgnoreCase(es: seq<(string, string)>): Result<Dict<string>, ConvertError>
    decreases |es|
  {
    if es == [] then Ok(Empty(true))
    else
      match CopyIgnoreCase(es[..|es| - 1])
      case Err(e) => Err(e)
      case Ok(d) =>
        if ContainsKey(d, es[|es| - 1].0) then Err(DuplicateKey(es[|es| - 1].0))
        else Ok(Dict(d.entries + [es[|es| - 1]], true))
  }

  /** The private ConvertToDictionary with the default patterns. */
  function Convert(cli: Option<string>): Result<Dict<string>, ConvertError> {
    if cli.None? || cli.value == [] then Ok(Empty(true))
    else
      var cleanCli := ExtractTemplate(cli.value);
      var nested := ExpressionMap(NestedExpressions(cleanCli, 0)).entries;
      var arguments := KeyValueMap(GroupBy(Arguments(ReplaceAll(cleanCli, nested))));
      match ParseObject(RestoreAll(SerializeObject(arguments.entries), nested))
      case None => Err(InvalidJson)
      case Some(members) => CopyIgnoreCase(FromMembers(members).entries)
  }

  /** The loop that hides the nested expressions: each key replaced by its value. */
  method HideNestedExpressions(cli: string, nested: seq<(string, string)>) returns (cleanCli: string)
    requires NonEmptyEntries(nested)
    ensures cleanCli == ReplaceAll(cli, nested)
  {
    cleanCli := cli;
    for i := 0 to |nested|
      invariant cleanCli == ReplaceAll(cli, nested[..i])
    {
      ReplaceAllNext(cli, nested, i);
      cleanCli := Replace(cleanCli, nested[i].0, nested[i].1);
    }
    assert nested[..|nested|] == nested;
  }

  /** The loop that puts the nested expressions back: each value replaced by its key. */
  method RestoreNestedExpressions(json: string, nested: seq<(string, string)>) returns (argumentsJson: string)
    requires NonEmptyEntries(nested)
    ensures argumentsJson == RestoreAll(json, nested)
  {
    argumentsJson := json;
    for i := 0 to |nested|
      invariant argumentsJson == RestoreAll(json, nested[..i])
    {
      RestoreAllNext(json, nested, i);
      argumentsJson := Replace(argumentsJson, nested[i].1, nested[i].0);
    }
    assert nested[..|nested|] == nested;
  }

  /** ConvertToDictionary, both overloads: the public one only passes the default patterns. */
  method ConvertToDictionary(cli: Option<string>) returns (r: Result<Dict<string>, ConvertError>)
    ensures r == Convert(cli)
    ensures cli.None? || cli.value == [] ==> r == Ok(Empty(true))
  {
    if cli.None? || cli.value == [] {
      return Ok(Empty(true));
    }
    var cleanCli := ExtractTemplate(cli.value);
    var nestedExpressionMap := ExportNestedExpressions(cleanCli);
    var hidden := HideNestedExpressions(cleanCli, nestedExpressionMap.entries);
    var arguments := ExportKeyValues(Arguments(hidden));
    var argumentsJson := RestoreNestedExpressions(SerializeObject(arguments.entries), nestedExpressionMap.entries);
    match ParseObject(argumentsJson) {
      case None =>
        r := Err(InvalidJson);
      case Some(collection) =>
        r := CopyIgnoreCase(FromMembers(collection).entries);
    }
  }

  // ---------------------------------------------------------------- properties

  /** Keys pairwise different ignoring case. */
  predicate NamesDistinct(es: seq<(string, string)>) {
    forall i, j :: 0 <= i < j < |es| ==> !EqualsIgnoreCase(es[i].0, es[j].0)
  }

  /** The last key differs from every earlier one ignoring case. */
  predicate LastFresh(es: seq<(string, string)>)
    requires es != []
  {
    forall j :: 0 <= j < |es| - 1 ==> !EqualsIgnoreCase(es[j].0, es[|es| - 1].0)
  }

  lemma {:induction false} NamesDistinctSnoc(es: seq<(string, string)>)
    requires es != []
    ensures NamesDistinct(es) <==> NamesDistinct(es[..|es| - 1]) && LastFresh(es)
  {
    var p := es[..|es| - 1];
    if NamesDistinct(es) {
      forall i, j | 0 <= i < j < |p| ensures !EqualsIgnoreCase(p[i].0, p[j].0) {
        assert p[i] == es[i] && p[j] == es[j];
      }
    }
    if NamesDistinct(p) && LastFresh(es) {
      forall i, j | 0 <= i < j < |es| ensures !EqualsIgnoreCase(es[i].0, es[j].0) {
        if j < |es| - 1 {
          assert p[i] == es[i] && p[j] == es[j];
        }
      }
    }
  }

  /** A last key unlike every earlier one ignoring case is added. */
  lemma {:induction false} CopyDistinctStep(es: seq<(string, string)>)
    requires es != [] && LastFresh(es)
    requires CopyIgnoreCase(es[..|es| - 1]) == Ok(Dict(es[..|es| - 1], true))
    ensures CopyIgnoreCase(es) == Ok(Dict(es, true))
  {
    var p, e := es[..|es| - 1], es[|es| - 1];
    var d := Dict(p, true);
    assert IndexOf(d, e.0).None? by {
      forall j | 0 <= j < |p| ensures !SameKey(true, d.entries[j].0, e.0) {
        assert p[j] == es[j];
      }
    }
    assert p + [e] == es;
  }

  /** A last key equal to an earlier one ignoring case makes the copy throw. */
  lemma {:induction false} CopyClashStep(es: seq<(string, string)>)
    requires es != [] && !LastFresh(es)
    requires CopyIgnoreCase(es[..|es| - 1]) == Ok(Dict(es[..|es| - 1], true))
    ensures CopyIgnoreCase(es).Err?
  {
    var p, e := es[..|es| - 1], es[|es| - 1];
    var i :| 0 <= i < |es| - 1 && EqualsIgnoreCase(es[i].0, e.0);
    assert SameKey(true, Dict(p, true).entries[i].0, e.0);
    assert ContainsKey(Dict(p, true), e.0);
  }

  /** The case-insensitive copy succeeds exactly when no two keys are equal ignoring
      case, and then holds the same entries in the same order. */
  lemma {:induction false} CopyIgnoreCaseIs(es: seq<(string, string)>)
    ensures NamesDistinct(es) ==> CopyIgnoreCase(es) == Ok(Dict(es, true))
    ensures !NamesDistinct(es) ==> CopyIgnoreCase(es).Err?
    decreases |es|
  {
    if es != [] {
      var p := es[..|es| - 1];
      CopyIgnoreCaseIs(p);
      NamesDistinctSnoc(es);
      if NamesDistinct(p) {
        if LastFresh(es) {
          CopyDistinctStep(es);
        } else {
          CopyClashStep(es);
        }
      }
    }
  }

  /** Deserialising members whose names are distinct ignoring case keeps them as they are. */
  lemma {:induction false} FromMembersDistinct(ms: seq<(string, string)>)
    requires NamesDistinct(ms)
    ensures FromMembers(ms).entries == ms
    decreases |ms|
  {
    if ms != [] {
      var p, m := ms[..|ms| - 1], ms[|ms| - 1];
      assert NamesDistinct(p) by {
        forall i, j | 0 <= i < j < |p| ensures !EqualsIgnoreCase(p[i].0, p[j].0) {
          assert p[i] == ms[i] && p[j] == ms[j];
        }
      }
      FromMembersDistinct(p);
      var d := FromMembers(p);
      forall j | 0 <= j < |p| ensures !SameKey(false, p[j].0, m.0) {
        assert p[j] == ms[j];
        assert !EqualsIgnoreCase(ms[j].0, ms[|ms| - 1].0);
      }
      assert IndexOf(d, m.0).None?;
      assert p + [m] == ms;
    }
  }

  lemma {:induction false} KeysDistinctNames(d: Dict<string>)
    requires d.ignoreCase && KeysDistinct(d)
    ensures NamesDistinct(d.entries)
  {
  }

  /** Without nested expressions the placeholders play no part: the result is the
      results dictionary of the arguments, unchanged by its trip through JSON. */
  lemma {:induction false} ConvertWithoutNested(x: string)
    requires x != [] && NestedExpressions(ExtractTemplate(x), 0) == []
    ensures Convert(Some(x)) == Ok(KeyValueMap(GroupBy(Arguments(ExtractTemplate(x)))))
  {
    var cleanCli := ExtractTemplate(x);
    assert ExpressionMap([]).entries == [];
    var arguments := KeyValueMap(GroupBy(Arguments(cleanCli)));
    ParseObjectRoundTrip(arguments.entries);
    KeyValueMapDistinct(GroupBy(Arguments(cleanCli)));
    KeysDistinctNames(arguments);
    FromMembersDistinct(arguments.entries);
    CopyIgnoreCaseIs(arguments.entries);
  }

  /** A text with no template gives an empty dictionary. */
  lemma {:induction false} ConvertWithoutTemplate(x: string)
    requires TemplateSpan(x).None?
    ensures Convert(Some(x)) == Ok(Empty(true))
  {
    if x != [] {
      assert ExtractTemplate(x) == [];
      assert NestedExpressions([], 0) == [];
      assert Arguments([]) == [] by {
        assert ArgumentMatches([], 0) == [];
      }
      ConvertWithoutNested(x);
    }
  }

  /** Without nested expressions, and when no other key normalises to the same
      identifier, the identifier of an argument's key gets the value of the arguments
      with that key. */
  lemma {:induction false} ConvertLookup(x: string, a: string)
    requires x != [] && NestedExpressions(ExtractTemplate(x), 0) == []
    requires a in Arguments(ExtractTemplate(x))
    requires forall b :: b in Arguments(ExtractTemplate(x)) ==>
      EqualsIgnoreCase(ToPascalCase(KeyOf(b)), ToPascalCase(KeyOf(a))) ==> KeyOf(b) == KeyOf(a)
    ensures Convert(Some(x)).Ok?
    ensures Get(Convert(Some(x)).value, ToPascalCase(KeyOf(a))) ==
      Some(GroupValue(Filter(Arguments(ExtractTemplate(x)), KeyOf(a))))
  {
    ConvertWithoutNested(x);
    LookupKey(Arguments(ExtractTemplate(x)), a);
  }

  // ---------------------------------------------------------------- one nested expression

  /** The placeholder of the one nested expression is found after the value's opening
      quote and nowhere earlier, so putting the expression back rewrites the value only. */
  lemma {:induction false} RestoreInRawObject(key: string, p: string, e: string)
    requires p != [] && forall i :: 0 <= i < |p| ==> IsBase64Char(p[i])
    requires !Contains(key, p)
    ensures Replace(RawObject(key, p), p, e) == RawObject(key, e)
  {
    var a, b := ['{', '"'] + key + ['"', ':', '"'], ['"', '}'];
    var j := RawObject(key, p);
    assert j == a + p + b;
    assert j[|a|..|a| + |p|] == p;
    PlaceholderNotInHead(key, p);
    ReplaceAtFirst(j, p, e, |a|);
    assert j[..|a|] == a && j[|a| + |p|..] == b;
    assert !IsBase64Char('"') && !IsBase64Char('}');
    forall i: nat | i <= |b| ensures !OccursAt(b, i, p) {
      if OccursAt(b, i, p) {
        OccursBase64(b, i, p);
      }
    }
    ReplaceAbsent(b, p, e);
  }

  /** Base64 text meets no quote, brace or colon, so inside the head of the JSON object
      it can only occur within the key. */
  lemma {:induction false} PlaceholderNotInHead(key: string, p: string)
    requires p != [] && forall i :: 0 <= i < |p| ==> IsBase64Char(p[i])
    requires !Contains(key, p)
    ensures forall i: nat :: i < |key| + 5 ==> !OccursAt(RawObject(key, p), i, p)
  {
    var j := RawObject(key, p);
    var b := ['"', ':', '"'] + p + ['"', '}'];
    assert j == ['{', '"'] + key + b;
    assert !IsBase64Char('{') && !IsBase64Char('"') && !IsBase64Char(':');
    assert j[0] == '{' && j[1] == '"';
    assert j[2 + |key|] == '"' && j[3 + |key|] == ':' && j[4 + |key|] == '"';
    forall i: nat | i < |key| + 5 ensures !OccursAt(j, i, p) {
      if OccursAt(j, i, p) {
        OccursBase64(j, i, p);
        OccursInMiddle(['{', '"'], key, b, i - 2, p);
      }
    }
  }

  lemma {:induction false} OccursBase64(s: string, i: nat, p: string)
    requires OccursAt(s, i, p) && forall t :: 0 <= t < |p| ==> IsBase64Char(p[t])
    ensures forall t :: i <= t < i + |p| ==> IsBase64Char(s[t])
  {
    forall t | i <= t < i + |p| ensures IsBase64Char(s[t]) {
      assert s[t] == s[i..i + |p|][t - i];
    }
  }

  /** The template body "--key:expression": the expression is hidden behind its
      placeholder. */
  lemma {:induction false} HideOne(k: string, e: string)
    requires PlainKey(k) && IsNestedExpression(e)
    ensures var clean, p := "--" + k + ":" + e, Placeholder(e);
      && ExpressionMap(NestedExpressions(clean, 0)).entries == [(e, p)]
      && ReplaceAll(clean, [(e, p)]) == "--" + (k + [':'] + p)
  {
    FindOne(k, e);
    ReplaceOne(k, e);
  }

  lemma {:induction false} FindOne(k: string, e: string)
    requires PlainKey(k) && IsNestedExpression(e)
    ensures ExpressionMap(NestedExpressions("--" + k + ":" + e, 0)).entries == [(e, Placeholder(e))]
  {
    NoBraceBefore(k);
    NestedExpressionsOfOne("--" + k + ":", e);
    assert "--" + k + ":" + e == ("--" + k + ":") + e;
    assert [e][..0] == [];
    assert ExpressionMap([e]) == Set(Empty(true), e, Placeholder(e));
  }

  lemma {:induction false} ReplaceOne(k: string, e: string)
    requires PlainKey(k) && IsNestedExpression(e)
    ensures ReplaceAll("--" + k + ":" + e, [(e, Placeholder(e))]) == "--" + (k + [':'] + Placeholder(e))
  {
    var pre, p := "--" + k + ":", Placeholder(e);
    var es := [(e, p)];
    assert es[..0] == [];
    assert ReplaceAll(pre + e, es) == Replace(pre + e, e, p);
    NoBraceBefore(k);
    assert e[0] == e[..3][0] == '{';
    ReplaceAfterPrefix(pre, e, p);
  }

  lemma {:induction false} NoBraceBefore(k: string)
    requires PlainKey(k)
    ensures var pre := "--" + k + ":"; forall i :: 0 <= i < |pre| ==> pre[i] != '{'
  {
    var pre := "--" + k + ":";
    assert forall i :: 2 <= i < |pre| - 1 ==> pre[i] == k[i - 2];
  }

  /** The single argument "key:placeholder" becomes the one entry of the results. */
  lemma {:induction false} ExportOne(k: string, p: string)
    requires PlainKey(k) && p != [] && forall i :: 0 <= i < |p| ==> IsBase64Char(p[i])
    ensures KeyValueMap(GroupBy(Arguments("--" + (k + [':'] + p)))).entries == [(ToPascalCase(Upper(k)), p)]
  {
    var a := k + [':'] + p;
    assert forall i :: 0 <= i < |a| ==> !IsWhiteSpace(a[i]) by {
      forall i | 0 <= i < |a| ensures !IsWhiteSpace(a[i]) {
        if i > |k| {
          assert a[i] == p[i - |k| - 1] && IsBase64Char(p[i - |k| - 1]);
        }
      }
    }
    assert a[|a| - 1] == p[|p| - 1] && IsBase64Char(p[|p| - 1]);
    OneArgument(a);
    KeyValueOf(k, p);
    assert GroupBy([a]) == [(Upper(k), [a])] by {
      assert [a][..0] == [];
    }
    var gs := [(Upper(k), [a])];
    assert gs[..0] == [];
    assert KeyValueMap(gs) == Set(Empty(true), ToPascalCase(Upper(k)), p);
  }

  /** A key the argument pattern hands back whole as the text before the value: no
      white space (which ends the argument), no ':' (which ends the key) and no '{'
      (which could begin a nested expression). */
  predicate PlainKey(k: string) {
    forall i :: 0 <= i < |k| ==> k[i] != '{' && k[i] != ':' && !IsWhiteSpace(k[i])
  }

  /** One nested expression as the value of one argument comes back whole under the
      argument's PascalCase key: hidden behind its placeholder, carried through the
      argument scan and the JSON text, and put back. The expression must need no JSON
      escape (the restored text is read as JSON), its placeholder must have no '+' (the
      writer would escape it) and must not occur in the key (the restoring Replace would
      meet it there first). */
  lemma {:induction false} ConvertNestedRoundTrip(k: string, e: string)
    requires PlainKey(k) && IsNestedExpression(e) && RawText(e)
    requires forall i :: 0 <= i < |Placeholder(e)| ==> Placeholder(e)[i] != '+'
    ensures Convert(Some("{{$ --" + k + ":" + e + " }}")) == Ok(Dict([(ToPascalCase(Upper(k)), e)], true))
    ensures Get(Convert(Some("{{$ --" + k + ":" + e + " }}")).value, ToPascalCase(Upper(k))) == Some(e)
  {
    var x := "{{$ --" + k + ":" + e + " }}";
    var clean, p, key := "--" + k + ":" + e, Placeholder(e), ToPascalCase(Upper(k));
    TemplateOfOne(k, e);
    HideOne(k, e);
    ExportOne(k, p);
    PascalCaseAlphabet(Upper(k));
    KeyHoldsNoPlaceholder(k, e);
    JsonOfOne(key, e);
    ConvertStages(x, clean, [(e, p)], [(key, p)], [(key, e)]);
    CopyOne(key, e);
  }

  /** The template "{{$ --key:expression }}" gives its body back. */
  lemma {:induction false} TemplateOfOne(k: string, e: string)
    requires IsNestedExpression(e)
    ensures ExtractTemplate("{{$ --" + k + ":" + e + " }}") == "--" + k + ":" + e
  {
    var clean := "--" + k + ":" + e;
    assert "{{$ --" + k + ":" + e + " }}" == "{{$" + " " + clean + " " + "}}";
    assert IsTrimmed(clean) by {
      assert clean[0] == '-' && clean[|clean| - 1] == e[|e| - 1] == e[|e| - 2..][1];
    }
    ExtractWrapped(" ", clean, " ");
  }

  /** Convert as its four stages: the template, the hidden expressions, the arguments
      and the members read back from the restored JSON text. */
  lemma {:induction false} ConvertStages(x: string, clean: string, nested: seq<(string, string)>,
                                         arguments: seq<(string, string)>, members: seq<(string, string)>)
    requires x != [] && ExtractTemplate(x) == clean
    requires ExpressionMap(NestedExpressions(clean, 0)).entries == nested
    requires KeyValueMap(GroupBy(Arguments(ReplaceAll(clean, nested)))).entries == arguments
    requires ParseObject(RestoreAll(SerializeObject(arguments), nested)) == Some(members)
    ensures Convert(Some(x)) == CopyIgnoreCase(FromMembers(members).entries)
  {
  }

  /** A PascalCase key never holds a placeholder: every placeholder begins "e3s", a
      lower-case letter right after a digit, which the key never has. */
  lemma {:induction false} KeyHoldsNoPlaceholder(k: string, e: string)
    requires IsNestedExpression(e)
    ensures !Contains(ToPascalCase(Upper(k)), Placeholder(e))
  {
    var key, p := ToPascalCase(Upper(k)), Placeholder(e);
    PlaceholderStart(e);
    PascalCaseShape(Upper(k));
    assert p[1] == p[..4][1] == '3' && p[2] == p[..4][2] == 's';
    NoPairNoOccurrence(key, p, 1);
  }

  /** The writer and the reader of the JSON text, with the placeholder put back in
      between: the one member comes back with the expression as its value. */
  lemma {:induction false} JsonOfOne(key: string, e: string)
    requires AllAlnum(key) && e != [] && RawText(e)
    requires forall i :: 0 <= i < |Placeholder(e)| ==> Placeholder(e)[i] != '+'
    requires !Contains(key, Placeholder(e))
    ensures ParseObject(RestoreAll(SerializeObject([(key, Placeholder(e))]), [(e, Placeholder(e))])) ==
      Some([(key, e)])
  {
    var p := Placeholder(e);
    EscapeUnchanged(key);
    PlaceholderThroughJson(e);
    SerializePlainMember(key, p);
    var es := [(e, p)];
    assert es[..0] == [];
    assert RestoreAll(RawObject(key, p), es) == Replace(RawObject(key, p), p, e);
    RestoreInRawObject(key, p, e);
    PlainIsRaw(key);
    ParseRawObject(key, e);
  }

  /** The case-insensitive copy of the one member, and the lookup of its key. */
  lemma {:induction false} CopyOne(key: string, e: string)
    ensures CopyIgnoreCase(FromMembers([(key, e)]).entries) == Ok(Dict([(key, e)], true))
    ensures Get(Dict([(key, e)], true), key) == Some(e)
  {
    assert [(key, e)][..0] == [];
    assert FromMembers([(key, e)]).entries == [(key, e)];
    CopyIgnoreCaseIs([(key, e)]);
    var d := Dict([(key, e)], true);
    assert SameKey(true, key, key);
    assert IndexOf(d, key) == Some(0);
  }
}
