/** internal/services/util.go: the page-size clamp and `queryBuilder`, which
    renders a cached query template and binds its `@name` placeholders to
    positional `$n` markers. */
module Util {
  import opened Common
  import opened GoStrings

  // ---------------------------------------------------------------------
  // normalizePageSize
  // ---------------------------------------------------------------------

  const MinPageSize := 1
  const DefaultPageSize := 10
  const MaxPageSize := 20

  /** `normalizePageSize`: 0 (the value of a missing parameter) selects the
      default page size; everything else is clamped to [1, 20]. */
  function NormalizePageSize(i: int): (r: int)
    ensures MinPageSize <= r <= MaxPageSize
    ensures i == 0 ==> r == DefaultPageSize
    ensures i != 0 && i < MinPageSize ==> r == MinPageSize
    ensures i > MaxPageSize ==> r == MaxPageSize
    ensures MinPageSize <= i <= MaxPageSize ==> r == i
  {
    if i == 0 then DefaultPageSize
    else if i < MinPageSize then MinPageSize
    else if i > MaxPageSize then MaxPageSize
    else i
  }

  /** A normalized page size is a fixed point: normalizing twice is normalizing once. */
  lemma NormalizePageSizeIdempotent(i: int)
    ensures NormalizePageSize(NormalizePageSize(i)) == NormalizePageSize(i)
  {
  }

  // ---------------------------------------------------------------------
  // Placeholder binding
  // ---------------------------------------------------------------------

  /** A rendered query with the arguments bound so far. */
  datatype BoundQuery<V> = BoundQuery(query: string, args: seq<V>)

  /** The text `@key` that names a value in a query. */
  function Placeholder(key: string): (p: string)
    ensures |p| > 0 && p[0] == '@'
    ensures '$' in p <==> '$' in key
  {
    "@" + key
  }

  /** The positional marker `$n`, as `fmt.Sprintf("$%d", n)` writes it. */
  function Marker(n: nat): (m: string)
    ensures |m| > 0 && m[0] == '$' && '@' !in m
    ensures forall i :: 1 <= i < |m| ==> IsDigit(m[i])
    ensures m[1..] == Decimal(n)
    ensures DecimalValue(m[1..]) == n
  {
    var d := Decimal(n);
    DecimalRoundTrip(n);
    assert ("$" + d)[1..] == d;
    "$" + d
  }

  /** Distinct argument numbers get distinct markers. */
  lemma MarkerInjective(m: nat, n: nat)
    requires Marker(m) == Marker(n)
    ensures m == n
  {
  }

  /** A key can be bound safely when its placeholder cannot overlap a marker. */
  predicate Bindable(key: string) {
    '$' !in key
  }

  /** One turn of the loop over the data map: a key whose placeholder occurs
      in the current text appends its value and has every occurrence replaced
      by the marker of the new argument count; any other key is skipped. */
  function BindKey<V>(b: BoundQuery<V>, key: string, value: V): BoundQuery<V>
  {
    if !Contains(b.query, Placeholder(key)) then b
    else
      var args := b.args + [value];
      BoundQuery(ReplaceAll(b.query, Placeholder(key), Marker(|args|)), args)
  }

  /** The whole loop, visiting the keys in the given order. */
  function BindAll<V>(b: BoundQuery<V>, keys: seq<string>, data: map<string, V>): BoundQuery<V>
    requires forall k :: k in keys ==> k in data
    decreases |keys|
  {
    if keys == [] then b
    else BindAll(BindKey(b, keys[0], data[keys[0]]), keys[1..], data)
  }

  /** The keys, in visiting order, that contributed an argument. */
  function BoundKeys<V>(b: BoundQuery<V>, keys: seq<string>, data: map<string, V>): (bound: seq<string>)
    requires forall k :: k in keys ==> k in data
    ensures forall k :: k in bound ==> k in keys
    decreases |keys|
  {
    if keys == [] then []
    else
      (if Contains(b.query, Placeholder(keys[0])) then [keys[0]] else [])
      + BoundKeys(BindKey(b, keys[0], data[keys[0]]), keys[1..], data)
  }

  /** The values of the given keys, in the same order. */
  function Values<V>(keys: seq<string>, data: map<string, V>): (vs: seq<V>)
    requires forall k :: k in keys ==> k in data
    ensures |vs| == |keys|
    ensures forall i :: 0 <= i < |keys| ==> vs[i] == data[keys[i]]
  {
    if keys == [] then [] else [data[keys[0]]] + Values(keys[1..], data)
  }

  /** `xs` is `ys` with some elements left out. */
  predicate IsSubsequence<T(==)>(xs: seq<T>, ys: seq<T>)
    decreases |ys|
  {
    if xs == [] then true
    else if ys == [] then false
    else if xs[0] == ys[0] then IsSubsequence(xs[1..], ys[1..])
    else IsSubsequence(xs, ys[1..])
  }

  lemma {:induction false} SubsequenceLength<T>(xs: seq<T>, ys: seq<T>)
    requires IsSubsequence(xs, ys)
    ensures |xs| <= |ys|
    decreases |ys|
  {
    if xs != [] {
      if xs[0] == ys[0] {
        SubsequenceLength(xs[1..], ys[1..]);
      } else {
        SubsequenceLength(xs, ys[1..]);
      }
    }
  }

  /** The arguments are the values of the contributing keys, in visiting
      order: the k-th contributing key's value is argument k. */
  lemma {:induction false} BindAllArgs<V>(b: BoundQuery<V>, keys: seq<string>, data: map<string, V>)
    requires forall k :: k in keys ==> k in data
    ensures BindAll(b, keys, data).args == b.args + Values(BoundKeys(b, keys, data), data)
    decreases |keys|
  {
    if keys != [] {
      var k := keys[0];
      var b' := BindKey(b, k, data[k]);
      var rest := BoundKeys(b', keys[1..], data);
      BindAllArgs(b', keys[1..], data);
      if Contains(b.query, Placeholder(k)) {
        assert BoundKeys(b, keys, data) == [k] + rest;
        assert b'.args == b.args + [data[k]];
        ValuesAppend([k], rest, data);
      } else {
        assert BoundKeys(b, keys, data) == rest;
        assert b' == b;
      }
    } else {
      assert Values(BoundKeys(b, keys, data), data) == [];
    }
  }

  lemma ValuesAppend<V>(xs: seq<string>, ys: seq<string>, data: map<string, V>)
    requires forall k :: k in xs + ys ==> k in data
    ensures Values(xs + ys, data) == Values(xs, data) + Values(ys, data)
  {
  }

  /** The contributing keys are a subsequence of the visited ones, so a key
      yields at most one argument however often its placeholder occurs. */
  lemma {:induction false} BoundKeysSubsequence<V>(b: BoundQuery<V>, keys: seq<string>, data: map<string, V>)
    requires forall k :: k in keys ==> k in data
    ensures IsSubsequence(BoundKeys(b, keys, data), keys)
    ensures |BindAll(b, keys, data).args| <= |b.args| + |keys|
    decreases |keys|
  {
    if keys != [] {
      var k := keys[0];
      var b' := BindKey(b, k, data[k]);
      BoundKeysSubsequence(b', keys[1..], data);
      var rest := BoundKeys(b', keys[1..], data);
      if Contains(b.query, Placeholder(k)) {
        assert BoundKeys(b, keys, data) == [k] + rest;
        assert ([k] + rest)[1..] == rest;
      } else {
        assert BoundKeys(b, keys, data) == rest;
        SubsequenceSkip(rest, keys);
      }
    }
    BindAllArgs(b, keys, data);
    SubsequenceLength(BoundKeys(b, keys, data), keys);
  }

  lemma {:induction false} SubsequenceSkip<T>(xs: seq<T>, ys: seq<T>)
    requires |ys| > 0 && IsSubsequence(xs, ys[1..])
    ensures IsSubsequence(xs, ys)
    decreases |ys|, |xs|
  {
    if xs != [] && xs[0] == ys[0] {
      SubsequenceTail(xs, ys[1..]);
    }
  }

  lemma {:induction false} SubsequenceTail<T>(xs: seq<T>, ys: seq<T>)
    requires |xs| > 0 && IsSubsequence(xs, ys)
    ensures IsSubsequence(xs[1..], ys)
    decreases |ys|, |xs|
  {
    if xs[0] == ys[0] {
      SubsequenceSkip(xs[1..], ys);
    } else {
      SubsequenceTail(xs, ys[1..]);
      SubsequenceSkip(xs[1..], ys);
    }
  }

  /** Binding writes only markers, so it creates no new placeholder: any
      `@name` in the bound query was already in the rendered text. */
  lemma {:induction false} BindAllAddsNoPlaceholder<V>(b: BoundQuery<V>, keys: seq<string>, data: map<string, V>, name: string)
    requires forall k :: k in keys ==> k in data
    requires Bindable(name)
    ensures Contains(BindAll(b, keys, data).query, Placeholder(name)) ==> Contains(b.query, Placeholder(name))
    decreases |keys|
  {
    if keys != [] {
      var k := keys[0];
      var b' := BindKey(b, k, data[k]);
      BindAllAddsNoPlaceholder(b', keys[1..], data, name);
      if Contains(b.query, Placeholder(k)) {
        ReplaceAllAddsNoOccurrence(b.query, Placeholder(k), Marker(|b'.args|), Placeholder(name));
      }
    }
  }

  /** Unused keys are skipped: a key contributes only if its placeholder
      occurs in the rendered text. */
  lemma {:induction false} BoundKeysOccur<V>(b: BoundQuery<V>, keys: seq<string>, data: map<string, V>)
    requires forall k :: k in keys ==> k in data && Bindable(k)
    ensures forall k :: k in BoundKeys(b, keys, data) ==> Contains(b.query, Placeholder(k))
    decreases |keys|
  {
    if keys != [] {
      var k0 := keys[0];
      var b' := BindKey(b, k0, data[k0]);
      BoundKeysOccur(b', keys[1..], data);
      forall k | k in BoundKeys(b', keys[1..], data)
        ensures Contains(b.query, Placeholder(k))
      {
        if Contains(b.query, Placeholder(k0)) {
          ReplaceAllAddsNoOccurrence(b.query, Placeholder(k0), Marker(|b'.args|), Placeholder(k));
        }
      }
    }
  }

  /** A contributing key's step: its value becomes argument number n (the
      new argument count), and every occurrence of its placeholder becomes
      the same marker `$n`: the text is split at the placeholder and joined
      with the marker, and no occurrence is left over. */
  lemma BindKeyReplacesEveryOccurrence<V>(b: BoundQuery<V>, key: string, value: V)
    requires Bindable(key) && Contains(b.query, Placeholder(key))
    ensures var n := |b.args| + 1;
      && BindKey(b, key, value).args == b.args + [value]
      && BindKey(b, key, value).query == Join(Split(b.query, Placeholder(key)), Marker(n))
      && !Contains(BindKey(b, key, value).query, Placeholder(key))
  {
    var n := |b.args| + 1;
    ReplaceAllIsJoinOfSplit(b.query, Placeholder(key), Marker(n));
    ReplaceAllRemovesPattern(b.query, Placeholder(key), Marker(n));
  }

  /** Visiting `xs` and then `ys` is visiting `xs + ys`. */
  lemma {:induction false} BindAllAppend<V>(b: BoundQuery<V>, xs: seq<string>, ys: seq<string>, data: map<string, V>)
    requires forall k :: k in xs + ys ==> k in data
    ensures BindAll(b, xs + ys, data) == BindAll(BindAll(b, xs, data), ys, data)
    decreases |xs|
  {
    if xs == [] {
      assert xs + ys == ys;
    } else {
      assert (xs + ys)[0] == xs[0];
      assert (xs + ys)[1..] == xs[1..] + ys;
      BindAllAppend(BindKey(b, xs[0], data[xs[0]]), xs[1..], ys, data);
    }
  }

  /** The markers run without gaps: when the loop reaches the j-th key,
      the arguments are those of the earlier contributing keys, the whole
      result is that step followed by the rest of the loop, and if the key
      contributes, every one of its placeholders becomes the next marker
      `$n`, n being one more than the number of earlier contributing keys. */
  lemma BindAllStep<V>(b: BoundQuery<V>, keys: seq<string>, data: map<string, V>, j: int)
    requires forall k :: k in keys ==> k in data
    requires 0 <= j < |keys|
    ensures forall k :: k in keys[..j] ==> k in data
    ensures var before := BindAll(b, keys[..j], data);
      var n := |b.args| + |BoundKeys(b, keys[..j], data)| + 1;
      var step := BindKey(before, keys[j], data[keys[j]]);
      && |before.args| == n - 1
      && BindAll(b, keys, data) == BindAll(step, keys[j + 1..], data)
      && (Bindable(keys[j]) && Contains(before.query, Placeholder(keys[j])) ==>
            && step.args == before.args + [data[keys[j]]]
            && step.query == Join(Split(before.query, Placeholder(keys[j])), Marker(n))
            && !Contains(step.query, Placeholder(keys[j])))
  {
    var before := BindAll(b, keys[..j], data);
    var n := |b.args| + |BoundKeys(b, keys[..j], data)| + 1;
    assert keys == keys[..j] + keys[j..];
    BindAllAppend(b, keys[..j], keys[j..], data);
    assert keys[j..][0] == keys[j] && keys[j..][1..] == keys[j + 1..];
    BindAllArgs(b, keys[..j], data);
    assert |before.args| == n - 1;
    if Bindable(keys[j]) && Contains(before.query, Placeholder(keys[j])) {
      BindKeyReplacesEveryOccurrence(before, keys[j], data[keys[j]]);
    }
  }

  /** After binding, no placeholder of a visited key is left in the query. */
  lemma {:induction false} BindAllLeavesNoPlaceholder<V>(b: BoundQuery<V>, keys: seq<string>, data: map<string, V>)
    requires forall k :: k in keys ==> k in data && Bindable(k)
    ensures forall k :: k in keys ==> !Contains(BindAll(b, keys, data).query, Placeholder(k))
    decreases |keys|
  {
    if keys != [] {
      var k0 := keys[0];
      var b' := BindKey(b, k0, data[k0]);
      BindAllLeavesNoPlaceholder(b', keys[1..], data);
      if Contains(b.query, Placeholder(k0)) {
        BindKeyReplacesEveryOccurrence(b, k0, data[k0]);
      }
      BindAllAddsNoPlaceholder(b', keys[1..], data, k0);
    }
  }

  // ---------------------------------------------------------------------
  // queryBuilder and its template cache
  // ---------------------------------------------------------------------

  datatype QueryError =
    | ParseError   // "could not parse query template"
    | ExecError    // "could not execute query"

  /** A parsed template. `text/template` itself is not modelled: parsing and
      rendering are supplied as functions. */
  datatype Template = Template(source: string)

  /** The process-wide `queriesCache`, keyed by the raw template text. */
  class QueryCache {
    var entries: map<string, Template>
    /** How many times a template text has been parsed. */
    ghost var parses: nat

    constructor ()
      ensures entries == map[] && parses == 0
    {
      entries := map[];
      parses := 0;
    }

    /** `queryBuilder`: look the template up (parsing and caching it on a
        miss), render it against `data`, then bind placeholders visiting the
        keys of `data` in `order`. */
    method QueryBuilder<V>(text: string, data: map<string, V>, order: seq<string>,
                           parse: string -> Option<Template>,
                           execute: (Template, map<string, V>) -> Option<string>)
      returns (r: Result<BoundQuery<V>, QueryError>)
      requires IsEnumeration(order, data.Keys)
      modifies this
      // a cached text is never parsed again
      ensures text in old(entries) ==> entries == old(entries) && parses == old(parses)
      // a miss parses once; only a successful parse is stored
      ensures text !in old(entries) ==> parses == old(parses) + 1
      ensures text !in old(entries) && parse(text).None? ==> entries == old(entries) && r == Err(ParseError)
      ensures text !in old(entries) && parse(text).Some? ==> entries == old(entries)[text := parse(text).value]
      // with a template in hand, rendering decides the rest
      ensures text in entries ==>
        var rendered := execute(entries[text], data);
        && (rendered.None? ==> r == Err(ExecError))
        && (rendered.Some? ==> r == Ok(BindAll(BoundQuery(rendered.value, []), order, data)))
    {
      var t: Template;
      if text in entries {
        t := entries[text];
      } else {
        parses := parses + 1;
        var parsed := parse(text);
        if parsed.None? {
          return Err(ParseError);
        }
        t := parsed.value;
        entries := entries[text := t];
      }

      var rendered := execute(t, data);
      if rendered.None? {
        return Err(ExecError);
      }

      var query := rendered.value;
      var args: seq<V> := [];
      var i := 0;
      while i < |order|
        invariant 0 <= i <= |order|
        invariant BindAll(BoundQuery(query, args), order[i..], data)
                  == BindAll(BoundQuery(rendered.value, []), order, data)
      {
        var key := order[i];
        assert order[i..][1..] == order[i + 1..];
        if Contains(query, "@" + key) {
          args := args + [data[key]];
          query := ReplaceAll(query, "@" + key, Marker(|args|));
        }
        i := i + 1;
      }
      assert order[i..] == [];
      r := Ok(BoundQuery(query, args));
    }
  }
}
