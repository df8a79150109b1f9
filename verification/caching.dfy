/**
 * `Cash`: memoisation of the dictionary lookup, keyed by the raw word. Once
 * a key holds an answer, including a recorded "not found", the lookup is
 * never made again for it and the stored answer is returned.
 */
module Caching {
  import opened Lists

  /** The cache's content (its file name and persistence are not modelled). */
  datatype Cash<V> = Cash(content: map<string, V>)

  /** The result of `get`: the answer, the cache afterwards and whether `func` was called. */
  datatype Lookup<V> = Lookup(value: V, cash: Cash<V>, called: bool)

  /**
   * `Cash.get(key, func)`: the stored answer when `key` is present,
   * otherwise `func(key)`, which is then stored. Afterwards `key` is present
   * and holds the answer, and every other entry is as it was.
   */
  function Get<V>(c: Cash<V>, key: string, func: string -> V): (r: Lookup<V>)
    ensures key in r.cash.content && r.cash.content[key] == r.value
    ensures r.called <==> key !in c.content
    ensures key in c.content ==> r.value == c.content[key] && r.cash == c
    ensures key !in c.content ==> r.value == func(key)
    ensures r.cash.content.Keys == c.content.Keys + {key}
    ensures forall k :: k in c.content ==> k in r.cash.content && r.cash.content[k] == c.content[k]
  {
    if key in c.content then Lookup(c.content[key], c, false)
    else
      var value := func(key);
      Lookup(value, Cash(c.content[key := value]), true)
  }

  /**
   * A second `get` of the same key returns the answer of the first without
   * calling its function, whatever that function would now answer, and leaves
   * the cache as it was. This holds for a stored "not found" as for any
   * other answer.
   */
  lemma GetTwice<V>(c: Cash<V>, key: string, func: string -> V, func': string -> V)
    ensures var first := Get(c, key, func);
            var second := Get(first.cash, key, func');
            !second.called && second.value == first.value && second.cash == first.cash
  {
  }

  /** The answers, the cache afterwards and the keys `func` was called for, in order. */
  datatype Lookups<V> = Lookups(values: seq<V>, cash: Cash<V>, calls: seq<string>)

  /**
   * The cache after looking up every key of `keys`: the entries present at
   * the start, and `func(k)` for every key `k` of `keys` that was missing.
   */
  function Filled<V>(c: Cash<V>, keys: seq<string>, func: string -> V): map<string, V> {
    map k | k in c.content.Keys + DistinctKeys(keys) :: if k in c.content then c.content[k] else func(k)
  }

  /** Looking up the first key and then the rest fills the cache as looking up all of them does. */
  lemma FilledStep<V>(c: Cash<V>, keys: seq<string>, func: string -> V)
    requires |keys| > 0
    ensures Filled(Get(c, keys[0], func).cash, keys[1..], func) == Filled(c, keys, func)
  {
    assert DistinctKeys(keys) == {keys[0]} + DistinctKeys(keys[1..]) by {
      assert keys == [keys[0]] + keys[1..];
    }
  }

  /** Filling keeps the entries present at the start. */
  lemma FilledKeeps<V>(c: Cash<V>, keys: seq<string>, func: string -> V, k: string)
    requires k in c.content
    ensures k in Filled(c, keys, func) && Filled(c, keys, func)[k] == c.content[k]
  {
  }

  /** Each key holds its answer in `m`, given that this holds for the first key and for the rest. */
  lemma AnswersStep<V>(keys: seq<string>, values: seq<V>, m: map<string, V>)
    requires |keys| == |values| > 0
    requires keys[0] in m && m[keys[0]] == values[0]
    requires forall i :: 0 <= i < |keys| - 1 ==> keys[1..][i] in m && m[keys[1..][i]] == values[1..][i]
    ensures forall i :: 0 <= i < |keys| ==> keys[i] in m && m[keys[i]] == values[i]
  {
    forall i | 1 <= i < |keys|
      ensures keys[i] in m && m[keys[i]] == values[i]
    {
      assert keys[i] == keys[1..][i - 1] && values[i] == values[1..][i - 1];
    }
  }

  /**
   * A sequence of `get`s with the same function. Each answer is the one the
   * cache holds afterwards under its key; the cache afterwards holds exactly
   * the entries present at the start and `func(k)` for every missing key
   * `k`; `func` is called once for each key missing at the start and for no
   * other.
   */
  function GetAll<V>(c: Cash<V>, keys: seq<string>, func: string -> V): (r: Lookups<V>)
    ensures |r.values| == |keys|
    ensures r.cash.content == Filled(c, keys, func)
    ensures forall i :: 0 <= i < |keys| ==> keys[i] in r.cash.content && r.cash.content[keys[i]] == r.values[i]
    ensures NoDuplicates(r.calls)
    ensures forall k :: k in r.calls <==> k in keys && k !in c.content
    decreases |keys|
  {
    if |keys| == 0 then
      assert Filled(c, keys, func) == c.content;
      Lookups([], c, [])
    else
      var first := Get(c, keys[0], func);
      var rest := GetAll(first.cash, keys[1..], func);
      FilledStep(c, keys, func);
      assert forall k :: k in keys <==> k == keys[0] || k in keys[1..] by {
        assert keys == [keys[0]] + keys[1..];
      }
      var calls := (if first.called then [keys[0]] else []) + rest.calls;
      var values := [first.value] + rest.values;
      FilledKeeps(first.cash, keys[1..], func, keys[0]);
      AnswersStep(keys, values, rest.cash.content);
      assert NoDuplicates(calls) by {
        if first.called {
          assert keys[0] !in rest.calls;
          ConsNoDuplicates(keys[0], rest.calls);
        }
      }
      Lookups(values, rest.cash, calls)
  }

  /**
   * What each answer is: the stored answer for a key present at the start,
   * and `func` of the key for a key missing at the start; entries present at
   * the start are kept, and the cache gains exactly the keys looked up.
   */
  lemma GetAllAnswers<V>(c: Cash<V>, keys: seq<string>, func: string -> V)
    ensures var r := GetAll(c, keys, func);
            && (forall i :: 0 <= i < |keys| && keys[i] in c.content ==> r.values[i] == c.content[keys[i]])
            && (forall i :: 0 <= i < |keys| && keys[i] !in c.content ==> r.values[i] == func(keys[i]))
            && (forall k :: k in c.content ==> k in r.cash.content && r.cash.content[k] == c.content[k])
            && r.cash.content.Keys == c.content.Keys + DistinctKeys(keys)
  {
  }

  /** The number of distinct keys in `keys`. */
  function DistinctKeys(keys: seq<string>): set<string> {
    set k | k in keys
  }

  /** A duplicate-free sequence has as many elements as its set. */
  lemma {:induction false} NoDuplicatesCard(xs: seq<string>)
    requires NoDuplicates(xs)
    ensures |DistinctKeys(xs)| == |xs|
    decreases |xs|
  {
    if |xs| > 0 {
      var rest := xs[1..];
      assert NoDuplicates(rest);
      NoDuplicatesCard(rest);
      assert DistinctKeys(xs) == DistinctKeys(rest) + {xs[0]} by {
        assert xs == [xs[0]] + rest;
      }
      assert xs[0] !in DistinctKeys(rest);
    }
  }

  /** The keys `func` is called for are exactly the distinct keys missing at the start. */
  lemma CalledAreMissing<V>(c: Cash<V>, keys: seq<string>, func: string -> V)
    ensures DistinctKeys(GetAll(c, keys, func).calls) == DistinctKeys(keys) - c.content.Keys
  {
    var r := GetAll(c, keys, func);
    forall k ensures k in DistinctKeys(r.calls) <==> k in DistinctKeys(keys) - c.content.Keys {
      assert k in r.calls <==> k in keys && k !in c.content;
    }
  }

  /**
   * The function is called exactly once per distinct key that was missing at
   * the start, so at most once per distinct key.
   */
  lemma OneCallPerMissingKey<V>(c: Cash<V>, keys: seq<string>, func: string -> V)
    ensures |GetAll(c, keys, func).calls| == |DistinctKeys(keys) - c.content.Keys|
    ensures |GetAll(c, keys, func).calls| <= |DistinctKeys(keys)|
  {
    var r := GetAll(c, keys, func);
    CalledAreMissing(c, keys, func);
    NoDuplicatesCard(r.calls);
    var all := DistinctKeys(keys);
    var missing := all - c.content.Keys;
    assert missing <= all;
    assert all == missing + (all - missing);
  }
}
