/**
 * The filter translator of the GraphQL API (src/util/queryHelpers.ts): it turns
 * the sparse filter object that a client passes as query arguments into the
 * find-options of the ORM. Null and undefined arguments are deleted from the
 * caller's object in place, object-typed arguments become relations to load
 * eagerly, and an endpoint that requires arguments rejects a filter without any.
 */
module QueryHelpers {
  import opened Wrappers

  // ---------------------------------------------------------------------------
  // Values and filter objects

  /** A value in a filter object. The translator only looks at its runtime kind. */
  datatype Value =
    | Null                  // an argument explicitly set to null
    | Undefined             // an argument the client left out
    | Scalar(text: string)  // a string, number or boolean to compare for equality
    | Obj(body: string)     // any object-typed value: a nested filter, an array, a date

  /** `v === null || v === undefined`: the client does not filter on this field. */
  predicate IsAbsent(v: Value) {
    v.Null? || v.Undefined?
  }

  /** `typeof v === 'object'`, for a value that is not null. */
  predicate IsObject(v: Value) {
    v.Obj?
  }

  /** A property read on a plain object: a key that is not there reads as undefined. */
  function Lookup(m: map<string, Value>, key: string): Value {
    if key in m then m[key] else Undefined
  }

  /** The position of the first `key` in `s`, or `|s|` when there is none. */
  function IndexOf(s: seq<string>, key: string): nat {
    if s == [] then 0
    else if s[0] == key then 0
    else 1 + IndexOf(s[1..], key)
  }

  /** No element of `s` occurs twice. */
  predicate Distinct(s: seq<string>) {
    s == [] || (s[0] !in s[1..] && Distinct(s[1..]))
  }

  /** Every element of `r` comes in `r` in the order it has in `ks`. */
  predicate OrderedIn(r: seq<string>, ks: seq<string>) {
    forall i, j :: 0 <= i < j < |r| ==> IndexOf(ks, r[i]) < IndexOf(ks, r[j])
  }

  /** A filter object: its own enumerable keys in enumeration order, and their values. */
  datatype Filter = Filter(keys: seq<string>, values: map<string, Value>) {
    /** The keys of an object are distinct and are exactly the keys of its map. */
    ghost predicate WellFormed() {
      Distinct(keys) && forall k :: k in values <==> k in keys
    }

    /** The object after `delete obj[key]`. */
    function Without(key: string): Filter {
      Filter(RemoveKey(keys, key), values - {key})
    }
  }

  /** The error the translator raises, with the code it carries in its extensions. */
  datatype QueryError = QueryError(message: string, code: string)

  const BadRequest := QueryError("At least one argument is required", "Bad Request")

  /** Find-options: the `where` clause and, when set, the relations to load eagerly. */
  datatype FindOptions<W> = FindOptions(where: W, relations: Option<seq<string>>)

  // ---------------------------------------------------------------------------
  // The translation, as functions of the filter it is given

  /** The keys of `ks` whose values are neither null nor undefined, in order. */
  function KeptKeys(ks: seq<string>, m: map<string, Value>): seq<string> {
    if ks == [] then []
    else
      var k := ks[|ks| - 1];
      KeptKeys(ks[..|ks| - 1], m) + if IsAbsent(Lookup(m, k)) then [] else [k]
  }

  /** The keys of `ks` whose values are object-typed, in order. */
  function Relations(ks: seq<string>, m: map<string, Value>): seq<string> {
    if ks == [] then []
    else
      var k := ks[|ks| - 1];
      Relations(ks[..|ks| - 1], m) + if IsObject(Lookup(m, k)) then [k] else []
  }

  /** The number of keys of `ks` whose values are neither null nor undefined. */
  function SeenArgs(ks: seq<string>, m: map<string, Value>): nat {
    if ks == [] then 0
    else SeenArgs(ks[..|ks| - 1], m) + if IsAbsent(Lookup(m, ks[|ks| - 1])) then 0 else 1
  }

  /** The filter with every null or undefined entry deleted. */
  function Prune(f: Filter): Filter {
    Filter(KeptKeys(f.keys, f.values),
           map k | k in f.values && !IsAbsent(f.values[k]) :: f.values[k])
  }

  /** What the translator returns, or raises, for `requireArgs` and the filter `f`. */
  function GenOpts(requireArgs: bool, f: Filter): Result<FindOptions<Filter>, QueryError> {
    if requireArgs && SeenArgs(f.keys, f.values) < 1 then Failure(BadRequest)
    else
      var rel := Relations(f.keys, f.values);
      Success(FindOptions(Prune(f), if |rel| > 0 then Some(rel) else None))
  }

  // ---------------------------------------------------------------------------
  // One more key: how each function steps

  lemma KeptKeysSnoc(s: seq<string>, x: string, m: map<string, Value>)
    ensures KeptKeys(s + [x], m) == KeptKeys(s, m) + if IsAbsent(Lookup(m, x)) then [] else [x]
  {
    assert (s + [x])[..|s|] == s;
  }

  lemma RelationsSnoc(s: seq<string>, x: string, m: map<string, Value>)
    ensures Relations(s + [x], m) == Relations(s, m) + if IsObject(Lookup(m, x)) then [x] else []
  {
    assert (s + [x])[..|s|] == s;
  }

  lemma SeenArgsSnoc(s: seq<string>, x: string, m: map<string, Value>)
    ensures SeenArgs(s + [x], m) == SeenArgs(s, m) + if IsAbsent(Lookup(m, x)) then 0 else 1
  {
    assert (s + [x])[..|s|] == s;
  }

  // ---------------------------------------------------------------------------
  // Which keys survive, and in which order

  lemma {:induction false} KeptKeysMembership(ks: seq<string>, m: map<string, Value>)
    ensures forall k :: k in KeptKeys(ks, m) <==> k in ks && !IsAbsent(Lookup(m, k))
  {
    if ks != [] {
      KeptKeysMembership(ks[..|ks| - 1], m);
      assert ks == ks[..|ks| - 1] + [ks[|ks| - 1]];
    }
  }

  /** The two parts of a sequence without repetitions have none, and share nothing. */
  lemma {:induction false} DistinctParts(a: seq<string>, b: seq<string>)
    requires Distinct(a + b)
    ensures Distinct(a) && Distinct(b) && forall x :: x in a ==> x !in b
  {
    if a == [] {
      assert a + b == b;
    } else {
      assert (a + b)[1..] == a[1..] + b;
      DistinctParts(a[1..], b);
      assert a == [a[0]] + a[1..];
    }
  }

  lemma LastNotInInit(ks: seq<string>)
    requires ks != [] && Distinct(ks)
    ensures Distinct(ks[..|ks| - 1]) && ks[|ks| - 1] !in ks[..|ks| - 1]
  {
    assert ks == ks[..|ks| - 1] + [ks[|ks| - 1]];
    DistinctParts(ks[..|ks| - 1], [ks[|ks| - 1]]);
  }

  lemma DistinctSplit(ks: seq<string>, i: nat)
    requires Distinct(ks) && i < |ks|
    ensures ks[i] !in ks[..i] && ks[i] !in ks[i + 1..]
  {
    assert ks == ks[..i] + ([ks[i]] + ks[i + 1..]);
    DistinctParts(ks[..i], [ks[i]] + ks[i + 1..]);
    assert ([ks[i]] + ks[i + 1..])[1..] == ks[i + 1..];
  }

  lemma {:induction false} DistinctAppend(s: seq<string>, k: string)
    requires Distinct(s) && k !in s
    ensures Distinct(s + [k])
  {
    if s != [] {
      assert (s + [k])[1..] == s[1..] + [k];
      DistinctAppend(s[1..], k);
    }
  }

  lemma {:induction false} KeptKeysDistinct(ks: seq<string>, m: map<string, Value>)
    requires Distinct(ks)
    ensures Distinct(KeptKeys(ks, m))
  {
    if ks != [] {
      var init, k := ks[..|ks| - 1], ks[|ks| - 1];
      LastNotInInit(ks);
      KeptKeysDistinct(init, m);
      KeptKeysMembership(init, m);
      assert ks == init + [k];
      KeptKeysSnoc(init, k, m);
      if !IsAbsent(Lookup(m, k)) {
        DistinctAppend(KeptKeys(init, m), k);
      } else {
        assert KeptKeys(ks, m) == KeptKeys(init, m);
      }
    }
  }

  lemma {:induction false} IndexOfAppend(s: seq<string>, x: string, key: string)
    ensures key in s ==> IndexOf(s + [x], key) == IndexOf(s, key) < |s|
    ensures key !in s && key == x ==> IndexOf(s + [x], key) == |s|
  {
    if s != [] {
      assert (s + [x])[1..] == s[1..] + [x];
      IndexOfAppend(s[1..], x, key);
    }
  }

  /** Appending a key new to `ks` to both sequences keeps `r` in the order of `ks`. */
  lemma OrderedInAppend(r: seq<string>, ks: seq<string>, x: string)
    requires OrderedIn(r, ks) && x !in ks
    requires forall y :: y in r ==> y in ks
    ensures OrderedIn(r, ks + [x]) && OrderedIn(r + [x], ks + [x])
  {
    forall i, j | 0 <= i < j < |r + [x]|
      ensures IndexOf(ks + [x], (r + [x])[i]) < IndexOf(ks + [x], (r + [x])[j])
    {
      IndexOfAppend(ks, x, (r + [x])[i]);
      IndexOfAppend(ks, x, (r + [x])[j]);
    }
    forall i, j | 0 <= i < j < |r|
      ensures IndexOf(ks + [x], r[i]) < IndexOf(ks + [x], r[j])
    {
      assert r[i] == (r + [x])[i] && r[j] == (r + [x])[j];
    }
  }

  lemma {:induction false} KeptKeysInOrder(ks: seq<string>, m: map<string, Value>)
    requires Distinct(ks)
    ensures OrderedIn(KeptKeys(ks, m), ks)
  {
    if ks != [] {
      var init, k := ks[..|ks| - 1], ks[|ks| - 1];
      LastNotInInit(ks);
      KeptKeysInOrder(init, m);
      KeptKeysMembership(init, m);
      OrderedInAppend(KeptKeys(init, m), init, k);
      assert ks == init + [k];
    }
  }

  /**
   * Pruning deletes exactly the null and undefined entries: what is left is an
   * object again, no entry of it is null or undefined, every other entry keeps
   * its value, and the surviving keys keep their enumeration order.
   */
  lemma PruneSpec(f: Filter)
    requires f.WellFormed()
    ensures Prune(f).WellFormed()
    ensures forall k :: k in Prune(f).values <==> k in f.values && !IsAbsent(f.values[k])
    ensures forall k :: k in Prune(f).values ==> Prune(f).values[k] == f.values[k]
    ensures forall k :: k in Prune(f).keys ==> !IsAbsent(Lookup(Prune(f).values, k))
    ensures OrderedIn(Prune(f).keys, f.keys)
  {
    KeptKeysMembership(f.keys, f.values);
    KeptKeysDistinct(f.keys, f.values);
    KeptKeysInOrder(f.keys, f.values);
  }

  // ---------------------------------------------------------------------------
  // Relations

  lemma {:induction false} RelationsMembership(ks: seq<string>, m: map<string, Value>)
    ensures forall k :: k in Relations(ks, m) <==> k in KeptKeys(ks, m) && IsObject(Lookup(m, k))
  {
    KeptKeysMembership(ks, m);
    if ks != [] {
      RelationsMembership(ks[..|ks| - 1], m);
      KeptKeysMembership(ks[..|ks| - 1], m);
      assert ks == ks[..|ks| - 1] + [ks[|ks| - 1]];
    }
  }

  lemma {:induction false} RelationsDistinct(ks: seq<string>, m: map<string, Value>)
    requires Distinct(ks)
    ensures Distinct(Relations(ks, m))
  {
    if ks != [] {
      var init, k := ks[..|ks| - 1], ks[|ks| - 1];
      LastNotInInit(ks);
      RelationsDistinct(init, m);
      RelationsMembership(init, m);
      KeptKeysMembership(init, m);
      assert ks == init + [k];
      RelationsSnoc(init, k, m);
      if IsObject(Lookup(m, k)) {
        DistinctAppend(Relations(init, m), k);
      } else {
        assert Relations(ks, m) == Relations(init, m);
      }
    }
  }

  lemma {:induction false} RelationsInOrder(ks: seq<string>, m: map<string, Value>)
    requires Distinct(ks)
    ensures OrderedIn(Relations(ks, m), ks)
  {
    if ks != [] {
      var init, k := ks[..|ks| - 1], ks[|ks| - 1];
      LastNotInInit(ks);
      RelationsInOrder(init, m);
      RelationsMembership(init, m);
      KeptKeysMembership(init, m);
      OrderedInAppend(Relations(init, m), init, k);
      assert ks == init + [k];
    }
  }

  // ---------------------------------------------------------------------------
  // The argument count and the required-argument error

  lemma {:induction false} SeenArgsCountsKept(ks: seq<string>, m: map<string, Value>)
    ensures SeenArgs(ks, m) == |KeptKeys(ks, m)|
  {
    if ks != [] {
      SeenArgsCountsKept(ks[..|ks| - 1], m);
    }
  }

  lemma {:induction false} SeenArgsZeroIff(ks: seq<string>, m: map<string, Value>)
    ensures SeenArgs(ks, m) == 0 <==> forall k :: k in ks ==> IsAbsent(Lookup(m, k))
  {
    if ks != [] {
      SeenArgsZeroIff(ks[..|ks| - 1], m);
      assert ks == ks[..|ks| - 1] + [ks[|ks| - 1]];
    }
  }

  /**
   * The translator fails exactly when arguments are required and every key is
   * null or undefined, and then with the "Bad Request" error; without
   * `requireArgs` it never fails.
   */
  lemma GenOptsFailsIff(requireArgs: bool, f: Filter)
    ensures GenOpts(requireArgs, f).Failure? <==>
              requireArgs && forall k :: k in f.keys ==> IsAbsent(Lookup(f.values, k))
    ensures GenOpts(requireArgs, f).Failure? ==> GenOpts(requireArgs, f).error == BadRequest
  {
    SeenArgsZeroIff(f.keys, f.values);
  }

  lemma {:induction false} RelationsEmptyIff(ks: seq<string>, m: map<string, Value>)
    ensures Relations(ks, m) == [] <==> forall k :: k in ks ==> !IsObject(Lookup(m, k))
  {
    if ks != [] {
      RelationsEmptyIff(ks[..|ks| - 1], m);
      assert ks == ks[..|ks| - 1] + [ks[|ks| - 1]];
    }
  }

  /** An empty or all-null filter, when no argument is required, becomes an empty `where`. */
  lemma AllAbsentYieldsEmptyWhere(f: Filter)
    requires f.WellFormed()
    requires forall k :: k in f.keys ==> IsAbsent(Lookup(f.values, k))
    ensures GenOpts(false, f) == Success(FindOptions(Filter([], map[]), None))
  {
    SeenArgsZeroIff(f.keys, f.values);
    SeenArgsCountsKept(f.keys, f.values);
    RelationsEmptyIff(f.keys, f.values);
    assert Prune(f).values == map[];
  }

  /** The `relations` field is set exactly when some key holds an object, and never to []. */
  lemma RelationsFieldIff(requireArgs: bool, f: Filter)
    requires GenOpts(requireArgs, f).Success?
    ensures GenOpts(requireArgs, f).value.relations.Some? <==>
              exists k :: k in f.keys && IsObject(Lookup(f.values, k))
    ensures GenOpts(requireArgs, f).value.relations.Some? ==>
              GenOpts(requireArgs, f).value.relations.value != []
  {
    RelationsEmptyIff(f.keys, f.values);
  }

  // ---------------------------------------------------------------------------
  // Idempotence

  lemma {:induction false} KeptKeysAllPresent(s: seq<string>, m: map<string, Value>)
    requires forall k :: k in s ==> !IsAbsent(Lookup(m, k))
    ensures KeptKeys(s, m) == s
  {
    if s != [] {
      var init, k := s[..|s| - 1], s[|s| - 1];
      assert s == init + [k];
      KeptKeysAllPresent(init, m);
      KeptKeysSnoc(init, k, m);
    }
  }

  /**
   * Relations computed over the kept keys, in a map `m'` that agrees with `m` on
   * them, are the relations of `ks` in `m`.
   */
  lemma {:induction false} RelationsOfKept(ks: seq<string>, m: map<string, Value>, m': map<string, Value>)
    requires forall k :: !IsAbsent(Lookup(m, k)) ==> Lookup(m', k) == Lookup(m, k)
    ensures Relations(KeptKeys(ks, m), m') == Relations(ks, m)
  {
    if ks != [] {
      var init, k := ks[..|ks| - 1], ks[|ks| - 1];
      assert ks == init + [k];
      RelationsOfKept(init, m, m');
      KeptKeysSnoc(init, k, m);
      RelationsSnoc(init, k, m);
      if !IsAbsent(Lookup(m, k)) {
        RelationsSnoc(KeptKeys(init, m), k, m');
      } else {
        assert KeptKeys(ks, m) == KeptKeys(init, m);
        assert Relations(ks, m) == Relations(init, m);
      }
    }
  }

  /** Pruning a pruned filter changes nothing. */
  lemma PruneIdempotent(f: Filter)
    ensures Prune(Prune(f)) == Prune(f)
  {
    var p := Prune(f);
    assert Prune(p).keys == p.keys by {
      KeptKeysMembership(f.keys, f.values);
      assert forall k :: k in p.keys ==> !IsAbsent(Lookup(p.values, k));
      KeptKeysAllPresent(p.keys, p.values);
    }
    assert Prune(p).values == p.values;
  }

  /**
   * Running the translator again on a filter it already pruned deletes nothing
   * and gives the same `where`, the same relations and the same outcome.
   */
  lemma GenOptsIdempotent(requireArgs: bool, f: Filter)
    ensures Prune(Prune(f)) == Prune(f)
    ensures GenOpts(requireArgs, Prune(f)) == GenOpts(requireArgs, f)
  {
    var p := Prune(f);
    PruneIdempotent(f);
    assert Relations(p.keys, p.values) == Relations(f.keys, f.values) by {
      assert forall k :: !IsAbsent(Lookup(f.values, k)) ==> Lookup(p.values, k) == Lookup(f.values, k);
      RelationsOfKept(f.keys, f.values, p.values);
    }
    assert SeenArgs(p.keys, p.values) == SeenArgs(f.keys, f.values) by {
      SeenArgsCountsKept(f.keys, f.values);
      SeenArgsCountsKept(p.keys, p.values);
    }
  }

  // ---------------------------------------------------------------------------
  // Deleting a key from an object

  /** `s` without the occurrences of `key`, the rest in order. */
  function RemoveKey(s: seq<string>, key: string): seq<string> {
    if s == [] then []
    else (if s[0] == key then [] else [s[0]]) + RemoveKey(s[1..], key)
  }

  lemma {:induction false} RemoveKeyMembership(s: seq<string>, key: string)
    ensures forall k :: k in RemoveKey(s, key) <==> k in s && k != key
  {
    if s != [] {
      RemoveKeyMembership(s[1..], key);
      assert s == [s[0]] + s[1..];
    }
  }

  lemma {:induction false} RemoveKeyDistinct(s: seq<string>, key: string)
    requires Distinct(s)
    ensures Distinct(RemoveKey(s, key))
  {
    if s != [] {
      RemoveKeyDistinct(s[1..], key);
      RemoveKeyMembership(s[1..], key);
      if s[0] != key {
        assert ([s[0]] + RemoveKey(s[1..], key))[1..] == RemoveKey(s[1..], key);
      } else {
        assert RemoveKey(s, key) == RemoveKey(s[1..], key);
      }
    }
  }

  lemma {:induction false} RemoveKeyAbsent(s: seq<string>, key: string)
    requires key !in s
    ensures RemoveKey(s, key) == s
  {
    if s != [] {
      RemoveKeyAbsent(s[1..], key);
      assert s == [s[0]] + s[1..];
    }
  }

  lemma {:induction false} RemoveKeySplit(a: seq<string>, key: string, b: seq<string>)
    requires key !in a && key !in b
    ensures RemoveKey(a + [key] + b, key) == a + b
  {
    if a == [] {
      assert a + [key] + b == [key] + b;
      RemoveKeyAbsent(b, key);
    } else {
      assert (a + [key] + b)[1..] == a[1..] + [key] + b;
      RemoveKeySplit(a[1..], key, b);
      assert a + b == [a[0]] + (a[1..] + b);
    }
  }


  /** Removing a key from distinct keys keeps the others in their order. */
  lemma {:induction false} RemoveKeyInOrder(s: seq<string>, key: string)
    requires Distinct(s)
    ensures OrderedIn(RemoveKey(s, key), s)
  {
    if s != [] {
      var t := s[1..];
      var rt := RemoveKey(t, key);
      var r := RemoveKey(s, key);
      RemoveKeyInOrder(t, key);
      RemoveKeyMembership(t, key);
      assert r == (if s[0] == key then [] else [s[0]]) + rt;
      forall i, j | 0 <= i < j < |r|
        ensures IndexOf(s, r[i]) < IndexOf(s, r[j])
      {
        if s[0] == key {
          assert r[i] == rt[i] && r[j] == rt[j];
          assert rt[i] in t && rt[j] in t;
        } else if i == 0 {
          assert r[j] == rt[j - 1] && rt[j - 1] in t;
        } else {
          assert r[i] == rt[i - 1] && r[j] == rt[j - 1];
          assert rt[i - 1] in t && rt[j - 1] in t;
        }
      }
    }
  }

  /**
   * `delete obj[key]` leaves an object: the entry for `key` is gone, every
   * other entry keeps its value, and no other key is lost.
   */
  lemma WithoutSpec(f: Filter, key: string)
    requires f.WellFormed()
    ensures f.Without(key).WellFormed()
    ensures key !in f.Without(key).values && key !in f.Without(key).keys
    ensures forall k :: k != key ==> (k in f.Without(key).keys <==> k in f.keys)
    ensures forall k :: k in f.Without(key).values ==> f.Without(key).values[k] == f.values[k]
    ensures OrderedIn(f.Without(key).keys, f.keys)
  {
    RemoveKeyMembership(f.keys, key);
    RemoveKeyDistinct(f.keys, key);
    RemoveKeyInOrder(f.keys, key);
  }

  // ---------------------------------------------------------------------------
  // The loop, one key at a time

  /**
   * The `where` object once the loop has visited its first `i` keys: the null
   * and undefined entries among them are gone, the rest is as it was.
   */
  ghost function Visited(f: Filter, i: nat): Filter
    requires i <= |f.keys|
  {
    Filter(VisitedKeys(f, i), VisitedValues(f, i))
  }

  ghost function VisitedKeys(f: Filter, i: nat): seq<string>
    requires i <= |f.keys|
  {
    KeptKeys(f.keys[..i], f.values) + f.keys[i..]
  }

  ghost function VisitedValues(f: Filter, i: nat): map<string, Value>
    requires i <= |f.keys|
  {
    f.values - AbsentKeys(f.keys[..i], f.values)
  }

  /** The keys of `ks` whose values are null or undefined. */
  ghost function AbsentKeys(ks: seq<string>, m: map<string, Value>): set<string> {
    if ks == [] then {}
    else
      var k := ks[|ks| - 1];
      AbsentKeys(ks[..|ks| - 1], m) + if IsAbsent(Lookup(m, k)) then {k} else {}
  }

  lemma {:induction false} AbsentKeysMembership(ks: seq<string>, m: map<string, Value>)
    ensures forall k :: k in AbsentKeys(ks, m) <==> k in ks && IsAbsent(Lookup(m, k))
  {
    if ks != [] {
      AbsentKeysMembership(ks[..|ks| - 1], m);
      assert ks == ks[..|ks| - 1] + [ks[|ks| - 1]];
    }
  }

  lemma VisitedStart(f: Filter)
    requires f.WellFormed()
    ensures Visited(f, 0) == f
  {
    assert Visited(f, 0).keys == f.keys by {
      assert f.keys[..0] == [] && f.keys[0..] == f.keys;
    }
    assert Visited(f, 0).values == f.values by {
      assert f.keys[..0] == [];
    }
  }

  lemma VisitedEnd(f: Filter)
    requires f.WellFormed()
    ensures Visited(f, |f.keys|) == Prune(f)
  {
    var n := |f.keys|;
    assert f.keys[..n] == f.keys && f.keys[n..] == [];
    AbsentKeysMembership(f.keys, f.values);
    assert Visited(f, n).values == Prune(f).values;
  }

  /** The key the loop visits is still there, with its original value. */
  lemma VisitedRead(f: Filter, i: nat)
    requires f.WellFormed() && i < |f.keys|
    ensures Lookup(Visited(f, i).values, f.keys[i]) == f.values[f.keys[i]]
    ensures Lookup(f.values, f.keys[i]) == f.values[f.keys[i]]
  {
    assert f.keys[i] in f.keys;
    DistinctSplit(f.keys, i);
    AbsentKeysMembership(f.keys[..i], f.values);
  }

  lemma VisitedStepKeys(f: Filter, i: nat)
    requires f.WellFormed() && i < |f.keys|
    ensures IsAbsent(f.values[f.keys[i]]) ==>
              RemoveKey(VisitedKeys(f, i), f.keys[i]) == VisitedKeys(f, i + 1)
    ensures !IsAbsent(f.values[f.keys[i]]) ==> VisitedKeys(f, i) == VisitedKeys(f, i + 1)
  {
    var ks, m, k := f.keys, f.values, f.keys[i];
    var kept := KeptKeys(ks[..i], m);
    assert Lookup(m, k) == m[k];
    assert VisitedKeys(f, i) == kept + [k] + ks[i + 1..] by {
      assert ks[i..] == [k] + ks[i + 1..];
    }
    assert KeptKeys(ks[..i + 1], m) == kept + if IsAbsent(m[k]) then [] else [k] by {
      assert ks[..i + 1] == ks[..i] + [k];
      KeptKeysSnoc(ks[..i], k, m);
    }
    if IsAbsent(m[k]) {
      assert k !in kept && k !in ks[i + 1..] by {
        DistinctSplit(ks, i);
        KeptKeysMembership(ks[..i], m);
      }
      RemoveKeySplit(kept, k, ks[i + 1..]);
    }
  }

  lemma VisitedStepValues(f: Filter, i: nat)
    requires f.WellFormed() && i < |f.keys|
    ensures IsAbsent(f.values[f.keys[i]]) ==>
              VisitedValues(f, i) - {f.keys[i]} == VisitedValues(f, i + 1)
    ensures !IsAbsent(f.values[f.keys[i]]) ==> VisitedValues(f, i) == VisitedValues(f, i + 1)
  {
    var ks, m, k := f.keys, f.values, f.keys[i];
    assert k in ks;
    assert ks[..i + 1] == ks[..i] + [k];
    assert ks[..i + 1][..i] == ks[..i];
  }

  /**
   * Visiting key `i` deletes it when its value is null or undefined, and
   * otherwise leaves the object as it is.
   */
  lemma VisitedStep(f: Filter, i: nat)
    requires f.WellFormed() && i < |f.keys|
    ensures IsAbsent(f.values[f.keys[i]]) ==> Visited(f, i).Without(f.keys[i]) == Visited(f, i + 1)
    ensures !IsAbsent(f.values[f.keys[i]]) ==> Visited(f, i) == Visited(f, i + 1)
  {
    VisitedStepKeys(f, i);
    VisitedStepValues(f, i);
  }

  lemma PrefixStep(ks: seq<string>, i: nat, m: map<string, Value>)
    requires i < |ks|
    ensures Relations(ks[..i + 1], m) ==
              Relations(ks[..i], m) + if IsObject(Lookup(m, ks[i])) then [ks[i]] else []
    ensures SeenArgs(ks[..i + 1], m) ==
              SeenArgs(ks[..i], m) + if IsAbsent(Lookup(m, ks[i])) then 0 else 1
  {
    assert ks[..i + 1] == ks[..i] + [ks[i]];
    RelationsSnoc(ks[..i], ks[i], m);
    SeenArgsSnoc(ks[..i], ks[i], m);
  }

  /** The key being visited is not yet among the relations: keys are distinct. */
  lemma NotYetARelation(ks: seq<string>, i: nat, m: map<string, Value>)
    requires Distinct(ks) && i < |ks|
    ensures ks[i] !in Relations(ks[..i], m)
  {
    DistinctSplit(ks, i);
    RelationsMembership(ks[..i], m);
    KeptKeysMembership(ks[..i], m);
  }

  /**
   * One turn of the loop: what visiting key `i` reads, and how the object, the
   * relations and the count of seen arguments change with it.
   */
  lemma LoopStep(f: Filter, i: nat, relations: seq<string>, seenArgs: nat)
    requires f.WellFormed() && i < |f.keys|
    requires relations == Relations(f.keys[..i], f.values)
    requires seenArgs == SeenArgs(f.keys[..i], f.values)
    ensures Lookup(Visited(f, i).values, f.keys[i]) == f.values[f.keys[i]]
    ensures IsAbsent(f.values[f.keys[i]]) ==>
              Visited(f, i).Without(f.keys[i]) == Visited(f, i + 1) &&
              Relations(f.keys[..i + 1], f.values) == relations &&
              SeenArgs(f.keys[..i + 1], f.values) == seenArgs
    ensures !IsAbsent(f.values[f.keys[i]]) ==>
              Visited(f, i) == Visited(f, i + 1) &&
              SeenArgs(f.keys[..i + 1], f.values) == seenArgs + 1
    ensures IsObject(f.values[f.keys[i]]) ==>
              f.keys[i] !in relations &&
              Relations(f.keys[..i + 1], f.values) == relations + [f.keys[i]]
    ensures !IsAbsent(f.values[f.keys[i]]) && !IsObject(f.values[f.keys[i]]) ==>
              Relations(f.keys[..i + 1], f.values) == relations
  {
    VisitedRead(f, i);
    VisitedStep(f, i);
    PrefixStep(f.keys, i, f.values);
    NotYetARelation(f.keys, i, f.values);
  }

  // ---------------------------------------------------------------------------
  // The caller's filter object and the translator

  /** The `where` object the caller passes in, which the translator changes in place. */
  class WhereMap {
    var keys: seq<string>
    var values: map<string, Value>

    ghost predicate Valid()
      reads this
    {
      View().WellFormed()
    }

    /** The object's current keys and values, as a value. */
    function View(): Filter
      reads this
    {
      Filter(keys, values)
    }

    constructor (f: Filter)
      requires f.WellFormed()
      ensures Valid() && View() == f
    {
      keys, values := f.keys, f.values;
    }

    /** `where[key]`. */
    function Get(key: string): Value
      reads this
    {
      Lookup(values, key)
    }

    /** `delete where[key]`. */
    method Delete(key: string)
      requires Valid()
      modifies this
      ensures Valid()
      ensures View() == old(View()).Without(key)
    {
      WithoutSpec(View(), key);
      keys, values := RemoveKey(keys, key), values - {key};
    }
  }

  /**
   * `genOptsFromQuery(requireArgs, where)`: deletes the null and undefined
   * entries of `where` in place, collects the object-typed keys as relations and
   * counts every surviving key, object-typed or not, as a seen argument; then raises the "Bad Request" error if
   * an argument is required and none was seen, and otherwise returns options
   * whose `where` is the caller's own, now pruned, object.
   */
  method GenOptsFromQuery(requireArgs: bool, where: WhereMap)
    returns (r: Result<FindOptions<WhereMap>, QueryError>)
    requires where.Valid()
    modifies where
    ensures where.Valid()
    ensures where.View() == Prune(old(where.View()))
    ensures r.Failure? <==> GenOpts(requireArgs, old(where.View())).Failure?
    ensures r.Failure? ==> r.error == BadRequest
    ensures r.Success? ==>
              r.value.where == where &&
              r.value.relations == GenOpts(requireArgs, old(where.View())).value.relations
  {
    ghost var f := where.View();
    // for...in visits the keys present when the loop starts; the loop only
    // ever deletes the key it is visiting, so no later key is skipped.
    var ks := where.keys;
    var relations: seq<string> := [];
    var seenArgs := 0;
    var i := 0;
    VisitedStart(f);
    while i < |ks|
      invariant i <= |ks|
      invariant where.Valid()
      invariant where.View() == Visited(f, i)
      invariant relations == Relations(ks[..i], f.values)
      invariant seenArgs == SeenArgs(ks[..i], f.values)
    {
      var key := ks[i];
      var v := where.Get(key);
      LoopStep(f, i, relations, seenArgs);
      if IsAbsent(v) {
        where.Delete(key);
      } else {
        if IsObject(v) {
          if key !in relations {
            relations := relations + [key];
          }
        }
        seenArgs := seenArgs + 1;
      }
      i := i + 1;
    }
    assert where.View() == Prune(f) by {
      assert ks[..i] == ks;
      VisitedEnd(f);
    }
    assert relations == Relations(f.keys, f.values) && seenArgs == SeenArgs(f.keys, f.values) by {
      assert ks[..i] == ks;
    }

    if requireArgs && seenArgs < 1 {
      return Failure(BadRequest);
    }
    var result := FindOptions(where, None);
    if |relations| > 0 {
      result := result.(relations := Some(relations));
    }
    return Success(result);
  }
}
