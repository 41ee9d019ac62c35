/** Generic sequence folds that the scans of the NUMA tree are built from:
    filtering a listing, collecting per-entry results with an abort on the first error,
    grouping values by key, and building a map in which a later entry overwrites an earlier one. */
module Folds {
  import opened Wrappers

  /** The values `f` produces for the elements it keeps, in the order of `xs`. */
  function FilterMap<A, B>(xs: seq<A>, f: A -> Option<B>): (r: seq<B>)
    ensures |r| <= |xs|
  {
    if xs == [] then []
    else
      var init := FilterMap(xs[..|xs| - 1], f);
      match f(xs[|xs| - 1])
      case None => init
      case Some(y) => init + [y]
  }

  /** Filtering a concatenation filters each part: kept elements of an earlier part come first. */
  lemma {:induction false} FilterMapAppend<A, B>(xs: seq<A>, ys: seq<A>, f: A -> Option<B>)
    ensures FilterMap(xs + ys, f) == FilterMap(xs, f) + FilterMap(ys, f)
  {
    if ys == [] {
      assert xs + ys == xs;
    } else {
      var ys' := ys[..|ys| - 1];
      assert (xs + ys)[..|xs + ys| - 1] == xs + ys';
      assert (xs + ys)[|xs + ys| - 1] == ys[|ys| - 1];
      FilterMapAppend(xs, ys', f);
    }
  }

  /** A value is in the result exactly when `f` produces it for some element. */
  lemma {:induction false} FilterMapMember<A, B>(xs: seq<A>, f: A -> Option<B>, y: B)
    ensures y in FilterMap(xs, f) <==> exists i | 0 <= i < |xs| :: f(xs[i]) == Some(y)
  {
    if xs != [] {
      var init := xs[..|xs| - 1];
      FilterMapMember(init, f, y);
      if y in FilterMap(xs, f) && y !in FilterMap(init, f) {
        assert f(xs[|xs| - 1]) == Some(y);
      }
      if exists i | 0 <= i < |xs| :: f(xs[i]) == Some(y) {
        var i :| 0 <= i < |xs| && f(xs[i]) == Some(y);
        if i < |xs| - 1 {
          assert init[i] == xs[i];
        }
      }
    }
  }

  /** `g` applied to what `f` produces; `None` when either drops the element. */
  function Then<A, B, C>(f: A -> Option<B>, g: B -> Option<C>): A -> Option<C>
  {
    x => match f(x) case None => None case Some(y) => g(y)
  }

  /** One more element extends the filtering of a prefix by what `f` keeps of it. */
  lemma FilterMapExtend<A, B>(xs: seq<A>, f: A -> Option<B>, i: nat)
    requires i < |xs|
    ensures f(xs[i]).None? ==> FilterMap(xs[..i + 1], f) == FilterMap(xs[..i], f)
    ensures f(xs[i]).Some? ==> FilterMap(xs[..i + 1], f) == FilterMap(xs[..i], f) + [f(xs[i]).value]
  {
    assert xs[..i + 1][..i] == xs[..i];
  }

  /** Two successive filters are one filter by the composed step. */
  lemma {:induction false} FilterMapThen<A, B, C>(xs: seq<A>, f: A -> Option<B>, g: B -> Option<C>)
    ensures FilterMap(FilterMap(xs, f), g) == FilterMap(xs, Then(f, g))
  {
    if xs != [] {
      var init := xs[..|xs| - 1];
      FilterMapThen(init, f, g);
      match f(xs[|xs| - 1])
      case None =>
      case Some(y) =>
        var ys := FilterMap(init, f);
        assert (ys + [y])[..|ys + [y]| - 1] == ys;
    }
  }

  /** Steps that agree on every element give the same result. */
  lemma {:induction false} FilterMapPointwise<A, B>(xs: seq<A>, f: A -> Option<B>, g: A -> Option<B>)
    requires forall i | 0 <= i < |xs| :: f(xs[i]) == g(xs[i])
    ensures FilterMap(xs, f) == FilterMap(xs, g)
  {
    if xs != [] {
      FilterMapPointwise(xs[..|xs| - 1], f, g);
    }
  }

  /** Runs `step` over `xs` in order, dropping the elements it skips (`Success(None)`);
      the first `Failure` aborts the whole scan and nothing collected so far is returned. */
  function Collect<A, B, E>(xs: seq<A>, step: A -> Result<Option<B>, E>): (r: Result<seq<B>, E>)
    ensures r.Success? ==> |r.value| <= |xs|
  {
    if xs == [] then Success([])
    else match Collect(xs[..|xs| - 1], step)
      case Failure(e) => Failure(e)
      case Success(init) =>
        match step(xs[|xs| - 1])
        case Failure(e) => Failure(e)
        case Success(None) => Success(init)
        case Success(Some(y)) => Success(init + [y])
  }

  /** The outcome of a step that did not fail, `None` for a failed one. */
  function Passed<A, B, E>(step: A -> Result<Option<B>, E>): A -> Option<B>
  {
    x => match step(x) case Success(o) => o case Failure(_) => None
  }

  /** The scan fails exactly when some step fails. */
  lemma {:induction false} CollectFailsIff<A, B, E>(xs: seq<A>, step: A -> Result<Option<B>, E>)
    ensures Collect(xs, step).Failure? <==> exists i | 0 <= i < |xs| :: step(xs[i]).Failure?
  {
    if xs != [] {
      var init := xs[..|xs| - 1];
      CollectFailsIff(init, step);
      if exists i | 0 <= i < |xs| :: step(xs[i]).Failure? {
        var i :| 0 <= i < |xs| && step(xs[i]).Failure?;
        if i < |xs| - 1 {
          assert init[i] == xs[i];
        }
      }
    }
  }

  /** One more step that does not fail extends the scan of a prefix by what it keeps. */
  lemma CollectExtend<A, B, E>(xs: seq<A>, step: A -> Result<Option<B>, E>, i: nat, acc: seq<B>)
    requires i < |xs| && Collect(xs[..i], step) == Success(acc) && step(xs[i]).Success?
    ensures step(xs[i]).value.None? ==> Collect(xs[..i + 1], step) == Success(acc)
    ensures step(xs[i]).value.Some? ==> Collect(xs[..i + 1], step) == Success(acc + [step(xs[i]).value.value])
  {
    assert xs[..i + 1][..i] == xs[..i];
  }

  /** When the scan of a prefix succeeded and the next step fails, the whole scan fails
      with that step's error: the first error is the one reported. */
  lemma {:induction false} CollectStopsAt<A, B, E>(xs: seq<A>, step: A -> Result<Option<B>, E>, i: nat)
    requires i < |xs|
    requires Collect(xs[..i], step).Success?
    requires step(xs[i]).Failure?
    ensures Collect(xs, step) == Failure(step(xs[i]).error)
    decreases |xs|
  {
    if i < |xs| - 1 {
      var init := xs[..|xs| - 1];
      assert init[..i] == xs[..i];
      CollectStopsAt(init, step, i);
    } else {
      assert xs[..|xs| - 1] == xs[..i];
    }
  }

  /** A successful scan returns what the steps produced, in the order of `xs`. */
  lemma {:induction false} CollectSucceeds<A, B, E>(xs: seq<A>, step: A -> Result<Option<B>, E>)
    requires Collect(xs, step).Success?
    ensures Collect(xs, step).value == FilterMap(xs, Passed(step))
  {
    if xs != [] {
      CollectSucceeds(xs[..|xs| - 1], step);
    }
  }

  /** What a Go map of slices yields for a key: the slice, or the nil (empty) slice when absent. */
  function Lookup<K(==), V>(m: map<K, seq<V>>, k: K): seq<V>
  {
    if k in m then m[k] else []
  }

  /** Appends each value to the slice of its key, in order (`m[k] = append(m[k], v)`). */
  function Group<K(==), V>(ps: seq<(K, V)>): map<K, seq<V>>
  {
    if ps == [] then map[]
    else
      var g := Group(ps[..|ps| - 1]);
      var p := ps[|ps| - 1];
      g[p.0 := Lookup(g, p.0) + [p.1]]
  }

  /** One more pair appends its value to its key's slice. */
  lemma GroupAppend<K, V>(ps: seq<(K, V)>, p: (K, V))
    ensures Group(ps + [p]) == Group(ps)[p.0 := Lookup(Group(ps), p.0) + [p.1]]
  {
    assert (ps + [p])[..|ps|] == ps;
  }

  /** Keeps the values of the pairs whose key is `k`. */
  function KeyIs<K(==), V>(k: K): ((K, V)) -> Option<V>
  {
    (p: (K, V)) => if p.0 == k then Some(p.1) else None
  }

  /** The values paired with `k`, in order. */
  function Bucket<K(==), V>(ps: seq<(K, V)>, k: K): seq<V>
  {
    FilterMap(ps, KeyIs(k))
  }

  /** A key is present in the grouping exactly when some pair carries it. */
  lemma {:induction false} GroupKeys<K, V>(ps: seq<(K, V)>, k: K)
    ensures k in Group(ps) <==> exists i | 0 <= i < |ps| :: ps[i].0 == k
  {
    if ps != [] {
      var init := ps[..|ps| - 1];
      GroupKeys(init, k);
      if exists i | 0 <= i < |ps| :: ps[i].0 == k {
        var i :| 0 <= i < |ps| && ps[i].0 == k;
        if i < |ps| - 1 {
          assert init[i] == ps[i];
        }
      }
    }
  }

  /** Every key's slice holds exactly the values paired with it, in their original order. */
  lemma {:induction false} GroupBucket<K, V>(ps: seq<(K, V)>, k: K)
    ensures Lookup(Group(ps), k) == Bucket(ps, k)
  {
    if ps != [] {
      GroupBucket(ps[..|ps| - 1], k);
    }
  }

  /** No key of the grouping has an empty slice. */
  lemma {:induction false} GroupNonEmpty<K, V>(ps: seq<(K, V)>, k: K)
    requires k in Group(ps)
    ensures Group(ps)[k] != []
  {
    if ps != [] {
      var init := ps[..|ps| - 1];
      if k != ps[|ps| - 1].0 {
        GroupNonEmpty(init, k);
      }
    }
  }

  /** Stores each pair's value under its key; a later pair overwrites an earlier one. */
  function ToMap<K(==), V>(ps: seq<(K, V)>): map<K, V>
  {
    if ps == [] then map[]
    else ToMap(ps[..|ps| - 1])[ps[|ps| - 1].0 := ps[|ps| - 1].1]
  }

  /** One more pair overwrites its key. */
  lemma ToMapAppend<K, V>(ps: seq<(K, V)>, p: (K, V))
    ensures ToMap(ps + [p]) == ToMap(ps)[p.0 := p.1]
  {
    assert (ps + [p])[..|ps|] == ps;
  }

  /** A key is present exactly when some pair carries it. */
  lemma {:induction false} ToMapKeys<K, V>(ps: seq<(K, V)>, k: K)
    ensures k in ToMap(ps) <==> exists i | 0 <= i < |ps| :: ps[i].0 == k
  {
    if ps != [] {
      var init := ps[..|ps| - 1];
      ToMapKeys(init, k);
      if exists i | 0 <= i < |ps| :: ps[i].0 == k {
        var i :| 0 <= i < |ps| && ps[i].0 == k;
        if i < |ps| - 1 {
          assert init[i] == ps[i];
        }
      }
    }
  }

  /** The last pair carrying a key decides its value. */
  lemma {:induction false} ToMapLastWins<K, V>(ps: seq<(K, V)>, i: nat)
    requires i < |ps|
    requires forall j | i < j < |ps| :: ps[j].0 != ps[i].0
    ensures ps[i].0 in ToMap(ps) && ToMap(ps)[ps[i].0] == ps[i].1
  {
    if i < |ps| - 1 {
      var init := ps[..|ps| - 1];
      assert forall j | i < j < |init| :: init[j] == ps[j];
      ToMapLastWins(init, i);
    }
  }

  /** The key a step stores, when it succeeds and keeps its element. */
  predicate StoresKey<K(==), V, E>(o: Result<Option<(K, V)>, E>, k: K)
  {
    o.Success? && o.value.Some? && o.value.value.0 == k
  }

  /** After a successful scan, a key is in the resulting map exactly when some step stored it. */
  lemma {:induction false} CollectToMapKeys<A, K, V, E>(xs: seq<A>, step: A -> Result<Option<(K, V)>, E>, k: K)
    requires Collect(xs, step).Success?
    ensures k in ToMap(Collect(xs, step).value) <==> exists i | 0 <= i < |xs| :: StoresKey(step(xs[i]), k)
  {
    if k in ToMap(Collect(xs, step).value) {
      var i := StoringStep(xs, step, k);
    }
    if exists i | 0 <= i < |xs| :: StoresKey(step(xs[i]), k) {
      var i :| 0 <= i < |xs| && StoresKey(step(xs[i]), k);
      StoredKeyPresent(xs, step, k, i);
    }
  }

  /** A key of the resulting map names a step that stored it. */
  lemma {:induction false} StoringStep<A, K, V, E>(xs: seq<A>, step: A -> Result<Option<(K, V)>, E>, k: K)
    returns (i: nat)
    requires Collect(xs, step).Success? && k in ToMap(Collect(xs, step).value)
    ensures i < |xs| && StoresKey(step(xs[i]), k)
  {
    var ps := Collect(xs, step).value;
    CollectSucceeds(xs, step);
    ToMapKeys(ps, k);
    var j :| 0 <= j < |ps| && ps[j].0 == k;
    FilterMapMember(xs, Passed(step), ps[j]);
    i :| 0 <= i < |xs| && Passed(step)(xs[i]) == Some(ps[j]);
  }

  /** A key some step stored is in the resulting map. */
  lemma {:induction false} StoredKeyPresent<A, K, V, E>(xs: seq<A>, step: A -> Result<Option<(K, V)>, E>, k: K, i: nat)
    requires Collect(xs, step).Success? && i < |xs| && StoresKey(step(xs[i]), k)
    ensures k in ToMap(Collect(xs, step).value)
  {
    var ps := Collect(xs, step).value;
    CollectSucceeds(xs, step);
    var p := step(xs[i]).value.value;
    assert Passed(step)(xs[i]) == Some(p);
    FilterMapMember(xs, Passed(step), p);
    var j :| 0 <= j < |ps| && ps[j] == p;
    ToMapKeys(ps, k);
  }

  /** After a successful scan, the last step that stores a key decides its value. */
  lemma {:induction false} CollectToMapLastWins<A, K, V, E>(xs: seq<A>, step: A -> Result<Option<(K, V)>, E>, i: nat)
    requires Collect(xs, step).Success?
    requires i < |xs| && step(xs[i]).Success? && step(xs[i]).value.Some?
    requires forall j | i < j < |xs| :: !StoresKey(step(xs[j]), step(xs[i]).value.value.0)
    ensures step(xs[i]).value.value.0 in ToMap(Collect(xs, step).value)
    ensures ToMap(Collect(xs, step).value)[step(xs[i]).value.value.0] == step(xs[i]).value.value.1
  {
    var f := Passed(step);
    var p := step(xs[i]).value.value;
    var ps := Collect(xs, step).value;
    CollectSucceeds(xs, step);
    var before, after := xs[..i], xs[i + 1..];
    assert xs == before + [xs[i]] + after;
    FilterMapAppend(before + [xs[i]], after, f);
    FilterMapAppend(before, [xs[i]], f);
    assert FilterMap([xs[i]], f) == [p] by {
      assert [xs[i]][..0] == [];
    }
    var a, b := FilterMap(before, f), FilterMap(after, f);
    assert ps == a + [p] + b;
    forall j | |a| < j < |ps| ensures ps[j].0 != p.0 {
      var q := ps[j];
      assert q == b[j - |a| - 1];
      FilterMapMember(after, f, q);
      var m :| 0 <= m < |after| && f(after[m]) == Some(q);
      assert after[m] == xs[i + 1 + m];
    }
    ToMapLastWins(ps, |a|);
  }

  /** Moving a key from the unvisited to the visited part keeps the two a partition of `all`. */
  lemma Visit<K>(visited: set<K>, unvisited: set<K>, all: set<K>, k: K)
    requires visited !! unvisited && visited + unvisited == all && k in unvisited
    ensures k !in visited && |unvisited - {k}| < |unvisited|
    ensures visited + {k} !! unvisited - {k} && (visited + {k}) + (unvisited - {k}) == all
  {
  }

  /** Some element of a non-empty set, the witness a choice `:|` over the set needs. */
  lemma Member<T>(s: set<T>) returns (x: T)
    requires s != {}
    ensures x in s
  {
    if forall y :: y !in s {
      assert false;
    }
    x :| x in s;
  }

  /** `ks` lists the keys of `keys` once each, in some order: the order in which a Go
      `range` over a map with those keys may visit them. */
  ghost predicate Enumerates<K>(ks: seq<K>, keys: set<K>)
  {
    && |ks| == |keys|
    && (forall i | 0 <= i < |ks| :: ks[i] in keys)
    && (forall i, j | 0 <= i < j < |ks| :: ks[i] != ks[j])
    && (forall k | k in keys :: k in ks)
  }

  /** Visiting one more key, not visited before, extends the enumeration. */
  lemma {:induction false} EnumeratesAppend<K>(ks: seq<K>, keys: set<K>, k: K)
    requires Enumerates(ks, keys)
    requires k !in keys
    ensures Enumerates(ks + [k], keys + {k})
  {
    var longer := ks + [k];
    forall i | 0 <= i < |ks|
      ensures longer[i] == ks[i]
    {
    }
    assert longer[|ks|] == k;
  }
}
