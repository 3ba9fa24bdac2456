/** What the import listers see of the running interpreter: the entries of
    `sys.modules`, given as a sequence in the dictionary's order, and the
    order-preserving filter they apply to it. */
module Runtime {
  import opened Wrappers

  /** A module's `__spec__` object; only its `origin` is consulted. */
  datatype ModuleSpec = ModuleSpec(origin: Option<string>)

  /** One entry of `sys.modules`: the key, the module's `__spec__` attribute
      (present or not, and `None` or a spec) and its `__doc__` attribute. */
  datatype LoadedModule = LoadedModule(
    name: string,
    spec: Attr<Option<ModuleSpec>>,
    doc: Attr<Option<string>>)

  /** Every module name, in order. */
  function Names(ms: seq<LoadedModule>): (r: seq<string>)
    ensures |r| == |ms| && forall i :: 0 <= i < |ms| ==> r[i] == ms[i].name
  {
    seq(|ms|, i requires 0 <= i < |ms| => ms[i].name)
  }

  /** The names of the modules `keep` accepts, in order: the list an
      append-per-accepted-module loop builds. */
  function KeptNames(ms: seq<LoadedModule>, keep: LoadedModule -> bool): (r: seq<string>)
    ensures |r| <= |ms|
  {
    if ms == [] then []
    else KeptNames(ms[..|ms| - 1], keep) + (if keep(ms[|ms| - 1]) then [ms[|ms| - 1].name] else [])
  }

  /** `a` is `b` with some elements left out, the rest kept in order. */
  ghost predicate IsSubsequence(a: seq<string>, b: seq<string>)
    decreases |b|
  {
    if a == [] then true
    else if b == [] then false
    else (a[|a| - 1] == b[|b| - 1] && IsSubsequence(a[..|a| - 1], b[..|b| - 1]))
         || IsSubsequence(a, b[..|b| - 1])
  }

  /** A name is kept exactly when some module of that name is accepted. */
  lemma {:induction false} KeptNamesMembership(ms: seq<LoadedModule>, keep: LoadedModule -> bool, x: string)
    ensures x in KeptNames(ms, keep) <==> exists i :: 0 <= i < |ms| && ms[i].name == x && keep(ms[i])
  {
    if ms != [] {
      var p := ms[..|ms| - 1];
      KeptNamesMembership(p, keep, x);
      assert forall i :: 0 <= i < |p| ==> p[i] == ms[i];
      if exists i :: 0 <= i < |ms| && ms[i].name == x && keep(ms[i]) {
        var i :| 0 <= i < |ms| && ms[i].name == x && keep(ms[i]);
        if i < |p| {
          assert p[i].name == x && keep(p[i]);
        }
      }
    }
  }

  /** A filter that accepts every module keeps every name. */
  lemma {:induction false} KeptNamesAll(ms: seq<LoadedModule>, keep: LoadedModule -> bool)
    requires forall i :: 0 <= i < |ms| ==> keep(ms[i])
    ensures KeptNames(ms, keep) == Names(ms)
  {
    if ms != [] {
      var p := ms[..|ms| - 1];
      assert forall i :: 0 <= i < |p| ==> p[i] == ms[i];
      KeptNamesAll(p, keep);
      assert Names(ms) == Names(p) + [ms[|ms| - 1].name];
    }
  }

  /** A filter that accepts fewer modules keeps a subsequence of the names. */
  lemma {:induction false} KeptNamesMonotone(ms: seq<LoadedModule>, fewer: LoadedModule -> bool, more: LoadedModule -> bool)
    requires forall i :: 0 <= i < |ms| && fewer(ms[i]) ==> more(ms[i])
    ensures IsSubsequence(KeptNames(ms, fewer), KeptNames(ms, more))
  {
    if ms != [] {
      var p, m := ms[..|ms| - 1], ms[|ms| - 1];
      assert forall i :: 0 <= i < |p| ==> p[i] == ms[i];
      KeptNamesMonotone(p, fewer, more);
      var a, b := KeptNames(p, fewer), KeptNames(p, more);
      if fewer(m) {
        assert (a + [m.name])[..|a|] == a && (b + [m.name])[..|b|] == b;
      } else if more(m) {
        var c := b + [m.name];
        assert KeptNames(ms, fewer) == a && KeptNames(ms, more) == c;
        if a != [] {
          assert c[..|c| - 1] == b;
          assert IsSubsequence(a, c[..|c| - 1]);
          assert IsSubsequence(a, c);
        }
      } else {
        assert KeptNames(ms, fewer) == a && KeptNames(ms, more) == b;
      }
    }
  }

  /** Every filter keeps a subsequence of the names. */
  lemma KeptNamesSubsequence(ms: seq<LoadedModule>, keep: LoadedModule -> bool)
    ensures IsSubsequence(KeptNames(ms, keep), Names(ms))
  {
    KeptNamesAll(ms, m => true);
    KeptNamesMonotone(ms, keep, m => true);
  }

  /** A subsequence is never longer. */
  lemma {:induction false} SubsequenceLength(a: seq<string>, b: seq<string>)
    requires IsSubsequence(a, b)
    ensures |a| <= |b|
    decreases |b|
  {
    if a != [] {
      if a[|a| - 1] == b[|b| - 1] && IsSubsequence(a[..|a| - 1], b[..|b| - 1]) {
        SubsequenceLength(a[..|a| - 1], b[..|b| - 1]);
      } else {
        SubsequenceLength(a, b[..|b| - 1]);
      }
    }
  }

  /** No name is listed twice. */
  predicate Distinct(s: seq<string>) {
    forall i, j :: 0 <= i < j < |s| ==> s[i] != s[j]
  }

  /** A list without repeats has as many elements as the set of its elements. */
  lemma {:induction false} DistinctCardinality(s: seq<string>)
    requires Distinct(s)
    ensures |(set x | x in s)| == |s|
  {
    if s != [] {
      var p := s[..|s| - 1];
      assert Distinct(p);
      DistinctCardinality(p);
      assert (set x | x in s) == (set x | x in p) + {s[|s| - 1]};
      assert s[|s| - 1] !in (set x | x in p);
    }
  }

  /** Iterating over a Python set: every element once, in an order the model
      leaves open. */
  method IterationOrder(s: set<string>) returns (keys: seq<string>)
    ensures forall i :: 0 <= i < |keys| ==> keys[i] in s
    ensures Distinct(keys) && (set k | k in keys) == s && |keys| == |s|
  {
    keys := [];
    var remaining := s;
    while remaining != {}
      invariant remaining <= s
      invariant forall i :: 0 <= i < |keys| ==> keys[i] in s && keys[i] !in remaining
      invariant Distinct(keys)
      invariant (set k | k in keys) == s - remaining
      decreases |remaining|
    {
      var k :| k in remaining;
      assert (set j | j in keys + [k]) == (set j | j in keys) + {k};
      keys := keys + [k];
      remaining := remaining - {k};
    }
    DistinctCardinality(keys);
  }
}
