/** The earlier, function-only registry of `cite_by_function`: entries keyed
    by the bare qualified name, a decorator that records them, the query loops
    and an import lister that raises on unusual module specs. */
module CiteByFunction {
  import opened Wrappers
  import opened Text
  import opened Runtime

  /** The text stored when neither a label nor a docstring is given. */
  const NoCitation: string := "No citation provided."

  /** What the decorator reads of a function: `__qualname__` and `__doc__`. */
  datatype Function = Function(qualname: string, doc: Option<string>)

  /** A `CitationEntry`. */
  datatype Entry = Entry(functionName: string, docstring: Option<string>, userLabel: Option<string>, citation: string)

  /** `CitationEntry(function_name, docstring, label)`: a non-empty label wins,
      then a non-empty docstring (kept whole), then the fallback text. */
  function NewEntry(functionName: string, docstring: Option<string>, userLabel: Option<string>): (e: Entry)
    ensures e.functionName == functionName && e.docstring == docstring && e.userLabel == userLabel
    ensures userLabel.Some? && |userLabel.value| > 0 ==> e.citation == userLabel.value
    ensures (userLabel.None? || |userLabel.value| == 0) && docstring.Some? && |docstring.value| > 0 ==>
              e.citation == docstring.value
    ensures (userLabel.None? || |userLabel.value| == 0) && (docstring.None? || |docstring.value| == 0) ==>
              e.citation == NoCitation
  {
    var c :=
      if userLabel.Some? && |userLabel.value| > 0 then userLabel.value
      else if docstring.Some? && |docstring.value| > 0 then docstring.value
      else NoCitation;
    Entry(functionName, docstring, userLabel, c)
  }

  /** The stored citation is never empty. */
  lemma CitationNonEmpty(functionName: string, docstring: Option<string>, userLabel: Option<string>)
    ensures |NewEntry(functionName, docstring, userLabel).citation| > 0
  {
    assert |NoCitation| > 0;
  }

  /** `str(entry)` */
  function Render(e: Entry): (s: string)
    ensures StartsWith(s, e.functionName + ": ") && s[|e.functionName| + 2..] == e.citation
  {
    e.functionName + ": " + e.citation
  }

  /** What `citation(label)` returns in place of the function. */
  datatype Wrapper = Wrapper(qualname: string)

  /** `CITATION_REGISTRY_ALL` and `CITATION_REGISTRY_USED`. */
  class Registry {
    var order: seq<string>
    var all: map<string, Entry>
    var used: set<string>

    ghost predicate Valid()
      reads this
    {
      && Distinct(order)
      && (forall k :: k in all ==> k in order)
      && (forall i :: 0 <= i < |order| ==> order[i] in all)
      && used <= all.Keys
      && forall k :: k in all ==> all[k].functionName == k
    }

    constructor ()
      ensures Valid()
      ensures order == [] && all == map[] && used == {}
    {
      order, all, used := [], map[], {};
    }

    /** `citation(label)(func)`: the first function of a qualified name is
        recorded; a later one of the same name is silently ignored. */
    method Decorate(userLabel: Option<string>, func: Function) returns (w: Wrapper)
      requires Valid()
      modifies this
      ensures Valid() && used == old(used) && w == Wrapper(func.qualname)
      ensures func.qualname in old(all) ==> all == old(all) && order == old(order)
      ensures func.qualname !in old(all) ==>
        && all == old(all)[func.qualname := NewEntry(func.qualname, func.doc, userLabel)]
        && order == old(order) + [func.qualname]
    {
      var key := func.qualname;
      if key !in all {
        order := order + [key];
        all := all[key := NewEntry(key, func.doc, userLabel)];
      }
      w := Wrapper(key);
    }

    /** `fun_wrapper(x)`: marks the qualified name used and returns what the
        function returns. */
    method Call<A, R>(w: Wrapper, f: A -> R, x: A) returns (y: R)
      requires Valid() && w.qualname in all
      modifies this
      ensures Valid() && all == old(all) && order == old(order)
      ensures used == old(used) + {w.qualname}
      ensures y == f(x)
    {
      if w.qualname !in used {
        used := used + {w.qualname};
      }
      y := f(x);
    }

    /** `get_all_citations()`: every entry rendered, in insertion order, one
        per recorded name. */
    method AllCitations() returns (r: seq<string>)
      requires Valid()
      ensures |r| == |order| == |all|
      ensures forall i :: 0 <= i < |order| ==> r[i] == Render(all[order[i]])
      ensures forall k :: k in all ==> Render(all[k]) in r
    {
      r := [];
      for i := 0 to |order|
        invariant |r| == i
        invariant forall j :: 0 <= j < i ==> r[j] == Render(all[order[j]])
      {
        r := r + [Render(all[order[i]])];
      }
      DistinctCardinality(order);
      assert all.Keys == (set k | k in order);
      assert |all| == |all.Keys|;
      forall k | k in all
        ensures Render(all[k]) in r
      {
        var i :| 0 <= i < |order| && order[i] == k;
        assert r[i] == Render(all[k]);
      }
    }

    /** `get_used_citations()`: the entry of every used name, rendered, in the
        set's iteration order; `keys` is that order. */
    method UsedCitations() returns (r: seq<string>, ghost keys: seq<string>)
      requires Valid()
      ensures Distinct(keys) && (set k | k in keys) == used
      ensures |r| == |keys| == |used|
      ensures forall i :: 0 <= i < |keys| ==> r[i] == Render(all[keys[i]])
      ensures forall k :: k in used ==> Render(all[k]) in r
      ensures forall i :: 0 <= i < |r| ==> exists k :: k in used && r[i] == Render(all[k])
    {
      var names := IterationOrder(used);
      r := [];
      for i := 0 to |names|
        invariant |r| == i
        invariant forall j :: 0 <= j < i ==> r[j] == Render(all[names[j]])
      {
        r := r + [Render(all[names[i]])];
      }
      keys := names;
      forall k | k in used
        ensures Render(all[k]) in r
      {
        var i :| 0 <= i < |names| && names[i] == k;
        assert r[i] == Render(all[k]);
      }
    }

    /** `reset_used_citations()` */
    method ResetUsedCitations()
      requires Valid()
      modifies this
      ensures Valid() && all == old(all) && order == old(order) && used == {}
    {
      used := {};
    }
  }

  // ---------------------------------------------------------------------------
  // get_all_imports
  // ---------------------------------------------------------------------------

  /** The `skip` flag of this lister: the main module is skipped; any other
      module's `__spec__` is read unguarded (`AttributeError` when missing);
      a `None` spec is not skipped; otherwise the origin is compared with
      "built-in" and "frozen" and searched for "Python.framework", which
      raises `TypeError` for a `None` origin. */
  function SkipFlag(m: LoadedModule): (r: Result<bool>)
    ensures m.name == "__main__" ==> r == Ok(true)
    ensures m.name != "__main__" && m.spec.Absent? ==> r == Raise(AttributeError)
    ensures m.name != "__main__" && m.spec == Present(None) ==> r == Ok(false)
    ensures m.name != "__main__" && m.spec == Present(Some(ModuleSpec(None))) ==> r == Raise(TypeError)
    ensures m.name != "__main__" && m.spec.Present? && m.spec.value.Some? && m.spec.value.value.origin.Some? ==>
              var o := m.spec.value.value.origin.value;
              r == Ok(o == "built-in" || o == "frozen" || Contains(o, "Python.framework"))
  {
    if m.name == "__main__" then Ok(true)
    else match m.spec
      case Absent => Raise(AttributeError)
      case Present(None) => Ok(false)
      case Present(Some(spec)) =>
        match spec.origin
        case None => Raise(TypeError)
        case Some(origin) =>
          Ok(origin == "built-in" || origin == "frozen" || Contains(origin, "Python.framework"))
  }

  /** Whether the loop appends a module's name, once its flag is known. */
  predicate Kept(m: LoadedModule, skipCommon: bool) {
    !skipCommon || !(SkipFlag(m).Ok? && SkipFlag(m).value)
  }

  function KeepFilter(skipCommon: bool): (keep: LoadedModule -> bool)
    ensures forall m :: keep(m) == Kept(m, skipCommon)
  {
    m => Kept(m, skipCommon)
  }

  /** What `get_all_imports(skip_common)` returns or raises: the first module
      whose flag raises decides the exception. */
  function ImportsOf(modules: seq<LoadedModule>, skipCommon: bool): (r: Result<seq<string>>)
    ensures r.Ok? ==> |r.value| <= |modules|
  {
    if modules == [] then Ok([])
    else
      var m := modules[|modules| - 1];
      match ImportsOf(modules[..|modules| - 1], skipCommon)
      case Raise(e) => Raise(e)
      case Ok(names) =>
        match SkipFlag(m)
        case Raise(e) => Raise(e)
        case Ok(skip) => Ok(if !skipCommon || !skip then names + [m.name] else names)
  }

  /** An exception raised on a prefix of the modules is the exception of the
      whole loop. */
  lemma {:induction false} RaiseOnPrefix(modules: seq<LoadedModule>, skipCommon: bool, i: nat)
    requires i <= |modules| && ImportsOf(modules[..i], skipCommon).Raise?
    ensures ImportsOf(modules, skipCommon) == ImportsOf(modules[..i], skipCommon)
    decreases |modules|
  {
    if i < |modules| {
      var p := modules[..|modules| - 1];
      assert p[..i] == modules[..i];
      RaiseOnPrefix(p, skipCommon, i);
    } else {
      assert modules[..i] == modules;
    }
  }

  /** `get_all_imports`: the loop over `sys.modules`, stopping at the first
      exception. */
  method AllImports(modules: seq<LoadedModule>, skipCommon: bool) returns (r: Result<seq<string>>)
    ensures r == ImportsOf(modules, skipCommon)
  {
    var imports := [];
    for i := 0 to |modules|
      invariant ImportsOf(modules[..i], skipCommon) == Ok(imports)
    {
      var m := modules[i];
      assert modules[..i + 1][..i] == modules[..i];
      var skip := false;
      if m.name == "__main__" {
        skip := true;
      } else {
        if m.spec.Absent? {
          RaiseOnPrefix(modules, skipCommon, i + 1);
          return Raise(AttributeError);
        }
        if m.spec.value.Some? {
          var origin := m.spec.value.value.origin;
          if origin == Some("built-in") {
            skip := true;
          }
          if origin == Some("frozen") {
            skip := true;
          }
          if origin.None? {
            RaiseOnPrefix(modules, skipCommon, i + 1);
            return Raise(TypeError);
          }
          if Contains(origin.value, "Python.framework") {
            skip := true;
          }
        }
      }
      assert SkipFlag(m) == Ok(skip);
      if !skipCommon || !skip {
        imports := imports + [m.name];
      }
    }
    assert modules[..|modules|] == modules;
    r := Ok(imports);
  }

  /** The lister succeeds exactly when no module's flag raises, and then it
      lists the names the filter keeps, in order. */
  lemma {:induction false} ImportsOkIffNoRaise(modules: seq<LoadedModule>, skipCommon: bool)
    ensures ImportsOf(modules, skipCommon).Ok? <==> forall i :: 0 <= i < |modules| ==> SkipFlag(modules[i]).Ok?
    ensures ImportsOf(modules, skipCommon).Ok? ==>
              ImportsOf(modules, skipCommon).value == KeptNames(modules, KeepFilter(skipCommon))
  {
    if modules != [] {
      var p := modules[..|modules| - 1];
      assert forall i :: 0 <= i < |p| ==> p[i] == modules[i];
      ImportsOkIffNoRaise(p, skipCommon);
    }
  }

  /** When it raises, the exception is that of the first module whose flag
      raises. */
  lemma {:induction false} ImportsRaiseFirst(modules: seq<LoadedModule>, skipCommon: bool)
    requires ImportsOf(modules, skipCommon).Raise?
    ensures exists i :: 0 <= i < |modules| && SkipFlag(modules[i]) == Raise(ImportsOf(modules, skipCommon).error)
              && forall j :: 0 <= j < i ==> SkipFlag(modules[j]).Ok?
  {
    var p := modules[..|modules| - 1];
    assert forall i :: 0 <= i < |p| ==> p[i] == modules[i];
    if ImportsOf(p, skipCommon).Raise? {
      ImportsRaiseFirst(p, skipCommon);
      var i :| 0 <= i < |p| && SkipFlag(p[i]) == Raise(ImportsOf(p, skipCommon).error)
                && forall j :: 0 <= j < i ==> SkipFlag(p[j]).Ok?;
      assert SkipFlag(modules[i]) == Raise(ImportsOf(modules, skipCommon).error);
    } else {
      ImportsOkIffNoRaise(p, skipCommon);
      var i := |modules| - 1;
      assert SkipFlag(modules[i]) == Raise(ImportsOf(modules, skipCommon).error);
    }
  }

  /** With skipping, a run that does not raise leaves out `__main__` and the
      modules whose origin is "built-in", "frozen" or inside
      "Python.framework", since the names of `sys.modules` are unique. */
  lemma CommonModulesSkipped(modules: seq<LoadedModule>, i: int)
    requires forall a, b :: 0 <= a < b < |modules| ==> modules[a].name != modules[b].name
    requires ImportsOf(modules, true).Ok? && 0 <= i < |modules| && SkipFlag(modules[i]) == Ok(true)
    ensures modules[i].name !in ImportsOf(modules, true).value
  {
    ImportsOkIffNoRaise(modules, true);
    KeptNamesMembership(modules, KeepFilter(true), modules[i].name);
  }

  /** Without skipping, a run that does not raise lists every module. */
  lemma ImportsUnfiltered(modules: seq<LoadedModule>)
    requires ImportsOf(modules, false).Ok?
    ensures ImportsOf(modules, false).value == Names(modules)
  {
    ImportsOkIffNoRaise(modules, false);
    KeptNamesAll(modules, KeepFilter(false));
  }

  /** Skipping only removes names. */
  lemma SkippingOnlyRemoves(modules: seq<LoadedModule>)
    requires ImportsOf(modules, false).Ok?
    ensures ImportsOf(modules, true).Ok?
    ensures IsSubsequence(ImportsOf(modules, true).value, ImportsOf(modules, false).value)
  {
    ImportsOkIffNoRaise(modules, false);
    ImportsOkIffNoRaise(modules, true);
    KeptNamesMonotone(modules, KeepFilter(true), KeepFilter(false));
  }
}
