/** The registry of `citation_compass`: citation entries built from names and
    docstrings, the module-level dictionary of every citation and set of used
    ones, the decorators and base class that fill them, and the import lister. */
module Citation {
  import opened Wrappers
  import opened Text
  import opened Runtime
  import opened DocstringUtils
  import DocstringExamples

  // ---------------------------------------------------------------------------
  // _get_full_name
  // ---------------------------------------------------------------------------

  /** What the registry reads of a Python object: the attributes `_get_full_name`
      and `CitationEntry.from_object` probe, each possibly missing. */
  datatype Thing = Thing(
    qualname: Option<string>,         // `__qualname__`, `None` when there is none
    name: Option<string>,             // `__name__`
    classQualname: Option<string>,    // `__class__.__qualname__`, `None` when there is no `__class__`
    moduleName: Option<string>,         // the `__name__` of `inspect.getmodule(thing)`, `None` when no module is found
    doc: Attr<Option<string>>,        // `__doc__`
    classDoc: Attr<Option<string>>)   // `__class__.__doc__`

  /** The unqualified name: `__qualname__`, else `__name__`, else the class's
      `__qualname__`. */
  function BaseName(t: Thing): (r: Option<string>)
    ensures r.None? <==> t.qualname.None? && t.name.None? && t.classQualname.None?
    ensures t.qualname.Some? ==> r == t.qualname
    ensures t.qualname.None? && t.name.Some? ==> r == t.name
    ensures t.qualname.None? && t.name.None? ==> r == t.classQualname
  {
    if t.qualname.Some? then t.qualname
    else if t.name.Some? then t.name
    else t.classQualname
  }

  /** `_get_full_name`: the base name, prefixed by the module's name and a dot
      when the module is known; `ValueError` when there is no name at all. */
  function FullName(t: Thing): (r: Result<string>)
    ensures r.Raise? <==> BaseName(t).None?
    ensures r.Raise? ==> r.error == ValueError
    ensures r.Ok? && t.moduleName.None? ==> r.value == BaseName(t).value
    ensures r.Ok? && t.moduleName.Some? ==> r.value == t.moduleName.value + "." + BaseName(t).value
  {
    match BaseName(t)
    case None => Raise(ValueError)
    case Some(b) =>
      if t.moduleName.None? then Ok(b)
      else
        Ok(t.moduleName.value + "." + b)
  }

  /** Two things of the same module with different base names get different
      keys, so they never collide in the registry. */
  lemma FullNameSeparatesBases(t1: Thing, t2: Thing)
    requires t1.moduleName == t2.moduleName
    requires BaseName(t1).Some? && BaseName(t2).Some? && BaseName(t1) != BaseName(t2)
    ensures FullName(t1) != FullName(t2)
  {
    if t1.moduleName.Some? {
      var p := t1.moduleName.value + ".";
      var b1, b2 := BaseName(t1).value, BaseName(t2).value;
      assert (p + b1)[|p|..] == b1 && (p + b2)[|p|..] == b2;
    }
  }

  // ---------------------------------------------------------------------------
  // CitationEntry
  // ---------------------------------------------------------------------------

  /** The text stored when neither a citation nor a label is given. */
  const NoCitation: string := "No citation provided."

  /** A `CitationEntry` (without its `urls`). */
  datatype Entry = Entry(key: string, citation: string, userLabel: Option<string>)

  /** `CitationEntry(key, citation, label)`: an explicit citation is kept as
      given (even when empty); without one a non-empty label stands in, and
      otherwise the fixed fallback text. */
  function NewEntry(key: string, citation: Option<string>, userLabel: Option<string>): (e: Entry)
    ensures e.key == key && e.userLabel == userLabel
    ensures citation.Some? ==> e.citation == citation.value
    ensures citation.None? && userLabel.Some? && |userLabel.value| > 0 ==> e.citation == userLabel.value
    ensures citation.None? && (userLabel.None? || |userLabel.value| == 0) ==> e.citation == NoCitation
  {
    if citation.Some? then Entry(key, citation.value, userLabel)
    else if userLabel.Some? && |userLabel.value| > 0 then Entry(key, userLabel.value, userLabel)
    else Entry(key, NoCitation, userLabel)
  }

  /** `str(entry)`: the key, a colon, a space and the citation. */
  function Render(e: Entry): (s: string)
    ensures StartsWith(s, e.key + ": ") && s[|e.key| + 2..] == e.citation
  {
    e.key + ": " + e.citation
  }

  /** A rendering has its colon right after the key, so a longer key without
      a colon gives a different text. */
  lemma ColonEndsKey(short: Entry, long: Entry)
    requires |short.key| < |long.key| && ':' !in long.key
    ensures Render(short) != Render(long)
  {
    assert Render(short)[|short.key|] == ':';
    assert Render(long)[|short.key|] == long.key[|short.key|];
  }

  /** Keys without a colon (module paths and qualified names have none) can be
      read back from the rendered text, and so can the citation. */
  lemma {:induction false} RenderInjective(e1: Entry, e2: Entry)
    requires ':' !in e1.key && ':' !in e2.key
    requires Render(e1) == Render(e2)
    ensures e1.key == e2.key && e1.citation == e2.citation
  {
    var s := Render(e1);
    if |e1.key| < |e2.key| {
      ColonEndsKey(e1, e2);
      assert false;
    } else if |e2.key| < |e1.key| {
      ColonEndsKey(e2, e1);
      assert false;
    }
    assert e1.key == s[..|e1.key|] == e2.key;
  }

  /** The docstring `from_object` reads: the object's own `__doc__`, else its
      class's, else the empty text. */
  function ObjectDoc(t: Thing): (r: Option<string>)
    ensures t.doc.Present? ==> r == t.doc.value
    ensures t.doc.Absent? && t.classQualname.Some? && t.classDoc.Present? ==> r == t.classDoc.value
    ensures t.doc.Absent? && (t.classQualname.None? || t.classDoc.Absent?) ==> r == Some("")
  {
    if t.doc.Present? then t.doc.value
    else if t.classQualname.Some? && t.classDoc.Present? then t.classDoc.value
    else Some("")
  }

  /** The citation `from_object` stores: the extracted block, else the whole
      docstring (which may be `None`). */
  function DocCitation(docstring: Option<string>): (r: Option<string>)
    ensures ExtractedCitation(docstring).Some? ==> r == ExtractedCitation(docstring)
    ensures ExtractedCitation(docstring).None? ==> r == docstring
    ensures r.None? <==> docstring.None?
  {
    var c := ExtractedCitation(docstring);
    if c.Some? then c else docstring
  }

  /** `CitationEntry.from_object(obj, label)` */
  function EntryFromObject(t: Thing, userLabel: Option<string>): (r: Result<Entry>)
    ensures r.Raise? <==> FullName(t).Raise?
    ensures r.Ok? ==> r.value == NewEntry(FullName(t).value, DocCitation(ObjectDoc(t)), userLabel)
  {
    match FullName(t)
    case Raise(e) => Raise(e)
    case Ok(key) => Ok(NewEntry(key, DocCitation(ObjectDoc(t)), userLabel))
  }

  /** A docstring, even an empty one, wins over the label: the label is used
      only when the docstring is `None`. */
  lemma DocstringOverridesLabel(t: Thing, l1: Option<string>, l2: Option<string>)
    requires FullName(t).Ok? && ObjectDoc(t).Some?
    ensures EntryFromObject(t, l1).value.citation == EntryFromObject(t, l2).value.citation
  {
  }

  /** With a `None` docstring a non-empty label becomes the citation, and no
      label gives the fallback text. */
  lemma LabelWithoutDocstring(t: Thing, userLabel: Option<string>)
    requires FullName(t).Ok? && ObjectDoc(t).None?
    ensures userLabel.Some? && |userLabel.value| > 0 ==> EntryFromObject(t, userLabel).value.citation == userLabel.value
    ensures userLabel.None? ==> EntryFromObject(t, userLabel).value.citation == NoCitation
  {
  }

  /** A one-line docstring "Citation: ..." is stored as the text after the
      header, whatever the label. */
  lemma HeaderDocstringEntry(t: Thing, userLabel: Option<string>)
    requires FullName(t).Ok? && t.doc == Present(Some("Citation: Author, Title, year."))
    ensures EntryFromObject(t, userLabel).value.citation == "Author, Title, year."
  {
    DocstringExamples.CitationLine(t.doc.value.value);
  }

  // ---------------------------------------------------------------------------
  // cite_module
  // ---------------------------------------------------------------------------

  /** `sys.modules[name]`, when the name is loaded (the first entry counts). */
  function Lookup(modules: seq<LoadedModule>, name: string): (r: Option<LoadedModule>)
    ensures r.Some? ==> r.value in modules && r.value.name == name
    ensures r.None? ==> forall i :: 0 <= i < |modules| ==> modules[i].name != name
  {
    if modules == [] then None
    else if modules[0].name == name then Some(modules[0])
    else Lookup(modules[1..], name)
  }

  /** The citation `cite_module` stores: the explicit one; else, for a loaded
      module with a `__doc__`, its non-empty extracted block or the whole
      docstring; else none. */
  function ModuleCitation(name: string, citation: Option<string>, modules: seq<LoadedModule>): (r: Option<string>)
    ensures citation.Some? ==> r == citation
    ensures citation.None? && (Lookup(modules, name).None? || Lookup(modules, name).value.doc.Absent?) ==> r.None?
  {
    if citation.Some? then citation
    else match Lookup(modules, name)
      case None => None
      case Some(m) =>
        if m.doc.Absent? then None
        else
          var c := ExtractedCitation(m.doc.value);
          if c.None? || |c.value| == 0 then m.doc.value else c
  }

  /** A loaded module's docstring decides its citation: a non-empty block is
      used, an empty or missing block falls back to the docstring. */
  lemma ModuleDocstringCitation(name: string, modules: seq<LoadedModule>)
    requires Lookup(modules, name).Some? && Lookup(modules, name).value.doc.Present?
    ensures var doc := Lookup(modules, name).value.doc.value;
            var c := ExtractedCitation(doc);
            && (c.Some? && |c.value| > 0 ==> ModuleCitation(name, None, modules) == c)
            && (c.None? || |c.value| == 0 ==> ModuleCitation(name, None, modules) == doc)
  {
  }

  /** A module that cannot be looked up is cited with the fallback text. */
  lemma UnknownModuleFallback(name: string, modules: seq<LoadedModule>)
    requires forall i :: 0 <= i < |modules| ==> modules[i].name != name
    ensures NewEntry(name, ModuleCitation(name, None, modules), None).citation == NoCitation
  {
  }

  // ---------------------------------------------------------------------------
  // fun_wrapper's bookkeeping
  // ---------------------------------------------------------------------------

  /** `fun_wrapper` as written: it tests the bare `__qualname__` against the
      used set but adds the full name, and it raises `AttributeError` when the
      function has no `__qualname__`. */
  function MarkUsedAsWritten(used: set<string>, qualname: Option<string>, key: string): (r: Result<set<string>>)
    ensures r.Raise? <==> qualname.None?
    ensures r.Ok? ==> r.value == (if qualname.value in used then used else used + {key})
  {
    if qualname.None? then Raise(AttributeError)
    else if qualname.value in used then Ok(used)
    else Ok(used + {key})
  }

  /** The used set after a call: the full name is added. */
  function MarkUsed(used: set<string>, key: string): (r: set<string>)
    ensures key in r && r - {key} == used - {key}
  {
    used + {key}
  }

  /** Calling a wrapped function once or twice marks the same names. */
  lemma MarkUsedIdempotent(used: set<string>, key: string)
    ensures MarkUsed(MarkUsed(used, key), key) == MarkUsed(used, key)
    ensures key in used ==> MarkUsed(used, key) == used
  {
  }

  /** A function of a module `m` named `f` is not marked used once the bare
      name "f" is already in the used set (for example after
      `cite_module("f")`). */
  lemma AsWrittenMissesQualifiedKey()
    ensures MarkUsedAsWritten({"f"}, Some("f"), "m.f") == Ok({"f"})
    ensures "m.f" !in MarkUsedAsWritten({"f"}, Some("f"), "m.f").value
    ensures "m.f" in MarkUsed({"f"}, "m.f")
  {
    assert "f" in {"f"};
  }

  /** Where the key is the bare qualified name (no module found) the code as
      written agrees with the intended bookkeeping. */
  lemma AsWrittenAgreesWithoutModule(used: set<string>, t: Thing)
    requires t.qualname.Some? && t.moduleName.None?
    ensures MarkUsedAsWritten(used, t.qualname, FullName(t).value) == Ok(MarkUsed(used, FullName(t).value))
  {
    var q := t.qualname.value;
    assert FullName(t).value == q;
    if q in used {
      assert used + {q} == used;
    }
  }

  // ---------------------------------------------------------------------------
  // The registry
  // ---------------------------------------------------------------------------

  /** What `CiteClass.__init_subclass__` returns in place of the class's
      constructor: the keys it marks used when an object is built (the class's
      own key and those of the constructor it wraps). */
  datatype ClassWrapper = ClassWrapper(keys: set<string>)

  /** What `cite_function` returns in place of the function. */
  datatype FunctionWrapper = FunctionWrapper(qualname: Option<string>, key: string)

  /** `CITATION_REGISTRY_ALL` (a dictionary, whose iteration order is the
      order its keys were first inserted) and `CITATION_REGISTRY_USED`. */
  class Registry {
    var order: seq<string>
    var all: map<string, Entry>
    var used: set<string>

    /** The keys are listed once each in insertion order, every used name has
        an entry, and every entry is filed under its own key. */
    ghost predicate Valid()
      reads this
    {
      && Distinct(order)
      && (forall k :: k in all ==> k in order)
      && (forall i :: 0 <= i < |order| ==> order[i] in all)
      && used <= all.Keys
      && forall k :: k in all ==> all[k].key == k
    }

    /** The state at import time: both registries empty. */
    constructor ()
      ensures Valid()
      ensures order == [] && all == map[] && used == {}
    {
      order, all, used := [], map[], {};
    }

    /** `CITATION_REGISTRY_ALL[key] = entry`: a new key goes to the end, an
        existing one keeps its place. */
    method Store(key: string, e: Entry)
      requires Valid() && e.key == key
      modifies this
      ensures Valid()
      ensures all == old(all)[key := e] && used == old(used)
      ensures order == if key in old(all) then old(order) else old(order) + [key]
    {
      if key !in all {
        assert key !in order;
        order := order + [key];
      }
      all := all[key := e];
    }

    /** `cite_module(name, citation)`: the entry is (re)written and the module
        is marked used. */
    method CiteModule(name: string, citation: Option<string>, modules: seq<LoadedModule>)
      requires Valid()
      modifies this
      ensures Valid()
      ensures all == old(all)[name := NewEntry(name, ModuleCitation(name, citation, modules), None)]
      ensures order == if name in old(all) then old(order) else old(order) + [name]
      ensures used == old(used) + {name}
    {
      Store(name, NewEntry(name, ModuleCitation(name, citation, modules), None));
      used := used + {name};
    }

    /** `CiteClass.__init_subclass__(cls)`: the first definition of a key
        stores its entry, a later one only warns; `inherited` are the keys the
        wrapped constructor marks. */
    method RegisterClass(cls: Thing, inherited: set<string>) returns (r: Result<ClassWrapper>, warned: bool)
      requires Valid() && inherited <= all.Keys
      modifies this
      ensures Valid() && used == old(used)
      ensures r.Raise? <==> FullName(cls).Raise?
      ensures r.Raise? ==> all == old(all) && order == old(order) && !warned
      ensures r.Ok? ==> var key := FullName(cls).value;
        && r.value == ClassWrapper({key} + inherited)
        && r.value.keys <= all.Keys
        && warned == (key in old(all))
        && all == (if key in old(all) then old(all) else old(all)[key := EntryFromObject(cls, None).value])
        && order == (if key in old(all) then old(order) else old(order) + [key])
    {
      match FullName(cls)
      case Raise(e) =>
        r, warned := Raise(e), false;
      case Ok(key) =>
        warned := key in all;
        if !warned {
          Store(key, EntryFromObject(cls, None).value);
        }
        r := Ok(ClassWrapper({key} + inherited));
    }

    /** `init_wrapper`: building an object marks the class (and the classes
        whose wrapped constructors it runs) used. */
    method Instantiate(w: ClassWrapper)
      requires Valid() && w.keys <= all.Keys
      modifies this
      ensures Valid() && all == old(all) && order == old(order)
      ensures used == old(used) + w.keys
    {
      used := used + w.keys;
    }

    /** `cite_function(label)(func)`: the first definition of a key stores an
        entry built from the function and the label, a later one only warns.
        The bare `@cite_function` form is the one with no label. */
    method CiteFunction(userLabel: Option<string>, func: Thing) returns (r: Result<FunctionWrapper>, warned: bool)
      requires Valid()
      modifies this
      ensures Valid() && used == old(used)
      ensures r.Raise? <==> FullName(func).Raise?
      ensures r.Raise? ==> all == old(all) && order == old(order) && !warned
      ensures r.Ok? ==> var key := FullName(func).value;
        && r.value == FunctionWrapper(func.qualname, key)
        && key in all
        && warned == (key in old(all))
        && all == (if key in old(all) then old(all) else old(all)[key := EntryFromObject(func, userLabel).value])
        && order == (if key in old(all) then old(order) else old(order) + [key])
    {
      match FullName(func)
      case Raise(e) =>
        r, warned := Raise(e), false;
      case Ok(key) =>
        warned := key in all;
        if !warned {
          Store(key, EntryFromObject(func, userLabel).value);
        }
        r := Ok(FunctionWrapper(func.qualname, key));
    }

    /** `fun_wrapper(x)`: marks the function's key used (the test of the bare
        qualified name is left out, see `MarkUsedAsWritten`) and returns what
        the function returns. */
    method CallFunction<A, R>(w: FunctionWrapper, f: A -> R, x: A) returns (y: R)
      requires Valid() && w.key in all
      modifies this
      ensures Valid() && all == old(all) && order == old(order)
      ensures used == MarkUsed(old(used), w.key)
      ensures y == f(x)
    {
      used := MarkUsed(used, w.key);
      y := f(x);
    }

    /** `cite_object(obj, label)`: stores an entry for a new key (warns for an
        old one) and marks the key used either way. */
    method CiteObject(obj: Thing, userLabel: Option<string>) returns (r: Result<string>, warned: bool)
      requires Valid()
      modifies this
      ensures Valid()
      ensures r == FullName(obj)
      ensures r.Raise? ==> all == old(all) && order == old(order) && used == old(used) && !warned
      ensures r.Ok? ==> var key := r.value;
        && warned == (key in old(all))
        && used == old(used) + {key}
        && all == (if key in old(all) then old(all) else old(all)[key := EntryFromObject(obj, userLabel).value])
        && order == (if key in old(all) then old(order) else old(order) + [key])
    {
      r := FullName(obj);
      warned := false;
      if r.Ok? {
        var key := r.value;
        warned := key in all;
        if !warned {
          Store(key, EntryFromObject(obj, userLabel).value);
        }
        used := used + {key};
      }
    }

    /** `get_all_citations()`: every entry rendered, in insertion order. */
    function AllCitations(): (r: seq<string>)
      requires Valid()
      reads this
      ensures |r| == |order|
      ensures forall i :: 0 <= i < |order| ==> r[i] == Render(all[order[i]])
    {
      var keys, entries := order, all;
      seq(|keys|, i requires 0 <= i < |keys| && keys[i] in entries => Render(entries[keys[i]]))
    }

    /** One rendered entry per key: the list is as long as the dictionary,
        and it holds exactly the renderings of the entries. */
    lemma AllCitationsCoverEntries()
      requires Valid()
      ensures |AllCitations()| == |all|
      ensures forall k :: k in all ==> Render(all[k]) in AllCitations()
    {
      DistinctCardinality(order);
      assert all.Keys == (set k | k in order);
      assert |all| == |all.Keys|;
      forall k | k in all
        ensures Render(all[k]) in AllCitations()
      {
        var i :| 0 <= i < |order| && order[i] == k;
        assert AllCitations()[i] == Render(all[k]);
      }
    }

    /** `get_used_citations()`: the entry of every used name, rendered, in the
        set's iteration order (any order); `keys` is that order. */
    method UsedCitations() returns (r: seq<string>, ghost keys: seq<string>)
      requires Valid()
      ensures Distinct(keys) && (set k | k in keys) == used
      ensures |r| == |keys| == |used|
      ensures forall i :: 0 <= i < |keys| ==> r[i] == Render(all[keys[i]])
      ensures forall k :: k in used ==> Render(all[k]) in r
      ensures forall i :: 0 <= i < |r| ==> exists k :: k in used && r[i] == Render(all[k])
    {
      var names := IterationOrder(used);
      var entries := all;
      r := seq(|names|, i requires 0 <= i < |names| && names[i] in entries => Render(entries[names[i]]));
      keys := names;
      forall k | k in used
        ensures Render(all[k]) in r
      {
        var i :| 0 <= i < |names| && names[i] == k;
        assert r[i] == Render(all[k]);
      }
    }

    /** `reset_used_citations()` */
    method ResetUsedCitations()
      requires Valid()
      modifies this
      ensures Valid() && all == old(all) && order == old(order) && used == {}
    {
      used := {};
    }
  }

  // ---------------------------------------------------------------------------
  // get_all_imports
  // ---------------------------------------------------------------------------

  /** The `skip` flag of `get_all_imports`: the main module, and modules whose
      spec gives an origin of "built-in", "frozen" or one inside
      "Python.framework"; a missing or `None` spec, or a `None` origin, is not
      skipped. */
  predicate IsCommon(m: LoadedModule) {
    if m.name == "__main__" then true
    else if m.spec.Present? && m.spec.value.Some? then
      match m.spec.value.value.origin
      case None => false
      case Some(origin) =>
        origin == "built-in" || origin == "frozen" || Contains(origin, "Python.framework")
    else false
  }

  /** Whether the loop appends a module's name. */
  predicate Kept(m: LoadedModule, skipCommon: bool, useKeywords: bool) {
    && (!skipCommon || !IsCommon(m))
    && (useKeywords && m.doc.Present? ==> HasCitationKeyword(m.doc.value))
  }

  function KeepFilter(skipCommon: bool, useKeywords: bool): (keep: LoadedModule -> bool)
    ensures forall m :: keep(m) == Kept(m, skipCommon, useKeywords)
  {
    m => Kept(m, skipCommon, useKeywords)
  }

  /** What `get_all_imports(skip_common, use_keywords)` returns. */
  function ImportsOf(modules: seq<LoadedModule>, skipCommon: bool, useKeywords: bool): (r: seq<string>)
    ensures |r| <= |modules|
  {
    KeptNames(modules, KeepFilter(skipCommon, useKeywords))
  }

  /** `get_all_imports`: the loop over `sys.modules`. */
  method AllImports(modules: seq<LoadedModule>, skipCommon: bool, useKeywords: bool) returns (imports: seq<string>)
    ensures imports == ImportsOf(modules, skipCommon, useKeywords)
  {
    ghost var keep := KeepFilter(skipCommon, useKeywords);
    imports := [];
    for i := 0 to |modules|
      invariant imports == KeptNames(modules[..i], keep)
    {
      var m := modules[i];
      var skip := false;
      if m.name == "__main__" {
        skip := true;
      } else if m.spec.Present? && m.spec.value.Some? {
        var origin := m.spec.value.value.origin;
        if origin.None? {
          skip := false;
        } else if origin.value == "built-in" {
          skip := true;
        } else if origin.value == "frozen" {
          skip := true;
        } else if Contains(origin.value, "Python.framework") {
          skip := true;
        }
      }
      assert skip == IsCommon(m);
      assert modules[..i + 1][..i] == modules[..i];
      if !skipCommon || !skip {
        if useKeywords && m.doc.Present? {
          if HasCitationKeyword(m.doc.value) {
            imports := imports + [m.name];
          }
        } else {
          imports := imports + [m.name];
        }
      }
    }
    assert modules[..|modules|] == modules;
  }

  /** A name is listed exactly when a module of that name passes the filter. */
  lemma ImportsMembership(modules: seq<LoadedModule>, skipCommon: bool, useKeywords: bool, x: string)
    ensures x in ImportsOf(modules, skipCommon, useKeywords) <==>
            exists i :: 0 <= i < |modules| && modules[i].name == x && Kept(modules[i], skipCommon, useKeywords)
  {
    KeptNamesMembership(modules, KeepFilter(skipCommon, useKeywords), x);
  }

  /** With both filters off every module is listed, `__main__` included, in
      order. */
  lemma ImportsUnfiltered(modules: seq<LoadedModule>)
    ensures ImportsOf(modules, false, false) == Names(modules)
  {
    KeptNamesAll(modules, KeepFilter(false, false));
  }

  /** Skipping common modules leaves out `__main__`, built-in, frozen and
      framework modules, since the names of `sys.modules` are unique. */
  lemma CommonModulesSkipped(modules: seq<LoadedModule>, useKeywords: bool, i: int)
    requires forall a, b :: 0 <= a < b < |modules| ==> modules[a].name != modules[b].name
    requires 0 <= i < |modules| && IsCommon(modules[i])
    ensures modules[i].name !in ImportsOf(modules, true, useKeywords)
  {
    ImportsMembership(modules, true, useKeywords, modules[i].name);
  }

  /** A module whose spec has no origin is not common. */
  lemma NoOriginNotCommon(m: LoadedModule)
    requires m.name != "__main__" && m.spec == Present(Some(ModuleSpec(None)))
    ensures !IsCommon(m)
  {
  }

  /** Both filters only remove names: each listing is a subsequence of the
      unfiltered one and of the one without the keyword test, and no longer. */
  lemma FiltersOnlyRemove(modules: seq<LoadedModule>, skipCommon: bool)
    ensures IsSubsequence(ImportsOf(modules, skipCommon, true), ImportsOf(modules, skipCommon, false))
    ensures IsSubsequence(ImportsOf(modules, true, false), ImportsOf(modules, false, false))
    ensures |ImportsOf(modules, skipCommon, true)| <= |ImportsOf(modules, skipCommon, false)|
  {
    KeptNamesMonotone(modules, KeepFilter(skipCommon, true), KeepFilter(skipCommon, false));
    KeptNamesMonotone(modules, KeepFilter(true, false), KeepFilter(false, false));
    SubsequenceLength(ImportsOf(modules, skipCommon, true), ImportsOf(modules, skipCommon, false));
  }

  /** The keyword test passes a module without a `__doc__` attribute and one
      whose docstring names a keyword; it drops one whose docstring is `None`
      or names none. */
  lemma KeywordFilterCases(m: LoadedModule)
    ensures m.doc.Absent? ==> (Kept(m, false, true) <==> Kept(m, false, false))
    ensures m.doc.Present? ==> (Kept(m, false, true) <==> HasCitationKeyword(m.doc.value))
    ensures m.doc == Present(None) ==> !Kept(m, false, true)
  {
  }
}
