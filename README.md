# citation-compass, modelled in Dafny

`citation-compass` keeps track of the citations a Python package asks its
users to make. The model covers three parts of it.

- **The docstring scanner** (`docstring_utils.py`) has two functions:
  - a case-insensitive test for any of eight citation keywords;
  - `extract_citation`. It finds the first stripped line that begins with a
    `keyword:` header. It takes the rest of that line and the non-blank lines
    that follow, joins them with single spaces and strips the result.
- **The citation registry** (`citation.py`) keeps two globals:
  - `CITATION_REGISTRY_ALL`, an insertion-ordered dictionary from a key to a
    `CitationEntry`;
  - `CITATION_REGISTRY_USED`, the set of keys that were used.

  `cite_module`, the `CiteClass` base class, the `cite_function` decorator and
  `cite_object` fill them. Calling a wrapped function or building an object of
  a cited class marks its key used. `get_all_citations`,
  `get_used_citations` and `reset_used_citations` read and clear them.
  `get_all_imports` lists the loaded modules, optionally leaving out the
  common ones and those whose docstring names no keyword.
- **The earlier function-only registry** (`cite_by_function/citation_utils.py`)
  follows different rules:
  - keys are the bare `__qualname__`;
  - a label wins over the docstring;
  - duplicates are ignored silently;
  - the import lister raises on unusual module specs.

The Dafny modules follow that structure:

| module | file | what it holds |
|---|---|---|
| `Wrappers` | `wrappers.dfy` | `Option`, `Result`, the Python exceptions, `Attr`. `Attr` says whether an attribute exists at all, which is a different thing from its value being `None`. |
| `Text` | `text.dfy` | The ASCII parts of `str` the scanner uses: `isspace`, `lower`, `strip`, `split("\n")`, `startswith`, `in`. |
| `Runtime` | `runtime.dfy` | The entries of `sys.modules` as a sequence of descriptors, the order-preserving filter that an append-per-module loop builds, and iteration over a Python set. |
| `DocstringUtils`, `DocstringExamples` | `docstring_utils.dfy` | The model of `docstring_utils.py` and worked examples from its tests. |
| `Citation` | `citation.dfy` | The model of `citation.py`. |
| `CiteByFunction` | `citation_utils.dfy` | The model of `cite_by_function/citation_utils.py`. |

How the model is structured:
- **`extract_citation`** is a method with the source's loops:
  - the indexed loop over lines;
  - the inner loop over the header *set*, taken in an arbitrary order;
  - the `while` loop that appends following lines.

  It is proved equal to a functional specification, `ExtractedCitation`, and
  the properties are lemmas about that function.
- **The two registries** are classes with three fields: `order` (the keys in
  the dictionary's insertion order), `all` (the dictionary) and `used` (the
  set). Each operation is a method that states its whole new state and keeps
  `Valid()`. `Valid()` requires that `order` lists every key once and that
  every used key has an entry, so `get_used_citations` cannot hit a
  `KeyError`.
- **The import listers** are `for` loops proved equal to filter functions.

The model follows the code wherever the code and its description differ:
- **The character after the header's colon.** The header line is sliced at
  `len(header) + 1`, so the character right after the colon is dropped
  whatever it is (see `DocstringExamples.NoSpaceAfterColon`).
- **`cite_module` and empty blocks.** `cite_module` falls back to the raw
  docstring when the extracted block is `None` *or empty*.
- **`from_object` and empty blocks.** `from_object` falls back to the raw
  docstring only when the block is `None`.

## Model

| member | source | states |
|---|---|---|
| DocstringUtils.KeywordsAreWords | src/citation_compass/docstring_utils.py:3-12 | the eight keywords are non-empty and contain neither a colon nor a line feed |
| DocstringUtils.HasCitationKeyword | src/citation_compass/docstring_utils.py:16-40 | the keyword check is true exactly when the docstring is not `None` and some keyword occurs anywhere in its lower-cased text; `None` and `""` give false |
| DocstringUtils.KeywordInSomeLine | src/citation_compass/docstring_utils.py:36-40 | a keyword occurs in some lower-cased line exactly when it occurs in the lower-cased text |
| DocstringUtils.LowerLines | src/citation_compass/docstring_utils.py:36 | one lower-cased line per piece of `split("\n")`, as many as there are pieces; `KeywordInSomeLine` ties a keyword search over them to the whole text |
| Text.ContainsIffSomeLine | src/citation_compass/docstring_utils.py:36-39 | a key without a line feed occurs in a text exactly when it occurs in one of the text's lines |
| Text.ContainsSomeLine | src/citation_compass/docstring_utils.py:36-39 | a key without a line feed that occurs in the text occurs in some line |
| Text.SomeLineContains | src/citation_compass/docstring_utils.py:36-39 | a key that occurs in one line occurs in the text |
| Text.SplitLower | src/citation_compass/docstring_utils.py:36 | lower-casing and then splitting at line feeds gives the lower-cased pieces |
| Text.JoinSplit | src/citation_compass/docstring_utils.py:71 | joining the pieces of `split("\n")` with line feeds gives back the text |
| Text.SplitHasNoNewline | src/citation_compass/docstring_utils.py:71 | no piece of `split("\n")` contains a line feed |
| Text.SplitSingleLine | src/citation_compass/docstring_utils.py:71 | a text without line feeds splits into itself alone |
| Text.TrimStartDropsSpaces | src/citation_compass/docstring_utils.py:71 | `lstrip` cuts exactly a leading run of whitespace and the result starts with a non-space |
| Text.TrimEndDropsSpaces | src/citation_compass/docstring_utils.py:71 | `rstrip` cuts exactly a trailing run of whitespace and the result ends with a non-space |
| Text.StripIsSlice | src/citation_compass/docstring_utils.py:71 | `strip` returns a slice of the text with only whitespace around it; the slice neither starts nor ends with whitespace |
| Text.StripKeepsCharacters | src/citation_compass/docstring_utils.py:71 | every character of the stripped text is a character of the text |
| Text.Lower | src/citation_compass/docstring_utils.py:36 | `lower()` keeps the length and lower-cases each ASCII letter, leaving every other character alone |
| Text.Strip | src/citation_compass/docstring_utils.py:71 | `strip()` is never longer than its text; `StripIsSlice` says it is the text with only the surrounding whitespace cut |
| Text.Split | src/citation_compass/docstring_utils.py:71 | `split("\n")` always gives at least one piece; `JoinSplit` and `SplitHasNoNewline` say the pieces are the text between the line feeds |
| Text.ContainsAt | src/citation_compass/docstring_utils.py:38 | `k in s` holds exactly when `k` is the slice of `s` at some offset |
| DocstringUtils.HeaderOf | src/citation_compass/docstring_utils.py:75-76 | the header a line begins with, ignoring case, is never empty; `HeaderOfSound` and `HeaderOfUnique` tie it to the header set both ways |
| DocstringUtils.StrippedLines | src/citation_compass/docstring_utils.py:71 | one stripped line per piece of `split("\n")` |
| DocstringUtils.HeaderOfSound | src/citation_compass/docstring_utils.py:75-76 | a header found for a line is one of `_CITATION_SECTION_HEADERS` and begins the lower-cased line |
| DocstringUtils.HeaderOfUnique | src/citation_compass/docstring_utils.py:75-76 | a line whose lower-cased form begins with a header of the set has that header found for it |
| DocstringUtils.HeadersPrefixFree | src/citation_compass/docstring_utils.py:13 | no two headers of the set begin the same line, so the set's iteration order does not matter |
| DocstringUtils.FindHeader | src/citation_compass/docstring_utils.py:75-76 | searching the header set in any order finds the header the line begins with, or none |
| DocstringUtils.LineHeaders | src/citation_compass/docstring_utils.py:74-76 | one header (or none) per line, in order |
| DocstringUtils.FirstHeaderIndex | src/citation_compass/docstring_utils.py:74-76 | the index of the first line with a header: that line has one, no earlier line does, and it is the line count when none has one |
| DocstringUtils.BlockLength | src/citation_compass/docstring_utils.py:83 | the number of non-blank lines before the first blank one |
| DocstringUtils.AfterHeader | src/citation_compass/docstring_utils.py:80 | `line[n + 1:]`: everything after the `n`-character header and one more character, or `""` when the line is no longer than that |
| DocstringUtils.SpaceJoined | src/citation_compass/docstring_utils.py:82-85 | the lines in order, each preceded by a single space: the text the `while` loop accumulates (`JoinFollowingLines`) |
| DocstringUtils.BlockAfter | src/citation_compass/docstring_utils.py:83-85 | the lines after line `i` up to, not including, the first blank one, or to the end |
| DocstringUtils.FirstSection | src/citation_compass/docstring_utils.py:74-85 | the first line with a header, that header and the block after it, or none when no line has a header (`FirstSectionFromLines`, `LeadingHeaderless`, `TrailingAfterBlank`) |
| DocstringUtils.SectionText | src/citation_compass/docstring_utils.py:80-87 | the header line after its header and one more character, followed by the space-joined block, stripped (`SectionTextIsTrimmedLine`) |
| DocstringUtils.CitationFromLines | src/citation_compass/docstring_utils.py:74-88 | the citation of the first header line of the stripped lines, or `None` (`FirstHeaderLine`, `NoHeaderLine`, `LeadingLinesIgnored`, `TrailingLinesIgnored`) |
| DocstringUtils.JoinFollowingLines | src/citation_compass/docstring_utils.py:82-85 | the `while` loop appends `" " + line` for exactly the non-blank lines from `start` up to the first blank line |
| DocstringUtils.CitationInLines | src/citation_compass/docstring_utils.py:74-88 | the `for` loop returns the stripped citation of the first header line, or `None` |
| DocstringUtils.FirstHeaderLine | src/citation_compass/docstring_utils.py:74-87 | when line `i` is the first with a header, the citation is built from that line, its header and the block after it |
| DocstringUtils.NoHeaderLine | src/citation_compass/docstring_utils.py:74-88 | when no line has a header, there is no citation |
| DocstringUtils.ExtractCitation | src/citation_compass/docstring_utils.py:43-88 | `extract_citation` returns exactly `ExtractedCitation(docstring)` |
| DocstringUtils.ExtractedCitation | src/citation_compass/docstring_utils.py:68-69 | the reference definition of `extract_citation`; `None` and `""` give `None` |
| DocstringUtils.ExtractedNoneIffNoHeader | src/citation_compass/docstring_utils.py:68-88 | the result is `None` exactly when the docstring is `None` or empty, or no stripped line begins (ignoring case) with a header |
| DocstringUtils.LeadingLinesIgnored | src/citation_compass/docstring_utils.py:74-76 | lines without a header in front of the others do not change the result: the first header line wins |
| DocstringUtils.LeadingHeaderless | src/citation_compass/docstring_utils.py:74-76 | for any header test, lines without a header in front leave the first section unchanged |
| DocstringUtils.TrailingLinesIgnored | src/citation_compass/docstring_utils.py:83-87 | once a blank line ends the first block, anything after it, later headers included, does not change the result |
| DocstringUtils.TrailingAfterBlank | src/citation_compass/docstring_utils.py:83-87 | for any header test, lines after the blank line that ends the first block leave the first section unchanged |
| DocstringUtils.FirstSectionFromLines | src/citation_compass/docstring_utils.py:74-85 | the header line and every block line of the first section are lines of the input |
| DocstringUtils.SectionTextIsTrimmedLine | src/citation_compass/docstring_utils.py:80-87 | a section of lines without line feeds yields a text without line feeds and without whitespace at either end |
| DocstringUtils.ExtractedIsTrimmedLine | src/citation_compass/docstring_utils.py:71-87 | a non-`None` result contains no line feed and has no whitespace at either end |
| DocstringExamples.SingleHeaderLine | src/citation_compass/docstring_utils.py:71-87 | a one-line docstring beginning with header `h` yields the stripped rest of the line after `h` and one more character |
| DocstringExamples.CitationLine | src/citation_compass/docstring_utils.py:71-87 | `"Citation: Author, Title, year."` yields `"Author, Title, year."`; the header matches case-insensitively and the text keeps its case |
| DocstringExamples.NoSpaceAfterColon | src/citation_compass/docstring_utils.py:80 | `"Citation:Author"` yields `"uthor"`: the character after the colon is dropped whatever it is |
| Citation.BaseName | src/citation_compass/citation.py:32-40 | the base name is `__qualname__` if present, else `__name__`, else the class's `__qualname__` (possibly missing); there is none exactly when all three are missing |
| Citation.FullName | src/citation_compass/citation.py:18-45 | `ValueError` exactly when there is no base name; otherwise the base name alone without a module, or exactly `"<module>." + base` with one; the key always ends with the base name |
| Citation.FullNameSeparatesBases | src/citation_compass/citation.py:42-45 | two things of the same module with different base names get different keys |
| Citation.NewEntry | src/citation_compass/citation.py:63-72 | a non-`None` citation is kept verbatim (even `""`); otherwise a non-empty label; otherwise `"No citation provided."`; the key and label are stored as given |
| Citation.Render | src/citation_compass/citation.py:79-80 | `str(entry)` is the key, `": "` and the citation |
| Citation.RenderInjective | src/citation_compass/citation.py:79-80 | for keys without a colon, the rendered text determines both the key and the citation |
| Citation.ObjectDoc | src/citation_compass/citation.py:102-107 | the docstring read is the object's `__doc__`, else its class's `__doc__`, else `""` |
| Citation.DocCitation | src/citation_compass/citation.py:108-110 | the citation text is the extracted block when there is one, else the whole docstring; it is `None` exactly when the docstring is |
| Citation.EntryFromObject | src/citation_compass/citation.py:86-118 | `from_object` raises exactly when the name cannot be determined, and otherwise builds the entry from the full name, the docstring citation and the label |
| Citation.DocstringOverridesLabel | src/citation_compass/citation.py:101-117 | any non-`None` docstring, even an empty one, decides the citation whatever the label |
| Citation.LabelWithoutDocstring | src/citation_compass/citation.py:108-117 | with a `None` docstring a non-empty label becomes the citation, and no label gives the fallback text |
| Citation.HeaderDocstringEntry | src/citation_compass/citation.py:101-118 | an object whose docstring is `"Citation: Author, Title, year."` gets `"Author, Title, year."` whatever the label |
| Citation.Lookup | src/citation_compass/citation.py:132-133 | `sys.modules[name]` is a loaded module of that name, and is missing only when no module has that name |
| Citation.ModuleCitation | src/citation_compass/citation.py:132-137 | an explicit citation is used as given; an unknown module, or one without `__doc__`, leaves it `None` |
| Citation.ModuleDocstringCitation | src/citation_compass/citation.py:134-137 | a loaded module's non-empty extracted block is used; a `None` or empty block falls back to the raw docstring |
| Citation.UnknownModuleFallback | src/citation_compass/citation.py:132-139 | a module that is not loaded and has no explicit citation is cited with `"No citation provided."` |
| Citation.MarkUsedAsWritten | src/citation_compass/citation.py:197-200 | the as-written check raises `AttributeError` exactly without a `__qualname__`; otherwise it adds the full name exactly when the bare `__qualname__` is not yet used |
| Citation.AsWrittenMissesQualifiedKey | src/citation_compass/citation.py:199-200 | with `"f"` already used, calling function `m.f` leaves `"m.f"` unused, although the intended bookkeeping marks it |
| Citation.AsWrittenAgreesWithoutModule | src/citation_compass/citation.py:199-200 | when no module is found, the key is the bare qualified name, and the as-written and intended bookkeeping agree |
| Citation.MarkUsed | src/citation_compass/citation.py:197-200 | after a call the function's key is used and no other key changes |
| Citation.MarkUsedIdempotent | src/citation_compass/citation.py:197-200 | calling twice marks the same keys as calling once, and an already-used key changes nothing |
| Citation.Registry.constructor | src/citation_compass/citation.py:14-15 | both registries start empty |
| Citation.Registry.Valid | src/citation_compass/citation.py:256 | the invariant every operation keeps: `order` lists each key of the dictionary once, every used key has an entry (so `get_used_citations` never raises `KeyError`), and every entry is filed under its own key |
| Citation.Registry.Store | src/citation_compass/citation.py:139 | a dictionary assignment: a new key goes to the end of the order, and an existing key keeps its place with the new entry |
| Citation.Registry.CiteModule | src/citation_compass/citation.py:121-140 | `cite_module` writes the module's entry, overwriting an existing one in its old position, and marks the name used |
| Citation.Registry.RegisterClass | src/citation_compass/citation.py:149-171 | the first class of a key stores its entry built from the class; a duplicate leaves the registry unchanged and warns; nothing is marked used |
| Citation.Registry.Instantiate | src/citation_compass/citation.py:165-169 | building an object adds the wrapper's keys to the used set and changes nothing else; repeating it changes nothing |
| Citation.Registry.CiteFunction | src/citation_compass/citation.py:174-214 | the first function of a key stores its entry built from the function and the label; a duplicate leaves the registry unchanged and warns; the wrapper is returned either way; nothing is marked used |
| Citation.Registry.CallFunction | src/citation_compass/citation.py:197-201 | a call marks the function's full name used, leaves the dictionary alone and returns the function's result |
| Citation.Registry.CiteObject | src/citation_compass/citation.py:217-233 | the first object of a key stores its entry and a duplicate only warns; the key is marked used either way |
| Citation.Registry.AllCitations | src/citation_compass/citation.py:236-245 | one `"<key>: <citation>"` per entry, in insertion order |
| Citation.Registry.AllCitationsCoverEntries | src/citation_compass/citation.py:244 | the list is as long as the dictionary and holds the rendering of every entry |
| Citation.Registry.UsedCitations | src/citation_compass/citation.py:248-257 | as many strings as used keys; the rendering of every used key's entry is there, and every string is the rendering of some used key's entry; each used key once, in the set's iteration order |
| Citation.Registry.ResetUsedCitations | src/citation_compass/citation.py:260-262 | the used set becomes empty and the dictionary is unchanged |
| Citation.AllImports | src/citation_compass/citation.py:265-305 | the loop lists, in order, the names of exactly the modules the skip and keyword filters keep |
| Citation.ImportsOf | src/citation_compass/citation.py:281-305 | the names of the accepted modules, in order, never more names than modules; `ImportsMembership` says which are accepted |
| Citation.IsCommon | src/citation_compass/citation.py:283-297 | the `skip` flag: `__main__`, or a present non-`None` spec whose origin is `"built-in"`, `"frozen"` or contains `"Python.framework"`; `CommonModulesSkipped` and `NoOriginNotCommon` state its effect |
| Citation.Kept | src/citation_compass/citation.py:299-304 | a module is appended when it is not skipped (or skipping is off) and, when the keyword test is on and it has a `__doc__`, that docstring names a keyword; `KeywordFilterCases` states the cases |
| Citation.ImportsMembership | src/citation_compass/citation.py:282-305 | a name is listed exactly when some module of that name passes the filters |
| Citation.ImportsUnfiltered | src/citation_compass/citation.py:299-304 | with both filters off every name is listed in order, `__main__` included |
| Citation.CommonModulesSkipped | src/citation_compass/citation.py:283-299 | with `skip_common`, `__main__` and modules whose origin is `"built-in"`, `"frozen"` or contains `"Python.framework"` are not listed |
| Citation.NoOriginNotCommon | src/citation_compass/citation.py:289-291 | a module whose spec has a `None` origin is not skipped |
| Citation.FiltersOnlyRemove | src/citation_compass/citation.py:299-304 | the keyword test and the skip test only remove names: each listing is a subsequence of the less filtered one, and no longer |
| Citation.KeywordFilterCases | src/citation_compass/citation.py:300-304 | the keyword test keeps a module without `__doc__`, keeps a module with a `__doc__` exactly when the docstring names a keyword, and so drops one whose `__doc__` is `None` |
| Runtime.KeptNamesMembership | src/citation_compass/citation.py:281-305 | an append-per-accepted-module loop lists a name exactly when a module of that name is accepted |
| Runtime.KeptNames | src/citation_compass/citation.py:281-305 | the list an append-per-accepted-module loop builds is never longer than the module list |
| Runtime.KeptNamesAll | src/citation_compass/citation.py:281-305 | a filter that accepts every module lists every name in order |
| Runtime.KeptNamesMonotone | src/citation_compass/citation.py:281-305 | a filter that accepts fewer modules lists a subsequence of the names |
| Runtime.KeptNamesSubsequence | src/citation_compass/citation.py:281-305 | every listing is a subsequence of the module names |
| Runtime.SubsequenceLength | src/citation_compass/citation.py:281-305 | a subsequence is never longer |
| Runtime.IterationOrder | src/citation_compass/citation.py:256 | iterating a set visits every element exactly once |
| CiteByFunction.NewEntry | src/cite_by_function/citation_utils.py:24-35 | a non-empty label wins, then a non-empty docstring kept whole, then `"No citation provided."`; the name, docstring and label are stored as given |
| CiteByFunction.CitationNonEmpty | src/cite_by_function/citation_utils.py:29-35 | the stored citation is never empty |
| CiteByFunction.Render | src/cite_by_function/citation_utils.py:40-41 | `str(entry)` is the bare qualified name, `": "` and the citation |
| CiteByFunction.Registry.constructor | src/cite_by_function/citation_utils.py:5-6 | both registries start empty |
| CiteByFunction.Registry.Valid | src/cite_by_function/citation_utils.py:105-107 | the same invariant: each recorded name listed once in order, every used name recorded (so `get_used_citations` never raises `KeyError`), every entry filed under its own name |
| CiteByFunction.Registry.Decorate | src/cite_by_function/citation_utils.py:61-77 | the first function of a qualified name is recorded at the end of the order; a later one of the same name changes nothing and raises nothing; decorating never touches the used set |
| CiteByFunction.Registry.Call | src/cite_by_function/citation_utils.py:62-66 | a call adds the qualified name to the used set (a repeated call changes nothing) and returns the function's result |
| CiteByFunction.Registry.AllCitations | src/cite_by_function/citation_utils.py:82-93 | one rendered entry per recorded name, in insertion order, covering every entry |
| CiteByFunction.Registry.UsedCitations | src/cite_by_function/citation_utils.py:96-107 | as many strings as used names; the rendering of every used name's entry is there, and every string is the rendering of some used name's entry; each used name once, in the set's iteration order |
| CiteByFunction.Registry.ResetUsedCitations | src/cite_by_function/citation_utils.py:110-112 | the used set becomes empty and the dictionary is unchanged |
| CiteByFunction.SkipFlag | src/cite_by_function/citation_utils.py:130-142 | `__main__` is skipped; a missing `__spec__` raises `AttributeError`; a `None` spec is kept; a `None` origin raises `TypeError`; any other origin is skipped exactly when it is `"built-in"`, `"frozen"` or contains `"Python.framework"` |
| CiteByFunction.AllImports | src/cite_by_function/citation_utils.py:115-146 | the loop returns the listing or the exception that `ImportsOf` prescribes |
| CiteByFunction.ImportsOf | src/cite_by_function/citation_utils.py:128-146 | the listing or the first exception, the listing never longer than the module list; `ImportsOkIffNoRaise` and `ImportsRaiseFirst` say which |
| CiteByFunction.Kept | src/cite_by_function/citation_utils.py:144-145 | a module is appended unless skipping is on and its flag says skip; `SkippingOnlyRemoves` and `CommonModulesSkipped` state its effect |
| CiteByFunction.RaiseOnPrefix | src/cite_by_function/citation_utils.py:129-142 | an exception raised on the first modules is the exception of the whole loop |
| CiteByFunction.ImportsOkIffNoRaise | src/cite_by_function/citation_utils.py:128-146 | the lister succeeds exactly when no module's flag raises, and then lists, in order, the names the skip filter keeps |
| CiteByFunction.ImportsRaiseFirst | src/cite_by_function/citation_utils.py:129-142 | when it raises, the exception is that of the first module whose flag raises |
| CiteByFunction.ImportsUnfiltered | src/cite_by_function/citation_utils.py:144-145 | without skipping, a run that does not raise lists every name in order |
| CiteByFunction.CommonModulesSkipped | src/cite_by_function/citation_utils.py:130-145 | with skipping, a run that does not raise leaves out `__main__` and the modules whose origin is `"built-in"`, `"frozen"` or contains `"Python.framework"` |
| CiteByFunction.SkippingOnlyRemoves | src/cite_by_function/citation_utils.py:144-145 | if the unskipped run succeeds, so does the skipped one, and it lists a subsequence of the names |

## Left out

- Python reflection (`hasattr`, `inspect.getmodule`, `__qualname__`, `__doc__`, `__class__`) is replaced by a `Thing` record of the attributes that are read.
- `sys.modules` is replaced by a sequence of `LoadedModule` descriptors in the dictionary's order.
- `logging.warning` is replaced by the `warned` result of the registering methods.
- `functools.wraps` is left out. A wrapped function is an abstract `A -> R` value applied to one argument, which stands for the forwarded `*args, **kwargs`.
- CiteByFunction.Registry.Decorate: every function has a `__qualname__` here, so the `AttributeError` that the decorator and its wrapper raise for a callable without one is not modelled. `citation.py`'s version of that error is modelled by `Citation.MarkUsedAsWritten`.
- `__init_subclass__` replacing `cls.__init__` is modelled as the `ClassWrapper` value that `RegisterClass` returns. `Instantiate` runs it.
- Citation.Registry.RegisterClass: the keys marked by the constructor a subclass inherits are passed in as `inherited`, because the chain of wrapped `__init__` methods is not modelled.
- `cite_function`'s `callable(label)` test is not modelled. The bare `@cite_function` form is `CiteFunction` with no label, which is what the source does with it.
- `extract_urls` and the `urls` field are left out. `citation.py` imports `extract_urls` from `docstring_utils.py`, which does not define it.
- `citation.py` imports `check_for_any_citation_keyword`, which does not exist under that name. The model uses `check_docstring_for_any_keyword` in its place.
- `str.lower`, `str.isspace` and `str.strip` are modelled for ASCII only. Unicode case mapping and Unicode whitespace are left out.
- The order of `get_used_citations` is the iteration order of a Python set. The model leaves that order open and states only that each used key appears exactly once.
- Citation.Registry.CallFunction: it keeps the intended bookkeeping (`MarkUsed`) instead of the as-written test on the bare `__qualname__`. That test is modelled separately; see Findings.
- Concurrency is left out; there is none in the source. Each pair of global registries is one `Registry` object.

## Findings

| source | as written | input that shows it | evidently intended | confidence | as-written member | corrected member |
|---|---|---|---|---|---|---|
| src/citation_compass/citation.py:199-200 | `fun_wrapper` tests whether the bare `func.__qualname__` is used, then adds the full name `module.qualname` | `cite_module("f")` marks `"f"` used; a later call to function `f` of module `m` (key `"m.f"`) never marks `"m.f"` used | test the same full name it adds, so a call always marks the function's key used | not executed | Citation.AsWrittenMissesQualifiedKey | Citation.MarkUsedIdempotent |
