# zipwatch schema engine and configuration validator, in Dafny

zipwatch checks the entry names of zip archives against a *schema*. A
schema is a non-empty list of `(regexp, if_then, if_else)` tuples, the
`contentSpec` of a configuration module.

- **Components.** Each tuple becomes a component with a match counter.
- **Evaluating an archive.** Every entry name goes to the components in
  order. The first component whose pattern matches counts the match and
  fires its if-then handler with the entry and the count it has just
  reached. When all entries are done, each component that never matched
  and has a truthy if-else name fires its if-else handler.
- **The configuration file.** It is imported under a namespace: the
  basename of its path without the extension. `verify` checks, failing on
  the first problem:
  - `contentSpec` is a list;
  - each entry has three items, and each truthy handler name in it names a
    function;
  - the six lifecycle functions `preamble`, `setUp`, `tearDown`,
    `epilogue`, `onSummary` and `onError` exist.

The project has five modules:

- `Wrappers`: `Option`, `Result` and `Outcome`.
- `PyValues`: the Python values the code inspects (None, int, str, tuple,
  list, other objects), with truthiness, `len` and indexing. Another
  object carries its own truth value and, when it has one, its `len`, so
  an empty dict, set or bytes is falsy and sized.
- `SchemaSpec`: the pure semantics of building and evaluating a schema,
  with the properties proved about them:
  - `CheckShape`, `RulesOfSpec`;
  - `FirstMatch`, `Scan`, `Reconcile`, `Evaluation`.
- `ZwcSchema`: the two classes of `zwcschema.py`.
  - `Component` updates its `matches` field in place.
  - `Schema` owns the components and keeps a ghost mirror of their
    counters.
  - Their methods have loops, and each is proved equal to the
    `SchemaSpec` function it implements.
- `ZwcConfig`: the configuration file of `zwcconfig.py`.
  - It is a value: nothing in it changes after it is opened.
  - The module's symbols are a registry from names to what they are bound
    to: a function, a list, or something else.
  - `Verify` is a fail-fast loop proved equal to `VerifySpec`.

Three things become explicit in the model:

- **Regular-expression matching** is a parameter `m: (pattern, name) ->
  bool`. Every property holds for any matcher.
- **Handler calls** are returned as a trace of events.
  - `IfThen(i, entry, matches)` is a call to component i's if-then
    handler, with the entry name and the count after the increment.
  - `IfElse(i)` is a call to component i's if-else handler.
- **Errors.** Each `sys.exit(1)` becomes an error value naming the failed
  check.

Where the code and its documentation disagree, the model follows the code:

- The mandatory function is `setUp`, as in `zipwatch/zwcconfig.py:170`,
  although the docstring at line 133 says `setup`.
- The if-then handler is called on every match, with no test of its name
  (`zipwatch/zwcschema.py:227`). The if-else handler is guarded by a
  truthiness test (line 235).

## Model

| member | source | states |
|---|---|---|
| ZwcSchema.Component.constructor | zipwatch/zwcschema.py:31-50 | the component stores the config file, pattern and both handler names as given, and starts with zero matches |
| ZwcSchema.Component.GetRegexp | zipwatch/zwcschema.py:64-67 | returns the component's pattern |
| ZwcSchema.Component.GetMatches | zipwatch/zwcschema.py:70-73 | returns the component's current match count |
| ZwcSchema.Component.SetMatches | zipwatch/zwcschema.py:76-79 | the match count becomes the given value, and nothing else of the component changes |
| ZwcSchema.Component.Evaluate | zipwatch/zwcschema.py:82-97 | returns true iff the pattern matches the entry; the count grows by exactly one on a match and is unchanged otherwise |
| SchemaSpec.ItemError | zipwatch/zwcschema.py:170-177 | an item is accepted iff it is a tuple of three; a non-tuple is reported as such before its arity is looked at |
| SchemaSpec.FirstItemError | zipwatch/zwcschema.py:170-177 | no error iff every item from k on is a three-tuple; otherwise the reported item is the first ill-shaped one, and all before it are well shaped |
| SchemaSpec.CheckShape | zipwatch/zwcschema.py:158-177 | the schema passes iff it is a non-empty list of three-tuples; a non-list, the empty list and the first bad item are each reported as such, in that order of precedence |
| ZwcSchema.ValidateShape | zipwatch/zwcschema.py:158-177 | the checking loop reports exactly what CheckShape reports |
| SchemaSpec.RulesOfSpec | zipwatch/zwcschema.py:183-188 | one rule per tuple, in order, made of the tuple's items 0, 1 and 2 |
| ZwcSchema.Schema.constructor | zipwatch/zwcschema.py:179-188 | builds one fresh, distinct component per tuple, in tuple order, each with zero matches; the schema and every component keep the given config file |
| ZwcSchema.Schema.Create | zipwatch/zwcschema.py:147-188 | fails iff the shape checks fail, with the first failing check, before any component is built; otherwise gives a fresh schema with the rules of the list, zero counts and the given config file in the schema and every component |
| SchemaSpec.FirstNonString | zipwatch/zwcschema.py:210-213 | no result iff every item from k on is a string; otherwise the first non-string position |
| SchemaSpec.ContentsError | zipwatch/zwcschema.py:204-213 | contents are accepted iff they are a list of strings; a non-list is reported, else the first non-string item |
| ZwcSchema.CheckContents | zipwatch/zwcschema.py:204-213 | the checking loop reports exactly what ContentsError reports |
| SchemaSpec.Step | zipwatch/zwcschema.py:220-228 | an entry with no matching component leaves the state unchanged; a first match at component f adds one to f's count and appends exactly one if-then call for f, with the entry and the new count |
| SchemaSpec.Scan | zipwatch/zwcschema.py:218-228 | the scan of the entries keeps one counter per component |
| SchemaSpec.FirstMatch | zipwatch/zwcschema.py:218-228 | the index of the lowest component whose pattern matches, or the number of components when none does |
| ZwcSchema.Schema.TestComponent | zipwatch/zwcschema.py:220-223 | testing component j counts a match in j alone and reports the count j has reached |
| ZwcSchema.Schema.ScanEntry | zipwatch/zwcschema.py:220-228 | the inner loop stops at the first matching component: the new counters and trace are one Step at FirstMatch, so later components are not tested |
| ZwcSchema.Schema.ScanAll | zipwatch/zwcschema.py:218-228 | the scan loop leaves exactly the counters and if-then calls of Scan over all entries |
| SchemaSpec.FirstMatchWins | zipwatch/zwcschema.py:218-228 | when component i is the first to match entry n, scanning it adds one to i's count, changes no other, and appends an if-then call for i with the new count |
| SchemaSpec.UnmatchedSkipped | zipwatch/zwcschema.py:218-228 | an entry no component matches changes no counter and calls no handler |
| SchemaSpec.ScanCounts | zipwatch/zwcschema.py:218-228 | after n entries each counter is its start plus the number of entries whose first match it is |
| SchemaSpec.ScanTrace | zipwatch/zwcschema.py:218-228 | the scan makes exactly one if-then call per matched entry, in entry order, on that entry's first matching component; there are at most n calls |
| SchemaSpec.ScanRunningCount | zipwatch/zwcschema.py:108-117 | each if-then call gets the component's start count plus its if-then calls so far, this one included; the final counters are the start plus each component's calls |
| SchemaSpec.ScanSum | zipwatch/zwcschema.py:218-228 | the counters grow in total by the number of matched entries, which is at most the number of entries |
| SchemaSpec.MatchedNames | zipwatch/zwcschema.py:218-228 | the matched entries among the first n are at most n |
| SchemaSpec.HitsZero | zipwatch/zwcschema.py:218-228 | a component gets no hits iff it is the first match of none of the entries |
| SchemaSpec.Reconcile | zipwatch/zwcschema.py:230-237 | reconciling the first n components makes at most n calls, all of them if-else calls on those components |
| ZwcSchema.Schema.ReconcileAll | zipwatch/zwcschema.py:230-237 | the reconciliation loop makes exactly the if-else calls of Reconcile, leaving the counters alone |
| SchemaSpec.ReconcileExact | zipwatch/zwcschema.py:230-237 | reconciliation calls if-else once for each component with zero matches and a truthy if-else name, in component order, and for no other |
| SchemaSpec.Evaluation | zipwatch/zwcschema.py:201-237 | an evaluation fails iff the contents check fails, with that error; otherwise it keeps one counter per component |
| ZwcSchema.Schema.Evaluate | zipwatch/zwcschema.py:201-237 | on bad contents nothing is tested and no counter changes; otherwise the counters and handler calls are exactly those of Evaluation |
| SchemaSpec.EvaluationOrder | zipwatch/zwcschema.py:215-237 | every if-then call comes before every if-else call; component i gets an if-else call iff it ends absent, and the if-else calls are in component order, so none is repeated |
| SchemaSpec.IfElseIffAbsent | zipwatch/zwcschema.py:230-237 | component i gets an if-else call iff its count after the scan is zero and its if-else name is truthy |
| SchemaSpec.UnmatchedIffZero | zipwatch/zwcschema.py:218-237 | from zero counts, a component's count after the scan is zero iff it is the first match of no entry |
| SchemaSpec.FreshSchemaAbsent | zipwatch/zwcschema.py:183-237 | for a freshly built schema, component i gets its if-else call iff its if-else name is truthy and it is the first match of no entry |
| ZwcSchema.EvaluateFreshTwice | zipwatch/zwcschema.py:183-237 | two schemas built from the same list and evaluated on the same contents give the same result and the same handler calls |
| ZwcConfig.LastIndexOf | zipwatch/zwcconfig.py:56 | the position of the last occurrence of the character, or -1 when it does not occur |
| ZwcConfig.Basename | zipwatch/zwcconfig.py:56 | the basename is a suffix of the path with no '/' in it, and a '/' comes right before it whenever it is not the whole path |
| ZwcConfig.StripExtension | zipwatch/zwcconfig.py:56 | splitext's root is a prefix of the name; when it is shorter, the name continues with the last dot, and the root is not made of dots only |
| ZwcConfig.Namespace | zipwatch/zwcconfig.py:56 | for every path the namespace is a prefix of the basename and holds no '/' |
| ZwcConfig.Open | zipwatch/zwcconfig.py:34-56 | the configuration keeps the path as given and the module's symbols, and its namespace is the path's namespace: a prefix of the basename with no '/' |
| ZwcConfig.ConfigFile.GetConfigFile | zipwatch/zwcconfig.py:69-72 | returns the path the configuration was opened with |
| ZwcConfig.ConfigFile.GetNamespace | zipwatch/zwcconfig.py:75-78 | returns the namespace computed when the configuration was opened |
| ZwcConfig.ConfigFile.CheckList | zipwatch/zwcconfig.py:93-103 | holds only for a name bound to a list; an undefined name fails, and a name that passes is not a function |
| ZwcConfig.ConfigFile.CheckFunction | zipwatch/zwcconfig.py:106-119 | holds only for a name bound to a function; an undefined name fails |
| ZwcConfig.ConfigFile.VerifySpec | zipwatch/zwcconfig.py:122-174 | contentSpec missing is reported iff contentSpec is not a list; an entry error names an entry of contentSpec with every entry before it valid; a missing function is a mandatory name that is not a function |
| ZwcConfig.StripLastExtension | zipwatch/zwcconfig.py:56 | splitext drops the text from the last dot when the name before it is not all dots |
| ZwcConfig.BasenameAfter | zipwatch/zwcconfig.py:56 | the basename of a path is the part after its last '/' |
| ZwcConfig.OpenNamesModule | zipwatch/zwcconfig.py:34-56 | opening "dir/name.ext" keeps the path as given, and its namespace is name: the directory and the last extension are dropped |
| ZwcConfig.LeadingDotKept | zipwatch/zwcconfig.py:56 | a file name whose only dot is its first character has no extension: ".name" keeps the namespace ".name" |
| ZwcConfig.NamespaceExample | zipwatch/zwcconfig.py:38-78 | "dir/conf.py" gives the namespace "conf", and getConfigFile returns "dir/conf.py" |
| ZwcConfig.ConfigFile.GetList | zipwatch/zwcconfig.py:81-90 | the items returned are those of the list the name is bound to |
| ZwcConfig.ChecksFollowBinding | zipwatch/zwcconfig.py:93-119 | checkList holds iff the name is bound to a list, checkFunction iff it is bound to a function; an undefined name is neither, and no name is both |
| ZwcConfig.ConfigFile.EntryError | zipwatch/zwcconfig.py:150-167 | no error iff the entry is a string, tuple or list of three items and each truthy handler name is a function; an unsized entry, a wrong length and a three-item object that cannot be indexed by position are reported first, in that order, with the entry's position |
| ZwcConfig.ConfigFile.FirstEntryError | zipwatch/zwcconfig.py:150-167 | no error iff every entry from k on is valid; otherwise the first invalid entry's own error, with all entries before it valid |
| ZwcConfig.ConfigFile.FirstMissing | zipwatch/zwcconfig.py:169-174 | no error iff every name from k on is a function; otherwise the first name that is not |
| ZwcConfig.ConfigFile.Verify | zipwatch/zwcconfig.py:122-174 | the fail-fast loops return exactly VerifySpec: contentSpec first, then the entries in order, then the mandatory names in order |
| ZwcConfig.VerifyPassIff | zipwatch/zwcconfig.py:122-174 | verify passes iff contentSpec is a list, every entry is valid and all six mandatory names are functions |
| ZwcConfig.MissingContentSpecFirst | zipwatch/zwcconfig.py:144-147 | without a contentSpec list, that is the error, whatever else is defined |
| ZwcConfig.FirstBadEntryReported | zipwatch/zwcconfig.py:150-154 | the first invalid entry's error is the one reported; an entry whose length is not 3 is reported for its size |
| ZwcConfig.UnresolvedIfThenReported | zipwatch/zwcconfig.py:156-161 | a truthy if-then name that is not a function is reported, after the entries before it pass, whatever follows |
| ZwcConfig.UnresolvedIfElseReported | zipwatch/zwcconfig.py:163-167 | a truthy if-else name that is not a function is reported once the entry's if-then name passes |
| ZwcConfig.FalsyHandlersSkipped | zipwatch/zwcconfig.py:156-167 | falsy handler names are not looked up: a three-item entry with both names falsy is valid in any registry |
| ZwcConfig.FirstMissingFunctionReported | zipwatch/zwcconfig.py:169-174 | once the entries pass, the first mandatory name that is not a function is reported |
| ZwcConfig.EntriesIgnoreUnreferenced | zipwatch/zwcconfig.py:149-167 | rebinding a name changes no entry's verdict unless the entry names it as a handler |
| ZwcConfig.MissingIgnoresOthers | zipwatch/zwcconfig.py:169-174 | rebinding a name outside the checked names leaves the first missing one unchanged |
| ZwcConfig.VerifyIgnoresUnreferenced | zipwatch/zwcconfig.py:122-174 | a name that is not contentSpec, not mandatory and no entry's handler does not affect verify |
| ZwcConfig.OnAbortOptional | zipwatch/zwcconfig.py:169-174 | onAbort is not required: defining it or not, as anything, leaves verify's result unchanged when no entry names it |

## Left out

- Handler execution. `executeIfThen`, `executeIfElse`, `onError`, `execute` and `__getattr__` import the configuration module and run code in it with `exec`. The model records each call as an event, and what the handler does is not modelled.
  - The trace is that of a run in which every handler returns. A handler that raises, as the sample configurations' handlers do when they call `sys.exit`, ends `evaluate`; the calls the source makes are then a prefix of the trace.
  - An empty if-then name, which `verify` accepts, would make the built command malformed at run time. The model records the call anyway, as the code makes it.
- Regular expressions. Matching is the parameter `m`. The exception that `re.match` raises on a malformed pattern, or on a pattern that is not a string, is not modelled.
- The zipstream. The `isinstance(zipstream, zipfile.ZipFile)` check in the schema constructor, and the zipstream passed to if-then handlers, are left out: archives are not modelled.
- Printing and `sys.exit(1)`. They become error values carrying the failed check. The printed messages are not modelled.
- The `__str__` methods of both classes only format text and are not modelled.
- The file-existence check of the configuration constructor (`Path.resolve(strict=True)`) is file-system I/O. `Open` assumes the file exists.
- Importing the configuration module. Its top-level names are given as a registry instead.
  - A handler name that is not a Python identifier would make the built command fail, and the registry lookup does not model that failure.
  - A truthy handler name that is not a string would raise inside the built command. It is reported as unresolved (`MissingIfThen`/`MissingIfElse`).
- Objects other than strings, tuples and lists, such as bytes, dicts and sets. When such an entry of `contentSpec` has length 3, it is reported as `UnindexedEntry`. The source indexes it instead: a set raises `TypeError`, a dict looks up the keys 1 and 2, and bytes give integers. The items and keys of such objects are not modelled.
- ZwcSchema.Schema.constructor: requires a list that passes the shape checks, where the source prints and exits. `ZwcSchema.Schema.Create` models that error path.
- ZwcConfig.ConfigFile.GetList: requires the name to be bound to a list. The source documents the result as undefined otherwise.
- Integer width is not modelled: Python's match counters are unbounded, as Dafny's `int` is.
- The rest of the repository is not part of this model: `zipwatch/zipdog.py`, the sample configurations `conf.py`, `conf1.py` and `odsconf2.py`, `setup.py` and `zwcversion.py`.
