/** The configuration file of zwcconfig.py: the namespace derived from its
    path, and the validation of the symbols the configuration module
    defines. The module's symbols are given as a registry from names to
    what they are bound to, in place of importing and running the module. */
module ZwcConfig {
  import opened Wrappers
  import opened PyValues

  // ---------------------------------------------------------------------
  // The namespace: os.path.splitext(os.path.basename(path))[0]
  // ---------------------------------------------------------------------

  /** The index of the last occurrence of c in s, or -1 (Python's rfind). */
  function LastIndexOf(s: string, c: char): (r: int)
    ensures -1 <= r < |s|
    ensures r >= 0 ==> s[r] == c
    ensures forall k :: r < k < |s| ==> s[k] != c
  {
    if s == [] then -1
    else if s[|s| - 1] == c then |s| - 1
    else LastIndexOf(s[..|s| - 1], c)
  }

  /** The part of the path after its last '/' (POSIX basename): a suffix
      of the path that holds no '/' and is the whole path or follows a '/'. */
  function Basename(path: string): (base: string)
    ensures |base| <= |path| && base == path[|path| - |base|..]
    ensures '/' !in base
    ensures |base| < |path| ==> path[|path| - |base| - 1] == '/'
  {
    path[LastIndexOf(path, '/') + 1..]
  }

  /** Some character of s is not a dot. */
  predicate HasNonDot(s: string)
  {
    exists k :: 0 <= k < |s| && s[k] != '.'
  }

  /** The root of splitext on a file name: the name up to its last dot,
      unless everything before that dot is dots (".bashrc", "..x"), in
      which case there is no extension and the name is kept whole. */
  function StripExtension(name: string): (root: string)
    ensures root <= name
    ensures root != name ==>
              && HasNonDot(root)
              && name[|root|] == '.'
              && forall k :: |root| < k < |name| ==> name[k] != '.'
  {
    var dot := LastIndexOf(name, '.');
    if dot > 0 && HasNonDot(name[..dot]) then name[..dot] else name
  }

  /** The namespace under which the configuration module is imported: a
      prefix of the path's basename, so it holds no '/'. */
  function Namespace(path: string): (ns: string)
    ensures ns <= Basename(path)
    ensures '/' !in ns
  {
    var base := Basename(path);
    var ns := StripExtension(base);
    assert forall k :: 0 <= k < |ns| ==> ns[k] == base[k];
    ns
  }

  // ---------------------------------------------------------------------
  // The registry and the configuration file
  // ---------------------------------------------------------------------

  /** What a name of the configuration module is bound to. */
  datatype Symbol = Function | List(items: seq<PyValue>) | Other

  /** Why the configuration is rejected; entry errors carry the position
      of the offending contentSpec entry. */
  datatype ConfigError =
    | MissingContentSpec
    | UnsizedEntry(entry: nat)
    | BadArity(entry: nat)
    | UnindexedEntry(entry: nat)
    | MissingIfThen(entry: nat, name: PyValue)
    | MissingIfElse(entry: nat, name: PyValue)
    | MissingFunction(missing: string)

  const ContentSpecName: string := "contentSpec"

  /** The lifecycle functions every configuration must define, in the
      order they are checked. */
  const MandatoryNames: seq<string> := ["preamble", "setUp", "tearDown", "epilogue", "onSummary", "onError"]

  /** A configuration file: the path it was given, its namespace and the
      symbols its module defines. None of these change once it is open. */
  datatype ConfigFile = ConfigFile(config: string, namespace: string, symbols: map<string, Symbol>)
  {
    function GetConfigFile(): (path: string)
      ensures path == config
    {
      config
    }

    function GetNamespace(): (ns: string)
      ensures ns == namespace
    {
      namespace
    }

    /** The name is defined and bound to a list. */
    predicate CheckList(name: string)
      ensures CheckList(name) ==> name in symbols && symbols[name].List?
      ensures CheckList(name) ==> !CheckFunction(name)
      ensures name !in symbols ==> !CheckList(name)
    {
      name in symbols && symbols[name].List?
    }

    /** The name is defined and bound to a function. */
    predicate CheckFunction(name: string)
      ensures CheckFunction(name) ==> name in symbols && symbols[name] == Function
      ensures name !in symbols ==> !CheckFunction(name)
    {
      name in symbols && symbols[name].Function?
    }

    /** The items of a list the module defines. */
    function GetList(name: string): (items: seq<PyValue>)
      requires CheckList(name)
      ensures symbols[name] == List(items)
    {
      symbols[name].items
    }

    /** A handler name resolves when it is a string naming a function. */
    predicate Resolves(handler: PyValue)
    {
      handler.PyStr? && CheckFunction(handler.s)
    }

    /** A contentSpec entry passes when it is a string, tuple or list of
        three items and each of its handler names is either falsy or
        resolves. */
    predicate EntryValid(entry: PyValue)
    {
      && Len(entry) == Some(3)
      && Indexable(entry)
      && (Truthy(Item(entry, 1)) ==> Resolves(Item(entry, 1)))
      && (Truthy(Item(entry, 2)) ==> Resolves(Item(entry, 2)))
    }

    /** The checks made on entry k, in the order they are made: its length,
        then its if-then name, then its if-else name. Indexing an object of
        length 3 that is not a string, tuple or list is reported as such. */
    function EntryError(entry: PyValue, k: nat): (r: Option<ConfigError>)
      ensures r.None? <==> EntryValid(entry)
      ensures r.Some? ==> IsEntryError(r.value) && r.value.entry == k
      ensures Len(entry).None? ==> r == Some(UnsizedEntry(k))
      ensures Len(entry).Some? && Len(entry).value != 3 ==> r == Some(BadArity(k))
      ensures Len(entry) == Some(3) && !Indexable(entry) ==> r == Some(UnindexedEntry(k))
    {
      match Len(entry)
      case None => Some(UnsizedEntry(k))
      case Some(n) =>
        if n != 3 then Some(BadArity(k))
        else if !Indexable(entry) then Some(UnindexedEntry(k))
        else if Truthy(Item(entry, 1)) && !Resolves(Item(entry, 1)) then Some(MissingIfThen(k, Item(entry, 1)))
        else if Truthy(Item(entry, 2)) && !Resolves(Item(entry, 2)) then Some(MissingIfElse(k, Item(entry, 2)))
        else None
    }

    /** The first failing entry from position k on. */
    function FirstEntryError(entries: seq<PyValue>, k: nat): (r: Option<ConfigError>)
      requires k <= |entries|
      ensures r.None? <==> forall j :: k <= j < |entries| ==> EntryValid(entries[j])
      ensures r.Some? ==>
                && IsEntryError(r.value)
                && k <= r.value.entry < |entries|
                && r == EntryError(entries[r.value.entry], r.value.entry)
                && forall j :: k <= j < r.value.entry ==> EntryValid(entries[j])
      decreases |entries| - k
    {
      if k == |entries| then None
      else if EntryError(entries[k], k).Some? then EntryError(entries[k], k)
      else FirstEntryError(entries, k + 1)
    }

    /** The first of names[k..] that is not a function. */
    function FirstMissing(names: seq<string>, k: nat): (r: Option<ConfigError>)
      requires k <= |names|
      ensures r.None? <==> forall j :: k <= j < |names| ==> CheckFunction(names[j])
      ensures r.Some? ==>
                && r.value.MissingFunction?
                && exists i :: k <= i < |names| && names[i] == r.value.missing && !CheckFunction(names[i])
                                && forall j :: k <= j < i ==> CheckFunction(names[j])
      decreases |names| - k
    {
      if k == |names| then None
      else if !CheckFunction(names[k]) then Some(MissingFunction(names[k]))
      else FirstMissing(names, k + 1)
    }

    /** The verdict of verify: contentSpec first, then its entries in
        order, then the mandatory functions in order; the first failing
        check is the one reported. */
    function VerifySpec(): (r: Outcome<ConfigError>)
      ensures r == Fail(MissingContentSpec) <==> !CheckList(ContentSpecName)
      ensures r.Fail? && IsEntryError(r.error) ==>
                && CheckList(ContentSpecName)
                && r.error.entry < |GetList(ContentSpecName)|
                && forall j :: 0 <= j < r.error.entry ==> EntryValid(GetList(ContentSpecName)[j])
      ensures r.Fail? && r.error.MissingFunction? ==>
                r.error.missing in MandatoryNames && !CheckFunction(r.error.missing)
    {
      if !CheckList(ContentSpecName) then Fail(MissingContentSpec)
      else match FirstEntryError(GetList(ContentSpecName), 0)
        case Some(e) => Fail(e)
        case None =>
          match FirstMissing(MandatoryNames, 0)
          case Some(e) => Fail(e)
          case None => Pass
    }

    /** Checks the configuration, stopping at the first failing check. */
    method Verify() returns (r: Outcome<ConfigError>)
      ensures r == VerifySpec()
    {
      if !CheckList(ContentSpecName) {
        return Fail(MissingContentSpec);
      }
      var entries := GetList(ContentSpecName);
      var k := 0;
      while k < |entries|
        invariant 0 <= k <= |entries|
        invariant FirstEntryError(entries, 0) == FirstEntryError(entries, k)
      {
        var entry := entries[k];
        var size := Len(entry);
        if size.None? {
          return Fail(UnsizedEntry(k));
        }
        if size.value != 3 {
          return Fail(BadArity(k));
        }
        if !Indexable(entry) {
          return Fail(UnindexedEntry(k));
        }
        var ifThen := Item(entry, 1);
        if Truthy(ifThen) && !Resolves(ifThen) {
          return Fail(MissingIfThen(k, ifThen));
        }
        var ifElse := Item(entry, 2);
        if Truthy(ifElse) && !Resolves(ifElse) {
          return Fail(MissingIfElse(k, ifElse));
        }
        k := k + 1;
      }
      var i := 0;
      while i < |MandatoryNames|
        invariant 0 <= i <= |MandatoryNames|
        invariant FirstMissing(MandatoryNames, 0) == FirstMissing(MandatoryNames, i)
      {
        if !CheckFunction(MandatoryNames[i]) {
          return Fail(MissingFunction(MandatoryNames[i]));
        }
        i := i + 1;
      }
      return Pass;
    }
  }

  /** The errors that point at a contentSpec entry. */
  predicate IsEntryError(e: ConfigError)
  {
    e.UnsizedEntry? || e.BadArity? || e.UnindexedEntry? || e.MissingIfThen? || e.MissingIfElse?
  }

  /** Opens a configuration file whose module defines the given symbols:
      the path is kept as given and the namespace is derived from it. */
  function Open(path: string, symbols: map<string, Symbol>): (c: ConfigFile)
    ensures c.GetConfigFile() == path && c.symbols == symbols
    ensures c.GetNamespace() == Namespace(path)
    ensures c.GetNamespace() <= Basename(path) && '/' !in c.GetNamespace()
  {
    ConfigFile(path, Namespace(path), symbols)
  }

  /** The entry has three items and names the given handler in one of
      them. */
  predicate References(entry: PyValue, name: string)
  {
    Len(entry) == Some(3) && Indexable(entry) && (Item(entry, 1) == PyStr(name) || Item(entry, 2) == PyStr(name))
  }

  // ---------------------------------------------------------------------
  // Properties of the namespace
  // ---------------------------------------------------------------------

  /** The last occurrence of c is the one after which c does not occur. */
  lemma LastIndexOfAt(s: string, c: char, i: nat)
    requires i < |s| && s[i] == c
    requires forall k :: i < k < |s| ==> s[k] != c
    ensures LastIndexOf(s, c) == i
  {
  }

  /** A file name after a directory part (or none) is the basename. */
  lemma BasenameAfter(prefix: string, base: string)
    requires prefix == [] || prefix[|prefix| - 1] == '/'
    requires '/' !in base
    ensures Basename(prefix + base) == base
  {
    var path := prefix + base;
    if prefix == [] {
      assert path == base;
    } else {
      assert forall k :: |prefix| <= k < |path| ==> path[k] == base[k - |prefix|];
      LastIndexOfAt(path, '/', |prefix| - 1);
      assert path[|prefix|..] == base;
    }
  }

  /** Opening "dir/name.ext" (or "name.ext") keeps the path as given and
      imports the module as name: the directory and the last extension
      are dropped, and earlier dots of the name are kept. */
  lemma OpenNamesModule(prefix: string, name: string, ext: string, symbols: map<string, Symbol>)
    requires prefix == [] || prefix[|prefix| - 1] == '/'
    requires '/' !in name && HasNonDot(name)
    requires '/' !in ext && '.' !in ext
    ensures Open(prefix + name + "." + ext, symbols).GetConfigFile() == prefix + name + "." + ext
    ensures Open(prefix + name + "." + ext, symbols).GetNamespace() == name
  {
    var base := name + "." + ext;
    assert prefix + name + "." + ext == prefix + base;
    BasenameAfter(prefix, base);
    StripLastExtension(name, ext);
  }

  /** splitext drops the text from the last dot when the name before it
      is not all dots. */
  lemma StripLastExtension(name: string, ext: string)
    requires HasNonDot(name) && '.' !in ext
    ensures StripExtension(name + "." + ext) == name
  {
    var base := name + "." + ext;
    assert base[|name|] == '.';
    assert forall k :: |name| < k < |base| ==> base[k] == ext[k - |name| - 1];
    LastIndexOfAt(base, '.', |name|);
    assert base[..|name|] == name;
  }

  /** A file name whose only dot is its first character has no extension
      to strip: ".name" is imported as ".name". */
  lemma LeadingDotKept(prefix: string, name: string)
    requires prefix == [] || prefix[|prefix| - 1] == '/'
    requires '/' !in name && '.' !in name
    ensures Namespace(prefix + "." + name) == "." + name
  {
    var base := "." + name;
    assert prefix + "." + name == prefix + base;
    BasenameAfter(prefix, base);
    LastIndexOfAt(base, '.', 0);
  }

  /** The namespace of the example path "dir/conf.py" is "conf". */
  lemma NamespaceExample()
    ensures Open("dir/conf.py", map[]).GetNamespace() == "conf"
    ensures Open("dir/conf.py", map[]).GetConfigFile() == "dir/conf.py"
  {
    var path := "dir/conf.py";
    LastIndexOfAt(path, '/', 3);
    assert Basename(path) == "conf.py";
    LastIndexOfAt("conf.py", '.', 4);
    assert "conf.py"[..4] == "conf" && "conf"[0] != '.';
  }

  // ---------------------------------------------------------------------
  // Properties of verify
  // ---------------------------------------------------------------------

  /** checkList and checkFunction look the name up: a name is a list or a
      function exactly as it is bound, an undefined name is neither, and
      no name is both. */
  lemma ChecksFollowBinding(c: ConfigFile, name: string, sym: Symbol)
    ensures var c' := ConfigFile(c.config, c.namespace, c.symbols[name := sym]);
            && (c'.CheckList(name) <==> sym.List?)
            && (c'.CheckFunction(name) <==> sym == Function)
            && (sym.List? ==> c'.GetList(name) == sym.items)
    ensures name !in c.symbols ==> !c.CheckList(name) && !c.CheckFunction(name)
    ensures !(c.CheckList(name) && c.CheckFunction(name))
  {
  }

  /** verify passes exactly when contentSpec is a list, every entry is
      valid and every mandatory name is a function. */
  lemma VerifyPassIff(c: ConfigFile)
    ensures c.VerifySpec().Pass? <==>
              && c.CheckList(ContentSpecName)
              && (forall j :: 0 <= j < |c.GetList(ContentSpecName)| ==> c.EntryValid(c.GetList(ContentSpecName)[j]))
              && (forall n :: n in MandatoryNames ==> c.CheckFunction(n))
  {
    if c.CheckList(ContentSpecName) && c.FirstEntryError(c.GetList(ContentSpecName), 0).None? {
      assert c.FirstMissing(MandatoryNames, 0).None? <==> forall n :: n in MandatoryNames ==> c.CheckFunction(n);
    }
  }

  /** Without a contentSpec list nothing else is checked. */
  lemma MissingContentSpecFirst(c: ConfigFile)
    requires !c.CheckList(ContentSpecName)
    ensures c.VerifySpec() == Fail(MissingContentSpec)
  {
  }

  /** The first invalid entry is the one reported, before any later entry
      and before the mandatory names; an entry without three items is
      reported for its size. */
  lemma FirstBadEntryReported(c: ConfigFile, k: nat)
    requires c.CheckList(ContentSpecName)
    requires k < |c.GetList(ContentSpecName)|
    requires forall j :: 0 <= j < k ==> c.EntryValid(c.GetList(ContentSpecName)[j])
    requires !c.EntryValid(c.GetList(ContentSpecName)[k])
    ensures c.VerifySpec() == Fail(c.EntryError(c.GetList(ContentSpecName)[k], k).value)
    ensures Len(c.GetList(ContentSpecName)[k]) != Some(3) ==>
              c.VerifySpec() == Fail(if Len(c.GetList(ContentSpecName)[k]).None? then UnsizedEntry(k) else BadArity(k))
  {
    var entries := c.GetList(ContentSpecName);
    var r := c.FirstEntryError(entries, 0);
    assert r.Some?;
  }

  /** A truthy if-then name that is not a function is reported when the
      entries before it are valid, whatever follows. */
  lemma UnresolvedIfThenReported(c: ConfigFile, k: nat)
    requires c.CheckList(ContentSpecName)
    requires k < |c.GetList(ContentSpecName)|
    requires forall j :: 0 <= j < k ==> c.EntryValid(c.GetList(ContentSpecName)[j])
    requires Len(c.GetList(ContentSpecName)[k]) == Some(3) && Indexable(c.GetList(ContentSpecName)[k])
    requires Truthy(Item(c.GetList(ContentSpecName)[k], 1)) && !c.Resolves(Item(c.GetList(ContentSpecName)[k], 1))
    ensures c.VerifySpec() == Fail(MissingIfThen(k, Item(c.GetList(ContentSpecName)[k], 1)))
  {
    FirstBadEntryReported(c, k);
  }

  /** A truthy if-else name that is not a function is reported when the
      entry's if-then name passes and the entries before it are valid. */
  lemma UnresolvedIfElseReported(c: ConfigFile, k: nat)
    requires c.CheckList(ContentSpecName)
    requires k < |c.GetList(ContentSpecName)|
    requires forall j :: 0 <= j < k ==> c.EntryValid(c.GetList(ContentSpecName)[j])
    requires Len(c.GetList(ContentSpecName)[k]) == Some(3) && Indexable(c.GetList(ContentSpecName)[k])
    requires Truthy(Item(c.GetList(ContentSpecName)[k], 1)) ==> c.Resolves(Item(c.GetList(ContentSpecName)[k], 1))
    requires Truthy(Item(c.GetList(ContentSpecName)[k], 2)) && !c.Resolves(Item(c.GetList(ContentSpecName)[k], 2))
    ensures c.VerifySpec() == Fail(MissingIfElse(k, Item(c.GetList(ContentSpecName)[k], 2)))
  {
    FirstBadEntryReported(c, k);
  }

  /** Falsy handler names (None, "", 0, ...) are not looked up: an entry of
      three items with both names falsy is valid in any registry. */
  lemma FalsyHandlersSkipped(c: ConfigFile, entry: PyValue)
    requires Len(entry) == Some(3) && Indexable(entry)
    requires !Truthy(Item(entry, 1)) && !Truthy(Item(entry, 2))
    ensures c.EntryValid(entry)
    ensures forall k: nat :: c.EntryError(entry, k).None?
  {
  }

  /** Once the contentSpec entries pass, the first mandatory name that is
      not a function is reported. */
  lemma FirstMissingFunctionReported(c: ConfigFile, i: nat)
    requires c.CheckList(ContentSpecName)
    requires forall j :: 0 <= j < |c.GetList(ContentSpecName)| ==> c.EntryValid(c.GetList(ContentSpecName)[j])
    requires i < |MandatoryNames|
    requires forall j :: 0 <= j < i ==> c.CheckFunction(MandatoryNames[j])
    requires !c.CheckFunction(MandatoryNames[i])
    ensures c.VerifySpec() == Fail(MissingFunction(MandatoryNames[i]))
  {
    var r := c.FirstMissing(MandatoryNames, 0);
    assert r.Some?;
  }

  /** Rebinding a name changes no entry's verdict unless the entry names
      it as a handler. */
  lemma {:induction false} EntriesIgnoreUnreferenced(c: ConfigFile, name: string, sym: Symbol, entries: seq<PyValue>, k: nat)
    requires k <= |entries|
    requires forall j :: k <= j < |entries| ==> !References(entries[j], name)
    ensures ConfigFile(c.config, c.namespace, c.symbols[name := sym]).FirstEntryError(entries, k)
         == c.FirstEntryError(entries, k)
    decreases |entries| - k
  {
    var c' := ConfigFile(c.config, c.namespace, c.symbols[name := sym]);
    if k < |entries| {
      var e := entries[k];
      if Len(e) == Some(3) && Indexable(e) {
        assert c'.Resolves(Item(e, 1)) == c.Resolves(Item(e, 1));
        assert c'.Resolves(Item(e, 2)) == c.Resolves(Item(e, 2));
      }
      assert c'.EntryError(e, k) == c.EntryError(e, k);
      EntriesIgnoreUnreferenced(c, name, sym, entries, k + 1);
    }
  }

  /** A name that is neither contentSpec, nor mandatory, nor a handler of
      any entry does not affect verify: whether such a function, onAbort
      for instance, is defined makes no difference. */
  lemma VerifyIgnoresUnreferenced(c: ConfigFile, name: string, sym: Symbol)
    requires name != ContentSpecName && name !in MandatoryNames
    requires c.CheckList(ContentSpecName) ==>
               forall j :: 0 <= j < |c.GetList(ContentSpecName)| ==> !References(c.GetList(ContentSpecName)[j], name)
    ensures ConfigFile(c.config, c.namespace, c.symbols[name := sym]).VerifySpec() == c.VerifySpec()
  {
    var c' := ConfigFile(c.config, c.namespace, c.symbols[name := sym]);
    assert c'.CheckList(ContentSpecName) == c.CheckList(ContentSpecName);
    if c.CheckList(ContentSpecName) {
      EntriesIgnoreUnreferenced(c, name, sym, c.GetList(ContentSpecName), 0);
    }
    MissingIgnoresOthers(c, name, sym, MandatoryNames, 0);
  }

  /** Rebinding a name outside names leaves the first missing one alone. */
  lemma {:induction false} MissingIgnoresOthers(c: ConfigFile, name: string, sym: Symbol, names: seq<string>, k: nat)
    requires name !in names && k <= |names|
    ensures ConfigFile(c.config, c.namespace, c.symbols[name := sym]).FirstMissing(names, k)
         == c.FirstMissing(names, k)
    decreases |names| - k
  {
    if k < |names| {
      MissingIgnoresOthers(c, name, sym, names, k + 1);
    }
  }

  /** onAbort is not among the mandatory functions. */
  lemma OnAbortOptional(c: ConfigFile, sym: Symbol)
    requires c.CheckList(ContentSpecName) ==>
               forall j :: 0 <= j < |c.GetList(ContentSpecName)| ==> !References(c.GetList(ContentSpecName)[j], "onAbort")
    ensures ConfigFile(c.config, c.namespace, c.symbols["onAbort" := sym]).VerifySpec() == c.VerifySpec()
  {
    VerifyIgnoresUnreferenced(c, "onAbort", sym);
  }
}
