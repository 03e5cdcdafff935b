/** The schema classes of zwcschema.py: a component holds one rule and a
    match counter that it updates in place; a schema owns a sequence of
    components and evaluates the entry names of one archive against them.
    Handler invocations are returned as a trace of events; what the
    handlers themselves do is not part of this model. */
module ZwcSchema {
  import opened Wrappers
  import opened PyValues
  import opened SchemaSpec

  /** One component of a schema. */
  class Component {
    const configFile: string
    const regexp: PyValue
    const ifThen: PyValue
    const ifElse: PyValue
    var matches: int

    constructor (configFile: string, regexp: PyValue, ifThen: PyValue, ifElse: PyValue)
      ensures this.configFile == configFile && this.regexp == regexp
      ensures this.ifThen == ifThen && this.ifElse == ifElse
      ensures matches == 0
    {
      this.configFile := configFile;
      this.regexp := regexp;
      this.ifThen := ifThen;
      this.ifElse := ifElse;
      matches := 0;
    }

    function AsRule(): Rule {
      Rule(regexp, ifThen, ifElse)
    }

    method GetRegexp() returns (r: PyValue)
      ensures r == regexp
    {
      r := regexp;
    }

    method GetMatches() returns (n: int)
      ensures n == matches
    {
      n := matches;
    }

    method SetMatches(value: int)
      modifies this`matches
      ensures matches == value
    {
      matches := value;
    }

    /** Tests the entry name against this component's pattern and counts a
        match. */
    method Evaluate(instance: string, m: Matcher) returns (matched: bool)
      modifies this`matches
      ensures matched == m(regexp, instance)
      ensures matches == if matched then old(matches) + 1 else old(matches)
    {
      matched := m(regexp, instance);
      if matched {
        matches := matches + 1;
      }
    }
  }

  /** The checks made on the schema list before any component is built:
      the items are tested in order and the first bad one is reported. */
  method ValidateShape(spec: PyValue) returns (r: Outcome<ShapeError>)
    ensures r == CheckShape(spec)
  {
    if !spec.PyList? {
      return Fail(SchemaNotAList);
    }
    if |spec.items| == 0 {
      return Fail(EmptySchema);
    }
    var k := 0;
    while k < |spec.items|
      invariant 0 <= k <= |spec.items|
      invariant FirstItemError(spec.items, 0) == FirstItemError(spec.items, k)
    {
      var item := spec.items[k];
      if !item.PyTuple? {
        return Fail(NotATuple(k));
      }
      if |item.items| != 3 {
        return Fail(WrongArity(k));
      }
      k := k + 1;
    }
    return Pass;
  }

  /** A schema: the components built from the schema list, in order. The
      list of components is fixed when the schema is built; only the
      components' counters change afterwards. */
  class Schema {
    const configFile: string
    const components: seq<Component>
    /** The components' match counters, in component order. */
    ghost var counts: seq<int>

    /** Every component is a distinct object, so counting a match in one
        leaves the others alone, and counts mirrors their counters. */
    ghost predicate Valid()
      reads this, components
    {
      && |counts| == |components|
      && (forall i, j :: 0 <= i < j < |components| ==> components[i] != components[j])
      && (forall k :: 0 <= k < |components| ==> components[k].matches == counts[k])
    }

    /** The rules held by the components, in order. */
    function Rules(): (rules: seq<Rule>)
      ensures |rules| == |components|
    {
      seq(|components|, k requires 0 <= k < |components| => components[k].AsRule())
    }

    /** Builds one fresh component per tuple of a well-shaped schema list,
        in order, each with no matches and the schema's config file. */
    constructor (spec: PyValue, configFile: string)
      requires CheckShape(spec).Pass?
      ensures this.configFile == configFile
      ensures forall k :: 0 <= k < |components| ==> components[k].configFile == configFile
      ensures Valid()
      ensures Rules() == RulesOfSpec(spec)
      ensures counts == Zeros(|spec.items|)
      ensures forall k :: 0 <= k < |components| ==> fresh(components[k])
    {
      var items := spec.items;
      var cs: seq<Component> := [];
      var k := 0;
      while k < |items|
        invariant 0 <= k <= |items|
        invariant |cs| == k
        invariant forall i :: 0 <= i < k ==> fresh(cs[i])
        invariant forall i, j :: 0 <= i < j < k ==> cs[i] != cs[j]
        invariant forall i :: 0 <= i < k ==> cs[i].AsRule() == RulesOfSpec(spec)[i] && cs[i].matches == 0
        invariant forall i :: 0 <= i < k ==> cs[i].configFile == configFile
      {
        var item := items[k];
        var c := new Component(configFile, item.items[0], item.items[1], item.items[2]);
        cs := cs + [c];
        k := k + 1;
      }
      this.configFile := configFile;
      components := cs;
      counts := Zeros(|items|);
    }

    /** Builds a schema from a schema list, or reports the first check the
        list fails, before any component is built. */
    static method Create(spec: PyValue, configFile: string) returns (r: Result<Schema, ShapeError>)
      ensures r.Failure? <==> CheckShape(spec).Fail?
      ensures r.Failure? ==> CheckShape(spec) == Fail(r.error)
      ensures r.Success? ==>
                && fresh(r.value)
                && r.value.configFile == configFile
                && (forall k :: 0 <= k < |r.value.components| ==> r.value.components[k].configFile == configFile)
                && r.value.Valid()
                && r.value.Rules() == RulesOfSpec(spec)
                && r.value.counts == Zeros(|spec.items|)
    {
      var shape := ValidateShape(spec);
      if shape.Fail? {
        return Failure(shape.error);
      }
      var schema := new Schema(spec, configFile);
      return Success(schema);
    }

    /** Tests one entry name against component j alone; a match is counted
        by that component and by no other. */
    method TestComponent(j: nat, s: string, m: Matcher) returns (hit: bool, count: int)
      requires Valid() && j < |components|
      modifies this, components[j]
      ensures Valid()
      ensures hit == m(Rules()[j].regexp, s)
      ensures counts == if hit then old(counts)[j := old(counts)[j] + 1] else old(counts)
      ensures count == counts[j]
    {
      var c := components[j];
      hit := c.Evaluate(s, m);
      count := c.matches;
      counts := counts[j := count];
      forall k | 0 <= k < |components|
        ensures components[k].matches == counts[k]
      {
        assert components[k] == c <==> k == j;
      }
    }

    /** Tests one entry name against the components in order, stopping at
        the first that matches: that component counts the match and its
        if-then call is appended to the trace. Components after it are not
        tested; if none matches, nothing changes. */
    method ScanEntry(s: string, m: Matcher, trace: seq<Event>) returns (trace': seq<Event>)
      requires Valid()
      modifies this, components
      ensures Valid()
      ensures RunState(counts, trace') == Step(RunState(old(counts), trace), FirstMatch(Rules(), m, s), s)
    {
      var j := 0;
      while j < |components|
        invariant 0 <= j <= |components|
        invariant Valid()
        invariant counts == old(counts)
        invariant j <= FirstMatch(Rules(), m, s)
      {
        var hit, matches := TestComponent(j, s, m);
        if hit {
          assert FirstMatch(Rules(), m, s) == j;
          StepAtMatch(old(counts), counts, trace, j, s, matches);
          return trace + [IfThen(j, s, matches)];
        }
        j := j + 1;
      }
      return trace;
    }

    /** Scans the entry names in order (the scan phase of evaluate). */
    method ScanAll(names: seq<string>, m: Matcher) returns (trace: seq<Event>)
      requires Valid()
      modifies this, components
      ensures Valid()
      ensures Scan(Rules(), m, old(counts), names, |names|) == RunState(counts, trace)
    {
      ghost var rules, counts0 := Rules(), counts;
      trace := [];
      var n := 0;
      while n < |names|
        invariant 0 <= n <= |names|
        invariant Valid()
        invariant Scan(rules, m, counts0, names, n) == RunState(counts, trace)
      {
        ghost var before := RunState(counts, trace);
        ghost var f := FirstMatch(rules, m, names[n]);
        trace := ScanEntry(names[n], m, trace);
        ScanUnfold(rules, m, counts0, names, n);
        assert Scan(rules, m, counts0, names, n + 1) == Step(before, f, names[n]);
        n := n + 1;
      }
    }

    /** Calls if-else, in component order, for every component with no
        matches and a truthy if-else name (the reconciliation phase). */
    method ReconcileAll() returns (trace: seq<Event>)
      requires Valid()
      ensures trace == Reconcile(Rules(), counts, |components|)
    {
      trace := [];
      var i := 0;
      while i < |components|
        invariant 0 <= i <= |components|
        invariant trace == Reconcile(Rules(), counts, i)
      {
        var c := components[i];
        var count := c.GetMatches();
        if count == 0 && Truthy(c.ifElse) {
          trace := trace + [IfElse(i)];
        }
        i := i + 1;
      }
    }

    /** Evaluates the entry names of one archive: rejects contents that are
        not a list of strings before testing anything; otherwise scans every
        entry and then reconciles the components that never matched. */
    method Evaluate(contents: PyValue, m: Matcher) returns (r: Result<seq<Event>, EvalError>)
      requires Valid()
      modifies this, components
      ensures Valid()
      ensures match Evaluation(Rules(), m, old(counts), contents)
              case Success(run) => r == Success(run.trace) && counts == run.counts
              case Failure(e) => r == Failure(e) && counts == old(counts)
    {
      var err := CheckContents(contents);
      if err.Some? {
        return Failure(err.value);
      }
      var names := Names(contents.items);
      var scanned := ScanAll(names, m);
      var absent := ReconcileAll();
      return Success(scanned + absent);
    }
  }

  /** The type check made on the contents before evaluation: a list whose
      items are all strings, else the first offending item is reported. */
  method CheckContents(contents: PyValue) returns (err: Option<EvalError>)
    ensures err == ContentsError(contents)
  {
    if !contents.PyList? {
      return Some(ContentsNotAList);
    }
    var k := 0;
    while k < |contents.items|
      invariant 0 <= k <= |contents.items|
      invariant FirstNonString(contents.items, 0) == FirstNonString(contents.items, k)
    {
      if !contents.items[k].PyStr? {
        return Some(ContentNotAString(k));
      }
      k := k + 1;
    }
    return None;
  }

  /** Two schemas built from the same list and evaluated on the same entry
      names give the same outcome and the same handler calls: no state
      carries over from one archive to the next. */
  method EvaluateFreshTwice(spec: PyValue, configFile: string, contents: PyValue, m: Matcher)
    returns (first: Result<seq<Event>, EvalError>, second: Result<seq<Event>, EvalError>)
    requires CheckShape(spec).Pass?
    ensures first == second
    ensures first == match Evaluation(RulesOfSpec(spec), m, Zeros(|spec.items|), contents)
                     case Success(run) => Success(run.trace)
                     case Failure(e) => Failure(e)
  {
    var a := new Schema(spec, configFile);
    first := a.Evaluate(contents, m);
    var b := new Schema(spec, configFile);
    second := b.Evaluate(contents, m);
  }
}
