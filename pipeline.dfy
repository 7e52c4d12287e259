/** The filter registry and the chain evaluator. A registry maps a filter name,
    matched exactly, to a filter; binding a parsed chain resolves every name
    once, and evaluation threads a value through the bound filters from left to
    right, stopping at the first error. */
module Pipeline {
  import opened Values
  import Filters
  import CustomFilters

  datatype FilterKind =
    | SizeFilter
    | JoinFilter
    | SortFilter
    | SortNaturalFilter
    | CompactFilter
    | StripHtmlFilter
    | CapitalizeFilter
    | MapFilter
    | MoneyFilter
    | MoneyWithUnderscoreFilter
    | SubstituteFilter

  /** Runs one filter on an input with its evaluated positional arguments. */
  function Apply(kind: FilterKind, input: Value, args: seq<Value>): (r: Result<Value>)
    ensures r.Err? ==> !r.error.UnknownFilter?
    ensures kind == MoneyFilter || kind == MoneyWithUnderscoreFilter || kind == SubstituteFilter ==>
      (r.Ok? <==> args == []) && (r.Ok? ==> r.value.Str?)
    ensures kind == SizeFilter && r.Ok? ==> r.value.Int?
    ensures (kind == JoinFilter || kind == StripHtmlFilter || kind == CapitalizeFilter) && r.Ok? ==> r.value.Str?
  {
    match kind
    case SizeFilter => Filters.Size(input, args)
    case JoinFilter => Filters.Join(input, args)
    case SortFilter => Filters.Sort(input, args)
    case SortNaturalFilter => Filters.SortNatural(input, args)
    case CompactFilter => Filters.Compact(input, args)
    case StripHtmlFilter => Filters.StripHtml(input, args)
    case CapitalizeFilter => Filters.Capitalize(input, args)
    case MapFilter => Filters.MapProperty(input, args)
    case MoneyFilter => CustomFilters.Money(input, args)
    case MoneyWithUnderscoreFilter => CustomFilters.MoneyWithUnderscore(input, args)
    case SubstituteFilter => CustomFilters.Substitute(input, args)
  }

  type Registry = map<string, FilterKind>

  /** The built-in filters this model covers, under their template names. */
  const Builtins: Registry := map[
    "size" := SizeFilter,
    "join" := JoinFilter,
    "sort" := SortFilter,
    "sort_natural" := SortNaturalFilter,
    "compact" := CompactFilter,
    "strip_html" := StripHtmlFilter,
    "capitalize" := CapitalizeFilter,
    "map" := MapFilter
  ]

  /** Adds a filter under a name; a filter already registered under that name
      is replaced. */
  function Register(reg: Registry, name: string, kind: FilterKind): (r: Registry)
    ensures r.Keys == reg.Keys + {name}
    ensures r[name] == kind
    ensures forall n :: n in reg && n != name ==> r[n] == reg[n]
  {
    reg[name := kind]
  }

  /** The filter registered under exactly this name. */
  function Resolve(reg: Registry, name: string): (r: Result<FilterKind>)
    ensures r.Ok? <==> name in reg
    ensures r.Ok? ==> r.value == reg[name]
    ensures r.Err? ==> r.error == UnknownFilter(name)
  {
    if name in reg then Ok(reg[name]) else Err(UnknownFilter(name))
  }

  /** Registering twice under one name: the last registration wins, and every
      other name is unaffected. */
  lemma LastRegistrationWins(reg: Registry, name: string, first: FilterKind, second: FilterKind, other: string)
    requires other != name
    ensures Resolve(Register(Register(reg, name, first), name, second), name) == Ok(second)
    ensures Resolve(Register(Register(reg, name, first), name, second), other) == Resolve(reg, other)
  {
  }

  /** The parser of the money tests: the built-ins plus `money` and
      `money_with_underscore`. */
  function MoneyRegistry(): (r: Registry)
    ensures r.Keys == Builtins.Keys + {"money", "money_with_underscore"}
  {
    Register(Register(Builtins, "money", MoneyFilter), "money_with_underscore", MoneyWithUnderscoreFilter)
  }

  /** The parser of the keyword-argument test: the built-ins plus `substitute`. */
  function SubstituteRegistry(): (r: Registry)
    ensures r.Keys == Builtins.Keys + {"substitute"}
  {
    Register(Builtins, "substitute", SubstituteFilter)
  }

  /** Names are matched exactly: an underscore is significant, and the two money
      names find their own filters. */
  lemma MoneyNamesResolveExactly()
    ensures Resolve(MoneyRegistry(), "money") == Ok(MoneyFilter)
    ensures Resolve(MoneyRegistry(), "money_with_underscore") == Ok(MoneyWithUnderscoreFilter)
    ensures Resolve(MoneyRegistry(), "moneywithunderscore").Err?
    ensures Resolve(MoneyRegistry(), "money_").Err?
    ensures Resolve(Builtins, "money").Err?
  {
    assert "moneywithunderscore" != "money" && "moneywithunderscore" != "money_with_underscore";
    assert "moneywithunderscore" !in Builtins;
    assert "money_" !in Builtins;
  }

  // ---------------------------------------------------------------------------
  // Chains

  /** A filter as written in a template: its name and its positional arguments. */
  datatype Invocation = Invocation(name: string, args: seq<Value>)

  /** A filter resolved against a registry. */
  datatype BoundFilter = BoundFilter(kind: FilterKind, args: seq<Value>)

  /** Resolves every name of a chain. Fails with the first name the registry
      does not hold. */
  function Bind(reg: Registry, chain: seq<Invocation>): (r: Result<seq<BoundFilter>>)
    ensures r.Ok? <==> forall k :: 0 <= k < |chain| ==> chain[k].name in reg
    ensures r.Ok? ==>
      && |r.value| == |chain|
      && forall k :: 0 <= k < |chain| ==> r.value[k] == BoundFilter(reg[chain[k].name], chain[k].args)
    ensures r.Err? ==> exists k ::
      && 0 <= k < |chain|
      && chain[k].name !in reg
      && r.error == UnknownFilter(chain[k].name)
      && forall j :: 0 <= j < k ==> chain[j].name in reg
  {
    if chain == [] then Ok([])
    else
      match Resolve(reg, chain[0].name)
      case Err(e) => Err(e)
      case Ok(kind) =>
        match Bind(reg, chain[1..])
        case Err(e) =>
          FirstUnknownShifted(reg, chain, e);
          Err(e)
        case Ok(rest) => Ok([BoundFilter(kind, chain[0].args)] + rest)
  }

  /** The first unknown name of a chain's tail is the first unknown name of the
      chain when the head is known. */
  lemma FirstUnknownShifted(reg: Registry, chain: seq<Invocation>, e: Error)
    requires chain != [] && chain[0].name in reg
    requires exists k ::
      && 0 <= k < |chain| - 1
      && chain[1..][k].name !in reg
      && e == UnknownFilter(chain[1..][k].name)
      && forall j :: 0 <= j < k ==> chain[1..][j].name in reg
    ensures exists k ::
      && 0 <= k < |chain|
      && chain[k].name !in reg
      && e == UnknownFilter(chain[k].name)
      && forall j :: 0 <= j < k ==> chain[j].name in reg
  {
    var k :| 0 <= k < |chain| - 1 && chain[1..][k].name !in reg
      && e == UnknownFilter(chain[1..][k].name)
      && forall j :: 0 <= j < k ==> chain[1..][j].name in reg;
    assert forall j :: 1 <= j < k + 1 ==> chain[j] == chain[1..][j - 1];
    assert chain[k + 1] == chain[1..][k];
  }

  /** Threads a value through the bound filters, left to right; the first error
      ends the evaluation. */
  function Evaluate(bound: seq<BoundFilter>, v: Value): (r: Result<Value>)
    ensures bound == [] ==> r == Ok(v)
    ensures |bound| == 1 ==> r == Apply(bound[0].kind, v, bound[0].args)
    ensures r.Err? ==> bound != [] && !r.error.UnknownFilter?
  {
    if bound == [] then Ok(v)
    else
      match Apply(bound[0].kind, v, bound[0].args)
      case Err(e) => Err(e)
      case Ok(w) => Evaluate(bound[1..], w)
  }

  /** Evaluating a chain in two pieces is evaluating the first piece and then
      the second on its result; an error in the first piece is the result. */
  lemma {:induction false} EvaluateAppend(a: seq<BoundFilter>, b: seq<BoundFilter>, v: Value)
    ensures Evaluate(a + b, v) == match Evaluate(a, v) case Ok(w) => Evaluate(b, w) case Err(e) => Err(e)
  {
    if a == [] {
      assert a + b == b;
    } else {
      assert (a + b)[0] == a[0] && (a + b)[1..] == a[1..] + b;
      match Apply(a[0].kind, v, a[0].args)
      case Err(e) =>
      case Ok(w) => EvaluateAppend(a[1..], b, w);
    }
  }

  /** The position of the filter a failed chain fails at: the filters before
      it succeed, and its error on their result is the chain's result. */
  function FailingFilter(bound: seq<BoundFilter>, v: Value): (k: nat)
    requires Evaluate(bound, v).Err?
    ensures k < |bound| && Evaluate(bound[..k], v).Ok?
    ensures Apply(bound[k].kind, Evaluate(bound[..k], v).value, bound[k].args) == Evaluate(bound, v)
    decreases |bound|
  {
    if Apply(bound[0].kind, v, bound[0].args).Err? then
      assert bound[..0] == [];
      0
    else
      var w0 := Apply(bound[0].kind, v, bound[0].args).value;
      var k := FailingFilter(bound[1..], w0);
      EvaluatePrefixStep(bound, k + 1, v, w0);
      assert bound[k + 1] == bound[1..][k];
      k + 1
  }

  /** A non-empty prefix whose first filter succeeds is evaluated by running
      the rest of the prefix on that filter's result. */
  lemma EvaluatePrefixStep(bound: seq<BoundFilter>, n: nat, v: Value, w0: Value)
    requires 0 < n <= |bound|
    requires Apply(bound[0].kind, v, bound[0].args) == Ok(w0)
    ensures Evaluate(bound[..n], v) == Evaluate(bound[1..][..n - 1], w0)
  {
    var p := bound[..n];
    assert p[0] == bound[0] && p[1..] == bound[1..][..n - 1];
  }

  /** A filter that fails ends the chain: no later filter runs. */
  lemma EvaluateStopsAtError(a: seq<BoundFilter>, f: BoundFilter, b: seq<BoundFilter>, v: Value, w: Value)
    requires Evaluate(a, v) == Ok(w)
    requires Apply(f.kind, w, f.args).Err?
    ensures Evaluate(a + [f] + b, v) == Err(Apply(f.kind, w, f.args).error)
  {
    EvaluateAppend(a + [f], b, v);
    EvaluateAppend(a, [f], v);
  }

  /** `{{ base | f1 | f2 ... }}`: binds the chain, evaluates it on the base
      value and renders the final value. */
  function RenderChain(reg: Registry, base: Value, chain: seq<Invocation>): (r: Result<string>)
    ensures (forall k :: 0 <= k < |chain| ==> chain[k].name in reg) ==>
      r == match Evaluate(Bind(reg, chain).value, base) case Ok(w) => Ok(Render(w)) case Err(e) => Err(e)
    ensures (exists k :: 0 <= k < |chain| && chain[k].name !in reg) ==> r.Err? && r.error.UnknownFilter?
  {
    match Bind(reg, chain)
    case Err(e) => Err(e)
    case Ok(bound) =>
      match Evaluate(bound, base)
      case Err(e) => Err(e)
      case Ok(w) => Ok(Render(w))
  }

  /** Registering a filter under a name a chain does not use leaves the result
      of binding that chain unchanged. */
  lemma {:induction false} RebindingOtherNameChangesNothing(reg: Registry, name: string, kind: FilterKind, chain: seq<Invocation>)
    requires forall k :: 0 <= k < |chain| ==> chain[k].name != name
    ensures Bind(Register(reg, name, kind), chain) == Bind(reg, chain)
  {
    if chain != [] {
      assert chain[0].name != name;
      assert Resolve(Register(reg, name, kind), chain[0].name) == Resolve(reg, chain[0].name);
      assert forall k :: 0 <= k < |chain[1..]| ==> chain[1..][k].name == chain[k + 1].name;
      RebindingOtherNameChangesNothing(reg, name, kind, chain[1..]);
    }
  }
}
