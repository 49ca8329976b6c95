/** The driver of the compiler: parsing every domain argument into a pattern, and printing
    the preamble, one block per pattern and the final reject block. */
module Compiler {
  import opened Bits
  import opened Labels
  import opened Merge
  import opened Bpf
  import opened Emit
  import opened Semantics

  /** The pattern of one domain argument: its tokens merged into steps. */
  function PatternOf(domain: seq<Octet>): Result<seq<Step>>
  {
    match Tokenize(domain)
    case Err(e) => Err(e)
    case Ok(ts) => Ok(Merge.Merge(ts))
  }

  /** The results of f on xs, in order, or the error of the first element f fails on. */
  function Collect<A, B>(f: A -> Result<B>, xs: seq<A>): Result<seq<B>>
  {
    if xs == [] then Ok([])
    else match f(xs[0])
      case Err(e) => Err(e)
      case Ok(y) =>
        match Collect(f, xs[1..])
        case Err(e) => Err(e)
        case Ok(ys) => Ok([y] + ys)
  }

  /** Collecting fails exactly when f fails on some element; otherwise it holds f's result
      for every element, in order. */
  lemma {:induction false} CollectMeaning<A, B>(f: A -> Result<B>, xs: seq<A>)
    ensures Collect(f, xs).Err? <==> exists k :: 0 <= k < |xs| && f(xs[k]).Err?
    ensures Collect(f, xs).Ok? ==>
      && |Collect(f, xs).value| == |xs|
      && forall k :: 0 <= k < |xs| ==> Collect(f, xs).value[k] == f(xs[k]).value
  {
    if xs != [] {
      var tail := xs[1..];
      CollectMeaning(f, tail);
      assert forall k :: 1 <= k < |xs| ==> tail[k - 1] == xs[k];
      if f(xs[0]).Ok? && Collect(f, tail).Ok? {
        var rest := Collect(f, tail).value;
        var ys := Collect(f, xs).value;
        assert ys == [f(xs[0]).value] + rest;
        forall k | 1 <= k < |xs|
          ensures ys[k] == f(xs[k]).value
        {
          assert ys[k] == rest[k - 1];
        }
      }
    }
  }

  /** The patterns of the domain arguments, in the order given; the error of the first
      domain that has none. */
  function Parse(domains: seq<seq<Octet>>): Result<seq<seq<Step>>>
  {
    Collect(PatternOf, domains)
  }

  /** The pattern of a domain argument keeps every octet and wildcard of its tokens, in
      order, in the canonical shape: no empty run and never two runs in a row. Its last step
      is a run, the root label's, which `match_exact` compares with `last` set. */
  lemma PatternCanonical(domain: seq<Octet>)
    requires PatternOf(domain).Ok?
    ensures var ts := Tokenize(domain).value;
      var steps := PatternOf(domain).value;
      && StepItems(steps) == TokenItems(ts)
      && Canonical(steps)
      && steps != [] && steps[|steps| - 1].Run?
  {
    var ts := Tokenize(domain).value;
    assert PatternOf(domain).value == Merge.Merge(ts);
    MergeKeepsItems(ts);
    assert Canonical(Merge.Merge(ts)) by {
      TokenizeNoEmpty(domain);
      MergeCanonical(ts);
    }
    assert ts != [] && ts[|ts| - 1].Literal? by {
      TokenizeShape(domain);
    }
    MergeEndsWithRun(ts);
  }

  /** The results already collected, followed by the collection of the rest. */
  function Prepend<B>(done: seq<B>, rest: Result<seq<B>>): Result<seq<B>>
  {
    match rest
    case Err(e) => Err(e)
    case Ok(ys) => Ok(done + ys)
  }

  lemma CollectStart<A, B>(f: A -> Result<B>, xs: seq<A>)
    ensures Collect(f, xs) == Prepend([], Collect(f, xs[0..]))
  {
    assert xs[0..] == xs;
    if Collect(f, xs).Ok? {
      assert [] + Collect(f, xs).value == Collect(f, xs).value;
    }
  }

  /** One turn of a left-to-right collecting loop. */
  lemma CollectStep<A, B>(f: A -> Result<B>, xs: seq<A>, k: nat, done: seq<B>)
    requires k < |xs| && Collect(f, xs) == Prepend(done, Collect(f, xs[k..]))
    ensures f(xs[k]).Err? ==> Collect(f, xs) == Err(f(xs[k]).error)
    ensures f(xs[k]).Ok? ==> Collect(f, xs) == Prepend(done + [f(xs[k]).value], Collect(f, xs[k + 1..]))
  {
    assert xs[k..][0] == xs[k] && xs[k..][1..] == xs[k + 1..];
    var rest := Collect(f, xs[k + 1..]);
    if f(xs[k]).Ok? && rest.Ok? {
      Assoc(done, [f(xs[k]).value], rest.value);
    }
  }

  lemma CollectEnd<A, B>(f: A -> Result<B>, xs: seq<A>, done: seq<B>)
    requires Collect(f, xs) == Prepend(done, Collect(f, xs[|xs|..]))
    ensures Collect(f, xs) == Ok(done)
  {
    assert xs[|xs|..] == [];
    assert done + [] == done;
  }

  /** The pattern of one domain argument, as the body of the parsing loop computes it. */
  method DomainPattern(domain: seq<Octet>) returns (r: Result<seq<Step>>)
    ensures r == PatternOf(domain)
  {
    var tokens := TokenizeDomain(domain);
    if tokens.Err? {
      return Err(tokens.error);
    }
    r := Ok(Merge.Merge(tokens.value));
  }

  /** The loop over the domain arguments that fills `list_of_rules`. */
  method ParsePatterns(domains: seq<seq<Octet>>) returns (r: Result<seq<seq<Step>>>)
    ensures r == Parse(domains)
  {
    var rules: seq<seq<Step>> := [];
    CollectStart(PatternOf, domains);
    for k := 0 to |domains|
      invariant Parse(domains) == Prepend(rules, Collect(PatternOf, domains[k..]))
    {
      var p := DomainPattern(domains[k]);
      CollectStep(PatternOf, domains, k, rules);
      if p.Err? {
        return Err(p.error);
      }
      rules := rules + [p.value];
    }
    CollectEnd(PatternOf, domains, rules);
    r := Ok(rules);
  }

  /** Parsing fails exactly when some domain has a label too long to encode; otherwise every
      domain gives the merge of its tokens, in order. */
  lemma ParseMeaning(domains: seq<seq<Octet>>)
    ensures Parse(domains).Err? <==> exists k :: 0 <= k < |domains| && PatternOf(domains[k]).Err?
    ensures Parse(domains).Ok? ==>
      && |Parse(domains).value| == |domains|
      && forall k :: 0 <= k < |domains| ==> Parse(domains).value[k] == PatternOf(domains[k]).value
  {
    CollectMeaning(PatternOf, domains);
  }

  /** Computes the offset of the question name into A and X, and keeps it in M[0] when a
      later block must restore X from there. */
  function Preamble(o: Options, count: nat): seq<Instr>
  {
    (if o.inet6 then [LdImm(o.l3Offset + 40 + 8 + 12)]
     else [LdxIpHeaderLen(o.l3Offset), LdImm(o.l3Offset + 8 + 12), AddX])
    + [Tax] + (if count > 1 then [St0] else [])
  }

  /** The code of one step: a run compared by `match_exact`, a wildcard skipped by `match_star`. */
  function StepCode(s: Step, ignoreCase: bool, target: nat, last: bool): seq<Instr>
  {
    match s
    case Run(run) => ExactCode(run, ignoreCase, target, last)
    case Skip => StarCode()
  }

  /** The code of the steps of a pattern from the j-th on; a failing test leaves for `target`. */
  function StepsCode(steps: seq<Step>, j: nat, ignoreCase: bool, target: nat): seq<Instr>
    decreases |steps| - j
  {
    if j >= |steps| then []
    else StepCode(steps[j], ignoreCase, target, j == |steps| - 1) + StepsCode(steps, j + 1, ignoreCase, target)
  }

  /** The block of the i-th pattern: its label, X restored from M[0] except in the first
      block, the tests of its steps, and the accepting return. */
  function Block(pats: seq<seq<Step>>, i: nat, o: Options): seq<Instr>
    requires i < |pats|
  {
    [Label(i)] + (if i != 0 then [Ldx0] else []) + StepsCode(pats[i], 0, o.ignoreCase, i + 1)
    + [Ret(AcceptCode(o))]
  }

  /** The blocks from the i-th on, then the label after the last block and the rejecting return. */
  function BlocksFrom(pats: seq<seq<Step>>, i: nat, o: Options): seq<Instr>
    decreases |pats| - i
  {
    if i >= |pats| then [Label(|pats|), Ret(RejectCode(o))]
    else Block(pats, i, o) + BlocksFrom(pats, i + 1, o)
  }

  /** The whole listing for the given patterns. */
  function Program(pats: seq<seq<Step>>, o: Options): seq<Instr>
  {
    Preamble(o, |pats|) + BlocksFrom(pats, 0, o)
  }

  /** `match_exact` for a run, `match_star` for a wildcard. */
  method EmitStep(s: Step, ignoreCase: bool, target: nat, last: bool) returns (c: seq<Instr>)
    ensures c == StepCode(s, ignoreCase, target, last)
  {
    match s
    case Run(run) =>
      c := MatchExact(run, target, last, ignoreCase);
    case Skip =>
      c := StarCode();
  }

  lemma StepsNext(steps: seq<Step>, j: nat, ignoreCase: bool, target: nat, done: seq<Instr>, c: seq<Instr>)
    requires j < |steps| && c == StepCode(steps[j], ignoreCase, target, j == |steps| - 1)
    ensures (done + c) + StepsCode(steps, j + 1, ignoreCase, target) == done + StepsCode(steps, j, ignoreCase, target)
  {
    Assoc(done, c, StepsCode(steps, j + 1, ignoreCase, target));
  }

  /** The body of the loop over the patterns: the block of the i-th one. */
  method EmitBlock(pats: seq<seq<Step>>, i: nat, o: Options) returns (block: seq<Instr>)
    requires i < |pats|
    ensures block == Block(pats, i, o)
  {
    var steps := pats[i];
    block := [Label(i)] + (if i != 0 then [Ldx0] else []);
    ghost var head := block;
    for j := 0 to |steps|
      invariant block + StepsCode(steps, j, o.ignoreCase, i + 1) == head + StepsCode(steps, 0, o.ignoreCase, i + 1)
    {
      var c := EmitStep(steps[j], o.ignoreCase, i + 1, j == |steps| - 1);
      assert (block + c) + StepsCode(steps, j + 1, o.ignoreCase, i + 1) == block + StepsCode(steps, j, o.ignoreCase, i + 1) by {
        StepsNext(steps, j, o.ignoreCase, i + 1, block, c);
      }
      block := block + c;
    }
    assert block == head + StepsCode(steps, 0, o.ignoreCase, i + 1) by {
      assert StepsCode(steps, |steps|, o.ignoreCase, i + 1) == [];
      assert block + [] == block;
    }
    block := block + [Ret(AcceptCode(o))];
  }

  lemma BlocksNext(pats: seq<seq<Step>>, i: nat, o: Options, done: seq<Instr>)
    requires i < |pats|
    ensures (done + Block(pats, i, o)) + BlocksFrom(pats, i + 1, o) == done + BlocksFrom(pats, i, o)
  {
    Assoc(done, Block(pats, i, o), BlocksFrom(pats, i + 1, o));
  }

  /** The code generation loop: the preamble, one block per pattern, the reject block. */
  method Compile(pats: seq<seq<Step>>, o: Options) returns (prog: seq<Instr>)
    requires |pats| >= 1
    ensures prog == Program(pats, o)
  {
    prog := Preamble(o, |pats|);
    for i := 0 to |pats|
      invariant prog + BlocksFrom(pats, i, o) == Program(pats, o)
    {
      var block := EmitBlock(pats, i, o);
      assert (prog + block) + BlocksFrom(pats, i + 1, o) == prog + BlocksFrom(pats, i, o) by {
        BlocksNext(pats, i, o, prog);
      }
      prog := prog + block;
    }
    prog := prog + [Label(|pats|), Ret(RejectCode(o))];
  }

  /** The whole program: no domain is an error, a label too long to encode is the error of
      chr(), and otherwise the listing of the parsed patterns. */
  method BpfDns(domains: seq<seq<Octet>>, o: Options) returns (r: Result<seq<Instr>>)
    ensures domains == [] ==> r == Err(NoDomain)
    ensures domains != [] && Parse(domains).Err? ==> r == Err(ChrOutOfRange)
    ensures domains != [] && Parse(domains).Ok? ==> r == Ok(Program(Parse(domains).value, o))
  {
    if domains == [] {
      return Err(NoDomain);
    }
    var pats := ParsePatterns(domains);
    if pats.Err? {
      return Err(ChrOutOfRange);
    }
    var prog := Compile(pats.value, o);
    r := Ok(prog);
  }
}
