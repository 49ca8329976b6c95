/** Where the blocks of the listing lie, and where its labels are declared: every label
    `lb_i` is declared once, at the start of the i-th block, after every jump to it. */
module Layout {
  import opened Bits
  import opened Labels
  import opened Merge
  import opened Bpf
  import opened Emit
  import opened Semantics
  import opened Compiler

  /** Code that declares no label. */
  predicate LabelFree(code: seq<Instr>)
  {
    forall k :: 0 <= k < |code| ==> !code[k].Label?
  }

  /** Code whose labels are all below i. */
  predicate LabelsBelow(code: seq<Instr>, i: nat)
  {
    forall k :: 0 <= k < |code| && code[k].Label? ==> code[k].name < i
  }

  lemma LabelFreeAppend(a: seq<Instr>, b: seq<Instr>)
    requires LabelFree(a) && LabelFree(b)
    ensures LabelFree(a + b)
  {
    assert forall k :: |a| <= k < |a + b| ==> (a + b)[k] == b[k - |a|];
  }

  lemma {:induction false} ChunksLabelFree(cs: seq<Chunk>, target: nat)
    ensures LabelFree(ChunksCode(cs, target))
    decreases |cs|
  {
    if cs != [] {
      ChunksLabelFree(cs[1..], target);
      LabelFreeAppend(ChunkCode(cs[0], target), ChunksCode(cs[1..], target));
    }
  }

  /** The code of a pattern's steps declares no label: the failure labels are the blocks'. */
  lemma {:induction false} StepsLabelFree(steps: seq<Step>, j: nat, ignoreCase: bool, target: nat)
    ensures LabelFree(StepsCode(steps, j, ignoreCase, target))
    decreases |steps| - j
  {
    if j < |steps| {
      StepsLabelFree(steps, j + 1, ignoreCase, target);
      var last := j == |steps| - 1;
      match steps[j]
      case Skip =>
        LabelFreeAppend(StarCode(), StepsCode(steps, j + 1, ignoreCase, target));
      case Run(run) =>
        ExactLabelFree(run, ignoreCase, target, last);
        LabelFreeAppend(ExactCode(run, ignoreCase, target, last), StepsCode(steps, j + 1, ignoreCase, target));
    }
  }

  lemma ExactLabelFree(run: seq<WireByte>, ignoreCase: bool, target: nat, last: bool)
    ensures LabelFree(ExactCode(run, ignoreCase, target, last))
  {
    var cs := Chunks(Values(run), Masks(run, ignoreCase), 0);
    ChunksLabelFree(cs, target);
    LabelFreeAppend(ChunksCode(cs, target), AdvanceCode(|run|, last));
  }

  /** The preamble and the first i blocks. */
  function Prefix(pats: seq<seq<Step>>, o: Options, i: nat): seq<Instr>
    requires i <= |pats|
  {
    if i == 0 then Preamble(o, |pats|) else Prefix(pats, o, i - 1) + Block(pats, i - 1, o)
  }

  /** Where the i-th block starts: after the preamble and the blocks before it. */
  function Start(pats: seq<seq<Step>>, o: Options, i: nat): nat
    requires i <= |pats|
  {
    |Prefix(pats, o, i)|
  }

  /** The listing is the preamble and the first i blocks, then the blocks from the i-th on. */
  lemma {:induction false} ProgramSplit(pats: seq<seq<Step>>, o: Options, i: nat)
    requires i <= |pats|
    ensures Program(pats, o) == Prefix(pats, o, i) + BlocksFrom(pats, i, o)
  {
    if i > 0 {
      ProgramSplit(pats, o, i - 1);
      Assoc(Prefix(pats, o, i - 1), Block(pats, i - 1, o), BlocksFrom(pats, i, o));
    }
  }

  /** The labels before the i-th block are those of the blocks before it. */
  lemma {:induction false} PrefixLabels(pats: seq<seq<Step>>, o: Options, i: nat)
    requires i <= |pats|
    ensures LabelsBelow(Prefix(pats, o, i), i)
  {
    if i > 0 {
      PrefixLabels(pats, o, i - 1);
      BlockLabels(pats, o, i - 1);
      LabelsBelowAppend(Prefix(pats, o, i - 1), Block(pats, i - 1, o), i);
    }
  }

  /** The only label of the i-th block is its own, `lb_i`. */
  lemma BlockLabels(pats: seq<seq<Step>>, o: Options, i: nat)
    requires i < |pats|
    ensures LabelsBelow(Block(pats, i, o), i + 1)
  {
    var head: seq<Instr> := [Label(i)] + (if i != 0 then [Ldx0] else []);
    var steps := StepsCode(pats[i], 0, o.ignoreCase, i + 1);
    var tail: seq<Instr> := [Ret(AcceptCode(o))];
    assert LabelsBelow(steps, i + 1) by {
      StepsLabelFree(pats[i], 0, o.ignoreCase, i + 1);
    }
    assert LabelsBelow(head, i + 1);
    assert LabelsBelow(tail, i + 1);
    LabelsBelowAppend(head, steps, i + 1);
    LabelsBelowAppend(head + steps, tail, i + 1);
  }

  lemma LabelsBelowAppend(a: seq<Instr>, b: seq<Instr>, i: nat)
    requires LabelsBelow(a, i) && LabelsBelow(b, i)
    ensures LabelsBelow(a + b, i)
  {
    assert forall k :: |a| <= k < |a + b| ==> (a + b)[k] == b[k - |a|];
  }

  /** The first declaration of a label behind code that does not declare it. */
  lemma {:induction false} LabelIndexAppend(p: seq<Instr>, q: seq<Instr>, name: nat)
    requires forall k :: 0 <= k < |p| ==> p[k] != Label(name)
    requires q != [] && q[0] == Label(name)
    ensures LabelIndex(p + q, name) == Some(|p|)
  {
    if p != [] {
      assert (p + q)[1..] == p[1..] + q;
      LabelIndexAppend(p[1..], q, name);
    } else {
      assert p + q == q;
    }
  }

  /** Label `lb_i` is declared at the start of the i-th block (the reject block for the last). */
  lemma LabelOfBlock(pats: seq<seq<Step>>, o: Options, i: nat)
    requires i <= |pats|
    ensures LabelIndex(Program(pats, o), i) == Some(|Prefix(pats, o, i)|)
  {
    ProgramSplit(pats, o, i);
    PrefixLabels(pats, o, i);
    var p := Prefix(pats, o, i);
    forall k | 0 <= k < |p|
      ensures p[k] != Label(i)
    {
      if p[k].Label? {
        assert p[k].name < i;
      }
    }
    LabelIndexAppend(p, BlocksFrom(pats, i, o), i);
  }

  /** Code whose jumps all leave for `lb_target`. */
  predicate JumpsTo(code: seq<Instr>, target: nat)
  {
    forall k :: 0 <= k < |code| && code[k].Jneq? ==> code[k].target == target
  }

  lemma JumpsToAppend(a: seq<Instr>, b: seq<Instr>, target: nat)
    requires JumpsTo(a, target) && JumpsTo(b, target)
    ensures JumpsTo(a + b, target)
  {
    assert forall k :: |a| <= k < |a + b| ==> (a + b)[k] == b[k - |a|];
  }

  lemma {:induction false} ChunksJumpTo(cs: seq<Chunk>, target: nat)
    ensures JumpsTo(ChunksCode(cs, target), target)
    decreases |cs|
  {
    if cs != [] {
      ChunksJumpTo(cs[1..], target);
      JumpsToAppend(ChunkCode(cs[0], target), ChunksCode(cs[1..], target), target);
    }
  }

  /** Every jump of the code of a pattern's steps leaves for the failure label it is given. */
  lemma {:induction false} StepsJumpTo(steps: seq<Step>, j: nat, ignoreCase: bool, target: nat)
    ensures JumpsTo(StepsCode(steps, j, ignoreCase, target), target)
    decreases |steps| - j
  {
    if j < |steps| {
      StepsJumpTo(steps, j + 1, ignoreCase, target);
      var last := j == |steps| - 1;
      match steps[j]
      case Skip =>
        JumpsToAppend(StarCode(), StepsCode(steps, j + 1, ignoreCase, target), target);
      case Run(run) =>
        ExactJumpsTo(run, ignoreCase, target, last);
        JumpsToAppend(ExactCode(run, ignoreCase, target, last), StepsCode(steps, j + 1, ignoreCase, target), target);
    }
  }

  lemma ExactJumpsTo(run: seq<WireByte>, ignoreCase: bool, target: nat, last: bool)
    ensures JumpsTo(ExactCode(run, ignoreCase, target, last), target)
  {
    var cs := Chunks(Values(run), Masks(run, ignoreCase), 0);
    ChunksJumpTo(cs, target);
    JumpsToAppend(ChunksCode(cs, target), AdvanceCode(|run|, last), target);
  }

  /** The i-th block declares `lb_i` at its start and no other label, and each of its jumps
      leaves for `lb_(i+1)`. */
  lemma BlockShape(pats: seq<seq<Step>>, o: Options, i: nat)
    requires i < |pats|
    ensures var b := Block(pats, i, o);
      && b[0] == Label(i)
      && (forall k :: 0 < k < |b| ==> !b[k].Label?)
      && JumpsTo(b, i + 1)
  {
    var steps := StepsCode(pats[i], 0, o.ignoreCase, i + 1);
    StepsLabelFree(pats[i], 0, o.ignoreCase, i + 1);
    StepsJumpTo(pats[i], 0, o.ignoreCase, i + 1);
    LabelledShape(i, i != 0, steps, AcceptCode(o));
  }

  /** A label, an optional restore of X, label-free code leaving only for `lb_(i+1)`, and a
      return. */
  lemma LabelledShape(i: nat, restore: bool, steps: seq<Instr>, v: int)
    requires LabelFree(steps) && JumpsTo(steps, i + 1)
    ensures var b := [Label(i)] + (if restore then [Ldx0] else []) + steps + [Ret(v)];
      && b[0] == Label(i)
      && (forall k :: 0 < k < |b| ==> !b[k].Label?)
      && JumpsTo(b, i + 1)
  {
    var head: seq<Instr> := [Label(i)] + (if restore then [Ldx0] else []);
    var tail: seq<Instr> := [Ret(v)];
    var b := head + steps + tail;
    JumpsToAppend(head, steps, i + 1);
    JumpsToAppend(head + steps, tail, i + 1);
    forall k | 0 < k < |b|
      ensures !b[k].Label?
    {
      if |head| <= k < |head| + |steps| {
        assert b[k] == steps[k - |head|];
      }
    }
  }

  /** Code laid out from the start of the listing that declares `lb_n` only at starts[n]. */
  predicate LabelsAt(code: seq<Instr>, starts: seq<int>)
  {
    forall k :: 0 <= k < |code| && code[k].Label? ==> code[k].name < |starts| && k == starts[code[k].name]
  }

  /** Code laid out from the start of the listing whose jumps to `lb_t` lie between starts[t - 1]
      and starts[t]: each leaves forward, for the start of the block after its own. */
  predicate JumpsAt(code: seq<Instr>, starts: seq<int>)
  {
    forall pc :: 0 <= pc < |code| && code[pc].Jneq? ==>
      1 <= code[pc].target < |starts| && starts[code[pc].target - 1] < pc < starts[code[pc].target]
  }

  /** Appending a block that starts with `lb_i`, declares no other label and leaves only for
      `lb_(i+1)`, which follows it. */
  lemma AppendBlockAt(p: seq<Instr>, b: seq<Instr>, starts: seq<int>, i: nat)
    requires LabelsAt(p, starts) && JumpsAt(p, starts)
    requires i + 1 < |starts| && starts[i] == |p| && starts[i + 1] == |p| + |b|
    requires b != [] && b[0] == Label(i) && (forall k :: 0 < k < |b| ==> !b[k].Label?) && JumpsTo(b, i + 1)
    ensures LabelsAt(p + b, starts) && JumpsAt(p + b, starts)
  {
    var q := p + b;
    forall k | 0 <= k < |q|
      ensures q[k].Label? ==> q[k].name < |starts| && k == starts[q[k].name]
      ensures q[k].Jneq? ==> 1 <= q[k].target < |starts| && starts[q[k].target - 1] < k < starts[q[k].target]
    {
      if k < |p| {
        assert q[k] == p[k];
      } else {
        assert q[k] == b[k - |p|];
      }
    }
  }

  /** Appending the reject block: `lb_i` and a return, where starts[i] says. */
  lemma AppendRejectAt(p: seq<Instr>, starts: seq<int>, i: nat, v: int)
    requires LabelsAt(p, starts) && JumpsAt(p, starts)
    requires i < |starts| && starts[i] == |p|
    ensures LabelsAt(p + [Label(i), Ret(v)], starts) && JumpsAt(p + [Label(i), Ret(v)], starts)
  {
    var q := p + [Label(i), Ret(v)];
    assert forall k :: 0 <= k < |p| ==> q[k] == p[k];
  }

  /** Where every block starts, the reject block last. */
  function Starts(pats: seq<seq<Step>>, o: Options): seq<int>
  {
    seq(|pats| + 1, n requires 0 <= n <= |pats| => Start(pats, o, n))
  }

  lemma StartsIndex(pats: seq<seq<Step>>, o: Options, n: nat)
    requires n <= |pats|
    ensures |Starts(pats, o)| == |pats| + 1 && Starts(pats, o)[n] == Start(pats, o, n)
  {
  }

  /** The preamble declares no label and jumps nowhere. */
  lemma PreamblePlaced(o: Options, count: nat, starts: seq<int>)
    ensures LabelsAt(Preamble(o, count), starts) && JumpsAt(Preamble(o, count), starts)
  {
    var pre := Preamble(o, count);
    assert forall k :: 0 <= k < |pre| ==> !pre[k].Label? && !pre[k].Jneq?;
  }

  /** The i-th block, appended to the preamble and the blocks before it. */
  lemma BlockPlaced(pats: seq<seq<Step>>, o: Options, i: nat, starts: seq<int>)
    requires i < |pats| && starts == Starts(pats, o)
    requires LabelsAt(Prefix(pats, o, i), starts) && JumpsAt(Prefix(pats, o, i), starts)
    ensures LabelsAt(Prefix(pats, o, i + 1), starts) && JumpsAt(Prefix(pats, o, i + 1), starts)
  {
    var p: seq<Instr> := Prefix(pats, o, i);
    var b: seq<Instr> := Block(pats, i, o);
    assert Prefix(pats, o, i + 1) == p + b;
    assert starts[i] == |p| && starts[i + 1] == |p| + |b| by {
      StartsIndex(pats, o, i);
      StartsIndex(pats, o, i + 1);
    }
    BlockShape(pats, o, i);
    AppendBlockAt(p, b, starts, i);
  }

  /** The preamble and the first i blocks place their labels and jumps as the whole listing does. */
  lemma {:induction false} PrefixPlaced(pats: seq<seq<Step>>, o: Options, i: nat)
    requires i <= |pats|
    ensures LabelsAt(Prefix(pats, o, i), Starts(pats, o)) && JumpsAt(Prefix(pats, o, i), Starts(pats, o))
  {
    if i == 0 {
      PreamblePlaced(o, |pats|, Starts(pats, o));
    } else {
      PrefixPlaced(pats, o, i - 1);
      BlockPlaced(pats, o, i - 1, Starts(pats, o));
    }
  }

  /** The whole listing: the preamble, the blocks, then the reject block. */
  lemma ProgramAt(pats: seq<seq<Step>>, o: Options)
    ensures LabelsAt(Program(pats, o), Starts(pats, o)) && JumpsAt(Program(pats, o), Starts(pats, o))
  {
    var p: seq<Instr> := Prefix(pats, o, |pats|);
    ProgramSplit(pats, o, |pats|);
    assert Program(pats, o) == p + [Label(|pats|), Ret(RejectCode(o))];
    PrefixPlaced(pats, o, |pats|);
    StartsIndex(pats, o, |pats|);
    AppendRejectAt(p, Starts(pats, o), |pats|, RejectCode(o));
  }

  /** Every label of the listing is declared exactly once: `lb_n` for n up to the number of
      patterns, at the start of the n-th block (the reject block for the last). Every jump
      leaves forward from inside the block before the one it leaves for. */
  lemma ProgramPlaced(pats: seq<seq<Step>>, o: Options)
    ensures var prog := Program(pats, o);
      forall k :: 0 <= k < |prog| && prog[k].Label? ==>
        prog[k].name <= |pats| && k == Start(pats, o, prog[k].name)
    ensures var prog := Program(pats, o);
      forall pc :: 0 <= pc < |prog| && prog[pc].Jneq? ==>
        (1 <= prog[pc].target <= |pats|
         && Start(pats, o, prog[pc].target - 1) < pc < Start(pats, o, prog[pc].target))
    ensures forall n :: 0 <= n <= |pats| ==>
      Start(pats, o, n) < |Program(pats, o)| && Program(pats, o)[Start(pats, o, n)] == Label(n)
  {
    ProgramLabelsPlaced(pats, o);
    ProgramJumpsPlaced(pats, o);
    var prog := Program(pats, o);
    forall n | 0 <= n <= |pats|
      ensures Start(pats, o, n) < |prog| && prog[Start(pats, o, n)] == Label(n)
    {
      LabelOfBlock(pats, o, n);
      LabelIndexFirst(prog, n);
    }
  }

  lemma ProgramLabelsPlaced(pats: seq<seq<Step>>, o: Options)
    ensures var prog := Program(pats, o);
      forall k :: 0 <= k < |prog| && prog[k].Label? ==>
        prog[k].name <= |pats| && k == Start(pats, o, prog[k].name)
  {
    var prog := Program(pats, o);
    ProgramAt(pats, o);
    forall k | 0 <= k < |prog| && prog[k].Label?
      ensures prog[k].name <= |pats| && k == Start(pats, o, prog[k].name)
    {
      StartsIndex(pats, o, prog[k].name);
    }
  }

  lemma ProgramJumpsPlaced(pats: seq<seq<Step>>, o: Options)
    ensures var prog := Program(pats, o);
      forall pc :: 0 <= pc < |prog| && prog[pc].Jneq? ==>
        (1 <= prog[pc].target <= |pats|
         && Start(pats, o, prog[pc].target - 1) < pc < Start(pats, o, prog[pc].target))
  {
    var prog := Program(pats, o);
    ProgramAt(pats, o);
    forall pc | 0 <= pc < |prog| && prog[pc].Jneq?
      ensures 1 <= prog[pc].target <= |pats|
        && Start(pats, o, prog[pc].target - 1) < pc < Start(pats, o, prog[pc].target)
    {
      StartsIndex(pats, o, prog[pc].target - 1);
      StartsIndex(pats, o, prog[pc].target);
    }
  }
}
