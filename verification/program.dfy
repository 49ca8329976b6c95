/** The whole listing, run on the filter machine, returns what Filter decides. */
module Theorem {
  import opened Bits
  import opened Labels
  import opened Merge
  import opened Bpf
  import opened Emit
  import opened Semantics
  import opened Compiler
  import opened Correctness
  import opened Layout

  /** The steps of a pattern from the j-th on, run on the machine from cursor x, end in kOk
      when Attempt matches, in kFail when it does not, and abort when it reads past the packet. */
  lemma {:induction false} ExecSteps(prog: seq<Instr>, pc: nat, end: nat, steps: seq<Step>, j: nat, ignoreCase: bool,
                                     target: nat, f: nat, a: u32, x: u32, m0: u32, pkt: seq<byte>,
                                     kOk: Outcome, kFail: Outcome)
    requires j <= |steps|
    requires At(prog, pc, StepsCode(steps, j, ignoreCase, target))
    requires end == pc + |StepsCode(steps, j, ignoreCase, target)|
    requires LabelIndex(prog, target) == Some(f) && f >= end
    requires Restarts(prog, f, m0, pkt, kFail) && Restarts(prog, end, m0, pkt, kOk)
    requires |pkt| + 256 <= WORD
    ensures Exec(prog, pc, Regs(a, x, m0), pkt) == Continue(Attempt(steps[j..], ignoreCase, pkt, x), kOk, kFail)
    decreases |steps| - j, 1
  {
    if j == |steps| {
      assert steps[j..] == [];
      assert Exec(prog, end, Regs(a, x, m0), pkt) == kOk;
    } else if steps[j].Skip? {
      ExecSkipStep(prog, pc, end, steps, j, ignoreCase, target, f, a, x, m0, pkt, kOk, kFail);
    } else {
      ExecRunStep(prog, pc, end, steps, j, ignoreCase, target, f, a, x, m0, pkt, kOk, kFail);
    }
  }

  /** A wildcard step, then the rest of the pattern from the label after the skipped one. */
  lemma {:induction false} ExecSkipStep(prog: seq<Instr>, pc: nat, end: nat, steps: seq<Step>, j: nat, ignoreCase: bool,
                                        target: nat, f: nat, a: u32, x: u32, m0: u32, pkt: seq<byte>,
                                        kOk: Outcome, kFail: Outcome)
    requires j < |steps| && steps[j].Skip?
    requires At(prog, pc, StepsCode(steps, j, ignoreCase, target))
    requires end == pc + |StepsCode(steps, j, ignoreCase, target)|
    requires LabelIndex(prog, target) == Some(f) && f >= end
    requires Restarts(prog, f, m0, pkt, kFail) && Restarts(prog, end, m0, pkt, kOk)
    requires |pkt| + 256 <= WORD
    ensures Exec(prog, pc, Regs(a, x, m0), pkt) == Continue(Attempt(steps[j..], ignoreCase, pkt, x), kOk, kFail)
    decreases |steps| - j, 0
  {
    var mid := SkipAt(prog, pc, end, steps, j, ignoreCase, target);
    var y: nat := x + 1 + (if x < |pkt| then pkt[x] else 0);
    var kNext := Continue(Attempt(steps[j + 1..], ignoreCase, pkt, y), kOk, kFail);
    if x < |pkt| {
      assert y < WORD;
      forall a': u32
        ensures Exec(prog, mid, Regs(a', y, m0), pkt) == kNext
      {
        ExecSteps(prog, mid, end, steps, j + 1, ignoreCase, target, f, a', y, m0, pkt, kOk, kFail);
      }
    }
    SkipStep(prog, pc, mid, steps, j, ignoreCase, a, x, y, m0, pkt, kOk, kFail, kNext);
  }

  /** A compare step, then the rest of the pattern past the run. */
  lemma {:induction false} ExecRunStep(prog: seq<Instr>, pc: nat, end: nat, steps: seq<Step>, j: nat, ignoreCase: bool,
                                       target: nat, f: nat, a: u32, x: u32, m0: u32, pkt: seq<byte>,
                                       kOk: Outcome, kFail: Outcome)
    requires j < |steps| && steps[j].Run?
    requires At(prog, pc, StepsCode(steps, j, ignoreCase, target))
    requires end == pc + |StepsCode(steps, j, ignoreCase, target)|
    requires LabelIndex(prog, target) == Some(f) && f >= end
    requires Restarts(prog, f, m0, pkt, kFail) && Restarts(prog, end, m0, pkt, kOk)
    requires |pkt| + 256 <= WORD
    ensures Exec(prog, pc, Regs(a, x, m0), pkt) == Continue(Attempt(steps[j..], ignoreCase, pkt, x), kOk, kFail)
    decreases |steps| - j, 0
  {
    var run := steps[j].bytes;
    var last := j == |steps| - 1;
    var mid := RunAt(prog, pc, end, steps, j, ignoreCase, target);
    var after := if last then x else x + |run|;
    var kNext := Continue(Attempt(steps[j + 1..], ignoreCase, pkt, after), kOk, kFail);
    if RunFrom(run, ignoreCase, pkt, x, 0) == Match {
      RunAfter(run, ignoreCase, pkt, x, after, last);
      forall a': u32
        ensures Exec(prog, mid, Regs(a', after, m0), pkt) == kNext
      {
        ExecSteps(prog, mid, end, steps, j + 1, ignoreCase, target, f, a', after, m0, pkt, kOk, kFail);
      }
    }
    RunStep(prog, pc, mid, steps, j, run, ignoreCase, target, f, a, x, after, m0, pkt, kOk, kFail, kNext);
  }

  /** The code of the steps from a wildcard on: `match_star`, then the code of the rest. */
  lemma SkipAt(prog: seq<Instr>, pc: nat, end: nat, steps: seq<Step>, j: nat, ignoreCase: bool, target: nat)
    returns (mid: nat)
    requires j < |steps| && steps[j].Skip?
    requires At(prog, pc, StepsCode(steps, j, ignoreCase, target))
    requires end == pc + |StepsCode(steps, j, ignoreCase, target)|
    ensures mid == pc + |StarCode()| && At(prog, pc, StarCode())
    ensures At(prog, mid, StepsCode(steps, j + 1, ignoreCase, target))
    ensures end == mid + |StepsCode(steps, j + 1, ignoreCase, target)|
  {
    mid := pc + |StarCode()|;
    AtSplit(prog, pc, StarCode(), StepsCode(steps, j + 1, ignoreCase, target));
  }

  /** The code of the steps from a run on: `match_exact`, then the code of the rest. */
  lemma RunAt(prog: seq<Instr>, pc: nat, end: nat, steps: seq<Step>, j: nat, ignoreCase: bool, target: nat)
    returns (mid: nat)
    requires j < |steps| && steps[j].Run?
    requires At(prog, pc, StepsCode(steps, j, ignoreCase, target))
    requires end == pc + |StepsCode(steps, j, ignoreCase, target)|
    ensures var code := ExactCode(steps[j].bytes, ignoreCase, target, j == |steps| - 1);
      mid == pc + |code| && At(prog, pc, code)
    ensures At(prog, mid, StepsCode(steps, j + 1, ignoreCase, target))
    ensures end == mid + |StepsCode(steps, j + 1, ignoreCase, target)|
  {
    var code := ExactCode(steps[j].bytes, ignoreCase, target, j == |steps| - 1);
    mid := pc + |code|;
    AtSplit(prog, pc, code, StepsCode(steps, j + 1, ignoreCase, target));
  }

  /** After a matching run the cursor stays inside the 32-bit range. */
  lemma RunAfter(run: seq<WireByte>, ignoreCase: bool, pkt: seq<byte>, x: u32, after: int, last: bool)
    requires RunFrom(run, ignoreCase, pkt, x, 0) == Match && |pkt| < WORD
    requires after == if last then x else x + |run|
    ensures 0 <= after < WORD
  {
    if |run| > 0 {
      RunMatchInside(run, ignoreCase, pkt, x, 0);
    }
  }

  /** A wildcard step: the machine skips the label under the cursor, as Attempt does. */
  lemma SkipStep(prog: seq<Instr>, pc: nat, mid: nat, steps: seq<Step>, j: nat, ignoreCase: bool,
                 a: u32, x: u32, y: nat, m0: u32, pkt: seq<byte>, kOk: Outcome, kFail: Outcome, kNext: Outcome)
    requires j < |steps| && steps[j] == Skip
    requires At(prog, pc, StarCode()) && mid == pc + |StarCode()| && |pkt| + 256 <= WORD
    requires x < |pkt| ==> y == x + pkt[x] + 1 && y < WORD && Yields(prog, mid, y, m0, pkt, kNext)
    requires kNext == Continue(Attempt(steps[j + 1..], ignoreCase, pkt, y), kOk, kFail)
    ensures Exec(prog, pc, Regs(a, x, m0), pkt) == Continue(Attempt(steps[j..], ignoreCase, pkt, x), kOk, kFail)
  {
    assert steps[j..][0] == steps[j] && steps[j..][1..] == steps[j + 1..];
    ExecStar(prog, pc, a, x, m0, pkt);
    if x < |pkt| {
      assert Exec(prog, mid, Regs(y, y, m0), pkt) == kNext;
    }
  }

  /** Attempt on a run step: what RunFrom decides, and after a match, the rest from past the run. */
  lemma AttemptRun(steps: seq<Step>, j: nat, run: seq<WireByte>, ignoreCase: bool, pkt: seq<byte>, x: nat,
                   after: nat, kOk: Outcome, kFail: Outcome, kNext: Outcome)
    requires j < |steps| && steps[j] == Run(run)
    requires after == if j == |steps| - 1 then x else x + |run|
    requires kNext == Continue(Attempt(steps[j + 1..], ignoreCase, pkt, after), kOk, kFail)
    ensures Continue(Attempt(steps[j..], ignoreCase, pkt, x), kOk, kFail) == Continue(RunFrom(run, ignoreCase, pkt, x, 0), kNext, kFail)
  {
    assert steps[j..][0] == steps[j] && steps[j..][1..] == steps[j + 1..];
    if j == |steps| - 1 {
      assert steps[j + 1..] == [];
    }
  }

  /** A compare step: the machine decides as RunFrom, and after a match goes on with the rest. */
  lemma RunStep(prog: seq<Instr>, pc: nat, mid: nat, steps: seq<Step>, j: nat, run: seq<WireByte>, ignoreCase: bool,
                target: nat, f: nat, a: u32, x: u32, after: nat, m0: u32, pkt: seq<byte>,
                kOk: Outcome, kFail: Outcome, kNext: Outcome)
    requires j < |steps| && steps[j] == Run(run)
    requires At(prog, pc, ExactCode(run, ignoreCase, target, j == |steps| - 1))
    requires mid == pc + |ExactCode(run, ignoreCase, target, j == |steps| - 1)|
    requires LabelIndex(prog, target) == Some(f) && f >= mid
    requires Restarts(prog, f, m0, pkt, kFail) && |pkt| < WORD
    requires after == if j == |steps| - 1 then x else x + |run|
    requires kNext == Continue(Attempt(steps[j + 1..], ignoreCase, pkt, after), kOk, kFail)
    requires RunFrom(run, ignoreCase, pkt, x, 0) == Match ==> Yields(prog, mid, after, m0, pkt, kNext)
    ensures Exec(prog, pc, Regs(a, x, m0), pkt) == Continue(Attempt(steps[j..], ignoreCase, pkt, x), kOk, kFail)
  {
    AttemptRun(steps, j, run, ignoreCase, pkt, x, after, kOk, kFail, kNext);
    assert Yields(prog, f, x, m0, pkt, kFail);
    ExecExact(prog, pc, mid, run, ignoreCase, target, j == |steps| - 1, f, a, x, after, m0, pkt, kNext, kFail);
  }

  /** The arrangement of the listing: the preamble first, the i-th block where the blocks
      before it end, with `lb_i` first declared there, and the reject block after the last. */
  predicate Laid(prog: seq<Instr>, pats: seq<seq<Step>>, o: Options)
  {
    && At(prog, 0, Preamble(o, |pats|))
    && (forall i :: 0 <= i < |pats| ==> At(prog, Start(pats, o, i), Block(pats, i, o)))
    && (forall i :: 0 <= i <= |pats| ==> LabelIndex(prog, i) == Some(Start(pats, o, i)))
    && At(prog, Start(pats, o, |pats|), [Label(|pats|), Ret(RejectCode(o))])
  }

  lemma AtMiddle(prog: seq<Instr>, p: seq<Instr>, b: seq<Instr>, q: seq<Instr>)
    requires prog == p + b + q
    ensures At(prog, |p|, b)
  {
    assert prog[|p|..|p| + |b|] == b;
  }

  /** The listing is laid out as Laid says. */
  lemma ProgramLaid(pats: seq<seq<Step>>, o: Options)
    ensures Laid(Program(pats, o), pats, o)
  {
    var prog := Program(pats, o);
    PreambleIn(pats, o);
    forall i | 0 <= i < |pats|
      ensures At(prog, Start(pats, o, i), Block(pats, i, o))
    {
      BlockIn(pats, o, i);
    }
    forall i | 0 <= i <= |pats|
      ensures LabelIndex(prog, i) == Some(Start(pats, o, i))
    {
      LabelOfBlock(pats, o, i);
    }
    RejectIn(pats, o);
  }

  lemma PreambleIn(pats: seq<seq<Step>>, o: Options)
    ensures At(Program(pats, o), 0, Preamble(o, |pats|))
  {
    AtMiddle(Program(pats, o), [], Preamble(o, |pats|), BlocksFrom(pats, 0, o));
  }

  lemma BlockIn(pats: seq<seq<Step>>, o: Options, i: nat)
    requires i < |pats|
    ensures At(Program(pats, o), Start(pats, o, i), Block(pats, i, o))
  {
    ProgramSplit(pats, o, i + 1);
    AtMiddle(Program(pats, o), Prefix(pats, o, i), Block(pats, i, o), BlocksFrom(pats, i + 1, o));
  }

  lemma RejectIn(pats: seq<seq<Step>>, o: Options)
    ensures At(Program(pats, o), Start(pats, o, |pats|), [Label(|pats|), Ret(RejectCode(o))])
  {
    ProgramSplit(pats, o, |pats|);
    AtMiddle(Program(pats, o), Prefix(pats, o, |pats|), [Label(|pats|), Ret(RejectCode(o))], []);
  }

  /** The parts of the i-th block: its label and the restore of X, the code of its steps,
      and the accepting return, which the next block follows. */
  lemma BlockParts(prog: seq<Instr>, pc: nat, pats: seq<seq<Step>>, o: Options, i: nat)
    requires i < |pats| && At(prog, pc, Block(pats, i, o))
    ensures var ldx: seq<Instr> := if i != 0 then [Ldx0] else [];
      var steps := StepsCode(pats[i], 0, o.ignoreCase, i + 1);
      var end := pc + 1 + |ldx| + |steps|;
      && At(prog, pc, [Label(i)] + ldx) && At(prog, pc + 1 + |ldx|, steps)
      && end < |prog| && prog[end] == Ret(AcceptCode(o))
      && pc + |Block(pats, i, o)| == end + 1
  {
    var ldx: seq<Instr> := if i != 0 then [Ldx0] else [];
    var head, steps := [Label(i)] + ldx, StepsCode(pats[i], 0, o.ignoreCase, i + 1);
    assert Block(pats, i, o) == (head + steps) + [Ret(AcceptCode(o))];
    AtSplit(prog, pc, head + steps, [Ret(AcceptCode(o))]);
    AtSplit(prog, pc, head, steps);
    AtIndex(prog, pc + |head + steps|, [Ret(AcceptCode(o))], 0);
  }

  /** The i-th block: after its label (and X restored from M[0] in all but the first block),
      it accepts when Attempt matches the i-th pattern at the cursor and goes on at the next
      label when it does not. */
  lemma ExecBlock(prog: seq<Instr>, pc: nat, next: nat, pats: seq<seq<Step>>, o: Options, i: nat,
                  a: u32, x: u32, m0: u32, pkt: seq<byte>, cur: u32, kFail: Outcome)
    requires i < |pats| && |pkt| + 256 <= WORD
    requires At(prog, pc, Block(pats, i, o)) && next == pc + |Block(pats, i, o)|
    requires LabelIndex(prog, i + 1) == Some(next)
    requires Restarts(prog, next, m0, pkt, kFail)
    requires cur == if i == 0 then x else m0
    ensures Exec(prog, pc, Regs(a, x, m0), pkt)
      == Continue(Attempt(pats[i], o.ignoreCase, pkt, cur), Returned(AcceptCode(o)), kFail)
  {
    var ldx: seq<Instr> := if i != 0 then [Ldx0] else [];
    var steps := StepsCode(pats[i], 0, o.ignoreCase, i + 1);
    var start := pc + 1 + |ldx|;
    var end := start + |steps|;
    BlockParts(prog, pc, pats, o, i);
    var r := Exec(prog, start, Regs(a, cur, m0), pkt);
    assert Exec(prog, pc, Regs(a, x, m0), pkt) == r by {
      BlockEntry(prog, pc, start, i, a, x, m0, pkt, cur);
    }
    assert r == Continue(Attempt(pats[i], o.ignoreCase, pkt, cur), Returned(AcceptCode(o)), kFail) by {
      ExecRet(prog, end, m0, pkt, AcceptCode(o));
      assert pats[i][0..] == pats[i];
      ExecSteps(prog, start, end, pats[i], 0, o.ignoreCase, i + 1, next, a, cur, m0, pkt,
                Returned(AcceptCode(o)), kFail);
    }
  }

  /** A `ret` ends the run with its value, whatever the registers hold. */
  lemma ExecRet(prog: seq<Instr>, pc: nat, m0: u32, pkt: seq<byte>, v: int)
    requires pc < |prog| && prog[pc] == Ret(v)
    ensures Restarts(prog, pc, m0, pkt, Returned(v))
  {
  }

  /** The label of a block, and the restore of X from M[0] in all but the first. */
  lemma BlockEntry(prog: seq<Instr>, pc: nat, start: nat, i: nat, a: u32, x: u32, m0: u32, pkt: seq<byte>, cur: u32)
    requires At(prog, pc, [Label(i)] + (if i != 0 then [Ldx0] else []))
    requires start == pc + (if i != 0 then 2 else 1)
    requires cur == if i == 0 then x else m0
    ensures Exec(prog, pc, Regs(a, x, m0), pkt) == Exec(prog, start, Regs(a, cur, m0), pkt)
  {
    var ldx: seq<Instr> := if i != 0 then [Ldx0] else [];
    AtIndex(prog, pc, [Label(i)] + ldx, 0);
    ExecMove(prog, pc, Regs(a, x, m0), Regs(a, x, m0), pkt);
    if i != 0 {
      AtIndex(prog, pc, [Label(i)] + ldx, 1);
      ExecMove(prog, pc + 1, Regs(a, x, m0), Regs(a, cur, m0), pkt);
    }
  }

  /** The blocks from the i-th on try the patterns from the i-th on, in order: the first
      block at the cursor in X, the later ones at the cursor kept in M[0]. */
  lemma {:induction false} ExecBlocks(prog: seq<Instr>, pats: seq<seq<Step>>, o: Options, i: nat,
                                      a: u32, x: u32, m0: u32, pkt: seq<byte>)
    requires Laid(prog, pats, o) && i <= |pats| && |pkt| + 256 <= WORD
    requires i == 0 && |pats| > 1 ==> m0 == x
    ensures Exec(prog, Start(pats, o, i), Regs(a, x, m0), pkt) == TryFrom(pats, i, o, pkt, if i == 0 then x else m0)
    decreases |pats| - i
  {
    var pc := Start(pats, o, i);
    var cur: u32 := if i == 0 then x else m0;
    if i == |pats| {
      ExecReject(prog, pc, i, o, a, x, m0, pkt);
    } else {
      var next := Start(pats, o, i + 1);
      var kFail := TryFrom(pats, i + 1, o, pkt, m0);
      forall a': u32, x': u32
        ensures Exec(prog, next, Regs(a', x', m0), pkt) == kFail
      {
        ExecBlocks(prog, pats, o, i + 1, a', x', m0, pkt);
      }
      assert Exec(prog, pc, Regs(a, x, m0), pkt)
          == Continue(Attempt(pats[i], o.ignoreCase, pkt, cur), Returned(AcceptCode(o)), kFail) by {
        LaidBlock(prog, pats, o, i);
        ExecBlock(prog, pc, next, pats, o, i, a, x, m0, pkt, cur, kFail);
      }
      TryNext(pats, o, i, pkt, x, m0);
    }
  }

  /** The reject block after the last pattern's block. */
  lemma ExecReject(prog: seq<Instr>, pc: nat, n: nat, o: Options, a: u32, x: u32, m0: u32, pkt: seq<byte>)
    requires At(prog, pc, [Label(n), Ret(RejectCode(o))])
    ensures Exec(prog, pc, Regs(a, x, m0), pkt) == Returned(RejectCode(o))
  {
    AtIndex(prog, pc, [Label(n), Ret(RejectCode(o))], 0);
    AtIndex(prog, pc, [Label(n), Ret(RejectCode(o))], 1);
    ExecMove(prog, pc, Regs(a, x, m0), Regs(a, x, m0), pkt);
  }

  /** The facts of the layout the i-th block needs. */
  lemma LaidBlock(prog: seq<Instr>, pats: seq<seq<Step>>, o: Options, i: nat)
    requires Laid(prog, pats, o) && i < |pats|
    ensures At(prog, Start(pats, o, i), Block(pats, i, o))
    ensures Start(pats, o, i + 1) == Start(pats, o, i) + |Block(pats, i, o)|
    ensures LabelIndex(prog, i + 1) == Some(Start(pats, o, i + 1))
  {
  }

  /** Trying the patterns from the i-th on: the i-th pattern at the cursor, then, when it does
      not match, the rest at the cursor kept in M[0], which the first block also starts from
      whenever there is a second. */
  lemma TryNext(pats: seq<seq<Step>>, o: Options, i: nat, pkt: seq<byte>, x: u32, m0: u32)
    requires i < |pats| && (i == 0 && |pats| > 1 ==> m0 == x)
    ensures var cur := if i == 0 then x else m0;
      TryFrom(pats, i, o, pkt, cur)
        == Continue(Attempt(pats[i], o.ignoreCase, pkt, cur), Returned(AcceptCode(o)), TryFrom(pats, i + 1, o, pkt, m0))
  {
  }

  /** Reducing modulo 2^32 before an addition changes nothing modulo 2^32. */
  lemma ModAdd(p: int, q: int)
    ensures ((p % WORD) + q) % WORD == (p + q) % WORD
  {
    var d := p / WORD;
    assert p == d * WORD + p % WORD;
    assert (p + q) == ((p % WORD) + q) + d * WORD;
  }

  /** The preamble: X, A and, when there are several blocks, M[0] hold the start of the
      question name, or the run aborts when the IPv4 header's first octet is missing. */
  lemma ExecPreamble(prog: seq<Instr>, pats: seq<seq<Step>>, o: Options, a: u32, x: u32, m0: u32, pkt: seq<byte>)
    requires At(prog, 0, Preamble(o, |pats|))
    ensures StartOffset(o, pkt).None? ==> Exec(prog, 0, Regs(a, x, m0), pkt) == Aborted
    ensures StartOffset(o, pkt).Some? ==>
      var s := StartOffset(o, pkt).value;
      && s < WORD
      && Exec(prog, 0, Regs(a, x, m0), pkt)
        == Exec(prog, |Preamble(o, |pats|)|, Regs(s, s, if |pats| > 1 then s else m0), pkt)
  {
    var pre := Preamble(o, |pats|);
    var n := if o.inet6 then 2 else 4;
    var head: seq<Instr> := if o.inet6 then [LdImm(o.l3Offset + 40 + 8 + 12)]
      else [LdxIpHeaderLen(o.l3Offset), LdImm(o.l3Offset + 8 + 12), AddX];
    var store: seq<Instr> := if |pats| > 1 then [St0] else [];
    assert pre == (head + [Tax]) + store;
    AtSplit(prog, 0, head + [Tax], store);
    if o.inet6 {
      assert head + [Tax] == [LdImm(o.l3Offset + 40 + 8 + 12), Tax];
      PreambleV6(prog, o, a, x, m0, pkt);
    } else {
      assert head + [Tax] == [LdxIpHeaderLen(o.l3Offset), LdImm(o.l3Offset + 8 + 12), AddX, Tax];
      PreambleV4(prog, o, a, x, m0, pkt);
    }
    if StartOffset(o, pkt).Some? {
      var s: u32 := StartOffset(o, pkt).value;
      PreambleStore(prog, n, store, |pats|, s, m0, pkt);
    }
  }

  /** With -6: the offset is the constant past the IPv6, UDP and DNS headers. */
  lemma PreambleV6(prog: seq<Instr>, o: Options, a: u32, x: u32, m0: u32, pkt: seq<byte>)
    requires o.inet6 && At(prog, 0, [LdImm(o.l3Offset + 40 + 8 + 12), Tax])
    ensures var s := StartOffset(o, pkt).value;
      Exec(prog, 0, Regs(a, x, m0), pkt) == Exec(prog, 2, Regs(s, s, m0), pkt)
  {
    var s: u32 := (o.l3Offset + 40 + 8 + 12) % WORD;
    AtIndex(prog, 0, [LdImm(o.l3Offset + 40 + 8 + 12), Tax], 0);
    AtIndex(prog, 0, [LdImm(o.l3Offset + 40 + 8 + 12), Tax], 1);
    ExecMove(prog, 0, Regs(a, x, m0), Regs(s, x, m0), pkt);
    ExecMove(prog, 1, Regs(s, x, m0), Regs(s, s, m0), pkt);
  }

  /** Without -6: the IPv4 header length, read from its first octet, is added to the constant
      past the UDP and DNS headers; the run aborts when that octet is not in the packet. */
  lemma PreambleV4(prog: seq<Instr>, o: Options, a: u32, x: u32, m0: u32, pkt: seq<byte>)
    requires !o.inet6 && At(prog, 0, [LdxIpHeaderLen(o.l3Offset), LdImm(o.l3Offset + 8 + 12), AddX, Tax])
    ensures StartOffset(o, pkt).None? ==> Exec(prog, 0, Regs(a, x, m0), pkt) == Aborted
    ensures StartOffset(o, pkt).Some? ==> var s := StartOffset(o, pkt).value;
      Exec(prog, 0, Regs(a, x, m0), pkt) == Exec(prog, 4, Regs(s, s, m0), pkt)
  {
    var l3 := o.l3Offset;
    var code := [LdxIpHeaderLen(l3), LdImm(l3 + 8 + 12), AddX, Tax];
    AtIndex(prog, 0, code, 0);
    if 0 <= l3 < |pkt| {
      var hl: u32 := 4 * (pkt[l3] % 16);
      var k: u32 := (l3 + 8 + 12) % WORD;
      var s: u32 := (l3 + 8 + 12 + hl) % WORD;
      ModAdd(l3 + 8 + 12, hl);
      AtIndex(prog, 0, code, 1);
      AtIndex(prog, 0, code, 2);
      AtIndex(prog, 0, code, 3);
      assert Exec(prog, 0, Regs(a, x, m0), pkt) == Exec(prog, 1, Regs(a, hl, m0), pkt);
      ExecMove(prog, 1, Regs(a, hl, m0), Regs(k, hl, m0), pkt);
      ExecMove(prog, 2, Regs(k, hl, m0), Regs(s, hl, m0), pkt);
      ExecMove(prog, 3, Regs(s, hl, m0), Regs(s, s, m0), pkt);
    }
  }

  /** The optional `st M[0]` that ends the preamble. */
  lemma PreambleStore(prog: seq<Instr>, pc: nat, store: seq<Instr>, count: nat, s: u32, m0: u32, pkt: seq<byte>)
    requires store == (if count > 1 then [St0] else []) && At(prog, pc, store)
    ensures Exec(prog, pc, Regs(s, s, m0), pkt) == Exec(prog, pc + |store|, Regs(s, s, if count > 1 then s else m0), pkt)
  {
    if count > 1 {
      AtIndex(prog, pc, store, 0);
      ExecMove(prog, pc, Regs(s, s, m0), Regs(s, s, s), pkt);
    }
  }

  /** The compiled filter decides every packet as Filter does: run from the first
      instruction, with any register contents, the listing of the patterns returns the
      accept value when a pattern matches the first question name, the reject value when
      none does, and aborts when a test reads past the end of the packet. */
  lemma FilterCorrect(pats: seq<seq<Step>>, o: Options, a: u32, x: u32, m0: u32, pkt: seq<byte>)
    requires |pkt| + 256 <= WORD
    ensures Exec(Program(pats, o), 0, Regs(a, x, m0), pkt) == Filter(pats, o, pkt)
  {
    var prog := Program(pats, o);
    ProgramLaid(pats, o);
    ExecPreamble(prog, pats, o, a, x, m0, pkt);
    if StartOffset(o, pkt).Some? {
      var s: u32 := StartOffset(o, pkt).value;
      assert Start(pats, o, 0) == |Preamble(o, |pats|)|;
      ExecBlocks(prog, pats, o, 0, s, s, if |pats| > 1 then s else m0, pkt);
    }
  }
}
