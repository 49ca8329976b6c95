/** The subset of the classic BPF machine (the packet filter's virtual machine) that the
    compiler emits, with symbolic labels as the assembler reads them, and an interpreter. */
module Bpf {
  import opened Bits

  /** One line of the generated listing. */
  datatype Instr =
    | LdxIpHeaderLen(k: int)      // ldx 4*([k]&0xf)
    | LdImm(k: int)               // ld #k
    | AddX                        // add x
    | AddImm(k: int)              // add #k
    | Tax                         // tax
    | Txa                         // txa
    | St0                         // st M[0]
    | Ldx0                        // ldx M[0]
    | LdInd(width: nat, off: nat) // ld [x + off], ldh [x + off], ldb [x + off] for width 4, 2, 1
    | OrImm(mask: u32)            // or #k
    | Jneq(imm: u32, target: nat) // jneq #k, lb_target
    | Ret(v: int)                 // ret #v
    | Label(name: nat)            // lb_name:

  /** The accumulator A, the index register X and the scratch cell M[0]. */
  datatype Regs = Regs(a: u32, x: u32, m0: u32)

  /** How a run of the filter ends: a `ret`, a packet access past the end of the packet
      (the kernel then returns 0), or a program this model cannot run on: one that runs off
      its end, loads a width other than 1, 2 or 4, or jumps to a label that is not declared
      or not ahead. The limits of the assembled form (a conditional jump offset of at most
      255 instructions, at most 4096 instructions) are not checked here. */
  datatype Outcome = Returned(v: int) | Aborted | Malformed

  /** Where label `lb_name` is declared: its first declaration, if any. */
  function LabelIndex(prog: seq<Instr>, name: nat): Option<nat>
  {
    if prog == [] then None
    else if prog[0] == Label(name) then Some(0)
    else match LabelIndex(prog[1..], name)
      case None => None
      case Some(j) => Some(j + 1)
  }

  /** The label index is the first declaration of the label, and there is none when it is None. */
  lemma {:induction false} LabelIndexFirst(prog: seq<Instr>, name: nat)
    ensures LabelIndex(prog, name).Some? ==>
      var j := LabelIndex(prog, name).value;
      j < |prog| && prog[j] == Label(name) && forall k :: 0 <= k < j ==> prog[k] != Label(name)
    ensures LabelIndex(prog, name).None? ==> forall k :: 0 <= k < |prog| ==> prog[k] != Label(name)
  {
    if prog != [] && prog[0] != Label(name) {
      LabelIndexFirst(prog[1..], name);
      assert forall k :: 1 <= k < |prog| ==> prog[1..][k - 1] == prog[k];
    }
  }

  /** The big-endian value of the w octets of the packet from i on, as `ld`, `ldh` and
      `ldb` load them. */
  function Load(pkt: seq<byte>, i: nat, w: nat): u32
    requires i + w <= |pkt| && w <= 4
  {
    Word(pkt[i..i + w])
  }

  /** Where one instruction leaves the machine: stopped with an outcome, or at the next
      instruction to run with the new registers. */
  datatype Transition = Stop(outcome: Outcome) | Goto(next: nat, regs: Regs)

  /** Runs the instruction at pc. A failed `jneq` goes to the first declaration of its label. */
  function Step(prog: seq<Instr>, pc: nat, r: Regs, pkt: seq<byte>): Transition
    requires pc < |prog|
  {
    match prog[pc]
    case Ret(v) => Stop(Returned(v))
    case LdxIpHeaderLen(k) =>
      if 0 <= k < |pkt| then Goto(pc + 1, r.(x := 4 * (pkt[k] % 16))) else Stop(Aborted)
    case LdInd(w, off) =>
      var i := r.x + off;
      if w != 1 && w != 2 && w != 4 then Stop(Malformed)
      else if i + w > |pkt| then Stop(Aborted)
      else Goto(pc + 1, r.(a := Load(pkt, i, w)))
    case Jneq(k, t) =>
      if r.a == k then Goto(pc + 1, r)
      else (match LabelIndex(prog, t)
        case None => Stop(Malformed)
        case Some(j) => Goto(j, r))
    case _ => Goto(pc + 1, Move(prog[pc], r))
  }

  /** Runs the program from instruction pc. Jumps go forward only: a jump to a label that is
      missing or not after the jump, like running off the end, is a malformed program. */
  function Exec(prog: seq<Instr>, pc: nat, r: Regs, pkt: seq<byte>): Outcome
    decreases |prog| - pc
  {
    if pc >= |prog| then Malformed
    else match Step(prog, pc, r, pkt)
      case Stop(o) => o
      case Goto(j, r') => if j > pc then Exec(prog, j, r', pkt) else Malformed
  }

  /** The registers after an instruction that neither reads the packet, jumps nor returns;
      additions wrap around at 2^32. */
  function Move(i: Instr, r: Regs): Regs
  {
    match i
    case LdImm(k) => r.(a := k % WORD)
    case AddX => r.(a := (r.a + r.x) % WORD)
    case AddImm(k) => r.(a := (r.a + k) % WORD)
    case Tax => r.(x := r.a)
    case Txa => r.(a := r.x)
    case St0 => r.(m0 := r.a)
    case Ldx0 => r.(x := r.m0)
    case OrImm(k) => r.(a := WordOr(r.a, k))
    case _ => r
  }

  /** Code occupies the instructions from pc on. */
  predicate At(prog: seq<Instr>, pc: nat, code: seq<Instr>)
  {
    pc + |code| <= |prog| && forall k :: 0 <= k < |code| ==> prog[pc + k] == code[k]
  }

  lemma AtSplit(prog: seq<Instr>, pc: nat, c1: seq<Instr>, c2: seq<Instr>)
    requires At(prog, pc, c1 + c2)
    ensures At(prog, pc, c1) && At(prog, pc + |c1|, c2)
  {
    forall k | 0 <= k < |c1|
      ensures prog[pc + k] == c1[k]
    {
      assert prog[pc + k] == (c1 + c2)[k];
    }
    forall k | 0 <= k < |c2|
      ensures prog[pc + |c1| + k] == c2[k]
    {
      assert prog[pc + (|c1| + k)] == (c1 + c2)[|c1| + k];
    }
  }

  lemma AtIndex(prog: seq<Instr>, pc: nat, code: seq<Instr>, k: nat)
    requires At(prog, pc, code) && k < |code|
    ensures prog[pc + k] == code[k]
  {

  }

  lemma ExecLoad(prog: seq<Instr>, pc: nat, r: Regs, pkt: seq<byte>, w: nat, off: nat)
    requires pc < |prog| && prog[pc] == LdInd(w, off) && (w == 1 || w == 2 || w == 4)
    ensures r.x + off + w > |pkt| ==> Exec(prog, pc, r, pkt) == Aborted
    ensures r.x + off + w <= |pkt| ==>
      Exec(prog, pc, r, pkt) == Exec(prog, pc + 1, Regs(Load(pkt, r.x + off, w), r.x, r.m0), pkt)
  {
  }

  lemma ExecJneq(prog: seq<Instr>, pc: nat, r: Regs, pkt: seq<byte>, k: u32, t: nat, f: nat)
    requires pc < |prog| && prog[pc] == Jneq(k, t) && LabelIndex(prog, t) == Some(f) && f > pc
    ensures r.a == k ==> Exec(prog, pc, r, pkt) == Exec(prog, pc + 1, r, pkt)
    ensures r.a != k ==> Exec(prog, pc, r, pkt) == Exec(prog, f, r, pkt)
  {
  }

  lemma ExecMove(prog: seq<Instr>, pc: nat, r: Regs, r': Regs, pkt: seq<byte>)
    requires pc < |prog|
    requires prog[pc].Label? || prog[pc].LdImm? || prog[pc].AddX? || prog[pc].AddImm? || prog[pc].Tax?
          || prog[pc].Txa? || prog[pc].St0? || prog[pc].Ldx0? || prog[pc].OrImm?
    requires Move(prog[pc], r) == r'
    ensures Exec(prog, pc, r, pkt) == Exec(prog, pc + 1, r', pkt)
  {
  }
}
