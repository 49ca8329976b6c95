/** The generated listing does what the patterns mean: run on the filter machine, the
    program of a list of patterns returns the value Filter gives for the packet. */
module Correctness {
  import opened Bits
  import opened Labels
  import opened Merge
  import opened Bpf
  import opened Emit
  import opened Semantics
  import opened Compiler

  /** How the machine goes on after a comparison: kOk when it matched, kFail when it did not,
      and the kernel's abort when it read past the packet. */
  function Continue(v: Verdict, kOk: Outcome, kFail: Outcome): Outcome
  {
    match v
    case Match => kOk
    case NoMatch => kFail
    case OutOfBounds => Aborted
  }

  /** From pc on, the program ends in k whatever A holds, when X holds x and M[0] holds m0. */
  predicate Yields(prog: seq<Instr>, pc: nat, x: int, m0: u32, pkt: seq<byte>, k: Outcome)
  {
    0 <= x < WORD && forall a: u32 :: Exec(prog, pc, Regs(a, x, m0), pkt) == k
  }

  /** From pc on, the program ends in k whatever A and X hold, when M[0] holds m0. */
  predicate Restarts(prog: seq<Instr>, pc: nat, m0: u32, pkt: seq<byte>, k: Outcome)
  {
    forall a: u32, x: u32 :: Exec(prog, pc, Regs(a, x, m0), pkt) == k
  }

  /** The octets of one chunk compare equal under their masks exactly when each agrees with
      the packet octet under it. */
  lemma ChunkAgree(run: seq<WireByte>, ignoreCase: bool, pkt: seq<byte>, x: nat, off: nat, w: nat)
    requires off + w <= |run| && x + off + w <= |pkt|
    ensures var m := Masks(run, ignoreCase)[off..off + w];
      ByteOrs(pkt[x + off..x + off + w], m) == ByteOrs(Values(run)[off..off + w], m)
      <==> forall i :: off <= i < off + w ==> Agrees(run[i], ignoreCase, pkt[x + i])
  {
    var m := Masks(run, ignoreCase)[off..off + w];
    var p := ByteOrs(pkt[x + off..x + off + w], m);
    var v := ByteOrs(Values(run)[off..off + w], m);
    forall k | 0 <= k < w
      ensures p[k] == v[k] <==> Agrees(run[off + k], ignoreCase, pkt[x + off + k])
    {
      MaskMeaning(run[off + k], ignoreCase, pkt[x + off + k]);
    }
    if p == v {
      forall i | off <= i < off + w
        ensures Agrees(run[i], ignoreCase, pkt[x + i])
      {
        assert p[i - off] == v[i - off];
      }
    }
    if forall i :: off <= i < off + w ==> Agrees(run[i], ignoreCase, pkt[x + i]) {
      forall k | 0 <= k < w
        ensures p[k] == v[k]
      {
        assert Agrees(run[off + k], ignoreCase, pkt[x + (off + k)]);
      }
    }
  }

  /** A loaded word as the chunk test compares it: ORed with the mask when there is one. */
  function Masked(word: u32, mask: u32): u32
  {
    if mask == 0 then word else WordOr(word, mask)
  }

  /** The load of a chunk that lies inside the packet, and the OR of the mask when there is
      one: the comparison at last sees the masked word. */
  lemma ExecMaskedLoad(prog: seq<Instr>, pc: nat, last: nat, w: nat, off: nat, km: u32,
                       a: u32, x: u32, m0: u32, pkt: seq<byte>)
    requires (w == 1 || w == 2 || w == 4) && x + off + w <= |pkt|
    requires last == pc + (if km == 0 then 1 else 2) && last < |prog|
    requires prog[pc] == LdInd(w, off)
    requires km != 0 ==> prog[pc + 1] == OrImm(km)
    ensures Exec(prog, pc, Regs(a, x, m0), pkt) == Exec(prog, last, Regs(Masked(Load(pkt, x + off, w), km), x, m0), pkt)
  {
    if km == 0 {
      ExecLoad(prog, pc, Regs(a, x, m0), pkt, w, off);
    } else {
      ExecLoadOr(prog, pc, w, off, km, a, x, m0, pkt);
    }
  }

  /** A load followed by the OR of a mask. */
  lemma ExecLoadOr(prog: seq<Instr>, pc: nat, w: nat, off: nat, km: u32, a: u32, x: u32, m0: u32, pkt: seq<byte>)
    requires (w == 1 || w == 2 || w == 4) && x + off + w <= |pkt|
    requires pc + 2 < |prog| && prog[pc] == LdInd(w, off) && prog[pc + 1] == OrImm(km)
    ensures Exec(prog, pc, Regs(a, x, m0), pkt) == Exec(prog, pc + 2, Regs(WordOr(Load(pkt, x + off, w), km), x, m0), pkt)
  {
    var word := Load(pkt, x + off, w);
    var next := pc + 1;
    ExecLoad(prog, pc, Regs(a, x, m0), pkt, w, off);
    ExecMove(prog, next, Regs(word, x, m0), Regs(WordOr(word, km), x, m0), pkt);
  }

  /** The masked packet word equals the masked chunk exactly when the octet-wise ORs with
      the masks are equal. */
  lemma MaskedCompare(p: seq<byte>, v: seq<byte>, m: seq<byte>)
    requires |p| == |v| == |m| <= 4
    ensures Masked(Word(p), Word(m)) == Word(ByteOrs(v, m)) <==> ByteOrs(p, m) == ByteOrs(v, m)
  {
    WordOrPack(p, m);
    PackZero(m);
    if Word(m) == 0 {
      assert ByteOrs(p, m) == p by {
        forall i | 0 <= i < |p| ensures ByteOrs(p, m)[i] == p[i] {
          ByteOrZero(p[i]);
        }
      }
    }
    if Pack(ByteOrs(p, m)) == Pack(ByteOrs(v, m)) {
      PackInjective(ByteOrs(p, m), ByteOrs(v, m));
    }
  }

  /** What the machine decides on one chunk test: an abort when the load runs past the
      packet, else a match when the loaded word, ORed with the mask if there is one, equals
      the chunk's value. */
  function ChunkVerdict(c: Chunk, pkt: seq<byte>, x: u32): Verdict
  {
    if x + c.off + c.width > |pkt| then OutOfBounds
    else
      if Masked(Load(pkt, x + c.off, c.width), c.mask) == c.value then Match else NoMatch
  }

  /** The verdicts of a sequence of chunk tests: the first one that is not a match, if any. */
  function CodeVerdict(cs: seq<Chunk>, pkt: seq<byte>, x: u32): Verdict
  {
    if cs == [] then Match
    else
      match ChunkVerdict(cs[0], pkt, x)
      case Match => CodeVerdict(cs[1..], pkt, x)
      case v => v
  }

  /** The code of one chunk that lies inside the packet: on when the masked word equals the
      chunk's value, else to the failure label. */
  lemma ExecChunkInside(prog: seq<Instr>, pc: nat, last: nat, c: Chunk, target: nat, f: nat,
                        a: u32, x: u32, m0: u32, pkt: seq<byte>, kOk: Outcome, kFail: Outcome)
    requires x + c.off + c.width <= |pkt|
    requires last == pc + (if c.mask == 0 then 1 else 2) && last < |prog|
    requires prog[pc] == LdInd(c.width, c.off)
    requires c.mask != 0 ==> prog[pc + 1] == OrImm(c.mask)
    requires prog[last] == Jneq(c.value, target)
    requires LabelIndex(prog, target) == Some(f) && f > last
    requires Yields(prog, f, x, m0, pkt, kFail)
    requires ChunkVerdict(c, pkt, x) == Match ==> Yields(prog, last + 1, x, m0, pkt, kOk)
    ensures Exec(prog, pc, Regs(a, x, m0), pkt) == Continue(ChunkVerdict(c, pkt, x), kOk, kFail)
  {
    var acc := Masked(Load(pkt, x + c.off, c.width), c.mask);
    var r := Regs(acc, x, m0);
    assert Exec(prog, pc, Regs(a, x, m0), pkt) == Exec(prog, last, r, pkt) by {
      ExecMaskedLoad(prog, pc, last, c.width, c.off, c.mask, a, x, m0, pkt);
    }
    if acc == c.value {
      assert Exec(prog, last + 1, r, pkt) == kOk;
    } else {
      assert Exec(prog, f, r, pkt) == kFail;
    }
    ExecJneq(prog, last, r, pkt, c.value, target, f);
  }

  /** The code of one chunk, run on the machine, decides as ChunkVerdict. */
  lemma ExecChunk(prog: seq<Instr>, pc: nat, c: Chunk, target: nat, f: nat,
                  a: u32, x: u32, m0: u32, pkt: seq<byte>, kOk: Outcome, kFail: Outcome)
    requires At(prog, pc, ChunkCode(c, target))
    requires LabelIndex(prog, target) == Some(f) && f >= pc + |ChunkCode(c, target)|
    requires Yields(prog, f, x, m0, pkt, kFail)
    requires ChunkVerdict(c, pkt, x) == Match ==> Yields(prog, pc + |ChunkCode(c, target)|, x, m0, pkt, kOk)
    ensures Exec(prog, pc, Regs(a, x, m0), pkt) == Continue(ChunkVerdict(c, pkt, x), kOk, kFail)
  {
    var code := ChunkCode(c, target);
    var last := pc + |code| - 1;
    ChunkCodeAt(prog, pc, c, target);
    if x + c.off + c.width > |pkt| {
      ExecLoad(prog, pc, Regs(a, x, m0), pkt, c.width, c.off);
    } else {
      ExecChunkInside(prog, pc, last, c, target, f, a, x, m0, pkt, kOk, kFail);
    }
  }

  lemma ChunkCodeAt(prog: seq<Instr>, pc: nat, c: Chunk, target: nat)
    requires At(prog, pc, ChunkCode(c, target))
    ensures var last := pc + |ChunkCode(c, target)| - 1;
      && last == pc + (if c.mask == 0 then 1 else 2) && last < |prog|
      && prog[pc] == LdInd(c.width, c.off) && (c.mask != 0 ==> prog[pc + 1] == OrImm(c.mask))
      && prog[last] == Jneq(c.value, target)
  {
    var code := ChunkCode(c, target);
    AtIndex(prog, pc, code, 0);
    AtIndex(prog, pc, code, |code| - 1);
    if c.mask != 0 {
      AtIndex(prog, pc, code, 1);
    }
  }

  /** The chunk tests, run on the machine, decide as CodeVerdict. */
  lemma {:induction false} ExecChunks(prog: seq<Instr>, pc: nat, end: nat, cs: seq<Chunk>, target: nat, f: nat,
                                      a: u32, x: u32, m0: u32, pkt: seq<byte>, kOk: Outcome, kFail: Outcome)
    requires At(prog, pc, ChunksCode(cs, target))
    requires end == pc + |ChunksCode(cs, target)|
    requires LabelIndex(prog, target) == Some(f) && f >= end
    requires Yields(prog, f, x, m0, pkt, kFail)
    requires CodeVerdict(cs, pkt, x) == Match ==> Yields(prog, end, x, m0, pkt, kOk)
    ensures Exec(prog, pc, Regs(a, x, m0), pkt) == Continue(CodeVerdict(cs, pkt, x), kOk, kFail)
    decreases |cs|, 0
  {
    if cs != [] {
      var next := pc + |ChunkCode(cs[0], target)|;
      var kNext := Continue(CodeVerdict(cs[1..], pkt, x), kOk, kFail);
      CodeVerdictCons(cs, pkt, x, kOk, kFail);
      ChunksAtSplit(prog, pc, end, cs, target);
      if ChunkVerdict(cs[0], pkt, x) == Match {
        ChunksRest(prog, next, end, cs[1..], target, f, x, m0, pkt, kOk, kFail);
      }
      ExecChunk(prog, pc, cs[0], target, f, a, x, m0, pkt, kNext, kFail);
    }
  }

  /** The verdict of the chunk tests is that of the first one, or when it matches, that of the others. */
  lemma CodeVerdictCons(cs: seq<Chunk>, pkt: seq<byte>, x: u32, kOk: Outcome, kFail: Outcome)
    requires cs != []
    ensures ChunkVerdict(cs[0], pkt, x) == Match ==> CodeVerdict(cs, pkt, x) == CodeVerdict(cs[1..], pkt, x)
    ensures Continue(ChunkVerdict(cs[0], pkt, x), Continue(CodeVerdict(cs[1..], pkt, x), kOk, kFail), kFail)
      == Continue(CodeVerdict(cs, pkt, x), kOk, kFail)
  {
  }

  /** The chunk tests from pc on decide as CodeVerdict whatever A holds. */
  lemma {:induction false} ChunksRest(prog: seq<Instr>, pc: nat, end: nat, cs: seq<Chunk>, target: nat, f: nat,
                                      x: u32, m0: u32, pkt: seq<byte>, kOk: Outcome, kFail: Outcome)
    requires At(prog, pc, ChunksCode(cs, target))
    requires end == pc + |ChunksCode(cs, target)|
    requires LabelIndex(prog, target) == Some(f) && f >= end
    requires Yields(prog, f, x, m0, pkt, kFail)
    requires CodeVerdict(cs, pkt, x) == Match ==> Yields(prog, end, x, m0, pkt, kOk)
    ensures Yields(prog, pc, x, m0, pkt, Continue(CodeVerdict(cs, pkt, x), kOk, kFail))
    decreases |cs|, 1
  {
    forall a: u32
      ensures Exec(prog, pc, Regs(a, x, m0), pkt) == Continue(CodeVerdict(cs, pkt, x), kOk, kFail)
    {
      ExecChunks(prog, pc, end, cs, target, f, a, x, m0, pkt, kOk, kFail);
    }
  }

  /** The tests of the first chunk, then those of the others. */
  lemma ChunksAtSplit(prog: seq<Instr>, pc: nat, end: nat, cs: seq<Chunk>, target: nat)
    requires cs != [] && At(prog, pc, ChunksCode(cs, target)) && end == pc + |ChunksCode(cs, target)|
    ensures var next := pc + |ChunkCode(cs[0], target)|;
      && At(prog, pc, ChunkCode(cs[0], target)) && At(prog, next, ChunksCode(cs[1..], target))
      && end == next + |ChunksCode(cs[1..], target)|
  {
    AtSplit(prog, pc, ChunkCode(cs[0], target), ChunksCode(cs[1..], target));
  }

  /** The machine's test of a chunk whose value and mask are the packed masked octets v
      and masks m compares the masked packet octets with the masked v. */
  lemma ChunkVerdictOf(c: Chunk, pkt: seq<byte>, x: u32, v: seq<byte>, m: seq<byte>)
    requires |v| == |m| == c.width
    requires c.value == Word(ByteOrs(v, m)) && c.mask == Word(m)
    ensures ChunkVerdict(c, pkt, x) == OctetsVerdict(pkt, x, c.off, v, m)
  {
    if x + c.off + c.width <= |pkt| {
      var p := pkt[x + c.off..x + c.off + c.width];
      assert Load(pkt, x + c.off, c.width) == Word(p);
      assert Masked(Word(p), Word(m)) == Word(ByteOrs(v, m)) <==> ByteOrs(p, m) == ByteOrs(v, m) by {
        MaskedCompare(p, v, m);
      }
    }
  }

  /** The machine's test of a chunk decides what comparing the masked octets decides. */
  lemma ChunkVerdictMeaning(vals: seq<byte>, masks: seq<byte>, pkt: seq<byte>, x: u32, off: nat)
    requires |vals| == |masks| && off < |vals|
    ensures var w := Width(|vals| - off);
      ChunkVerdict(ChunkAt(vals, masks, off), pkt, x) == OctetsVerdict(pkt, x, off, vals[off..off + w], masks[off..off + w])
  {
    var w := Width(|vals| - off);
    var c := ChunkAt(vals, masks, off);
    var v, m := vals[off..off + w], masks[off..off + w];
    assert |v| == |m| == c.width && c.value == Word(ByteOrs(v, m)) && c.mask == Word(m);
    ChunkVerdictOf(c, pkt, x, v, m);
  }

  /** The comparison of octets v, masked with m, with the packet octets at x + off, masked
      the same way: out of bounds when they run past the packet. */
  function OctetsVerdict(pkt: seq<byte>, x: nat, off: nat, v: seq<byte>, m: seq<byte>): Verdict
    requires |v| == |m|
  {
    if x + off + |v| > |pkt| then OutOfBounds
    else if ByteOrs(pkt[x + off..x + off + |v|], m) == ByteOrs(v, m) then Match else NoMatch
  }

  /** What the chunk tests of a run decide, chunk by chunk: out of bounds when a chunk runs
      past the packet, no match when its masked octets differ from the masked run. */
  function ChunksVerdict(vals: seq<byte>, masks: seq<byte>, pkt: seq<byte>, x: nat, off: nat): Verdict
    requires |vals| == |masks| && off <= |vals|
    decreases |vals| - off
  {
    if off == |vals| then Match
    else
      var w := Width(|vals| - off);
      match OctetsVerdict(pkt, x, off, vals[off..off + w], masks[off..off + w])
      case Match => ChunksVerdict(vals, masks, pkt, x, off + w)
      case v => v
  }

  /** The masked comparison of one chunk decides what the octet-wise agreement decides. */
  lemma OctetsVerdictMeaning(run: seq<WireByte>, ignoreCase: bool, pkt: seq<byte>, x: nat, off: nat, w: nat)
    requires off + w <= |run|
    ensures OctetsVerdict(pkt, x, off, Values(run)[off..off + w], Masks(run, ignoreCase)[off..off + w])
      == ChunkMatch(run, ignoreCase, pkt, x, off, w)
  {
    if x + off + w <= |pkt| {
      ChunkAgree(run, ignoreCase, pkt, x, off, w);
    }
  }

  /** The masked comparisons decide exactly what the octet-wise agreement of the run decides. */
  lemma {:induction false} ChunksVerdictMeaning(run: seq<WireByte>, ignoreCase: bool, pkt: seq<byte>, x: nat, off: nat)
    requires off <= |run|
    ensures ChunksVerdict(Values(run), Masks(run, ignoreCase), pkt, x, off) == RunFrom(run, ignoreCase, pkt, x, off)
    decreases |run| - off
  {
    if off < |run| {
      var vals, masks := Values(run), Masks(run, ignoreCase);
      var w := Width(|run| - off);
      var next := off + w;
      assert OctetsVerdict(pkt, x, off, vals[off..next], masks[off..next]) == ChunkMatch(run, ignoreCase, pkt, x, off, w) by {
        OctetsVerdictMeaning(run, ignoreCase, pkt, x, off, w);
      }
      assert ChunksVerdict(vals, masks, pkt, x, next) == RunFrom(run, ignoreCase, pkt, x, next) by {
        ChunksVerdictMeaning(run, ignoreCase, pkt, x, next);
      }
    }
  }

  /** The chunks of a run decide what the chunk-by-chunk comparison of its masked octets decides. */
  lemma {:induction false} CodeVerdictMeaning(vals: seq<byte>, masks: seq<byte>, pkt: seq<byte>, x: u32, off: nat)
    requires |vals| == |masks| && off <= |vals|
    ensures CodeVerdict(Chunks(vals, masks, off), pkt, x) == ChunksVerdict(vals, masks, pkt, x, off)
    decreases |vals| - off
  {
    if off < |vals| {
      var c := ChunkAt(vals, masks, off);
      var w := c.width;
      var next := off + w;
      var cs := Chunks(vals, masks, off);
      assert cs[0] == c && cs[1..] == Chunks(vals, masks, next);
      assert ChunkVerdict(c, pkt, x) == OctetsVerdict(pkt, x, off, vals[off..next], masks[off..next]) by {
        ChunkVerdictMeaning(vals, masks, pkt, x, off);
      }
      assert CodeVerdict(cs[1..], pkt, x) == ChunksVerdict(vals, masks, pkt, x, next) by {
        CodeVerdictMeaning(vals, masks, pkt, x, next);
      }
    }
  }

  /** `match_star` run on the machine: an abort when the length octet under X lies past the
      packet, else X and A move past the label that octet announces. */
  lemma ExecStar(prog: seq<Instr>, pc: nat, a: u32, x: u32, m0: u32, pkt: seq<byte>)
    requires At(prog, pc, StarCode())
    requires |pkt| + 256 <= WORD
    ensures x >= |pkt| ==> Exec(prog, pc, Regs(a, x, m0), pkt) == Aborted
    ensures x < |pkt| ==> (x + pkt[x] + 1 < WORD &&
      Exec(prog, pc, Regs(a, x, m0), pkt) == Exec(prog, pc + 4, Regs(x + pkt[x] + 1, x + pkt[x] + 1, m0), pkt))
  {
    StarAt(prog, pc);
    if x >= |pkt| {
      ExecLoad(prog, pc, Regs(a, x, m0), pkt, 1, 0);
    } else {
      var len := pkt[x];
      var y: u32 := x + len + 1;
      ExecLoadOctet(prog, pc, a, x, m0, pkt);
      ExecMove(prog, pc + 1, Regs(len, x, m0), Regs(x + len, x, m0), pkt);
      ExecMove(prog, pc + 2, Regs(x + len, x, m0), Regs(y, x, m0), pkt);
      ExecMove(prog, pc + 3, Regs(y, x, m0), Regs(y, y, m0), pkt);
    }
  }

  lemma StarAt(prog: seq<Instr>, pc: nat)
    requires At(prog, pc, StarCode())
    ensures pc + 4 <= |prog|
    ensures prog[pc] == LdInd(1, 0) && prog[pc + 1] == AddX && prog[pc + 2] == AddImm(1) && prog[pc + 3] == Tax
  {
    var code := StarCode();
    AtIndex(prog, pc, code, 0);
    AtIndex(prog, pc, code, 1);
    AtIndex(prog, pc, code, 2);
    AtIndex(prog, pc, code, 3);
  }

  /** Loading the one octet under X. */
  lemma ExecLoadOctet(prog: seq<Instr>, pc: nat, a: u32, x: u32, m0: u32, pkt: seq<byte>)
    requires pc < |prog| && prog[pc] == LdInd(1, 0) && x < |pkt|
    ensures Exec(prog, pc, Regs(a, x, m0), pkt) == Exec(prog, pc + 1, Regs(pkt[x], x, m0), pkt)
  {
    ExecLoad(prog, pc, Regs(a, x, m0), pkt, 1, 0);
    assert pkt[x..x + 1] == [pkt[x]];
    assert Pack([pkt[x]]) == 256 * Pack([]) + pkt[x];
  }

  /** The advance after a run that does not end the pattern: X (and A) move n octets on. */
  lemma ExecAdvance(prog: seq<Instr>, pc: nat, n: nat, a: u32, x: u32, m0: u32, pkt: seq<byte>)
    requires At(prog, pc, AdvanceCode(n, false))
    requires x + n < WORD
    ensures Exec(prog, pc, Regs(a, x, m0), pkt) == Exec(prog, pc + 3, Regs(x + n, x + n, m0), pkt)
  {
    var code := AdvanceCode(n, false);
    var y: u32 := x + n;
    AtIndex(prog, pc, code, 0);
    AtIndex(prog, pc, code, 1);
    AtIndex(prog, pc, code, 2);
    ExecMove(prog, pc, Regs(a, x, m0), Regs(x, x, m0), pkt);
    ExecMove(prog, pc + 1, Regs(x, x, m0), Regs(y, x, m0), pkt);
    ExecMove(prog, pc + 2, Regs(y, x, m0), Regs(y, y, m0), pkt);
  }

  /** What the machine does after the advance is what it does at the start of the advance. */
  lemma AdvanceYields(prog: seq<Instr>, pc: nat, end: nat, n: nat, last: bool, x: u32, y: u32, m0: u32, pkt: seq<byte>, k: Outcome)
    requires !last && At(prog, pc, AdvanceCode(n, last)) && end == pc + |AdvanceCode(n, last)|
    requires y == x + n && Yields(prog, end, y, m0, pkt, k)
    ensures Yields(prog, pc, x, m0, pkt, k)
  {
    forall a: u32
      ensures Exec(prog, pc, Regs(a, x, m0), pkt) == k
    {
      ExecAdvance(prog, pc, n, a, x, m0, pkt);
      assert Exec(prog, end, Regs(y, y, m0), pkt) == k;
    }
  }

  /** The chunk tests of a run decide what RunFrom decides on the whole run. */
  lemma ExactVerdict(run: seq<WireByte>, ignoreCase: bool, pkt: seq<byte>, x: u32)
    ensures CodeVerdict(Chunks(Values(run), Masks(run, ignoreCase), 0), pkt, x) == RunFrom(run, ignoreCase, pkt, x, 0)
  {
    CodeVerdictMeaning(Values(run), Masks(run, ignoreCase), pkt, x, 0);
    ChunksVerdictMeaning(run, ignoreCase, pkt, x, 0);
  }

  /** The listing of `match_exact` is its chunk tests followed by the advance. */
  lemma ExactAt(prog: seq<Instr>, pc: nat, end: nat, run: seq<WireByte>, ignoreCase: bool, target: nat, last: bool)
    requires At(prog, pc, ExactCode(run, ignoreCase, target, last))
    requires end == pc + |ExactCode(run, ignoreCase, target, last)|
    ensures var chunks := ChunksCode(Chunks(Values(run), Masks(run, ignoreCase), 0), target);
      && At(prog, pc, chunks) && At(prog, pc + |chunks|, AdvanceCode(|run|, last))
      && end == pc + |chunks| + |AdvanceCode(|run|, last)|
  {
    var chunks := ChunksCode(Chunks(Values(run), Masks(run, ignoreCase), 0), target);
    AtSplit(prog, pc, chunks, AdvanceCode(|run|, last));
  }

  /** `match_exact` run on the machine decides what RunFrom decides on the whole run; after
      a match the machine goes on at end, with X at after: past the run unless the run ends
      the pattern. */
  lemma ExecExact(prog: seq<Instr>, pc: nat, end: nat, run: seq<WireByte>, ignoreCase: bool, target: nat, last: bool,
                  f: nat, a: u32, x: u32, after: int, m0: u32, pkt: seq<byte>, kOk: Outcome, kFail: Outcome)
    requires At(prog, pc, ExactCode(run, ignoreCase, target, last))
    requires end == pc + |ExactCode(run, ignoreCase, target, last)|
    requires LabelIndex(prog, target) == Some(f) && f >= end
    requires Yields(prog, f, x, m0, pkt, kFail)
    requires |pkt| < WORD && after == if last then x else x + |run|
    requires RunFrom(run, ignoreCase, pkt, x, 0) == Match ==> Yields(prog, end, after, m0, pkt, kOk)
    ensures Exec(prog, pc, Regs(a, x, m0), pkt) == Continue(RunFrom(run, ignoreCase, pkt, x, 0), kOk, kFail)
  {
    var cs := Chunks(Values(run), Masks(run, ignoreCase), 0);
    var mid := pc + |ChunksCode(cs, target)|;
    ExactPieces(prog, pc, mid, end, run, ignoreCase, target, last, x, pkt);
    ExactAdvance(prog, mid, end, run, ignoreCase, last, x, after, m0, pkt, kOk);
    ExecChunks(prog, pc, mid, cs, target, f, a, x, m0, pkt, kOk, kFail);
  }

  /** The chunk tests of `match_exact` occupy the listing up to mid, the advance the rest,
      and the tests decide what RunFrom decides. */
  lemma ExactPieces(prog: seq<Instr>, pc: nat, mid: nat, end: nat, run: seq<WireByte>, ignoreCase: bool,
                    target: nat, last: bool, x: u32, pkt: seq<byte>)
    requires At(prog, pc, ExactCode(run, ignoreCase, target, last))
    requires end == pc + |ExactCode(run, ignoreCase, target, last)|
    requires mid == pc + |ChunksCode(Chunks(Values(run), Masks(run, ignoreCase), 0), target)|
    ensures var cs := Chunks(Values(run), Masks(run, ignoreCase), 0);
      && At(prog, pc, ChunksCode(cs, target))
      && At(prog, mid, AdvanceCode(|run|, last)) && end == mid + |AdvanceCode(|run|, last)|
      && CodeVerdict(cs, pkt, x) == RunFrom(run, ignoreCase, pkt, x, 0)
  {
    ExactAt(prog, pc, end, run, ignoreCase, target, last);
    ExactVerdict(run, ignoreCase, pkt, x);
  }

  /** After a run that matched, the advance, if any, brings the machine to end with X at after. */
  lemma ExactAdvance(prog: seq<Instr>, mid: nat, end: nat, run: seq<WireByte>, ignoreCase: bool, last: bool,
                     x: u32, after: int, m0: u32, pkt: seq<byte>, kOk: Outcome)
    requires At(prog, mid, AdvanceCode(|run|, last)) && end == mid + |AdvanceCode(|run|, last)|
    requires |pkt| < WORD && after == if last then x else x + |run|
    requires RunFrom(run, ignoreCase, pkt, x, 0) == Match ==> Yields(prog, end, after, m0, pkt, kOk)
    ensures RunFrom(run, ignoreCase, pkt, x, 0) == Match ==> Yields(prog, mid, x, m0, pkt, kOk)
  {
    if RunFrom(run, ignoreCase, pkt, x, 0) == Match && !last {
      assert x + |run| < WORD by {
        if |run| > 0 {
          RunMatchInside(run, ignoreCase, pkt, x, 0);
        }
      }
      AdvanceYields(prog, mid, end, |run|, last, x, after, m0, pkt, kOk);
    }
  }
}
